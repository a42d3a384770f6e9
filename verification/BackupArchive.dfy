// backup_archive.py: the streaming AEAD writer of a version 3 backup object.
module BackupArchive {
  import opened Bytes
  import opened Crypto
  import opened Sequences

  const CHUNK_SIZE: nat := 0x10_0000

  // b"TANDEM-BACKUP-AEAD-1\n"
  const MAGIC: bytes := [84, 65, 78, 68, 69, 77, 45, 66, 65, 67, 75, 85, 80, 45, 65, 69, 65, 68, 45, 49, 10]

  // What one object is encrypted under: the data key, the 8-byte nonce prefix
  // whose first byte is the object's domain, and the canonical JSON context.
  datatype Channel = Channel(suite: Suite, key: bytes, prefix: bytes, context: bytes)

  datatype Metadata = Metadata(sha256: bytes, size: nat, chunks: nat, noncePrefix: bytes)

  // ---- The object a plaintext seals to, independent of how it was written ----

  // ceil(n / CHUNK_SIZE)
  function Count(n: nat): nat {
    (n + CHUNK_SIZE - 1) / CHUNK_SIZE
  }

  function ChunkAt(p: bytes, i: nat): bytes
    requires i * CHUNK_SIZE <= |p|
  {
    p[i * CHUNK_SIZE .. Min((i + 1) * CHUNK_SIZE, |p|)]
  }

  function Nonce(c: Channel, i: nat): bytes
    requires i < TWO32
  {
    c.prefix + BigEndian4(i)
  }

  function Aad(c: Channel, i: nat): bytes
    requires i < TWO32
  {
    c.context + BigEndian4(i)
  }

  function Record(c: Channel, i: nat, chunk: bytes): bytes
    requires i < TWO32 && |chunk| <= CHUNK_SIZE && TagLength(c.suite)
  {
    var ciphertext := c.suite.seal(c.key, Nonce(c, i), chunk, Aad(c, i));
    BigEndian4(|ciphertext|) + ciphertext
  }

  // The object that p seals to, up to and including its first k records.
  function Image(c: Channel, p: bytes, k: nat): bytes
    requires k <= Count(|p|) && k <= TWO32 && TagLength(c.suite)
  {
    if k == 0 then MAGIC else Image(c, p, k - 1) + Record(c, k - 1, ChunkAt(p, k - 1))
  }

  function Sealed(c: Channel, p: bytes): bytes
    requires Count(|p|) <= TWO32 && TagLength(c.suite)
  {
    Image(c, p, Count(|p|))
  }

  function SealedMetadata(c: Channel, p: bytes): Metadata
    requires Count(|p|) <= TWO32 && TagLength(c.suite)
  {
    Metadata(c.suite.sha256(Sealed(c, p)), |Sealed(c, p)|, Count(|p|), c.prefix)
  }

  // ---- Facts about sealed objects ----

  // Records already written do not depend on what is written later.
  lemma {:induction false} ImageStable(c: Channel, p: bytes, q: bytes, k: nat)
    requires k * CHUNK_SIZE <= |p| && k <= TWO32 && TagLength(c.suite)
    ensures k <= Count(|p|) && k <= Count(|p + q|)
    ensures Image(c, p + q, k) == Image(c, p, k)
  {
    if k > 0 {
      ImageStable(c, p, q, k - 1);
      assert ChunkAt(p + q, k - 1) == ChunkAt(p, k - 1);
    }
  }

  // The offset of record k: every record before the last holds a full chunk.
  lemma {:induction false} ImageLength(c: Channel, p: bytes, k: nat)
    requires k <= Count(|p|) && k <= TWO32 && TagLength(c.suite)
    ensures |Image(c, p, k)| == |MAGIC| + 20 * k + Min(k * CHUNK_SIZE, |p|)
  {
    if k > 0 {
      ImageLength(c, p, k - 1);
      assert |Record(c, k - 1, ChunkAt(p, k - 1))| == 20 + |ChunkAt(p, k - 1)|;
    }
  }

  // Where record k lies in an untampered file.
  lemma {:induction false} ImagePrefix(c: Channel, p: bytes, k: nat, n: nat)
    requires TagLength(c.suite) && k <= n <= Count(|p|) <= TWO32
    ensures |Image(c, p, k)| <= |Image(c, p, n)| && Image(c, p, n)[..|Image(c, p, k)|] == Image(c, p, k)
    decreases n
  {
    if k < n {
      ImagePrefix(c, p, k, n - 1);
    }
  }

  lemma SliceOfPrefix(s: bytes, a: bytes, b: bytes)
    requires |a| + |b| <= |s| && s[..|a| + |b|] == a + b
    ensures s[|a|..|a| + |b|] == b
  {
    assert s[|a|..|a| + |b|] == s[..|a| + |b|][|a|..];
  }

  function Ciphertext(c: Channel, p: bytes, k: nat): bytes
    requires k < Count(|p|) <= TWO32
  {
    c.suite.seal(c.key, Nonce(c, k), ChunkAt(p, k), Aad(c, k))
  }

  lemma RecordAt(c: Channel, p: bytes, k: nat)
    requires TagLength(c.suite) && k < Count(|p|) <= TWO32
    ensures |Ciphertext(c, p, k)| == |ChunkAt(p, k)| + 16
    ensures |Image(c, p, k + 1)| == |Image(c, p, k)| + 4 + |Ciphertext(c, p, k)| <= |Sealed(c, p)|
    ensures Sealed(c, p)[|Image(c, p, k)|..|Image(c, p, k)| + 4] == BigEndian4(|Ciphertext(c, p, k)|)
    ensures Sealed(c, p)[|Image(c, p, k)| + 4..|Image(c, p, k)| + 4 + |Ciphertext(c, p, k)|] == Ciphertext(c, p, k)
  {
    ImagePrefix(c, p, k + 1, Count(|p|));
    var header, body := BigEndian4(|Ciphertext(c, p, k)|), Ciphertext(c, p, k);
    ImageStep(c, p, k);
    RecordSlices(Sealed(c, p), Image(c, p, k), header, body);
  }

  lemma ImageStep(c: Channel, p: bytes, k: nat)
    requires TagLength(c.suite) && k < Count(|p|) <= TWO32
    ensures Image(c, p, k + 1) == Image(c, p, k) + BigEndian4(|Ciphertext(c, p, k)|) + Ciphertext(c, p, k)
  {
    Regroup(Image(c, p, k), BigEndian4(|Ciphertext(c, p, k)|), Ciphertext(c, p, k));
  }

  lemma RecordSlices(whole: bytes, before: bytes, header: bytes, body: bytes)
    requires before + header + body <= whole && |header| == 4
    ensures whole[|before|..|before| + 4] == header
    ensures whole[|before| + 4..|before| + 4 + |body|] == body
  {
    SliceOfPrefix(whole, before + header, body);
    assert whole[..|before| + 4] == whole[..|before| + 4 + |body|][..|before| + 4];
    SliceOfPrefix(whole, before, header);
  }

  // The size finish() reports depends on the plaintext length alone.
  lemma SealedSize(c: Channel, p: bytes)
    requires Count(|p|) <= TWO32 && TagLength(c.suite)
    ensures SealedMetadata(c, p).size == 21 + |p| + 20 * Count(|p|)
    ensures SealedMetadata(c, p).chunks == Count(|p|)
    ensures SealedMetadata(c, p).sha256 == c.suite.sha256(Sealed(c, p)) && SealedMetadata(c, p).noncePrefix == c.prefix
    ensures Count(|p|) * 0x10_0000 >= |p| > (Count(|p|) - 1) * 0x10_0000 || |p| == Count(|p|) == 0
  {
    ImageLength(c, p, Count(|p|));
  }

  // The format in full. Record k of the object starts at 21 + k * (2^20 + 20) and
  // holds its length in four bytes, highest first, and the encryption of the k-th
  // 2^20 plaintext bytes: under the nonce prefix followed by k, authenticated with
  // the context followed by k.
  lemma WireFormat(c: Channel, p: bytes, k: nat)
    requires TagLength(c.suite) && |p| <= 0x10_0000_0000_0000
    requires k * 0x10_0000 < |p|
    ensures Count(|p|) <= TWO32 && k < 0x1_0000_0000
    ensures var object' := Sealed(c, p);
      var at, number := 21 + k * 0x10_0014, [k / 0x100_0000, k / 0x1_0000 % 0x100, k / 0x100 % 0x100, k % 0x100];
      var chunk := p[k * 0x10_0000..if (k + 1) * 0x10_0000 <= |p| then (k + 1) * 0x10_0000 else |p|];
      var ciphertext := c.suite.seal(c.key, c.prefix + number, chunk, c.context + number);
      var n := |chunk| + 16;
      && |ciphertext| == n && at + 4 + n <= |object'|
      && object'[at..at + 4] == [n / 0x100_0000, n / 0x1_0000 % 0x100, n / 0x100 % 0x100, n % 0x100]
      && object'[at + 4..at + 4 + n] == ciphertext
    ensures Sealed(c, p)[..21]
      == [84, 65, 78, 68, 69, 77, 45, 66, 65, 67, 75, 85, 80, 45, 65, 69, 65, 68, 45, 49, 10]
  {
    CountAfter(|p|, k);
    RecordAt(c, p, k);
    ImageLength(c, p, k);
    ImagePrefix(c, p, 0, Count(|p|));
  }

  lemma CountAfter(n: nat, k: nat)
    requires k * CHUNK_SIZE <= n
    ensures Count(n) <= k <==> n == k * CHUNK_SIZE
    ensures Count(n) <= k + 1 <==> n <= (k + 1) * CHUNK_SIZE
    ensures k <= Count(n)
  {
  }

  // What is left after k full records begins with chunk k.
  lemma NextChunk(p: bytes, k: nat)
    requires k * CHUNK_SIZE < |p|
    ensures k + 1 <= Count(|p|)
    ensures p[k * CHUNK_SIZE..][..Min(CHUNK_SIZE, |p| - k * CHUNK_SIZE)] == ChunkAt(p, k)
  {
    assert (k + 1) * CHUNK_SIZE == k * CHUNK_SIZE + CHUNK_SIZE;
  }

  // ---- EncryptingWriter ----

  class EncryptingWriter {
    const channel: Channel
    var output: bytes            // what has reached the output file
    var buffer: bytes
    var index: nat
    var digested: bytes          // the bytes fed to the SHA-256 object
    var size: nat
    ghost var written: bytes     // every byte ever accepted by Write

    // Full records of everything written are out; the rest waits in the buffer.
    ghost predicate Valid()
      reads this
    {
      && TagLength(channel.suite)
      && |channel.prefix| == 8
      && index <= TWO32
      && index * CHUNK_SIZE <= |written|
      && output == Image(channel, written, index)
      && buffer == written[index * CHUNK_SIZE..]
      && digested == output
      && size == |output|
    }

    // Between calls less than a chunk is waiting, unless the nonce space ran out.
    ghost predicate Drained()
      reads this
    {
      |buffer| < CHUNK_SIZE || index == TWO32
    }

    constructor (channel: Channel)
      requires TagLength(channel.suite) && |channel.prefix| == 8
      ensures Valid() && Drained()
      ensures this.channel == channel && written == [] && output == MAGIC
    {
      this.channel := channel;
      buffer, index, written := [], 0, [];
      output, digested, size := MAGIC, MAGIC, |MAGIC|;
    }

    method Emit(data: bytes)
      modifies this
      ensures output == old(output) + data
      ensures digested == old(digested) + data && size == old(size) + |data|
      ensures buffer == old(buffer) && index == old(index) && written == old(written)
    {
      output := output + data;
      digested := digested + data;
      size := size + |data|;
    }

    // _flush_chunk(): writes the next record, or raises once the nonce space is used up.
    method FlushChunk(count: nat) returns (r: Result<()>)
      requires Valid() && 0 < count <= |buffer|
      requires index < TWO32 ==> count == Min(CHUNK_SIZE, |buffer|)
      modifies this
      ensures r.Ok? <==> old(index) < TWO32
      ensures written == old(written)
      ensures r.Error? ==> Valid() && output == old(output) && index == old(index) && buffer == old(buffer)
      ensures r.Ok? ==>
        && index == old(index) + 1 <= Count(|written|)
        && buffer == old(buffer)[count..]
        && output == Image(channel, written, index)
        && digested == output && size == |output|
    {
      if index >= TWO32 {
        return Error;
      }
      var plaintext := buffer[..count];
      assert index + 1 <= Count(|written|) && plaintext == ChunkAt(written, index) by {
        NextChunk(written, index);
      }
      buffer := buffer[count..];
      var ciphertext := channel.suite.seal(channel.key, Nonce(channel, index), plaintext, Aad(channel, index));
      Emit(BigEndian4(|ciphertext|));
      Emit(ciphertext);
      assert output == Image(channel, written, index + 1);
      index := index + 1;
      r := Ok(());
    }

    // write(): fails exactly when the data would need record number 2**32.
    method Write(data: bytes) returns (r: Result<nat>)
      requires Valid()
      modifies this
      ensures Valid() && written == old(written) + data
      ensures r == (if |written| / CHUNK_SIZE <= TWO32 then Ok(|data|) else Error)
      ensures Drained()
    {
      ImageStable(channel, written, data, index);
      buffer := buffer + data;
      written := written + data;
      while |buffer| >= CHUNK_SIZE
        invariant Valid()
        invariant written == old(written) + data
        decreases |buffer|
      {
        var flushed := FlushChunk(CHUNK_SIZE);
        if flushed.Error? {
          return Error;
        }
      }
      r := Ok(|data|);
    }

    // finish(): fails exactly when the plaintext needs more than 2**32 records.
    method Finish() returns (r: Result<Metadata>)
      requires Valid() && Drained()
      modifies this
      ensures written == old(written)
      ensures r.Ok? <==> Count(|written|) <= TWO32
      ensures r.Ok? ==> output == Sealed(channel, written) && r.value == SealedMetadata(channel, written)
    {
      CountAfter(|written|, index);
      if buffer != [] {
        var flushed := FlushChunk(|buffer|);
        if flushed.Error? {
          return Error;
        }
      }
      assert index == Count(|written|);
      r := Ok(Metadata(channel.suite.sha256(digested), size, index, channel.prefix));
    }
  }
}
