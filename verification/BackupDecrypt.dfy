// backup_decrypt.py: the bounded streaming reader of a version 3 backup object.
module BackupDecrypt {
  import opened Bytes
  import opened Crypto
  import opened BackupArchive
  import opened Sequences

  function Flatten(blocks: seq<bytes>): bytes {
    if blocks == [] then [] else Flatten(blocks[..|blocks| - 1]) + blocks[|blocks| - 1]
  }

  lemma {:induction false} FlattenConcat(a: seq<bytes>, b: seq<bytes>)
    ensures Flatten(a + b) == Flatten(a) + Flatten(b)
    ensures |a| == 1 ==> Flatten(a) == a[0]
    decreases |b|
  {
    if b == [] {
      assert a + b == a;
    } else {
      var last := |b| - 1;
      FlattenConcat(a, b[..last]);
      assert (a + b)[..|a| + last] == a + b[..last];
    }
  }

  // Some ciphertext opens to p as record i of the channel's object.
  ghost predicate OpensAs(c: Channel, i: nat, p: bytes)
    requires i < TWO32
  {
    exists ct: bytes :: c.suite.open(c.key, Nonce(c, i), ct, Aad(c, i)) == Some(p)
  }

  // What the reader demands of the plaintext of record i out of `chunks`.
  predicate GoodLength(i: nat, chunks: nat, n: nat) {
    0 < n <= CHUNK_SIZE && (i + 1 < chunks ==> n == CHUNK_SIZE)
  }

  // The records the reader has authenticated and accepted so far.
  ghost predicate Accepted(c: Channel, chunks: nat, records: seq<bytes>) {
    && |records| <= chunks
    && |records| <= TWO32
    && forall i :: 0 <= i < |records| ==> OpensAs(c, i, records[i]) && GoodLength(i, chunks, |records[i]|)
  }

  // The file is the object that p seals to, the metadata is what finish()
  // reported for it, and its records decrypt.
  ghost predicate Untampered(c: Channel, source: bytes, metadata: Metadata, p: bytes) {
    && TagLength(c.suite)
    && p != []
    && Count(|p|) <= TWO32
    && source == Sealed(c, p)
    && metadata == SealedMetadata(c, p)
    && forall i :: 0 <= i < Count(|p|) ==>
         c.suite.open(c.key, Nonce(c, i), c.suite.seal(c.key, Nonce(c, i), ChunkAt(p, i), Aad(c, i)), Aad(c, i))
           == Some(ChunkAt(p, i))
  }

  lemma {:induction false} FlattenBound(c: Channel, chunks: nat, records: seq<bytes>)
    requires Accepted(c, chunks, records)
    ensures |Flatten(records)| <= |records| * CHUNK_SIZE
  {
    if records != [] {
      FlattenBound(c, chunks, records[..|records| - 1]);
    }
  }

  // The next `count` bytes of p after the first `done`.
  function Next(p: bytes, done: nat, count: nat): bytes {
    var rest := p[Min(done, |p|)..];
    rest[..Min(count, |rest|)]
  }

  lemma NextIs(p: bytes, done: nat, count: nat)
    requires done <= |p|
    ensures Next(p, done, count) == p[done..if done + count <= |p| then done + count else |p|]
  {
  }

  function FirstChunks(p: bytes, k: nat): bytes {
    p[..Min(k * CHUNK_SIZE, |p|)]
  }

  // The ciphertext of the record at file offset `at`, if its length field and
  // the file allow one.
  function RecordBytes(source: bytes, at: nat): (r: Option<bytes>)
    ensures r.Some? ==> at + 4 + |r.value| <= |source|
  {
    if at + 4 > |source| then None else
    var length := FromBigEndian4(source[at..at + 4]);
    if !(17 <= length <= CHUNK_SIZE + 16) || at + 4 + length > |source| then None
    else Some(source[at + 4..at + 4 + length])
  }

  // The plaintext the reader accepts as record i from file offset `at`.
  function NextPlaintext(c: Channel, chunks: nat, source: bytes, at: nat, i: nat): (r: Option<bytes>)
    ensures r.Some? ==> i < TWO32 && OpensAs(c, i, r.value) && GoodLength(i, chunks, |r.value|)
  {
    var record := RecordBytes(source, at);
    if record.None? || i >= TWO32 then None else
    var plaintext := c.suite.open(c.key, Nonce(c, i), record.value, Aad(c, i));
    if plaintext.None? || !GoodLength(i, chunks, |plaintext.value|) then None else plaintext
  }

  // The reader's test in full: what it takes as record i from file offset `at`.
  lemma RecordTest(c: Channel, chunks: nat, source: bytes, at: nat, i: nat, p: bytes)
    ensures NextPlaintext(c, chunks, source, at, i) == Some(p) <==>
      && at + 4 <= |source| && i < 0x1_0000_0000
      && var n := (source[at] as int) * 0x100_0000 + (source[at + 1] as int) * 0x1_0000
                  + (source[at + 2] as int) * 0x100 + source[at + 3];
      var number := [i / 0x100_0000, i / 0x1_0000 % 0x100, i / 0x100 % 0x100, i % 0x100];
      && 17 <= n <= 0x10_0010 && at + 4 + n <= |source|
      && c.suite.open(c.key, c.prefix + number, source[at + 4..at + 4 + n], c.context + number) == Some(p)
      && 1 <= |p| <= 0x10_0000 && (i + 1 < chunks ==> |p| == 0x10_0000)
  {
    if at + 4 <= |source| {
      var header := source[at..at + 4];
      assert header[0] == source[at] && header[1] == source[at + 1];
      assert header[2] == source[at + 2] && header[3] == source[at + 3];
    }
  }

  // At its own offset, record k of an untampered file is accepted as chunk k.
  lemma UntamperedRecord(c: Channel, source: bytes, metadata: Metadata, p: bytes, k: nat)
    requires Untampered(c, source, metadata, p) && k < Count(|p|)
    ensures RecordBytes(source, |Image(c, p, k)|) == Some(Ciphertext(c, p, k))
    ensures |Image(c, p, k + 1)| == |Image(c, p, k)| + 4 + |Ciphertext(c, p, k)|
    ensures NextPlaintext(c, metadata.chunks, source, |Image(c, p, k)|, k) == Some(ChunkAt(p, k))
    ensures FirstChunks(p, k) + ChunkAt(p, k) == FirstChunks(p, k + 1)
  {
    RecordAt(c, p, k);
    RecordRead(source, |Image(c, p, k)|, Ciphertext(c, p, k));
  }

  lemma RecordRead(source: bytes, at: nat, body: bytes)
    requires 17 <= |body| <= CHUNK_SIZE + 16 && at + 4 + |body| <= |source|
    requires source[at..at + 4] == BigEndian4(|body|) && source[at + 4..at + 4 + |body|] == body
    ensures RecordBytes(source, at) == Some(body)
  {
    BigEndian4Inverse(|body|);
  }

  // What is buffered begins with the next `count` bytes, unless p ends first.
  lemma NextSlice(p: bytes, k: nat, got: bytes, waiting: bytes, count: nat)
    requires got + waiting == FirstChunks(p, k) && (got + waiting == p || count <= |waiting|)
    ensures waiting[..Min(count, |waiting|)] == Next(p, |got|, count)
  {
    assert waiting == (got + waiting)[|got|..];
  }

  class DecryptingReader {
    const channel: Channel
    const metadata: Metadata
    const source: bytes          // the encrypted object's bytes
    var position: nat            // the file offset
    var digested: bytes          // the bytes fed to the SHA-256 object
    var size: nat
    var index: nat
    var buffer: bytes
    var finished: bool
    ghost const plain: bytes     // for stating what an untampered file yields
    ghost var records: seq<bytes> // the plaintexts accepted so far, in record order
    ghost var delivered: bytes   // everything Read has ever returned
    ghost var skipped: nat       // bytes read without being digested

    // Kept by every call, including the ones that raise.
    ghost predicate Valid()
      reads this
    {
      && |channel.prefix| == 8
      && |source| == metadata.size
      && index == |records|
      && Accepted(channel, metadata.chunks, records)
      && delivered + buffer == Flatten(records)
      && |digested| == size
      && size + skipped == position <= |source|
      && (skipped == 0 ==> digested == source[..position])
      && (finished ==> index == metadata.chunks && Authentic())
    }

    ghost predicate Authentic() {
      |source| == metadata.size && channel.suite.sha256(source) == metadata.sha256
    }

    ghost predicate Honest() {
      Untampered(channel, source, metadata, plain)
    }

    // Reading an untampered file: the offset is at a record boundary.
    ghost predicate InStep()
      reads this
    {
      && Honest()
      && skipped == 0
      && index <= Count(|plain|)
      && position == |Image(channel, plain, index)|
      && delivered + buffer == FirstChunks(plain, index)
      && (finished ==> delivered + buffer == plain)
    }

    constructor (channel: Channel, metadata: Metadata, source: bytes, ghost plain: bytes)
      requires |channel.prefix| == 8 && |source| == metadata.size
      ensures this.channel == channel && this.metadata == metadata && this.source == source && this.plain == plain
      ensures Valid() && position == 0 && delivered == [] && records == [] && buffer == [] && !finished && skipped == 0
    {
      this.channel, this.metadata, this.source, this.plain := channel, metadata, source, plain;
      position, digested, size, index, buffer, finished := 0, [], 0, 0, [], false;
      records, delivered, skipped := [], [], 0;
    }

    // What opening checks before any record is read.
    static predicate CanOpen(channel: Channel, metadata: Metadata, source: bytes, domain: byte) {
      && |channel.key| == 32 && metadata.chunks > 0
      && channel.prefix == metadata.noncePrefix && |channel.prefix| == 8 && channel.prefix[0] == domain
      && |source| == metadata.size
      && MAGIC <= source
    }

    // __init__(): refuses bad metadata, the wrong nonce domain and a wrong magic.
    static method Open(
      suite: Suite, metadata: Metadata, key: bytes, context: bytes, domain: byte, source: bytes, ghost plain: bytes)
        returns (r: Result<DecryptingReader>)
      ensures r.Ok? <==> CanOpen(Channel(suite, key, metadata.noncePrefix, context), metadata, source, domain)
      ensures r.Ok? <==>
        && |key| == 32 && metadata.chunks > 0 && |metadata.noncePrefix| == 8 && metadata.noncePrefix[0] == domain
        && |source| == metadata.size
        && [84, 65, 78, 68, 69, 77, 45, 66, 65, 67, 75, 85, 80, 45, 65, 69, 65, 68, 45, 49, 10] <= source
      ensures r.Ok? ==>
        && fresh(r.value) && r.value.Valid()
        && r.value.channel == Channel(suite, key, metadata.noncePrefix, context)
        && r.value.metadata == metadata && r.value.source == source && r.value.plain == plain
        && r.value.delivered == [] && r.value.records == [] && !r.value.finished
        && (r.value.Honest() ==> r.value.InStep())
    {
      if |key| != 32 || metadata.chunks <= 0 || |metadata.noncePrefix| != 8 || metadata.noncePrefix[0] != domain
         || |source| != metadata.size {
        return Error;
      }
      var reader := new DecryptingReader(Channel(suite, key, metadata.noncePrefix, context), metadata, source, plain);
      var magic := reader.ReadExact(|MAGIC|);
      if magic.Error? || magic.value != MAGIC {
        return Error;
      }
      r := Ok(reader);
    }

    // _read_exact(): the digest and offset advance even when the file is short.
    method ReadExact(count: nat) returns (r: Result<bytes>)
      requires Valid() && !finished
      modifies this
      ensures Valid() && !finished
      ensures unchanged(`index) && unchanged(`buffer) && unchanged(`records) && unchanged(`delivered)
        && unchanged(`skipped)
      ensures old(position) + count <= |source| ==>
                r == Ok(source[old(position)..old(position) + count]) && position == old(position) + count
      ensures r.Ok? <==> old(position) + count <= |source|
    {
      var value := source[position..Min(position + count, |source|)];
      position := position + |value|;
      digested := digested + value;
      size := size + |value|;
      if |value| != count {
        return Error;
      }
      r := Ok(value);
    }

    // The end-of-object branch of _next_chunk().
    method CheckEnd() returns (r: Result<()>)
      requires Valid() && !finished && index == metadata.chunks
      modifies this
      ensures Valid()
      ensures unchanged(`index) && unchanged(`buffer) && unchanged(`records) && unchanged(`delivered)
      ensures finished <==> r.Ok?
      ensures r.Ok? ==> unchanged(`position) && unchanged(`skipped)
      ensures r.Ok? <==> old(skipped) == 0 && old(position) == |source| && Authentic()
    {
      if position < |source| {
        position := position + 1;
        skipped := skipped + 1;
        return Error;
      }
      if size != metadata.size || channel.suite.sha256(digested) != metadata.sha256 {
        return Error;
      }
      assert digested == source;
      finished := true;
      r := Ok(());
    }

    // The record-reading half of _next_chunk().
    method ReadRecord() returns (r: Result<bytes>)
      requires Valid() && !finished
      modifies this
      ensures Valid() && !finished
      ensures unchanged(`index) && unchanged(`buffer) && unchanged(`records) && unchanged(`delivered)
        && unchanged(`skipped)
      ensures RecordBytes(source, old(position)) == (if r.Ok? then Some(r.value) else None)
      ensures r.Ok? ==> position == old(position) + 4 + |r.value|
    {
      var header := ReadExact(4);
      if header.Error? {
        return Error;
      }
      var length := FromBigEndian4(header.value);
      if !(17 <= length <= CHUNK_SIZE + 16) {
        return Error;
      }
      r := ReadExact(length);
    }

    method Accept(plaintext: bytes)
      requires Valid() && !finished && index < metadata.chunks && index < TWO32
      requires OpensAs(channel, index, plaintext) && GoodLength(index, metadata.chunks, |plaintext|)
      modifies `buffer, `records, `index
      ensures Valid()
      ensures index == old(index) + 1 && buffer == old(buffer) + plaintext
    {
      ghost var before := records;
      buffer := buffer + plaintext;
      records := records + [plaintext];
      index := index + 1;
      assert records[..|records| - 1] == before;
      assert delivered + buffer == Flatten(before) + plaintext;
    }

    // _next_chunk(): accepts one more record, or notices the end of the object.
    method NextChunk() returns (r: Result<()>)
      requires Valid() && !finished
      modifies this
      ensures Valid()
      ensures unchanged(`delivered)
      ensures r.Error? ==> !finished && unchanged(`index) && unchanged(`buffer) && unchanged(`records)
      ensures old(index) == metadata.chunks ==>
        && (finished <==> r.Ok?)
        && (r.Ok? <==> old(skipped) == 0 && old(position) == |source| && Authentic())
        && unchanged(`index) && unchanged(`buffer)
        && (r.Ok? ==> unchanged(`position) && unchanged(`skipped))
      ensures old(index) < metadata.chunks ==>
        var plaintext := NextPlaintext(channel, metadata.chunks, source, old(position), old(index));
        && !finished && unchanged(`skipped)
        && (r.Ok? <==> plaintext.Some?)
        && (r.Ok? ==>
            && index == old(index) + 1
            && buffer == old(buffer) + plaintext.value
            && position == old(position) + 4 + |RecordBytes(source, old(position)).value|)
    {
      if index == metadata.chunks {
        r := CheckEnd();
        return;
      }
      var ciphertext := ReadRecord();
      if ciphertext.Error? || index >= TWO32 {
        return Error;
      }
      var plaintext := channel.suite.open(channel.key, Nonce(channel, index), ciphertext.value, Aad(channel, index));
      if plaintext.None? || !GoodLength(index, metadata.chunks, |plaintext.value|) {
        return Error;
      }
      Accept(plaintext.value);
      r := Ok(());
    }

    // One accepted record, or the end, of an untampered file.
    lemma StepInStep(at: nat, i: nat, got: bytes)
      requires Honest() && i <= Count(|plain|) && at == |Image(channel, plain, i)|
      requires got == FirstChunks(plain, i)
      ensures i == Count(|plain|) <==> i == metadata.chunks
      ensures i == Count(|plain|) ==> at == |source| && Authentic() && got == plain
      ensures i < Count(|plain|) ==>
        && NextPlaintext(channel, metadata.chunks, source, at, i) == Some(ChunkAt(plain, i))
        && RecordBytes(source, at).Some?
        && at + 4 + |RecordBytes(source, at).value| == |Image(channel, plain, i + 1)|
        && got + ChunkAt(plain, i) == FirstChunks(plain, i + 1)
    {
      if i < Count(|plain|) {
        UntamperedRecord(channel, source, metadata, plain, i);
      }
    }

    // _next_chunk() on an untampered file never raises and stays in step.
    method NextChunkInStep() returns (r: Result<()>)
      requires Valid() && !finished
      modifies this
      ensures Valid() && unchanged(`delivered)
      ensures r.Error? ==> !finished
      ensures r.Ok? && !finished ==> index == old(index) + 1
      ensures old(InStep()) ==> r.Ok? && InStep()
    {
      if InStep() {
        StepInStep(position, index, delivered + buffer);
        Regroup(delivered, buffer, if index < Count(|plain|) then ChunkAt(plain, index) else []);
      }
      r := NextChunk();
    }

    // The loop of read(): decrypt until enough is buffered or the object ends.
    method Fill(count: nat) returns (r: Result<()>)
      requires Valid()
      modifies this
      ensures Valid() && unchanged(`delivered)
      ensures r.Ok? ==> finished || count <= |buffer|
      ensures old(InStep()) ==> r.Ok? && InStep()
    {
      while |buffer| < count && !finished
        invariant Valid() && unchanged(`delivered)
        invariant old(InStep()) ==> InStep()
        decreases metadata.chunks - index, !finished
      {
        var step := NextChunkInStep();
        if step.Error? {
          return Error;
        }
      }
      r := Ok(());
    }

    // The end of read(): hands out the front of the buffer, at most `count` bytes.
    method Take(count: nat) returns (data: bytes)
      requires Valid()
      modifies `buffer, `delivered
      ensures Valid() && (old(InStep()) ==> InStep())
      ensures data == old(buffer)[..Min(count, |old(buffer)|)] && buffer == old(buffer)[|data|..]
      ensures delivered == old(delivered) + data
    {
      data := buffer[..Min(count, |buffer|)];
      ghost var all := delivered + buffer;
      buffer := buffer[|data|..];
      delivered := delivered + data;
      assert delivered + buffer == all;
    }

    // read(): a raise loses nothing that was authenticated; on an untampered
    // file the call never raises and returns the next `count` plaintext bytes.
    method Read(count: int) returns (r: Result<bytes>)
      requires Valid()
      modifies this
      ensures Valid()
      ensures r.Ok? ==> 0 <= count && |r.value| <= count && delivered == old(delivered) + r.value
      ensures r.Ok? && |r.value| < count ==> finished && buffer == []
      ensures r.Error? ==> delivered == old(delivered)
      ensures old(InStep()) && 0 <= count ==> InStep() && r == Ok(Next(plain, |old(delivered)|, count))
    {
      if count < 0 {
        return Error;
      }
      var filled := Fill(count);
      if filled.Error? {
        return Error;
      }
      assert old(InStep()) ==> buffer[..Min(count, |buffer|)] == Next(plain, |delivered|, count) by {
        if old(InStep()) {
          NextSlice(plain, index, delivered, buffer, count);
        }
      }
      var data := Take(count);
      r := Ok(data);
    }

    lemma DeliveredBound()
      requires Valid()
      ensures |delivered| <= metadata.chunks * CHUNK_SIZE
    {
      FlattenBound(channel, metadata.chunks, records);
    }

    lemma AllDelivered()
      requires Valid() && InStep()
      ensures |delivered| <= |plain|
      ensures finished && buffer == [] ==> delivered == plain
    {
      assert |delivered + buffer| == |FirstChunks(plain, index)|;
      assert buffer == [] ==> delivered + buffer == delivered;
    }

    // One pass of the loop of finish(): false when nothing is left. `start` is
    // where the unread plaintext began.
    method CheckBlock(ghost start: nat) returns (r: Result<bool>)
      requires Valid() && start <= |delivered| && AllZero(delivered[start..])
      modifies this
      ensures Valid() && old(delivered) <= delivered
      ensures r.Ok? ==> AllZero(delivered[start..])
      ensures r.Ok? ==> if r.value then |delivered| > |old(delivered)| else finished && buffer == []
      ensures old(InStep()) && r.Ok? ==> InStep()
      ensures old(InStep()) && r.Error? ==> !AllZero(plain[Min(start, |plain|)..])
    {
      ghost var before := delivered;
      if InStep() {
        AllDelivered();
      }
      var block := Read(CHUNK_SIZE);
      if block.Error? {
        return Error;
      }
      if !AllZero(block.value) {
        if old(InStep()) {
          NonzeroAhead(plain, start, |before|, CHUNK_SIZE);
        }
        return Error;
      }
      AllZeroConcat(before[start..], block.value);
      assert delivered[start..] == before[start..] + block.value;
      r := Ok(block.value != []);
    }

    // finish(): whatever the tar parser left unread may only be zero padding.
    method Finish() returns (r: Result<()>)
      requires Valid()
      modifies this
      ensures Valid()
      ensures old(delivered) <= delivered
      ensures r.Ok? ==> finished && buffer == [] && AllZero(delivered[|old(delivered)|..])
      ensures old(InStep()) ==> (r.Ok? <==> AllZero(plain[Min(|old(delivered)|, |plain|)..]))
    {
      var more := true;
      while more
        invariant Valid()
        invariant old(delivered) <= delivered && AllZero(delivered[|old(delivered)|..])
        invariant !more ==> finished && buffer == []
        invariant old(InStep()) ==> InStep()
        decreases metadata.chunks * CHUNK_SIZE - |delivered|, more
      {
        DeliveredBound();
        var block := CheckBlock(|old(delivered)|);
        DeliveredBound();
        if block.Error? {
          return Error;
        }
        more := block.value;
      }
      if old(InStep()) {
        AllDelivered();
      }
      r := Ok(());
    }
  }

  lemma AllZeroConcat(p: bytes, q: bytes)
    requires AllZero(p) && AllZero(q)
    ensures AllZero(p + q)
  {
  }

  lemma NonzeroAhead(p: bytes, start: nat, done: nat, count: nat)
    requires start <= done <= |p| && !AllZero(Next(p, done, count))
    ensures !AllZero(p[start..])
  {
    var i :| 0 <= i < |Next(p, done, count)| && Next(p, done, count)[i] != 0;
    assert p[start..][done - start + i] == Next(p, done, count)[i];
  }
}
