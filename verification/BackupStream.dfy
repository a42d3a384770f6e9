// The writer of backup_archive.py and the reader of backup_decrypt.py together:
// the round trip, and what a reader can be made to believe by any file at all.
module BackupStream {
  import opened Bytes
  import opened Crypto
  import opened BackupArchive
  import opened BackupDecrypt
  import opened Sequences

  // ---- Everything one export encrypts under its data key ----

  // backup_export.py draws 7 random bytes after the domain byte of each object
  // prefix and 11 after the manifest's domain byte 2.
  datatype Export = Export(
    suite: Suite, key: bytes,
    archiveRandom: bytes, archiveContext: bytes, archive: bytes,
    anchorsRandom: bytes, anchorsContext: bytes, anchors: bytes,
    manifestRandom: bytes, inventory: bytes, outer: bytes)
  {
    ghost predicate Valid() {
      && TagLength(suite) && |key| == 32
      && |archiveRandom| == 7 && |anchorsRandom| == 7 && |manifestRandom| == 11
      && archive != [] && Count(|archive|) <= TWO32
      && anchors != [] && Count(|anchors|) <= TWO32
    }

    // kind 0 is the archive object, kind 1 the anchors object.
    function Object(kind: byte): Channel {
      if kind == 0 then Channel(suite, key, [0] + archiveRandom, archiveContext)
      else Channel(suite, key, [1] + anchorsRandom, anchorsContext)
    }

    function Plaintext(kind: byte): bytes {
      if kind == 0 then archive else anchors
    }

    ghost function Log(): iset<Sealing>
      requires Valid()
    {
      ObjectLog(Object(0), archive) + ObjectLog(Object(1), anchors)
      + iset{Sealing([2] + manifestRandom, inventory, outer)}
    }
  }

  ghost function ObjectLog(c: Channel, p: bytes): iset<Sealing>
    requires Count(|p|) <= TWO32
  {
    iset i: nat | i < Count(|p|) :: ChunkSealing(c, p, i)
  }

  function ChunkSealing(c: Channel, p: bytes, i: nat): Sealing
    requires i < Count(|p|) && i < TWO32
  {
    Sealing(Nonce(c, i), ChunkAt(p, i), Aad(c, i))
  }

  // Every nonce is 12 bytes: its first byte says which object it belongs to
  // and, within an object, its last four say which record.
  lemma LoggedNonce(x: Export, e: Sealing)
    requires x.Valid() && e in x.Log()
    ensures |e.nonce| == 12 && e.nonce[0] in {0, 1, 2}
    ensures e.nonce[0] == 2 ==> e == Sealing([2] + x.manifestRandom, x.inventory, x.outer)
    ensures e.nonce[0] < 2 ==>
      var c, p := x.Object(e.nonce[0]), x.Plaintext(e.nonce[0]);
      exists i: nat :: i < Count(|p|) && e == ChunkSealing(c, p, i) && e.nonce[8..] == BigEndian4(i)
  {
    if e != Sealing([2] + x.manifestRandom, x.inventory, x.outer) {
      var kind: byte := if e in ObjectLog(x.Object(0), x.archive) then 0 else 1;
      var c, p := x.Object(kind), x.Plaintext(kind);
      var i: nat :| i < Count(|p|) && e == ChunkSealing(c, p, i);
      assert e.nonce[0] == kind && e.nonce[8..] == BigEndian4(i);
    }
  }

  // What is encrypted for an object is bound to it: under its prefix of domain
  // byte and random bytes, with its own context and the record number that ends
  // the nonce as additional data.
  lemma LoggedAad(x: Export, e: Sealing)
    requires x.Valid() && e in x.Log() && e.nonce[0] < 2
    ensures |e.nonce| == 12
    ensures e.nonce[..8] == [e.nonce[0]] + (if e.nonce[0] == 0 then x.archiveRandom else x.anchorsRandom)
    ensures e.aad == (if e.nonce[0] == 0 then x.archiveContext else x.anchorsContext) + e.nonce[8..]
  {
    LoggedNonce(x, e);
    var c, p := x.Object(e.nonce[0]), x.Plaintext(e.nonce[0]);
    var i: nat :| i < Count(|p|) && e == ChunkSealing(c, p, i) && e.nonce[8..] == BigEndian4(i);
  }

  // No nonce is ever used twice under one data key, whatever the random bytes.
  lemma NonceUniqueness(x: Export)
    requires x.Valid()
    ensures NoncesUnique(x.Log())
  {
    forall d: Sealing, e: Sealing | d in x.Log() && e in x.Log() && d.nonce == e.nonce
      ensures d == e
    {
      LoggedNonce(x, d);
      LoggedNonce(x, e);
      if d.nonce[0] < 2 {
        var c, p := x.Object(d.nonce[0]), x.Plaintext(d.nonce[0]);
        var i: nat :| i < Count(|p|) && d == ChunkSealing(c, p, i) && d.nonce[8..] == BigEndian4(i);
        var j: nat :| j < Count(|p|) && e == ChunkSealing(c, p, j) && e.nonce[8..] == BigEndian4(j);
        BigEndian4Injective(i, j);
      }
    }
  }

  // ---- Soundness of the reader on an arbitrary file ----

  // Under an unforgeable cipher, record i of an object can only open to chunk i.
  lemma OpensOnlyAsWritten(x: Export, kind: byte, i: nat, p: bytes)
    requires x.Valid() && kind < 2 && Unforgeable(x.suite, x.key, x.Log())
    requires i < TWO32 && OpensAs(x.Object(kind), i, p)
    ensures i < Count(|x.Plaintext(kind)|) && p == ChunkAt(x.Plaintext(kind), i)
  {
    var c := x.Object(kind);
    var ct: bytes :| c.suite.open(c.key, Nonce(c, i), ct, Aad(c, i)) == Some(p);
    var e := Sealing(Nonce(c, i), p, Aad(c, i));
    assert e in x.Log();
    LoggedNonce(x, e);
    assert e.nonce[0] == kind && e.nonce[8..] == BigEndian4(i);
    var plain := x.Plaintext(kind);
    var j: nat :| j < Count(|plain|) && e == ChunkSealing(c, plain, j) && e.nonce[8..] == BigEndian4(j);
    BigEndian4Injective(i, j);
  }

  // In an object's domain nothing opens but under the object's own prefix and context.
  lemma OpensOnlyAtHome(x: Export, kind: byte, c: Channel, i: nat, p: bytes)
    requires x.Valid() && kind < 2 && Unforgeable(x.suite, x.key, x.Log())
    requires c.suite == x.suite && c.key == x.key && |c.prefix| == 8 && c.prefix[0] == kind
    requires i < TWO32 && OpensAs(c, i, p)
    ensures c.prefix == x.Object(kind).prefix && c.context == x.Object(kind).context
  {
    var ct: bytes :| c.suite.open(c.key, Nonce(c, i), ct, Aad(c, i)) == Some(p);
    var e := Sealing(Nonce(c, i), p, Aad(c, i));
    assert e in x.Log() && e.nonce[0] == kind;
    LoggedAad(x, e);
    assert e.nonce[..8] == c.prefix && e.nonce[8..] == BigEndian4(i);
    assert c.context == e.aad[..|e.aad| - 4];
    assert x.Object(kind).context == e.aad[..|e.aad| - 4];
  }

  // Whatever the file holds, what the reader accepts is the written plaintext
  // from its start, whole chunk by whole chunk.
  lemma {:induction false} AcceptedIsPrefix(x: Export, kind: byte, chunks: nat, records: seq<bytes>)
    requires x.Valid() && kind < 2 && Unforgeable(x.suite, x.key, x.Log())
    requires Accepted(x.Object(kind), chunks, records)
    ensures |records| <= Count(|x.Plaintext(kind)|)
    ensures Flatten(records) == FirstChunks(x.Plaintext(kind), |records|)
  {
    if records != [] {
      var last := |records| - 1;
      AcceptedIsPrefix(x, kind, chunks, records[..last]);
      OpensOnlyAsWritten(x, kind, last, records[last]);
      FirstChunksStep(x.Plaintext(kind), last);
    }
  }

  lemma FirstChunksStep(p: bytes, k: nat)
    requires k < Count(|p|)
    ensures FirstChunks(p, k) + ChunkAt(p, k) == FirstChunks(p, k + 1)
  {
  }

  lemma AllChunks(p: bytes)
    ensures FirstChunks(p, Count(|p|)) == p
  {
  }

  // ---- Whole sessions ----

  function Total(counts: seq<nat>): nat {
    if counts == [] then 0 else Total(counts[..|counts| - 1]) + counts[|counts| - 1]
  }

  lemma {:induction false} TotalConcat(a: seq<nat>, b: seq<nat>)
    ensures Total(a + b) == Total(a) + Total(b)
    ensures |a| == 1 ==> Total(a) == a[0]
    decreases |b|
  {
    if b == [] {
      assert a + b == a;
    } else {
      var last := |b| - 1;
      TotalConcat(a, b[..last]);
      TotalLast(b[..last], b[last]);
      TotalLast(a + b[..last], b[last]);
      assert b == b[..last] + [b[last]];
      Regroup(a, b[..last], [b[last]]);
    }
  }

  lemma TotalLast(counts: seq<nat>, n: nat)
    ensures Total(counts + [n]) == Total(counts) + n
  {
    assert (counts + [n])[..|counts|] == counts;
  }

  lemma {:induction false} FlattenPrefix(blocks: seq<bytes>, k: nat)
    requires k <= |blocks|
    ensures |Flatten(blocks[..k])| <= |Flatten(blocks)|
    decreases |blocks|
  {
    if k < |blocks| {
      FlattenPrefix(blocks[..|blocks| - 1], k);
      assert blocks[..|blocks| - 1][..k] == blocks[..k];
    } else {
      assert blocks[..k] == blocks;
    }
  }

  // write_encrypted_tar(): however the tar layer splits its stream into
  // write() calls, the object and its metadata are those of the whole stream.
  method WriteObject(channel: Channel, blocks: seq<bytes>) returns (r: Result<(bytes, Metadata)>)
    requires TagLength(channel.suite)
    ensures r.Ok? <==> |channel.key| == 32 && |channel.prefix| == 8 && Count(|Flatten(blocks)|) <= TWO32
    ensures r.Ok? ==> r.value == (Sealed(channel, Flatten(blocks)), SealedMetadata(channel, Flatten(blocks)))
  {
    if |channel.key| != 32 || |channel.prefix| != 8 {
      return Error;
    }
    var writer := new EncryptingWriter(channel);
    for k := 0 to |blocks|
      invariant writer.Valid() && writer.Drained() && writer.channel == channel
      invariant writer.written == Flatten(blocks[..k])
    {
      assert blocks[..k + 1][..k] == blocks[..k];
      var written := writer.Write(blocks[k]);
      if written.Error? {
        FlattenPrefix(blocks, k + 1);
        return Error;
      }
    }
    assert blocks[..|blocks|] == blocks;
    var metadata := writer.Finish();
    if metadata.Error? {
      return Error;
    }
    r := Ok((writer.output, metadata.value));
  }

  // The file the writer produced is an untampered file for the reader.
  lemma ExportIsUntampered(x: Export, kind: byte)
    requires x.Valid() && kind < 2 && Opens(x.suite, x.key, x.Log())
    ensures var c, p := x.Object(kind), x.Plaintext(kind);
            && Untampered(c, Sealed(c, p), SealedMetadata(c, p), p)
            && DecryptingReader.CanOpen(c, SealedMetadata(c, p), Sealed(c, p), kind)
  {
    var c, p := x.Object(kind), x.Plaintext(kind);
    forall i | 0 <= i < Count(|p|)
      ensures c.suite.open(c.key, Nonce(c, i), Ciphertext(c, p, i), Aad(c, i)) == Some(ChunkAt(p, i))
    {
      assert ChunkSealing(c, p, i) in x.Log();
    }
    ImagePrefix(c, p, 0, Count(|p|));
    assert Sealed(c, p)[..|MAGIC|] == MAGIC;
  }

  // The bytes due to the k-th of a run of bounded reads.
  function Piece(p: bytes, counts: seq<nat>, k: nat): bytes
    requires k < |counts|
  {
    Next(p, Total(counts[..k]), counts[k])
  }

  lemma PieceAdvances(p: bytes, counts: seq<nat>, k: nat, done: nat)
    requires k < |counts| && done == Min(Total(counts[..k]), |p|)
    ensures Next(p, done, counts[k]) == Piece(p, counts, k)
    ensures done + |Piece(p, counts, k)| == Min(Total(counts[..k + 1]), |p|)
  {
    assert counts[..k + 1][..k] == counts[..k];
  }

  // The pieces put together: the plaintext in order, as far as was asked for.
  lemma {:induction false} PiecesInOrder(p: bytes, counts: seq<nat>, pieces: seq<bytes>)
    requires |pieces| == |counts| && forall k :: 0 <= k < |counts| ==> pieces[k] == Piece(p, counts, k)
    ensures Flatten(pieces) == p[..Min(Total(counts), |p|)]
  {
    if counts != [] {
      var last := |counts| - 1;
      forall k | 0 <= k < last
        ensures pieces[..last][k] == Piece(p, counts[..last], k)
      {
        assert counts[..last][..k] == counts[..k];
      }
      PiecesInOrder(p, counts[..last], pieces[..last]);
      NextPiece(p, Total(counts[..last]), counts[last]);
    }
  }

  lemma NextPiece(p: bytes, done: nat, count: nat)
    ensures p[..Min(done, |p|)] + Next(p, done, count) == p[..Min(done + count, |p|)]
  {
  }

  method ReadInTurn(reader: DecryptingReader, counts: seq<nat>) returns (pieces: seq<bytes>)
    requires reader.Valid() && reader.InStep() && reader.delivered == []
    modifies reader
    ensures |pieces| == |counts|
    ensures forall k :: 0 <= k < |counts| ==> pieces[k] == Piece(reader.plain, counts, k)
  {
    pieces := [];
    for k := 0 to |counts|
      invariant reader.Valid() && reader.InStep()
      invariant |pieces| == k && InTurn(reader.plain, counts, pieces)
      invariant |reader.delivered| == Min(Total(counts[..k]), |reader.plain|)
    {
      var piece := ReadPiece(reader, counts, k);
      OneMorePiece(reader.plain, counts, pieces, piece);
      pieces := pieces + [piece];
    }
  }

  ghost predicate InTurn(p: bytes, counts: seq<nat>, pieces: seq<bytes>) {
    |pieces| <= |counts| && forall j :: 0 <= j < |pieces| ==> pieces[j] == Piece(p, counts, j)
  }

  lemma OneMorePiece(p: bytes, counts: seq<nat>, pieces: seq<bytes>, piece: bytes)
    requires InTurn(p, counts, pieces) && |pieces| < |counts| && piece == Piece(p, counts, |pieces|)
    ensures InTurn(p, counts, pieces + [piece])
  {
  }

  // One read in its turn.
  method ReadPiece(reader: DecryptingReader, counts: seq<nat>, k: nat) returns (piece: bytes)
    requires reader.Valid() && reader.InStep() && k < |counts|
    requires |reader.delivered| == Min(Total(counts[..k]), |reader.plain|)
    modifies reader
    ensures reader.Valid() && reader.InStep()
    ensures piece == Piece(reader.plain, counts, k)
    ensures reader.delivered == old(reader.delivered) + piece
    ensures |reader.delivered| == Min(Total(counts[..k + 1]), |reader.plain|)
  {
    PieceAdvances(reader.plain, counts, k, |reader.delivered|);
    var read := reader.Read(counts[k]);
    piece := read.value;
  }

  // The round trip: any split of the plaintext into writes, then any sequence
  // of bounded reads. Call k returns the counts[k] bytes that follow what was
  // already returned, fewer only where the plaintext ends.
  method RoundTrip(x: Export, kind: byte, blocks: seq<bytes>, counts: seq<nat>) returns (pieces: seq<bytes>)
    requires x.Valid() && kind < 2 && Opens(x.suite, x.key, x.Log())
    requires Flatten(blocks) == x.Plaintext(kind)
    ensures |pieces| == |counts|
    ensures forall k :: 0 <= k < |counts| ==> pieces[k] == Piece(x.Plaintext(kind), counts, k)
    ensures Flatten(pieces) == x.Plaintext(kind)[..Min(Total(counts), |x.Plaintext(kind)|)]
  {
    ghost var plain := x.Plaintext(kind);
    var channel := x.Object(kind);
    var written := WriteObject(channel, blocks);
    ExportIsUntampered(x, kind);
    var (object', metadata) := written.value;
    var opened' := DecryptingReader.Open(x.suite, metadata, x.key, channel.context, kind, object', plain);
    pieces := ReadInTurn(opened'.value, counts);
    PiecesInOrder(plain, counts, pieces);
  }

  ghost predicate Collision(s: Suite, a: bytes, b: bytes) {
    a != b && |a| == |b| && s.sha256(a) == s.sha256(b)
  }

  // Any file at all under the sealed metadata, read in any way, with calls that
  // raised simply retried: what comes out is a prefix of the true plaintext, and
  // once the reader has finished and is drained, all of it. Finishing also means
  // that the file is the sealed object byte for byte (no record reordered,
  // dropped, cut short, added or taken from the other object) unless it is a
  // SHA-256 collision with it.
  method ReadAnyFile(
    x: Export, kind: byte, source: bytes, counts: seq<int>) returns (out: bytes, finished: bool, drained: bool)
    requires x.Valid() && kind < 2 && Unforgeable(x.suite, x.key, x.Log())
    ensures out <= x.Plaintext(kind)
    ensures finished && drained ==> out == x.Plaintext(kind)
    ensures finished ==>
      var sealed := Sealed(x.Object(kind), x.Plaintext(kind));
      source == sealed || Collision(x.suite, source, sealed)
  {
    ghost var plain := x.Plaintext(kind);
    var channel := x.Object(kind);
    var metadata := SealedMetadata(channel, x.Plaintext(kind));
    var opened' := DecryptingReader.Open(x.suite, metadata, x.key, channel.context, kind, source, plain);
    if opened'.Error? {
      return [], false, false;
    }
    var reader := opened'.value;
    out := [];
    for k := 0 to |counts|
      invariant reader.Valid() && fresh(reader)
      invariant reader.channel == channel && reader.metadata == metadata && reader.source == source
      invariant out == reader.delivered
    {
      var piece := reader.Read(counts[k]);
      if piece.Ok? {
        out := out + piece.value;
      }
    }
    AcceptedIsPrefix(x, kind, metadata.chunks, reader.records);
    AllChunks(plain);
    assert out <= out + reader.buffer == FirstChunks(plain, |reader.records|);
    finished, drained := reader.finished, reader.buffer == [];
  }

  // A reader with the export's key, opened for one of its two domains under
  // another prefix or another context than the object's own: no file, metadata or
  // sequence of reads ever yields a byte.
  method ReadForeign(
    x: Export, kind: byte, context: bytes, metadata: Metadata, source: bytes, counts: seq<int>)
      returns (results: seq<Result<bytes>>)
    requires x.Valid() && kind < 2 && Unforgeable(x.suite, x.key, x.Log())
    requires metadata.noncePrefix != x.Object(kind).prefix || context != x.Object(kind).context
    ensures |results| <= |counts|
    ensures forall k :: 0 <= k < |results| ==> results[k] == Error || (counts[k] == 0 && results[k] == Ok([]))
  {
    results := [];
    var opened' := DecryptingReader.Open(x.suite, metadata, x.key, context, kind, source, []);
    if opened'.Error? {
      return;
    }
    var reader := opened'.value;
    for k := 0 to |counts|
      invariant Foreign(x, kind, reader) && fresh(reader) && |results| == k
      invariant forall j :: 0 <= j < k ==> results[j] == Error || (counts[j] == 0 && results[j] == Ok([]))
    {
      var piece := ReadNothing(x, kind, reader, counts[k]);
      results := results + [piece];
    }
  }

  ghost predicate Foreign(x: Export, kind: byte, reader: DecryptingReader)
    requires x.Valid() && kind < 2
    reads reader
  {
    && reader.Valid()
    && reader.channel.suite == x.suite && reader.channel.key == x.key && reader.channel.prefix[0] == kind
    && (reader.channel.prefix != x.Object(kind).prefix || reader.channel.context != x.Object(kind).context)
    && reader.metadata.chunks > 0
  }

  method ReadNothing(x: Export, kind: byte, reader: DecryptingReader, count: int) returns (r: Result<bytes>)
    requires x.Valid() && kind < 2 && Unforgeable(x.suite, x.key, x.Log()) && Foreign(x, kind, reader)
    modifies reader
    ensures Foreign(x, kind, reader)
    ensures r == Error || (count == 0 && r == Ok([]))
  {
    r := reader.Read(count);
    if reader.records != [] {
      assert OpensAs(reader.channel, 0, reader.records[0]);
      OpensOnlyAtHome(x, kind, reader.channel, 0, reader.records[0]);
      assert false;
    }
    assert reader.delivered + reader.buffer == [] && reader.index == 0;
  }

  // The two hypotheses on the cipher are compatible: some suite meets both.
  lemma IdealSuiteExists(key: bytes, log: iset<Sealing>) returns (s: Suite)
    ensures TagLength(s) && Opens(s, key, log) && Unforgeable(s, key, log)
  {
    var tag := seq(16, i => 0 as byte);
    s := Suite((k: bytes, n: bytes, p: bytes, a: bytes) => p + tag,
               (k: bytes, n: bytes, c: bytes, a: bytes) =>
                 if |c| >= 16 && c[|c| - 16..] == tag && Sealing(n, c[..|c| - 16], a) in log
                 then Some(c[..|c| - 16]) else None,
               p => p);
  }
}