// From a committed backup to the files that recovery checks: the stored objects
// read through the decrypting reader, the tar layer and the inventory.
module BackupRecovery {
  import opened Bytes
  import opened Crypto
  import opened Paths
  import opened BackupArchive
  import opened BackupDecrypt
  import opened BackupStream
  import opened BackupInventory
  import opened BackupSource
  import opened BackupVerify
  import opened BackupExport

  // ---- The tar layer ----

  // The tar library: the stream it writes for a sequence of members, the length
  // of that stream up to its end marker, and what it finds in the beginning of
  // a stream.
  datatype Tar = Tar(write: seq<Member> -> bytes, end: seq<Member> -> nat, parse: bytes -> Option<seq<Member>>)

  // These members are found again once the end marker has been read, and only
  // zeros follow it.
  ghost predicate Streams(tar: Tar, members: seq<Member>) {
    && tar.end(members) <= |tar.write(members)|
    && AllZero(tar.write(members)[tar.end(members)..])
    && forall n | tar.end(members) <= n <= |tar.write(members)| ::
         tar.parse(tar.write(members)[..n]) == Some(members)
  }

  // The hypothesis can be met for the two streams of an export at once.
  lemma TarExists(a: seq<Member>, b: seq<Member>) returns (tar: Tar)
    ensures Streams(tar, a) && Streams(tar, b)
  {
    tar := Tar(m => if m == a then [1] else [2], m => 1, s => if s == [1] then Some(a) else Some(b));
    assert tar.write(a)[..1] == [1];
    assert tar.write(b)[..1] == if b == a then [1] else [2];
  }

  // ---- One object ----

  // The tar layer's reads; a read that raises ends the verification.
  method ReadStream(reader: DecryptingReader, counts: seq<nat>) returns (r: Result<bytes>)
    requires reader.Valid() && reader.delivered == []
    modifies reader
    ensures reader.Valid()
    ensures r.Ok? ==> r.value == reader.delivered
    ensures old(reader.InStep()) ==>
      reader.InStep() && r == Ok(reader.plain[..Min(Total(counts), |reader.plain|)])
  {
    var out: bytes := [];
    ghost var inStep := reader.InStep();
    assert counts[..0] == [];
    for k := 0 to |counts|
      invariant reader.Valid() && out == reader.delivered
      invariant inStep ==> OnCourse(reader, counts, k)
    {
      var piece := ReadNext(reader, counts, k);
      if piece.Error? {
        return Error;
      }
      out := out + piece.value;
    }
    assert counts[..|counts|] == counts;
    r := Ok(out);
  }

  // An untampered file, read as far as the first k counts ask.
  ghost predicate OnCourse(reader: DecryptingReader, counts: seq<nat>, k: nat)
    requires k <= |counts|
    reads reader
  {
    reader.InStep() && reader.delivered == reader.plain[..Min(Total(counts[..k]), |reader.plain|)]
  }

  method ReadNext(reader: DecryptingReader, counts: seq<nat>, k: nat) returns (r: Result<bytes>)
    requires reader.Valid() && k < |counts|
    modifies reader
    ensures reader.Valid()
    ensures r.Ok? ==> reader.delivered == old(reader.delivered) + r.value
    ensures old(OnCourse(reader, counts, k)) ==> r.Ok? && OnCourse(reader, counts, k + 1)
  {
    r := reader.Read(counts[k]);
    assert counts[..k + 1][..k] == counts[..k];
    NextPiece(reader.plain, Total(counts[..k]), counts[k]);
  }

  // _tar_object() on a file: open, read through the tar layer, compare with the
  // sealed entries, finish.
  method VerifyFile(
    tar: Tar, suite: Suite, metadata: Metadata, key: bytes, context: bytes, kind: byte, source: bytes,
    counts: seq<nat>, c: Contract, entries: seq<Entry>, ghost plain: bytes, ghost members: seq<Member>)
      returns (r: Result<TarFiles>)
    requires Streams(tar, members) && plain == tar.write(members) && tar.end(members) <= Total(counts)
    ensures r.Ok? ==> |source| == metadata.size && suite.sha256(source) == metadata.sha256
    ensures var channel := Channel(suite, key, metadata.noncePrefix, context);
      Untampered(channel, source, metadata, plain) && DecryptingReader.CanOpen(channel, metadata, source, kind) ==>
        r == Accepts(suite.sha256, c, kind == 0, members, entries)
  {
    var opened' := DecryptingReader.Open(suite, metadata, key, context, kind, source, plain);
    if opened'.Error? {
      return Error;
    }
    var reader := opened'.value;
    var stream := ReadStream(reader, counts);
    if stream.Error? {
      return Error;
    }
    if reader.InStep() {
      EndIsZero(tar, members, |stream.value|);
    }
    var found := tar.parse(stream.value);
    var finish := reader.Finish();
    if found.None? || finish.Error? {
      return Error;
    }
    r := TarObject(suite.sha256, c, kind == 0, found.value, [], entries);
  }

  function Accepts(sha: bytes -> bytes, c: Contract, archive: bool, members: seq<Member>, entries: seq<Entry>)
    : Result<TarFiles>
  {
    if TarMatches(sha, c, archive, members, entries) then Ok(FilesOf(c, archive, members, entries)) else Error
  }

  lemma EndIsZero(tar: Tar, members: seq<Member>, n: nat)
    requires Streams(tar, members) && tar.end(members) <= n <= |tar.write(members)|
    ensures AllZero(tar.write(members)[n..])
    ensures tar.parse(tar.write(members)[..n]) == Some(members)
  {
    var p, end := tar.write(members), tar.end(members);
    forall i | 0 <= i < |p[n..]|
      ensures p[n..][i] == 0
    {
      assert p[n..][i] == p[end..][n - end + i];
    }
  }

  // Whatever file stands in an object's place: it is accepted only if it is the
  // sealed object, or collides with it; and the sealed object is accepted
  // exactly when its members are the inventory's.
  method RecoverObject(
    x: Export, tar: Tar, kind: byte, source: bytes, counts: seq<nat>, c: Contract, entries: seq<Entry>,
    ghost members: seq<Member>)
      returns (r: Result<TarFiles>)
    requires x.Valid() && kind < 2 && Opens(x.suite, x.key, x.Log())
    requires Streams(tar, members) && x.Plaintext(kind) == tar.write(members) && tar.end(members) <= Total(counts)
    ensures var sealed := Sealed(x.Object(kind), x.Plaintext(kind));
      if source == sealed then r == Accepts(x.suite.sha256, c, kind == 0, members, entries)
      else r.Ok? ==> Collision(x.suite, source, sealed)
  {
    var channel := x.Object(kind);
    ExportIsUntampered(x, kind);
    r := VerifyFile(tar, x.suite, SealedMetadata(channel, x.Plaintext(kind)), x.key, channel.context, kind, source,
                    counts, c, entries, x.Plaintext(kind), members);
  }

  // ---- A whole committed backup ----

  // The members of the tar stream the exporter writes for these entries.
  function Members(disk: map<string, bytes>, entries: seq<Entry>): seq<Member> {
    seq(|entries|, i requires 0 <= i < |entries| => MemberFor(disk, entries[i]))
  }

  // x is the export of this host: both plaintexts are the tar streams of its
  // inventory and of the anchor root's part of it.
  ghost predicate Exports(x: Export, tar: Tar, sections: seq<Section>, disk: map<string, bytes>) {
    var entries := EntriesFrom(x.suite.sha256, sections, 0);
    Writes(tar, x.archive, Members(disk, entries)) && Writes(tar, x.anchors, Members(disk, Select(ANCHOR, entries)))
  }

  ghost predicate Writes(tar: Tar, p: bytes, members: seq<Member>) {
    Streams(tar, members) && p == tar.write(members)
  }

  // The host can be exported, and its files still have the captured content.
  ghost predicate Exportable(c: Contract, sha: bytes -> bytes, sections: seq<Section>, disk: map<string, bytes>) {
    && c.Valid() && Initialized(c, sections) && DigestLength(sha)
    && 1 <= |EntriesFrom(sha, sections, 0)| <= MAX_INVENTORY_ENTRIES
    && OnDisk(disk, sections) && SizesFit(c, sections)
    && (forall i :: 0 <= i < |sections| ==> Portable(sections[i].node))
    && !Captured(sections, c.forbidden)
  }

  lemma ExportableMatches(c: Contract, sha: bytes -> bytes, sections: seq<Section>, disk: map<string, bytes>)
    requires Exportable(c, sha, sections, disk)
    ensures var entries := EntriesFrom(sha, sections, 0); var anchors := Select(ANCHOR, entries);
      && InventoryOk(c, entries, RootRecords(sha, sections, |sections|))
      && TarMatches(sha, c, true, Members(disk, entries), entries)
      && TarMatches(sha, c, false, Members(disk, anchors), anchors)
  {
    CapturedUnchanged(c, sha, sections, disk);
    ExportedInventoryPasses(c, sha, sections);
    InventoryTars(c, sha, EntriesFrom(sha, sections, 0), RootRecords(sha, sections, |sections|), disk);
  }

  lemma InventoryTars(
    c: Contract, sha: bytes -> bytes, entries: seq<Entry>, roots: map<string, Entry>, disk: map<string, bytes>)
    requires InventoryOk(c, entries, roots)
    requires forall e :: e in entries ==> Unchanged(sha, disk, e) && WithinLimits(c, e)
    ensures TarMatches(sha, c, true, Members(disk, entries), entries)
    ensures var anchors := Select(ANCHOR, entries); TarMatches(sha, c, false, Members(disk, anchors), anchors)
  {
    var anchors := Select(ANCHOR, entries);
    SelectSubset(ANCHOR, entries);
    WrittenTarMatches(sha, c, true, disk, entries, Members(disk, entries));
    WrittenTarMatches(sha, c, false, disk, anchors, Members(disk, anchors));
  }

  // The entry whose content is captured under this name.
  predicate CapturedAs(c: Contract, e: Entry, name: string) {
    e.archivePath == name && e.kind.FileKind? && IsControl(c, name)
  }

  lemma ControlIs(
    c: Contract, archive: bool, disk: map<string, bytes>, entries: seq<Entry>, e: Entry, name: string)
    requires Unique(entries)
    ensures var controls := FilesOf(c, archive, Members(disk, entries), entries).controls;
      && (e in entries && CapturedAs(c, e, name) ==> name in controls && controls[name] == MemberFor(disk, e).content)
      && (name in controls ==> exists x :: x in entries && CapturedAs(c, x, name))
  {
    var members := Members(disk, entries);
    if e in entries && CapturedAs(c, e, name) {
      var i :| 0 <= i < |entries| && entries[i] == e;
      ControlHeld(c, members, entries, |entries|, i);
    }
    if name in Controls(c, members, entries, |entries|) {
      ControlsOnly(c, members, entries, |entries|, name);
      var i :| 0 <= i < |entries| && entries[i].archivePath == name && entries[i].kind.FileKind? && IsControl(c, name);
      assert CapturedAs(c, entries[i], name);
    }
  }

  // The control files below the anchor root are the same in both objects.
  ghost predicate AnchorsAgree(archive: TarFiles, anchors: TarFiles) {
    forall name :: InGroup(ANCHOR, name) ==>
      && (name in archive.controls <==> name in anchors.controls)
      && (name in archive.controls ==> archive.controls[name] == anchors.controls[name])
  }

  lemma ExportedAnchorsAgree(c: Contract, disk: map<string, bytes>, entries: seq<Entry>)
    requires Unique(entries)
    ensures var selected := Select(ANCHOR, entries);
      AnchorsAgree(FilesOf(c, true, Members(disk, entries), entries),
                   FilesOf(c, false, Members(disk, selected), selected))
  {
    var selected := Select(ANCHOR, entries);
    SelectSubset(ANCHOR, entries);
    var all, part := FilesOf(c, true, Members(disk, entries), entries), FilesOf(c, false, Members(disk, selected),
      selected);
    forall name | InGroup(ANCHOR, name)
      ensures name in all.controls <==> name in part.controls
      ensures name in all.controls ==> all.controls[name] == part.controls[name]
    {
      if e :| e in entries && CapturedAs(c, e, name) {
        ControlIs(c, true, disk, entries, e, name);
        ControlIs(c, false, disk, selected, e, name);
      } else if |entries| > 0 {
        ControlIs(c, true, disk, entries, entries[0], name);
        ControlIs(c, false, disk, selected, entries[0], name);
      }
    }
  }

  // What a recovery of both objects gives: the exported files, with an anchor
  // copy that agrees with the archive.
  ghost predicate Recovered(
    x: Export, c: Contract, sections: seq<Section>, disk: map<string, bytes>, first: Result<TarFiles>,
    second: Result<TarFiles>)
  {
    var entries := EntriesFrom(x.suite.sha256, sections, 0);
    var selected := Select(ANCHOR, entries);
    && first == Ok(FilesOf(c, true, Members(disk, entries), entries))
    && second == Ok(FilesOf(c, false, Members(disk, selected), selected))
    && AnchorsAgree(first.value, second.value)
  }

  // In every reachable world of the export protocol that holds a manifest
  // sealing a host's export, with the digest that the export reported: whatever
  // reads the tar layer makes, the stored archive and the stored anchors are
  // accepted with exactly the exported members, unless the store holds a
  // SHA-256 collision with the manifest or with one of the two sealed objects.
  method RecoverCommitted(
    ghost env: Env, ghost run: seq<World>, ghost i: nat, ghost scope: string, x: Export, tar: Tar, c: Contract,
    sections: seq<Section>, ghost disk: map<string, bytes>, archive: bytes, anchors: bytes,
    archiveCounts: seq<nat>, anchorCounts: seq<nat>)
      returns (first: Result<TarFiles>, second: Result<TarFiles>)
    requires Run(env, run) && i < |run| && Key(scope, Manifest) in run[i].bucket && Delivered(env, run[i], scope)
    requires x.Valid() && env.sha256 == x.suite.sha256 && Opens(x.suite, x.key, x.Log())
    requires env.decode(run[i].bucket[Key(scope, Manifest)].content) ==
             Some(Commit(RefIn(SealedMetadata(x.Object(0), x.archive)), RefIn(SealedMetadata(x.Object(1), x.anchors))))
    requires Key(scope, Archive) in run[i].bucket ==> archive == run[i].bucket[Key(scope, Archive)].content
    requires Key(scope, Anchors) in run[i].bucket ==> anchors == run[i].bucket[Key(scope, Anchors)].content
    requires Exports(x, tar, sections, disk) && Exportable(c, x.suite.sha256, sections, disk)
    requires var entries := EntriesFrom(x.suite.sha256, sections, 0);
      && tar.end(Members(disk, entries)) <= Total(archiveCounts)
      && tar.end(Members(disk, Select(ANCHOR, entries))) <= Total(anchorCounts)
    ensures Key(scope, Archive) in run[i].bucket && Key(scope, Anchors) in run[i].bucket
    ensures OwnManifest(run[i], scope).Some?
    ensures var entries := EntriesFrom(x.suite.sha256, sections, 0);
      || first == Ok(FilesOf(c, true, Members(disk, entries), entries))
      || Collision(x.suite, archive, Sealed(x.Object(0), x.archive))
      || HashCollision(env, run[i].bucket[Key(scope, Manifest)].content, OwnManifest(run[i], scope).value)
    ensures var selected := Select(ANCHOR, EntriesFrom(x.suite.sha256, sections, 0));
      || second == Ok(FilesOf(c, false, Members(disk, selected), selected))
      || Collision(x.suite, anchors, Sealed(x.Object(1), x.anchors))
      || HashCollision(env, run[i].bucket[Key(scope, Manifest)].content, OwnManifest(run[i], scope).value)
    ensures
      || Recovered(x, c, sections, disk, first, second)
      || Collision(x.suite, archive, Sealed(x.Object(0), x.archive))
      || Collision(x.suite, anchors, Sealed(x.Object(1), x.anchors))
      || HashCollision(env, run[i].bucket[Key(scope, Manifest)].content, OwnManifest(run[i], scope).value)
  {
    CommittedIsRestorable(env, run, i, scope, x);
    ExportableMatches(c, x.suite.sha256, sections, disk);
    var entries := EntriesFrom(x.suite.sha256, sections, 0);
    var selected := Select(ANCHOR, entries);
    first := RecoverObject(x, tar, 0, archive, archiveCounts, c, entries, Members(disk, entries));
    second := RecoverObject(x, tar, 1, anchors, anchorCounts, c, selected, Members(disk, selected));
    ExportedAnchorsAgree(c, disk, entries);
  }
}
