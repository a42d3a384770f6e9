// runtime/artifact_store.py: blobs under the address of their content, a
// sorted manifest per run, and restoring a run's files.
module ArtifactStore {
  import opened Bytes
  import opened Text
  import opened Paths
  import opened Sequences

  type Digest = string

  datatype Entry = Entry(path: string, digest: Digest, size: nat)

  type Blobs = map<Digest, bytes>

  type Manifest = seq<Entry>

  ghost predicate Injective(sha: bytes -> Digest) {
    forall a, b :: sha(a) == sha(b) ==> a == b
  }

  // ---- sorted(), by path ----

  // Order by code point, as Python compares strings.
  predicate Below(a: string, b: string) {
    b != "" && (a == "" || a[0] < b[0] || (a[0] == b[0] && Below(a[1..], b[1..])))
  }

  // The first difference decides; a proper prefix comes first.
  lemma {:induction false} BelowIs(a: string, b: string, k: nat)
    requires k <= |a| && k <= |b| && a[..k] == b[..k]
    ensures k < |a| && k < |b| && a[k] != b[k] ==> (Below(a, b) <==> a[k] < b[k])
    ensures k == |a| ==> (Below(a, b) <==> k < |b|)
    ensures k == |b| ==> !Below(a, b)
  {
    if k > 0 {
      assert a[0] == a[..k][0] == b[0] && a[1..][..k - 1] == a[..k][1..] == b[1..][..k - 1];
      BelowIs(a[1..], b[1..], k - 1);
    }
  }

  lemma {:induction false} BelowTotal(a: string, b: string)
    ensures Below(a, b) || a == b || Below(b, a)
  {
    if a != "" && b != "" && a[0] == b[0] {
      BelowTotal(a[1..], b[1..]);
      assert a == [a[0]] + a[1..] && b == [b[0]] + b[1..];
    }
  }

  lemma {:induction false} BelowTransitive(a: string, b: string, c: string)
    requires Below(a, b) && Below(b, c)
    ensures Below(a, c)
  {
    if a != "" && a[0] == b[0] && b[0] == c[0] {
      BelowTransitive(a[1..], b[1..], c[1..]);
    }
  }

  lemma {:induction false} BelowStrict(a: string)
    ensures !Below(a, a)
  {
    if a != "" {
      BelowStrict(a[1..]);
    }
  }

  // Strictly ascending: sorted, and no path twice.
  predicate Ascending(m: Manifest) {
    forall i, j | 0 <= i < j < |m| :: Below(m[i].path, m[j].path)
  }

  // The stable insertion that sorting by path amounts to.
  function Insert(m: Manifest, e: Entry): Manifest {
    if m == [] || Below(e.path, m[0].path) then [e] + m else [m[0]] + Insert(m[1..], e)
  }

  function Sorted(m: Manifest): Manifest {
    if m == [] then [] else Insert(Sorted(m[..|m| - 1]), m[|m| - 1])
  }

  predicate HasPath(m: Manifest, path: string) {
    exists i :: 0 <= i < |m| && m[i].path == path
  }

  lemma {:induction false} InsertKeeps(m: Manifest, e: Entry)
    ensures multiset(Insert(m, e)) == multiset(m) + multiset{e}
  {
    if !(m == [] || Below(e.path, m[0].path)) {
      InsertKeeps(m[1..], e);
      assert m == [m[0]] + m[1..];
    }
  }

  lemma {:induction false} InsertAscending(m: Manifest, e: Entry)
    requires Ascending(m) && !HasPath(m, e.path)
    ensures Ascending(Insert(m, e))
  {
    var r := Insert(m, e);
    if m == [] {
    } else if Below(e.path, m[0].path) {
      forall j | 0 < j < |r|
        ensures Below(r[0].path, r[j].path)
      {
        if j > 1 {
          BelowTransitive(e.path, m[0].path, m[j - 1].path);
        }
      }
    } else {
      var rest := Insert(m[1..], e);
      forall i | 0 <= i < |m[1..]|
        ensures m[1..][i].path != e.path
      {
        assert m[i + 1] == m[1..][i];
      }
      InsertAscending(m[1..], e);
      InsertKeeps(m[1..], e);
      BelowTotal(e.path, m[0].path);
      forall j | 0 < j < |r|
        ensures Below(r[0].path, r[j].path)
      {
        assert r[j] == rest[j - 1];
        assert rest[j - 1] in multiset(rest);
        if rest[j - 1] != e {
          assert rest[j - 1] in m[1..];
          var k :| 0 <= k < |m[1..]| && m[1..][k] == rest[j - 1];
          assert m[k + 1] == rest[j - 1];
        }
      }
    }
  }

  lemma {:induction false} SortedKeeps(m: Manifest)
    ensures multiset(Sorted(m)) == multiset(m)
  {
    if m != [] {
      var last := |m| - 1;
      SortedKeeps(m[..last]);
      InsertKeeps(Sorted(m[..last]), m[last]);
      assert m == m[..last] + [m[last]];
    }
  }

  predicate UniquePaths(m: Manifest) {
    forall i, j | 0 <= i < j < |m| :: m[i].path != m[j].path
  }

  lemma SortedHas(m: Manifest, e: Entry)
    ensures e in Sorted(m) <==> e in m
  {
    SortedKeeps(m);
    assert e in Sorted(m) <==> e in multiset(Sorted(m));
    assert e in m <==> e in multiset(m);
  }

  lemma {:induction false} SortedAscending(m: Manifest)
    requires UniquePaths(m)
    ensures Ascending(Sorted(m))
  {
    if m != [] {
      var last := |m| - 1;
      var before := m[..last];
      SortedAscending(before);
      forall i | 0 <= i < |Sorted(before)|
        ensures Sorted(before)[i].path != m[last].path
      {
        SortedHas(before, Sorted(before)[i]);
        assert Sorted(before)[i] in before;
      }
      InsertAscending(Sorted(before), m[last]);
    }
  }

  // ---- mirror_run_file() ----

  function Others(m: Manifest, path: string): Manifest {
    if m == [] then []
    else
      var last := |m| - 1;
      Others(m[..last], path) + if m[last].path != path then [m[last]] else []
  }

  function Mirrored(m: Manifest, e: Entry): Manifest {
    Sorted(Others(m, e.path) + [e])
  }

  lemma {:induction false} OthersAre(m: Manifest, path: string)
    requires UniquePaths(m)
    ensures UniquePaths(Others(m, path))
    ensures forall x :: x in Others(m, path) <==> x in m && x.path != path
  {
    if m != [] {
      var last := |m| - 1;
      OthersAre(m[..last], path);
      assert m == m[..last] + [m[last]];
      var before := Others(m[..last], path);
      forall i | 0 <= i < |before|
        ensures before[i].path != m[last].path
      {
        assert before[i] in m[..last];
      }
    }
  }

  lemma AscendingUnique(m: Manifest)
    requires Ascending(m)
    ensures UniquePaths(m)
  {
    forall i, j | 0 <= i < j < |m|
      ensures m[i].path != m[j].path
    {
      BelowStrict(m[i].path);
    }
  }

  // Mirroring replaces the entry of its path and keeps the manifest in order.
  lemma MirroredIs(m: Manifest, e: Entry)
    requires Ascending(m)
    ensures Ascending(Mirrored(m, e))
    ensures forall x :: x in Mirrored(m, e) <==> x == e || (x in m && x.path != e.path)
  {
    AscendingUnique(m);
    OthersAre(m, e.path);
    var all := Others(m, e.path) + [e];
    forall i, j | 0 <= i < j < |all|
      ensures all[i].path != all[j].path
    {
      if j == |all| - 1 {
        assert all[i] in Others(m, e.path);
      }
    }
    SortedAscending(all);
    forall x {
      SortedHas(all, x);
    }
  }

  datatype Store = Store(blobs: Blobs, manifests: map<string, Manifest>)

  const EMPTY: Store := Store(map[], map[])

  function ManifestOf(s: Store, run: string): Manifest {
    if run in s.manifests then s.manifests[run] else []
  }

  function EntryOf(sha: bytes -> Digest, path: string, data: bytes): Entry {
    Entry(path, sha(data), |data|)
  }

  // An OSError while the object is stored, after `cut` bytes of it reached the
  // disk or before its file was there, or while the manifest is saved.
  datatype Fault = NoFault | ObjectFault(cut: Option<nat>) | ManifestFault

  datatype Mirror = Mirror(run: string, path: string, data: bytes, fault: Fault)
  {
    // What the write of the object leaves at its address, where nothing is yet.
    function Reaches(): Option<bytes> {
      match fault
      case ObjectFault(None) => None
      case ObjectFault(Some(n)) => Some(data[..Min(n, |data|)])
      case _ => Some(data)
    }
  }

  // An object that is there is never written again.
  function WithBlob(sha: bytes -> Digest, blobs: Blobs, op: Mirror): Blobs {
    if sha(op.data) in blobs || op.Reaches().None? then blobs
    else blobs[sha(op.data) := op.Reaches().value]
  }

  function AfterMirror(sha: bytes -> Digest, s: Store, op: Mirror): Store {
    Store(WithBlob(sha, s.blobs, op),
      if op.fault.NoFault?
      then s.manifests[op.run := Mirrored(ManifestOf(s, op.run), EntryOf(sha, op.path, op.data))]
      else s.manifests)
  }

  // One mirror changes at most the object of its own bytes, and only when there
  // is none yet.
  lemma MirroredObject(sha: bytes -> Digest, s: Store, op: Mirror, d: Digest)
    ensures var blobs := AfterMirror(sha, s, op).blobs;
      if d in s.blobs then d in blobs && blobs[d] == s.blobs[d]
      else if d != sha(op.data) || op.fault == ObjectFault(None) then d !in blobs
      else
        && d in blobs
        && blobs[d] == match op.fault
                       case ObjectFault(Some(n)) => op.data[..if n <= |op.data| then n else |op.data|]
                       case _ => op.data
  {
  }

  // And it changes at most the manifest of its own run.
  lemma MirroredManifest(sha: bytes -> Digest, s: Store, op: Mirror, m: Manifest)
    requires m == if op.run in s.manifests then s.manifests[op.run] else []
    ensures AfterMirror(sha, s, op).manifests
      == if op.fault != NoFault then s.manifests
         else s.manifests[op.run := Mirrored(m, Entry(op.path, sha(op.data), |op.data|))]
  {
    assert ManifestOf(s, op.run) == m && EntryOf(sha, op.path, op.data) == Entry(op.path, sha(op.data), |op.data|);
  }

  // The entry gives the address and the size of some bytes, and an object is there.
  ghost predicate EntryNames(sha: bytes -> Digest, blobs: Blobs, e: Entry) {
    e.digest in blobs && exists data :: sha(data) == e.digest && |data| == e.size
  }

  ghost predicate ManifestOrdered(sha: bytes -> Digest, blobs: Blobs, m: Manifest) {
    Ascending(m) && forall e :: e in m ==> EntryNames(sha, blobs, e)
  }

  // What every mirror keeps: every manifest is sorted, without a repeated path,
  // and its entries name objects.
  ghost predicate Ordered(sha: bytes -> Digest, s: Store) {
    forall run <- s.manifests :: ManifestOrdered(sha, s.blobs, s.manifests[run])
  }

  // Every object hashes to its address.
  predicate Addressed(sha: bytes -> Digest, blobs: Blobs) {
    forall d <- blobs :: sha(blobs[d]) == d
  }

  // Then every entry gives its object's size.
  lemma AddressedSizes(sha: bytes -> Digest, s: Store, run: string, e: Entry)
    requires Injective(sha) && Ordered(sha, s) && Addressed(sha, s.blobs) && e in ManifestOf(s, run)
    ensures e.digest in s.blobs && |s.blobs[e.digest]| == e.size
  {
    assert ManifestOrdered(sha, s.blobs, s.manifests[run]);
    assert EntryNames(sha, s.blobs, e);
  }

  lemma MirrorOrdered(sha: bytes -> Digest, s: Store, op: Mirror)
    requires Ordered(sha, s)
    ensures Ordered(sha, AfterMirror(sha, s, op))
  {
    var t := AfterMirror(sha, s, op);
    forall r | r in t.manifests
      ensures ManifestOrdered(sha, t.blobs, t.manifests[r])
    {
      if r == op.run && op.fault.NoFault? {
        EnteredOrdered(sha, s, op);
      } else {
        assert ManifestOrdered(sha, s.blobs, s.manifests[r]);
      }
    }
  }

  lemma EnteredOrdered(sha: bytes -> Digest, s: Store, op: Mirror)
    requires Ordered(sha, s) && op.fault.NoFault?
    ensures var e := EntryOf(sha, op.path, op.data);
      ManifestOrdered(sha, WithBlob(sha, s.blobs, op), Mirrored(ManifestOf(s, op.run), e))
  {
    MirroredIs(ManifestOf(s, op.run), EntryOf(sha, op.path, op.data));
    assert op.run in s.manifests ==> ManifestOrdered(sha, s.blobs, s.manifests[op.run]);
    assert sha(op.data) == sha(op.data) && |op.data| == |op.data|;
  }

  // ---- Whole histories ----

  function AfterAll(sha: bytes -> Digest, start: Store, history: seq<Mirror>): Store {
    if history == [] then start
    else
      var op := history[|history| - 1];
      AfterMirror(sha, AfterAll(sha, start, history[..|history| - 1]), op)
  }

  // The bytes last mirrored, without a fault, under a path of a run.
  function LastData(history: seq<Mirror>, run: string, path: string): Option<bytes> {
    if history == [] then None
    else
      var op := history[|history| - 1];
      if op.run == run && op.path == path && op.fault.NoFault? then Some(op.data)
      else LastData(history[..|history| - 1], run, path)
  }

  lemma {:induction false} LastDataIs(history: seq<Mirror>, run: string, path: string, i: nat)
    requires i <= |history|
    requires forall j :: i <= j < |history| ==>
      history[j].run != run || history[j].path != path || history[j].fault != NoFault
    ensures i == 0 ==> LastData(history, run, path) == None
    ensures i > 0 && history[i - 1].run == run && history[i - 1].path == path && history[i - 1].fault == NoFault ==>
      LastData(history, run, path) == Some(history[i - 1].data)
  {
    if i < |history| {
      LastDataIs(history[..|history| - 1], run, path, i);
    }
  }

  // What stands at the address of these bytes: what the first write of them left.
  function ObjectOf(history: seq<Mirror>, data: bytes): Option<bytes> {
    if history == [] then None
    else
      var before, op := ObjectOf(history[..|history| - 1], data), history[|history| - 1];
      if before.None? && op.data == data then op.Reaches() else before
  }

  // Mirror k is the first to write its bytes, and is cut short.
  predicate CutShort(history: seq<Mirror>, k: nat)
    requires k < |history|
  {
    && history[k].Reaches().Some? && history[k].Reaches().value != history[k].data
    && forall j | 0 <= j < k && history[j].data == history[k].data :: history[j].Reaches().None?
  }

  lemma {:induction false} HistoryOrdered(sha: bytes -> Digest, history: seq<Mirror>)
    ensures Ordered(sha, AfterAll(sha, EMPTY, history))
  {
    if history != [] {
      HistoryOrdered(sha, history[..|history| - 1]);
      MirrorOrdered(sha, AfterAll(sha, EMPTY, history[..|history| - 1]), history[|history| - 1]);
    }
  }

  lemma {:induction false} ObjectIs(sha: bytes -> Digest, history: seq<Mirror>, data: bytes)
    requires Injective(sha)
    ensures var blobs := AfterAll(sha, EMPTY, history).blobs;
      ObjectOf(history, data) == if sha(data) in blobs then Some(blobs[sha(data)]) else None
  {
    if history != [] {
      ObjectIs(sha, history[..|history| - 1], data);
    }
  }

  // Only addresses of mirrored bytes are taken.
  lemma {:induction false} AddressOf(sha: bytes -> Digest, history: seq<Mirror>, d: Digest) returns (data: bytes)
    requires d in AfterAll(sha, EMPTY, history).blobs
    ensures sha(data) == d
  {
    var before, op := history[..|history| - 1], history[|history| - 1];
    if d in AfterAll(sha, EMPTY, before).blobs {
      data := AddressOf(sha, before, d);
    } else {
      data := op.data;
    }
  }

  // The first write of some bytes decides what their object holds for good.
  lemma {:induction false} FirstWriteDecides(history: seq<Mirror>, data: bytes)
    ensures ObjectOf(history, data).None? <==>
      forall k | 0 <= k < |history| && history[k].data == data :: history[k].Reaches().None?
    ensures ObjectOf(history, data).Some? ==>
      (ObjectOf(history, data).value == data <==>
        forall k | 0 <= k < |history| && history[k].data == data :: !CutShort(history, k))
  {
    if history != [] {
      var last := |history| - 1;
      FirstWriteDecides(history[..last], data);
      CutShortBefore(history);
    }
  }

  lemma CutShortBefore(history: seq<Mirror>)
    requires history != []
    ensures forall k | 0 <= k < |history| - 1 :: CutShort(history, k) <==> CutShort(history[..|history| - 1], k)
  {
    var before := history[..|history| - 1];
    forall k | 0 <= k < |before|
      ensures CutShort(history, k) <==> CutShort(before, k)
    {
      assert forall j | 0 <= j <= k :: before[j] == history[j];
    }
  }

  // After any mirrors every object hashes to its address exactly when no write
  // of bytes not stored before was cut short.
  lemma AddressedIff(sha: bytes -> Digest, history: seq<Mirror>)
    requires Injective(sha)
    ensures Addressed(sha, AfterAll(sha, EMPTY, history).blobs)
      <==> forall k | 0 <= k < |history| :: !CutShort(history, k)
  {
    var blobs := AfterAll(sha, EMPTY, history).blobs;
    if Addressed(sha, blobs) {
      forall k | 0 <= k < |history|
        ensures !CutShort(history, k)
      {
        ObjectIs(sha, history, history[k].data);
        FirstWriteDecides(history, history[k].data);
      }
    } else {
      var d :| d in blobs && sha(blobs[d]) != d;
      var data := AddressOf(sha, history, d);
      ObjectIs(sha, history, data);
      FirstWriteDecides(history, data);
    }
  }

  // A full disk: the object keeps the one byte written, and mirroring the same
  // bytes again succeeds without repairing it.
  lemma CutShortStays(sha: bytes -> Digest)
    ensures var history := [Mirror("run", "a", [1, 2], ObjectFault(Some(1))), Mirror("run", "a", [1, 2], NoFault)];
      var s := AfterAll(sha, EMPTY, history);
      s.blobs == map[sha([1, 2]) := [1]] && ManifestOf(s, "run") == [Entry("a", sha([1, 2]), 2)]
  {
    var first, second := Mirror("run", "a", [1, 2], ObjectFault(Some(1))), Mirror("run", "a", [1, 2], NoFault);
    assert [first, second][..1] == [first] && [first][..0] == [];
    assert [1, 2][..1] == [1];
    assert first.Reaches() == Some([1]);
    assert AfterAll(sha, EMPTY, [first]) == AfterMirror(sha, EMPTY, first);
    assert AfterMirror(sha, EMPTY, first) == Store(map[sha([1, 2]) := [1]], map[]);
    var e := EntryOf(sha, "a", [1, 2]);
    assert Sorted([e]) == [e] by {
      assert [e][..0] == [] && Insert([], e) == [e];
    }
    assert Mirrored([], e) == [e];
  }

  // After any mirrors, with or without faults, a run's manifest has an entry for
  // a path exactly when the path was mirrored, and the entry gives the address
  // and the size of the bytes mirrored last; its object holds these bytes
  // exactly when their first write was not cut short.
  lemma HistoryKept(sha: bytes -> Digest, history: seq<Mirror>, run: string, path: string)
    requires Injective(sha)
    ensures var s, data := AfterAll(sha, EMPTY, history), LastData(history, run, path);
      && HasPath(ManifestOf(s, run), path) == data.Some?
      && forall e :: e in ManifestOf(s, run) && e.path == path ==>
        && data.Some? && e == Entry(path, sha(data.value), |data.value|)
        && e.digest in s.blobs && ObjectOf(history, data.value) == Some(s.blobs[e.digest])
        && (s.blobs[e.digest] == data.value <==> WrittenWhole(history, data.value))
  {
    EntriesKept(sha, history, run, path);
    HistoryOrdered(sha, history);
    var s, data := AfterAll(sha, EMPTY, history), LastData(history, run, path);
    if data.Some? {
      ObjectIs(sha, history, data.value);
      FirstWriteDecides(history, data.value);
      assert run in s.manifests && ManifestOrdered(sha, s.blobs, s.manifests[run]);
      forall e | e in ManifestOf(s, run) && e.path == path
        ensures e.digest in s.blobs
      {
        assert EntryNames(sha, s.blobs, e);
      }
    }
  }

  // No first write of these bytes was cut short.
  predicate WrittenWhole(history: seq<Mirror>, data: bytes) {
    forall k | 0 <= k < |history| && history[k].data == data :: !CutShort(history, k)
  }

  ghost predicate EntryIs(sha: bytes -> Digest, m: Manifest, path: string, data: Option<bytes>) {
    && HasPath(m, path) == data.Some?
    && forall e :: e in m && e.path == path ==> data.Some? && e == EntryOf(sha, path, data.value)
  }

  lemma {:induction false} EntriesKept(sha: bytes -> Digest, history: seq<Mirror>, run: string, path: string)
    ensures EntryIs(sha, ManifestOf(AfterAll(sha, EMPTY, history), run), path, LastData(history, run, path))
  {
    if history != [] {
      var before, op := history[..|history| - 1], history[|history| - 1];
      EntriesKept(sha, before, run, path);
      HistoryOrdered(sha, before);
      if op.run == run && op.fault.NoFault? {
        var s := AfterAll(sha, EMPTY, before);
        assert run in s.manifests ==> ManifestOrdered(sha, s.blobs, s.manifests[run]);
        EntryReplaced(sha, ManifestOf(s, run), op, path, LastData(before, run, path));
      }
    }
  }

  lemma EntryReplaced(sha: bytes -> Digest, m: Manifest, op: Mirror, path: string, data: Option<bytes>)
    requires Ascending(m) && EntryIs(sha, m, path, data)
    ensures EntryIs(sha, Mirrored(m, EntryOf(sha, op.path, op.data)), path,
                    if op.path == path then Some(op.data) else data)
  {
    MirroredIs(m, EntryOf(sha, op.path, op.data));
    PathKept(m, EntryOf(sha, op.path, op.data), path);
  }

  lemma PathKept(m: Manifest, e: Entry, path: string)
    requires Ascending(m)
    ensures HasPath(Mirrored(m, e), path) <==> path == e.path || HasPath(m, path)
  {
    MirroredIs(m, e);
    var u := Mirrored(m, e);
    if HasPath(u, path) {
      var i :| 0 <= i < |u| && u[i].path == path;
      assert u[i] in u;
      if u[i] != e {
        var k :| 0 <= k < |m| && m[k] == u[i];
      }
    }
    if path == e.path {
      assert e in u;
      var i :| 0 <= i < |u| && u[i] == e;
    } else if HasPath(m, path) {
      var i :| 0 <= i < |m| && m[i].path == path;
      assert m[i] in m && m[i] in u;
      var k :| 0 <= k < |u| && u[k] == m[i];
    }
  }

  // ---- restore_run_tree() ----

  // pathlib drops empty and "." components.
  function Components(parts: seq<string>): seq<string> {
    if parts == [] then []
    else
      var last := |parts| - 1;
      Components(parts[..last]) + if parts[last] in {"", "."} then [] else [parts[last]]
  }

  // Below the destination, or, for an absolute path, below "/" instead of it.
  type Place = seq<string>

  function PlaceOf(path: string): Place {
    var logical := Strip(path);
    (if logical != "" && logical[0] == '/' then ["/"] else []) + Components(Split(logical))
  }

  lemma {:induction false} ComponentsConcat(a: seq<string>, b: seq<string>)
    ensures Components(a + b) == Components(a) + Components(b)
    ensures |a| == 1 ==> Components(a) == if a[0] == "" || a[0] == "." then [] else a
    decreases |b|
  {
    if b == [] {
      assert a + b == a;
      assert |a| == 1 ==> a[..0] == [] && a == [a[0]];
    } else {
      var last := |b| - 1;
      ComponentsConcat(a, b[..last]);
      ComponentsSnoc(b[..last], b[last]);
      ComponentsSnoc(a + b[..last], b[last]);
      assert b == b[..last] + [b[last]];
      Regroup(a, b[..last], [b[last]]);
    }
  }

  lemma ComponentsSnoc(parts: seq<string>, part: string)
    ensures Components(parts + [part]) == Components(parts) + if part == "" || part == "." then [] else [part]
  {
    assert (parts + [part])[..|parts|] == parts;
  }

  // A leading slash leads out of the destination; every other empty component, and
  // every single dot, makes no difference.
  lemma PlaceOfIs(path: string, rest: string)
    ensures Strip(path) == rest && (rest != "" ==> rest[0] != '/') ==> PlaceOf(path) == Components(Split(rest))
    ensures Strip(path) == "/" + rest ==> PlaceOf(path) == ["/"] + Components(Split(rest))
  {
    if Strip(path) == "/" + rest {
      EmptyFirst(rest);
    }
  }

  lemma EmptyFirst(rest: string)
    ensures Components(Split("/" + rest)) == Components(Split(rest))
  {
    SplitFirst("", rest);
    assert "" + "/" + rest == "/" + rest;
    ComponentsConcat([""], Split(rest));
  }

  type Tree = map<Place, bytes>

  predicate ProperPrefix(a: Place, b: Place) {
    a < b
  }

  // mkdir(parents=True) or write_bytes() raises: the place is the destination
  // itself, lies below a file, or is a directory.
  predicate Clash(tree: Tree, place: Place) {
    place == [] || exists p :: p in tree && (ProperPrefix(p, place) || ProperPrefix(place, p))
  }

  predicate Skipped(blobs: Blobs, e: Entry) {
    Strip(e.path) == "" || e.digest !in blobs
  }

  // What stands in the destination, the logical paths restored so far, and
  // whether no write has raised.
  datatype Restore = Restore(tree: Tree, paths: seq<string>, ok: bool)

  // The file of this entry is cut short: its write raises after some bytes.
  datatype WriteFault = WriteFault(entry: nat, cut: nat)

  function Restored(blobs: Blobs, m: Manifest, tree: Tree, fault: Option<WriteFault>): Restore {
    if m == [] then Restore(tree, [], true)
    else
      var last := |m| - 1;
      RestoreOne(blobs, Restored(blobs, m[..last], tree, fault), m[last], CutOf(fault, last))
  }

  function CutOf(fault: Option<WriteFault>, k: nat): (cut: Option<nat>)
    ensures cut.Some? ==> fault == Some(WriteFault(k, cut.value))
    ensures fault.Some? && fault.value.entry == k ==> cut.Some?
  {
    if fault.Some? && fault.value.entry == k then Some(fault.value.cut) else None
  }

  function RestoreOne(blobs: Blobs, before: Restore, e: Entry, cut: Option<nat>): Restore {
    var place := PlaceOf(e.path);
    if !before.ok || Skipped(blobs, e) then before
    else if Clash(before.tree, place) then before.(ok := false)
    else
      var data := blobs[e.digest];
      match cut
      case Some(n) => Restore(before.tree[place := data[..Min(n, |data|)]], before.paths, false)
      case None => Restore(before.tree[place := data], before.paths + [Strip(e.path)], true)
  }

  // One entry: skipped without a name or an object; refused where a file and a
  // directory would have to stand in one place; cut short; or written.
  lemma RestoreOneIs(blobs: Blobs, before: Restore, e: Entry, cut: Option<nat>)
    ensures var r, place := RestoreOne(blobs, before, e, cut), PlaceOf(e.path);
      if !before.ok || Strip(e.path) == "" || e.digest !in blobs then r == before
      else if place == [] || exists p :: p in before.tree && p != place && (p <= place || place <= p)
      then r == Restore(before.tree, before.paths, false)
      else if cut.Some? then
        var data := blobs[e.digest][..if cut.value <= |blobs[e.digest]| then cut.value else |blobs[e.digest]|];
        r == Restore(before.tree[place := data], before.paths, false)
      else r == Restore(before.tree[place := blobs[e.digest]], before.paths + [Strip(e.path)], true)
  {
    var place := PlaceOf(e.path);
    assert forall p :: p in before.tree ==> (ProperPrefix(p, place) <==> p != place && p <= place);
    assert forall p :: p in before.tree ==> (ProperPrefix(place, p) <==> p != place && place <= p);
  }

  // The logical paths of the entries that are not skipped, in manifest order.
  function LogicalPaths(blobs: Blobs, m: Manifest): seq<string> {
    if m == [] then []
    else
      var e := m[|m| - 1];
      LogicalPaths(blobs, m[..|m| - 1]) + if Skipped(blobs, e) then [] else [Strip(e.path)]
  }

  // The entry is restored to this place.
  predicate At(blobs: Blobs, e: Entry, place: Place) {
    !Skipped(blobs, e) && PlaceOf(e.path) == place
  }

  // What the last entry for a place holds.
  function LastAt(blobs: Blobs, m: Manifest, place: Place): Option<bytes> {
    if m == [] then None
    else
      var e := m[|m| - 1];
      if At(blobs, e, place) then Some(blobs[e.digest])
      else LastAt(blobs, m[..|m| - 1], place)
  }

  function Places(blobs: Blobs, m: Manifest): set<Place> {
    if m == [] then {}
    else
      var e := m[|m| - 1];
      Places(blobs, m[..|m| - 1]) + if Skipped(blobs, e) then {} else {PlaceOf(e.path)}
  }

  // None is the destination itself or a directory of another.
  predicate PrefixFree(places: set<Place>) {
    [] !in places && forall p, q | p in places && q in places :: !ProperPrefix(p, q)
  }

  // Into an empty destination: the restore goes through exactly when the
  // places are prefix-free, and then writes exactly them.
  lemma {:induction false} RestoreGoesThrough(blobs: Blobs, m: Manifest)
    ensures Restored(blobs, m, map[], None).ok <==> PrefixFree(Places(blobs, m))
    ensures var r := Restored(blobs, m, map[], None);
      r.ok ==> r.tree.Keys == Places(blobs, m) && r.paths == LogicalPaths(blobs, m)
  {
    if m != [] {
      var before := m[..|m| - 1];
      RestoreGoesThrough(blobs, before);
      var e := m[|m| - 1];
      assert Places(blobs, before) <= Places(blobs, m);
      if Restored(blobs, before, map[], None).ok && !Skipped(blobs, e) {
        ClashIs(Restored(blobs, before, map[], None).tree, PlaceOf(e.path));
      }
    }
  }

  lemma ClashIs(tree: Tree, place: Place)
    requires PrefixFree(tree.Keys)
    ensures Clash(tree, place) <==> !PrefixFree(tree.Keys + {place})
  {
  }

  // Each place holds the bytes of the last entry for it.
  lemma {:induction false} RestoreHolds(blobs: Blobs, m: Manifest, place: Place)
    requires Restored(blobs, m, map[], None).ok
    ensures var tree := Restored(blobs, m, map[], None).tree;
      if place in tree then LastAt(blobs, m, place) == Some(tree[place]) else LastAt(blobs, m, place) == None
  {
    if m != [] {
      RestoreHolds(blobs, m[..|m| - 1], place);
    }
  }

  // A restore that raises, into any destination, has restored the entries before
  // the first that clashes or is cut short, and nothing of the later ones.
  lemma {:induction false} RestoreStopsAt(blobs: Blobs, m: Manifest, tree: Tree, fault: Option<WriteFault>)
      returns (k: nat)
    requires !Restored(blobs, m, tree, fault).ok
    ensures k < |m| && !Skipped(blobs, m[k])
    ensures var before, r := Restored(blobs, m[..k], tree, fault), Restored(blobs, m, tree, fault);
      && before.ok && r == RestoreOne(blobs, before, m[k], CutOf(fault, k)) && r.paths == before.paths
      && (Clash(before.tree, PlaceOf(m[k].path)) || (fault.Some? && fault.value.entry == k))
  {
    var last := |m| - 1;
    if Restored(blobs, m[..last], tree, fault).ok {
      k := last;
    } else {
      k := RestoreStopsAt(blobs, m[..last], tree, fault);
      assert m[..last][..k] == m[..k];
    }
  }

  // A path that restoring takes literally.
  predicate Plain(path: string) {
    path != "" && Stripped(path) && forall c :: c in Split(path) ==> c !in {"", ".", ".."}
  }

  lemma {:induction false} ComponentsKept(parts: seq<string>)
    requires forall c :: c in parts ==> c !in {"", ".", ".."}
    ensures Components(parts) == parts
  {
    if parts != [] {
      var last := |parts| - 1;
      assert parts[last] in parts;
      assert forall c :: c in parts[..last] ==> c in parts;
      ComponentsKept(parts[..last]);
      assert parts == parts[..last] + [parts[last]];
    }
  }

  lemma PlainPlace(path: string)
    requires Plain(path)
    ensures PlaceOf(path) == Split(path) && Strip(path) == path && Join(Split(path)) == path
  {
    StrippedStays(path);
    ComponentsKept(Split(path));
    JoinSplit(path);
    var first := Split(path)[0];
    assert first in Split(path);
    assert first != "";
  }

  lemma PlainPlacesDiffer(a: string, b: string)
    requires Plain(a) && Plain(b)
    ensures a == b <==> PlaceOf(a) == PlaceOf(b)
    ensures Strip(a) != ""
  {
    PlainPlace(a);
    PlainPlace(b);
  }

  // The last entry of a place in manifest order.
  lemma {:induction false} LastEntryAt(blobs: Blobs, m: Manifest, place: Place) returns (i: nat)
    requires LastAt(blobs, m, place).Some?
    ensures i < |m| && At(blobs, m[i], place) && LastAt(blobs, m, place) == Some(blobs[m[i].digest])
    ensures NoneAfter(blobs, m, place, i)
  {
    var last := |m| - 1;
    i := last;
    if !At(blobs, m[last], place) {
      i := LastEntryAt(blobs, m[..last], place);
      NoneAfterSnoc(blobs, m, place, i);
    }
  }

  predicate NoneAfter(blobs: Blobs, m: Manifest, place: Place, i: nat) {
    forall j | i < j < |m| :: !At(blobs, m[j], place)
  }

  lemma NoneAfterSnoc(blobs: Blobs, m: Manifest, place: Place, i: nat)
    requires m != [] && NoneAfter(blobs, m[..|m| - 1], place, i) && !At(blobs, m[|m| - 1], place)
    ensures NoneAfter(blobs, m, place, i)
  {
    assert forall j | i < j < |m| - 1 :: m[..|m| - 1][j] == m[j];
  }

  // A path under which something was mirrored, and which restoring does not skip.
  predicate Restorable(history: seq<Mirror>, run: string, path: string) {
    LastData(history, run, path).Some? && Strip(path) != ""
  }

  // The path wins its place: all other restorable paths of the run with this
  // place come before it in the manifest.
  ghost predicate Wins(history: seq<Mirror>, run: string, path: string) {
    && Restorable(history, run, path)
    && forall other | Restorable(history, run, other) && PlaceOf(other) == PlaceOf(path) ::
         other == path || Below(other, path)
  }

  // What a restore after any mirrors leaves at a place: the object of the bytes
  // last mirrored under the path that wins it, which is those bytes exactly when
  // their first write was not cut short.
  ghost predicate HoldsMirrored(r: Restore, history: seq<Mirror>, run: string, winner: string) {
    Wins(history, run, winner) && PlaceOf(winner) in r.tree &&
    var data, found := LastData(history, run, winner).value, r.tree[PlaceOf(winner)];
    ObjectOf(history, data) == Some(found) && (found == data <==> WrittenWhole(history, data))
  }

  // The whole way, for every path of a run: when no restored place is a
  // directory of another, the restore goes through, and the path's place holds
  // what was last mirrored under the path that wins it.
  lemma RestoreGivesLast(sha: bytes -> Digest, history: seq<Mirror>, run: string, path: string)
      returns (winner: string)
    requires Injective(sha) && Restorable(history, run, path)
    requires var s := AfterAll(sha, EMPTY, history); PrefixFree(Places(s.blobs, ManifestOf(s, run)))
    ensures PlaceOf(winner) == PlaceOf(path)
    ensures var s := AfterAll(sha, EMPTY, history);
      var r := Restored(s.blobs, ManifestOf(s, run), map[], None);
      r.ok && HoldsMirrored(r, history, run, winner)
  {
    var s := AfterAll(sha, EMPTY, history);
    var m, place := ManifestOf(s, run), PlaceOf(path);
    RestoreGoesThrough(s.blobs, m);
    var k := MirroredAt(sha, history, run, path);
    PlaceTaken(s.blobs, m, k);
    RestoreHolds(s.blobs, m, place);
    var i := LastEntryAt(s.blobs, m, place);
    winner := m[i].path;
    HistoryKept(sha, history, run, winner);
    assert m[i] in m;
    forall other | Restorable(history, run, other) && PlaceOf(other) == place
      ensures other == winner || Below(other, winner)
    {
      var j := MirroredAt(sha, history, run, other);
      HistoryOrdered(sha, history);
      assert run in s.manifests && ManifestOrdered(sha, s.blobs, m);
      assert j <= i;
    }
  }

  // The entry of a restorable path.
  lemma MirroredAt(sha: bytes -> Digest, history: seq<Mirror>, run: string, path: string) returns (i: nat)
    requires Injective(sha) && Restorable(history, run, path)
    ensures var s := AfterAll(sha, EMPTY, history); var m := ManifestOf(s, run);
      i < |m| && m[i].path == path && !Skipped(s.blobs, m[i])
  {
    HistoryKept(sha, history, run, path);
    var m := ManifestOf(AfterAll(sha, EMPTY, history), run);
    i :| 0 <= i < |m| && m[i].path == path;
    assert m[i] in m;
  }

  lemma {:induction false} PlaceTaken(blobs: Blobs, m: Manifest, i: nat)
    requires i < |m| && !Skipped(blobs, m[i])
    ensures PlaceOf(m[i].path) in Places(blobs, m)
  {
    if i < |m| - 1 {
      PlaceTaken(blobs, m[..|m| - 1], i);
    }
  }

  // When the paths of a run are plain, each wins its own place.
  lemma PlainWins(history: seq<Mirror>, run: string, path: string)
    requires Restorable(history, run, path)
    requires forall other | Restorable(history, run, other) :: Plain(other)
    ensures Wins(history, run, path) && PlaceOf(path) == Split(path)
  {
    PlainPlace(path);
    forall other | Restorable(history, run, other) && PlaceOf(other) == PlaceOf(path)
      ensures other == path
    {
      PlainPlacesDiffer(other, path);
    }
  }

  // ---- The store object ----

  // The path of an entry: the stripped logical path, or else the file's name.
  function EntryPath(logical: string, name: string): string {
    if Strip(logical) == "" then name else Strip(logical)
  }

  // `fault` is what befalls the mirroring of this file.
  datatype File = File(relative: string, name: string, data: bytes, fault: Fault)

  function LogicalPath(prefix: string, relative: string): string {
    var p := TrimSlashes(Strip(prefix));
    if p == "" then relative else p + "/" + relative
  }

  // A file of a tree is entered under its path below the tree's prefix.
  lemma TreePathIs(prefix: string, file: File)
    requires Stripped(file.relative) && file.relative != ""
    ensures TrimSlashes(Strip(prefix)) == "" ==> TreePaths(prefix)(file) == file.relative
    ensures TrimSlashes(Strip(prefix)) != "" ==>
      TreePaths(prefix)(file) == EntryPath(TrimSlashes(Strip(prefix)) + "/" + file.relative, file.name)
    ensures Stripped(TrimSlashes(Strip(prefix))) && TrimSlashes(Strip(prefix)) != "" ==>
      TreePaths(prefix)(file) == TrimSlashes(Strip(prefix)) + "/" + file.relative
  {
    StrippedStays(file.relative);
    var p := TrimSlashes(Strip(prefix));
    if p != "" && Stripped(p) {
      StrippedStays(p + "/" + file.relative);
    }
  }

  // How a tree's files are named in the manifest.
  function TreePaths(prefix: string): File -> string {
    (file: File) => EntryPath(LogicalPath(prefix, file.relative), file.name)
  }

  function TreeHistory(run: string, path: File -> string, files: seq<File>): seq<Mirror> {
    seq(|files|, i requires 0 <= i < |files| => Mirror(run, path(files[i]), files[i].data, files[i].fault))
  }

  // The entries of the files that were mirrored without a fault.
  function TreeEntries(sha: bytes -> Digest, path: File -> string, files: seq<File>): seq<Entry> {
    if files == [] then []
    else TreeEntries(sha, path, files[..|files| - 1]) + TreeEntry(sha, path, files[|files| - 1])
  }

  function TreeEntry(sha: bytes -> Digest, path: File -> string, file: File): seq<Entry> {
    if file.fault.NoFault? then [EntryOf(sha, path(file), file.data)] else []
  }

  // A tree is one mirror for each of its files, in order; one that ends in an error
  // gives no entry.
  lemma TreeIs(sha: bytes -> Digest, run: string, path: File -> string, files: seq<File>, file: File)
    ensures TreeHistory(run, path, files + [file])
      == TreeHistory(run, path, files) + [Mirror(run, path(file), file.data, file.fault)]
    ensures TreeEntries(sha, path, files + [file])
      == TreeEntries(sha, path, files)
         + if file.fault == NoFault then [Entry(path(file), sha(file.data), |file.data|)] else []
  {
    assert (files + [file])[..|files|] == files;
  }

  lemma TreeEntriesStep(sha: bytes -> Digest, path: File -> string, files: seq<File>, i: nat)
    requires i < |files|
    ensures TreeEntries(sha, path, files[..i + 1])
      == TreeEntries(sha, path, files[..i]) + TreeEntry(sha, path, files[i])
  {
    assert files[..i + 1][..i] == files[..i];
  }

  lemma TreeStep(sha: bytes -> Digest, start: Store, run: string, path: File -> string, files: seq<File>, i: nat)
    requires i < |files|
    ensures AfterAll(sha, start, TreeHistory(run, path, files[..i + 1]))
      == AfterMirror(sha, AfterAll(sha, start, TreeHistory(run, path, files[..i])),
                     Mirror(run, path(files[i]), files[i].data, files[i].fault))
  {
    TreeHistorySnoc(run, path, files, i);
    OneMoreMirror(sha, start, TreeHistory(run, path, files[..i]),
                  Mirror(run, path(files[i]), files[i].data, files[i].fault));
  }

  lemma TreeHistorySnoc(run: string, path: File -> string, files: seq<File>, i: nat)
    requires i < |files|
    ensures TreeHistory(run, path, files[..i + 1])
      == TreeHistory(run, path, files[..i]) + [Mirror(run, path(files[i]), files[i].data, files[i].fault)]
  {
  }

  lemma OneMoreMirror(sha: bytes -> Digest, start: Store, history: seq<Mirror>, op: Mirror)
    ensures AfterAll(sha, start, history + [op]) == AfterMirror(sha, AfterAll(sha, start, history), op)
  {
    assert (history + [op])[..|history|] == history;
  }

  class Artifacts {
    const sha: bytes -> Digest
    var blobs: Blobs
    var manifests: map<string, Manifest>

    function State(): Store
      reads this
    {
      Store(blobs, manifests)
    }

    ghost predicate Valid()
      reads this
    {
      Ordered(sha, State())
    }

    constructor (sha: bytes -> Digest)
      ensures Valid() && State() == EMPTY && this.sha == sha
    {
      this.sha := sha;
      blobs, manifests := map[], map[];
    }

    // `file` is None when there is no regular file at the source path; the
    // answer is None then, and when an OSError is caught.
    method MirrorRunFile(run: string, file: Option<bytes>, logical: string, name: string, fault: Fault)
      returns (entry: Option<Entry>)
      requires Valid()
      modifies this
      ensures Valid()
      ensures file.None? ==> entry.None? && State() == old(State())
      ensures file.Some? ==>
        && entry == (if fault != NoFault then None
                     else Some(Entry(if Strip(logical) == "" then name else Strip(logical),
                                     sha(file.value), |file.value|)))
        && State() == AfterMirror(sha, old(State()), Mirror(run, EntryPath(logical, name), file.value, fault))
    {
      if file.None? {
        return None;
      }
      var data := file.value;
      var e := EntryOf(sha, EntryPath(logical, name), data);
      var op := Mirror(run, e.path, data, fault);
      MirrorOrdered(sha, State(), op);
      if e.digest !in blobs && op.Reaches().Some? {
        blobs := blobs[e.digest := op.Reaches().value];
      }
      if !fault.NoFault? {
        return None;
      }
      var m := ManifestOf(State(), run);
      manifests := manifests[run := Mirrored(m, e)];
      return Some(e);
    }

    // `files` are the regular files below the source root, in sorted order.
    method MirrorRunTree(run: string, files: seq<File>, prefix: string) returns (entries: seq<Entry>)
      requires Valid()
      modifies this
      ensures Valid()
      ensures State() == AfterAll(sha, old(State()), TreeHistory(run, TreePaths(prefix), files))
      ensures entries == TreeEntries(sha, TreePaths(prefix), files)
    {
      ghost var start, path := State(), TreePaths(prefix);
      entries := [];
      var i := 0;
      while i < |files|
        invariant 0 <= i <= |files|
        invariant Valid()
        invariant State() == AfterAll(sha, start, TreeHistory(run, path, files[..i]))
        invariant entries == TreeEntries(sha, path, files[..i])
      {
        var file := files[i];
        TreeStep(sha, start, run, path, files, i);
        TreeEntriesStep(sha, path, files, i);
        var more := MirrorTreeFile(run, file, prefix);
        entries := entries + more;
        i := i + 1;
      }
      assert files[..i] == files;
    }

    method MirrorTreeFile(run: string, file: File, prefix: string) returns (entries: seq<Entry>)
      requires Valid()
      modifies this
      ensures Valid()
      ensures State() == AfterMirror(sha, old(State()), Mirror(run, TreePaths(prefix)(file), file.data, file.fault))
      ensures entries == TreeEntry(sha, TreePaths(prefix), file)
    {
      var entry := MirrorRunFile(run, Some(file.data), LogicalPath(prefix, file.relative), file.name, file.fault);
      entries := if entry.Some? then [entry.value] else [];
    }

    // The files of a run written into a destination, up to the write that raises.
    method RestoreRunTree(run: string, destination: Tree, fault: Option<WriteFault>) returns (r: Restore)
      ensures r == Restored(blobs, ManifestOf(State(), run), destination, fault)
    {
      var m := ManifestOf(State(), run);
      r := Restore(destination, [], true);
      var i := 0;
      while i < |m| && r.ok
        invariant 0 <= i <= |m|
        invariant r == Restored(blobs, m[..i], destination, fault)
      {
        var e := m[i];
        assert m[..i + 1][..i] == m[..i];
        r := RestoreFile(r, e, CutOf(fault, i));
        i := i + 1;
      }
      RestoreStaysFailed(blobs, m, i, destination, fault);
    }

    method RestoreFile(before: Restore, e: Entry, cut: Option<nat>) returns (r: Restore)
      requires before.ok
      ensures r == RestoreOne(blobs, before, e, cut)
    {
      if Skipped(blobs, e) {
        return before;
      }
      var place, data := PlaceOf(e.path), blobs[e.digest];
      if Clash(before.tree, place) {
        return before.(ok := false);
      }
      if cut.Some? {
        return Restore(before.tree[place := data[..Min(cut.value, |data|)]], before.paths, false);
      }
      r := Restore(before.tree[place := data], before.paths + [Strip(e.path)], true);
    }
  }

  lemma {:induction false} RestoreStaysFailed(
    blobs: Blobs, m: Manifest, i: nat, tree: Tree, fault: Option<WriteFault>)
    requires i <= |m|
    ensures i == |m| || !Restored(blobs, m[..i], tree, fault).ok ==>
      Restored(blobs, m, tree, fault) == Restored(blobs, m[..i], tree, fault)
  {
    if i < |m| {
      assert m[..|m| - 1][..i] == m[..i];
      RestoreStaysFailed(blobs, m[..|m| - 1], i, tree, fault);
    } else {
      assert m[..i] == m;
    }
  }
}
