// backup_source.py collect_inventory and the anchor selection of
// backup_export.py and backup_verify.py.
module BackupSource {
  import opened Bytes
  import opened BackupInventory
  import opened Paths
  import opened Sequences

  // One captured root under its group, or one configuration file `name` under
  // its group config-<n>.
  datatype Section = Section(group: string, name: Option<string>, source: string, node: Node)
  {
    function Parts(): (parts: seq<string>)
      ensures parts != []
    {
      if name.None? then [group] else [group, name.value]
    }

    predicate Valid() {
      GoodParts(Parts()) && WellFormed(node)
    }

    function Entry(sha: bytes -> bytes): Entry {
      EntryOf(sha, Parts(), source, node)
    }

    function Entries(sha: bytes -> bytes): seq<Entry> {
      Preorder(sha, Parts(), source, node)
    }
  }

  predicate ValidSections(sections: seq<Section>) {
    && (forall i :: 0 <= i < |sections| ==> sections[i].Valid())
    && (forall i, j :: 0 <= i < j < |sections| ==> sections[i].group != sections[j].group)
  }

  // The entries of sections k and after, in section order.
  function EntriesFrom(sha: bytes -> bytes, sections: seq<Section>, k: nat): seq<Entry>
    requires k <= |sections|
    decreases |sections| - k
  {
    if k == |sections| then []
    else
      sections[k].Entries(sha) + EntriesFrom(sha, sections, k + 1)
  }

  // A root section is a directory, a configuration section a file, and there is
  // no irregular file in it.
  predicate Capturable(s: Section) {
    Regular(s.node) && if s.name.None? then s.node.Dir? else s.node.File?
  }

  // Only a root section is recorded, under its group.
  function WithRecord(records: map<string, Entry>, s: Section, entry: Entry): map<string, Entry> {
    if s.name.None? then records[s.group := entry] else records
  }

  // root_records after the first k sections.
  function RootRecords(sha: bytes -> bytes, sections: seq<Section>, k: nat): map<string, Entry>
    requires k <= |sections|
  {
    if k == 0 then map[]
    else
      WithRecord(RootRecords(sha, sections, k - 1), sections[k - 1], sections[k - 1].Entry(sha))
  }

  method AddSection(inventory: Inventory, s: Section) returns (r: Result<Entry>)
    modifies inventory
    ensures r.Ok? <==> Capturable(s)
    ensures r.Ok? ==>
      && inventory.entries == old(inventory.entries) + s.Entries(inventory.sha)
      && r.value == s.Entry(inventory.sha)
  {
    if s.name.None? {
      r := inventory.AddRoot(s.group, s.source, s.node);
    } else {
      r := inventory.AddFile(s.Parts(), s.source, s.node);
    }
  }

  // collect_inventory(): raises on a root that is no directory, a configuration
  // file that is none, and an irregular file anywhere.
  method CollectInventory(
    sha: bytes -> bytes, sections: seq<Section>) returns (r: Result<(seq<Entry>, map<string, Entry>)>)
    ensures r.Ok? <==> forall i :: 0 <= i < |sections| ==> Capturable(sections[i])
    ensures r.Ok? <==>
      forall i :: 0 <= i < |sections| ==>
        Regular(sections[i].node) && (sections[i].name == None <==> sections[i].node.Dir?)
    ensures r.Ok? ==> r.value.0 == EntriesFrom(sha, sections, 0) && r.value.1 == RootRecords(sha, sections, |sections|)
  {
    var inventory := new Inventory(sha);
    var records: map<string, Entry> := map[];
    for k := 0 to |sections|
      invariant inventory.sha == sha
      invariant inventory.entries + EntriesFrom(sha, sections, k) == EntriesFrom(sha, sections, 0)
      invariant forall i :: 0 <= i < k ==> Capturable(sections[i])
      invariant records == RootRecords(sha, sections, k)
    {
      ghost var before := inventory.entries;
      var record := AddSection(inventory, sections[k]);
      if record.Error? {
        return Error;
      }
      Regroup(before, sections[k].Entries(sha), EntriesFrom(sha, sections, k + 1));
      records := WithRecord(records, sections[k], record.value);
    }
    assert inventory.entries + [] == inventory.entries;
    r := Ok((inventory.entries, records));
  }

  lemma {:induction false} EntryHasSection(
    sha: bytes -> bytes, sections: seq<Section>, from: nat, e: Entry) returns (k: nat)
    requires ValidSections(sections) && from <= |sections| && e in EntriesFrom(sha, sections, from)
    ensures from <= k < |sections| && sections[k].Valid() && e in sections[k].Entries(sha)
    ensures Split(e.archivePath)[0] == sections[k].group && GoodParts(Split(e.archivePath))
    decreases |sections| - from
  {
    if e in sections[from].Entries(sha) {
      k := from;
      EntriesBelow(sha, sections[k].Parts(), sections[k].source, sections[k].node, e);
    } else {
      k := EntryHasSection(sha, sections, from + 1, e);
    }
  }

  // No archive path occurs twice in a backup.
  lemma {:induction false} SectionsUnique(sha: bytes -> bytes, sections: seq<Section>, from: nat)
    requires ValidSections(sections) && from <= |sections|
    ensures Unique(EntriesFrom(sha, sections, from))
    decreases |sections| - from
  {
    if from < |sections| {
      var s := sections[from];
      assert s.Valid();
      TreeUnique(sha, s.Parts(), s.source, s.node);
      SectionsUnique(sha, sections, from + 1);
      forall d, e | d in s.Entries(sha) && e in EntriesFrom(sha, sections, from + 1)
        ensures d.archivePath != e.archivePath
      {
        EntriesBelow(sha, s.Parts(), s.source, s.node, d);
        var k := EntryHasSection(sha, sections, from + 1, e);
      }
      UniqueConcat(s.Entries(sha), EntriesFrom(sha, sections, from + 1));
    }
  }

  // ---- What a backup records ----

  lemma {:induction false} SectionInAll(sha: bytes -> bytes, sections: seq<Section>, from: nat, k: nat, e: Entry)
    requires from <= k < |sections| && e in sections[k].Entries(sha)
    ensures e in EntriesFrom(sha, sections, from)
    decreases k - from
  {
    if from < k {
      SectionInAll(sha, sections, from + 1, k, e);
    }
  }

  // Exactly the roots are recorded, each under its group with its own directory entry.
  lemma {:induction false} RootRecordsAre(sha: bytes -> bytes, sections: seq<Section>, n: nat)
    requires ValidSections(sections) && n <= |sections|
    ensures RootRecords(sha, sections, n).Keys == set i | 0 <= i < n && sections[i].name.None? :: sections[i].group
    ensures forall i :: 0 <= i < n && sections[i].name.None? ==>
      RootRecords(sha, sections, n)[sections[i].group] == sections[i].Entry(sha)
    ensures forall i :: 0 <= i < n && sections[i].name.None? && sections[i].node.Dir? ==>
      RootRecords(sha, sections, n)[sections[i].group]
      == Entry(sections[i].group, sections[i].source, sections[i].node.meta, DirectoryKind)
  {
    if n > 0 {
      RootRecordsAre(sha, sections, n - 1);
    }
  }

  // Every node of the captured host has its entry in the inventory: the archive path
  // from its section and its place, its path in the source, its metadata, and the
  // size and digest of a file's content.
  lemma CollectedAt(sha: bytes -> bytes, sections: seq<Section>, k: nat, path: seq<string>)
    requires k < |sections| && At(sections[k].node, path).Some?
    ensures var s := sections[k]; var n := At(s.node, path).value;
      Entry(Join((if s.name.None? then [s.group] else [s.group, s.name.value]) + path),
            if path == [] then s.source else s.source + "/" + Join(path), n.meta,
            if n.Dir? then DirectoryKind else FileKind(|n.content|, sha(n.content)))
      in EntriesFrom(sha, sections, 0)
  {
    var s := sections[k];
    var n := At(s.node, path).value;
    EntryAt(sha, s.Parts(), s.source, s.node, path);
    SectionInAll(sha, sections, 0, k, EntryOf(sha, s.Parts() + path, SourceAt(s.source, path), n));
  }

  // And nothing else is in it.
  lemma CollectedIsOf(sha: bytes -> bytes, sections: seq<Section>, e: Entry) returns (k: nat, path: seq<string>)
    requires ValidSections(sections) && e in EntriesFrom(sha, sections, 0)
    ensures k < |sections| && At(sections[k].node, path).Some?
    ensures var s := sections[k]; var n := At(s.node, path).value;
      e == Entry(Join((if s.name.None? then [s.group] else [s.group, s.name.value]) + path),
                 if path == [] then s.source else s.source + "/" + Join(path), n.meta,
                 if n.Dir? then DirectoryKind else FileKind(|n.content|, sha(n.content)))
  {
    k := EntryHasSection(sha, sections, 0, e);
    path := EntryIsOf(sha, sections[k].Parts(), sections[k].source, sections[k].node, e);
  }

  // The order: one section after the other.
  lemma {:induction false} SectionsInOrder(sha: bytes -> bytes, a: seq<Section>, b: seq<Section>, k: nat)
    requires k <= |a|
    ensures EntriesFrom(sha, a + b, k) == EntriesFrom(sha, a, k) + EntriesFrom(sha, b, 0)
    ensures |a| == 1 ==> EntriesFrom(sha, a, 0) == Preorder(sha, a[0].Parts(), a[0].source, a[0].node)
    decreases |a| - k
  {
    if k == |a| {
      LaterSections(sha, a, b, 0);
    } else {
      SectionsInOrder(sha, a, b, k + 1);
      Regroup(a[k].Entries(sha), EntriesFrom(sha, a, k + 1), EntriesFrom(sha, b, 0));
    }
  }

  lemma {:induction false} LaterSections(sha: bytes -> bytes, a: seq<Section>, b: seq<Section>, j: nat)
    requires j <= |b|
    ensures EntriesFrom(sha, a + b, |a| + j) == EntriesFrom(sha, b, j)
    decreases |b| - j
  {
    if j < |b| {
      LaterSections(sha, a, b, j + 1);
    }
  }

  // ---- Anchor selection ----

  const ANCHOR: string := "host-anchor"

  // name == "host-anchor" or name.startswith("host-anchor/")
  predicate InGroup(group: string, name: string) {
    name == group || group + "/" <= name
  }

  function Select(group: string, entries: seq<Entry>): seq<Entry> {
    if entries == [] then []
    else (if InGroup(group, entries[0].archivePath) then [entries[0]] else []) + Select(group, entries[1..])
  }

  // The string test decides exactly whether the first path component is the group.
  lemma InGroupBySplit(group: string, name: string)
    requires Slashless(group)
    ensures InGroup(group, name) <==> Split(name)[0] == group
  {
    if name == group {
      SplitSlashless(group);
    } else if group + "/" <= name {
      var rest := name[|group| + 1..];
      assert name == group + "/" + rest;
      SplitFirst(group, rest);
    } else if Split(name)[0] == group {
      JoinSplit(name);
      assert false;
    }
  }

  lemma {:induction false} SelectAll(group: string, entries: seq<Entry>, keep: bool)
    requires forall e :: e in entries ==> InGroup(group, e.archivePath) == keep
    ensures Select(group, entries) == if keep then entries else []
  {
    if entries != [] {
      SelectAll(group, entries[1..], keep);
      assert entries == [entries[0]] + entries[1..];
    }
  }

  lemma {:induction false} SelectConcat(group: string, a: seq<Entry>, b: seq<Entry>)
    ensures Select(group, a + b) == Select(group, a) + Select(group, b)
  {
    if a == [] {
      assert a + b == b;
    } else {
      SelectConcat(group, a[1..], b);
      assert (a + b)[0] == a[0] && (a + b)[1..] == a[1..] + b;
      var first := if InGroup(group, a[0].archivePath) then [a[0]] else [];
      assert Select(group, a) == first + Select(group, a[1..]);
      assert Select(group, a + b) == first + Select(group, a[1..] + b);
      Regroup(first, Select(group, a[1..]), Select(group, b));
    }
  }

  // A section's entries are all in the group or all outside it.
  lemma SelectFromSection(sha: bytes -> bytes, s: Section, group: string)
    requires s.Valid() && Slashless(group)
    ensures Select(group, s.Entries(sha)) == if s.group == group then s.Entries(sha) else []
  {
    forall e | e in s.Entries(sha)
      ensures InGroup(group, e.archivePath) == (s.group == group)
    {
      EntriesBelow(sha, s.Parts(), s.source, s.node, e);
      InGroupBySplit(group, e.archivePath);
    }
    SelectAll(group, s.Entries(sha), s.group == group);
  }

  // Selecting by name prefix yields exactly the group's own section: nothing of
  // another root slips in, and nothing of this one is lost or reordered.
  lemma {:induction false} SelectIsSection(
    sha: bytes -> bytes, sections: seq<Section>, from: nat, group: string, k: nat)
    requires ValidSections(sections) && from <= k < |sections| && sections[k].group == group
    ensures Select(group, EntriesFrom(sha, sections, from)) == sections[k].Entries(sha)
    decreases k - from
  {
    assert sections[k].Valid() && group in sections[k].Parts();
    SelectNext(sha, sections, from, group);
    if from == k {
      SelectNone(sha, sections, from + 1, group);
    } else {
      SelectIsSection(sha, sections, from + 1, group, k);
    }
  }

  lemma SelectNext(sha: bytes -> bytes, sections: seq<Section>, from: nat, group: string)
    requires ValidSections(sections) && from < |sections| && Slashless(group)
    ensures Select(group, EntriesFrom(sha, sections, from))
      == (if sections[from].group == group then sections[from].Entries(sha) else [])
         + Select(group, EntriesFrom(sha, sections, from + 1))
  {
    assert sections[from].Valid();
    SelectConcat(group, sections[from].Entries(sha), EntriesFrom(sha, sections, from + 1));
    SelectFromSection(sha, sections[from], group);
  }

  lemma {:induction false} SelectNone(sha: bytes -> bytes, sections: seq<Section>, from: nat, group: string)
    requires ValidSections(sections) && from <= |sections| && Slashless(group)
    requires forall k :: from <= k < |sections| ==> sections[k].group != group
    ensures Select(group, EntriesFrom(sha, sections, from)) == []
    decreases |sections| - from
  {
    if from < |sections| {
      SelectSkip(sha, sections, from, group);
      SelectNone(sha, sections, from + 1, group);
    }
  }

  lemma SelectSkip(sha: bytes -> bytes, sections: seq<Section>, from: nat, group: string)
    requires ValidSections(sections) && from < |sections| && Slashless(group) && sections[from].group != group
    ensures Select(group, EntriesFrom(sha, sections, from)) == Select(group, EntriesFrom(sha, sections, from + 1))
  {
    SelectNext(sha, sections, from, group);
  }
}
