// backup_verify.py: the read-only checks of a recovery candidate's inventory and
// of its two tar streams, and their agreement with what the exporter produces.
module BackupVerify {
  import opened Bytes
  import opened BackupInventory
  import opened BackupSource
  import opened Paths

  const MAX_INVENTORY_ENTRIES: nat := 200000
  const MAX_DOCUMENT_BYTES: nat := 0x80_0000
  const MAX_REPLAY_BYTES: nat := 0x800_0000

  // The names an inventory must and must not have. Archive paths are given by
  // their components.
  datatype Contract = Contract(
    groups: set<string>,           // one directory each
    required: seq<seq<string>>,    // configuration, control files and replay database
    anchorFile: seq<string>,       // the required file below the audit anchor
    forbidden: seq<string>,        // an uncheckpointed write-ahead log
    controls: seq<seq<string>>,    // files whose content the later checks read
    replay: seq<string>)           // the replay database
  {
    ghost predicate Valid() {
      anchorFile in required && |anchorFile| == 2 && anchorFile[0] == ANCHOR && GoodParts(forbidden)
    }
  }

  const CONTROL: seq<seq<string>> := [
    ["config-3", "release-manifest.json"], ["config-4", "runtime-security.json"],
    ["host-security", ".initialized"], ["host-security", "storage-roots.json"],
    ["host-security", "audit-hmac-key"], ["host-security", "context-keyring.json"],
    ["host-policy", "current.json"], ["host-replay", ".runtime-security-v3-root"],
    ["host-anchor", ".runtime-security-v3-root"]]

  const V3: Contract := Contract(
    {"host-state", "host-security", "host-replay", "host-anchor", "host-panel_auth", "host-policy",
     "ordinary-data", "ordinary-repos", "ordinary-runs", "ordinary-secrets", "ordinary-panel_state",
     "ordinary-kb_docs", "ordinary-kb_index", "ordinary-proxy_data", "ordinary-proxy_config"},
    CONTROL + [
      ["config-0", "hosted.env"], ["config-1", "docker-compose.hosted.yml"], ["config-2", "release-manifest.env"],
      ["config-5", "Caddyfile"], ["host-replay", "assertions.sqlite3"]],
    ["host-anchor", ".runtime-security-v3-root"],
    ["host-replay", "assertions.sqlite3-wal"],
    CONTROL,
    ["host-replay", "assertions.sqlite3"])

  lemma V3IsValid()
    ensures V3.Valid()
  {
    assert V3.anchorFile == CONTROL[8] == V3.required[8];
    assert forall p :: p in V3.forbidden <==> p == "host-replay" || p == "assertions.sqlite3-wal";
  }

  // Every configuration file is required under its own number.
  lemma V3Configuration(i: nat)
    requires i < 6
    ensures
      var names := ["hosted.env", "docker-compose.hosted.yml", "release-manifest.env", "release-manifest.json",
                    "runtime-security.json", "Caddyfile"];
      ["config-" + ["012345"[i]], names[i]] in V3.required
  {
    var k := [9, 10, 11, 0, 1, 12][i];
    assert V3.required[k][0] == "config-" + ["012345"[i]];
  }

  // Every control file is required, and its content and the replay database's are kept.
  lemma V3Controls()
    ensures forall path :: path in V3.controls <==> path in {
      ["config-3", "release-manifest.json"], ["config-4", "runtime-security.json"],
      ["host-security", ".initialized"], ["host-security", "storage-roots.json"],
      ["host-security", "audit-hmac-key"], ["host-security", "context-keyring.json"],
      ["host-policy", "current.json"], ["host-replay", ".runtime-security-v3-root"],
      ["host-anchor", ".runtime-security-v3-root"]}
    ensures forall path :: path in V3.controls ==> path in V3.required
    ensures V3.replay in V3.required && V3.replay == ["host-replay", "assertions.sqlite3"]
    ensures V3.forbidden == [V3.replay[0], V3.replay[1] + "-wal"]
  {
    assert V3.required[13] == V3.replay;
    assert "assertions.sqlite3" + "-wal" == "assertions.sqlite3-wal";
  }

  // One root directory for every name in the two lists of roots.
  lemma V3Groups()
    ensures V3.groups
      == (set n | n in {"state", "security", "replay", "anchor", "panel_auth", "policy"} :: "host-" + n)
         + (set n | n in {"data", "repos", "runs", "secrets", "panel_state", "kb_docs", "kb_index", "proxy_data",
                          "proxy_config"} :: "ordinary-" + n)
  {
    HostGroups();
    OrdinaryGroups();
  }

  lemma HostGroups()
    ensures (set n | n in {"state", "security", "replay", "anchor", "panel_auth", "policy"} :: "host-" + n)
      == {"host-state", "host-security", "host-replay", "host-anchor", "host-panel_auth", "host-policy"}
  {
    assert "host-" + "state" == "host-state";
    assert "host-" + "security" == "host-security";
    assert "host-" + "replay" == "host-replay";
    assert "host-" + "anchor" == "host-anchor";
    assert "host-" + "panel_auth" == "host-panel_auth";
    assert "host-" + "policy" == "host-policy";
  }

  lemma OrdinaryGroups()
    ensures (set n | n in {"data", "repos", "runs", "secrets", "panel_state", "kb_docs", "kb_index", "proxy_data",
                           "proxy_config"} :: "ordinary-" + n)
      == {"ordinary-data", "ordinary-repos", "ordinary-runs", "ordinary-secrets", "ordinary-panel_state",
          "ordinary-kb_docs", "ordinary-kb_index", "ordinary-proxy_data", "ordinary-proxy_config"}
  {
    assert "ordinary-" + "data" == "ordinary-data";
    assert "ordinary-" + "repos" == "ordinary-repos";
    assert "ordinary-" + "runs" == "ordinary-runs";
    assert "ordinary-" + "secrets" == "ordinary-secrets";
    assert "ordinary-" + "panel_state" == "ordinary-panel_state";
    assert "ordinary-" + "kb_docs" == "ordinary-kb_docs";
    assert "ordinary-" + "kb_index" == "ordinary-kb_index";
    assert "ordinary-" + "proxy_data" == "ordinary-proxy_data";
    assert "ordinary-" + "proxy_config" == "ordinary-proxy_config";
  }

  // ---- _safe_name and _inventory ----

  predicate SafeName(name: string) {
    && name != "" && name[0] != '/'
    && '\\' !in name && '\0' !in name
    && forall p :: p in Split(name) ==> p != "" && p != "." && p != ".."
  }

  predicate PlainChars(name: string) {
    '\\' !in name && '\0' !in name
  }

  lemma {:induction false} JoinPlain(parts: seq<string>)
    requires parts != []
    ensures PlainChars(Join(parts)) <==> forall p :: p in parts ==> PlainChars(p)
  {
    if |parts| == 1 {
      assert forall p :: p in parts <==> p == parts[0];
    } else {
      JoinPlain(parts[1..]);
      assert forall p :: p in parts <==> p == parts[0] || p in parts[1..];
      var rest := "/" + Join(parts[1..]);
      assert Join(parts) == parts[0] + rest;
      assert forall c :: c in rest <==> c == '/' || c in Join(parts[1..]);
      assert forall c :: c in Join(parts) <==> c in parts[0] || c in rest;
      assert PlainChars(Join(parts)) <==> PlainChars(parts[0]) && PlainChars(Join(parts[1..]));
    }
  }

  // What is refused of any string at all: a name is safe exactly when none of
  // its components is empty, one dot or two dots and none holds a backslash or NUL.
  lemma SafeNameParts(name: string)
    ensures SafeName(name) <==> forall p :: p in Split(name) ==> p !in {"", ".", ".."} && '\\' !in p && '\0' !in p
    ensures SafeName(name) <==> GoodParts(Split(name)) && forall p :: p in Split(name) ==> PlainChars(p)
  {
    JoinPlain(Split(name));
    JoinSplit(name);
    SplitParts(name);
    if name == "" || name[0] == '/' {
      assert Split(name)[0] == "";
    }
  }

  // The digest is the bytes that the entry's hexadecimal digits spell: 64 of
  // them spell 32 bytes.
  predicate EntryOk(e: Entry) {
    && SafeName(e.archivePath) && e.meta.mode <= 0x1FF && "/" <= e.sourcePath
    && (e.kind.FileKind? ==> |e.kind.sha256| == 32)
  }

  ghost predicate DigestLength(sha: bytes -> bytes) {
    forall data :: |sha(data)| == 32
  }

  predicate Has(entries: seq<Entry>, name: string) {
    exists e :: e in entries && e.archivePath == name
  }

  // roots[group] is the inventory's own entry for the group, and a directory.
  predicate RootOk(entries: seq<Entry>, roots: map<string, Entry>, group: string)
    requires group in roots
  {
    roots[group] in entries && roots[group].archivePath == group && roots[group].kind.DirectoryKind?
  }

  predicate InventoryOk(c: Contract, entries: seq<Entry>, roots: map<string, Entry>) {
    && 1 <= |entries| <= MAX_INVENTORY_ENTRIES
    && roots.Keys == c.groups
    && (forall e :: e in entries ==> EntryOk(e))
    && Unique(entries)
    && (forall group :: group in c.groups ==> RootOk(entries, roots, group))
    && (forall path :: path in c.required && path != [] ==> Has(entries, Join(path)))
    && !(c.forbidden != [] && Has(entries, Join(c.forbidden)))
    && (exists e :: e in entries && "host-anchor/" <= e.archivePath)
  }

  // The whole test in full.
  lemma InventoryTest(c: Contract, entries: seq<Entry>, roots: map<string, Entry>)
    ensures InventoryOk(c, entries, roots) <==>
      && 1 <= |entries| <= 200000
      && (forall e :: e in entries ==>
            && (forall p :: p in Split(e.archivePath) ==> p !in {"", ".", ".."} && '\\' !in p && '\0' !in p)
            && e.meta.mode <= 511 && e.sourcePath != "" && e.sourcePath[0] == '/'
            && (e.kind.FileKind? ==> |e.kind.sha256| == 32))
      && (forall i, j :: 0 <= i < j < |entries| ==> entries[i].archivePath != entries[j].archivePath)
      && roots.Keys == c.groups
      && (forall group :: group in c.groups ==>
            roots[group] in entries && roots[group].archivePath == group && roots[group].kind == DirectoryKind)
      && (forall path :: path in c.required && path != [] ==> exists e :: e in entries && e.archivePath == Join(path))
      && (c.forbidden != [] ==> forall e :: e in entries ==> e.archivePath != Join(c.forbidden))
      && exists e :: e in entries && "host-anchor/" <= e.archivePath
  {
    forall e | e in entries
      ensures EntryOk(e) <==>
        && (forall p :: p in Split(e.archivePath) ==> p !in {"", ".", ".."} && '\\' !in p && '\0' !in p)
        && e.meta.mode <= 511 && e.sourcePath != "" && e.sourcePath[0] == '/'
        && (e.kind.FileKind? ==> |e.kind.sha256| == 32)
    {
      SafeNameParts(e.archivePath);
    }
  }

  predicate UniqueUpTo(entries: seq<Entry>, k: nat)
    requires k <= |entries|
  {
    forall i, j :: 0 <= i < j < k ==> entries[i].archivePath != entries[j].archivePath
  }

  // The loop of _inventory() and its duplicate test, which compares the number
  // of names with the size of their set.
  method CheckEntries(entries: seq<Entry>) returns (ok: bool)
    ensures ok <==> (forall e :: e in entries ==> EntryOk(e)) && Unique(entries)
  {
    var names: set<string> := {};
    var k := 0;
    while k < |entries| && EntryOk(entries[k])
      invariant k <= |entries| && GoodUpTo(entries, k) && NamesOf(names, entries, k)
    {
      OneMoreGood(entries, k);
      OneMoreName(names, entries, k);
      names := names + {entries[k].archivePath};
      k := k + 1;
    }
    ok := k == |entries| && |names| == |entries|;
    AllGood(entries, k);
  }

  lemma AllGood(entries: seq<Entry>, k: nat)
    requires k <= |entries| && GoodUpTo(entries, k) && (k < |entries| ==> !EntryOk(entries[k]))
    ensures k == |entries| <==> forall e :: e in entries ==> EntryOk(e)
    ensures UniqueUpTo(entries, |entries|) <==> Unique(entries)
  {
    assert k < |entries| ==> entries[k] in entries;
  }

  predicate GoodUpTo(entries: seq<Entry>, k: nat)
    requires k <= |entries|
  {
    forall i :: 0 <= i < k ==> EntryOk(entries[i])
  }

  lemma OneMoreGood(entries: seq<Entry>, k: nat)
    requires k < |entries| && GoodUpTo(entries, k) && EntryOk(entries[k])
    ensures GoodUpTo(entries, k + 1)
  {
  }

  // The set of the first k names; it has k elements only when they all differ.
  ghost predicate NamesOf(names: set<string>, entries: seq<Entry>, k: nat)
    requires k <= |entries|
  {
    && (forall name :: name in names <==> exists i :: 0 <= i < k && entries[i].archivePath == name)
    && |names| <= k
    && (|names| == k <==> UniqueUpTo(entries, k))
  }

  lemma OneMoreName(names: set<string>, entries: seq<Entry>, k: nat)
    requires k < |entries| && NamesOf(names, entries, k)
    ensures NamesOf(names + {entries[k].archivePath}, entries, k + 1)
  {
    assert entries[k].archivePath in names ==> names + {entries[k].archivePath} == names;
  }

  method CheckInventory(c: Contract, entries: seq<Entry>, roots: map<string, Entry>) returns (ok: bool)
    ensures ok <==> InventoryOk(c, entries, roots)
    ensures ok ==> forall e, p :: e in entries && p in Split(e.archivePath) ==>
              p !in {"", ".", ".."} && '\\' !in p && '\0' !in p
  {
    InventoryTest(c, entries, roots);
    if !(1 <= |entries| <= MAX_INVENTORY_ENTRIES) || roots.Keys != c.groups {
      return false;
    }
    ok := CheckEntries(entries);
    if !ok {
      return;
    }
    ok := (forall group :: group in c.groups ==> RootOk(entries, roots, group))
       && (forall path :: path in c.required && path != [] ==> Has(entries, Join(path)))
       && !(c.forbidden != [] && Has(entries, Join(c.forbidden)))
       && (exists e :: e in entries && "host-anchor/" <= e.archivePath);
  }

  // ---- Which hosts the exporter's inventory passes for ----

  // No name below the node has a backslash or NUL, and no mode has bits above 0o777.
  predicate Portable(node: Node)
    decreases node
  {
    && node.meta.mode <= 0x1FF
    && (node.Dir? ==>
          forall i :: 0 <= i < |node.children| ==>
            PlainChars(node.children[i].name) && Portable(node.children[i].node))
  }

  lemma SafeJoin(parts: seq<string>)
    requires GoodParts(parts)
    ensures SafeName(Join(parts)) <==> forall p :: p in parts ==> PlainChars(p)
  {
    SplitJoin(parts);
    SafeNameParts(Join(parts));
  }

  // The verifier passes every entry of a tree exactly when the tree is portable.
  lemma {:induction false} EntriesOk(sha: bytes -> bytes, parts: seq<string>, source: string, node: Node)
    requires GoodParts(parts) && WellFormed(node) && "/" <= source && DigestLength(sha)
    requires forall p :: p in parts ==> PlainChars(p)
    ensures (forall e :: e in Preorder(sha, parts, source, node) ==> EntryOk(e)) <==> Portable(node)
    decreases node, 0
  {
    SafeJoin(parts);
    var first := EntryOf(sha, parts, source, node);
    assert first in Preorder(sha, parts, source, node);
    assert node.File? ==> |sha(node.content)| == 32 && Preorder(sha, parts, source, node) == [first];
    assert EntryOk(first) <==> node.meta.mode <= 0x1FF;
    if node.Dir? {
      EntriesOkBelow(sha, parts, source, node.children);
      var below := PreorderAll(sha, parts, source, node.children);
      assert forall e :: e in Preorder(sha, parts, source, node) <==> e == first || e in below;
    }
  }

  // The exporter records a setgid directory; the verifier refuses the inventory.
  lemma SetgidDirectoryRefused(sha: bytes -> bytes)
    ensures var node := Dir(Meta(0x5ED, 0, 0, 0, 0), []);
      WellFormed(node) && exists e :: e in Preorder(sha, ["host-state"], "/srv/state", node) && !EntryOk(e)
  {
    var node := Dir(Meta(0x5ED, 0, 0, 0, 0), []);
    assert EntryOf(sha, ["host-state"], "/srv/state", node) in Preorder(sha, ["host-state"], "/srv/state", node);
  }

  lemma {:induction false} EntriesOkBelow(sha: bytes -> bytes, parts: seq<string>, source: string, children: seq<Child>)
    requires GoodParts(parts) && "/" <= source && DigestLength(sha)
    requires forall p :: p in parts ==> PlainChars(p)
    requires forall i :: 0 <= i < |children| ==> GoodName(children[i].name) && WellFormed(children[i].node)
    ensures (forall e :: e in PreorderAll(sha, parts, source, children) ==> EntryOk(e))
       <==> (forall i :: 0 <= i < |children| ==> PlainChars(children[i].name) && Portable(children[i].node))
    decreases children, 1
  {
    if children != [] {
      var path, from := parts + [children[0].name], source + "/" + children[0].name;
      var first, rest := Preorder(sha, path, from, children[0].node), PreorderAll(sha, parts, source, children[1..]);
      assert forall e :: e in PreorderAll(sha, parts, source, children) <==> e in first || e in rest;
      EntriesOkBelow(sha, parts, source, children[1..]);
      if PlainChars(children[0].name) {
        EntriesOk(sha, path, from, children[0].node);
      } else {
        SafeJoin(path);
        assert children[0].name in path;
        assert first[0] in first && !EntryOk(first[0]);
      }
      assert forall i :: 1 <= i < |children| ==> children[i] == children[1..][i - 1];
    }
  }

  // A path is in the inventory of a tree exactly when the tree has a node there.
  lemma {:induction false} TreeHas(
    sha: bytes -> bytes, parts: seq<string>, source: string, node: Node, path: seq<string>)
    requires GoodParts(parts) && WellFormed(node) && forall p :: p in path ==> GoodName(p)
    ensures Has(Preorder(sha, parts, source, node), Join(parts + path)) <==> At(node, path).Some?
    decreases node, 0
  {
    var entries := Preorder(sha, parts, source, node);
    assert entries[0] in entries && entries[0].archivePath == Join(parts);
    SplitJoin(parts);
    SplitJoin(parts + path);
    if path == [] {
      assert parts + path == parts;
    } else if node.Dir? {
      var below := PreorderAll(sha, parts, source, node.children);
      assert forall e :: e in entries <==> e == entries[0] || e in below;
      ChildrenHave(sha, parts, source, node.children, path);
    }
  }

  lemma {:induction false} ChildrenHave(
    sha: bytes -> bytes, parts: seq<string>, source: string, children: seq<Child>, path: seq<string>)
    requires GoodParts(parts) && path != [] && forall p :: p in path ==> GoodName(p)
    requires forall i :: 0 <= i < |children| ==> GoodName(children[i].name) && WellFormed(children[i].node)
    requires forall i, j :: 0 <= i < j < |children| ==> children[i].name != children[j].name
    ensures var k := IndexOf(children, path[0]);
      (k < |children| && At(children[k].node, path[1..]).Some?)
      <==> Has(PreorderAll(sha, parts, source, children), Join(parts + path))
    decreases children, 1
  {
    if children != [] {
      var here, from := parts + [children[0].name], source + "/" + children[0].name;
      var first, others := Preorder(sha, here, from, children[0].node), PreorderAll(sha, parts, source, children[1..]);
      assert forall e :: e in PreorderAll(sha, parts, source, children) <==> e in first || e in others;
      if children[0].name == path[0] {
        assert here + path[1..] == parts + path;
        TreeHas(sha, here, from, children[0].node, path[1..]);
        NotAmongOthers(sha, parts, source, children[1..], path);
      } else {
        ChildrenHave(sha, parts, source, children[1..], path);
        NotInSibling(sha, parts, source, children[0], path);
      }
    }
  }

  lemma NotAmongOthers(sha: bytes -> bytes, parts: seq<string>, source: string, children: seq<Child>, path: seq<string>)
    requires GoodParts(parts) && path != [] && forall p :: p in path ==> GoodName(p)
    requires forall i :: 0 <= i < |children| ==> GoodName(children[i].name) && WellFormed(children[i].node)
    requires forall i :: 0 <= i < |children| ==> children[i].name != path[0]
    ensures !Has(PreorderAll(sha, parts, source, children), Join(parts + path))
  {
    SplitJoin(parts + path);
    forall e | e in PreorderAll(sha, parts, source, children)
      ensures e.archivePath != Join(parts + path)
    {
      var k := EntriesBelowChild(sha, parts, source, children, e);
      assert Split(e.archivePath)[|parts|] == children[k].name;
    }
  }

  lemma NotInSibling(sha: bytes -> bytes, parts: seq<string>, source: string, child: Child, path: seq<string>)
    requires GoodParts(parts) && path != [] && forall p :: p in path ==> GoodName(p)
    requires GoodName(child.name) && WellFormed(child.node) && child.name != path[0]
    ensures !Has(Preorder(sha, parts + [child.name], source + "/" + child.name, child.node), Join(parts + path))
  {
    SplitJoin(parts + path);
    var first := Preorder(sha, parts + [child.name], source + "/" + child.name, child.node);
    forall e | e in first
      ensures e.archivePath != Join(parts + path)
    {
      EntriesBelow(sha, parts + [child.name], source + "/" + child.name, child.node, e);
      assert Split(e.archivePath)[|parts|] == child.name;
    }
  }

  // The captured host has something at this archive path.
  predicate Captured(sections: seq<Section>, path: seq<string>) {
    exists k :: 0 <= k < |sections| && CapturedIn(sections[k], path)
  }

  predicate CapturedIn(s: Section, path: seq<string>) {
    s.Parts() <= path && At(s.node, path[|s.Parts()|..]).Some?
  }

  lemma HostHas(sha: bytes -> bytes, sections: seq<Section>, path: seq<string>)
    requires ValidSections(sections) && GoodParts(path)
    ensures Has(EntriesFrom(sha, sections, 0), Join(path)) <==> Captured(sections, path)
  {
    if Has(EntriesFrom(sha, sections, 0), Join(path)) {
      var e :| e in EntriesFrom(sha, sections, 0) && e.archivePath == Join(path);
      var k := EntryHasSection(sha, sections, 0, e);
      EntriesBelow(sha, sections[k].Parts(), sections[k].source, sections[k].node, e);
      SplitJoin(path);
      SectionHas(sha, sections[k], path);
    }
    if Captured(sections, path) {
      var k :| 0 <= k < |sections| && CapturedIn(sections[k], path);
      assert sections[k].Valid();
      SectionHas(sha, sections[k], path);
      var e :| e in sections[k].Entries(sha) && e.archivePath == Join(path);
      SectionInAll(sha, sections, 0, k, e);
    }
  }

  lemma SectionHas(sha: bytes -> bytes, s: Section, path: seq<string>)
    requires s.Valid() && GoodParts(path) && s.Parts() <= path
    ensures Has(s.Entries(sha), Join(path)) <==> At(s.node, path[|s.Parts()|..]).Some?
  {
    assert s.Parts() + path[|s.Parts()|..] == path;
    TreeHas(sha, s.Parts(), s.source, s.node, path[|s.Parts()|..]);
  }

  // What _check_source has established before anything is captured: the root
  // groups are those of the contract and every required file is there.
  predicate Initialized(c: Contract, sections: seq<Section>) {
    && PlainSections(sections)
    && (set i | 0 <= i < |sections| && sections[i].name.None? :: sections[i].group) == c.groups
    && forall path :: path in c.required ==> Captured(sections, path)
  }

  predicate PlainSections(sections: seq<Section>) {
    && ValidSections(sections)
    && forall i :: 0 <= i < |sections| ==> PlainSection(sections[i])
  }

  predicate PlainSection(s: Section) {
    Capturable(s) && "/" <= s.source && forall p :: p in s.Parts() ==> PlainChars(p)
  }

  lemma {:induction false} NodePathsGood(node: Node, path: seq<string>)
    requires WellFormed(node) && At(node, path).Some?
    ensures forall p :: p in path ==> GoodName(p)
    decreases |path|
  {
    if path != [] {
      var k := IndexOf(node.children, path[0]);
      assert GoodName(node.children[k].name);
      NodePathsGood(node.children[k].node, path[1..]);
      assert forall p :: p in path <==> p == path[0] || p in path[1..];
    }
  }

  lemma CapturedIsGood(sections: seq<Section>, path: seq<string>)
    requires ValidSections(sections) && Captured(sections, path)
    ensures GoodParts(path)
  {
    var k :| 0 <= k < |sections| && CapturedIn(sections[k], path);
    var parts, rest := sections[k].Parts(), path[|sections[k].Parts()|..];
    assert sections[k].Valid() && path == parts + rest;
    NodePathsGood(sections[k].node, rest);
    assert forall p :: p in path <==> p in parts || p in rest;
  }

  lemma RootsOk(c: Contract, sha: bytes -> bytes, sections: seq<Section>, group: string)
    requires Initialized(c, sections) && group in c.groups
    ensures group in RootRecords(sha, sections, |sections|)
    ensures RootOk(EntriesFrom(sha, sections, 0), RootRecords(sha, sections, |sections|), group)
  {
    RootRecordsAre(sha, sections, |sections|);
    var i :| 0 <= i < |sections| && sections[i].name.None? && sections[i].group == group;
    assert PlainSection(sections[i]);
    assert sections[i].Entries(sha)[0] == sections[i].Entry(sha);
    SectionInAll(sha, sections, 0, i, sections[i].Entry(sha));
  }

  // The exporter accepts every initialized host within the entry limit, but the
  // verifier passes the inventory exactly when the host is also portable and its
  // replay database has no write-ahead log.
  lemma ExportedInventoryPasses(c: Contract, sha: bytes -> bytes, sections: seq<Section>)
    requires c.Valid() && Initialized(c, sections) && DigestLength(sha)
    requires 1 <= |EntriesFrom(sha, sections, 0)| <= MAX_INVENTORY_ENTRIES
    ensures InventoryOk(c, EntriesFrom(sha, sections, 0), RootRecords(sha, sections, |sections|))
       <==> (forall i :: 0 <= i < |sections| ==> Portable(sections[i].node)) && !Captured(sections, c.forbidden)
  {
    var entries := EntriesFrom(sha, sections, 0);
    SectionsUnique(sha, sections, 0);
    RootRecordsAre(sha, sections, |sections|);
    AllEntriesOk(sha, sections);
    HostHas(sha, sections, c.forbidden);
    forall path | path in c.required
      ensures Has(entries, Join(path))
    {
      CapturedIsGood(sections, path);
      HostHas(sha, sections, path);
    }
    forall group | group in c.groups
      ensures RootOk(entries, RootRecords(sha, sections, |sections|), group)
    {
      RootsOk(c, sha, sections, group);
    }
    CapturedIsGood(sections, c.anchorFile);
    HostHas(sha, sections, c.anchorFile);
    assert Join(c.anchorFile) == "host-anchor" + "/" + c.anchorFile[1];
    var e :| e in entries && e.archivePath == Join(c.anchorFile);
    assert "host-anchor/" <= e.archivePath;
  }

  lemma AllEntriesOk(sha: bytes -> bytes, sections: seq<Section>)
    requires PlainSections(sections) && DigestLength(sha)
    ensures (forall e :: e in EntriesFrom(sha, sections, 0) ==> EntryOk(e))
       <==> (forall i :: 0 <= i < |sections| ==> Portable(sections[i].node))
  {
    var entries := EntriesFrom(sha, sections, 0);
    forall i | 0 <= i < |sections|
      ensures (forall e :: e in sections[i].Entries(sha) ==> EntryOk(e)) <==> Portable(sections[i].node)
      ensures forall e :: e in sections[i].Entries(sha) ==> e in entries
    {
      assert PlainSection(sections[i]);
      var s := sections[i];
      EntriesOk(sha, s.Parts(), s.source, s.node);
      forall e | e in s.Entries(sha) ensures e in entries {
        SectionInAll(sha, sections, 0, i, e);
      }
    }
    forall e | e in entries
      ensures exists i :: 0 <= i < |sections| && e in sections[i].Entries(sha)
    {
      var i := EntryHasSection(sha, sections, 0, e);
    }
  }

  // ---- Tar members ----

  datatype MemberType = DirMember | FileMember | OtherMember

  // A tar member as the tar library presents it.
  datatype Member = Member(name: string, kind: MemberType, mode: nat, uid: nat, gid: nat, mtime: nat,
                           linkname: string, size: nat, content: bytes)

  predicate IsControl(c: Contract, name: string) {
    exists i :: 0 <= i < |c.controls| && c.controls[i] != [] && Join(c.controls[i]) == name
  }

  predicate IsReplay(c: Contract, archive: bool, name: string) {
    archive && c.replay != [] && Join(c.replay) == name
  }

  // The member is the sealed entry, with its content. `archive` tells the full
  // archive from the separate anchors object.
  predicate Matches(sha: bytes -> bytes, c: Contract, archive: bool, m: Member, e: Entry) {
    && SafeName(m.name) && m.name == e.archivePath
    && m.mode == e.meta.mode && m.uid == e.meta.uid && m.gid == e.meta.gid
    && m.mtime == 0 && m.linkname == ""
    && match e.kind
       case DirectoryKind => m.kind == DirMember && m.size == 0
       case FileKind(size, digest) =>
         && m.kind == FileMember && m.size == size == |m.content| && sha(m.content) == digest
         && (IsControl(c, m.name) ==> size <= MAX_DOCUMENT_BYTES)
         && (IsReplay(c, archive, m.name) ==> size <= MAX_REPLAY_BYTES)
  }

  // The test of one member in full.
  lemma MemberTest(sha: bytes -> bytes, c: Contract, archive: bool, m: Member, e: Entry)
    ensures Matches(sha, c, archive, m, e) <==>
      && (forall p :: p in Split(m.name) ==> p !in {"", ".", ".."} && '\\' !in p && '\0' !in p)
      && m.name == e.archivePath && m.mode == e.meta.mode && m.uid == e.meta.uid && m.gid == e.meta.gid
      && m.mtime == 0 && m.linkname == ""
      && if e.kind.DirectoryKind? then m.kind == DirMember && m.size == 0
         else
           && m.kind == FileMember && m.size == |m.content|
           && e.kind == FileKind(|m.content|, sha(m.content))
           && ((exists path :: path in c.controls && path != [] && Join(path) == m.name) ==> m.size <= 0x80_0000)
           && (archive && c.replay != [] && Join(c.replay) == m.name ==> m.size <= 0x800_0000)
  {
    SafeNameParts(m.name);
    IsControlIff(c, m.name);
  }

  lemma IsControlIff(c: Contract, name: string)
    ensures IsControl(c, name) <==> exists path :: path in c.controls && path != [] && Join(path) == name
  {
    if path :| path in c.controls && path != [] && Join(path) == name {
      var i :| 0 <= i < |c.controls| && c.controls[i] == path;
    }
  }

  // The member sequence is the sealed inventory, entry by entry.
  predicate TarMatches(sha: bytes -> bytes, c: Contract, archive: bool, members: seq<Member>, entries: seq<Entry>) {
    && |members| == |entries|
    && Unique(entries)
    && forall i :: 0 <= i < |entries| ==> Matches(sha, c, archive, members[i], entries[i])
  }

  lemma SafeMembers(sha: bytes -> bytes, c: Contract, archive: bool, members: seq<Member>, entries: seq<Entry>)
    requires TarMatches(sha, c, archive, members, entries)
    ensures forall m, p :: m in members && p in Split(m.name) ==>
              p !in {"", ".", ".."} && '\\' !in p && '\0' !in p
  {
    forall m, p | m in members && p in Split(m.name)
      ensures p !in {"", ".", ".."} && '\\' !in p && '\0' !in p
    {
      var i :| 0 <= i < |members| && members[i] == m;
      MemberTest(sha, c, archive, members[i], entries[i]);
    }
  }

  // The read loop over one file: blocks are digested, a control file is also
  // kept and may not exceed the document limit.
  method ReadMember(content: bytes, control: bool) returns (r: Result<bytes>)
    ensures r == (if control && |content| > MAX_DOCUMENT_BYTES then Error else Ok(content))
  {
    var digested: bytes, offset := [], 0;
    while offset < |content|
      invariant offset <= |content| && digested == content[..offset]
      invariant control ==> offset <= MAX_DOCUMENT_BYTES
    {
      var next := Min(offset + 0x10_0000, |content|);
      digested := digested + content[offset..next];
      offset := next;
      if control && |digested| > MAX_DOCUMENT_BYTES {
        return Error;
      }
    }
    assert content[..|content|] == content;
    r := Ok(digested);
  }

  predicate HeaderMatches(m: Member, e: Entry) {
    && SafeName(m.name) && m.name == e.archivePath && m.uid == e.meta.uid && m.gid == e.meta.gid
    && m.mode == e.meta.mode && m.linkname == "" && m.mtime == 0
  }

  method CheckMember(sha: bytes -> bytes, c: Contract, archive: bool, m: Member, e: Entry) returns (ok: bool)
    ensures ok <==> Matches(sha, c, archive, m, e)
  {
    if !HeaderMatches(m, e) {
      return false;
    }
    if e.kind.DirectoryKind? {
      return m.kind == DirMember && m.size == 0;
    }
    if m.kind != FileMember || m.size != e.kind.size || m.size != |m.content| {
      return false;
    }
    if IsReplay(c, archive, m.name) && m.size > MAX_REPLAY_BYTES {
      return false;
    }
    var digested := ReadMember(m.content, IsControl(c, m.name));
    ok := digested.Ok? && sha(digested.value) == e.kind.sha256;
  }

  function Names(entries: seq<Entry>): (names: seq<string>)
    ensures |names| == |entries|
  {
    seq(|entries|, i requires 0 <= i < |entries| => entries[i].archivePath)
  }

  // The keys of a dictionary, in insertion order, after one more assignment.
  function Assigned(keys: seq<string>, key: string): seq<string> {
    if key in keys then keys else keys + [key]
  }

  // The keys of `observed` after the first k members.
  function Observed(entries: seq<Entry>, k: nat): seq<string>
    requires k <= |entries|
  {
    if k == 0 then [] else Assigned(Observed(entries, k - 1), entries[k - 1].archivePath)
  }

  lemma {:induction false} ObservedPrefix(entries: seq<Entry>, k: nat)
    requires k <= |entries|
    ensures forall name :: name in Observed(entries, k) <==> exists i :: 0 <= i < k && entries[i].archivePath == name
    ensures if UniqueUpTo(entries, k) then Observed(entries, k) == Names(entries)[..k] else |Observed(entries, k)| < k
    ensures |Observed(entries, k)| <= k
  {
    if k > 0 {
      ObservedPrefix(entries, k - 1);
    }
  }

  lemma ObservedAll(entries: seq<Entry>, k: nat)
    requires k <= |entries|
    ensures Observed(entries, k) == Names(entries) <==> k == |entries| && Unique(entries)
  {
    ObservedPrefix(entries, k);
    assert UniqueUpTo(entries, |entries|) <==> Unique(entries);
  }

  // One control file more.
  function WithControl(c: Contract, captured: map<string, bytes>, m: Member, e: Entry): map<string, bytes> {
    if e.kind.FileKind? && IsControl(c, e.archivePath) then captured[e.archivePath := m.content] else captured
  }

  // The content of every control file among the first k entries.
  function Controls(c: Contract, members: seq<Member>, entries: seq<Entry>, k: nat): map<string, bytes>
    requires k <= |members| && k <= |entries|
  {
    if k == 0 then map[] else WithControl(c, Controls(c, members, entries, k - 1), members[k - 1], entries[k - 1])
  }

  // The content of the last replay database among the first k entries.
  function ReplayImage(c: Contract, archive: bool, members: seq<Member>, entries: seq<Entry>, k: nat): Option<bytes>
    requires k <= |members| && k <= |entries|
  {
    if k == 0 then None
    else WithReplay(c, archive, ReplayImage(c, archive, members, entries, k - 1), members[k - 1], entries[k - 1])
  }

  function WithReplay(c: Contract, archive: bool, image: Option<bytes>, m: Member, e: Entry): Option<bytes> {
    if e.kind.FileKind? && IsReplay(c, archive, e.archivePath) then Some(m.content) else image
  }

  // What the later checks read: the control files and the replay database.
  datatype TarFiles = TarFiles(controls: map<string, bytes>, replay: Option<bytes>)

  function FilesOf(c: Contract, archive: bool, members: seq<Member>, entries: seq<Entry>): TarFiles
    requires |members| == |entries|
  {
    TarFiles(Controls(c, members, entries, |entries|), ReplayImage(c, archive, members, entries, |entries|))
  }

  // _tar_object(): `observed` holds the keys of a dictionary in insertion order;
  // `trailing` is the plaintext the tar parser leaves unread.
  method TarObject(
    sha: bytes -> bytes, c: Contract, archive: bool, members: seq<Member>, trailing: bytes, entries: seq<Entry>)
      returns (r: Result<TarFiles>)
    ensures r.Ok? <==> TarMatches(sha, c, archive, members, entries) && AllZero(trailing)
    ensures r.Ok? ==> r.value == FilesOf(c, archive, members, entries)
    ensures r.Ok? ==> forall m, p :: m in members && p in Split(m.name) ==>
              p !in {"", ".", ".."} && '\\' !in p && '\0' !in p
    ensures r.Ok? <==>
      && |members| == |entries|
      && (forall i, j :: 0 <= i < j < |entries| ==> entries[i].archivePath != entries[j].archivePath)
      && (forall i :: 0 <= i < |entries| ==> Matches(sha, c, archive, members[i], entries[i]))
      && (forall i :: 0 <= i < |trailing| ==> trailing[i] == 0)
  {
    var observed: seq<string> := [];
    var captured: map<string, bytes> := map[];
    var image: Option<bytes> := None;
    for k := 0 to |members|
      invariant k <= |entries|
      invariant forall i :: 0 <= i < k ==> Matches(sha, c, archive, members[i], entries[i])
      invariant observed == Observed(entries, k)
      invariant captured == Controls(c, members, entries, k)
      invariant image == ReplayImage(c, archive, members, entries, k)
    {
      if k >= |entries| {
        return Error;
      }
      var ok := CheckMember(sha, c, archive, members[k], entries[k]);
      if !ok {
        return Error;
      }
      captured := WithControl(c, captured, members[k], entries[k]);
      image := WithReplay(c, archive, image, members[k], entries[k]);
      observed := Assigned(observed, entries[k].archivePath);
    }
    ObservedAll(entries, |members|);
    if !AllZero(trailing) || observed != Names(entries) {
      return Error;
    }
    SafeMembers(sha, c, archive, members, entries);
    r := Ok(TarFiles(captured, image));
  }

  // ---- The exporter's tar streams ----

  // The tar member write_encrypted_tar() adds for an entry, reading its file.
  function MemberFor(disk: map<string, bytes>, e: Entry): Member {
    if e.kind.DirectoryKind? then Member(e.archivePath, DirMember, e.meta.mode, e.meta.uid, e.meta.gid, 0, "", 0, [])
    else Member(e.archivePath, FileMember, e.meta.mode, e.meta.uid, e.meta.gid, 0, "", e.kind.size,
                if e.sourcePath in disk then disk[e.sourcePath] else [])
  }

  // The file still has the inventoried size and digest.
  predicate Unchanged(sha: bytes -> bytes, disk: map<string, bytes>, e: Entry) {
    e.kind.FileKind? ==>
      && e.sourcePath in disk
      && |disk[e.sourcePath]| == e.kind.size && sha(disk[e.sourcePath]) == e.kind.sha256
  }

  // write_encrypted_tar(): raises when a file changed since the inventory.
  method WriteTar(sha: bytes -> bytes, disk: map<string, bytes>, entries: seq<Entry>) returns (r: Result<seq<Member>>)
    ensures r.Ok? <==> forall e :: e in entries ==> Unchanged(sha, disk, e)
    ensures r.Ok? ==> |r.value| == |entries|
    ensures r.Ok? ==> forall i :: 0 <= i < |entries| ==>
              r.value[i] == MemberFor(disk, entries[i])
  {
    var members: seq<Member> := [];
    for k := 0 to |entries|
      invariant |members| == k
      invariant forall i :: 0 <= i < k ==> Unchanged(sha, disk, entries[i])
      invariant forall i :: 0 <= i < k ==>
        members[i] == MemberFor(disk, entries[i])
    {
      var e := entries[k];
      if !Unchanged(sha, disk, e) {
        return Error;
      }
      members := members + [MemberFor(disk, e)];
    }
    r := Ok(members);
  }

  // Size limits the exporter enforces on the source before capturing it.
  predicate WithinLimits(c: Contract, e: Entry) {
    e.kind.FileKind? ==>
      && (IsControl(c, e.archivePath) ==> e.kind.size <= MAX_DOCUMENT_BYTES)
      && (IsReplay(c, true, e.archivePath) ==> e.kind.size <= MAX_REPLAY_BYTES)
  }

  predicate FileAt(node: Node, path: seq<string>) {
    At(node, path).Some? && At(node, path).value.File?
  }

  // The disk holds every captured file's content at the file's path in the source.
  ghost predicate OnDisk(disk: map<string, bytes>, sections: seq<Section>) {
    forall k: nat, path {:trigger FileAt(sections[k].node, path)} ::
      k < |sections| && FileAt(sections[k].node, path) ==>
      var file := if path == [] then sections[k].source else sections[k].source + "/" + Join(path);
      file in disk && disk[file] == At(sections[k].node, path).value.content
  }

  // No captured control file or replay database is larger than the exporter allows.
  ghost predicate SizesFit(c: Contract, sections: seq<Section>) {
    forall k: nat, path {:trigger FileAt(sections[k].node, path)} ::
      k < |sections| && FileAt(sections[k].node, path) ==>
      var name, size := Join(sections[k].Parts() + path), |At(sections[k].node, path).value.content|;
      && (IsControl(c, name) ==> size <= 0x80_0000)
      && (c.replay != [] && Join(c.replay) == name ==> size <= 0x800_0000)
  }

  lemma EntryFits(
    c: Contract, sha: bytes -> bytes, sections: seq<Section>, disk: map<string, bytes>, k: nat, path: seq<string>,
    e: Entry)
    requires k < |sections| && At(sections[k].node, path).Some? && OnDisk(disk, sections) && SizesFit(c, sections)
    requires e.archivePath == Join(sections[k].Parts() + path)
    requires e.sourcePath == if path == [] then sections[k].source else sections[k].source + "/" + Join(path)
    requires var n := At(sections[k].node, path).value;
      e.kind == if n.Dir? then DirectoryKind else FileKind(|n.content|, sha(n.content))
    ensures Unchanged(sha, disk, e) && WithinLimits(c, e)
  {
    if e.kind.FileKind? {
      assert FileAt(sections[k].node, path);
      assert e.sourcePath in disk && disk[e.sourcePath] == At(sections[k].node, path).value.content;
    }
  }

  // What was captured is still there for the tar streams to read.
  lemma CapturedUnchanged(c: Contract, sha: bytes -> bytes, sections: seq<Section>, disk: map<string, bytes>)
    requires ValidSections(sections) && OnDisk(disk, sections) && SizesFit(c, sections)
    ensures forall e :: e in EntriesFrom(sha, sections, 0) ==> Unchanged(sha, disk, e) && WithinLimits(c, e)
  {
    forall e | e in EntriesFrom(sha, sections, 0)
      ensures Unchanged(sha, disk, e) && WithinLimits(c, e)
    {
      var k, path := CollectedIsOf(sha, sections, e);
      EntryFits(c, sha, sections, disk, k, path, e);
    }
  }

  lemma {:induction false} SelectSubset(group: string, entries: seq<Entry>)
    ensures forall e :: e in Select(group, entries) <==> e in entries && InGroup(group, e.archivePath)
    ensures Unique(entries) ==> Unique(Select(group, entries))
  {
    if entries != [] {
      SelectSubset(group, entries[1..]);
      var rest := Select(group, entries[1..]);
      assert forall e :: e in entries <==> e == entries[0] || e in entries[1..];
      if Unique(entries) {
        assert forall i, j :: 0 <= i < j < |entries[1..]| ==>
          entries[1..][i] == entries[i + 1] && entries[1..][j] == entries[j + 1];
        assert forall e :: e in entries[1..] ==> exists i :: 1 <= i < |entries| && entries[i] == e;
      }
    }
  }

  // A tar stream written for entries the inventory check passes is accepted.
  lemma WrittenTarMatches(
    sha: bytes -> bytes, c: Contract, archive: bool, disk: map<string, bytes>, entries: seq<Entry>,
    members: seq<Member>)
    requires Unique(entries) && |members| == |entries|
    requires forall e :: e in entries ==> EntryOk(e) && Unchanged(sha, disk, e) && WithinLimits(c, e)
    requires forall i :: 0 <= i < |entries| ==> members[i] == MemberFor(disk, entries[i])
    ensures TarMatches(sha, c, archive, members, entries)
  {
    forall i | 0 <= i < |entries|
      ensures Matches(sha, c, archive, members[i], entries[i])
    {
      assert entries[i] in entries;
    }
  }

  // What is captured is what the names say: every control file of the
  // inventory with its content, and nothing else; the replay database from the
  // full archive.
  lemma CapturedFiles(c: Contract, archive: bool, members: seq<Member>, entries: seq<Entry>, i: nat, name: string)
    requires |entries| == |members| && Unique(entries) && i < |entries|
    ensures var files := FilesOf(c, archive, members, entries); var e := entries[i];
      && (e.kind.FileKind? && IsControl(c, e.archivePath) ==>
            e.archivePath in files.controls && files.controls[e.archivePath] == members[i].content)
      && (name in files.controls ==> ControlAmong(c, entries, |entries|, name))
      && (e.kind.FileKind? && IsReplay(c, archive, e.archivePath) ==> files.replay == Some(members[i].content))
      && (files.replay.Some? ==> exists j :: 0 <= j < |entries| && IsReplayFile(c, archive, entries[j]))
  {
    var e := entries[i];
    ReplayOnly(c, archive, members, entries, |entries|);
    if e.kind.FileKind? && IsControl(c, e.archivePath) {
      ControlHeld(c, members, entries, |entries|, i);
    }
    if name in Controls(c, members, entries, |entries|) {
      ControlsOnly(c, members, entries, |entries|, name);
    }
    if e.kind.FileKind? && IsReplay(c, archive, e.archivePath) {
      ReplayHeld(c, archive, members, entries, |entries|, i);
    }
  }

  predicate IsReplayFile(c: Contract, archive: bool, e: Entry) {
    e.kind.FileKind? && IsReplay(c, archive, e.archivePath)
  }

  lemma {:induction false} ReplayOnly(
    c: Contract, archive: bool, members: seq<Member>, entries: seq<Entry>, k: nat)
    requires k <= |entries| == |members|
    ensures ReplayImage(c, archive, members, entries, k).Some? ==>
      exists j :: 0 <= j < k && IsReplayFile(c, archive, entries[j])
  {
    if k > 0 {
      ReplayOnly(c, archive, members, entries, k - 1);
      if ReplayImage(c, archive, members, entries, k - 1).Some? {
        var j :| 0 <= j < k - 1 && IsReplayFile(c, archive, entries[j]);
      } else if ReplayImage(c, archive, members, entries, k).Some? {
        assert IsReplayFile(c, archive, entries[k - 1]);
      }
    }
  }

  predicate ControlAmong(c: Contract, entries: seq<Entry>, k: nat, name: string)
    requires k <= |entries|
  {
    exists i :: 0 <= i < k && entries[i].archivePath == name && entries[i].kind.FileKind? && IsControl(c, name)
  }

  lemma {:induction false} ControlHeld(c: Contract, members: seq<Member>, entries: seq<Entry>, k: nat, i: nat)
    requires i < k <= |entries| == |members| && Unique(entries)
    requires entries[i].kind.FileKind? && IsControl(c, entries[i].archivePath)
    ensures var controls := Controls(c, members, entries, k);
      entries[i].archivePath in controls && controls[entries[i].archivePath] == members[i].content
  {
    if i < k - 1 {
      ControlHeld(c, members, entries, k - 1, i);
      assert entries[i].archivePath != entries[k - 1].archivePath;
    }
  }

  lemma {:induction false} ControlsOnly(c: Contract, members: seq<Member>, entries: seq<Entry>, k: nat, name: string)
    requires k <= |entries| == |members| && name in Controls(c, members, entries, k)
    ensures ControlAmong(c, entries, k, name)
  {
    if name in Controls(c, members, entries, k - 1) {
      ControlsOnly(c, members, entries, k - 1, name);
      var i :| 0 <= i < k - 1 && entries[i].archivePath == name && entries[i].kind.FileKind? && IsControl(c, name);
    } else {
      assert entries[k - 1].archivePath == name;
    }
  }

  lemma {:induction false} ReplayHeld(
    c: Contract, archive: bool, members: seq<Member>, entries: seq<Entry>, k: nat, i: nat)
    requires i < k <= |entries| == |members| && Unique(entries)
    requires entries[i].kind.FileKind? && IsReplay(c, archive, entries[i].archivePath)
    ensures ReplayImage(c, archive, members, entries, k) == Some(members[i].content)
  {
    if i < k - 1 {
      ReplayHeld(c, archive, members, entries, k - 1, i);
      assert entries[i].archivePath != entries[k - 1].archivePath;
    }
  }

  // Exports and verifies every initialized host whose files are as they were
  // captured and keep the size limits: both tar objects are written, each ending in any zero
  // padding, and the verifier accepts exactly the portable hosts without a
  // write-ahead log.
  method ExportThenVerify(
    c: Contract, sha: bytes -> bytes, sections: seq<Section>, disk: map<string, bytes>, padding: bytes,
      anchorPadding: bytes)
      returns (ok: bool)
    requires c.Valid() && Initialized(c, sections) && DigestLength(sha)
    requires 1 <= |EntriesFrom(sha, sections, 0)| <= MAX_INVENTORY_ENTRIES
    requires OnDisk(disk, sections) && SizesFit(c, sections)
    requires AllZero(padding) && AllZero(anchorPadding)
    ensures ok <==> (forall i :: 0 <= i < |sections| ==> Portable(sections[i].node)) && !Captured(sections, c.forbidden)
  {
    assert forall i :: 0 <= i < |sections| ==> PlainSection(sections[i]) && Capturable(sections[i]);
    var collected := CollectInventory(sha, sections);
    CapturedUnchanged(c, sha, sections, disk);
    ExportedInventoryPasses(c, sha, sections);
    ok := VerifyExport(c, sha, collected.value.0, collected.value.1, disk, padding, anchorPadding);
  }

  method VerifyExport(
    c: Contract, sha: bytes -> bytes, entries: seq<Entry>, roots: map<string, Entry>, disk: map<string, bytes>,
    padding: bytes, anchorPadding: bytes)
      returns (ok: bool)
    requires forall e :: e in entries ==> Unchanged(sha, disk, e) && WithinLimits(c, e)
    requires AllZero(padding) && AllZero(anchorPadding)
    ensures ok <==> InventoryOk(c, entries, roots)
  {
    var anchors := Select(ANCHOR, entries);
    SelectSubset(ANCHOR, entries);
    var archiveTar := WriteTar(sha, disk, entries);
    var anchorsTar := WriteTar(sha, disk, anchors);
    ok := CheckInventory(c, entries, roots);
    if ok {
      WrittenTarMatches(sha, c, true, disk, entries, archiveTar.value);
      WrittenTarMatches(sha, c, false, disk, anchors, anchorsTar.value);
      var first := TarObject(sha, c, true, archiveTar.value, padding, entries);
      var second := TarObject(sha, c, false, anchorsTar.value, anchorPadding, anchors);
      ok := first.Ok? && second.Ok?;
    }
  }
}
