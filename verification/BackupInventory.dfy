// backup_archive.py inventory_root/visit and backup_source.py collect_inventory:
// the ordered list of everything a backup captures.
module BackupInventory {
  import opened Bytes
  import opened Paths
  import opened Sequences

  // ---- File trees ----

  datatype Meta = Meta(mode: nat, uid: nat, gid: nat, device: nat, inode: nat)

  // A directory is its listing in name order, as sorted(os.scandir()) yields it.
  // Anything else is a File; `regular` tells a regular file with a single link
  // from a symbolic link, a device, a socket or a file with several links.
  datatype Node =
    | File(meta: Meta, content: bytes, regular: bool)
    | Dir(meta: Meta, children: seq<Child>)

  datatype Child = Child(name: string, node: Node)

  datatype Entry = Entry(archivePath: string, sourcePath: string, meta: Meta, kind: Kind)

  datatype Kind = DirectoryKind | FileKind(size: nat, sha256: bytes)

  // What a POSIX directory guarantees of the names in it.
  predicate GoodName(name: string) {
    Slashless(name) && name != "" && name != "." && name != ".."
  }

  predicate WellFormed(node: Node)
    decreases node
  {
    node.Dir? ==>
      && (forall i :: 0 <= i < |node.children| ==> GoodName(node.children[i].name) && WellFormed(node.children[i].node))
      && (forall i, j :: 0 <= i < j < |node.children| ==> node.children[i].name != node.children[j].name)
  }

  // Nothing at or below the node makes _entry() raise.
  predicate Regular(node: Node)
    decreases node
  {
    match node
    case File(_, _, regular) => regular
    case Dir(_, children) => forall i :: 0 <= i < |children| ==> Regular(children[i].node)
  }

  // _entry(), where it does not raise
  function EntryOf(sha: bytes -> bytes, parts: seq<string>, source: string, node: Node): Entry
    requires parts != []
  {
    Entry(Join(parts), source, node.meta,
          if node.Dir? then DirectoryKind else FileKind(|node.content|, sha(node.content)))
  }

  // The entries of a tree in the order visit() appends them.
  function Preorder(sha: bytes -> bytes, parts: seq<string>, source: string, node: Node): seq<Entry>
    requires parts != []
    decreases node, 0
  {
    [EntryOf(sha, parts, source, node)] + if node.Dir? then PreorderAll(sha, parts, source, node.children) else []
  }

  function PreorderAll(sha: bytes -> bytes, parts: seq<string>, source: string, children: seq<Child>): seq<Entry>
    requires parts != []
    decreases children, 1
  {
    if children == [] then []
    else
      Preorder(sha, parts + [children[0].name], source + "/" + children[0].name, children[0].node)
      + PreorderAll(sha, parts, source, children[1..])
  }

  // ---- The collector ----

  lemma NextChild(
    sha: bytes -> bytes, parts: seq<string>, source: string, children: seq<Child>, k: nat, before: seq<Entry>)
    requires parts != [] && k < |children|
    ensures var child := children[k];
      var path, from := parts + [child.name], source + "/" + child.name;
      before + PreorderAll(sha, parts, source, children[k..])
      == before + [EntryOf(sha, path, from, child.node)]
         + (if child.node.Dir? then PreorderAll(sha, path, from, child.node.children) else [])
         + PreorderAll(sha, parts, source, children[k + 1..])
  {
    assert children[k..][0] == children[k] && children[k..][1..] == children[k + 1..];
  }

  class Inventory {
    const sha: bytes -> bytes
    var entries: seq<Entry>

    constructor (sha: bytes -> bytes)
      ensures this.sha == sha && entries == []
    {
      this.sha := sha;
      entries := [];
    }

    // visit(): recursion over a shared list; raises at the first irregular file.
    method Visit(parts: seq<string>, source: string, children: seq<Child>) returns (r: Result<()>)
      requires parts != []
      modifies this
      ensures r.Ok? <==> forall i :: 0 <= i < |children| ==> Regular(children[i].node)
      ensures r.Ok? ==> entries == old(entries) + PreorderAll(sha, parts, source, children)
      decreases children
    {
      ghost var all := old(entries) + PreorderAll(sha, parts, source, children);
      assert children[0..] == children;
      for k := 0 to |children|
        invariant entries + PreorderAll(sha, parts, source, children[k..]) == all
        invariant forall i :: 0 <= i < k ==> Regular(children[i].node)
      {
        var child := children[k];
        if child.node.File? && !child.node.regular {
          return Error;
        }
        NextChild(sha, parts, source, children, k, entries);
        var path, from := parts + [child.name], source + "/" + child.name;
        entries := entries + [EntryOf(sha, path, from, child.node)];
        if child.node.Dir? {
          var below := Visit(path, from, child.node.children);
          if below.Error? {
            return Error;
          }
        }
      }
      assert children[|children|..] == [];
      r := Ok(());
    }

    // inventory_root(): raises on a root that is not a directory and on an
    // irregular file anywhere below it; nothing of such a root is kept.
    method AddRoot(group: string, source: string, root: Node) returns (r: Result<Entry>)
      modifies this
      ensures r.Ok? <==> root.Dir? && Regular(root)
      ensures r.Error? ==> entries == old(entries)
      ensures r.Ok? ==> entries == old(entries) + Preorder(sha, [group], source, root)
      ensures r.Ok? ==> r.value == EntryOf(sha, [group], source, root)
    {
      if !root.Dir? {
        return Error;
      }
      var before := entries;
      var first := EntryOf(sha, [group], source, root);
      entries := entries + [first];
      var below := Visit([group], source, root.children);
      if below.Error? {
        entries := before;
        return Error;
      }
      r := Ok(first);
    }

    // inventory_file(): anything but a regular file raises.
    method AddFile(parts: seq<string>, source: string, node: Node) returns (r: Result<Entry>)
      requires parts != []
      modifies this
      ensures r.Ok? <==> node.File? && node.regular
      ensures r.Ok? ==> entries == old(entries) + Preorder(sha, parts, source, node)
      ensures r.Ok? ==> r.value == EntryOf(sha, parts, source, node)
    {
      if !node.File? || !node.regular {
        return Error;
      }
      var entry := EntryOf(sha, parts, source, node);
      entries := entries + [entry];
      r := Ok(entry);
    }
  }

  // ---- What the inventory of a tree records ----

  // The node at a relative path.
  function At(node: Node, path: seq<string>): Option<Node>
    decreases |path|
  {
    if path == [] then Some(node)
    else if node.File? then None
    else
      var k := IndexOf(node.children, path[0]);
      if k == |node.children| then None else At(node.children[k].node, path[1..])
  }

  function IndexOf(children: seq<Child>, name: string): (k: nat)
    ensures k <= |children|
    ensures k < |children| ==> children[k].name == name
    ensures k == |children| ==> forall i :: 0 <= i < |children| ==> children[i].name != name
  {
    if children == [] then 0
    else if children[0].name == name then 0
    else 1 + IndexOf(children[1..], name)
  }

  // The source path of a node at a relative path.
  function SourceAt(source: string, path: seq<string>): string {
    if path == [] then source else source + "/" + Join(path)
  }

  lemma DeeperSource(source: string, path: seq<string>)
    requires path != []
    ensures SourceAt(source + "/" + path[0], path[1..]) == SourceAt(source, path)
  {
  }

  // Every node of a tree is recorded: under its own path in the archive and in the
  // source, with its own metadata and, for a file, the size and digest of its content.
  lemma EntryAt(sha: bytes -> bytes, parts: seq<string>, source: string, node: Node, path: seq<string>)
    requires parts != [] && At(node, path).Some?
    ensures var n := At(node, path).value;
      Entry(Join(parts + path), if path == [] then source else source + "/" + Join(path), n.meta,
            if n.Dir? then DirectoryKind else FileKind(|n.content|, sha(n.content)))
      in Preorder(sha, parts, source, node)
  {
    NodeEntry(sha, parts, source, node, path);
  }

  lemma {:induction false} NodeEntry(
    sha: bytes -> bytes, parts: seq<string>, source: string, node: Node, path: seq<string>)
    requires parts != [] && At(node, path).Some?
    ensures EntryOf(sha, parts + path, SourceAt(source, path), At(node, path).value)
      in Preorder(sha, parts, source, node)
    decreases |path|
  {
    if path == [] {
      assert parts + path == parts;
    } else {
      var k := IndexOf(node.children, path[0]);
      assert (parts + [path[0]]) + path[1..] == parts + path;
      DeeperSource(source, path);
      NodeEntry(sha, parts + [path[0]], source + "/" + path[0], node.children[k].node, path[1..]);
      ChildEntries(sha, parts, source, node.children, k);
    }
  }

  lemma {:induction false} ChildEntries(
    sha: bytes -> bytes, parts: seq<string>, source: string, children: seq<Child>, k: nat)
    requires parts != [] && k < |children|
    ensures var child := children[k];
      forall e :: e in Preorder(sha, parts + [child.name], source + "/" + child.name, child.node) ==>
        e in PreorderAll(sha, parts, source, children)
    decreases k
  {
    if k > 0 {
      ChildEntries(sha, parts, source, children[1..], k - 1);
    }
  }

  // Nothing else is recorded: every entry is that of a node.
  lemma EntryIsOf(
    sha: bytes -> bytes, parts: seq<string>, source: string, node: Node, e: Entry) returns (path: seq<string>)
    requires parts != [] && WellFormed(node) && e in Preorder(sha, parts, source, node)
    ensures At(node, path).Some?
    ensures var n := At(node, path).value;
      e == Entry(Join(parts + path), if path == [] then source else source + "/" + Join(path), n.meta,
                 if n.Dir? then DirectoryKind else FileKind(|n.content|, sha(n.content)))
  {
    path := NodeOf(sha, parts, source, node, e);
  }

  lemma {:induction false} NodeOf(
    sha: bytes -> bytes, parts: seq<string>, source: string, node: Node, e: Entry) returns (path: seq<string>)
    requires parts != [] && WellFormed(node) && e in Preorder(sha, parts, source, node)
    ensures At(node, path).Some? && e == EntryOf(sha, parts + path, SourceAt(source, path), At(node, path).value)
    decreases node, 0
  {
    if e == Preorder(sha, parts, source, node)[0] {
      path := [];
      assert parts + path == parts;
    } else {
      path := NodeOfChild(sha, parts, source, node.children, e);
    }
  }

  lemma {:induction false} NodeOfChild(
    sha: bytes -> bytes, parts: seq<string>, source: string, children: seq<Child>, e: Entry)
      returns (path: seq<string>)
    requires parts != [] && e in PreorderAll(sha, parts, source, children)
    requires forall i :: 0 <= i < |children| ==> WellFormed(children[i].node)
    requires forall i, j :: 0 <= i < j < |children| ==> children[i].name != children[j].name
    ensures path != []
    ensures var k := IndexOf(children, path[0]);
      && k < |children| && At(children[k].node, path[1..]).Some?
      && e == EntryOf(sha, parts + path, SourceAt(source, path), At(children[k].node, path[1..]).value)
    decreases children, 1
  {
    if e in Preorder(sha, parts + [children[0].name], source + "/" + children[0].name, children[0].node) {
      var below := NodeOf(sha, parts + [children[0].name], source + "/" + children[0].name, children[0].node, e);
      path := [children[0].name] + below;
      OneDown(sha, parts, source, children[0].name, below, path, At(children[0].node, below).value);
    } else {
      path := NodeOfChild(sha, parts, source, children[1..], e);
      LaterChild(children, path[0]);
    }
  }

  lemma OneDown(
    sha: bytes -> bytes, parts: seq<string>, source: string, name: string, below: seq<string>, path: seq<string>,
    n: Node)
    requires parts != [] && path == [name] + below
    ensures path[0] == name && path[1..] == below
    ensures EntryOf(sha, parts + [name] + below, SourceAt(source + "/" + name, below), n)
      == EntryOf(sha, parts + path, SourceAt(source, path), n)
  {
    assert path[1..] == below;
    assert (parts + [name]) + below == parts + path;
    DeeperSource(source, path);
  }

  lemma LaterChild(children: seq<Child>, name: string)
    requires children != [] && IndexOf(children[1..], name) < |children[1..]|
    requires forall i :: 0 < i < |children| ==> children[0].name != children[i].name
    ensures IndexOf(children, name) == IndexOf(children[1..], name) + 1 < |children|
    ensures children[IndexOf(children, name)] == children[1..][IndexOf(children[1..], name)]
  {
    assert children[IndexOf(children[1..], name) + 1].name == name;
  }

  // A tree is regular exactly when none of its files is irregular.
  lemma {:induction false} RegularIff(node: Node)
    requires WellFormed(node)
    ensures Regular(node) <==>
      forall path :: At(node, path).Some? && At(node, path).value.File? ==> At(node, path).value.regular
    decreases node
  {
    if Regular(node) {
      forall path | At(node, path).Some? && At(node, path).value.File?
        ensures At(node, path).value.regular
      {
        RegularAt(node, path);
      }
    } else {
      var path := IrregularPath(node);
    }
  }

  lemma {:induction false} RegularAt(node: Node, path: seq<string>)
    requires Regular(node) && At(node, path).Some? && At(node, path).value.File?
    ensures At(node, path).value.regular
    decreases |path|
  {
    if path != [] {
      RegularAt(node.children[IndexOf(node.children, path[0])].node, path[1..]);
    }
  }

  lemma {:induction false} IrregularPath(node: Node) returns (path: seq<string>)
    requires WellFormed(node) && !Regular(node)
    ensures At(node, path).Some? && At(node, path).value.File? && !At(node, path).value.regular
    decreases node
  {
    if node.File? {
      path := [];
    } else {
      var i :| 0 <= i < |node.children| && !Regular(node.children[i].node);
      var below := IrregularPath(node.children[i].node);
      path := [node.children[i].name] + below;
      assert IndexOf(node.children, path[0]) == i && path[1..] == below;
    }
  }

  // The order: a directory, then its children's trees one after the other.
  lemma {:induction false} TreesInOrder(
    sha: bytes -> bytes, parts: seq<string>, source: string, a: seq<Child>, b: seq<Child>)
    requires parts != []
    ensures PreorderAll(sha, parts, source, a + b)
      == PreorderAll(sha, parts, source, a) + PreorderAll(sha, parts, source, b)
    ensures |a| == 1 ==>
      PreorderAll(sha, parts, source, a)
      == Preorder(sha, parts + [a[0].name], source + "/" + a[0].name, a[0].node)
    decreases |a|
  {
    if a == [] {
      assert a + b == b;
    } else {
      assert (a + b)[0] == a[0] && (a + b)[1..] == a[1..] + b;
      TreesInOrder(sha, parts, source, a[1..], b);
      Regroup(Preorder(sha, parts + [a[0].name], source + "/" + a[0].name, a[0].node),
              PreorderAll(sha, parts, source, a[1..]), PreorderAll(sha, parts, source, b));
    }
  }

  // ---- Shape of the inventory of a tree ----

  predicate GoodParts(parts: seq<string>) {
    parts != [] && forall p :: p in parts ==> GoodName(p)
  }

  // Every entry of a tree lies at or below the tree's own path.
  lemma {:induction false} EntriesBelow(sha: bytes -> bytes, parts: seq<string>, source: string, node: Node, e: Entry)
    requires GoodParts(parts) && WellFormed(node) && e in Preorder(sha, parts, source, node)
    ensures parts <= Split(e.archivePath) && GoodParts(Split(e.archivePath))
    ensures e != Preorder(sha, parts, source, node)[0] ==> |Split(e.archivePath)| > |parts|
    decreases node, 0
  {
    SplitJoin(parts);
    if e != Preorder(sha, parts, source, node)[0] {
      var k := EntriesBelowChild(sha, parts, source, node.children, e);
    }
  }

  lemma {:induction false} EntriesBelowChild(
    sha: bytes -> bytes, parts: seq<string>, source: string, children: seq<Child>, e: Entry) returns (k: nat)
    requires GoodParts(parts) && e in PreorderAll(sha, parts, source, children)
    requires forall i :: 0 <= i < |children| ==> GoodName(children[i].name) && WellFormed(children[i].node)
    ensures k < |children| && parts + [children[k].name] <= Split(e.archivePath) && GoodParts(Split(e.archivePath))
    decreases children, 1
  {
    var first := Preorder(sha, parts + [children[0].name], source + "/" + children[0].name, children[0].node);
    if e in first {
      EntriesBelow(sha, parts + [children[0].name], source + "/" + children[0].name, children[0].node, e);
      k := 0;
    } else {
      k := EntriesBelowChild(sha, parts, source, children[1..], e);
      k := k + 1;
    }
  }

  predicate Unique(entries: seq<Entry>) {
    forall i, j :: 0 <= i < j < |entries| ==> entries[i].archivePath != entries[j].archivePath
  }

  lemma UniqueConcat(a: seq<Entry>, b: seq<Entry>)
    requires Unique(a) && Unique(b)
    requires forall d, e :: d in a && e in b ==> d.archivePath != e.archivePath
    ensures Unique(a + b)
  {
  }

  // No path occurs twice.
  lemma {:induction false} TreeUnique(sha: bytes -> bytes, parts: seq<string>, source: string, node: Node)
    requires GoodParts(parts) && WellFormed(node)
    ensures Unique(Preorder(sha, parts, source, node))
    decreases node, 0
  {
    if node.Dir? {
      var first, below := EntryOf(sha, parts, source, node), PreorderAll(sha, parts, source, node.children);
      ChildrenUnique(sha, parts, source, node.children);
      SplitJoin(parts);
      forall e | e in below
        ensures first.archivePath != e.archivePath
      {
        var k := EntriesBelowChild(sha, parts, source, node.children, e);
      }
      UniqueConcat([first], below);
    }
  }

  lemma {:induction false} ChildrenUnique(sha: bytes -> bytes, parts: seq<string>, source: string, children: seq<Child>)
    requires GoodParts(parts)
    requires forall i :: 0 <= i < |children| ==> GoodName(children[i].name) && WellFormed(children[i].node)
    requires forall i, j :: 0 <= i < j < |children| ==> children[i].name != children[j].name
    ensures Unique(PreorderAll(sha, parts, source, children))
    decreases children, 1
  {
    if children != [] {
      var path := parts + [children[0].name];
      var first := Preorder(sha, path, source + "/" + children[0].name, children[0].node);
      var rest := PreorderAll(sha, parts, source, children[1..]);
      TreeUnique(sha, path, source + "/" + children[0].name, children[0].node);
      ChildrenUnique(sha, parts, source, children[1..]);
      forall d, e | d in first && e in rest
        ensures d.archivePath != e.archivePath
      {
        EntriesBelow(sha, path, source + "/" + children[0].name, children[0].node, d);
        var k := EntriesBelowChild(sha, parts, source, children[1..], e);
        assert Split(d.archivePath)[|parts|] == children[0].name;
        assert Split(e.archivePath)[|parts|] == children[1..][k].name;
      }
      UniqueConcat(first, rest);
    }
  }

  // Entry i is the tree's own or has its parent directory before it.
  predicate ParentBefore(entries: seq<Entry>, parts: seq<string>, i: nat)
    requires i < |entries|
  {
    var path := Split(entries[i].archivePath);
    || path == parts
    || exists j ::
         0 <= j < i && entries[j].kind.DirectoryKind? && Split(entries[j].archivePath) == path[..|path| - 1]
  }

  // Parents come before their children, so the archive can be read in order.
  lemma {:induction false} ParentsFirst(sha: bytes -> bytes, parts: seq<string>, source: string, node: Node, i: nat)
    requires GoodParts(parts) && WellFormed(node) && i < |Preorder(sha, parts, source, node)|
    ensures ParentBefore(Preorder(sha, parts, source, node), parts, i)
    decreases node, 0
  {
    SplitJoin(parts);
    if i > 0 {
      var whole := Preorder(sha, parts, source, node);
      ParentsFirstBelow(sha, parts, source, node.children, whole[0], i - 1);
      assert whole == [whole[0]] + PreorderAll(sha, parts, source, node.children);
    }
  }

  lemma {:induction false} ParentsFirstBelow(
    sha: bytes -> bytes, parts: seq<string>, source: string, children: seq<Child>, parent: Entry, i: nat)
    requires GoodParts(parts) && i < |PreorderAll(sha, parts, source, children)|
    requires forall k :: 0 <= k < |children| ==> GoodName(children[k].name) && WellFormed(children[k].node)
    requires parent.kind.DirectoryKind? && Split(parent.archivePath) == parts
    ensures ParentBefore([parent] + PreorderAll(sha, parts, source, children), parts, i + 1)
    decreases children, 1
  {
    var path := parts + [children[0].name];
    var first := Preorder(sha, path, source + "/" + children[0].name, children[0].node);
    var rest := PreorderAll(sha, parts, source, children[1..]);
    assert PreorderAll(sha, parts, source, children) == first + rest;
    if i < |first| {
      ParentsFirst(sha, path, source + "/" + children[0].name, children[0].node, i);
      ParentWithin(parent, first, rest, parts, children[0].name, i);
    } else {
      ParentsFirstBelow(sha, parts, source, children[1..], parent, i - |first|);
      ParentBeyond(parent, first, rest, parts, i - |first|);
    }
  }

  lemma ParentWithin(
    parent: Entry, first: seq<Entry>, rest: seq<Entry>, parts: seq<string>, name: string, i: nat)
    requires i < |first| && ParentBefore(first, parts + [name], i)
    requires parent.kind.DirectoryKind? && Split(parent.archivePath) == parts
    ensures ParentBefore([parent] + (first + rest), parts, i + 1)
  {
    var all, path := [parent] + (first + rest), parts + [name];
    var p := Split(first[i].archivePath);
    assert all[i + 1] == first[i] && all[0] == parent;
    if p == path {
      assert p[..|p| - 1] == parts;
    } else {
      var j :| 0 <= j < i && first[j].kind.DirectoryKind? && Split(first[j].archivePath) == p[..|p| - 1];
      assert all[j + 1] == first[j];
    }
  }

  lemma ParentBeyond(parent: Entry, first: seq<Entry>, rest: seq<Entry>, parts: seq<string>, i: nat)
    requires i < |rest| && ParentBefore([parent] + rest, parts, i + 1)
    ensures ParentBefore([parent] + (first + rest), parts, |first| + i + 1)
  {
    var all, shorter := [parent] + (first + rest), [parent] + rest;
    var p := Split(rest[i].archivePath);
    assert all[|first| + i + 1] == rest[i] && shorter[i + 1] == rest[i];
    if p != parts {
      var j :| 0 <= j < i + 1 && shorter[j].kind.DirectoryKind? && Split(shorter[j].archivePath) == p[..|p| - 1];
      assert all[if j == 0 then 0 else j + |first|] == shorter[j];
    }
  }
}
