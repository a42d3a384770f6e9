// The knowledge-base index over the repository's own names, chunks and
// declared sources, and what becomes of a document that was written.
module KbDocuments {
  import opened Bytes
  import opened Text
  import opened Paths
  import opened KbPaths
  import opened KbStorage
  import opened KbIndexer

  // Library code, and what parse_document() takes from a text: the stripped
  // body, the declared sources, and the title, tags and content type, which
  // also depend on the file's name.
  datatype Library = Library(
    lower: string -> string,
    hash: string -> string,
    body: string -> string,
    declared: string -> seq<string>,
    about: (string, FilePath) -> About)

  const MAX_CHARS: int := 1200

  // The chunks stored for a text: never none.
  function StoredChunks(lib: Library, raw: string): (pieces: seq<Chunk>)
    ensures pieces != []
  {
    var pieces := SplitChunks(lib.body(raw), MAX_CHARS);
    if pieces == [] then [Chunk("", lib.body(raw))] else pieces
  }

  // One declared source: "collection/path", or a path in the same collection.
  function SourceOf(lower: string -> string, collection: string, item: string): Option<DocId> {
    var value := TrimSlashes(Strip(item));
    var parts := Split(value);
    if value == "" then None
    else if |parts| > 1 then Some(DocumentId(lower, parts[0], Join(parts[1..])))
    else Some(DocumentId(lower, collection, value))
  }

  // What a declared source names, without the spaces and slashes at its ends: its
  // first directory is the collection if it has one.
  lemma SourceOfIs(lower: string -> string, collection: string, item: string, first: string, rest: string)
    requires '/' !in first
    ensures TrimSlashes(Strip(item)) == "" ==> SourceOf(lower, collection, item) == None
    ensures TrimSlashes(Strip(item)) == first != "" ==>
      SourceOf(lower, collection, item) == Some(DocId(Slugify(lower, collection), NormalizeParts(lower, first)))
    ensures TrimSlashes(Strip(item)) == first + "/" + rest ==>
      SourceOf(lower, collection, item) == Some(DocId(Slugify(lower, first), NormalizeParts(lower, rest)))
  {
    if TrimSlashes(Strip(item)) == first {
      SplitSlashless(first);
    } else if TrimSlashes(Strip(item)) == first + "/" + rest {
      SplitFirst(first, rest);
      JoinSplit(rest);
      assert Split(first + "/" + rest)[1..] == Split(rest);
    }
  }

  // The named documents, each once, in order of first mention.
  function Distinct(named: string -> Option<DocId>, items: seq<string>): seq<DocId> {
    if items == [] then []
    else
      var ids := Distinct(named, items[..|items| - 1]);
      var id := named(items[|items| - 1]);
      if id.None? || id.value in ids then ids else ids + [id.value]
  }

  lemma {:induction false} DistinctAre(named: string -> Option<DocId>, items: seq<string>)
    ensures forall id :: id in Distinct(named, items) <==> exists i :: 0 <= i < |items| && named(items[i]) == Some(id)
    ensures forall i, j :: 0 <= i < j < |Distinct(named, items)| ==>
      Distinct(named, items)[i] != Distinct(named, items)[j]
  {
    if items != [] {
      DistinctAre(named, items[..|items| - 1]);
    }
  }

  // What is mentioned later never comes before what was mentioned first.
  lemma {:induction false} DistinctGrows(named: string -> Option<DocId>, items: seq<string>, k: nat)
    requires k <= |items|
    ensures Distinct(named, items[..k]) <= Distinct(named, items)
    decreases |items|
  {
    if k < |items| {
      assert items[..|items| - 1][..k] == items[..k];
      DistinctGrows(named, items[..|items| - 1], k);
    } else {
      assert items[..k] == items;
    }
  }

  function SourceIds(lower: string -> string, collection: string, items: seq<string>): seq<DocId> {
    Distinct(item => SourceOf(lower, collection, item), items)
  }

  // _normalize_source_doc_ids()
  method NormalizeSourceIds(lower: string -> string, collection: string, items: seq<string>)
    returns (ids: seq<DocId>)
    ensures ids == SourceIds(lower, collection, items)
    ensures forall i, j :: 0 <= i < j < |ids| ==> ids[i] != ids[j]
    ensures forall id :: id in ids <==>
      exists i :: 0 <= i < |items| && SourceOf(lower, collection, items[i]) == Some(id)
  {
    ghost var named := item => SourceOf(lower, collection, item);
    ids := [];
    var i := 0;
    while i < |items|
      invariant 0 <= i <= |items|
      invariant ids == Distinct(named, items[..i])
    {
      assert items[..i + 1][..i] == items[..i];
      var id := SourceOf(lower, collection, items[i]);
      if id.Some? && id.value !in ids {
        ids := ids + [id.value];
      }
      i := i + 1;
    }
    assert items[..i] == items;
    DistinctAre(named, items);
  }

  function KbReader(lib: Library): Reader {
    Reader(
      s => Slugify(lib.lower, s),
      s => NormalizeParts(lib.lower, s),
      file => IsDocumentName(lib.lower, file),
      file => IdOfFile(lib.lower, file),
      lib.hash,
      raw => StoredChunks(lib, raw),
      (collection, raw) => SourceIds(lib.lower, collection, lib.declared(raw)),
      lib.about)
  }

  // The suffixes of documents, in any case.
  lemma DocumentNames(lower: string -> string, folder: FilePath, stem: string, extension: string)
    requires '.' !in extension
    ensures IsDocumentName(lower, folder + [stem + "." + extension]) <==>
      lower(if stem != "" && extension != "" then "." + extension else "") in {".md", ".txt"}
  {
    var file := folder + [stem + "." + extension];
    assert file[|file| - 1] == stem + "." + extension;
    StemIs(stem, extension);
  }

  predicate IsDocumentName(lower: string -> string, file: FilePath) {
    file != [] && lower(Suffix(file[|file| - 1])) in {".md", ".txt"}
  }

  lemma KbReaderWellNamed(lib: Library)
    requires LowerKeeps(lib.lower)
    ensures WellNamed(KbReader(lib))
  {
    var reader := KbReader(lib);
    forall file: FilePath | reader.idOf(file).Some?
      ensures |file| >= 2 && reader.idOf(file).value.collection == reader.slug(file[0])
      ensures reader.slug(reader.slug(file[0])) == reader.slug(file[0])
    {
      SlugifyIdempotent(lib.lower, file[0]);
    }
  }

  // The file of a written document is one that a sync reads into that document.
  lemma WrittenIsRead(lib: Library, disk: Disk, collection: string, path: string, suffix: string, stored: string)
    requires LowerKeeps(lib.lower) && suffix in {".md", ".txt"}
    requires TargetFile(KbReader(lib), collection, path, suffix).Some?
    requires Written(disk, TargetFile(KbReader(lib), collection, path, suffix).value, stored).Some?
    ensures var reader := KbReader(lib);
      var file := TargetFile(reader, collection, path, suffix).value;
      var after := Written(disk, file, stored).value;
      && Read(reader, after, None, file, DocumentId(lib.lower, collection, path))
      && after[file] == TextFile(stored)
  {
    var reader := KbReader(lib);
    var file := TargetFile(reader, collection, path, suffix).value;
    assert Some(file) == FileOfId(lib.lower, collection, path, suffix);
    FileIdRoundTrip(lib.lower, collection, path, suffix);
    WrittenName(lib.lower, collection, path, suffix);
  }

  lemma WrittenName(lower: string -> string, collection: string, path: string, suffix: string)
    requires LowerKeeps(lower) && suffix in {".md", ".txt"}
    requires FileOfId(lower, collection, path, suffix).Some?
    ensures var file := FileOfId(lower, collection, path, suffix).value;
      |file| >= 2 && IsDocumentName(lower, file)
  {
    var parts := NormalizeParts(lower, path);
    NormalizedAreSlugs(lower, path);
    assert parts[|parts| - 1] in parts;
    StemOfSlug(parts[|parts| - 1], suffix);
    SuffixIsLower(lower, suffix);
  }

  lemma SuffixIsLower(lower: string -> string, suffix: string)
    requires LowerKeeps(lower) && suffix in {".md", ".txt"}
    ensures lower(suffix) == suffix
  {
    assert forall c :: c in suffix ==> Alnum(c) || c == '-' || c == '.';
  }

  // get_document() finds a written document with its text as it is read back,
  // which is the stored text exactly when that has no carriage return. The next
  // sync keeps this text exactly when the last listed file of the same id reads
  // the same, as is so when no sibling file shares the id.
  lemma WriteThenGet(
    lib: Library, t: Tables, disk: Disk, collection: string, path: string, suffix: string, stored: string, now: int,
    paths: seq<FilePath>, clock: FilePath -> int)
    requires LowerKeeps(lib.lower) && suffix in {".md", ".txt"}
    requires Consistent(KbReader(lib), t) && HashInjective(KbReader(lib))
    requires TargetFile(KbReader(lib), collection, path, suffix).Some?
    requires Written(disk, TargetFile(KbReader(lib), collection, path, suffix).value, stored).Some?
    requires Lists(paths, Written(disk, TargetFile(KbReader(lib), collection, path, suffix).value, stored).value)
    ensures var reader := KbReader(lib);
      var id := DocumentId(lib.lower, collection, path);
      var file := TargetFile(reader, collection, path, suffix).value;
      var after := Written(disk, file, stored).value;
      var u := AfterFile(reader, t, after, file, now);
      var v := AfterSync(reader, after, None, u, paths, clock);
      && HoldsText(u.documents, id, AsRead(stored))
      && (u.documents[id].body == stored <==> '\r' !in stored)
      && id in v.documents
      && (v.documents[id].body == AsRead(stored) <==> LastText(reader, after, None, paths, id) == Some(AsRead(stored)))
      && ((forall other :: Read(reader, after, None, other, id) ==> other == file) ==>
            v.documents[id].body == AsRead(stored))
  {
    var reader := KbReader(lib);
    var id := DocumentId(lib.lower, collection, path);
    var file := TargetFile(reader, collection, path, suffix).value;
    var after := Written(disk, file, stored).value;
    WrittenIsRead(lib, disk, collection, path, suffix, stored);
    AsReadKeeps(stored);
    var u := AfterFile(reader, t, after, file, now);
    AfterFileDocuments(reader, t, after, file, id, now);
    AfterFileConsistent(reader, t, after, file, now);
    SyncAgrees(reader, after, None, u, paths, clock, id);
    LastTextExists(reader, after, None, paths, id);
    if forall other :: Read(reader, after, None, other, id) ==> other == file {
      OnlyText(reader, after, None, paths, id, file);
    }
  }

  // What the index takes from a text and a name: its chunks, of at most 1200
  // characters where the limit can be kept, the documents it declares as sources,
  // and everything else as the library code gives it.
  lemma PiecesAre(lib: Library, text: string)
    ensures var pieces := SplitChunks(lib.body(text), 1200);
      KbReader(lib).pieces(text) == if pieces == [] then [Chunk("", lib.body(text))] else pieces
  {
  }

  lemma ReaderIs(lib: Library, name: string, file: FilePath)
    ensures var reader := KbReader(lib);
      && reader.slug(name) == Slugify(lib.lower, name) && reader.parts(name) == NormalizeParts(lib.lower, name)
      && reader.supported(file) == IsDocumentName(lib.lower, file) && reader.idOf(file) == IdOfFile(lib.lower, file)
      && reader.hash(name) == lib.hash(name) && reader.about(name, file) == lib.about(name, file)
  {
  }

  lemma SourcesAre(lib: Library, collection: string, text: string, source: DocId)
    ensures source in KbReader(lib).sources(collection, text) <==>
      exists item :: item in lib.declared(text) && SourceOf(lib.lower, collection, item) == Some(source)
  {
    var items := lib.declared(text);
    DistinctAre(item => SourceOf(lib.lower, collection, item), items);
    assert forall item :: item in items <==> exists i :: 0 <= i < |items| && items[i] == item;
  }

  // render_document_frontmatter(), for a body that is not empty and does not begin
  // with a newline.
  function Rendered(front: string, body: string): string
    requires body != ""
  {
    "---\n" + front + "\n---\n" + "\n" + body
  }

  // Any document written with a carriage return in its body is found without it,
  // below the same front matter.
  lemma CarriageReturnLost(
    lib: Library, t: Tables, disk: Disk, collection: string, path: string, suffix: string, front: string, now: int)
    requires LowerKeeps(lib.lower) && suffix in {".md", ".txt"} && '\r' !in front
    requires Consistent(KbReader(lib), t) && HashInjective(KbReader(lib))
    requires TargetFile(KbReader(lib), collection, path, suffix).Some?
    requires var file := TargetFile(KbReader(lib), collection, path, suffix).value;
      Written(disk, file, Rendered(front, "a\r\nb")).Some?
    ensures var reader := KbReader(lib);
      var file := TargetFile(reader, collection, path, suffix).value;
      var u := AfterFile(reader, t, Written(disk, file, Rendered(front, "a\r\nb")).value, file, now);
      HoldsText(u.documents, DocumentId(lib.lower, collection, path), Rendered(front, "a\nb"))
    ensures Rendered(front, "a\nb") != Rendered(front, "a\r\nb")
  {
    var file, stored := TargetFile(KbReader(lib), collection, path, suffix).value, Rendered(front, "a\r\nb");
    var after := Written(disk, file, stored).value;
    WrittenIsRead(lib, disk, collection, path, suffix, stored);
    AfterFileDocuments(KbReader(lib), t, after, file, DocumentId(lib.lower, collection, path), now);
    ReadAcrossLines(front);
  }

  lemma ReadAcrossLines(front: string)
    requires '\r' !in front
    ensures AsRead(Rendered(front, "a\r\nb")) == Rendered(front, "a\nb") != Rendered(front, "a\r\nb")
  {
    var head, s := "---\n" + front + "\n---\n" + "\n", "a\r\nb";
    assert Rendered(front, s) == head + s && Rendered(front, "a\nb") == head + "a\nb";
    assert forall c :: c in head ==> c in "---\n" || c in front || c in "\n---\n" || c in "\n";
    AsReadConcat(head, s);
    assert s[1..][2..] == "b" && AsRead("b") == "b";
    assert AsRead(s[1..]) == "\n" + AsRead("b");
    assert |head + "a\nb"| != |head + s|;
  }

  // A write that raised leaves the document to the next sync: it then holds
  // what reached the disk, when no sibling file shares its id.
  lemma CutWriteIsSynced(
    lib: Library, t: Tables, disk: Disk, collection: string, path: string, suffix: string, stored: string, n: nat,
    paths: seq<FilePath>, clock: FilePath -> int)
    requires LowerKeeps(lib.lower) && suffix in {".md", ".txt"}
    requires Consistent(KbReader(lib), t) && HashInjective(KbReader(lib))
    requires TargetFile(KbReader(lib), collection, path, suffix).Some?
    requires var file := TargetFile(KbReader(lib), collection, path, suffix).value;
      Written(disk, file, Begun(stored, n)).Some? && Lists(paths, Written(disk, file, Begun(stored, n)).value)
    requires var file := TargetFile(KbReader(lib), collection, path, suffix).value;
      var id := DocumentId(lib.lower, collection, path);
      var after := Written(disk, file, Begun(stored, n)).value;
      forall other :: Read(KbReader(lib), after, None, other, id) ==> other == file
    ensures var reader := KbReader(lib);
      var after := Written(disk, TargetFile(reader, collection, path, suffix).value, Begun(stored, n)).value;
      HoldsText(AfterSync(reader, after, None, t, paths, clock).documents, DocumentId(lib.lower, collection, path),
                AsRead(Begun(stored, n)))
  {
    var reader, id := KbReader(lib), DocumentId(lib.lower, collection, path);
    var file := TargetFile(reader, collection, path, suffix).value;
    var after := Written(disk, file, Begun(stored, n)).value;
    WrittenIsRead(lib, disk, collection, path, suffix, Begun(stored, n));
    SyncAgrees(reader, after, None, t, paths, clock, id);
    LastTextExists(reader, after, None, paths, id);
    OnlyText(reader, after, None, paths, id, file);
  }

  lemma {:induction false} OnlyText(
    reader: Reader, disk: Disk, filter: Option<string>, paths: seq<FilePath>, id: DocId, file: FilePath)
    requires forall other :: Read(reader, disk, filter, other, id) ==> other == file
    ensures var text := LastText(reader, disk, filter, paths, id);
      text.Some? ==> Read(reader, disk, filter, file, id) && text.value == ReadText(disk[file])
  {
    if paths != [] {
      OnlyText(reader, disk, filter, paths[..|paths| - 1], id, file);
    }
  }

  // An index over the repository's own reader only ever holds documents under
  // normalised ids, so different documents never share a key.
  lemma KeysAreNormalised(lib: Library, t: Tables, a: DocId, b: DocId)
    requires Consistent(KbReader(lib), t) && a in t.documents && b in t.documents
    ensures a.Text() == b.Text() <==> a == b
  {
    NormalKey(lib, t, a);
    NormalKey(lib, t, b);
    if a.Text() == b.Text() {
      IdTextInjective(a, b);
    }
  }

  lemma NormalKey(lib: Library, t: Tables, id: DocId)
    requires Consistent(KbReader(lib), t) && id in t.documents
    ensures IsSlug(id.collection) && SlugParts(id.path)
  {
    var file := t.documents[id].source;
    assert RowSound(KbReader(lib), id, t.documents[id]);
    assert IdOfFile(lib.lower, file) == Some(id);
    SlugifyIsSlug(lib.lower, file[0]);
    NormalizedAreSlugs(lib.lower, Join(file[1..|file| - 1] + [Stem(file[|file| - 1])]));
  }
}
