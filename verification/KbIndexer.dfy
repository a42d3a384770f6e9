// kb/indexer.py: the tables of the knowledge-base index, the operations that
// change them, and their agreement with the files on disk.
module KbIndexer {
  import opened Bytes
  import opened Text
  import opened KbPaths
  import opened KbStorage

  // ---- Files, and what is read from them ----

  // What stands at a path below the documents root: a file with its decoded
  // characters, as written, or a directory.
  datatype Node = TextFile(content: string) | Folder

  // What sync_file() gets to see of a file.
  function ReadText(node: Node): string
    requires node.TextFile?
  {
    AsRead(node.content)
  }

  type Disk = map<FilePath, Node>

  datatype About = About(title: string, tags: seq<string>, contentType: string)

  // What is derived from names and texts: the collection slug, the normalised
  // document path, whether a file is a document, which document it belongs to,
  // the content hash, the stored chunks, the declared sources (within a
  // collection), and the rest of the row, which also depends on the file's name.
  datatype Reader = Reader(
    slug: string -> string,
    parts: string -> seq<string>,
    supported: FilePath -> bool,
    idOf: FilePath -> Option<DocId>,
    hash: string -> string,
    pieces: string -> seq<Chunk>,
    sources: (string, string) -> seq<DocId>,
    about: (string, FilePath) -> About)

  // A document's collection is the slug of its file's first directory.
  ghost predicate WellNamed(reader: Reader) {
    forall file: FilePath :: reader.idOf(file).Some? ==>
      && |file| >= 2
      && reader.idOf(file).value.collection == reader.slug(file[0])
      && reader.slug(reader.slug(file[0])) == reader.slug(file[0])
  }

  ghost predicate HashInjective(reader: Reader) {
    forall a, b :: reader.hash(a) == reader.hash(b) ==> a == b
  }

  // ---- Tables ----

  datatype Row = Row(source: FilePath, body: string, hash: string, about: About, created: int, updated: int)

  datatype ChunkRow = ChunkRow(doc: DocId, ordinal: nat, chunk: Chunk)

  datatype FtsRow = FtsRow(doc: DocId, about: About, chunk: Chunk)

  datatype Link = Link(source: DocId, target: DocId)

  // `next` is the AUTOINCREMENT counter: chunk ids are never given out twice.
  datatype Tables = Tables(
    documents: map<DocId, Row>,
    chunks: map<nat, ChunkRow>,
    fts: map<nat, FtsRow>,
    links: set<Link>,
    next: nat)

  // A row agrees with its own source file's name and with its own text.
  predicate RowSound(reader: Reader, id: DocId, row: Row) {
    && reader.idOf(row.source) == Some(id)
    && row.hash == reader.hash(row.body)
    && row.about == reader.about(row.body, row.source)
  }

  predicate RowsSound(reader: Reader, documents: map<DocId, Row>) {
    forall id <- documents :: RowSound(reader, id, documents[id])
  }

  // A chunk row is the piece of its document's text that its ordinal says, and
  // the search row of the same id repeats it.
  predicate ChunkSound(reader: Reader, documents: map<DocId, Row>, chunk: ChunkRow, fts: FtsRow) {
    && chunk.doc in documents
    && chunk.ordinal < |reader.pieces(documents[chunk.doc].body)|
    && chunk.chunk == reader.pieces(documents[chunk.doc].body)[chunk.ordinal]
    && fts == FtsRow(chunk.doc, documents[chunk.doc].about, chunk.chunk)
  }

  predicate ChunksSound(reader: Reader, t: Tables) {
    && t.chunks.Keys == t.fts.Keys
    && forall c <- t.chunks :: c < t.next && ChunkSound(reader, t.documents, t.chunks[c], t.fts[c])
  }

  predicate OrdinalsUnique(t: Tables) {
    forall c, d | c in t.chunks && d in t.chunks ::
      t.chunks[c].doc == t.chunks[d].doc && t.chunks[c].ordinal == t.chunks[d].ordinal ==> c == d
  }

  predicate HasOrdinal(chunks: map<nat, ChunkRow>, id: DocId, k: nat) {
    exists c :: c in chunks && chunks[c].doc == id && chunks[c].ordinal == k
  }

  predicate OrdinalsComplete(reader: Reader, t: Tables) {
    forall id, k: nat | id in t.documents && k < |reader.pieces(t.documents[id].body)| :: HasOrdinal(t.chunks, id, k)
  }

  predicate LinksSound(reader: Reader, t: Tables) {
    forall l <- t.links ::
      l.target in t.documents && l.source in reader.sources(l.target.collection, t.documents[l.target].body)
  }

  predicate Consistent(reader: Reader, t: Tables) {
    && RowsSound(reader, t.documents)
    && ChunksSound(reader, t)
    && OrdinalsUnique(t)
    && OrdinalsComplete(reader, t)
    && LinksSound(reader, t)
  }

  const EMPTY: Tables := Tables(map[], map[], map[], {}, 1)

  // ---- _delete_doc_rows(), for any number of documents ----

  function Without(t: Tables, gone: set<DocId>): Tables {
    Tables(
      map id | id in t.documents && id !in gone :: t.documents[id],
      map c | c in t.chunks && t.chunks[c].doc !in gone :: t.chunks[c],
      map c | c in t.fts && !(c in t.chunks && t.chunks[c].doc in gone) :: t.fts[c],
      (set l | l in t.links && l.source !in gone && l.target !in gone),
      t.next)
  }

  lemma WithoutTwice(t: Tables, a: set<DocId>, b: set<DocId>)
    ensures Without(Without(t, a), b) == Without(t, a + b)
  {
    var u, v := Without(Without(t, a), b), Without(t, a + b);
    assert u.documents == v.documents;
    assert u.chunks == v.chunks;
    assert u.fts == v.fts;
    assert u.links == v.links;
  }

  lemma WithoutNone(t: Tables)
    ensures Without(t, {}) == t
  {
    var u := Without(t, {});
    assert u.documents == t.documents;
    assert u.chunks == t.chunks;
    assert u.fts == t.fts;
  }

  // Exactly the rows of these documents go, from all four tables: a search row
  // goes with its chunk because both are the same document's.
  lemma WithoutIs(reader: Reader, t: Tables, gone: set<DocId>, id: DocId, c: nat, l: Link)
    requires ChunksSound(reader, t)
    ensures var u := Without(t, gone);
      && (id in u.documents <==> id in t.documents && id !in gone)
      && (id in u.documents ==> u.documents[id] == t.documents[id])
      && (c in u.chunks <==> c in t.chunks && t.chunks[c].doc !in gone)
      && (c in u.chunks ==> u.chunks[c] == t.chunks[c])
      && (c in u.fts <==> c in t.fts && t.fts[c].doc !in gone)
      && (c in u.fts ==> u.fts[c] == t.fts[c])
      && (l in u.links <==> l in t.links && l.source !in gone && l.target !in gone)
      && u.next == t.next
  {
    if c in t.chunks {
      assert ChunkSound(reader, t.documents, t.chunks[c], t.fts[c]);
    }
  }

  lemma WithoutConsistent(reader: Reader, t: Tables, gone: set<DocId>)
    requires Consistent(reader, t)
    ensures Consistent(reader, Without(t, gone))
  {
    WithoutChunksSound(reader, t, gone);
    WithoutComplete(reader, t, gone);
  }

  lemma WithoutChunksSound(reader: Reader, t: Tables, gone: set<DocId>)
    requires ChunksSound(reader, t)
    ensures ChunksSound(reader, Without(t, gone))
  {
    var u := Without(t, gone);
    forall c | c in u.chunks
      ensures c < u.next && c in u.fts && ChunkSound(reader, u.documents, u.chunks[c], u.fts[c])
    {
      assert c in t.chunks && ChunkSound(reader, t.documents, t.chunks[c], t.fts[c]);
    }
  }

  lemma WithoutComplete(reader: Reader, t: Tables, gone: set<DocId>)
    requires OrdinalsComplete(reader, t)
    ensures OrdinalsComplete(reader, Without(t, gone))
  {
    var u := Without(t, gone);
    forall id, k: nat | id in u.documents && k < |reader.pieces(u.documents[id].body)|
      ensures HasOrdinal(u.chunks, id, k)
    {
      assert HasOrdinal(t.chunks, id, k);
      var c :| c in t.chunks && t.chunks[c].doc == id && t.chunks[c].ordinal == k;
      assert c in u.chunks && u.chunks[c] == t.chunks[c];
    }
  }

  // ---- _insert_chunks() and _refresh_document_links() ----

  function WithChunk(t: Tables, id: DocId, about: About, ordinal: nat, piece: Chunk): Tables {
    t.(chunks := t.chunks[t.next := ChunkRow(id, ordinal, piece)],
       fts := t.fts[t.next := FtsRow(id, about, piece)],
       next := t.next + 1)
  }

  // Fresh ids, ordinals from 0.
  function WithChunks(t: Tables, id: DocId, about: About, pieces: seq<Chunk>): (u: Tables)
    ensures u.documents == t.documents && u.links == t.links && u.next == t.next + |pieces|
  {
    if pieces == [] then t
    else
      var last := |pieces| - 1;
      WithChunk(WithChunks(t, id, about, pieces[..last]), id, about, last, pieces[last])
  }

  predicate Fresh(first: nat, count: nat, c: nat) {
    first <= c < first + count
  }

  // Where the inserted chunks are, and that nothing else moved.
  lemma {:induction false} WithChunksAt(t: Tables, id: DocId, about: About, pieces: seq<Chunk>, c: nat)
    requires t.chunks.Keys == t.fts.Keys && (c in t.chunks ==> c < t.next)
    ensures var u := WithChunks(t, id, about, pieces);
      && u.chunks.Keys == u.fts.Keys
      && (c in u.chunks <==> c in t.chunks || Fresh(t.next, |pieces|, c))
      && (c in t.chunks ==> u.chunks[c] == t.chunks[c] && u.fts[c] == t.fts[c])
      && (Fresh(t.next, |pieces|, c) ==>
            && u.chunks[c] == ChunkRow(id, c - t.next, pieces[c - t.next])
            && u.fts[c] == FtsRow(id, about, pieces[c - t.next]))
  {
    if pieces != [] {
      WithChunksAt(t, id, about, pieces[..|pieces| - 1], c);
    }
  }

  function WithLinks(t: Tables, id: DocId, sources: seq<DocId>): Tables {
    t.(links := (set l | l in t.links && l.target != id) + set s | s in sources :: Link(s, id))
  }

  function Added(reader: Reader, t: Tables, id: DocId, row: Row): Tables {
    var inserted := t.(documents := t.documents[id := row]);
    var chunked := WithChunks(inserted, id, row.about, reader.pieces(row.body));
    WithLinks(chunked, id, reader.sources(id.collection, row.body))
  }

  lemma AddedConsistent(reader: Reader, t: Tables, id: DocId, row: Row)
    requires Consistent(reader, t) && id !in t.documents && RowSound(reader, id, row)
    ensures Consistent(reader, Added(reader, t, id, row))
  {
    AddedChunksSound(reader, t, id, row);
    AddedUnique(reader, t, id, row);
    AddedComplete(reader, t, id, row);
    AddedLinksSound(reader, t, id, row);
  }

  lemma AddedLinksSound(reader: Reader, t: Tables, id: DocId, row: Row)
    requires LinksSound(reader, t)
    ensures LinksSound(reader, Added(reader, t, id, row))
  {
    var u := Added(reader, t, id, row);
    forall l | l in u.links
      ensures l.target in u.documents && l.source in reader.sources(l.target.collection, u.documents[l.target].body)
    {
      if l.target != id {
        assert l in t.links;
      }
    }
  }

  lemma AddedChunk(reader: Reader, t: Tables, id: DocId, row: Row, c: nat)
    requires ChunksSound(reader, t)
    ensures var u, pieces := Added(reader, t, id, row), reader.pieces(row.body);
      && u.documents == t.documents[id := row] && u.next == t.next + |pieces|
      && u.chunks.Keys == u.fts.Keys
      && (c in u.chunks <==> c in t.chunks || Fresh(t.next, |pieces|, c))
      && (c in t.chunks ==> c < t.next && u.chunks[c] == t.chunks[c] && u.fts[c] == t.fts[c])
      && (Fresh(t.next, |pieces|, c) ==>
            && u.chunks[c] == ChunkRow(id, c - t.next, pieces[c - t.next])
            && u.fts[c] == FtsRow(id, row.about, pieces[c - t.next]))
  {
    WithChunksAt(t.(documents := t.documents[id := row]), id, row.about, reader.pieces(row.body), c);
  }

  lemma AddedChunksSound(reader: Reader, t: Tables, id: DocId, row: Row)
    requires ChunksSound(reader, t) && id !in t.documents
    ensures ChunksSound(reader, Added(reader, t, id, row))
  {
    var u := Added(reader, t, id, row);
    forall c: nat
      ensures c in u.chunks <==> c in u.fts
      ensures c in u.chunks ==> c < u.next && ChunkSound(reader, u.documents, u.chunks[c], u.fts[c])
    {
      AddedChunk(reader, t, id, row, c);
      if c in t.chunks {
        assert ChunkSound(reader, t.documents, t.chunks[c], t.fts[c]);
      }
    }
    assert u.chunks.Keys == u.fts.Keys;
  }

  lemma AddedUnique(reader: Reader, t: Tables, id: DocId, row: Row)
    requires ChunksSound(reader, t) && OrdinalsUnique(t) && id !in t.documents
    ensures OrdinalsUnique(Added(reader, t, id, row))
  {
    var u := Added(reader, t, id, row);
    forall c, d | c in u.chunks && d in u.chunks
               && u.chunks[c].doc == u.chunks[d].doc && u.chunks[c].ordinal == u.chunks[d].ordinal
      ensures c == d
    {
      AddedChunk(reader, t, id, row, c);
      AddedChunk(reader, t, id, row, d);
      if c in t.chunks {
        assert ChunkSound(reader, t.documents, t.chunks[c], t.fts[c]);
      }
      if d in t.chunks {
        assert ChunkSound(reader, t.documents, t.chunks[d], t.fts[d]);
      }
    }
  }

  lemma AddedComplete(reader: Reader, t: Tables, id: DocId, row: Row)
    requires ChunksSound(reader, t) && OrdinalsComplete(reader, t)
    ensures OrdinalsComplete(reader, Added(reader, t, id, row))
  {
    var u := Added(reader, t, id, row);
    forall d, k: nat | d in u.documents && k < |reader.pieces(u.documents[d].body)|
      ensures HasOrdinal(u.chunks, d, k)
    {
      assert u.documents == t.documents[id := row];
      if d == id {
        AddedChunk(reader, t, id, row, t.next + k);
        assert u.chunks[t.next + k].ordinal == k;
      } else {
        assert HasOrdinal(t.chunks, d, k);
        var c :| c in t.chunks && t.chunks[c].doc == d && t.chunks[c].ordinal == k;
        AddedChunk(reader, t, id, row, c);
        assert c in u.chunks && u.chunks[c] == t.chunks[c];
      }
    }
  }

  // ---- sync_file() ----

  datatype Action = Missing | Ignored | Failed | Unchanged(id: DocId) | Created(id: DocId) | Updated(id: DocId)

  // Failed: reading a directory as a text raises.
  function FileAction(reader: Reader, t: Tables, disk: Disk, file: FilePath): Action {
    if file !in disk then Missing
    else
      match reader.idOf(file)
      case None => Ignored
      case Some(id) =>
        if disk[file] == Folder then Failed
        else if id !in t.documents then Created(id)
        else if t.documents[id].hash == reader.hash(ReadText(disk[file])) then Unchanged(id)
        else Updated(id)
  }

  function RowOf(reader: Reader, t: Tables, id: DocId, file: FilePath, raw: string, now: int): Row {
    var created := if id in t.documents then t.documents[id].created else now;
    Row(file, raw, reader.hash(raw), reader.about(raw, file), created, now)
  }

  function AfterFile(reader: Reader, t: Tables, disk: Disk, file: FilePath, now: int): Tables {
    match FileAction(reader, t, disk, file)
    case Created(id) => Added(reader, t, id, RowOf(reader, t, id, file, ReadText(disk[file]), now))
    case Updated(id) => Added(reader, Without(t, {id}), id, RowOf(reader, t, id, file, ReadText(disk[file]), now))
    case _ => t
  }

  lemma AfterFileConsistent(reader: Reader, t: Tables, disk: Disk, file: FilePath, now: int)
    requires Consistent(reader, t)
    ensures Consistent(reader, AfterFile(reader, t, disk, file, now))
  {
    match FileAction(reader, t, disk, file)
    case Created(id) =>
      AddedConsistent(reader, t, id, RowOf(reader, t, id, file, ReadText(disk[file]), now));
    case Updated(id) =>
      WithoutConsistent(reader, t, {id});
      AddedConsistent(reader, Without(t, {id}), id, RowOf(reader, t, id, file, ReadText(disk[file]), now));
    case _ =>
  }

  // What sync_file() answers, decided by the file, its name and the stored hash.
  lemma FileActionIs(reader: Reader, t: Tables, disk: Disk, file: FilePath, id: DocId)
    ensures var action := FileAction(reader, t, disk, file);
      && (action == Missing <==> file !in disk)
      && (action == Ignored <==> file in disk && reader.idOf(file) == None)
      && (action == Failed <==> file in disk && reader.idOf(file) != None && disk[file] == Folder)
    ensures var action := FileAction(reader, t, disk, file);
      var readable := file in disk && disk[file].TextFile? && reader.idOf(file) == Some(id);
      && (action == Created(id) <==> readable && id !in t.documents)
      && (action == Unchanged(id) <==>
            readable && id in t.documents && t.documents[id].hash == reader.hash(AsRead(disk[file].content)))
      && (action == Updated(id) <==>
            readable && id in t.documents && t.documents[id].hash != reader.hash(AsRead(disk[file].content)))
  {
  }

  // The row of a document that was created or updated, in full; no other changes.
  lemma AfterFileRow(reader: Reader, t: Tables, disk: Disk, file: FilePath, id: DocId, now: int)
    requires FileAction(reader, t, disk, file) in {Created(id), Updated(id)}
    ensures file in disk && disk[file].TextFile?
    ensures var text := AsRead(disk[file].content);
      AfterFile(reader, t, disk, file, now).documents
      == t.documents[id := Row(file, text, reader.hash(text), reader.about(text, file),
                               if id in t.documents then t.documents[id].created else now, now)]
  {
    assert Without(t, {id}).documents == t.documents - {id};
  }

  // Its links: one from every source it declares. Links to other documents stay,
  // but an update drops those that came from it.
  lemma AfterFileLinks(
    reader: Reader, t: Tables, disk: Disk, file: FilePath, id: DocId, now: int, source: DocId, l: Link)
    requires FileAction(reader, t, disk, file) in {Created(id), Updated(id)}
    ensures file in disk && disk[file].TextFile?
    ensures var u := AfterFile(reader, t, disk, file, now);
      && (Link(source, id) in u.links <==> source in reader.sources(id.collection, AsRead(disk[file].content)))
      && (l.target != id ==>
            (l in u.links <==> l in t.links && (FileAction(reader, t, disk, file) == Updated(id) ==> l.source != id)))
  {
  }

  // Its chunks: fresh ids in order, each with its ordinal, its search row and the
  // document's title, tags and type. The chunks of other documents stay.
  lemma AfterFileChunks(reader: Reader, t: Tables, disk: Disk, file: FilePath, id: DocId, now: int, c: nat)
    requires Consistent(reader, t) && FileAction(reader, t, disk, file) in {Created(id), Updated(id)}
    ensures file in disk && disk[file].TextFile?
    ensures var u, text := AfterFile(reader, t, disk, file, now), AsRead(disk[file].content);
      var n := |reader.pieces(text)|;
      && u.next == t.next + n
      && (c in u.chunks <==> c in u.fts)
      && (c in u.chunks <==> (c in t.chunks && t.chunks[c].doc != id) || t.next <= c < t.next + n)
      && (c in u.chunks && c < t.next ==> u.chunks[c] == t.chunks[c] && u.fts[c] == t.fts[c])
      && (t.next <= c < t.next + n ==>
            && u.chunks[c] == ChunkRow(id, c - t.next, reader.pieces(text)[c - t.next])
            && u.fts[c] == FtsRow(id, reader.about(text, file), reader.pieces(text)[c - t.next]))
  {
    var row := RowOf(reader, t, id, file, ReadText(disk[file]), now);
    assert AfterFile(reader, t, disk, file, now) == Added(reader, Cleared(t, id), id, row);
    ClearedChunk(reader, t, id, c);
    AddedChunk(reader, Cleared(t, id), id, row, c);
  }

  // The index before the document's rows are inserted.
  function Cleared(t: Tables, id: DocId): Tables {
    if id in t.documents then Without(t, {id}) else t
  }

  lemma ClearedChunk(reader: Reader, t: Tables, id: DocId, c: nat)
    requires ChunksSound(reader, t)
    ensures var u := Cleared(t, id);
      && ChunksSound(reader, u) && u.next == t.next
      && (c in u.chunks <==> c in t.chunks && t.chunks[c].doc != id)
      && (c in t.chunks ==> c < t.next)
      && (c in u.chunks ==> c in t.fts && c in u.fts && u.chunks[c] == t.chunks[c] && u.fts[c] == t.fts[c])
  {
    WithoutChunksSound(reader, t, {id});
    if c in t.chunks {
      assert ChunkSound(reader, t.documents, t.chunks[c], t.fts[c]);
    }
  }

  // Any other answer leaves the index as it was.
  lemma AfterFileNothing(reader: Reader, t: Tables, disk: Disk, file: FilePath, now: int)
    requires var action := FileAction(reader, t, disk, file); !action.Created? && !action.Updated?
    ensures AfterFile(reader, t, disk, file, now) == t
  {
  }

  // sync_file() reads this file into this document.
  predicate Feeds(reader: Reader, disk: Disk, file: FilePath, id: DocId) {
    file in disk && disk[file].TextFile? && reader.idOf(file) == Some(id)
  }

  // A file that is read leaves its document with exactly its text and its
  // creation time, and every other document as it was; the same text again
  // changes nothing.
  lemma AfterFileDocuments(reader: Reader, t: Tables, disk: Disk, file: FilePath, id: DocId, now: int)
    requires Consistent(reader, t) && HashInjective(reader) && Feeds(reader, disk, file, id)
    ensures var u := AfterFile(reader, t, disk, file, now);
      && id in u.documents && u.documents[id].body == ReadText(disk[file])
      && (forall d | d != id :: d in u.documents <==> d in t.documents)
      && (forall d | d != id && d in t.documents :: u.documents[d] == t.documents[d])
      && u.documents[id].created == (if id in t.documents then t.documents[id].created else now)
      && (id in t.documents && t.documents[id].body == ReadText(disk[file]) ==> u == t)
  {
    if FileAction(reader, t, disk, file).Unchanged? {
      assert RowSound(reader, id, t.documents[id]);
    }
  }

  // ---- sync_from_disk() ----

  datatype Counts = Counts(created: nat, updated: nat, same: nat, deleted: nat, ignored: nat)

  const NO_COUNTS: Counts := Counts(0, 0, 0, 0, 0)

  // Missing and Failed do not occur: only regular files are synced.
  function Counted(counts: Counts, action: Action): Counts {
    match action
    case Created(_) => counts.(created := counts.created + 1)
    case Updated(_) => counts.(updated := counts.updated + 1)
    case Unchanged(_) => counts.(same := counts.same + 1)
    case Ignored => counts.(ignored := counts.ignored + 1)
    case Missing | Failed => counts
  }

  function IdSeen(action: Action): set<DocId> {
    match action
    case Created(id) => {id}
    case Updated(id) => {id}
    case Unchanged(id) => {id}
    case _ => {}
  }

  // The collection filter; None and "" select everything.
  predicate InScope(reader: Reader, filter: Option<string>, name: string) {
    match filter
    case None => true
    case Some(collection) => collection == "" || reader.slug(name) == reader.slug(collection)
  }

  datatype Walked = Walked(tables: Tables, seen: set<DocId>, counts: Counts)

  predicate IsDocument(reader: Reader, disk: Disk, file: FilePath) {
    file in disk && disk[file].TextFile? && reader.supported(file)
  }

  function Visit(
    reader: Reader, disk: Disk, filter: Option<string>, w: Walked, file: FilePath, now: int): Walked
  {
    if !IsDocument(reader, disk, file) then w
    else if |file| < 2 then w.(counts := w.counts.(ignored := w.counts.ignored + 1))
    else if !InScope(reader, filter, file[0]) then w
    else
      var action := FileAction(reader, w.tables, disk, file);
      Walked(AfterFile(reader, w.tables, disk, file, now), w.seen + IdSeen(action), Counted(w.counts, action))
  }

  // The loop over the directory listing; `clock` is the time at each file.
  function Walk(
    reader: Reader, disk: Disk, filter: Option<string>, t: Tables, paths: seq<FilePath>, clock: FilePath -> int)
    : Walked
  {
    if paths == [] then Walked(t, {}, NO_COUNTS)
    else
      var last := |paths| - 1;
      Visit(reader, disk, filter, Walk(reader, disk, filter, t, paths[..last], clock), paths[last], clock(paths[last]))
  }

  // The rows whose file is gone.
  function Gone(reader: Reader, disk: Disk, filter: Option<string>, w: Walked): set<DocId> {
    set id | id in w.tables.documents && InScope(reader, filter, id.collection)
          && id !in w.seen && w.tables.documents[id].source !in disk
  }

  function AfterSync(
    reader: Reader, disk: Disk, filter: Option<string>, t: Tables, paths: seq<FilePath>, clock: FilePath -> int)
    : Tables
  {
    var w := Walk(reader, disk, filter, t, paths, clock);
    Without(w.tables, Gone(reader, disk, filter, w))
  }

  function SyncCounts(
    reader: Reader, disk: Disk, filter: Option<string>, t: Tables, paths: seq<FilePath>, clock: FilePath -> int)
    : Counts
  {
    var w := Walk(reader, disk, filter, t, paths, clock);
    w.counts.(deleted := |Gone(reader, disk, filter, w)|)
  }

  lemma {:induction false} WalkConsistent(
    reader: Reader, disk: Disk, filter: Option<string>, t: Tables, paths: seq<FilePath>, clock: FilePath -> int)
    requires Consistent(reader, t)
    ensures Consistent(reader, Walk(reader, disk, filter, t, paths, clock).tables)
  {
    if paths != [] {
      var last := |paths| - 1;
      WalkConsistent(reader, disk, filter, t, paths[..last], clock);
      var w := Walk(reader, disk, filter, t, paths[..last], clock);
      AfterFileConsistent(reader, w.tables, disk, paths[last], clock(paths[last]));
    }
  }

  lemma SyncConsistent(
    reader: Reader, disk: Disk, filter: Option<string>, t: Tables, paths: seq<FilePath>, clock: FilePath -> int)
    requires Consistent(reader, t)
    ensures Consistent(reader, AfterSync(reader, disk, filter, t, paths, clock))
  {
    WalkConsistent(reader, disk, filter, t, paths, clock);
    var w := Walk(reader, disk, filter, t, paths, clock);
    WithoutConsistent(reader, w.tables, Gone(reader, disk, filter, w));
  }

  // What one listed path does. Only document files count; one directly below the
  // root is ignored, and one outside the wanted collections is passed over.
  lemma VisitIs(reader: Reader, disk: Disk, filter: Option<string>, w: Walked, file: FilePath, now: int)
    ensures var v := Visit(reader, disk, filter, w, file, now);
      if file !in disk || disk[file] == Folder || !reader.supported(file) then v == w
      else if |file| <= 1 then v == w.(counts := w.counts.(ignored := w.counts.ignored + 1))
      else if filter !in {None, Some("")} && reader.slug(file[0]) != reader.slug(filter.value) then v == w
      else if reader.idOf(file) == None then v == w.(counts := w.counts.(ignored := w.counts.ignored + 1))
      else
        var id, before := reader.idOf(file).value, w.tables.documents;
        var same := id in before && before[id].hash == reader.hash(AsRead(disk[file].content));
        && v.tables == AfterFile(reader, w.tables, disk, file, now)
        && v.seen == w.seen + {id}
        && v.counts.created == w.counts.created + (if id in before then 0 else 1)
        && v.counts.updated == w.counts.updated + (if id in before && !same then 1 else 0)
        && v.counts.same == w.counts.same + (if same then 1 else 0)
        && v.counts.ignored == w.counts.ignored && v.counts.deleted == w.counts.deleted
  {
    if file in disk && reader.idOf(file).Some? {
      FileActionIs(reader, w.tables, disk, file, reader.idOf(file).value);
    }
  }

  // Which rows a sync deletes at its end.
  lemma GoneIs(reader: Reader, disk: Disk, filter: Option<string>, w: Walked, id: DocId)
    ensures id in Gone(reader, disk, filter, w) <==>
      && id in w.tables.documents && id !in w.seen && w.tables.documents[id].source !in disk
      && (filter == None || filter == Some("") || reader.slug(id.collection) == reader.slug(filter.value))
  {
  }

  // The counts of a sync add up: the documents before and those created are the
  // documents after and those deleted.
  lemma SyncBalance(
    reader: Reader, disk: Disk, filter: Option<string>, t: Tables, paths: seq<FilePath>, clock: FilePath -> int)
    ensures var counts := SyncCounts(reader, disk, filter, t, paths, clock);
      |AfterSync(reader, disk, filter, t, paths, clock).documents| + counts.deleted
      == |t.documents| + counts.created
  {
    var w := Walk(reader, disk, filter, t, paths, clock);
    WalkBalance(reader, disk, filter, t, paths, clock);
    KeysRemoved(w.tables, Gone(reader, disk, filter, w));
  }

  lemma KeysRemoved(t: Tables, gone: set<DocId>)
    requires gone <= t.documents.Keys
    ensures |Without(t, gone).documents| == |t.documents| - |gone|
  {
    assert Without(t, gone).documents.Keys == t.documents.Keys - gone;
    assert t.documents.Keys * gone == gone;
    assert |Without(t, gone).documents| == |Without(t, gone).documents.Keys|;
  }

  lemma {:induction false} WalkBalance(
    reader: Reader, disk: Disk, filter: Option<string>, t: Tables, paths: seq<FilePath>, clock: FilePath -> int)
    ensures var w := Walk(reader, disk, filter, t, paths, clock);
      |w.tables.documents| == |t.documents| + w.counts.created
  {
    if paths != [] {
      var last := |paths| - 1;
      var file := paths[last];
      var w := Walk(reader, disk, filter, t, paths[..last], clock);
      WalkBalance(reader, disk, filter, t, paths[..last], clock);
      VisitIs(reader, disk, filter, w, file, clock(file));
      AfterFileSize(reader, w.tables, disk, file, clock(file));
    }
  }

  lemma AfterFileSize(reader: Reader, t: Tables, disk: Disk, file: FilePath, now: int)
    ensures |AfterFile(reader, t, disk, file, now).documents|
      == |t.documents| + if FileAction(reader, t, disk, file).Created? then 1 else 0
  {
    var action, u := FileAction(reader, t, disk, file), AfterFile(reader, t, disk, file, now);
    if action.Created? || action.Updated? {
      AfterFileRow(reader, t, disk, file, action.id, now);
      assert u.documents.Keys == t.documents.Keys + {action.id};
      assert action.Updated? ==> u.documents.Keys == t.documents.Keys;
      assert |u.documents| == |u.documents.Keys|;
    }
  }

  // ---- The index and the disk ----

  // This file is one that a sync reads into this document.
  predicate Read(reader: Reader, disk: Disk, filter: Option<string>, file: FilePath, id: DocId) {
    && IsDocument(reader, disk, file) && |file| >= 2
    && InScope(reader, filter, file[0]) && reader.idOf(file) == Some(id)
  }

  lemma ReadIs(reader: Reader, disk: Disk, filter: Option<string>, file: FilePath, id: DocId)
    ensures Read(reader, disk, filter, file, id) <==>
      && file in disk && disk[file] != Folder && reader.supported(file)
      && |file| >= 2 && reader.idOf(file) == Some(id)
      && (filter == None || filter == Some("") || reader.slug(file[0]) == reader.slug(filter.value))
  {
  }

  // The text of the last listed file of a document.
  function LastText(
    reader: Reader, disk: Disk, filter: Option<string>, paths: seq<FilePath>, id: DocId): Option<string>
  {
    if paths == [] then None
    else
      var last := |paths| - 1;
      if Read(reader, disk, filter, paths[last], id) then Some(ReadText(disk[paths[last]]))
      else LastText(reader, disk, filter, paths[..last], id)
  }

  ghost predicate HoldsText(documents: map<DocId, Row>, id: DocId, text: string) {
    id in documents && documents[id].body == text
  }

  predicate SameRow(a: map<DocId, Row>, b: map<DocId, Row>, id: DocId) {
    (id in a <==> id in b) && (id in a && id in b ==> a[id] == b[id])
  }

  lemma {:induction false} WalkAgrees(
    reader: Reader, disk: Disk, filter: Option<string>, t: Tables, paths: seq<FilePath>, clock: FilePath -> int,
    id: DocId)
    requires Consistent(reader, t) && HashInjective(reader)
    ensures var w, text := Walk(reader, disk, filter, t, paths, clock), LastText(reader, disk, filter, paths, id);
      && (id in w.seen <==> text.Some?)
      && (text.Some? ==> HoldsText(w.tables.documents, id, text.value))
      && (text.None? ==> SameRow(w.tables.documents, t.documents, id))
  {
    if paths != [] {
      var last := |paths| - 1;
      var file := paths[last];
      WalkAgrees(reader, disk, filter, t, paths[..last], clock, id);
      WalkConsistent(reader, disk, filter, t, paths[..last], clock);
      VisitAgrees(reader, disk, filter, Walk(reader, disk, filter, t, paths[..last], clock), file, clock(file), id);
    }
  }

  lemma VisitAgrees(
    reader: Reader, disk: Disk, filter: Option<string>, w: Walked, file: FilePath, now: int, id: DocId)
    requires Consistent(reader, w.tables) && HashInjective(reader)
    ensures var v := Visit(reader, disk, filter, w, file, now);
      if Read(reader, disk, filter, file, id)
      then id in v.seen && HoldsText(v.tables.documents, id, ReadText(disk[file]))
      else (id in v.seen <==> id in w.seen) && SameRow(v.tables.documents, w.tables.documents, id)
  {
    if IsDocument(reader, disk, file) && |file| >= 2 && InScope(reader, filter, file[0]) {
      match reader.idOf(file)
      case None =>
      case Some(d) =>
        AfterFileDocuments(reader, w.tables, disk, file, d, now);
    }
  }

  // Whatever the index held: after a sync a document that some file on disk
  // belongs to holds the text of the last such file; any other document of the
  // synced collections is there only if it was before and its own file still
  // stands; the other collections are untouched.
  lemma SyncAgrees(
    reader: Reader, disk: Disk, filter: Option<string>, t: Tables, paths: seq<FilePath>, clock: FilePath -> int,
    id: DocId)
    requires Consistent(reader, t) && HashInjective(reader)
    ensures var u, text := AfterSync(reader, disk, filter, t, paths, clock), LastText(reader, disk, filter, paths, id);
      && (text.Some? ==> HoldsText(u.documents, id, text.value))
      && (text.None? && !InScope(reader, filter, id.collection) ==> SameRow(u.documents, t.documents, id))
      && (text.None? && InScope(reader, filter, id.collection) ==>
            if id in t.documents && t.documents[id].source in disk
            then id in u.documents && u.documents[id] == t.documents[id]
            else id !in u.documents)
  {
    WalkAgrees(reader, disk, filter, t, paths, clock, id);
  }

  // rglob(): every path on disk is listed, and nothing else.
  predicate Lists(paths: seq<FilePath>, disk: Disk) {
    (forall p :: p in paths ==> p in disk) && (forall p :: p in disk ==> p in paths)
  }

  function DiskIds(reader: Reader, disk: Disk): set<DocId> {
    set file | file in disk && IsDocument(reader, disk, file) && |file| >= 2 && reader.idOf(file).Some?
      :: reader.idOf(file).value
  }

  lemma {:induction false} LastTextExists(
    reader: Reader, disk: Disk, filter: Option<string>, paths: seq<FilePath>, id: DocId)
    ensures LastText(reader, disk, filter, paths, id).Some? <==>
      exists file :: file in paths && Read(reader, disk, filter, file, id)
  {
    if paths != [] {
      var last := |paths| - 1;
      LastTextExists(reader, disk, filter, paths[..last], id);
      assert paths == paths[..last] + [paths[last]];
    }
  }

  lemma {:induction false} LastTextIs(
    reader: Reader, disk: Disk, filter: Option<string>, paths: seq<FilePath>, id: DocId, i: nat)
    requires i < |paths| && Read(reader, disk, filter, paths[i], id)
    requires forall j :: i < j < |paths| ==> !Read(reader, disk, filter, paths[j], id)
    ensures LastText(reader, disk, filter, paths, id) == Some(AsRead(disk[paths[i]].content))
  {
    if i < |paths| - 1 {
      LastTextIs(reader, disk, filter, paths[..|paths| - 1], id, i);
    }
  }

  // The rows of a document in the two chunk tables are the pieces of this text:
  // each ordinal once, with its search row.
  ghost predicate HoldsPieces(reader: Reader, t: Tables, id: DocId, text: string) {
    && (forall c | c in t.chunks && t.chunks[c].doc == id ::
          && t.chunks[c].ordinal < |reader.pieces(text)|
          && t.chunks[c].chunk == reader.pieces(text)[t.chunks[c].ordinal]
          && c in t.fts && t.fts[c].doc == id && t.fts[c].chunk == t.chunks[c].chunk)
    && (forall k: nat | k < |reader.pieces(text)| :: HasOrdinal(t.chunks, id, k))
    && (forall c, d | c in t.chunks && d in t.chunks && t.chunks[c].doc == t.chunks[d].doc == id ::
          t.chunks[c].ordinal == t.chunks[d].ordinal ==> c == d)
  }

  // After a sync, what can be searched of a document on disk is the last such
  // file's text, cut into its pieces.
  lemma SyncedPieces(
    reader: Reader, disk: Disk, filter: Option<string>, t: Tables, paths: seq<FilePath>, clock: FilePath -> int,
    id: DocId)
    requires Consistent(reader, t) && HashInjective(reader)
    requires LastText(reader, disk, filter, paths, id).Some?
    ensures HoldsPieces(reader, AfterSync(reader, disk, filter, t, paths, clock), id,
                        LastText(reader, disk, filter, paths, id).value)
  {
    SyncAgrees(reader, disk, filter, t, paths, clock, id);
    SyncConsistent(reader, disk, filter, t, paths, clock);
    ConsistentPieces(reader, AfterSync(reader, disk, filter, t, paths, clock), id);
  }

  lemma ConsistentPieces(reader: Reader, t: Tables, id: DocId)
    requires Consistent(reader, t) && id in t.documents
    ensures HoldsPieces(reader, t, id, t.documents[id].body)
  {
    forall c | c in t.chunks && t.chunks[c].doc == id
      ensures c in t.fts && ChunkSound(reader, t.documents, t.chunks[c], t.fts[c])
    {
    }
  }

  // A row left behind: its file's path is still taken, but not by a document
  // file, and no document file belongs to it.
  predicate Stray(reader: Reader, disk: Disk, t: Tables, id: DocId) {
    id in t.documents && t.documents[id].source in disk && id !in DiskIds(reader, disk)
  }

  // After an unfiltered sync the documents are those of the files on disk,
  // exactly when the index held no stray row.
  lemma SyncedIds(
    reader: Reader, disk: Disk, t: Tables, paths: seq<FilePath>, clock: FilePath -> int)
    requires Consistent(reader, t) && HashInjective(reader) && Lists(paths, disk)
    ensures var u := AfterSync(reader, disk, None, t, paths, clock);
      && DiskIds(reader, disk) <= u.documents.Keys
      && (u.documents.Keys == DiskIds(reader, disk) <==> forall id :: !Stray(reader, disk, t, id))
  {
    var u := AfterSync(reader, disk, None, t, paths, clock);
    forall id
      ensures id in u.documents <==> id in DiskIds(reader, disk) || Stray(reader, disk, t, id)
    {
      SyncAgrees(reader, disk, None, t, paths, clock, id);
      LastTextExists(reader, disk, None, paths, id);
      DiskId(reader, disk, id);
    }
  }

  lemma DiskId(reader: Reader, disk: Disk, id: DocId)
    ensures id in DiskIds(reader, disk) <==> exists file :: file in disk && Read(reader, disk, None, file, id)
  {
  }

  // A stray row's path is a directory or has an unsupported suffix.
  lemma StrayIsNoDocument(reader: Reader, disk: Disk, t: Tables, id: DocId)
    requires Consistent(reader, t) && WellNamed(reader) && Stray(reader, disk, t, id)
    ensures !IsDocument(reader, disk, t.documents[id].source)
  {
    assert RowSound(reader, id, t.documents[id]);
    DiskId(reader, disk, id);
    assert !Read(reader, disk, None, t.documents[id].source, id);
  }

  // A directory in the place of an indexed file keeps the file's row alive.
  lemma DirectoryKeepsRow(reader: Reader, t: Tables, id: DocId, clock: FilePath -> int)
    requires Consistent(reader, t) && HashInjective(reader) && id in t.documents
    ensures var file := t.documents[id].source;
      var disk: Disk := map[file := Folder];
      && DiskIds(reader, disk) == {}
      && id in AfterSync(reader, disk, None, t, [file], clock).documents
  {
    var file := t.documents[id].source;
    SyncAgrees(reader, map[file := Folder], None, t, [file], clock, id);
  }

  // ---- A second sync ----

  // Files of one document agree on its text.
  ghost predicate NoConflict(reader: Reader, disk: Disk, filter: Option<string>, paths: seq<FilePath>) {
    forall file, id :: file in paths && Read(reader, disk, filter, file, id) ==>
      LastText(reader, disk, filter, paths, id) == Some(ReadText(disk[file]))
  }

  predicate Quiet(counts: Counts) {
    counts.created == 0 && counts.updated == 0 && counts.deleted == 0
  }

  // Walking over files whose texts are already in the index changes nothing,
  // and nothing else walks quietly.
  lemma {:induction false} QuietWalk(
    reader: Reader, disk: Disk, filter: Option<string>, t: Tables, paths: seq<FilePath>, clock: FilePath -> int)
    requires Consistent(reader, t) && HashInjective(reader)
    ensures var w := Walk(reader, disk, filter, t, paths, clock);
      && w.counts.deleted == 0
      && (Quiet(w.counts) <==>
            forall file, id :: file in paths && Read(reader, disk, filter, file, id) ==>
              HoldsText(t.documents, id, ReadText(disk[file])))
      && (Quiet(w.counts) ==> w.tables == t)
  {
    if paths != [] {
      var last := |paths| - 1;
      QuietWalk(reader, disk, filter, t, paths[..last], clock);
      assert paths == paths[..last] + [paths[last]];
      var w := Walk(reader, disk, filter, t, paths[..last], clock);
      QuietVisit(reader, disk, filter, w, paths[last], clock(paths[last]));
    }
  }

  lemma QuietVisit(reader: Reader, disk: Disk, filter: Option<string>, w: Walked, file: FilePath, now: int)
    requires Quiet(w.counts) ==> Consistent(reader, w.tables)
    requires HashInjective(reader)
    ensures var v := Visit(reader, disk, filter, w, file, now);
      && v.counts.deleted == w.counts.deleted
      && (Quiet(v.counts) <==>
            && Quiet(w.counts)
            && forall id :: Read(reader, disk, filter, file, id) ==>
              HoldsText(w.tables.documents, id, ReadText(disk[file])))
      && (Quiet(v.counts) ==> v.tables == w.tables)
  {
    if IsDocument(reader, disk, file) && |file| >= 2 && InScope(reader, filter, file[0]) {
      match reader.idOf(file)
      case None =>
      case Some(id) =>
        assert Read(reader, disk, filter, file, id);
        if Quiet(w.counts) && id in w.tables.documents {
          assert RowSound(reader, id, w.tables.documents[id]);
        }
    }
  }

  // A second sync of an unchanged disk reports no creation, update or deletion
  // exactly when no two files give one document different texts; and then it
  // changes no table.
  lemma SecondSync(
    reader: Reader, disk: Disk, filter: Option<string>, t: Tables, paths: seq<FilePath>,
    clock: FilePath -> int, later: FilePath -> int)
    requires Consistent(reader, t) && HashInjective(reader) && WellNamed(reader)
    ensures var u := AfterSync(reader, disk, filter, t, paths, clock);
      && (Quiet(SyncCounts(reader, disk, filter, u, paths, later)) <==> NoConflict(reader, disk, filter, paths))
      && (NoConflict(reader, disk, filter, paths) ==> AfterSync(reader, disk, filter, u, paths, later) == u)
  {
    var u := AfterSync(reader, disk, filter, t, paths, clock);
    var w := Walk(reader, disk, filter, u, paths, later);
    SyncConsistent(reader, disk, filter, t, paths, clock);
    QuietWalk(reader, disk, filter, u, paths, later);
    forall file, id | file in paths && Read(reader, disk, filter, file, id)
      ensures HoldsText(u.documents, id, ReadText(disk[file]))
        <==> LastText(reader, disk, filter, paths, id) == Some(ReadText(disk[file]))
    {
      SyncAgrees(reader, disk, filter, t, paths, clock, id);
      LastTextExists(reader, disk, filter, paths, id);
    }
    if Quiet(w.counts) {
      NothingGone(reader, disk, filter, t, paths, clock, later);
      WithoutNone(u);
    }
  }

  lemma NothingGone(
    reader: Reader, disk: Disk, filter: Option<string>, t: Tables, paths: seq<FilePath>,
    clock: FilePath -> int, later: FilePath -> int)
    requires Consistent(reader, t) && HashInjective(reader)
    ensures var u := AfterSync(reader, disk, filter, t, paths, clock);
      var w := Walk(reader, disk, filter, u, paths, later);
      w.tables == u ==> Gone(reader, disk, filter, w) == {}
  {
    var u := AfterSync(reader, disk, filter, t, paths, clock);
    var w := Walk(reader, disk, filter, u, paths, later);
    if w.tables == u {
      SyncConsistent(reader, disk, filter, t, paths, clock);
      forall id | id in Gone(reader, disk, filter, w)
        ensures false
      {
        WalkAgrees(reader, disk, filter, u, paths, later, id);
        SyncAgrees(reader, disk, filter, t, paths, clock, id);
      }
    }
  }

  // ---- Backlinks ----

  // Re-indexing a changed document drops the links from it, although the
  // documents that declare it as a source are still there and still declare it.
  lemma ReindexDropsBacklinks(
    reader: Reader, t: Tables, disk: Disk, file: FilePath, now: int, id: DocId, target: DocId)
    requires Consistent(reader, t) && id != target
    requires FileAction(reader, t, disk, file) == Updated(id)
    requires Link(id, target) in t.links
    ensures var u := AfterFile(reader, t, disk, file, now);
      && Link(id, target) !in u.links
      && SameRow(u.documents, t.documents, target) && target in u.documents
      && id in reader.sources(target.collection, u.documents[target].body)
  {
  }

  // ---- write_document() on the disk ----

  function FolderOf(parts: seq<string>): set<FilePath> {
    set k | 0 < k < |parts| :: parts[..k]
  }

  // mkdir(parents=True) of the file's directories, then write_text(); None when
  // a directory's place is taken by a file or the file's by a directory.
  function Written(disk: Disk, file: FilePath, content: string): (after: Option<Disk>)
    ensures after.Some? ==>
      && file in after.value && after.value[file] == TextFile(content)
      && (forall p | p in disk && p != file :: p in after.value && after.value[p] == disk[p])
      && (forall p | p in after.value && p !in disk && p != file :: after.value[p] == Folder && p < file)
  {
    var folders := FolderOf(file);
    if (exists p :: p in folders && p in disk && disk[p].TextFile?) || (file in disk && disk[file] == Folder) then None
    else Some((map p | p in disk.Keys + folders :: if p in disk then disk[p] else Folder)[file := TextFile(content)])
  }

  // When a write is refused, and what it makes of the directories.
  lemma WrittenIs(disk: Disk, file: FilePath, content: string, k: nat)
    requires 0 < k < |file|
    ensures Written(disk, file, content) == None <==>
      || (exists i :: 0 < i < |file| && file[..i] in disk && disk[file[..i]] != Folder)
      || (file in disk && disk[file] == Folder)
    ensures Written(disk, file, content).Some? ==>
      var after := Written(disk, file, content).value;
      && file[..k] in after && after[file[..k]] == Folder
      && after.Keys == disk.Keys + {file} + set i | 0 < i < |file| :: file[..i]
  {
  }

  // What a write that raises leaves in the file.
  function Begun(content: string, n: nat): (begun: string)
    ensures begun <= content && |begun| == if n <= |content| then n else |content|
  {
    content[..Min(n, |content|)]
  }

  function TargetFile(reader: Reader, collection: string, path: string, suffix: string): Option<FilePath> {
    var parts := reader.parts(path);
    if reader.slug(collection) == "" || parts == [] then None
    else
      var last := |parts| - 1;
      Some([reader.slug(collection)] + parts[..last] + [parts[last] + suffix])
  }

  // The file of a document: its collection's directory, the normalised path, and
  // the suffix after the last component.
  lemma TargetFileIs(reader: Reader, collection: string, path: string, suffix: string)
    ensures var target, parts := TargetFile(reader, collection, path, suffix), reader.parts(path);
      && (target == None <==> reader.slug(collection) == "" || reader.parts(path) == [])
      && (target.Some? ==>
            && |target.value| == |parts| + 1 >= 2 && target.value[0] == reader.slug(collection)
            && target.value[|parts|] == parts[|parts| - 1] + suffix
            && forall i :: 0 < i < |parts| ==> target.value[i] == parts[i - 1])
  {
  }

  // ---- The index object ----

  datatype Removal = Refused | NotFound | Deleted

  class KnowledgebaseIndex {
    const reader: Reader
    var documents: map<DocId, Row>
    var chunks: map<nat, ChunkRow>
    var fts: map<nat, FtsRow>
    var links: set<Link>
    var next: nat

    function State(): Tables
      reads this
    {
      Tables(documents, chunks, fts, links, next)
    }

    ghost predicate Valid()
      reads this
    {
      Consistent(reader, State())
    }

    constructor (reader: Reader)
      ensures Valid() && State() == EMPTY && this.reader == reader
    {
      this.reader := reader;
      documents, chunks, fts, links, next := map[], map[], map[], {}, 1;
    }

    // _delete_doc_rows()
    method DeleteDocRows(id: DocId)
      modifies this
      ensures State() == Without(old(State()), {id})
    {
      DeleteFtsRows(set c | c in chunks && chunks[c].doc == id);
      chunks := map c | c in chunks && chunks[c].doc != id :: chunks[c];
      links := set l | l in links && l.source != id && l.target != id;
      documents := documents - {id};
      ghost var done := Without(old(State()), {id});
      assert fts == done.fts;
      assert chunks == done.chunks;
      assert documents == done.documents;
    }

    method DeleteFtsRows(ids: set<nat>)
      modifies this`fts
      ensures fts == old(fts) - ids
    {
      var todo := ids;
      while todo != {}
        invariant todo <= ids
        invariant fts == old(fts) - (ids - todo)
      {
        var c :| c in todo;
        fts := fts - {c};
        todo := todo - {c};
      }
    }

    // _insert_chunks()
    method InsertChunks(id: DocId, about: About, pieces: seq<Chunk>)
      modifies this
      ensures State() == WithChunks(old(State()), id, about, pieces)
    {
      ghost var start := State();
      var ordinal := 0;
      while ordinal < |pieces|
        invariant 0 <= ordinal <= |pieces|
        invariant State() == WithChunks(start, id, about, pieces[..ordinal])
      {
        assert pieces[..ordinal + 1][..ordinal] == pieces[..ordinal];
        InsertChunk(id, about, ordinal, pieces[ordinal]);
        ordinal := ordinal + 1;
      }
      assert pieces[..ordinal] == pieces;
    }

    method InsertChunk(id: DocId, about: About, ordinal: nat, piece: Chunk)
      modifies this
      ensures State() == WithChunk(old(State()), id, about, ordinal, piece)
    {
      var chunkId := next;
      next := next + 1;
      chunks := chunks[chunkId := ChunkRow(id, ordinal, piece)];
      fts := fts[chunkId := FtsRow(id, about, piece)];
    }

    // _refresh_document_links()
    method RefreshLinks(id: DocId, sources: seq<DocId>)
      modifies this
      ensures State() == WithLinks(old(State()), id, sources)
    {
      links := set l | l in links && l.target != id;
      var i := 0;
      while i < |sources|
        invariant 0 <= i <= |sources|
        invariant State() == WithLinks(old(State()), id, sources[..i])
      {
        assert sources[..i + 1] == sources[..i] + [sources[i]];
        links := links + {Link(sources[i], id)};
        i := i + 1;
      }
      assert sources[..i] == sources;
    }

    method SyncFile(disk: Disk, file: FilePath, now: int) returns (action: Action)
      requires Valid()
      modifies this
      ensures Valid()
      ensures action == FileAction(reader, old(State()), disk, file)
      ensures State() == AfterFile(reader, old(State()), disk, file, now)
    {
      AfterFileConsistent(reader, State(), disk, file, now);
      action := FileAction(reader, State(), disk, file);
      if action.Created? || action.Updated? {
        var id := action.id;
        var row := RowOf(reader, State(), id, file, ReadText(disk[file]), now);
        if action.Updated? {
          DeleteDocRows(id);
        }
        documents := documents[id := row];
        InsertChunks(id, row.about, reader.pieces(row.body));
        RefreshLinks(id, reader.sources(id.collection, row.body));
      }
    }

    method RemoveDocument(collection: string, path: string, writable: bool) returns (result: Removal)
      requires Valid()
      modifies this
      ensures Valid()
      ensures result == Refused <==> reader.slug(collection) == "" || reader.parts(path) == [] || !writable
      ensures result == Deleted ==> DocId(reader.slug(collection), reader.parts(path)) in old(documents)
      ensures State() == if result == Deleted
        then Without(old(State()), {DocId(reader.slug(collection), reader.parts(path))}) else old(State())
      ensures result == NotFound ==> DocId(reader.slug(collection), reader.parts(path)) !in documents
    {
      var id := DocId(reader.slug(collection), reader.parts(path));
      if id.collection == "" || id.path == [] || !writable {
        return Refused;
      }
      if id !in documents {
        return NotFound;
      }
      WithoutConsistent(reader, State(), {id});
      DeleteDocRows(id);
      return Deleted;
    }

    // `paths` is the sorted listing of the documents root.
    method SyncFromDisk(disk: Disk, paths: seq<FilePath>, filter: Option<string>, clock: FilePath -> int)
      returns (counts: Counts)
      requires Valid()
      modifies this
      ensures Valid()
      ensures State() == AfterSync(reader, disk, filter, old(State()), paths, clock)
      ensures counts == SyncCounts(reader, disk, filter, old(State()), paths, clock)
    {
      ghost var start := State();
      var seen: set<DocId>;
      seen, counts := WalkFiles(disk, paths, filter, clock);
      ghost var w := Walk(reader, disk, filter, start, paths, clock);
      SyncConsistent(reader, disk, filter, start, paths, clock);
      var gone := set id | id in documents && InScope(reader, filter, id.collection)
                        && id !in seen && documents[id].source !in disk;
      assert gone == Gone(reader, disk, filter, w);
      DeleteAll(gone);
      counts := counts.(deleted := |gone|);
    }

    method WalkFiles(disk: Disk, paths: seq<FilePath>, filter: Option<string>, clock: FilePath -> int)
      returns (seen: set<DocId>, counts: Counts)
      requires Valid()
      modifies this
      ensures Walked(State(), seen, counts) == Walk(reader, disk, filter, old(State()), paths, clock)
    {
      seen, counts := {}, NO_COUNTS;
      var i := 0;
      while i < |paths|
        invariant 0 <= i <= |paths|
        invariant Valid()
        invariant Walked(State(), seen, counts) == Walk(reader, disk, filter, old(State()), paths[..i], clock)
      {
        var file := paths[i];
        assert paths[..i + 1][..i] == paths[..i];
        if IsDocument(reader, disk, file) {
          if |file| < 2 {
            counts := counts.(ignored := counts.ignored + 1);
          } else if InScope(reader, filter, file[0]) {
            var action := SyncFile(disk, file, clock(file));
            counts := Counted(counts, action);
            seen := seen + IdSeen(action);
          }
        }
        i := i + 1;
      }
      assert paths[..i] == paths;
    }

    // The rows of documents without a file, one at a time, in any order.
    method DeleteAll(gone: set<DocId>)
      modifies this
      ensures State() == Without(old(State()), gone)
    {
      var todo := gone;
      WithoutNone(State());
      while todo != {}
        invariant todo <= gone
        invariant State() == Without(old(State()), gone - todo)
      {
        var id :| id in todo;
        WithoutTwice(old(State()), gone - todo, {id});
        assert gone - (todo - {id}) == (gone - todo) + {id};
        DeleteDocRows(id);
        todo := todo - {id};
      }
      assert gone - todo == gone;
    }

    // `stored` is the text with its front matter merged in. `cut` is how much of
    // it reaches the disk before write_text() raises; None when it does not.
    method WriteDocument(
      disk: Disk, collection: string, path: string, suffix: string, stored: string, writable: bool,
      cut: Option<nat>, now: int)
      returns (after: Disk, ok: bool)
      requires Valid()
      modifies this
      ensures Valid()
      ensures var file := TargetFile(reader, collection, path, suffix);
        if !writable || file.None? || Written(disk, file.value, stored).None?
        then !ok && after == disk && State() == old(State())
        else if cut.Some?
        then !ok && Some(after) == Written(disk, file.value, Begun(stored, cut.value)) && State() == old(State())
        else
          && ok && Some(after) == Written(disk, file.value, stored)
          && State() == AfterFile(reader, old(State()), after, file.value, now)
    {
      var file := TargetFile(reader, collection, path, suffix);
      if !writable || file.None? || Written(disk, file.value, stored).None? {
        return disk, false;
      }
      if cut.Some? {
        return Written(disk, file.value, Begun(stored, cut.value)).value, false;
      }
      after, ok := Written(disk, file.value, stored).value, true;
      var _ := SyncFile(after, file.value, now);
    }
  }
}
