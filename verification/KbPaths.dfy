// kb/storage.py: slugs, normalised document paths, document ids and file names.
module KbPaths {
  import opened Bytes
  import opened Text
  import opened Paths

  // ---- slugify ----

  predicate Alnum(c: char) {
    'a' <= c <= 'z' || '0' <= c <= '9'
  }

  // re.sub(r"[^a-z0-9]+", "-", s): `dashed` tells that the last character
  // written is the dash of the current run.
  function Dashed(s: string, dashed: bool): string {
    if s == "" then ""
    else if Alnum(s[0]) then [s[0]] + Dashed(s[1..], false)
    else (if dashed then "" else "-") + Dashed(s[1..], true)
  }

  // A slug has no dash at either end.
  function TrimLeft(s: string): string {
    if s != "" && s[0] == '-' then TrimLeft(s[1..]) else s
  }

  function TrimRight(s: string): string {
    if s != "" && s[|s| - 1] == '-' then TrimRight(s[..|s| - 1]) else s
  }

  // str.lower() is library code; on what slugs and suffixes consist of it changes nothing.
  ghost predicate LowerKeeps(lower: string -> string) {
    forall s: string :: (forall c :: c in s ==> Alnum(c) || c == '-' || c == '.') ==> lower(s) == s
  }

  // The slug of a text in lower case.
  function SlugOf(s: string): string {
    TrimRight(TrimLeft(Dashed(s, false)))
  }

  function Slugify(lower: string -> string, value: string): string {
    SlugOf(lower(Strip(value)))
  }

  predicate NoDoubleDash(s: string) {
    forall i :: 0 <= i < |s| - 1 ==> s[i] != '-' || s[i + 1] != '-'
  }

  predicate SlugChars(s: string) {
    forall c :: c in s ==> Alnum(c) || c == '-'
  }

  // Lower-case words joined by single dashes.
  predicate IsSlug(s: string) {
    SlugChars(s) && NoDoubleDash(s) && (s != "" ==> s[0] != '-' && s[|s| - 1] != '-')
  }

  lemma {:induction false} DashedShape(s: string, dashed: bool)
    ensures var t := Dashed(s, dashed);
      SlugChars(t) && NoDoubleDash(t) && (dashed && t != "" ==> t[0] != '-')
  {
    if s != "" {
      DashedShape(s[1..], !Alnum(s[0]));
    }
  }

  lemma {:induction false} TrimShape(s: string)
    requires SlugChars(s) && NoDoubleDash(s)
    ensures IsSlug(TrimRight(TrimLeft(s)))
  {
    TrimLeftShape(s);
    TrimRightShape(TrimLeft(s));
  }

  lemma {:induction false} TrimLeftShape(s: string)
    requires SlugChars(s) && NoDoubleDash(s)
    ensures var t := TrimLeft(s); SlugChars(t) && NoDoubleDash(t) && (t != "" ==> t[0] != '-')
  {
    if s != "" && s[0] == '-' {
      assert forall c :: c in s[1..] ==> c in s;
      TrimLeftShape(s[1..]);
    }
  }

  lemma {:induction false} TrimRightShape(s: string)
    requires SlugChars(s) && NoDoubleDash(s) && (s != "" ==> s[0] != '-')
    ensures IsSlug(TrimRight(s))
  {
    if s != "" && s[|s| - 1] == '-' {
      assert forall c :: c in s[..|s| - 1] ==> c in s;
      TrimRightShape(s[..|s| - 1]);
    }
  }

  lemma SlugifyIsSlug(lower: string -> string, value: string)
    ensures IsSlug(Slugify(lower, value))
  {
    SlugShape(lower(Strip(value)));
  }

  lemma {:induction false} DashedKeeps(s: string, dashed: bool)
    requires SlugChars(s) && NoDoubleDash(s) && (dashed && s != "" ==> s[0] != '-')
    ensures Dashed(s, dashed) == s
  {
    if s != "" {
      assert s[0] in s;
      assert forall c :: c in s[1..] ==> c in s;
      DashedKeeps(s[1..], s[0] == '-');
      assert s == [s[0]] + s[1..];
    }
  }

  lemma {:induction false} DashedConcat(a: string, b: string, dashed: bool)
    ensures Dashed(a + b, dashed)
      == Dashed(a, dashed) + Dashed(b, if a == "" then dashed else !Alnum(a[|a| - 1]))
  {
    if a == "" {
      assert a + b == b;
    } else {
      assert (a + b)[1..] == a[1..] + b;
      DashedConcat(a[1..], b, !Alnum(a[0]));
    }
  }

  // No leading run: the dash that trimming would take away is never written.
  lemma {:induction false} TrimDashed(s: string)
    ensures TrimLeft(Dashed(s, false)) == Dashed(s, true)
  {
    DashedShape(s, true);
    if s != "" && !Alnum(s[0]) {
      DashedShape(s[1..], true);
      assert Dashed(s, false)[1..] == Dashed(s[1..], true);
      TrimStays(Dashed(s[1..], true));
    } else {
      TrimStays(Dashed(s, false));
    }
  }

  lemma TrimStays(s: string)
    requires s != "" ==> s[0] != '-'
    ensures TrimLeft(s) == s
  {
  }

  lemma SlugIsTrimmed(s: string)
    ensures SlugOf(s) == TrimRight(Dashed(s, true))
  {
    TrimDashed(s);
  }

  lemma LastDashed(c: char, dashed: bool)
    ensures Dashed([c], dashed) == if Alnum(c) then [c] else if dashed then "" else "-"
  {
    assert [c][1..] == "";
  }

  lemma TrimLast(s: string, c: char)
    ensures TrimRight(s + [c]) == if c == '-' then TrimRight(s) else s + [c]
  {
    assert (s + [c])[..|s|] == s;
  }

  // The text ends inside or before a run of something else than letters and digits.
  predicate Ended(s: string) {
    s == "" || !Alnum(s[|s| - 1])
  }

  lemma OneMoreChar(s: string, c: char)
    ensures Dashed(s + [c], true) == Dashed(s, true) + (if Alnum(c) then [c] else if Ended(s) then "" else "-")
    ensures SlugOf(s + [c]) == if Alnum(c) then Dashed(s, true) + [c] else SlugOf(s)
  {
    DashedConcat(s, [c], true);
    LastDashed(c, Ended(s));
    SlugIsTrimmed(s);
    SlugIsTrimmed(s + [c]);
    TrimLast(Dashed(s, true), if Alnum(c) then c else '-');
    assert Dashed(s, true) + "" == Dashed(s, true) && "-" == ['-'];
  }

  // What is written for a text is its slug, and one dash more when it ends in
  // something else than a letter or digit.
  predicate WrittenAs(text: string, slug: string, ended: bool) {
    text == (if slug != "" && ended then slug + "-" else slug) && (slug != "" || ended)
  }

  lemma {:induction false} DashedEnd(s: string)
    ensures WrittenAs(Dashed(s, true), SlugOf(s), Ended(s))
  {
    if s != "" {
      var last := |s| - 1;
      DashedEnd(s[..last]);
      assert s == s[..last] + [s[last]];
      OneMoreChar(s[..last], s[last]);
    }
  }

  // What a slug is: a word of lower-case letters and digits stays, anything else
  // separates, and the non-empty slugs of the two sides are joined by one dash.
  lemma SlugOfWord(s: string)
    requires forall c :: c in s ==> 'a' <= c <= 'z' || '0' <= c <= '9'
    ensures SlugOf(s) == s
  {
    assert forall i :: 0 <= i < |s| ==> s[i] in s;
    DashedKeeps(s, false);
  }

  lemma SlugifyWord(lower: string -> string, value: string)
    requires forall c :: c in lower(Strip(value)) ==> 'a' <= c <= 'z' || '0' <= c <= '9'
    ensures Slugify(lower, value) == lower(Strip(value))
  {
    SlugOfWord(lower(Strip(value)));
  }

  lemma SlugOfBreak(a: string, c: char, b: string)
    requires !('a' <= c <= 'z') && !('0' <= c <= '9')
    ensures SlugOf(a + [c] + b)
      == SlugOf(a) + (if SlugOf(a) != "" && SlugOf(b) != "" then "-" else "") + SlugOf(b)
  {
    DashedEnd(a);
    DashedEnd(b);
    OneMoreChar(a, c);
    DashedConcat(a + [c], b, true);
    SlugIsTrimmed(a + [c] + b);
    SlugShape(a);
    SlugShape(b);
    assert WrittenAs(Dashed(a + [c], true), SlugOf(a), true);
    TrimText(Dashed(a + [c], true), SlugOf(a), Dashed(b, true), SlugOf(b), Ended(b));
  }

  lemma TrimText(before: string, a: string, after: string, b: string, ended: bool)
    requires WrittenAs(before, a, true) && WrittenAs(after, b, ended)
    requires (a != "" ==> a[|a| - 1] != '-') && (b != "" ==> b[|b| - 1] != '-')
    ensures TrimRight(before + after) == a + (if a != "" && b != "" then "-" else "") + b
  {
    if b != "" {
      TrimRightOf(before, b);
      assert before + (b + "-") == before + b + "-";
    } else if a != "" {
      TrimRightOf("", a);
      assert "" + a == a && before + after == "" + a + "-";
    }
  }

  lemma TrimRightOf(a: string, b: string)
    requires b != "" && b[|b| - 1] != '-'
    ensures TrimRight(a + b) == a + b && TrimRight(a + b + "-") == a + b
  {
    TrimLast(a + b, '-');
  }

  lemma SlugShape(s: string)
    ensures IsSlug(SlugOf(s))
  {
    DashedShape(s, false);
    TrimShape(Dashed(s, false));
  }

  // A slug is its own slug.
  lemma SlugStays(lower: string -> string, s: string)
    requires LowerKeeps(lower) && IsSlug(s)
    ensures Slugify(lower, s) == s
  {
    assert s != "" ==> s[0] in s && s[|s| - 1] in s;
    StrippedStays(s);
    DashedKeeps(s, false);
  }

  lemma SlugifyIdempotent(lower: string -> string, value: string)
    requires LowerKeeps(lower)
    ensures Slugify(lower, Slugify(lower, value)) == Slugify(lower, value)
  {
    SlugifyIsSlug(lower, value);
    SlugStays(lower, Slugify(lower, value));
  }

  // ---- normalize_doc_path ----

  predicate IsSeparator(c: char) {
    c == '/' || c == '\\'
  }

  // Separators at either end do not count.
  function TrimSeparators(s: string): string {
    if s != "" && IsSeparator(s[0]) then TrimSeparators(s[1..])
    else if s != "" && IsSeparator(s[|s| - 1]) then TrimSeparators(s[..|s| - 1])
    else s
  }

  function Slashed(s: string): string {
    seq(|s|, i requires 0 <= i < |s| => if s[i] == '\\' then '/' else s[i])
  }

  // The non-empty slugs of the parts. Splitting at runs of separators and at
  // every separator differ only in empty parts, which are dropped here.
  function Slugs(lower: string -> string, parts: seq<string>): seq<string> {
    if parts == [] then []
    else
      var slug := Slugify(lower, parts[0]);
      (if slug == "" then [] else [slug]) + Slugs(lower, parts[1..])
  }

  function JoinParts(parts: seq<string>): string {
    if parts == [] then "" else Join(parts)
  }

  function NormalizeParts(lower: string -> string, value: string): seq<string> {
    var text := TrimSeparators(Strip(value));
    if text == "" then [] else Slugs(lower, Split(Slashed(text)))
  }

  function NormalizePath(lower: string -> string, value: string): string {
    JoinParts(NormalizeParts(lower, value))
  }

  // Non-empty slugs, the components of a normalised path.
  predicate SlugParts(parts: seq<string>) {
    forall p :: p in parts ==> p != "" && IsSlug(p)
  }

  lemma {:induction false} SlugsAre(lower: string -> string, parts: seq<string>)
    ensures SlugParts(Slugs(lower, parts))
  {
    if parts != [] {
      SlugsAre(lower, parts[1..]);
      SlugifyIsSlug(lower, parts[0]);
    }
  }

  lemma NormalizedAreSlugs(lower: string -> string, value: string)
    ensures SlugParts(NormalizeParts(lower, value))
  {
    var text := TrimSeparators(Strip(value));
    if text != "" {
      SlugsAre(lower, Split(Slashed(text)));
    }
  }

  lemma SlugsStay(lower: string -> string, parts: seq<string>)
    requires LowerKeeps(lower) && SlugParts(parts)
    ensures Slugs(lower, parts) == parts
  {
    forall p | p in parts
      ensures Slugify(lower, p) == p
    {
      SlugStays(lower, p);
    }
    FixedSlugs(lower, parts);
  }

  lemma {:induction false} FixedSlugs(lower: string -> string, parts: seq<string>)
    requires forall p :: p in parts ==> p != "" && Slugify(lower, p) == p
    ensures Slugs(lower, parts) == parts
  {
    if parts != [] {
      assert parts[0] in parts;
      assert forall p :: p in parts[1..] ==> p in parts;
      FixedSlugs(lower, parts[1..]);
      assert parts == [parts[0]] + parts[1..];
    }
  }

  // A path joined from slugs: no separator or space at its ends, no backslash.
  lemma {:induction false} JoinedShape(parts: seq<string>)
    requires parts != [] && SlugParts(parts)
    ensures var s := Join(parts);
      && s != "" && '\\' !in s
      && Alnum(s[0]) && Alnum(s[|s| - 1])
  {
    assert parts[0] in parts;
    var p := parts[0];
    assert p[0] in p && p[|p| - 1] in p;
    if |parts| > 1 {
      assert forall q :: q in parts[1..] ==> q in parts;
      JoinedShape(parts[1..]);
    }
  }

  // Normalising a joined sequence of slugs gives the same sequence back.
  lemma PartsStay(lower: string -> string, parts: seq<string>)
    requires LowerKeeps(lower) && SlugParts(parts)
    ensures NormalizeParts(lower, JoinParts(parts)) == parts
  {
    if parts == [] {
      StrippedStays("");
    } else {
      var s := Join(parts);
      JoinedShape(parts);
      StrippedStays(s);
      assert Slashed(s) == s;
      forall p | p in parts
        ensures Slashless(p)
      {
        assert forall c :: c in p ==> Alnum(c) || c == '-';
      }
      SplitJoin(parts);
      SlugsStay(lower, parts);
    }
  }

  // ---- What a normalised path is ----

  // The slugs between the separators; whatever is trimmed makes no difference.
  function PieceSlugs(lower: string -> string, value: string): seq<string> {
    Slugs(lower, Split(Slashed(value)))
  }

  lemma {:induction false} SlugsConcat(lower: string -> string, a: seq<string>, b: seq<string>)
    ensures Slugs(lower, a + b) == Slugs(lower, a) + Slugs(lower, b)
  {
    if a == [] {
      assert a + b == b;
    } else {
      assert (a + b)[1..] == a[1..] + b;
      SlugsConcat(lower, a[1..], b);
    }
  }

  lemma OneSlug(lower: string -> string, p: string)
    ensures Slugs(lower, [p]) == if Slugify(lower, p) == "" then [] else [Slugify(lower, p)]
  {
  }

  lemma EmptySlug(lower: string -> string)
    requires LowerKeeps(lower)
    ensures Slugs(lower, [""]) == []
  {
    SlugStays(lower, "");
    OneSlug(lower, "");
  }

  lemma SlashedConcat(a: string, b: string)
    ensures Slashed(a + b) == Slashed(a) + Slashed(b)
  {
  }

  // A separator splits a path into its two sides.
  lemma PiecesBreak(lower: string -> string, a: string, c: char, b: string)
    requires c in {'/', '\\'}
    ensures PieceSlugs(lower, a + [c] + b) == PieceSlugs(lower, a) + PieceSlugs(lower, b)
  {
    SlashedConcat(a + [c], b);
    SlashedConcat(a, [c]);
    assert Slashed([c]) == "/";
    SplitConcat(Slashed(a), Slashed(b));
    SlugsConcat(lower, Split(Slashed(a)), Split(Slashed(b)));
  }

  lemma {:induction false} PiecesTrimmed(lower: string -> string, s: string)
    requires LowerKeeps(lower)
    ensures PieceSlugs(lower, TrimSeparators(s)) == PieceSlugs(lower, s)
    decreases |s|
  {
    EmptySlug(lower);
    assert Slashed("") == "";
    if s != "" && IsSeparator(s[0]) {
      PiecesTrimmed(lower, s[1..]);
      PiecesBreak(lower, "", s[0], s[1..]);
      assert s == "" + [s[0]] + s[1..];
    } else if s != "" && IsSeparator(s[|s| - 1]) {
      var last := |s| - 1;
      PiecesTrimmed(lower, s[..last]);
      PiecesBreak(lower, s[..last], s[last], "");
      assert s == s[..last] + [s[last]] + "";
    }
  }

  lemma {:induction false} PiecesLeft(lower: string -> string, s: string)
    ensures PieceSlugs(lower, LStrip(s)) == PieceSlugs(lower, s)
  {
    if s != "" && IsSpace(s[0]) {
      PiecesLeft(lower, s[1..]);
      SlashedConcat([s[0]], s[1..]);
      assert s == [s[0]] + s[1..] && Slashed([s[0]]) == [s[0]];
      var t := Slashed(s[1..]);
      assert ([s[0]] + t)[1..] == t;
      assert Split([s[0]] + t) == [[s[0]] + Split(t)[0]] + Split(t)[1..];
      assert LStrip([s[0]] + Split(t)[0]) == LStrip(Split(t)[0]);
      SameFirst(lower, Split([s[0]] + t), Split(t));
    }
  }

  lemma SameFirst(lower: string -> string, a: seq<string>, b: seq<string>)
    requires a != [] && b != [] && a[1..] == b[1..] && Slugify(lower, a[0]) == Slugify(lower, b[0])
    ensures Slugs(lower, a) == Slugs(lower, b)
  {
  }

  lemma {:induction false} PiecesRight(lower: string -> string, s: string)
    ensures PieceSlugs(lower, RStrip(s)) == PieceSlugs(lower, s)
    decreases |s|
  {
    if s != "" && IsSpace(s[|s| - 1]) {
      var rest, c := s[..|s| - 1], s[|s| - 1];
      PiecesRight(lower, rest);
      SlashedConcat(rest, [c]);
      assert s == rest + [c] && Slashed([c]) == [c];
      SplitLast(Slashed(rest), c);
      SpaceAtEnd(lower, Split(Slashed(rest)), c);
    }
  }

  lemma SpaceAtEnd(lower: string -> string, parts: seq<string>, c: char)
    requires parts != [] && IsSpace(c)
    ensures Slugs(lower, Extended(parts, c)) == Slugs(lower, parts)
  {
    var last := |parts| - 1;
    StripRight(parts[last], c);
    SlugsConcat(lower, parts[..last], [parts[last]]);
    SlugsConcat(lower, parts[..last], [parts[last] + [c]]);
    assert parts == parts[..last] + [parts[last]];
    OneSlug(lower, parts[last]);
    OneSlug(lower, parts[last] + [c]);
  }

  lemma {:induction false} StripRight(s: string, c: char)
    requires IsSpace(c)
    ensures Strip(s + [c]) == Strip(s)
  {
    LStripRight(s, c);
    var t := LStrip(s);
    assert (t + [c])[..|t|] == t;
  }

  lemma {:induction false} LStripRight(s: string, c: char)
    requires IsSpace(c)
    ensures LStrip(s + [c]) == if LStrip(s) == "" then "" else LStrip(s) + [c]
  {
    if s == "" {
      assert (s + [c])[1..] == "";
    } else {
      assert (s + [c])[1..] == s[1..] + [c];
      LStripRight(s[1..], c);
    }
  }

  lemma NormalizeIs(lower: string -> string, value: string)
    requires LowerKeeps(lower)
    ensures NormalizeParts(lower, value) == PieceSlugs(lower, value)
  {
    PiecesLeft(lower, value);
    PiecesRight(lower, LStrip(value));
    PiecesTrimmed(lower, Strip(value));
    if TrimSeparators(Strip(value)) == "" {
      EmptySlug(lower);
      assert Slashed("") == "";
    }
  }

  // Slashes and backslashes separate, a side at a time; a text without them is one
  // component, dropped when its slug is empty.
  lemma NormalizeBreak(lower: string -> string, a: string, c: char, b: string)
    requires LowerKeeps(lower) && c in {'/', '\\'}
    ensures NormalizeParts(lower, a + [c] + b) == NormalizeParts(lower, a) + NormalizeParts(lower, b)
  {
    PiecesBreak(lower, a, c, b);
    NormalizeIs(lower, a + [c] + b);
    NormalizeIs(lower, a);
    NormalizeIs(lower, b);
  }

  lemma NormalizeOne(lower: string -> string, value: string)
    requires LowerKeeps(lower) && '/' !in value && '\\' !in value
    ensures NormalizeParts(lower, value) == if Slugify(lower, value) == "" then [] else [Slugify(lower, value)]
  {
    NormalizeIs(lower, value);
    assert Slashed(value) == value;
    SplitSlashless(value);
    OneSlug(lower, value);
  }

  lemma NormalizeIdempotent(lower: string -> string, value: string)
    requires LowerKeeps(lower)
    ensures NormalizePath(lower, NormalizePath(lower, value)) == NormalizePath(lower, value)
  {
    NormalizedAreSlugs(lower, value);
    PartsStay(lower, NormalizeParts(lower, value));
  }

  // ---- Ids and files ----

  // A document id: the collection slug and the normalised relative path.
  datatype DocId = DocId(collection: string, path: seq<string>)
  {
    function Text(): string {
      collection + "/" + JoinParts(path)
    }
  }

  // collection_document_id()
  function DocumentId(lower: string -> string, collection: string, path: string): DocId {
    DocId(Slugify(lower, collection), NormalizeParts(lower, path))
  }

  // Different ids have different texts, so the primary key never merges two.
  lemma IdTextInjective(a: DocId, b: DocId)
    requires IsSlug(a.collection) && IsSlug(b.collection) && SlugParts(a.path) && SlugParts(b.path)
    requires a.Text() == b.Text()
    ensures a == b
  {
    SplitText(a);
    SplitText(b);
    var p, q := Split(JoinParts(a.path)), Split(JoinParts(b.path));
    assert Split(a.Text())[1..] == p && Split(b.Text())[1..] == q;
    assert Split(a.Text())[0] == a.collection && Split(b.Text())[0] == b.collection;
    PathOfSplit(a.path);
    PathOfSplit(b.path);
    assert "" !in a.path && "" !in b.path;
    assert a.path == (if p == [""] then [] else p) && b.path == (if q == [""] then [] else q);
  }

  lemma SplitText(a: DocId)
    requires IsSlug(a.collection)
    ensures Split(a.Text()) == [a.collection] + Split(JoinParts(a.path))
  {
    assert Slashless(a.collection);
    SplitFirst(a.collection, JoinParts(a.path));
  }

  lemma PathOfSplit(parts: seq<string>)
    requires SlugParts(parts)
    ensures Split(JoinParts(parts)) == if parts == [] then [""] else parts
    ensures parts == [] <==> Split(JoinParts(parts)) == [""]
  {
    assert "" !in parts;
    assert [""][0] == "";
    if parts != [] {
      forall p | p in parts
        ensures Slashless(p)
      {
        assert forall c :: c in p ==> Alnum(c) || c == '-';
      }
      SplitJoin(parts);
    }
  }

  // pathlib: the name without its last suffix, and that suffix.
  function LastDot(name: string): (k: nat)
    ensures k <= |name|
    ensures k < |name| ==> name[k] == '.' && forall i :: k < i < |name| ==> name[i] != '.'
    ensures k == |name| ==> '.' !in name
  {
    if name == "" then 0
    else if name[|name| - 1] == '.' then |name| - 1
    else
      var k := LastDot(name[..|name| - 1]);
      if k == |name| - 1 then |name| else k
  }

  predicate HasSuffix(name: string) {
    var k := LastDot(name);
    0 < k < |name| - 1
  }

  function Stem(name: string): string {
    if HasSuffix(name) then name[..LastDot(name)] else name
  }

  function Suffix(name: string): string {
    if HasSuffix(name) then name[LastDot(name)..] else ""
  }

  // The last dot divides a name, unless it is the first or the last character.
  lemma StemIs(stem: string, extension: string)
    requires '.' !in extension
    ensures stem != "" && extension != "" ==>
      Stem(stem + "." + extension) == stem && Suffix(stem + "." + extension) == "." + extension
    ensures stem == "" || extension == "" ==>
      Stem(stem + "." + extension) == stem + "." + extension && Suffix(stem + "." + extension) == ""
    ensures Stem(extension) == extension && Suffix(extension) == ""
  {
    var name := stem + "." + extension;
    assert forall i :: |stem| < i < |name| ==> name[i] == extension[i - |stem| - 1];
    assert name[|stem|] == '.' && LastDot(name) == |stem|;
    assert name[..|stem|] == stem && name[|stem|..] == "." + extension;
    assert LastDot(extension) == |extension|;
  }

  // The components of a file below the documents root.
  type FilePath = seq<string>

  // Which document sync_file() files this file under; None when it is ignored.
  function IdOfFile(lower: string -> string, file: FilePath): Option<DocId> {
    if |file| < 2 then None
    else
      var last := |file| - 1;
      var id := DocumentId(lower, file[0], Join(file[1..last] + [Stem(file[last])]));
      if id.path == [] then None else Some(id)
  }

  lemma IdOfFileIs(lower: string -> string, file: FilePath)
    ensures |file| <= 1 ==> IdOfFile(lower, file) == None
    ensures |file| >= 2 ==>
      var parts := NormalizeParts(lower, Join(file[1..|file| - 1] + [Stem(file[|file| - 1])]));
      IdOfFile(lower, file) == if parts == [] then None else Some(DocId(Slugify(lower, file[0]), parts))
  {
  }

  // document_path(): where a document with this id is written.
  function FileOfId(lower: string -> string, collection: string, path: string, suffix: string): Option<FilePath> {
    var parts := NormalizeParts(lower, path);
    if parts == [] then None
    else
      var last := |parts| - 1;
      Some([Slugify(lower, collection)] + parts[..last] + [parts[last] + suffix])
  }

  // Writing a document and indexing the file gives back the document's own id.
  lemma FileIdRoundTrip(lower: string -> string, collection: string, path: string, suffix: string)
    requires LowerKeeps(lower) && suffix in {".md", ".txt"}
    requires NormalizeParts(lower, path) != []
    ensures FileOfId(lower, collection, path, suffix).Some?
    ensures IdOfFile(lower, FileOfId(lower, collection, path, suffix).value)
      == Some(DocumentId(lower, collection, path))
  {
    var parts := NormalizeParts(lower, path);
    var last := |parts| - 1;
    var file := FileOfId(lower, collection, path, suffix).value;
    NormalizedAreSlugs(lower, path);
    SlugifyIdempotent(lower, collection);
    assert parts[last] in parts;
    StemOfSlug(parts[last], suffix);
    assert file[1..|file| - 1] + [Stem(file[|file| - 1])] == parts;
    PartsStay(lower, parts);
  }

  lemma StemOfSlug(slug: string, suffix: string)
    requires slug != "" && IsSlug(slug) && suffix in {".md", ".txt"}
    ensures Stem(slug + suffix) == slug && Suffix(slug + suffix) == suffix
  {
    var name := slug + suffix;
    assert name[|slug|] == '.';
    assert forall i :: |slug| < i < |name| ==> name[i] != '.';
    assert LastDot(name) == |slug|;
    assert name[..|slug|] == slug && name[|slug|..] == suffix;
  }
}
