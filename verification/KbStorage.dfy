// kb/storage.py, split_chunks(): cutting a document body into headed chunks
// of whole paragraphs.
module KbStorage {
  import opened Text
  import opened Sequences

  datatype Chunk = Chunk(heading: string, content: string)

  datatype Section = Section(heading: string, lines: seq<string>)

  // ---- Lines and headings ----

  // The line boundaries of str.splitlines(), all of them white space.
  predicate IsBreak(c: char) {
    var n := c as int;
    10 <= n <= 13 || 28 <= n <= 30 || n == 0x85 || n == 0x2028 || n == 0x2029
  }

  // str.splitlines(): "\r\n" is one boundary, and a final boundary opens no line.
  function Lines(s: string): seq<string> {
    if s == "" then []
    else if s[0] == '\r' && |s| > 1 && s[1] == '\n' then [""] + Lines(s[2..])
    else if IsBreak(s[0]) then [""] + Lines(s[1..])
    else
      var rest := Lines(s[1..]);
      if rest == [] then [[s[0]]] else [[s[0]] + rest[0]] + rest[1..]
  }

  lemma IsBreakIs(c: char)
    ensures IsBreak(c) <==>
      c in {'\n', '\U{0B}', '\U{0C}', '\r', '\U{1C}', '\U{1D}', '\U{1E}', '\U{85}', '\U{2028}', '\U{2029}'}
  {
  }

  function Hashes(s: string): nat {
    if s != "" && s[0] == '#' then 1 + Hashes(s[1..]) else 0
  }

  // HEADING_PATTERN: one to six hashes, white space, the heading.
  predicate IsHeading(line: string) {
    var k := Hashes(line);
    1 <= k <= 6 && k < |line| && IsSpace(line[k])
  }

  function HeadingText(line: string): string
    requires IsHeading(line)
  {
    Strip(line[Hashes(line)..])
  }

  // k hashes and then something else: a heading if k is 1 to 6 and white space
  // follows, with the rest of the line as its text.
  lemma {:induction false} HeadingIs(line: string, k: nat)
    requires k <= |line| && (forall i :: 0 <= i < k ==> line[i] == '#') && (k < |line| ==> line[k] != '#')
    ensures IsHeading(line) <==> 1 <= k <= 6 && k < |line| && IsSpace(line[k])
    ensures IsHeading(line) ==> HeadingText(line) == Strip(line[k..])
  {
    HashesAre(line, k);
  }

  lemma {:induction false} HashesAre(line: string, k: nat)
    requires k <= |line| && (forall i :: 0 <= i < k ==> line[i] == '#') && (k < |line| ==> line[k] != '#')
    ensures Hashes(line) == k
  {
    if k > 0 {
      HashesAre(line[1..], k - 1);
    }
  }

  // separator.join(parts)
  function JoinWith(separator: string, parts: seq<string>): string {
    if parts == [] then ""
    else if |parts| == 1 then parts[0]
    else parts[0] + separator + JoinWith(separator, parts[1..])
  }

  lemma {:induction false} JoinWithConcat(separator: string, a: seq<string>, b: seq<string>)
    requires a != [] && b != []
    ensures JoinWith(separator, a + b) == JoinWith(separator, a) + separator + JoinWith(separator, b)
    ensures |a| == 1 ==> JoinWith(separator, a) == a[0]
  {
    assert (a + b)[0] == a[0] && (a + b)[1..] == a[1..] + b;
    if |a| == 1 {
      assert a[1..] + b == b;
    } else {
      JoinWithConcat(separator, a[1..], b);
      Regrouped(a[0], separator, JoinWith(separator, a[1..]), separator, JoinWith(separator, b));
    }
  }

  lemma Regrouped(a: string, b: string, c: string, d: string, e: string)
    ensures a + b + (c + d + e) == (a + b + c) + d + e
  {
  }

  function TextOf(lines: seq<string>): string {
    Strip(JoinWith("\n", lines))
  }

  function Flush(heading: string, lines: seq<string>): seq<Section> {
    if TextOf(lines) != "" || heading != "" then [Section(heading, lines)] else []
  }

  // The sections of the remaining lines, under a heading whose first lines are `current`.
  function SectionsFrom(lines: seq<string>, heading: string, current: seq<string>): seq<Section>
    decreases |lines|
  {
    if lines == [] then Flush(heading, current)
    else if IsHeading(lines[0]) then Flush(heading, current) + SectionsFrom(lines[1..], HeadingText(lines[0]), [])
    else SectionsFrom(lines[1..], heading, current + [lines[0]])
  }

  function Sections(lines: seq<string>): seq<Section> {
    var sections := SectionsFrom(lines, "", []);
    if sections == [] then [Section("", lines)] else sections
  }

  // The lines above the first heading make one section, unless they are blank and
  // have no heading of their own; the heading opens the next.
  lemma {:induction false} SectionsBreak(
    above: seq<string>, line: string, below: seq<string>, heading: string, current: seq<string>)
    requires IsHeading(line) && forall l :: l in above ==> !IsHeading(l)
    ensures SectionsFrom(above + [line] + below, heading, current)
      == (if heading == "" && Strip(JoinWith("\n", current + above)) == "" then []
          else [Section(heading, current + above)])
         + SectionsFrom(below, HeadingText(line), [])
    decreases |above|
  {
    var lines := above + [line] + below;
    if above == [] {
      assert lines[1..] == below && current + above == current;
    } else {
      assert lines[0] in above && lines[1..] == above[1..] + [line] + below;
      SectionsBreak(above[1..], line, below, heading, current + [above[0]]);
      assert (current + [above[0]]) + above[1..] == current + above;
    }
  }

  lemma {:induction false} LastSection(lines: seq<string>, heading: string, current: seq<string>)
    requires forall l :: l in lines ==> !IsHeading(l)
    ensures SectionsFrom(lines, heading, current)
      == if heading == "" && Strip(JoinWith("\n", current + lines)) == "" then []
         else [Section(heading, current + lines)]
    decreases |lines|
  {
    if lines == [] {
      assert current + lines == current;
    } else {
      assert lines[0] in lines;
      LastSection(lines[1..], heading, current + [lines[0]]);
      assert (current + [lines[0]]) + lines[1..] == current + lines;
    }
  }

  // ---- Paragraphs ----

  // The longest prefix of white space that ends in a newline.
  function BlankPrefix(s: string): (k: nat)
    ensures k <= |s|
    ensures k > 0 ==> s[k - 1] == '\n'
  {
    if s == "" || !IsSpace(s[0]) then 0
    else
      var k := BlankPrefix(s[1..]);
      if k > 0 then k + 1 else if s[0] == '\n' then 1 else 0
  }

  // re.split(r"\n\s*\n", s)
  function SplitBlank(s: string): (parts: seq<string>)
    ensures parts != [] && parts[0] <= s
    decreases |s|
  {
    if s == "" then [""]
    else if s[0] == '\n' && BlankPrefix(s[1..]) > 0 then [""] + SplitBlank(s[1 + BlankPrefix(s[1..])..])
    else
      var rest := SplitBlank(s[1..]);
      [[s[0]] + rest[0]] + rest[1..]
  }

  // The stripped, non-empty ones among the parts.
  function Cleaned(parts: seq<string>): seq<string> {
    if parts == [] then []
    else (if Strip(parts[0]) == "" then [] else [Strip(parts[0])]) + Cleaned(parts[1..])
  }

  lemma {:induction false} CleanedConcat(a: seq<string>, b: seq<string>)
    ensures Cleaned(a + b) == Cleaned(a) + Cleaned(b)
    ensures |a| == 1 ==> Cleaned(a) == if Strip(a[0]) == "" then [] else [Strip(a[0])]
  {
    if a == [] {
      assert a + b == b;
    } else {
      assert (a + b)[1..] == a[1..] + b;
      CleanedConcat(a[1..], b);
      Regroup(if Strip(a[0]) == "" then [] else [Strip(a[0])], Cleaned(a[1..]), Cleaned(b));
    }
  }

  function Paragraphs(text: string): seq<string> {
    Cleaned(SplitBlank(text))
  }

  function ParagraphsOf(text: string): seq<string> {
    if Paragraphs(text) == [] then [text] else Paragraphs(text)
  }

  // ---- Chunks ----

  // The groups of the remaining paragraphs, the first of them opened by `buffer`.
  function Pack(paragraphs: seq<string>, buffer: seq<string>, size: int, max: int): seq<seq<string>>
    decreases |paragraphs|
  {
    if paragraphs == [] then (if buffer == [] then [] else [buffer])
    else
      var p := paragraphs[0];
      if buffer != [] && size + |p| + 2 > max then [buffer] + Pack(paragraphs[1..], [p], |p|, max)
      else Pack(paragraphs[1..], buffer + [p], size + |p| + 2, max)
  }

  function ChunkOf(heading: string, paragraphs: seq<string>): Chunk {
    Chunk(heading, Strip(JoinWith("\n\n", paragraphs)))
  }

  function ChunksOf(heading: string, groups: seq<seq<string>>): seq<Chunk> {
    if groups == [] then [] else [ChunkOf(heading, groups[0])] + ChunksOf(heading, groups[1..])
  }

  function SectionChunks(section: Section, max: int): seq<Chunk> {
    var text := TextOf(section.lines);
    if text == "" then [] else ChunksOf(section.heading, Pack(ParagraphsOf(text), [], 0, max))
  }

  function AllChunks(sections: seq<Section>, max: int): seq<Chunk> {
    if sections == [] then [] else SectionChunks(sections[0], max) + AllChunks(sections[1..], max)
  }

  function SplitChunks(body: string, max: int): seq<Chunk> {
    var chunks := AllChunks(Sections(Lines(body)), max);
    if chunks == [] && Strip(body) != "" then [Chunk("", Strip(body))] else chunks
  }

  // ---- split_chunks(), step by step ----

  method CollectSections(lines: seq<string>) returns (sections: seq<Section>)
    ensures sections == Sections(lines)
  {
    sections := [];
    var heading, current, i := "", [], 0;
    while i < |lines|
      invariant 0 <= i <= |lines|
      invariant SectionsFrom(lines, "", []) == sections + SectionsFrom(lines[i..], heading, current)
    {
      var line := lines[i];
      NextLine(lines, i, sections, heading, current);
      if IsHeading(line) {
        sections := sections + Flush(heading, current);
        heading, current := HeadingText(line), [];
      } else {
        current := current + [line];
      }
      i := i + 1;
    }
    assert lines[i..] == [];
    sections := sections + Flush(heading, current);
    if sections == [] {
      sections := [Section("", lines)];
    }
  }

  lemma NextLine(lines: seq<string>, i: nat, sections: seq<Section>, h: string, current: seq<string>)
    requires i < |lines|
    ensures sections + SectionsFrom(lines[i..], h, current)
      == if IsHeading(lines[i])
         then (sections + Flush(h, current)) + SectionsFrom(lines[i + 1..], HeadingText(lines[i]), [])
         else sections + SectionsFrom(lines[i + 1..], h, current + [lines[i]])
  {
    assert lines[i..][0] == lines[i] && lines[i..][1..] == lines[i + 1..];
  }

  method PackSection(heading: string, paragraphs: seq<string>, max: int) returns (chunks: seq<Chunk>)
    ensures chunks == ChunksOf(heading, Pack(paragraphs, [], 0, max))
  {
    ghost var all := ChunksOf(heading, Pack(paragraphs, [], 0, max));
    chunks := [];
    var buffer: seq<string>, size, i := [], 0, 0;
    assert paragraphs[0..] == paragraphs && [] + all == all;
    while i < |paragraphs|
      invariant 0 <= i <= |paragraphs|
      invariant all == chunks + ChunksOf(heading, Pack(paragraphs[i..], buffer, size, max))
    {
      var p := paragraphs[i];
      NextParagraph(heading, paragraphs, i, chunks, buffer, size, max);
      if buffer != [] && size + |p| + 2 > max {
        chunks := chunks + [ChunkOf(heading, buffer)];
        buffer, size := [p], |p|;
      } else {
        buffer, size := buffer + [p], size + |p| + 2;
      }
      i := i + 1;
    }
    assert paragraphs[i..] == [];
    LastGroup(heading, chunks, buffer, size, max);
    if buffer != [] {
      chunks := chunks + [ChunkOf(heading, buffer)];
    }
  }

  lemma LastGroup(h: string, chunks: seq<Chunk>, buffer: seq<string>, size: int, max: int)
    ensures chunks + ChunksOf(h, Pack([], buffer, size, max))
      == if buffer == [] then chunks else chunks + [ChunkOf(h, buffer)]
  {
    FirstGroup(h, buffer, []);
  }

  lemma NextParagraph(
    h: string, ps: seq<string>, i: nat, chunks: seq<Chunk>, buffer: seq<string>, size: int, max: int)
    requires i < |ps|
    ensures chunks + ChunksOf(h, Pack(ps[i..], buffer, size, max))
      == if buffer != [] && size + |ps[i]| + 2 > max
         then (chunks + [ChunkOf(h, buffer)]) + ChunksOf(h, Pack(ps[i + 1..], [ps[i]], |ps[i]|, max))
         else chunks + ChunksOf(h, Pack(ps[i + 1..], buffer + [ps[i]], size + |ps[i]| + 2, max))
  {
    var rest := ps[i + 1..];
    assert ps[i..][0] == ps[i] && ps[i..][1..] == rest;
    PackStep(ps[i..], buffer, size, max);
    var after := Pack(rest, [ps[i]], |ps[i]|, max);
    FirstGroup(h, buffer, after);
    Regroup(chunks, [ChunkOf(h, buffer)], ChunksOf(h, after));
  }

  method PackSections(sections: seq<Section>, max: int) returns (chunks: seq<Chunk>)
    ensures chunks == AllChunks(sections, max)
  {
    chunks := [];
    var i := 0;
    assert sections[0..] == sections;
    while i < |sections|
      invariant 0 <= i <= |sections|
      invariant AllChunks(sections, max) == chunks + AllChunks(sections[i..], max)
    {
      var more := OneSection(sections[i], max);
      NextSection(sections, i, chunks, max);
      chunks := chunks + more;
      i := i + 1;
    }
    assert sections[i..] == [];
  }

  method OneSection(section: Section, max: int) returns (chunks: seq<Chunk>)
    ensures chunks == SectionChunks(section, max)
  {
    var text := TextOf(section.lines);
    chunks := [];
    if text != "" {
      chunks := PackSection(section.heading, ParagraphsOf(text), max);
    }
  }

  lemma NextSection(sections: seq<Section>, i: nat, chunks: seq<Chunk>, max: int)
    requires i < |sections|
    ensures chunks + AllChunks(sections[i..], max)
         == chunks + SectionChunks(sections[i], max) + AllChunks(sections[i + 1..], max)
  {
    assert sections[i..][0] == sections[i] && sections[i..][1..] == sections[i + 1..];
  }

  method SplitIntoChunks(body: string, max: int) returns (chunks: seq<Chunk>)
    ensures chunks == SplitChunks(body, max)
    ensures ChunkMarks(chunks) == Expected(body)
    ensures HasText(body) ==> forall c :: c in chunks ==> FitsOrSingle(c, max)
  {
    var sections := CollectSections(Lines(body));
    chunks := PackSections(sections, max);
    if chunks == [] {
      var text := Strip(body);
      if text != "" {
        chunks := [Chunk("", text)];
      }
    }
    Conservation(body, max);
    LengthBound(body, max);
  }

  // ---- Conservation: every character that is not white space, with its heading ----

  function Marks(heading: string, s: string): seq<(string, char)> {
    if s == "" then []
    else (if IsSpace(s[0]) then [] else [(heading, s[0])]) + Marks(heading, s[1..])
  }

  function ChunkMarks(chunks: seq<Chunk>): seq<(string, char)> {
    if chunks == [] then []
    else Marks(chunks[0].heading, chunks[0].content) + ChunkMarks(chunks[1..])
  }

  // The marks of the lines that are not headings, each under the last heading before it.
  function LineMarks(lines: seq<string>, heading: string): seq<(string, char)> {
    if lines == [] then []
    else if IsHeading(lines[0]) then LineMarks(lines[1..], HeadingText(lines[0]))
    else Marks(heading, lines[0]) + LineMarks(lines[1..], heading)
  }

  // What the chunks of a body must hold: its text under its headings, or,
  // when there is no text at all below any heading, the whole body.
  function Expected(body: string): seq<(string, char)> {
    var marks := LineMarks(Lines(body), "");
    if marks != [] then marks else Marks("", body)
  }

  function PartMarks(heading: string, parts: seq<string>): seq<(string, char)> {
    if parts == [] then [] else Marks(heading, parts[0]) + PartMarks(heading, parts[1..])
  }

  lemma Shift<T>(a: seq<T>, b: seq<T>)
    requires b != []
    ensures (a + [b[0]]) + b[1..] == a + b
  {
    assert b == [b[0]] + b[1..];
    Regroup(a, [b[0]], b[1..]);
  }

  lemma {:induction false} MarksConcat(h: string, a: string, b: string)
    ensures Marks(h, a + b) == Marks(h, a) + Marks(h, b)
  {
    if a == "" {
      assert a + b == b;
    } else {
      assert (a + b)[1..] == a[1..] + b;
      MarksConcat(h, a[1..], b);
    }
  }

  lemma {:induction false} PartMarksConcat(h: string, a: seq<string>, b: seq<string>)
    ensures PartMarks(h, a + b) == PartMarks(h, a) + PartMarks(h, b)
  {
    if a == [] {
      assert a + b == b;
    } else {
      assert (a + b)[1..] == a[1..] + b;
      PartMarksConcat(h, a[1..], b);
    }
  }

  lemma {:induction false} LStripMarks(h: string, s: string)
    ensures Marks(h, LStrip(s)) == Marks(h, s)
  {
    if s != "" && IsSpace(s[0]) {
      LStripMarks(h, s[1..]);
    }
  }

  lemma {:induction false} RStripMarks(h: string, s: string)
    ensures Marks(h, RStrip(s)) == Marks(h, s)
  {
    if s != "" && IsSpace(s[|s| - 1]) {
      var t := s[..|s| - 1];
      RStripMarks(h, t);
      MarksConcat(h, t, [s[|s| - 1]]);
      assert s == t + [s[|s| - 1]];
    }
  }

  lemma StripMarks(h: string, s: string)
    ensures Marks(h, Strip(s)) == Marks(h, s)
  {
    LStripMarks(h, s);
    RStripMarks(h, LStrip(s));
  }

  // A stripped string without marks is empty.
  lemma StripEmpty(h: string, s: string)
    ensures Strip(s) == "" <==> Marks(h, s) == []
  {
    StripMarks(h, s);
  }

  lemma {:induction false} JoinMarks(h: string, separator: string, parts: seq<string>)
    requires Marks(h, separator) == []
    ensures Marks(h, JoinWith(separator, parts)) == PartMarks(h, parts)
  {
    if |parts| > 1 {
      JoinMarks(h, separator, parts[1..]);
      MarksConcat(h, parts[0] + separator, JoinWith(separator, parts[1..]));
      MarksConcat(h, parts[0], separator);
    }
  }

  lemma {:induction false} LinesMarks(h: string, s: string)
    ensures PartMarks(h, Lines(s)) == Marks(h, s)
    decreases |s|
  {
    if s == "" {
    } else if s[0] == '\r' && |s| > 1 && s[1] == '\n' {
      LinesMarks(h, s[2..]);
      assert s[1..][1..] == s[2..];
    } else if IsBreak(s[0]) {
      LinesMarks(h, s[1..]);
    } else {
      LinesMarks(h, s[1..]);
      FirstPartMarks(h, s[0], Lines(s[1..]));
      MarksConcat(h, [s[0]], s[1..]);
      assert s == [s[0]] + s[1..];
    }
  }

  // A character put in front of the first part.
  lemma FirstPartMarks(h: string, c: char, rest: seq<string>)
    ensures rest == [] ==> PartMarks(h, [[c]]) == Marks(h, [c])
    ensures rest != [] ==> PartMarks(h, [[c] + rest[0]] + rest[1..]) == Marks(h, [c]) + PartMarks(h, rest)
  {
    if rest == [] {
      assert [[c]][1..] == [];
    } else {
      var parts := [[c] + rest[0]] + rest[1..];
      MarksConcat(h, [c], rest[0]);
      assert parts[0] == [c] + rest[0] && parts[1..] == rest[1..];
      Regroup(Marks(h, [c]), Marks(h, rest[0]), PartMarks(h, rest[1..]));
    }
  }

  lemma {:induction false} BlankMarks(h: string, s: string)
    ensures Marks(h, s[..BlankPrefix(s)]) == []
  {
    var k := BlankPrefix(s);
    if k > 0 {
      BlankMarks(h, s[1..]);
      assert s[..k][1..] == s[1..][..k - 1];
    }
  }

  lemma {:induction false} SplitBlankMarks(h: string, s: string)
    ensures PartMarks(h, SplitBlank(s)) == Marks(h, s)
    decreases |s|
  {
    if s == "" {
    } else if s[0] == '\n' && BlankPrefix(s[1..]) > 0 {
      SplitBlankMarks(h, s[1 + BlankPrefix(s[1..])..]);
      AfterBlankMarks(h, s[1..]);
    } else {
      SplitBlankMarks(h, s[1..]);
      FirstPartMarks(h, s[0], SplitBlank(s[1..]));
      MarksConcat(h, [s[0]], s[1..]);
      assert s == [s[0]] + s[1..];
    }
  }

  lemma AfterBlankMarks(h: string, s: string)
    ensures Marks(h, s[BlankPrefix(s)..]) == Marks(h, s)
  {
    var k := BlankPrefix(s);
    BlankMarks(h, s);
    MarksConcat(h, s[..k], s[k..]);
    assert s == s[..k] + s[k..];
  }

  lemma {:induction false} CleanedMarks(h: string, parts: seq<string>)
    ensures PartMarks(h, Cleaned(parts)) == PartMarks(h, parts)
  {
    if parts != [] {
      CleanedMarks(h, parts[1..]);
      StripMarks(h, parts[0]);
      var first := if Strip(parts[0]) == "" then [] else [Strip(parts[0])];
      PartMarksConcat(h, first, Cleaned(parts[1..]));
    }
  }

  lemma ParagraphsMarks(h: string, text: string)
    ensures PartMarks(h, Paragraphs(text)) == Marks(h, text)
  {
    SplitBlankMarks(h, text);
    CleanedMarks(h, SplitBlank(text));
  }

  // The fallback to the whole section text is never taken.
  lemma AlwaysParagraphs(text: string)
    requires Stripped(text) && text != ""
    ensures ParagraphsOf(text) == Paragraphs(text) != []
  {
    ParagraphsMarks("", text);
  }

  lemma {:induction false} GroupMarks(h: string, groups: seq<seq<string>>)
    ensures ChunkMarks(ChunksOf(h, groups)) == PartMarks(h, Concat(groups))
  {
    if groups != [] {
      GroupMarks(h, groups[1..]);
      ChunkOfMarks(h, groups[0]);
      PartMarksConcat(h, groups[0], Concat(groups[1..]));
    }
  }

  lemma ChunkOfMarks(h: string, group: seq<string>)
    ensures Marks(h, ChunkOf(h, group).content) == PartMarks(h, group)
  {
    StripMarks(h, JoinWith("\n\n", group));
    MarksConcat(h, "\n", "\n");
    assert "\n" + "\n" == "\n\n";
    JoinMarks(h, "\n\n", group);
  }

  function SectionMarks(sections: seq<Section>): seq<(string, char)> {
    if sections == [] then []
    else PartMarks(sections[0].heading, sections[0].lines) + SectionMarks(sections[1..])
  }

  lemma TextMarks(h: string, lines: seq<string>)
    ensures Marks(h, TextOf(lines)) == PartMarks(h, lines)
  {
    StripMarks(h, JoinWith("\n", lines));
    JoinMarks(h, "\n", lines);
  }

  lemma SectionChunkMarks(section: Section, max: int)
    ensures ChunkMarks(SectionChunks(section, max)) == PartMarks(section.heading, section.lines)
  {
    var h, text := section.heading, TextOf(section.lines);
    TextMarks(h, section.lines);
    if text != "" {
      AlwaysParagraphs(text);
      PackGroups(Paragraphs(text), [], 0, max);
      assert [] + Paragraphs(text) == Paragraphs(text);
      GroupMarks(h, Pack(Paragraphs(text), [], 0, max));
      ParagraphsMarks(h, text);
    }
  }

  lemma {:induction false} ChunkMarksConcat(a: seq<Chunk>, b: seq<Chunk>)
    ensures ChunkMarks(a + b) == ChunkMarks(a) + ChunkMarks(b)
  {
    if a == [] {
      assert a + b == b;
    } else {
      assert (a + b)[1..] == a[1..] + b;
      ChunkMarksConcat(a[1..], b);
    }
  }

  lemma {:induction false} AllChunkMarks(sections: seq<Section>, max: int)
    ensures ChunkMarks(AllChunks(sections, max)) == SectionMarks(sections)
  {
    if sections != [] {
      AllChunkMarks(sections[1..], max);
      SectionChunkMarks(sections[0], max);
      ChunkMarksConcat(SectionChunks(sections[0], max), AllChunks(sections[1..], max));
    }
  }

  lemma {:induction false} SectionMarksConcat(a: seq<Section>, b: seq<Section>)
    ensures SectionMarks(a + b) == SectionMarks(a) + SectionMarks(b)
  {
    if a == [] {
      assert a + b == b;
    } else {
      assert (a + b)[1..] == a[1..] + b;
      SectionMarksConcat(a[1..], b);
    }
  }

  lemma {:induction false} SectionsFromMarks(lines: seq<string>, h: string, current: seq<string>)
    ensures SectionMarks(SectionsFrom(lines, h, current)) == PartMarks(h, current) + LineMarks(lines, h)
    decreases |lines|
  {
    if lines == [] {
      FlushMarks(h, current);
      assert PartMarks(h, current) + [] == PartMarks(h, current);
    } else if IsHeading(lines[0]) {
      var next := HeadingText(lines[0]);
      SectionsFromMarks(lines[1..], next, []);
      FlushMarks(h, current);
      SectionMarksConcat(Flush(h, current), SectionsFrom(lines[1..], next, []));
      assert [] + LineMarks(lines[1..], next) == LineMarks(lines[1..], next);
    } else {
      SectionsFromMarks(lines[1..], h, current + [lines[0]]);
      PartMarksConcat(h, current, [lines[0]]);
      assert PartMarks(h, [lines[0]]) == Marks(h, lines[0]);
      Regroup(PartMarks(h, current), Marks(h, lines[0]), LineMarks(lines[1..], h));
    }
  }

  lemma FlushMarks(h: string, lines: seq<string>)
    ensures SectionMarks(Flush(h, lines)) == PartMarks(h, lines)
    ensures Flush(h, lines) == [] ==> PartMarks(h, lines) == []
  {
    TextMarks(h, lines);
  }

  // Nothing is lost, added, reordered or put under another heading.
  lemma Conservation(body: string, max: int)
    ensures ChunkMarks(SplitChunks(body, max)) == Expected(body)
  {
    var sections := Sections(Lines(body));
    SectionsMarks(body);
    AllChunkMarks(sections, max);
    NoChunks(sections, max);
    StripMarks("", body);
    if SectionMarks(sections) == [] && Strip(body) != "" {
      assert ChunkMarks([Chunk("", Strip(body))]) == Marks("", Strip(body)) + ChunkMarks([]);
    }
  }

  lemma SectionsMarks(body: string)
    ensures var marks := SectionMarks(Sections(Lines(body)));
      marks == LineMarks(Lines(body), "") || (LineMarks(Lines(body), "") == [] && marks == Marks("", body))
  {
    var lines := Lines(body);
    SectionsFromMarks(lines, "", []);
    assert PartMarks("", []) + LineMarks(lines, "") == LineMarks(lines, "");
    if SectionsFrom(lines, "", []) == [] {
      LinesMarks("", body);
      assert SectionMarks([Section("", lines)]) == PartMarks("", lines) + SectionMarks([]);
    }
  }

  // Only sections without a mark give no chunk.
  lemma {:induction false} NoChunks(sections: seq<Section>, max: int)
    ensures AllChunks(sections, max) == [] <==> SectionMarks(sections) == []
  {
    AllChunkMarks(sections, max);
    if sections != [] && SectionMarks(sections) == [] {
      NoChunks(sections[1..], max);
      TextMarks(sections[0].heading, sections[0].lines);
      StripEmpty(sections[0].heading, TextOf(sections[0].lines));
      StrippedStays(TextOf(sections[0].lines));
    }
  }

  // ---- Whole paragraphs, and lengths ----

  // A paragraph as re.split and strip() leave it.
  predicate Unbroken(s: string) {
    forall i :: 0 <= i < |s| && s[i] == '\n' ==> BlankPrefix(s[i + 1..]) == 0
  }

  // No two newlines have nothing but white space between them.
  lemma UnbrokenIs(s: string)
    ensures Unbroken(s) <==>
      !exists i, j :: 0 <= i < j < |s| && s[i] == '\n' && s[j] == '\n' && forall k :: i < k < j ==> IsSpace(s[k])
  {
    forall i | 0 <= i < |s| && s[i] == '\n'
      ensures BlankPrefix(s[i + 1..]) > 0 <==>
        exists j :: i < j < |s| && s[j] == '\n' && forall k :: i < k < j ==> IsSpace(s[k])
    {
      var t := s[i + 1..];
      BlankPrefixWhen(t);
      if BlankPrefix(t) > 0 {
        var m :| 0 <= m < |t| && t[m] == '\n' && forall k :: 0 <= k < m ==> IsSpace(t[k]);
        assert s[i + 1 + m] == '\n';
        assert forall k :: i < k < i + 1 + m ==> s[k] == t[k - i - 1];
      }
      if j :| i < j < |s| && s[j] == '\n' && forall k :: i < k < j ==> IsSpace(s[k]) {
        assert t[j - i - 1] == '\n';
      }
    }
  }

  lemma {:induction false} BlankPrefixWhen(s: string)
    ensures BlankPrefix(s) > 0 <==> exists m :: 0 <= m < |s| && s[m] == '\n' && forall k :: 0 <= k < m ==> IsSpace(s[k])
  {
    if s != "" && IsSpace(s[0]) {
      BlankPrefixWhen(s[1..]);
      if m :| 0 <= m < |s| && s[m] == '\n' && forall k :: 0 <= k < m ==> IsSpace(s[k]) {
        assert m > 0 ==> s[1..][m - 1] == '\n';
      }
      if m :| 0 <= m < |s[1..]| && s[1..][m] == '\n' && forall k :: 0 <= k < m ==> IsSpace(s[1..][k]) {
        assert s[m + 1] == '\n' && forall k :: 0 < k < m + 1 ==> s[k] == s[1..][k - 1];
      }
    }
  }

  predicate Solid(p: string) {
    p != "" && Stripped(p) && Unbroken(p)
  }

  predicate AllSolid(ps: seq<string>) {
    forall p :: p in ps ==> Solid(p)
  }

  lemma {:induction false} BlankPrefixGrows(s: string, t: string)
    requires s <= t && BlankPrefix(s) > 0
    ensures BlankPrefix(t) > 0
  {
    assert s[0] == t[0];
    if BlankPrefix(s[1..]) > 0 {
      BlankPrefixGrows(s[1..], t[1..]);
    }
  }

  lemma PrefixUnbroken(s: string, t: string)
    requires s <= t && Unbroken(t)
    ensures Unbroken(s)
  {
    forall i | 0 <= i < |s| && s[i] == '\n'
      ensures BlankPrefix(s[i + 1..]) == 0
    {
      assert t[i] == '\n';
      if BlankPrefix(s[i + 1..]) > 0 {
        BlankPrefixGrows(s[i + 1..], t[i + 1..]);
      }
    }
  }

  lemma SuffixUnbroken(s: string, k: nat)
    requires k <= |s| && Unbroken(s)
    ensures Unbroken(s[k..])
  {
    var t := s[k..];
    forall i | 0 <= i < |t| && t[i] == '\n'
      ensures BlankPrefix(t[i + 1..]) == 0
    {
      assert s[k + i] == '\n' && t[i + 1..] == s[k + i + 1..];
    }
  }

  lemma {:induction false} LStripIsSuffix(s: string)
    ensures LStrip(s) == s[|s| - |LStrip(s)|..]
  {
    if s != "" && IsSpace(s[0]) {
      LStripIsSuffix(s[1..]);
    }
  }

  lemma StripUnbroken(s: string)
    requires Unbroken(s)
    ensures Unbroken(Strip(s))
  {
    LStripIsSuffix(s);
    SuffixUnbroken(s, |s| - |LStrip(s)|);
    PrefixUnbroken(Strip(s), LStrip(s));
  }

  lemma {:induction false} PartsUnbroken(s: string)
    ensures forall p :: p in SplitBlank(s) ==> Unbroken(p)
    decreases |s|
  {
    if s == "" {
    } else if s[0] == '\n' && BlankPrefix(s[1..]) > 0 {
      PartsUnbroken(s[1 + BlankPrefix(s[1..])..]);
    } else {
      PartsUnbroken(s[1..]);
      var rest := SplitBlank(s[1..]);
      var first := [s[0]] + rest[0];
      assert Unbroken(rest[0]);
      forall i | 0 <= i < |first| && first[i] == '\n'
        ensures BlankPrefix(first[i + 1..]) == 0
      {
        if i == 0 {
          assert first[1..] == rest[0];
          if BlankPrefix(rest[0]) > 0 {
            BlankPrefixGrows(rest[0], s[1..]);
          }
        } else {
          assert first[i + 1..] == rest[0][i..] && rest[0][i - 1] == '\n';
        }
      }
    }
  }

  lemma {:induction false} CleanedSolid(parts: seq<string>)
    requires forall p :: p in parts ==> Unbroken(p)
    ensures AllSolid(Cleaned(parts))
  {
    if parts != [] {
      StripUnbroken(parts[0]);
      CleanedSolid(parts[1..]);
    }
  }

  lemma ParagraphsSolid(text: string)
    ensures AllSolid(Paragraphs(text))
  {
    PartsUnbroken(text);
    CleanedSolid(SplitBlank(text));
  }

  // White space behind the last mark of `s` does not show in front of it.
  lemma {:induction false} BlankPrefixStops(s: string, t: string)
    requires s != "" && !IsSpace(s[|s| - 1])
    ensures BlankPrefix(s + t) == BlankPrefix(s)
  {
    assert (s + t)[0] == s[0];
    if IsSpace(s[0]) {
      assert (s + t)[1..] == s[1..] + t;
      BlankPrefixStops(s[1..], t);
    }
  }

  lemma {:induction false} BlankPrefixIs(w: string, t: string)
    requires (forall c :: c in w ==> IsSpace(c)) && (t != "" ==> !IsSpace(t[0]))
    ensures BlankPrefix(w + "\n" + t) == |w| + 1
  {
    var s := w + "\n" + t;
    if w == "" {
      assert s[1..] == t;
    } else {
      assert s[0] == w[0] && w[0] in w && s[1..] == w[1..] + "\n" + t;
      assert forall c :: c in w[1..] ==> c in w;
      BlankPrefixIs(w[1..], t);
    }
  }

  // Splitting takes the first paragraph off a text: two newlines with nothing but
  // white space between them end it.
  lemma {:induction false} SplitFirstParagraph(p: string, w: string, t: string)
    requires Unbroken(p) && (p != "" ==> !IsSpace(p[|p| - 1]))
    requires (forall c :: c in w ==> IsSpace(c)) && (t != "" ==> !IsSpace(t[0]))
    ensures SplitBlank(p + "\n" + w + "\n" + t) == [p] + SplitBlank(t)
  {
    BlankPrefixIs(w, t);
    GapEnds(p, w, t);
    SplitAfter(p, w + "\n" + t, t);
  }

  lemma GapEnds(p: string, w: string, t: string)
    ensures p + "\n" + w + "\n" + t == p + "\n" + (w + "\n" + t)
    ensures (w + "\n" + t)[|w| + 1..] == t
  {
  }

  lemma {:induction false} SplitAfter(p: string, gap: string, t: string)
    requires Unbroken(p) && (p != "" ==> !IsSpace(p[|p| - 1]))
    requires BlankPrefix(gap) > 0 && gap[BlankPrefix(gap)..] == t
    ensures SplitBlank(p + "\n" + gap) == [p] + SplitBlank(t)
  {
    if p == "" {
      SplitAtGap(gap, t);
      assert p + "\n" + gap == "\n" + gap;
    } else {
      SuffixUnbroken(p, 1);
      SplitAfter(p[1..], gap, t);
      UnbrokenStart(p, "\n" + gap);
      FrontOf(p, gap);
      SplitNone(p[0], p[1..] + "\n" + gap);
    }
  }

  lemma SplitAtGap(gap: string, t: string)
    requires BlankPrefix(gap) > 0 && gap[BlankPrefix(gap)..] == t
    ensures SplitBlank("\n" + gap) == [""] + SplitBlank(t)
  {
    var s := "\n" + gap;
    assert s[0] == '\n' && s[1..] == gap && s[1 + BlankPrefix(gap)..] == t;
  }

  lemma FrontOf(p: string, gap: string)
    requires p != ""
    ensures p + "\n" + gap == [p[0]] + (p[1..] + "\n" + gap) && p[1..] + ("\n" + gap) == p[1..] + "\n" + gap
    ensures p == [p[0]] + p[1..]
  {
  }

  lemma UnbrokenStart(p: string, t: string)
    requires Unbroken(p) && p != "" && !IsSpace(p[|p| - 1])
    ensures p[0] == '\n' ==> BlankPrefix(p[1..] + t) == 0
  {
    if p[0] == '\n' {
      assert BlankPrefix(p[1..]) == 0;
      BlankPrefixStops(p[1..], t);
    }
  }

  lemma SplitNone(c: char, s: string)
    requires c == '\n' ==> BlankPrefix(s) == 0
    ensures SplitBlank([c] + s) == [[c] + SplitBlank(s)[0]] + SplitBlank(s)[1..]
  {
    assert ([c] + s)[1..] == s;
  }

  lemma {:induction false} SplitSolid(p: string)
    requires Unbroken(p)
    ensures SplitBlank(p) == [p]
  {
    if p != "" {
      SuffixUnbroken(p, 1);
      SplitSolid(p[1..]);
      assert p == [p[0]] + p[1..];
    }
  }

  lemma {:induction false} JoinedIsStripped(ps: seq<string>)
    requires ps != [] && AllSolid(ps)
    ensures var s := JoinWith("\n\n", ps);
      s != "" && ps[0] != "" && s[0] == ps[0][0] && Stripped(s) && Strip(s) == s
  {
    assert Solid(ps[0]);
    if |ps| > 1 {
      JoinedIsStripped(ps[1..]);
    }
    StrippedStays(JoinWith("\n\n", ps));
  }

  lemma NoGap(p: string, rest: string)
    ensures p + "\n" + "" + "\n" + rest == p + "\n\n" + rest
  {
    assert "\n" + "" + "\n" == "\n\n";
  }

  // The paragraphs of a chunk are the paragraphs packed into it.
  lemma {:induction false} ChunkParagraphs(ps: seq<string>)
    requires ps != [] && AllSolid(ps)
    ensures Paragraphs(JoinWith("\n\n", ps)) == ps
  {
    var p := ps[0];
    assert Solid(p);
    StrippedStays(p);
    assert ps == [p] + ps[1..];
    if |ps| == 1 {
      SplitSolid(p);
      assert Cleaned([p]) == [p] + Cleaned([]);
    } else {
      var rest := JoinWith("\n\n", ps[1..]);
      assert Solid(ps[1]);
      JoinedIsStripped(ps[1..]);
      ChunkParagraphs(ps[1..]);
      SplitFirstParagraph(p, "", rest);
      NoGap(p, rest);
      var all := [p] + SplitBlank(rest);
      assert all[1..] == SplitBlank(rest);
    }
  }

  function ChunkParts(chunks: seq<Chunk>): seq<string> {
    if chunks == [] then [] else Paragraphs(chunks[0].content) + ChunkParts(chunks[1..])
  }

  // More than one paragraph only within the limit.
  predicate FitsOrSingle(c: Chunk, max: int) {
    |Paragraphs(c.content)| >= 2 ==> |c.content| <= max
  }

  // Two neighbours could not have been one chunk.
  predicate Tight(chunks: seq<Chunk>, max: int) {
    forall i :: 0 <= i < |chunks| - 1 ==> |chunks[i].content| + |chunks[i + 1].content| > max - 4
  }

  // Chunks of one heading, each its own paragraphs with one blank line between them.
  predicate Under(chunks: seq<Chunk>, heading: string) {
    forall c :: c in chunks ==> c.heading == heading && Whole(c)
  }

  predicate Whole(c: Chunk) {
    c.content != "" && c.content == JoinWith("\n\n", Paragraphs(c.content))
  }

  // The running length of the buffer: exact, or two above in a section's first chunk.
  predicate Measures(buffer: seq<string>, size: int, max: int) {
    if buffer == [] then size == 0
    else
      && JoinedLength(buffer) <= size <= JoinedLength(buffer) + 2
      && (|buffer| >= 2 ==> size <= max)
  }

  function JoinedLength(ps: seq<string>): int {
    |JoinWith("\n\n", ps)|
  }

  lemma {:induction false} JoinSnoc(ps: seq<string>, p: string)
    requires ps != []
    ensures JoinWith("\n\n", ps + [p]) == JoinWith("\n\n", ps) + "\n\n" + p
  {
    if |ps| > 1 {
      assert (ps + [p])[1..] == ps[1..] + [p];
      JoinSnoc(ps[1..], p);
      var rest := JoinWith("\n\n", ps[1..]);
      assert ps[0] + "\n\n" + (rest + "\n\n" + p) == (ps[0] + "\n\n" + rest) + "\n\n" + p;
    } else {
      assert (ps + [p])[1..] == [p];
    }
  }

  function Concat(groups: seq<seq<string>>): seq<string> {
    if groups == [] then [] else groups[0] + Concat(groups[1..])
  }

  predicate Fits(group: seq<string>, max: int) {
    group != [] && (|group| >= 2 ==> JoinedLength(group) <= max)
  }

  // Every group fits, and no two neighbours would have fitted together.
  predicate Grouped(groups: seq<seq<string>>, max: int) {
    groups == [] || (
      && Fits(groups[0], max)
      && (|groups| > 1 ==> JoinedLength(groups[0]) + JoinedLength(groups[1]) > max - 4)
      && Grouped(groups[1..], max))
  }

  lemma {:induction false} PackGroups(ps: seq<string>, buffer: seq<string>, size: int, max: int)
    requires Measures(buffer, size, max)
    ensures var groups := Pack(ps, buffer, size, max);
      && Concat(groups) == buffer + ps && Grouped(groups, max)
      && (buffer + ps != [] ==> groups != [] && JoinedLength(groups[0]) >= JoinedLength(buffer))
    decreases |ps|
  {
    if ps == [] {
      assert buffer + ps == buffer;
      assert buffer != [] ==> [buffer][1..] == [];
    } else if buffer == [] || size + |ps[0]| + 2 <= max {
      MeasureMore(buffer, ps[0], size, max);
      PackGroups(ps[1..], buffer + [ps[0]], size + |ps[0]| + 2, max);
      Shift(buffer, ps);
    } else {
      var rest := Pack(ps[1..], [ps[0]], |ps[0]|, max);
      PackGroups(ps[1..], [ps[0]], |ps[0]|, max);
      assert [ps[0]] + ps[1..] == ps;
      assert ([buffer] + rest)[1..] == rest;
    }
  }

  // How the groups are made: each takes paragraphs for as long as they fit, two
  // characters less in the first group of a section than in the others.
  predicate Greedy(groups: seq<seq<string>>, limit: int, max: int) {
    groups == [] || (
      && groups[0] != []
      && (|groups[0]| >= 2 ==> JoinedLength(groups[0]) <= limit)
      && (|groups| > 1 ==> groups[1] != [] && JoinedLength(groups[0]) + 2 + |groups[1][0]| > limit)
      && Greedy(groups[1..], max, max))
  }

  lemma {:induction false} PackGreedy(ps: seq<string>, buffer: seq<string>, size: int, slack: int, max: int)
    requires if buffer == [] then size == 0 && slack == 2 else size == JoinedLength(buffer) + slack
    requires |buffer| >= 2 ==> size <= max
    ensures var groups := Pack(ps, buffer, size, max);
      && Greedy(groups, max - slack, max)
      && (groups == [] <==> buffer + ps == [])
      && (groups != [] ==> groups[0] != [] && groups[0][0] == (buffer + ps)[0])
    decreases |ps|
  {
    if ps == [] {
      assert buffer + ps == buffer;
      assert buffer != [] ==> [buffer][1..] == [];
    } else if buffer == [] || size + |ps[0]| + 2 <= max {
      if buffer != [] {
        JoinSnoc(buffer, ps[0]);
      } else {
        assert buffer + [ps[0]] == [ps[0]];
      }
      PackGreedy(ps[1..], buffer + [ps[0]], size + |ps[0]| + 2, slack, max);
      assert (buffer + [ps[0]]) + ps[1..] == buffer + ps;
    } else {
      PackGreedy(ps[1..], [ps[0]], |ps[0]|, 0, max);
      assert [ps[0]] + ps[1..] == ps;
      assert ([buffer] + Pack(ps[1..], [ps[0]], |ps[0]|, max))[1..] == Pack(ps[1..], [ps[0]], |ps[0]|, max);
    }
  }

  lemma {:induction false} GreedyAt(groups: seq<seq<string>>, limit: int, max: int, i: nat)
    requires Greedy(groups, limit, max) && i < |groups|
    ensures var here := if i == 0 then limit else max;
      && groups[i] != []
      && (|groups[i]| >= 2 ==> JoinedLength(groups[i]) <= here)
      && (i + 1 < |groups| ==> groups[i + 1] != [] && JoinedLength(groups[i]) + 2 + |groups[i + 1][0]| > here)
  {
    if i > 0 {
      GreedyAt(groups[1..], max, max, i - 1);
    }
  }

  lemma PackExact(ps: seq<string>, max: int, i: nat)
    requires i < |Pack(ps, [], 0, max)|
    ensures var groups, limit := Pack(ps, [], 0, max), if i == 0 then max - 2 else max;
      && Concat(groups) == ps && groups[i] != []
      && (|groups[i]| >= 2 ==> |JoinWith("\n\n", groups[i])| <= limit)
      && (i + 1 < |groups| ==>
            groups[i + 1] != [] && |JoinWith("\n\n", groups[i])| + 2 + |groups[i + 1][0]| > limit)
  {
    PackGreedy(ps, [], 0, 2, max);
    GreedyAt(Pack(ps, [], 0, max), max - 2, max, i);
    PackGroups(ps, [], 0, max);
    assert [] + ps == ps;
  }

  lemma PackStep(ps: seq<string>, buffer: seq<string>, size: int, max: int)
    requires ps != []
    ensures buffer != [] && size + |ps[0]| + 2 > max ==>
      Pack(ps, buffer, size, max) == [buffer] + Pack(ps[1..], [ps[0]], |ps[0]|, max)
    ensures !(buffer != [] && size + |ps[0]| + 2 > max) ==>
      Pack(ps, buffer, size, max) == Pack(ps[1..], buffer + [ps[0]], size + |ps[0]| + 2, max)
  {
  }

  lemma MeasureMore(buffer: seq<string>, p: string, size: int, max: int)
    requires Measures(buffer, size, max) && (buffer == [] || size + |p| + 2 <= max)
    ensures Measures(buffer + [p], size + |p| + 2, max)
    ensures JoinedLength(buffer) <= JoinedLength(buffer + [p])
  {
    if buffer != [] {
      JoinSnoc(buffer, p);
    } else {
      assert buffer + [p] == [p];
    }
  }

  lemma FirstGroup(h: string, group: seq<string>, rest: seq<seq<string>>)
    ensures ChunksOf(h, [group] + rest) == [ChunkOf(h, group)] + ChunksOf(h, rest)
  {
    assert ([group] + rest)[1..] == rest;
  }

  // The chunks made of one section's text.
  ghost predicate Packed(chunks: seq<Chunk>, heading: string, parts: seq<string>, max: int) {
    && Under(chunks, heading)
    && ChunkParts(chunks) == parts
    && (forall c :: c in chunks ==> FitsOrSingle(c, max))
    && Tight(chunks, max)
  }

  lemma {:induction false} GroupsArePacked(h: string, groups: seq<seq<string>>, max: int)
    requires Grouped(groups, max) && AllSolid(Concat(groups))
    ensures Packed(ChunksOf(h, groups), h, Concat(groups), max)
    ensures groups != [] ==> |ChunksOf(h, groups)[0].content| == JoinedLength(groups[0])
  {
    if groups != [] {
      SolidParts(groups[0], Concat(groups[1..]));
      OneChunk(h, groups[0], max);
      GroupsArePacked(h, groups[1..], max);
      PrependChunk(ChunkOf(h, groups[0]), h, ChunksOf(h, groups[1..]), Concat(groups[1..]), max);
    }
  }

  lemma SolidParts(buffer: seq<string>, ps: seq<string>)
    requires AllSolid(buffer + ps)
    ensures AllSolid(buffer) && AllSolid(ps)
  {
    assert forall p :: p in buffer ==> p in buffer + ps;
    assert forall p :: p in ps ==> p in buffer + ps;
  }

  lemma OneChunk(h: string, group: seq<string>, max: int)
    requires Fits(group, max) && AllSolid(group)
    ensures var c := ChunkOf(h, group);
      && c.content == JoinWith("\n\n", group) && Paragraphs(c.content) == group
      && Whole(c) && FitsOrSingle(c, max)
  {
    JoinedIsStripped(group);
    ChunkParagraphs(group);
  }

  lemma PrependChunk(c: Chunk, h: string, rest: seq<Chunk>, ps: seq<string>, max: int)
    requires c.heading == h && Whole(c) && FitsOrSingle(c, max)
    requires rest != [] ==> |c.content| + |rest[0].content| > max - 4
    requires Packed(rest, h, ps, max)
    ensures Packed([c] + rest, h, Paragraphs(c.content) + ps, max)
  {
    var all := [c] + rest;
    assert all[1..] == rest;
    TightFront(c, rest, max);
  }

  lemma TightFront(c: Chunk, after: seq<Chunk>, max: int)
    requires Tight(after, max) && (after != [] ==> |c.content| + |after[0].content| > max - 4)
    ensures Tight([c] + after, max)
  {
    var all := [c] + after;
    forall i | 0 <= i < |all| - 1
      ensures |all[i].content| + |all[i + 1].content| > max - 4
    {
      assert all[i + 1] == after[i];
      if i > 0 {
        assert all[i] == after[i - 1];
      }
    }
  }

  // A section's chunks: its paragraphs in order, none cut, none over the limit
  // with a neighbour, no two neighbours that would have fitted together.
  lemma SectionIsPacked(section: Section, max: int)
    ensures Packed(SectionChunks(section, max), section.heading,
                   Paragraphs(Strip(JoinWith("\n", section.lines))), max)
    ensures SectionChunks(section, max) == [] <==> Strip(JoinWith("\n", section.lines)) == ""
  {
    var text := TextOf(section.lines);
    if text != "" {
      AlwaysParagraphs(text);
      ParagraphsSolid(text);
      PackGroups(Paragraphs(text), [], 0, max);
      assert [] + Paragraphs(text) == Paragraphs(text);
      GroupsArePacked(section.heading, Pack(Paragraphs(text), [], 0, max), max);
    } else {
      assert Cleaned([""]) == [];
    }
  }

  // ---- How many chunks ----

  // Lengths with the blank line that follows each part.
  function Weight(parts: seq<string>): nat {
    if parts == [] then 0 else |parts[0]| + 2 + Weight(parts[1..])
  }

  function Total(chunks: seq<Chunk>): nat {
    if chunks == [] then 0 else |chunks[0].content| + 2 + Total(chunks[1..])
  }

  lemma {:induction false} SplitWeight(s: string)
    ensures Weight(SplitBlank(s)) <= |s| + 2
    decreases |s|
  {
    if s == "" {
    } else if s[0] == '\n' && BlankPrefix(s[1..]) > 0 {
      SplitWeight(s[1 + BlankPrefix(s[1..])..]);
    } else {
      SplitWeight(s[1..]);
    }
  }

  lemma {:induction false} CleanedWeight(parts: seq<string>)
    ensures Weight(Cleaned(parts)) <= Weight(parts)
  {
    if parts != [] {
      CleanedWeight(parts[1..]);
      StripShortens(parts[0]);
      var rest := Cleaned(parts[1..]);
      if Strip(parts[0]) == "" {
        assert Cleaned(parts) == rest;
      } else {
        assert ([Strip(parts[0])] + rest)[1..] == rest;
      }
    }
  }

  lemma StripShortens(s: string)
    ensures |Strip(s)| <= |s|
  {
  }

  lemma {:induction false} JoinWeight(ps: seq<string>)
    ensures ps != [] ==> Weight(ps) == JoinedLength(ps) + 2
  {
    if ps != [] {
      JoinWeight(ps[1..]);
    }
  }

  lemma {:induction false} WeightConcat(a: seq<string>, b: seq<string>)
    ensures Weight(a + b) == Weight(a) + Weight(b)
  {
    if a == [] {
      assert a + b == b;
    } else {
      assert (a + b)[1..] == a[1..] + b;
      WeightConcat(a[1..], b);
    }
  }

  lemma {:induction false} TotalIsWeight(chunks: seq<Chunk>, h: string)
    requires Under(chunks, h)
    ensures Total(chunks) == Weight(ChunkParts(chunks))
  {
    if chunks != [] {
      var c := chunks[0];
      assert c in chunks;
      TotalIsWeight(chunks[1..], h);
      JoinWeight(Paragraphs(c.content));
      WeightConcat(Paragraphs(c.content), ChunkParts(chunks[1..]));
    }
  }

  lemma {:induction false} TightTotal(chunks: seq<Chunk>, max: int)
    requires Tight(chunks, max)
    ensures Total(chunks) >= |chunks| / 2 * (max + 1)
  {
    if |chunks| >= 2 {
      var rest := chunks[2..];
      assert rest == chunks[1..][1..];
      forall i | 0 <= i < |rest| - 1
        ensures |rest[i].content| + |rest[i + 1].content| > max - 4
      {
        assert rest[i] == chunks[i + 2] && rest[i + 1] == chunks[i + 3];
      }
      TightTotal(rest, max);
      assert |chunks[0].content| + |chunks[0 + 1].content| > max - 4;
      assert |chunks| / 2 * (max + 1) == |rest| / 2 * (max + 1) + (max + 1) by {
        assert |chunks| / 2 == |rest| / 2 + 1;
      }
    }
  }

  // A section is never cut into more than about twice as many chunks as its
  // text could fill.
  lemma ChunkCount(section: Section, max: int)
    ensures |SectionChunks(section, max)| / 2 * (max + 1) <= |TextOf(section.lines)| + 2
  {
    var text, chunks := TextOf(section.lines), SectionChunks(section, max);
    SectionIsPacked(section, max);
    TotalIsWeight(chunks, section.heading);
    TightTotal(chunks, max);
    SplitWeight(text);
    CleanedWeight(SplitBlank(text));
  }

  // Some section has a text; otherwise the body goes out whole, in one chunk.
  predicate HasText(body: string) {
    exists s :: s in Sections(Lines(body)) && TextOf(s.lines) != ""
  }

  lemma {:induction false} TextGivesChunks(sections: seq<Section>, max: int)
    ensures AllChunks(sections, max) != [] <==> exists s :: s in sections && TextOf(s.lines) != ""
  {
    if sections != [] {
      TextGivesChunks(sections[1..], max);
      SectionIsPacked(sections[0], max);
      assert TextOf(sections[0].lines) != "" ==> sections[0] in sections;
    }
  }

  // A body with text goes out section by section.
  lemma SplitIs(body: string, max: int)
    requires HasText(body)
    ensures SplitChunks(body, max) == AllChunks(Sections(Lines(body)), max)
  {
    TextGivesChunks(Sections(Lines(body)), max);
  }

  lemma {:induction false} AllChunksConcat(a: seq<Section>, b: seq<Section>, max: int)
    ensures AllChunks(a + b, max) == AllChunks(a, max) + AllChunks(b, max)
    ensures |a| == 1 ==> AllChunks(a, max) == SectionChunks(a[0], max)
  {
    if a == [] {
      assert a + b == b;
    } else {
      assert (a + b)[1..] == a[1..] + b;
      AllChunksConcat(a[1..], b, max);
      Regroup(SectionChunks(a[0], max), AllChunks(a[1..], max), AllChunks(b, max));
    }
  }

  lemma Unsplit(body: string, max: int)
    requires !HasText(body)
    ensures SplitChunks(body, max) == if Strip(body) == "" then [] else [Chunk("", Strip(body))]
  {
    TextGivesChunks(Sections(Lines(body)), max);
  }

  lemma {:induction false} AllFit(sections: seq<Section>, max: int)
    ensures forall c :: c in AllChunks(sections, max) ==> FitsOrSingle(c, max)
  {
    if sections != [] {
      AllFit(sections[1..], max);
      SectionIsPacked(sections[0], max);
    }
  }

  // The length limit holds exactly when some section has a text or the whole
  // body is itself within the limit.
  lemma LengthBound(body: string, max: int)
    ensures (forall c :: c in SplitChunks(body, max) ==> FitsOrSingle(c, max))
      <==> HasText(body) || FitsOrSingle(Chunk("", Strip(body)), max)
  {
    TextGivesChunks(Sections(Lines(body)), max);
    AllFit(Sections(Lines(body)), max);
    if !HasText(body) {
      Unsplit(body, max);
      assert Cleaned([""]) == [];
      assert Strip(body) != "" ==> SplitChunks(body, max)[0] == Chunk("", Strip(body));
    }
  }

  // ---- Where the limit fails ----

  predicate OneLine(s: string) {
    forall c :: c in s ==> !IsBreak(c)
  }

  // A line ends at its first boundary; "\r\n" counts as one.
  lemma {:induction false} LinesBreak(s: string, c: char, t: string)
    requires OneLine(s) && IsBreak(c)
    ensures Lines(s + [c] + t) == [s] + Lines(if c == '\r' && t != "" && t[0] == '\n' then t[1..] else t)
  {
    var all := s + [c] + t;
    if s == "" {
      assert all[1..] == t;
      assert c == '\r' && t != "" && t[0] == '\n' ==> all[2..] == t[1..];
    } else {
      assert s[0] in s && all[0] == s[0];
      assert forall d :: d in s[1..] ==> d in s;
      LinesBreak(s[1..], c, t);
      assert all[1..] == s[1..] + [c] + t;
      assert s == [s[0]] + s[1..];
    }
  }

  lemma LinesFirst(s: string, t: string)
    requires OneLine(s)
    ensures Lines(s + "\n" + t) == [s] + Lines(t)
  {
    LinesBreak(s, '\n', t);
    assert ['\n'] == "\n";
  }

  lemma {:induction false} LinesOnly(s: string)
    requires OneLine(s) && s != ""
    ensures Lines(s) == [s]
  {
    assert s[0] in s;
    assert s == [s[0]] + s[1..];
    if |s| > 1 {
      assert forall c :: c in s[1..] ==> c in s;
      LinesOnly(s[1..]);
    } else {
      assert s == [s[0]] && s[1..] == "" && Lines(s) == [[s[0]]];
    }
  }

  // Two headings with nothing below either come out as one chunk of two
  // paragraphs, however long they are.
  lemma TwoHeadings(a: string, b: string, max: int)
    requires IsHeading(a) && HeadingText(a) != "" && IsHeading(b) && HeadingText(b) != ""
    requires OneLine(a) && OneLine(b) && Solid(a) && Solid(b)
    ensures var body := JoinWith("\n\n", [a, b]);
      SplitChunks(body, max) == [Chunk("", body)] && Paragraphs(body) == [a, b]
  {
    HeadingLines(a, b);
    HeadingsOnly(a, b);
    Unsplit(JoinWith("\n\n", [a, b]), max);
    JoinedIsStripped([a, b]);
    ChunkParagraphs([a, b]);
  }

  lemma HeadingLines(a: string, b: string)
    requires OneLine(a) && OneLine(b) && b != ""
    ensures Lines(JoinWith("\n\n", [a, b])) == [a, "", b]
  {
    var body := JoinWith("\n\n", [a, b]);
    assert [a, b][1..] == [b] && JoinWith("\n\n", [b]) == b;
    assert body == a + "\n" + ("" + "\n" + b) by {
      assert "\n\n" == "\n" + "\n";
    }
    LinesFirst(a, "" + "\n" + b);
    LinesFirst("", b);
    LinesOnly(b);
    assert [a] + ([""] + [b]) == [a, "", b];
  }

  lemma HeadingsOnly(a: string, b: string)
    requires IsHeading(a) && HeadingText(a) != "" && IsHeading(b) && HeadingText(b) != ""
    ensures Sections([a, "", b]) == [Section(HeadingText(a), [""]), Section(HeadingText(b), [])]
    ensures TextOf([""]) == "" && TextOf([]) == ""
  {
    var lines := [a, "", b];
    assert lines[1..] == ["", b] && ["", b][1..] == [b] && [b][1..] == [];
    assert Flush("", []) == [];
    assert SectionsFrom([], HeadingText(b), []) == [Section(HeadingText(b), [])];
    assert SectionsFrom([b], HeadingText(a), [""]) == [Section(HeadingText(a), [""]), Section(HeadingText(b), [])];
    assert [] + [""] == [""];
    assert SectionsFrom(["", b], HeadingText(a), []) == SectionsFrom([b], HeadingText(a), [""]);
    assert SectionsFrom(lines, "", []) == Flush("", []) + SectionsFrom(["", b], HeadingText(a), []);
  }

  lemma HeadingsExceedLimit()
    ensures var body := JoinWith("\n\n", ["# a", "# b"]);
      exists c :: c in SplitChunks(body, 7) && !FitsOrSingle(c, 7)
  {
    var body := JoinWith("\n\n", ["# a", "# b"]);
    SmallHeading("# a");
    SmallHeading("# b");
    TwoHeadings("# a", "# b", 7);
    var c := Chunk("", body);
    assert [c][0] == c && c in SplitChunks(body, 7);
  }

  lemma SmallHeading(s: string)
    requires |s| == 3 && s[0] == '#' && s[1] == ' ' && s[2] in {'a', 'b'}
    ensures IsHeading(s) && HeadingText(s) != "" && OneLine(s) && Solid(s)
  {
    assert Hashes(s[1..]) == 0 && Hashes(s) == 1;
    assert s[1..][0] == ' ' && s[1..][1..] == s[2..];
    StrippedStays(s[2..]);
    assert LStrip(s[1..]) == s[2..];
  }
}
