// Slash-separated paths and their components.
module Paths {

  predicate Slashless(s: string) {
    '/' !in s
  }

  // The components with a slash between each two.
  function Join(parts: seq<string>): string
    requires parts != []
  {
    if |parts| == 1 then parts[0] else parts[0] + "/" + Join(parts[1..])
  }

  // The components between the slashes.
  function Split(s: string): (parts: seq<string>)
    ensures parts != []
  {
    if s == "" then [""]
    else
      var rest := Split(s[1..]);
      if s[0] == '/' then [""] + rest else [[s[0]] + rest[0]] + rest[1..]
  }

  lemma {:induction false} SplitParts(s: string)
    ensures forall p :: p in Split(s) ==> Slashless(p)
  {
    if s != "" {
      SplitParts(s[1..]);
      var rest := Split(s[1..]);
      assert rest[0] in rest;
    }
  }

  lemma {:induction false} SplitSlashless(s: string)
    requires Slashless(s)
    ensures Split(s) == [s]
  {
    if s != "" {
      SplitSlashless(s[1..]);
      assert s == [s[0]] + s[1..];
    }
  }

  lemma {:induction false} SplitFirst(s: string, rest: string)
    requires Slashless(s)
    ensures Split(s + "/" + rest) == [s] + Split(rest)
  {
    var all := s + "/" + rest;
    if s == "" {
      assert all[1..] == rest;
    } else {
      SplitFirst(s[1..], rest);
      assert all[1..] == s[1..] + "/" + rest;
      assert s == [s[0]] + s[1..];
    }
  }

  // The components with one more character in front, or at the end.
  function Pushed(c: char, parts: seq<string>): (r: seq<string>)
    requires parts != []
    ensures r != []
  {
    if c == '/' then [""] + parts else [[c] + parts[0]] + parts[1..]
  }

  function Extended(parts: seq<string>, c: char): (r: seq<string>)
    requires parts != []
    ensures r != []
  {
    parts[..|parts| - 1] + [parts[|parts| - 1] + [c]]
  }

  lemma SplitStep(c: char, s: string)
    ensures Split([c] + s) == Pushed(c, Split(s))
  {
    assert ([c] + s)[1..] == s;
  }

  lemma PushedConcat(c: char, a: seq<string>, b: seq<string>)
    requires a != []
    ensures Pushed(c, a + b) == Pushed(c, a) + b
  {
  }

  lemma PushedExtended(c: char, parts: seq<string>, d: char)
    requires parts != []
    ensures Pushed(c, Extended(parts, d)) == Extended(Pushed(c, parts), d)
  {
    if |parts| == 1 {
      assert [c] + (parts[0] + [d]) == [c] + parts[0] + [d];
    }
  }

  lemma {:induction false} SplitConcat(a: string, b: string)
    ensures Split(a + "/" + b) == Split(a) + Split(b)
  {
    if a == "" {
      SplitStep('/', b);
      assert a + "/" + b == ['/'] + b;
    } else {
      SplitConcat(a[1..], b);
      assert a + "/" + b == [a[0]] + (a[1..] + "/" + b) && a == [a[0]] + a[1..];
      SplitStep(a[0], a[1..] + "/" + b);
      SplitStep(a[0], a[1..]);
      PushedConcat(a[0], Split(a[1..]), Split(b));
    }
  }

  lemma {:induction false} SplitLast(s: string, c: char)
    requires c != '/'
    ensures Split(s + [c]) == Extended(Split(s), c)
  {
    if s == "" {
      SplitStep(c, "");
      assert s + [c] == [c] + "" == "" + [c];
    } else {
      SplitLast(s[1..], c);
      assert s + [c] == [s[0]] + (s[1..] + [c]) && s == [s[0]] + s[1..];
      SplitStep(s[0], s[1..] + [c]);
      SplitStep(s[0], s[1..]);
      PushedExtended(s[0], Split(s[1..]), c);
    }
  }

  // Splitting recovers the components: different component lists, different paths.
  lemma {:induction false} SplitJoin(parts: seq<string>)
    requires parts != [] && forall p :: p in parts ==> Slashless(p)
    ensures Split(Join(parts)) == parts
  {
    if |parts| == 1 {
      SplitSlashless(parts[0]);
    } else {
      SplitJoin(parts[1..]);
      SplitFirst(parts[0], Join(parts[1..]));
    }
  }

  lemma JoinPushed(c: char, parts: seq<string>)
    requires parts != []
    ensures Join(Pushed(c, parts)) == [c] + Join(parts)
  {
    if c == '/' {
      assert ([""] + parts)[1..] == parts;
      assert "" + "/" + Join(parts) == ['/'] + Join(parts);
    } else if |parts| > 1 {
      assert [c] + parts[0] + "/" + Join(parts[1..]) == [c] + (parts[0] + "/" + Join(parts[1..]));
    }
  }

  lemma {:induction false} JoinSplit(s: string)
    ensures Join(Split(s)) == s
  {
    if s != "" {
      JoinSplit(s[1..]);
      assert s == [s[0]] + s[1..];
      SplitStep(s[0], s[1..]);
      JoinPushed(s[0], Split(s[1..]));
    }
  }
}
