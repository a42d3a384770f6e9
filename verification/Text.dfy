// The character classes of Python's str methods and re module that the
// repository's text handling relies on.
module Text {

  // str.isspace, which is also what \s matches.
  predicate IsSpace(c: char) {
    var n := c as int;
    || 9 <= n <= 13 || 28 <= n <= 32 || n == 0x85 || n == 0xA0 || n == 0x1680
    || 0x2000 <= n <= 0x200A || n == 0x2028 || n == 0x2029 || n == 0x202F || n == 0x205F || n == 0x3000
  }

  // The whole list: ASCII and Latin-1 first, then the rest of Unicode's.
  lemma IsSpaceIs(c: char)
    ensures IsSpace(c) <==>
      || c in {'\t', '\n', '\U{0B}', '\U{0C}', '\r', '\U{1C}', '\U{1D}', '\U{1E}', '\U{1F}', ' ', '\U{85}', '\U{A0}'}
      || c == '\U{1680}' || '\U{2000}' <= c <= '\U{200A}'
      || c in {'\U{2028}', '\U{2029}', '\U{202F}', '\U{205F}', '\U{3000}'}
  {
  }

  // str.strip() leaves the string as it is.
  predicate Stripped(s: string) {
    s != "" ==> !IsSpace(s[0]) && !IsSpace(s[|s| - 1])
  }

  function LStrip(s: string): (t: string)
    ensures |t| <= |s| && (t != "" ==> !IsSpace(t[0]))
  {
    if s != "" && IsSpace(s[0]) then LStrip(s[1..]) else s
  }

  function RStrip(s: string): (t: string)
    ensures t <= s && (t != "" ==> !IsSpace(t[|t| - 1]))
  {
    if s != "" && IsSpace(s[|s| - 1]) then RStrip(s[..|s| - 1]) else s
  }

  // str.strip()
  function Strip(s: string): (t: string)
    ensures Stripped(t)
  {
    RStrip(LStrip(s))
  }

  // What is stripped is spaces, at the two ends.
  lemma StripIs(s: string) returns (left: string, right: string)
    ensures s == left + Strip(s) + right
    ensures forall c :: c in left + right ==> IsSpace(c)
  {
    left := LStripped(s);
    right := RStripped(LStrip(s));
  }

  lemma {:induction false} LStripped(s: string) returns (left: string)
    ensures s == left + LStrip(s) && forall c :: c in left ==> IsSpace(c)
  {
    left := "";
    if s != "" && IsSpace(s[0]) {
      var rest := LStripped(s[1..]);
      left := [s[0]] + rest;
    }
  }

  lemma {:induction false} RStripped(s: string) returns (right: string)
    ensures s == RStrip(s) + right && forall c :: c in right ==> IsSpace(c)
  {
    right := "";
    if s != "" && IsSpace(s[|s| - 1]) {
      var rest := RStripped(s[..|s| - 1]);
      right := rest + [s[|s| - 1]];
    }
  }

  lemma StrippedStays(s: string)
    requires Stripped(s)
    ensures Strip(s) == s
  {
  }

  // Without the slashes at either end.
  function TrimSlashes(s: string): string {
    if s != "" && s[0] == '/' then TrimSlashes(s[1..])
    else if s != "" && s[|s| - 1] == '/' then TrimSlashes(s[..|s| - 1])
    else s
  }

  lemma {:induction false} TrimSlashesIs(s: string) returns (left: string, right: string)
    ensures s == left + TrimSlashes(s) + right
    ensures (forall c :: c in left ==> c == '/') && (forall c :: c in right ==> c == '/')
    ensures TrimSlashes(s) != "" ==> TrimSlashes(s)[0] != '/' && TrimSlashes(s)[|TrimSlashes(s)| - 1] != '/'
    decreases |s|
  {
    left, right := "", "";
    if s != "" && s[0] == '/' {
      left, right := TrimSlashesIs(s[1..]);
      left := "/" + left;
    } else if s != "" && s[|s| - 1] == '/' {
      left, right := TrimSlashesIs(s[..|s| - 1]);
      right := right + "/";
    }
  }

  // Path.read_text(): universal newlines, "\r\n" and a lone "\r" are read as "\n".
  function AsRead(s: string): string {
    if s == "" then ""
    else if s[0] != '\r' then [s[0]] + AsRead(s[1..])
    else if |s| > 1 && s[1] == '\n' then "\n" + AsRead(s[2..])
    else "\n" + AsRead(s[1..])
  }

  lemma {:induction false} AsReadHasNoReturn(s: string)
    ensures '\r' !in AsRead(s)
    decreases |s|
  {
    if s == "" {
    } else if s[0] == '\r' && |s| > 1 && s[1] == '\n' {
      AsReadHasNoReturn(s[2..]);
    } else {
      AsReadHasNoReturn(s[1..]);
    }
  }

  lemma {:induction false} AsReadStays(s: string)
    requires '\r' !in s
    ensures AsRead(s) == s
  {
    if s != "" {
      assert forall c :: c in s[1..] ==> c in s;
      AsReadStays(s[1..]);
      assert s[0] in s && s == [s[0]] + s[1..];
    }
  }

  // Each line break is read as one newline, and the texts before and after it by
  // themselves; a "\r" before a "\n" is one break with it.
  lemma {:induction false} AsReadBreak(a: string, b: string, broken: string)
    requires broken == "\r\n" || broken == "\r" || broken == "\n"
    requires broken == "\r" && b != "" ==> b[0] != '\n'
    requires broken == "\n" && a != "" ==> a[|a| - 1] != '\r'
    ensures AsRead(a + broken + b) == AsRead(a) + "\n" + AsRead(b)
    decreases |a|
  {
    var s := a + broken + b;
    FirstRead(s);
    if a == "" {
      assert s == broken + b && FirstSize(s) == |broken| && s[|broken|..] == b;
      assert AsRead(a) + "\n" == "\n";
    } else {
      var n := FirstSize(a);
      assert FirstSize(s) == n && s[n..] == a[n..] + broken + b;
      FirstRead(a);
      AsReadBreak(a[n..], b, broken);
      ThreeParts(if a[0] == '\r' then "\n" else [a[0]], AsRead(a[n..]), "\n", AsRead(b));
    }
  }

  function FirstSize(s: string): nat {
    if |s| > 1 && s[0] == '\r' && s[1] == '\n' then 2 else 1
  }

  lemma FirstRead(s: string)
    requires s != ""
    ensures AsRead(s) == (if s[0] == '\r' then "\n" else [s[0]]) + AsRead(s[FirstSize(s)..])
  {
  }

  lemma ThreeParts(a: string, b: string, c: string, d: string)
    ensures a + (b + c + d) == (a + b) + c + d
  {
  }

  // A text is read as it was written exactly when it has no carriage return.
  lemma {:induction false} AsReadKeeps(s: string)
    ensures AsRead(s) == s <==> '\r' !in s
  {
    AsReadHasNoReturn(s);
    if '\r' !in s {
      AsReadStays(s);
    }
  }

  // What precedes the first carriage return is read as it is.
  lemma {:induction false} AsReadConcat(head: string, s: string)
    requires '\r' !in head
    ensures AsRead(head + s) == head + AsRead(s)
  {
    if head == "" {
      assert head + s == s;
    } else {
      assert (head + s)[0] == head[0] && (head + s)[1..] == head[1..] + s;
      assert head[0] in head && forall c :: c in head[1..] ==> c in head;
      AsReadConcat(head[1..], s);
      assert head == [head[0]] + head[1..];
    }
  }
}
