// backup_google_kms.py _crc32c: the Castagnoli CRC of section 12.1 of RFC 3720,
// computed with a reflected bitwise loop over Python integers.
module Crc32c {
  import opened Bytes

  // ---- Division of polynomials over GF(2) by any generator of degree 32 ----

  // A coefficient sequence, highest power first.
  type Poly = seq<bool>

  // A generator without its leading x^32.
  type Generator = g: Poly | |g| == 32 witness seq(32, i => false)

  function Zeros(n: nat): Poly { seq(n, i => false) }

  function Ones(n: nat): Poly { seq(n, i => true) }

  function Add(a: Poly, b: Poly): (c: Poly)
    requires |a| == |b|
    ensures |c| == |a| && forall i :: 0 <= i < |a| ==> c[i] == (a[i] != b[i])
  {
    seq(|a|, i requires 0 <= i < |a| => a[i] != b[i])
  }

  // q * (x^32 + g): Horner's rule on the coefficients of q.
  function Times(g: Generator, q: Poly): (p: Poly)
    ensures |p| == |q| + 32
  {
    if q == [] then Zeros(32) else Bring(g, Times(g, q[..|q| - 1]), q[|q| - 1])
  }

  // Multiply by x and add the generator if d.
  function Bring(g: Generator, p: Poly, d: bool): (p': Poly)
    requires |p| >= 32
    ensures |p'| == |p| + 1
  {
    if d then Add(p + [false], Zeros(|p| - 32) + [true] + g) else p + [false]
  }

  // The polynomial whose remainder the CRC is: the message times x^32, with the
  // first 32 coefficients complemented.
  function Dividend(m: Poly): (p: Poly)
    ensures |p| == |m| + 32
  {
    Add(m + Zeros(32), Ones(32) + Zeros(|m|))
  }

  // Dividing the dividend of m gives quotient q and remainder r.
  predicate Divides(g: Generator, m: Poly, q: Poly, r: Poly) {
    |r| == 32 && |q| == |m| && Dividend(m) == Add(Times(g, q), Zeros(|m|) + r)
  }

  ghost predicate IsRemainder(g: Generator, m: Poly, r: Poly) {
    exists q: Poly :: Divides(g, m, q, r)
  }

  // Long division brings down one message bit.
  function Feed(g: Generator, r: Poly, b: bool): (r': Poly)
    requires |r| == 32
    ensures |r'| == 32
  {
    var shifted := r[1..] + [false];
    if r[0] != b then Add(shifted, g) else shifted
  }

  function FeedAll(g: Generator, r: Poly, m: Poly): (r': Poly)
    requires |r| == 32
    ensures |r'| == 32
  {
    if m == [] then r else Feed(g, FeedAll(g, r, m[..|m| - 1]), m[|m| - 1])
  }

  // The dividend of a longer message is that of its prefix, moved up one place,
  // with the new bit added where the prefix's remainder now begins.
  lemma DividendStep(m: Poly, b: bool)
    ensures Dividend(m + [b]) == Add(Dividend(m) + [false], Zeros(|m|) + [b] + Zeros(32))
  {
    var longer, moved := Dividend(m + [b]), Dividend(m) + [false];
    forall i | 0 <= i < |longer|
      ensures longer[i] == (moved[i] != (Zeros(|m|) + [b] + Zeros(32))[i])
    {
    }
  }

  // One step of long division, coefficient by coefficient.
  lemma FeedStep(g: Generator, t: Poly, n: nat, r: Poly, b: bool)
    requires |t| == n + 32 && |r| == 32
    ensures Add(Add(t, Zeros(n) + r) + [false], Zeros(n) + [b] + Zeros(32))
         == Add(Bring(g, t, r[0] != b), Zeros(n + 1) + Feed(g, r, b))
  {
  }

  lemma DivideStep(g: Generator, m: Poly, b: bool, q: Poly, r: Poly)
    requires Divides(g, m, q, r)
    ensures Divides(g, m + [b], q + [r[0] != b], Feed(g, r, b))
  {
    DividendStep(m, b);
    assert (q + [r[0] != b])[..|q|] == q;
    FeedStep(g, Times(g, q), |m|, r, b);
  }

  // Feeding every message bit to a register of ones leaves the remainder.
  lemma {:induction false} FeedDivides(g: Generator, m: Poly) returns (q: Poly)
    ensures Divides(g, m, q, FeedAll(g, Ones(32), m))
  {
    if m == [] {
      q := [];
      assert Dividend(m) == Add(Times(g, q), Zeros(0) + Ones(32));
    } else {
      var n := |m| - 1;
      q := FeedDivides(g, m[..n]);
      DivideStep(g, m[..n], m[n], q, FeedAll(g, Ones(32), m[..n]));
      assert m[..n] + [m[n]] == m;
      q := q + [FeedAll(g, Ones(32), m[..n])[0] != m[n]];
    }
  }

  // The product's first n coefficients vanish only for the zero quotient.
  lemma {:induction false} ProductLeads(g: Generator, q: Poly)
    requires forall i :: 0 <= i < |q| ==> !Times(g, q)[i]
    ensures Times(g, q) == Zeros(|q| + 32)
  {
    if q != [] {
      var n := |q| - 1;
      var before := Times(g, q[..n]);
      forall i | 0 <= i < n
        ensures !before[i]
      {
        assert Times(g, q)[i] == before[i];
      }
      ProductLeads(g, q[..n]);
      assert Times(g, q)[n] == q[n];
    }
  }

  lemma BringLinear(g: Generator, p: Poly, q: Poly, d: bool, e: bool)
    requires |p| == |q| >= 32
    ensures Bring(g, Add(p, q), d != e) == Add(Bring(g, p, d), Bring(g, q, e))
  {
  }

  lemma {:induction false} ProductLinear(g: Generator, p: Poly, q: Poly)
    requires |p| == |q|
    ensures Times(g, Add(p, q)) == Add(Times(g, p), Times(g, q))
  {
    if p != [] {
      var n := |p| - 1;
      ProductLinear(g, p[..n], q[..n]);
      assert Add(p, q)[..n] == Add(p[..n], q[..n]);
      BringLinear(g, Times(g, p[..n]), Times(g, q[..n]), p[n], q[n]);
    } else {
      assert Add(p, q) == [];
      assert Zeros(32) == Add(Zeros(32), Zeros(32));
    }
  }

  // Two remainders of one dividend differ by a multiple of the generator, which
  // is zero because it has degree below 32.
  lemma RemainderUnique(g: Generator, m: Poly, p: Poly, q: Poly, r: Poly, s: Poly)
    requires Divides(g, m, p, r) && Divides(g, m, q, s)
    ensures r == s
  {
    ProductLinear(g, p, q);
    RemaindersDiffer(Dividend(m), Times(g, p), Times(g, q), Zeros(|m|) + r, Zeros(|m|) + s);
    SmallProduct(g, Add(p, q), r, s);
  }

  // A multiple of the generator of degree below 32 is zero.
  lemma SmallProduct(g: Generator, q: Poly, r: Poly, s: Poly)
    requires |r| == |s| == 32 && Times(g, q) == Add(Zeros(|q|) + r, Zeros(|q|) + s)
    ensures r == s
  {
    ProductLeads(g, q);
    forall i | 0 <= i < 32
      ensures r[i] == s[i]
    {
      assert !Times(g, q)[|q| + i];
    }
  }

  lemma RemaindersDiffer(all: Poly, a: Poly, b: Poly, c: Poly, d: Poly)
    requires |all| == |a| == |b| == |c| == |d|
    requires all == Add(a, c) && all == Add(b, d)
    ensures Add(a, b) == Add(c, d)
  {
    forall i | 0 <= i < |all|
      ensures (a[i] != b[i]) == (c[i] != d[i])
    {
      assert all[i] == (a[i] != c[i]) && all[i] == (b[i] != d[i]);
    }
  }

  // ---- Feeding several bits ----

  lemma {:induction false} FeedConcat(g: Generator, r: Poly, a: Poly, b: Poly)
    requires |r| == 32
    ensures FeedAll(g, r, a + b) == FeedAll(g, FeedAll(g, r, a), b)
  {
    if b == [] {
      assert a + b == a;
    } else {
      FeedConcat(g, r, a, b[..|b| - 1]);
      assert (a + b)[..|a + b| - 1] == a + b[..|b| - 1];
    }
  }

  // The bits lined up with the register's high end.
  function Aligned(bits: Poly): (p: Poly)
    requires |bits| <= 32
    ensures |p| == 32
  {
    bits + Zeros(32 - |bits|)
  }

  lemma FeedAligned(g: Generator, r: Poly, bits: Poly)
    requires |r| == 32 && 0 < |bits| <= 32
    ensures Feed(g, Add(r, Aligned(bits)), false) == Add(Feed(g, r, bits[0]), Aligned(bits[1..]))
  {
    var x := Add(r, Aligned(bits));
    assert x[0] == (r[0] != bits[0]);
    forall i | 0 <= i < 32
      ensures (x[1..] + [false])[i] == ((r[1..] + [false])[i] != Aligned(bits[1..])[i])
    {
    }
  }

  // Feeding up to 32 bits one by one is adding them to the register at once and
  // then feeding zeros.
  lemma {:induction false} FeedAtOnce(g: Generator, r: Poly, bits: Poly)
    requires |r| == 32 && |bits| <= 32
    ensures FeedAll(g, r, bits) == FeedAll(g, Add(r, Aligned(bits)), Zeros(|bits|))
    decreases |bits|
  {
    if bits == [] {
      assert Add(r, Aligned(bits)) == r;
    } else {
      var rest := bits[1..];
      FeedConcat(g, r, [bits[0]], rest);
      assert [bits[0]] + rest == bits;
      FeedOne(g, r, bits[0]);
      FeedAtOnce(g, Feed(g, r, bits[0]), rest);
      FeedAligned(g, r, bits);
      var x := Add(r, Aligned(bits));
      FeedConcat(g, x, [false], Zeros(|rest|));
      assert [false] + Zeros(|rest|) == Zeros(|bits|);
      FeedOne(g, x, false);
    }
  }

  lemma FeedOne(g: Generator, r: Poly, b: bool)
    requires |r| == 32
    ensures FeedAll(g, r, [b]) == Feed(g, r, b)
  {
    assert [b][..0] == [];
    assert FeedAll(g, r, []) == r;
  }

  // With an odd generator a step can be undone, so different registers stay
  // different whatever follows.
  lemma FeedInjective(g: Generator, r: Poly, s: Poly, b: bool)
    requires |r| == |s| == 32 && g[31]
    requires Feed(g, r, b) == Feed(g, s, b)
    ensures r == s
  {
    var r', s' := Feed(g, r, b), Feed(g, s, b);
    assert r'[31] == (r[0] != b) && s'[31] == (s[0] != b);
    forall i | 1 <= i < 32
      ensures r[i] == s[i]
    {
      assert r'[i - 1] == (r[i] != ((r[0] != b) && g[i - 1]));
      assert s'[i - 1] == (s[i] != ((s[0] != b) && g[i - 1]));
    }
  }

  lemma {:induction false} FeedAllInjective(g: Generator, r: Poly, s: Poly, m: Poly)
    requires |r| == |s| == 32 && g[31]
    requires FeedAll(g, r, m) == FeedAll(g, s, m)
    ensures r == s
  {
    if m != [] {
      FeedInjective(g, FeedAll(g, r, m[..|m| - 1]), FeedAll(g, s, m[..|m| - 1]), m[|m| - 1]);
      FeedAllInjective(g, r, s, m[..|m| - 1]);
    }
  }

  // Different bit strings of one length up to 32 take a register apart.
  lemma BurstSeparates(g: Generator, r: Poly, a: Poly, b: Poly)
    requires |r| == 32 && |a| == |b| <= 32 && g[31]
    requires FeedAll(g, r, a) == FeedAll(g, r, b)
    ensures a == b
  {
    FeedAtOnce(g, r, a);
    FeedAtOnce(g, r, b);
    FeedAllInjective(g, Add(r, Aligned(a)), Add(r, Aligned(b)), Zeros(|a|));
    forall i | 0 <= i < |a|
      ensures a[i] == b[i]
    {
      assert Add(r, Aligned(a))[i] == Add(r, Aligned(b))[i];
    }
  }

  lemma WindowSeparates(g: Generator, r: Poly, p: Poly, q: Poly, i: nat, n: nat)
    requires |r| == 32 && g[31] && |p| == |q| && i + n <= |p| && n <= 32
    requires p[..i] == q[..i] && p[i + n..] == q[i + n..]
    requires FeedAll(g, r, p) == FeedAll(g, r, q)
    ensures p == q
  {
    var entered := FeedAll(g, r, p[..i]);
    FeedParts(g, r, p, i, n);
    FeedParts(g, r, q, i, n);
    FeedAllInjective(g, FeedAll(g, entered, p[i..i + n]), FeedAll(g, entered, q[i..i + n]), p[i + n..]);
    BurstSeparates(g, entered, p[i..i + n], q[i..i + n]);
    PartsDetermine(p, q, i, n);
  }

  lemma PartsDetermine(p: Poly, q: Poly, i: nat, n: nat)
    requires |p| == |q| && i + n <= |p|
    requires p[..i] == q[..i] && p[i..i + n] == q[i..i + n] && p[i + n..] == q[i + n..]
    ensures p == q
  {
    assert p == p[..i] + p[i..i + n] + p[i + n..];
    assert q == q[..i] + q[i..i + n] + q[i + n..];
  }

  lemma FeedParts(g: Generator, r: Poly, p: Poly, i: nat, n: nat)
    requires |r| == 32 && i + n <= |p|
    ensures FeedAll(g, r, p) == FeedAll(g, FeedAll(g, FeedAll(g, r, p[..i]), p[i..i + n]), p[i + n..])
  {
    FeedConcat(g, r, p[..i], p[i..i + n]);
    FeedConcat(g, r, p[..i] + p[i..i + n], p[i + n..]);
    assert p == p[..i] + p[i..i + n] + p[i + n..];
  }

  // ---- Integers by their binary digits, lowest first ----

  function Digits(n: nat, k: nat): (d: Poly)
    ensures |d| == k
  {
    if k == 0 then [] else [n % 2 == 1] + Digits(n / 2, k - 1)
  }

  function Number(d: Poly): nat {
    if d == [] then 0 else (if d[0] then 1 else 0) + 2 * Number(d[1..])
  }

  function Pow2(k: nat): (p: nat)
    ensures p > 0
  {
    if k == 0 then 1 else 2 * Pow2(k - 1)
  }

  lemma PowFour(k: nat)
    ensures Pow2(k + 4) == 16 * Pow2(k)
  {
    assert Pow2(k + 4) == 2 * Pow2(k + 3);
    assert Pow2(k + 3) == 2 * Pow2(k + 2);
    assert Pow2(k + 2) == 2 * Pow2(k + 1);
  }

  lemma Powers()
    ensures Pow2(4) == 16 && Pow2(8) == 256 && Pow2(31) == 0x8000_0000 && Pow2(32) == TWO32
  {
    PowFour(0);
    PowFour(4);
    PowFour(8);
    PowFour(12);
    PowFour(16);
    PowFour(20);
    PowFour(24);
    PowFour(28);
    assert Pow2(32) == 2 * Pow2(31);
  }

  lemma {:induction false} NumberDigits(n: nat, k: nat)
    requires n < Pow2(k)
    ensures Number(Digits(n, k)) == n
  {
    if k > 0 {
      NumberDigits(n / 2, k - 1);
      assert Digits(n, k)[1..] == Digits(n / 2, k - 1);
    }
  }

  lemma {:induction false} DigitsNumber(d: Poly)
    ensures Digits(Number(d), |d|) == d && Number(d) < Pow2(|d|)
  {
    if d != [] {
      DigitsNumber(d[1..]);
      assert Number(d) / 2 == Number(d[1..]);
      assert d == [d[0]] + d[1..];
    }
  }

  // Digits above the number are zero.
  lemma {:induction false} DigitsPad(n: nat, k: nat, more: nat)
    requires n < Pow2(k)
    ensures Digits(n, k + more) == Digits(n, k) + Zeros(more)
  {
    if k > 0 {
      DigitsPad(n / 2, k - 1, more);
    } else if more > 0 {
      DigitsPad(0, 0, more - 1);
      assert [false] + Zeros(more - 1) == Zeros(more);
    }
  }

  // a ^ b on 32-bit integers.
  function Xor(a: nat, b: nat): (c: nat)
    ensures c < TWO32 && Digits(c, 32) == Add(Digits(a, 32), Digits(b, 32))
  {
    var d := Add(Digits(a, 32), Digits(b, 32));
    DigitsNumber(d);
    Powers();
    Number(d)
  }

  lemma XorZero(a: nat)
    requires a < TWO32
    ensures Xor(a, 0) == a
  {
    Powers();
    DigitsPad(0, 0, 32);
    assert Digits(0, 32) == Zeros(32);
    assert Add(Digits(a, 32), Zeros(32)) == Digits(a, 32);
    NumberDigits(a, 32);
  }

  lemma DigitsDetermine(a: nat, b: nat)
    requires a < TWO32 && b < TWO32 && Digits(a, 32) == Digits(b, 32)
    ensures a == b
  {
    Powers();
    NumberDigits(a, 32);
    NumberDigits(b, 32);
  }

  // v >> 1
  lemma HalfDigits(v: nat)
    requires v < TWO32
    ensures Digits(v / 2, 32) == Digits(v, 32)[1..] + [false]
  {
    Powers();
    DigitsPad(v / 2, 31, 1);
    assert Digits(v, 32)[1..] == Digits(v / 2, 31);
  }

  lemma {:induction false} AllOnes(k: nat)
    ensures Digits(Pow2(k) - 1, k) == Ones(k)
  {
    if k > 0 {
      AllOnes(k - 1);
      assert (Pow2(k) - 1) / 2 == Pow2(k - 1) - 1;
      assert [true] + Ones(k - 1) == Ones(k);
    }
  }

  // ---- The loop ----

  // 0xffffffff, by its digits.
  const ALL_SET: nat := Number(Ones(32))

  lemma AllSet()
    ensures ALL_SET < TWO32 && Digits(ALL_SET, 32) == Ones(32)
  {
    Powers();
    DigitsNumber(Ones(32));
  }

  lemma AllSetValue()
    ensures ALL_SET == 0xffffffff
  {
    Powers();
    AllOnes(32);
    NumberDigits(Pow2(32) - 1, 32);
  }

  // The Castagnoli generator 0x11EDC6F41 without its leading term.
  const CASTAGNOLI: Generator :=
    [false, false, false, true] + ([true, true, true, false] +
    ([true, true, false, true] + ([true, true, false, false] +
    ([false, true, true, false] + ([true, true, true, true] +
    ([false, true, false, false] + [false, false, false, true]))))))

  // 0x82f63b78, by its digits: the generator reflected, digit 0 standing for x^31.
  const POLYNOMIAL: nat := Number(CASTAGNOLI)

  // One pass of the inner loop.
  function Shift(v: nat): (v': nat)
    ensures v' < TWO32
  {
    Xor(v / 2, if v % 2 == 1 then POLYNOMIAL else 0)
  }

  function Shifts(v: nat, n: nat): (v': nat)
    requires v < TWO32
    ensures v' < TWO32
  {
    if n == 0 then v else Shift(Shifts(v, n - 1))
  }

  // The register after the message.
  function Register(data: bytes): (v: nat)
    ensures v < TWO32
  {
    if data == [] then AllSet(); ALL_SET
    else Shifts(Xor(Register(data[..|data| - 1]), data[|data| - 1]), 8)
  }

  function Checksum(data: bytes): (crc: nat)
    ensures crc < TWO32
  {
    Xor(Register(data), ALL_SET)
  }

  lemma Prefix(data: bytes, k: nat)
    requires k < |data|
    ensures data[..k + 1][..k] == data[..k]
  {
  }

  method Crc(data: bytes) returns (crc: nat)
    ensures crc == Checksum(data)
  {
    var value := ALL_SET;
    for k := 0 to |data|
      invariant value == Register(data[..k])
    {
      Prefix(data, k);
      value := Xor(value, data[k]);
      ghost var entered := value;
      for j := 0 to 8
        invariant value == Shifts(entered, j)
      {
        value := Xor(value / 2, if value % 2 == 1 then POLYNOMIAL else 0);
      }
    }
    assert data[..|data|] == data;
    crc := Xor(value, ALL_SET);
  }

  // ---- The bitwise loop as long division ----

  // h * 2^a
  function Scale(h: nat, a: nat): nat {
    if a == 0 then h else 2 * Scale(h, a - 1)
  }

  // The digits of h * 2^a + d.
  lemma {:induction false} DigitsAppend(h: nat, d: nat, a: nat, b: nat)
    requires d < Pow2(a)
    ensures Digits(d + Scale(h, a), a + b) == Digits(d, a) + Digits(h, b)
  {
    if a > 0 {
      var t := Scale(h, a - 1);
      assert (d + 2 * t) % 2 == d % 2 && (d + 2 * t) / 2 == d / 2 + t;
      DigitsAppend(h, d / 2, a - 1, b);
    }
  }

  lemma HexDigit(h: nat, d: nat, k: nat)
    requires d < 16
    ensures Digits(16 * h + d, k + 4) == Digits(d, 4) + Digits(h, k)
  {
    Powers();
    assert Scale(h, 1) == 2 * h;
    assert Scale(h, 2) == 2 * Scale(h, 1);
    assert Scale(h, 3) == 2 * Scale(h, 2);
    assert Scale(h, 4) == 2 * Scale(h, 3);
    DigitsAppend(h, d, 4, k);
  }

  lemma PolynomialDigits()
    ensures Digits(POLYNOMIAL, 32) == CASTAGNOLI
  {
    DigitsNumber(CASTAGNOLI);
  }

  // The constant the source writes in hexadecimal.
  lemma PolynomialValue()
    ensures POLYNOMIAL == 0x82f63b78
  {
    HexDigit(0x82f63b7, 0x8, 28);
    HexDigit(0x82f63b, 0x7, 24);
    HexDigit(0x82f63, 0xb, 20);
    HexDigit(0x82f6, 0x3, 16);
    HexDigit(0x82f, 0x6, 12);
    HexDigit(0x82, 0xf, 8);
    HexDigit(0x8, 0x2, 4);
    NibbleDigits();
    Powers();
    NumberDigits(0x82f63b78, 32);
  }

  lemma NibbleDigits()
    ensures Digits(0x2, 4) == [false, true, false, false] && Digits(0x3, 4) == [true, true, false, false]
    ensures Digits(0x6, 4) == [false, true, true, false] && Digits(0x7, 4) == [true, true, true, false]
    ensures Digits(0x8, 4) == [false, false, false, true] && Digits(0xb, 4) == [true, true, false, true]
    ensures Digits(0xf, 4) == [true, true, true, true]
  {
  }

  // The message in transmission order, lowest digit of each byte first.
  function Message(data: bytes): (m: Poly)
    ensures |m| == 8 * |data|
  {
    if data == [] then [] else Message(data[..|data| - 1]) + Digits(data[|data| - 1], 8)
  }

  // One shift of the reflected register brings down a zero bit.
  lemma ShiftIsFeed(g: Generator, v: nat)
    requires v < TWO32 && Digits(POLYNOMIAL, 32) == g
    ensures Digits(Shift(v), 32) == Feed(g, Digits(v, 32), false)
  {
    HalfDigits(v);
    assert Digits(v, 32)[0] == (v % 2 == 1);
    XorZero(v / 2);
  }

  lemma {:induction false} ShiftsAreFeeds(g: Generator, v: nat, n: nat)
    requires v < TWO32 && Digits(POLYNOMIAL, 32) == g
    ensures Digits(Shifts(v, n), 32) == FeedAll(g, Digits(v, 32), Zeros(n))
  {
    if n > 0 {
      ShiftsAreFeeds(g, v, n - 1);
      ShiftIsFeed(g, Shifts(v, n - 1));
      FeedLastZero(g, Digits(v, 32), n);
    }
  }

  lemma FeedLastZero(g: Generator, r: Poly, n: nat)
    requires |r| == 32 && n > 0
    ensures FeedAll(g, r, Zeros(n)) == Feed(g, FeedAll(g, r, Zeros(n - 1)), false)
  {
    assert Zeros(n)[..n - 1] == Zeros(n - 1);
  }

  // Adding a byte and shifting eight times brings down its eight digits.
  lemma ByteIsFeed(g: Generator, v: nat, b: byte)
    requires v < TWO32 && Digits(POLYNOMIAL, 32) == g
    ensures Digits(Shifts(Xor(v, b), 8), 32) == FeedAll(g, Digits(v, 32), Digits(b, 8))
  {
    Powers();
    DigitsPad(b, 8, 24);
    ShiftsAreFeeds(g, Xor(v, b), 8);
    FeedAtOnce(g, Digits(v, 32), Digits(b, 8));
  }

  lemma {:induction false} RegisterIsFeed(g: Generator, data: bytes)
    requires Digits(POLYNOMIAL, 32) == g
    ensures Digits(Register(data), 32) == FeedAll(g, Ones(32), Message(data))
  {
    AllSet();
    if data != [] {
      var n := |data| - 1;
      RegisterIsFeed(g, data[..n]);
      ByteIsFeed(g, Register(data[..n]), data[n]);
      FeedConcat(g, Ones(32), Message(data[..n]), Digits(data[n], 8));
    }
  }

  // ---- Main results ----

  // The checksum is the complement of the one remainder of the message
  // polynomial: it has that remainder, and no other value does.
  lemma ChecksumIsRemainder(data: bytes, r: Poly)
    ensures IsRemainder(CASTAGNOLI, Message(data), r) <==> |r| == 32 && Digits(Checksum(data), 32) == Add(r, Ones(32))
  {
    PolynomialDigits();
    RegisterIsFeed(CASTAGNOLI, data);
    AllSet();
    RemainderIffComplement(CASTAGNOLI, Message(data), Digits(Checksum(data), 32), r);
  }

  lemma RemainderIffComplement(g: Generator, m: Poly, crc: Poly, r: Poly)
    requires |crc| == 32 && crc == Add(FeedAll(g, Ones(32), m), Ones(32))
    ensures IsRemainder(g, m, r) <==> |r| == 32 && crc == Add(r, Ones(32))
  {
    var register := FeedAll(g, Ones(32), m);
    var q := FeedDivides(g, m);
    if IsRemainder(g, m, r) {
      var p: Poly :| Divides(g, m, p, r);
      RemainderUnique(g, m, p, q, r, register);
    }
    if |r| == 32 && crc == Add(r, Ones(32)) {
      Cancel(r, register, Ones(32));
      assert Divides(g, m, q, r);
    }
  }

  lemma Cancel(a: Poly, b: Poly, c: Poly)
    requires |a| == |b| == |c| && Add(a, c) == Add(b, c)
    ensures a == b
  {
    forall i | 0 <= i < |a|
      ensures a[i] == b[i]
    {
      assert Add(a, c)[i] == Add(b, c)[i];
    }
  }

  // Two messages of one length that differ, but only within 32 consecutive bits,
  // never have the same checksum.
  lemma BurstsDetected(a: bytes, b: bytes, i: nat, n: nat)
    requires |a| == |b| && i + n <= 8 * |a| && n <= 32
    requires Message(a)[..i] == Message(b)[..i] && Message(a)[i + n..] == Message(b)[i + n..]
    ensures Checksum(a) == Checksum(b) <==> a == b
  {
    if Checksum(a) == Checksum(b) {
      PolynomialDigits();
      OddGenerator();
      SameChecksum(a, b);
      BurstSeparatesRegisters(CASTAGNOLI, a, b, i, n);
    }
  }

  lemma OddGenerator()
    ensures CASTAGNOLI[31]
  {
  }

  lemma SameChecksum(a: bytes, b: bytes)
    requires Checksum(a) == Checksum(b)
    ensures Digits(Register(a), 32) == Digits(Register(b), 32)
  {
    XorCancels(Register(a), Register(b), ALL_SET);
  }

  lemma XorCancels(a: nat, b: nat, c: nat)
    requires Xor(a, c) == Xor(b, c)
    ensures Digits(a, 32) == Digits(b, 32)
  {
    Cancel(Digits(a, 32), Digits(b, 32), Digits(c, 32));
  }

  lemma BurstSeparatesRegisters(g: Generator, a: bytes, b: bytes, i: nat, n: nat)
    requires Digits(POLYNOMIAL, 32) == g && g[31]
    requires |a| == |b| && i + n <= 8 * |a| && n <= 32
    requires Message(a)[..i] == Message(b)[..i] && Message(a)[i + n..] == Message(b)[i + n..]
    requires Digits(Register(a), 32) == Digits(Register(b), 32)
    ensures a == b
  {
    RegisterIsFeed(g, a);
    RegisterIsFeed(g, b);
    WindowSeparates(g, Ones(32), Message(a), Message(b), i, n);
    MessageInjective(a, b);
  }

  lemma {:induction false} MessageInjective(a: bytes, b: bytes)
    requires Message(a) == Message(b)
    ensures a == b
  {
    if a != [] {
      var n := |a| - 1;
      assert |Message(a)| == |Message(b)|;
      assert Message(a)[..8 * n] == Message(a[..n]) && Message(b)[..8 * n] == Message(b[..n]);
      assert Message(a)[8 * n..] == Digits(a[n], 8) && Message(b)[8 * n..] == Digits(b[n], 8);
      MessageInjective(a[..n], b[..n]);
      Powers();
      NumberDigits(a[n], 8);
      NumberDigits(b[n], 8);
      assert a == a[..n] + [a[n]] && b == b[..n] + [b[n]];
    }
  }

  lemma {:induction false} MessageConcat(a: bytes, b: bytes)
    ensures Message(a + b) == Message(a) + Message(b)
  {
    if b == [] {
      assert a + b == a;
    } else {
      MessageConcat(a, b[..|b| - 1]);
      assert (a + b)[..|a + b| - 1] == a + b[..|b| - 1];
    }
  }

  lemma MessageParts(before: bytes, a: bytes, after: bytes)
    ensures var m := Message(before + a + after);
      && |m| == 8 * (|before| + |a| + |after|)
      && m[..8 * |before|] == Message(before) && m[8 * (|before| + |a|)..] == Message(after)
  {
    MessageConcat(before, a);
    MessageConcat(before + a, after);
  }

  // In bytes: a change confined to four consecutive bytes always shows.
  lemma FourBytesDetected(before: bytes, a: bytes, b: bytes, after: bytes)
    requires |a| == |b| <= 4
    ensures Checksum(before + a + after) == Checksum(before + b + after) <==> a == b
  {
    MessageParts(before, a, after);
    MessageParts(before, b, after);
    BurstsDetected(before + a + after, before + b + after, 8 * |before|, 8 * |a|);
    assert a == (before + a + after)[|before|..|before| + |a|];
    assert b == (before + b + after)[|before|..|before| + |b|];
    assert before + a + after == before + b + after <==> a == b;
  }

  // The checksum is affine: over messages of one length, the checksum of a sum
  // of three is the sum of their checksums.
  lemma ChecksumAffine(a: bytes, b: bytes, c: bytes, d: bytes)
    requires |a| == |b| == |c| == |d|
    requires Message(d) == Add(Add(Message(a), Message(b)), Message(c))
    ensures Checksum(d) == Xor(Xor(Checksum(a), Checksum(b)), Checksum(c))
  {
    PolynomialDigits();
    RegistersAdd(CASTAGNOLI, a, b, c, d);
    ComplementsAdd(Register(a), Register(b), Register(c), Register(d));
  }

  lemma RegistersAdd(g: Generator, a: bytes, b: bytes, c: bytes, d: bytes)
    requires Digits(POLYNOMIAL, 32) == g
    requires |a| == |b| == |c| == |d|
    requires Message(d) == Add(Add(Message(a), Message(b)), Message(c))
    ensures Digits(Register(d), 32)
      == Add(Add(Digits(Register(a), 32), Digits(Register(b), 32)), Digits(Register(c), 32))
  {
    RegisterIsFeed(g, a);
    RegisterIsFeed(g, b);
    RegisterIsFeed(g, c);
    RegisterIsFeed(g, d);
    FeedSum(g, Message(a), Message(b), Message(c));
  }

  lemma FeedSum(g: Generator, a: Poly, b: Poly, c: Poly)
    requires |a| == |b| == |c|
    ensures FeedAll(g, Ones(32), Add(Add(a, b), c)) ==
      Add(Add(FeedAll(g, Ones(32), a), FeedAll(g, Ones(32), b)), FeedAll(g, Ones(32), c))
  {
    FeedAllLinear(g, Ones(32), Ones(32), a, b);
    FeedAllLinear(g, Add(Ones(32), Ones(32)), Ones(32), Add(a, b), c);
    assert Add(Add(Ones(32), Ones(32)), Ones(32)) == Ones(32);
  }

  lemma ComplementsAdd(a: nat, b: nat, c: nat, d: nat)
    requires Digits(d, 32) == Add(Add(Digits(a, 32), Digits(b, 32)), Digits(c, 32))
    ensures Xor(d, ALL_SET) == Xor(Xor(Xor(a, ALL_SET), Xor(b, ALL_SET)), Xor(c, ALL_SET))
  {
    SumOfComplements(Digits(a, 32), Digits(b, 32), Digits(c, 32), Digits(ALL_SET, 32));
    DigitsDetermine(Xor(d, ALL_SET), Xor(Xor(Xor(a, ALL_SET), Xor(b, ALL_SET)), Xor(c, ALL_SET)));
  }

  lemma SumOfComplements(a: Poly, b: Poly, c: Poly, ones: Poly)
    requires |a| == |b| == |c| == |ones|
    ensures Add(Add(Add(a, ones), Add(b, ones)), Add(c, ones)) == Add(Add(Add(a, b), c), ones)
  {
  }

  lemma FeedLinear(g: Generator, r: Poly, s: Poly, b: bool, c: bool)
    requires |r| == |s| == 32
    ensures Feed(g, Add(r, s), b != c) == Add(Feed(g, r, b), Feed(g, s, c))
  {
  }

  lemma {:induction false} FeedAllLinear(g: Generator, r: Poly, s: Poly, m: Poly, n: Poly)
    requires |r| == |s| == 32 && |m| == |n|
    ensures FeedAll(g, Add(r, s), Add(m, n)) == Add(FeedAll(g, r, m), FeedAll(g, s, n))
  {
    if m != [] {
      var k := |m| - 1;
      FeedAllLinear(g, r, s, m[..k], n[..k]);
      assert Add(m, n)[..k] == Add(m[..k], n[..k]);
      FeedLinear(g, FeedAll(g, r, m[..k]), FeedAll(g, s, n[..k]), m[k], n[k]);
    } else {
      assert Add(m, n) == [];
    }
  }
}
