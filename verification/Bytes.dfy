// Byte strings, optional and fallible results, and the four-byte big-endian
// integers that frame every record of an encrypted backup object.
module Bytes {

  type byte = x: int | 0 <= x < 256

  type bytes = seq<byte>

  datatype Option<+T> = None | Some(value: T)

  // A call that may raise; the source's exceptions all become Error.
  datatype Result<+T> = Ok(value: T) | Error

  const TWO32: nat := 0x1_0000_0000

  // int.to_bytes(4, "big"), which the source only applies below 2**32.
  function BigEndian4(n: nat): (r: bytes)
    requires n < TWO32
    ensures |r| == 4
  {
    [n / 0x100_0000, n / 0x1_0000 % 256, n / 0x100 % 256, n % 256]
  }

  // int.from_bytes(b, "big")
  function FromBigEndian4(b: bytes): nat
    requires |b| == 4
  {
    (b[0] as int) * 0x100_0000 + (b[1] as int) * 0x1_0000 + (b[2] as int) * 0x100 + b[3]
  }

  lemma BigEndian4Inverse(n: nat)
    requires n < TWO32
    ensures FromBigEndian4(BigEndian4(n)) == n
  {
    var a, b := n / 0x100, n / 0x1_0000;
    assert a / 0x100 == b;
    assert b / 0x100 == n / 0x100_0000;
  }

  lemma BigEndian4Injective(m: nat, n: nat)
    requires m < TWO32 && n < TWO32
    requires BigEndian4(m) == BigEndian4(n)
    ensures m == n
  {
    BigEndian4Inverse(m);
    BigEndian4Inverse(n);
  }

  function Min(a: int, b: int): (r: int)
    ensures r <= a && r <= b && (r == a || r == b)
  {
    if a <= b then a else b
  }

  predicate AllZero(p: bytes) {
    forall i :: 0 <= i < |p| ==> p[i] == 0
  }
}
