/** Bytes, and numbers stored in them. */
module LittleEndian {
  import opened Arithmetic

  type Byte = x: int | 0 <= x < 256

  // The number that bytes make, the first the least, and the first n bytes of a number.
  function Le(b: seq<Byte>): nat { if b == [] then 0 else b[0] + 256 * Le(b[1..]) }

  function Bytes(v: nat, n: nat): (b: seq<Byte>)
    ensures |b| == n
  {
    if n == 0 then [] else [v % 256] + Bytes(v / 256, n - 1)
  }

  function Modulus(n: nat): nat { if n == 0 then 1 else 256 * Modulus(n - 1) }

  lemma {:induction false} LeOfBytes(v: nat, n: nat)
    requires v < Modulus(n)
    ensures Le(Bytes(v, n)) == v
  {
    if n > 0 {
      LeOfBytes(v / 256, n - 1);
    }
  }

  lemma {:induction false} BytesOfLe(b: seq<Byte>)
    ensures Le(b) < Modulus(|b|) && Bytes(Le(b), |b|) == b
  {
    if b != [] {
      BytesOfLe(b[1..]);
      QuotientIs(Le(b), 256, Le(b[1..]), b[0]);
      assert b == [b[0]] + b[1..];
    }
  }

  function Digit(b: seq<Byte>, k: nat): nat
    requires k < |b|
  {
    b[k]
  }

  /** The first byte is the lowest: the numbers that two, four and eight bytes make. */
  lemma TwoBytesMean(b: seq<Byte>)
    requires |b| == 2
    ensures Le(b) == Digit(b, 0) + 0x100 * Digit(b, 1)
  {
    assert Le(b[1..]) == b[1] + 256 * Le(b[1..][1..]);
  }

  lemma FourBytesMean(b: seq<Byte>)
    requires |b| == 4
    ensures Le(b) == Digit(b, 0) + 0x100 * Digit(b, 1) + 0x1_0000 * Digit(b, 2) + 0x100_0000 * Digit(b, 3)
  {
    assert b[1..][1..] == b[2..];
    TwoBytesMean(b[2..]);
  }

  lemma EightBytesMean(b: seq<Byte>)
    requires |b| == 8
    ensures Le(b) == Digit(b, 0) + 0x100 * Digit(b, 1) + 0x1_0000 * Digit(b, 2) + 0x100_0000 * Digit(b, 3)
                     + 0x1_0000_0000 * (Digit(b, 4) + 0x100 * Digit(b, 5)
                                        + 0x1_0000 * Digit(b, 6) + 0x100_0000 * Digit(b, 7))
  {
    assert b[1..][1..] == b[2..] && b[2..][1..] == b[3..] && b[3..][1..] == b[4..];
    assert Le(b[2..]) == b[2] + 256 * Le(b[3..]) && Le(b[3..]) == b[3] + 256 * Le(b[4..]);
    FourBytesMean(b[4..]);
  }
}
