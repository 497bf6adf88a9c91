/** Machine words: what is left of a number in 32 or 64 bits. */
module MachineWords {
  import opened Arithmetic

  const TWO32: nat := 0x1_0000_0000
  const TWO64: nat := 0x1_0000_0000_0000_0000

  // x modulo m, by turns, which keeps division out of other proofs
  function Rest(x: int, m: nat): (r: nat)
    requires m > 0
    ensures r < m
    decreases if x < 0 then m - x else x
  {
    if x < 0 then Rest(x + m, m) else if x < m then x else Rest(x - m, m)
  }

  lemma {:induction false} RestIsModulo(x: int, m: nat)
    requires m > 0
    ensures Rest(x, m) == x % m
    decreases if x < 0 then m - x else x
  {
    if x < 0 {
      RestIsModulo(x + m, m);
      QuotientIs(x, m, (x + m) / m - 1, (x + m) % m);
    } else if x < m {
      QuotientIs(x, m, 0, x);
    } else {
      RestIsModulo(x - m, m);
      QuotientIs(x, m, (x - m) / m + 1, (x - m) % m);
    }
  }

  // Less than a turn off
  lemma OneTurn(x: int, m: nat)
    requires m > 0 && 0 <= x + m && x < 2 * m
    ensures Rest(x, m) == if x < 0 then x + m else if x < m then x else x - m
  {
    if x < 0 {
      assert Rest(x, m) == Rest(x + m, m);
    }
  }

  function U64(x: int): nat { if 0 <= x < TWO64 then x else Rest(x, TWO64) }
  function U32(x: int): nat { if 0 <= x < TWO32 then x else Rest(x, TWO32) }

  // A pointer or a UINTN, on X64 or on IA32
  function UintN(x64: bool, x: int): nat { if x64 then U64(x) else U32(x) }

  // The numbers below it fit into a UINTN.
  function WordRange(x64: bool): nat { if x64 then TWO64 else TWO32 }

  lemma WordIsModulo(x64: bool, x: int)
    ensures UintN(x64, x) == x % WordRange(x64)
  {
    RestIsModulo(x, WordRange(x64));
  }

  // A difference, and a sum, of two words
  lemma Minus64(x: nat, c: nat)
    requires x < TWO64 && c < TWO64
    ensures U64(x - c) == if x >= c then x - c else TWO64 + x - c
  {
    OneTurn(x - c, TWO64);
  }

  lemma MinusN(x64: bool, x: nat, c: nat)
    requires x < WordRange(x64) && c < WordRange(x64)
    ensures UintN(x64, x - c) == if x >= c then x - c else WordRange(x64) + x - c
  {
    OneTurn(x - c, WordRange(x64));
  }

  lemma PlusN(x64: bool, x: nat, c: nat)
    requires x < WordRange(x64) && c < WordRange(x64)
    ensures UintN(x64, x + c) == if x + c < WordRange(x64) then x + c else x + c - WordRange(x64)
  {
    OneTurn(x + c, WordRange(x64));
  }
}
