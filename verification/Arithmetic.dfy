/** Division with remainder, away from the terms of other proofs. */
module Arithmetic {

  function Pow2(n: nat): (p: nat)
    ensures p > 0
  {
    if n == 0 then 1 else 2 * Pow2(n - 1)
  }

  lemma {:induction false} Pow2Add(a: nat, b: nat)
    ensures Pow2(a + b) == Pow2(a) * Pow2(b)
    decreases b
  {
    if b > 0 {
      Pow2Add(a, b - 1);
      assert Pow2(a) * Pow2(b) == 2 * (Pow2(a) * Pow2(b - 1));
    }
  }

  lemma SmallMultiple(k: int, p: int)
    requires -p < k * p < p
    ensures k == 0
  {
  }

  lemma QuotientIs(x: int, p: int, q: int, r: nat)
    requires r < p && x == q * p + r
    ensures x / p == q && x % p == r
  {
    var d, m := x / p, x % p;
    assert x == d * p + m;
    assert (q - d) * p == q * p - d * p;
    SmallMultiple(q - d, p);
  }

  lemma ModOnce(x: nat, m: nat)
    requires x < 2 * m
    ensures x % m == if x < m then x else x - m
  {
    QuotientIs(x, m, if x < m then 0 else 1, if x < m then x else x - m);
  }

  // The remainder of what is missing to a multiple of m.
  lemma Complement(a: nat, m: nat, k: nat)
    requires m > 0 && a <= m * k
    ensures (m * k - a) % m == if a % m == 0 then 0 else m - a % m
  {
    var q, r := a / m, a % m;
    assert a == q * m + r;
    if r == 0 {
      assert m * k - a == (k - q) * m;
      QuotientIs(m * k - a, m, k - q, 0);
    } else {
      assert m * k - a == (k - q - 1) * m + (m - r);
      QuotientIs(m * k - a, m, k - q - 1, m - r);
    }
  }

  // A number and its complement make a whole turn, or nothing.
  lemma Turns(a: nat, m: nat, k: nat)
    requires m > 0 && a <= m * k
    ensures a % m < m && (m * k - a) % m < m
    ensures var sum := a % m + (m * k - a) % m; sum == 0 || sum == m
  {
    Complement(a, m, k);
  }

  lemma Successor(q: nat, w: nat)
    requires w > 0
    ensures (q + 1) % w == if q % w == w - 1 then 0 else q % w + 1
  {
    var d, r := q / w, q % w;
    assert q == d * w + r;
    if r == w - 1 {
      assert q + 1 == (d + 1) * w + 0;
      QuotientIs(q + 1, w, d + 1, 0);
    } else {
      QuotientIs(q + 1, w, d, r + 1);
    }
  }

  lemma TimesMonotonic(q: nat, h: nat, w: nat)
    requires q <= h
    ensures q * w <= h * w
  {
    assert h * w == q * w + (h - q) * w;
  }

  lemma ComplementQuotient(a: nat, w: nat, h: nat)
    requires w > 0 && a <= w * h
    ensures a / w <= h && (a % w != 0 ==> a / w < h)
    ensures (w * h - a) / w == if a % w == 0 then h - a / w else h - a / w - 1
  {
    var q, r := a / w, a % w;
    assert a == q * w + r;
    if q > h {
      TimesMonotonic(h + 1, q, w);
      assert false;
    }
    if r == 0 {
      QuotientOfDifference(w * h - a, w, h, q, 0);
    } else {
      if q == h {
        assert false;
      }
      QuotientOfDifference(w * h - a, w, h, q + 1, w - r);
    }
  }

  lemma QuotientOfDifference(x: nat, w: nat, h: nat, q: nat, r: nat)
    requires q <= h && r < w && x == w * h - q * w + r
    ensures x / w == h - q
  {
    assert (h - q) * w == w * h - q * w;
    QuotientIs(x, w, h - q, r);
  }

  // The digits above the lowest make a whole turn only if there is no lowest digit; otherwise one less.
  lemma HighTurns(a: nat, w: nat, k: nat, h: nat)
    requires w > 0 && h == w * k && a <= w * h
    ensures var sum := a / w % w + (w * h - a) / w % w;
      if a % w == 0 then sum == 0 || sum == w else sum == w - 1
  {
    ComplementQuotient(a, w, h);
    var q, x := a / w, (w * h - a) / w;
    if a % w == 0 {
      WholeTurn(q, x, w, k, h);
    } else {
      AlmostTurn(q, x, w, k, h);
    }
  }

  lemma WholeTurn(q: nat, x: nat, w: nat, k: nat, h: nat)
    requires w > 0 && h == w * k && q <= h && x == h - q
    ensures q % w + x % w == 0 || q % w + x % w == w
  {
    Turns(q, w, k);
  }

  lemma AlmostTurn(q: nat, x: nat, w: nat, k: nat, h: nat)
    requires w > 0 && h == w * k && q < h && x == h - q - 1
    ensures q % w + x % w == w - 1
  {
    Complement(q + 1, w, k);
    Successor(q, w);
  }
}
