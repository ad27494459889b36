/**
 Division, powers of two and bitwise and, as several modules need them.
 */
module Arithmetic {

  type Pos = n: nat | n > 0 witness 1

  /** Division is determined by quotient and remainder. */
  lemma QuotientUnique(x: int, a: Pos, q: int, r: nat)
    requires x == q * a + r && r < a
    ensures x / a == q && x % a == r
  {
    var d := x / a - q;
    assert d * a == r - x % a;
    SmallMultiple(d, a);
  }

  lemma SmallMultiple(d: int, a: Pos)
    requires d * a < a && 0 < d * a + a
    ensures d == 0
  {
    var e := if d < 0 then -d else d;
    assert e == 0 || e * a >= a by {
      if e > 0 {
        MulGe(e, a);
      }
    }
    assert (-d) * a == -(d * a);
  }

  lemma MulGe(k: nat, a: nat)
    requires k >= 1
    ensures k * a >= a
  {
  }

  // ----- powers of two and bitwise and -----

  function Pow2(k: nat): (p: nat)
    ensures p > 0
  {
    if k == 0 then 1 else 2 * Pow2(k - 1)
  }

  lemma {:induction false} Pow2Split(a: nat, b: nat)
    ensures Pow2(a + b) == Pow2(a) * Pow2(b)
  {
    if a > 0 {
      Pow2Split(a - 1, b);
    }
  }

  /** Bitwise and, where a negative x is its two's complement. */
  function And(x: int, y: nat): nat
    decreases y
  {
    if y == 0 then 0 else (if x % 2 == 1 && y % 2 == 1 then 1 else 0) + 2 * And(x / 2, y / 2)
  }

  /** All but the lowest k bits, and these. */
  lemma {:induction false} AndSplits(x: int, k: nat) returns (q: int)
    ensures x == q * Pow2(k) + And(x, Pow2(k) - 1) && And(x, Pow2(k) - 1) < Pow2(k)
    decreases k
  {
    if k == 0 {
      q := x;
    } else {
      var h := Pow2(k - 1);
      q := AndSplits(x / 2, k - 1);
      AndOdd(x, h - 1);
      AndDoubled(x, h, q, And(x / 2, h - 1));
    }
  }

  lemma AndDoubled(x: int, h: nat, q: int, r: nat)
    requires x / 2 == q * h + r && r < h
    ensures x == q * (2 * h) + (x % 2 + 2 * r) && x % 2 + 2 * r < 2 * h
  {
    assert q * (2 * h) == 2 * (q * h);
  }

  lemma AndIsMod(x: int, k: nat)
    ensures And(x, Pow2(k) - 1) == x % Pow2(k)
  {
    var q := AndSplits(x, k);
    QuotientUnique(x, Pow2(k), q, And(x, Pow2(k) - 1));
  }

  lemma AndOdd(x: int, y: nat)
    ensures And(x, 2 * y + 1) == x % 2 + 2 * And(x / 2, y)
  {
    assert (2 * y + 1) % 2 == 1 && (2 * y + 1) / 2 == y;
  }
}
