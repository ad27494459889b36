/**
 clock_time_t: shifts, and the wrapping clock with the comparison of os/sys/timer.c.
 */
module ClockTime {

  type ClockWidth = w: nat | w == 16 || w == 32 witness 16

  /** The number of bits of clock_time_t. */
  const WIDTH: ClockWidth

  // ----- shifts -----

  /** x << i without a word size. */
  function Shl(x: nat, i: nat): nat {
    if i == 0 then x else 2 * Shl(x, i - 1)
  }

  function Shr(x: int, i: nat): int {
    if i == 0 then x else Shr(x, i - 1) / 2
  }

  lemma {:induction false} ShlOrder(x: nat, y: nat, i: nat)
    ensures x <= y <==> Shl(x, i) <= Shl(y, i)
  {
    if i > 0 {
      ShlOrder(x, y, i - 1);
    }
  }

  lemma {:induction false} ShlDouble(x: nat, i: nat)
    ensures Shl(2 * x, i) == 2 * Shl(x, i)
  {
    if i > 0 {
      ShlDouble(x, i - 1);
    }
  }

  lemma {:induction false} ShlShl(x: nat, i: nat, j: nat)
    ensures Shl(Shl(x, i), j) == Shl(x, i + j)
  {
    if j > 0 {
      ShlShl(x, i, j - 1);
    }
  }

  lemma {:induction false} ShlAdd(x: nat, y: nat, i: nat)
    ensures Shl(x + y, i) == Shl(x, i) + Shl(y, i)
  {
    if i > 0 {
      ShlAdd(x, y, i - 1);
    }
  }

  lemma {:induction false} ShlMonotone(x: nat, i: nat, j: nat)
    requires i <= j
    ensures Shl(x, i) <= Shl(x, j)
  {
    if i < j {
      ShlMonotone(x, i, j - 1);
    }
  }

  lemma {:induction false} ShrShl(x: int, y: nat, i: nat)
    ensures y <= Shr(x, i) <==> Shl(y, i) <= x
    decreases i
  {
    if i > 0 {
      ShrShl(x, 2 * y, i - 1);
      ShlDouble(y, i - 1);
    }
  }

  // ----- the clock -----

  /** clock_time_t arithmetic is modulo RANGE. */
  const RANGE: nat := Shl(1, WIDTH)

  /** The longest interval. */
  const HALF: nat := Shl(1, WIDTH - 1)
  const CLOCK_MAX: int := RANGE - 1

  lemma Ranges()
    ensures RANGE == 2 * HALF && HALF >= 2
  {
    ShlMonotone(1, 1, WIDTH - 1);
    assert Shl(1, 1) == 2 * Shl(1, 0);
  }

  /** x << i in clock_time_t, where the highest bit falls off. */
  function ClockShl(x: nat, i: nat): int {
    if i == 0 then x
    else var y := ClockShl(x, i - 1);
         if 2 * y < RANGE then 2 * y else 2 * y - RANGE
  }

  lemma {:induction false} NoOverflow(x: nat, i: nat)
    requires Shl(x, i) < RANGE
    ensures ClockShl(x, i) == Shl(x, i)
  {
    if i > 0 {
      NoOverflow(x, i - 1);
    }
  }

  lemma HalfOfMax()
    ensures Shr(CLOCK_MAX, 1) == HALF - 1
  {
    Ranges();
    assert Shr(CLOCK_MAX, 0) == CLOCK_MAX;
  }

  // ----- the wrapping clock -----

  /** What clock_time() reads at time t. */
  function Clock(t: nat): (c: nat)
    ensures RANGE > 0 ==> c < RANGE
    decreases t
  {
    if t < RANGE || RANGE == 0 then t else Clock(t - RANGE)
  }

  /** Addition and subtraction of clock_time_t values. */
  function Plus(a: int, b: int): int {
    if a + b < RANGE then a + b else a + b - RANGE
  }

  function Minus(a: int, b: int): int {
    if a >= b then a - b else a - b + RANGE
  }

  lemma {:induction false} PlusClock(t: nat, d: nat)
    requires d < RANGE
    ensures Plus(Clock(t), d) == Clock(t + d)
    decreases t
  {
    if t >= RANGE {
      PlusClock(t - RANGE, d);
    } else if t + d >= RANGE {
      assert Clock(t + d) == Clock(t + d - RANGE);
    }
  }

  lemma MinusClock(x: nat, y: nat)
    requires RANGE > 0
    ensures y <= x < y + RANGE ==> Minus(Clock(x), Clock(y)) == x - y
    ensures x < y < x + RANGE ==> Minus(Clock(x), Clock(y)) == x - y + RANGE
  {
    if y <= x < y + RANGE {
      PlusClock(y, x - y);
    } else if x < y < x + RANGE {
      PlusClock(x, y - x);
    }
  }

  /** timer_expired, where the sum may wrap to zero. */
  predicate Expired(start: nat, interval: nat, clock: nat) {
    interval < Plus(Minus(clock, start), 1)
  }

  /** The comparison of the timer library is exact for almost a whole turn of the clock. */
  lemma ExpiryExact(armed: nat, due: nat, now: nat)
    requires armed <= due && armed <= now < armed + RANGE - 1
    ensures Expired(Clock(armed), due - armed, Clock(now)) <==> due <= now
  {
    MinusClock(now, armed);
  }
}
