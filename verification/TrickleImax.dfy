/**
 The limits of os/lib/trickle-timer.c on Imin and Imax: the pair check, and the generic max_imax with its
 halving mask, for a 16- or 32-bit clock.
 */
module TrickleImax {
  import opened Arithmetic
  import opened ClockTime

  // ----- the range checks -----

  /** TRICKLE_TIMER_IMIN_IS_BAD. */
  predicate IminIsBad(iMin: nat) {
    iMin < 2 || iMin > Shr(CLOCK_MAX, 1)
  }

  /** TRICKLE_TIMER_IPAIR_IS_BAD. */
  predicate IpairIsBad(iMin: nat, iMax: nat)
    requires iMin > 0
  {
    Shr(CLOCK_MAX, iMax + 1) < iMin - 1
  }

  lemma IminCheckExact(iMin: nat)
    ensures IminIsBad(iMin) <==> iMin < 2 || iMin >= HALF
  {
    Ranges();
    assert Shr(CLOCK_MAX, 1) == Shr(CLOCK_MAX, 0) / 2;
  }

  lemma PairCheck(iMin: nat, iMax: nat)
    requires iMin > 0
    ensures IpairIsBad(iMin, iMax) <==> HALF <= Shl(iMin - 1, iMax)
  {
    Ranges();
    ShrShl(CLOCK_MAX, iMin - 1, iMax + 1);
  }

  /** The pair check says exactly whether Imin << Imax is at most half the clock range. */
  lemma PairCheckExact(iMin: nat, iMax: nat)
    requires iMin >= 2
    ensures IpairIsBad(iMin, iMax) <==> HALF < Shl(iMin, iMax)
  {
    PairCheck(iMin, iMax);
    if iMax <= WIDTH - 1 {
      var q := Shl(1, WIDTH - 1 - iMax);
      ShlShl(1, WIDTH - 1 - iMax, iMax);
      ShlOrder(q, iMin - 1, iMax);
      ShlOrder(iMin, q, iMax);
    } else {
      ShlMonotone(1, WIDTH - 1, iMax);
      ShlOrder(1, iMin - 1, iMax);
      ShlOrder(2, iMin, iMax);
      ShlDouble(1, iMax);
      Ranges();
    }
  }

  // ----- the halving mask -----

  /** The i highest bits of a clock value. */
  function TopMask(i: nat): int
    requires i <= WIDTH
  {
    RANGE - Shl(1, WIDTH - i)
  }

  lemma {:induction false} AndOnes(x: nat, i: nat)
    requires x < Shl(1, i)
    ensures And(x, Shl(1, i) - 1) == x
  {
    if i > 0 {
      var h := Shl(1, i - 1);
      assert (2 * h - 1) % 2 == 1 && (2 * h - 1) / 2 == h - 1;
      AndOnes(x / 2, i - 1);
      OddMask(x, h - 1);
    }
  }

  lemma OddMask(x: nat, z: nat)
    ensures And(x, 2 * z + 1) == x % 2 + 2 * And(x / 2, z)
  {
  }

  lemma EvenMask(x: nat, z: nat)
    ensures And(x, 2 * z) == 2 * And(x / 2, z)
  {
    if z == 0 {
      assert And(x, 0) == 0 && And(x / 2, 0) == 0;
    } else {
      var y := 2 * z;
      assert y % 2 == 0 && y / 2 == z;
    }
  }

  lemma {:induction false} AndShifted(x: nat, ones: nat, i: nat, k: nat)
    requires ones == Shl(1, i) - 1 && x < Shl(1, i + k)
    ensures And(x, Shl(ones, k)) == 0 <==> x < Shl(1, k)
    decreases k
  {
    if k == 0 {
      AndOnes(x, i);
    } else {
      EvenMask(x, Shl(ones, k - 1));
      AndShifted(x / 2, ones, i, k - 1);
    }
  }

  /** Masking the i highest bits gives zero exactly when they are zero. */
  lemma TopBits(x: nat, i: nat)
    requires x < RANGE && i <= WIDTH
    ensures TopMask(i) >= 0
    ensures And(x, TopMask(i)) == 0 <==> x < Shl(1, WIDTH - i)
  {
    OnesShifted(i);
    AndShifted(x, Shl(1, i) - 1, i, WIDTH - i);
  }

  lemma OnesShifted(i: nat)
    requires i <= WIDTH
    ensures Shl(1, i) >= 1 && Shl(Shl(1, i) - 1, WIDTH - i) == TopMask(i) >= 0
  {
    ShlMonotone(1, 0, i);
    assert Shl(1, 0) == 1;
    OnesMoved(i, WIDTH - i, Shl(1, i) - 1);
  }

  lemma OnesMoved(i: nat, k: nat, ones: nat)
    requires ones + 1 == Shl(1, i)
    ensures Shl(ones, k) == Shl(1, i + k) - Shl(1, k)
  {
    ShlAdd(ones, 1, k);
    ShlShl(1, i, k);
  }

  /** Shifting the mask drops bits at the top. */
  lemma {:induction false} ShiftMask(j: nat, i: nat)
    requires i <= j <= WIDTH
    ensures TopMask(j) >= 0 && ClockShl(TopMask(j), i) == TopMask(j - i)
  {
    ShlMonotone(1, WIDTH - j, WIDTH);
    if i > 0 {
      ShiftMask(j, i - 1);
      MaskStep(j - (i - 1));
      assert ClockShl(TopMask(j), i) == TopMask(j - i);
    }
  }

  lemma MaskStep(m: nat)
    requires 0 < m <= WIDTH
    ensures 2 * TopMask(m) >= RANGE && 2 * TopMask(m) - RANGE == TopMask(m - 1)
  {
    Ranges();
    ShlMonotone(1, WIDTH - m, WIDTH - 1);
  }

  lemma Sixteen()
    ensures Shl(1, 16) == 0x1_0000
  {
    assert Shl(1, 4) == 16;
    assert Shl(1, 8) == 256;
    assert Shl(1, 12) == 4096;
  }

  /** The first mask, on both clocks. */
  lemma FirstMask(m: nat, h: nat)
    requires m == 0xFFFF && h == WIDTH / 2
    ensures ClockShl(m, h) == TopMask(h)
  {
    Sixteen();
    if WIDTH == 16 {
      FullMask(m, h);
    } else {
      HalfMask(m, h);
    }
  }

  lemma FullMask(m: nat, h: nat)
    requires m == RANGE - 1 && h <= WIDTH
    ensures ClockShl(m, h) == TopMask(WIDTH - h)
  {
    assert Shl(1, 0) == 1;
    ShiftMask(WIDTH, h);
  }

  lemma HalfMask(m: nat, h: nat)
    requires m == Shl(1, h) - 1 && 2 * h == WIDTH
    ensures ClockShl(m, h) == TopMask(h)
  {
    OnesShifted(h);
    ShlMonotone(1, 0, h);
    NoOverflow(m, h);
  }

  /** At the head of the loop of max_imax, with i = 2^n places to test: the value is v moved up by `zeros`
      places, and one of its 2 * i highest bits is set. */
  ghost predicate Halving(v: nat, mask: nat, value: nat, zeros: nat, i: nat, n: nat) {
    && i == Shl(1, n) && 2 * i <= WIDTH && ClockShl(mask, i) == TopMask(i)
    && value == Shl(v, zeros) && Shl(1, WIDTH - 2 * i) <= value < RANGE
  }

  /** max_imax, generic flavour: the zeros above value - 1, less one, is the largest Imax that passes the check. */
  method MaxImax(value0: nat) returns (iMax: nat)
    requires 2 <= value0 < HALF
    ensures !IpairIsBad(value0, iMax) && forall j | j > iMax :: IpairIsBad(value0, j)
  {
    var zeros: nat, mask: nat, value: nat := 0, 0xFFFF, value0 - 1;
    var i: nat := WIDTH / 2;
    ghost var n: nat := if WIDTH == 16 then 3 else 4;
    HalvingStarts(value0 - 1, n);
    while i > 0
      invariant i > 0 ==> Halving(value0 - 1, mask, value, zeros, i, n)
      invariant i == 0 ==> value == Shl(value0 - 1, zeros) && HALF <= value < RANGE
    {
      mask, value, zeros := HalvingTurn(value0 - 1, mask, value, zeros, i, n);
      n := if i > 1 then n - 1 else 0;
      i := i / 2;
    }
    Best(value0, zeros);
    iMax := zeros - 1;
  }

  lemma HalvingStarts(v: nat, n: nat)
    requires 1 <= v < HALF && n == if WIDTH == 16 then 3 else 4
    ensures Halving(v, 0xFFFF, v, 0, WIDTH / 2, n)
  {
    Ranges();
    FirstMask(0xFFFF, WIDTH / 2);
    assert Shl(1, 0) == 1;
    assert Shl(1, 3) == 8 && Shl(1, 4) == 2 * Shl(1, 3);
  }

  /** One turn of the loop of max_imax: the mask moves and, if the bits under it are zero, so does the value. */
  method HalvingTurn(ghost v: nat, mask0: nat, value0: nat, zeros0: nat, i: nat, ghost n: nat)
    returns (mask: nat, value: nat, zeros: nat)
    requires Halving(v, mask0, value0, zeros0, i, n)
    ensures i > 1 ==> n > 0 && Halving(v, mask, value, zeros, i / 2, n - 1)
    ensures i == 1 ==> value == Shl(v, zeros) && HALF <= value < RANGE
    ensures i > 0
  {
    TopBits(value0, i);
    mask, value, zeros := ClockShl(mask0, i), value0, zeros0;
    if And(value, mask) == 0 {
      Moved(v, zeros, value, i);
      zeros := zeros + i;
      value := ClockShl(value, i);
    }
    HalvingNext(v, mask, value, zeros, i, n);
  }

  lemma HalvingNext(v: nat, mask: nat, value: nat, zeros: nat, i: nat, n: nat)
    requires i == Shl(1, n) && 2 * i <= WIDTH && mask == TopMask(i)
    requires value == Shl(v, zeros) && Shl(1, WIDTH - i) <= value < RANGE
    ensures i > 1 ==> n > 0 && Halving(v, mask, value, zeros, i / 2, n - 1)
    ensures i == 1 ==> HALF <= value
    ensures i > 0
  {
    ShlMonotone(1, 0, n);
    assert Shl(1, 0) == 1;
    ShiftMask(i, i / 2);
  }

  lemma Moved(v: nat, zeros: nat, value: nat, i: nat)
    requires value == Shl(v, zeros) && 0 < i && 2 * i <= WIDTH
    requires Shl(1, WIDTH - 2 * i) <= value < Shl(1, WIDTH - i)
    ensures ClockShl(value, i) == Shl(v, zeros + i)
    ensures Shl(1, WIDTH - i) <= Shl(v, zeros + i) < RANGE
  {
    ShlShl(v, zeros, i);
    ShlShl(1, WIDTH - 2 * i, i);
    ShlShl(1, WIDTH - i, i);
    ShlOrder(Shl(1, WIDTH - 2 * i), value, i);
    ShlOrder(Shl(1, WIDTH - i), value, i);
    NoOverflow(value, i);
  }

  /** Counting the zeros gives the largest Imax that passes the check. */
  lemma Best(iMin: nat, zeros: nat)
    requires 2 <= iMin <= HALF && HALF <= Shl(iMin - 1, zeros) < RANGE
    ensures zeros > 0 && !IpairIsBad(iMin, zeros - 1)
    ensures forall j | j > zeros - 1 :: IpairIsBad(iMin, j)
  {
    Ranges();
    assert Shl(iMin - 1, 0) == iMin - 1;
    PairCheck(iMin, zeros - 1);
    forall j | j > zeros - 1
      ensures IpairIsBad(iMin, j)
    {
      ShlMonotone(iMin - 1, zeros, j);
      PairCheck(iMin, j);
    }
  }

  // ----- the flavours for one width -----

  /** The masks of the 16- and 32-bit flavours. */
  lemma MaskLiterals()
    ensures WIDTH == 16 ==> TopMask(8) == 0xFF00 && TopMask(4) == 0xF000 && TopMask(2) == 0xC000 && TopMask(1) == 0x8000
    ensures WIDTH == 32 ==> TopMask(16) == 0xFFFF0000 && TopMask(8) == 0xFF000000 && TopMask(4) == 0xF0000000
                            && TopMask(2) == 0xC0000000 && TopMask(1) == 0x80000000
  {
    Sixteen();
    assert Shl(1, 8) == 256;
    assert Shl(1, 12) == 4096;
    assert Shl(1, 14) == 0x4000;
    assert Shl(1, 15) == 0x8000;
    assert Shl(1, 20) == 0x10_0000;
    assert Shl(1, 24) == 0x100_0000;
    assert Shl(1, 28) == 0x1000_0000;
    assert Shl(1, 30) == 0x4000_0000;
    assert Shl(1, 31) == 0x8000_0000;
    assert Shl(1, 32) == 0x1_0000_0000;
  }

  ghost predicate IsPow2(x: nat) {
    exists k: nat :: x == Shl(1, k)
  }

  /** max_imax, 16- and 32-bit flavours. Without the decrement of the generic one the result still passes the
      check, but it is the largest one exactly if Imin is not a power of two. */
  method MaxImaxFixed(value0: nat) returns (iMax: nat)
    requires 2 <= value0 < HALF
    ensures !IpairIsBad(value0, iMax)
    ensures (forall j | j > iMax :: IpairIsBad(value0, j)) <==> !IsPow2(value0)
  {
    var value, zeros := value0, 0;
    Ranges();
    assert Shl(1, 0) == 1;
    if WIDTH == 32 {
      value, zeros := FixedTurn(value0, value, zeros, 16);
    }
    value, zeros := FixedTurn(value0, value, zeros, 8);
    value, zeros := FixedTurn(value0, value, zeros, 4);
    value, zeros := FixedTurn(value0, value, zeros, 2);
    zeros := FixedLast(value0, value, zeros);
    FixedBest(value0, zeros);
    iMax := zeros - 1;
  }

  /** The last of the unrolled steps, which has no use for the value any more. */
  method FixedLast(ghost v: nat, value: nat, zeros0: nat) returns (zeros: nat)
    requires value == Shl(v, zeros0) && Shl(1, WIDTH - 2) <= value < RANGE
    ensures HALF <= Shl(v, zeros) < RANGE
  {
    TopBits(value, 1);
    zeros := zeros0;
    LastPlace(v, zeros);
    if And(value, TopMask(1)) == 0 {
      zeros := zeros + 1;
    }
  }

  /** One of the unrolled steps. */
  method FixedTurn(ghost v: nat, value0: nat, zeros0: nat, i: nat) returns (value: nat, zeros: nat)
    requires 0 < i && 2 * i <= WIDTH && value0 == Shl(v, zeros0) && Shl(1, WIDTH - 2 * i) <= value0 < RANGE
    ensures value == Shl(v, zeros) && Shl(1, WIDTH - i) <= value < RANGE
  {
    TopBits(value0, i);
    value, zeros := value0, zeros0;
    if And(value, TopMask(i)) == 0 {
      Moved(v, zeros, value, i);
      zeros := zeros + i;
      value := ClockShl(value, i);
    }
  }

  lemma LastPlace(v: nat, zeros: nat)
    requires Shl(1, WIDTH - 2) <= Shl(v, zeros)
    ensures HALF <= Shl(v, zeros + 1) == 2 * Shl(v, zeros)
  {
    assert HALF == 2 * Shl(1, WIDTH - 2);
  }

  lemma FixedBest(iMin: nat, zeros: nat)
    requires 2 <= iMin < HALF && HALF <= Shl(iMin, zeros) < RANGE
    ensures zeros > 0 && !IpairIsBad(iMin, zeros - 1)
    ensures (forall j | j > zeros - 1 :: IpairIsBad(iMin, j)) <==> !IsPow2(iMin)
  {
    FixedPasses(iMin, zeros);
    PowerMeetsHalf(iMin, zeros);
    PairCheck(iMin, zeros);
    BadFromThere(iMin, zeros);
  }

  lemma FixedPasses(iMin: nat, zeros: nat)
    requires 2 <= iMin < HALF && HALF <= Shl(iMin, zeros) < RANGE
    ensures zeros > 0 && !IpairIsBad(iMin, zeros - 1)
  {
    Ranges();
    assert Shl(iMin, 0) == iMin;
    PairCheck(iMin, zeros - 1);
    ShlOrder(iMin, iMin - 1, zeros - 1);
  }

  lemma BadFromThere(iMin: nat, zeros: nat)
    requires iMin >= 2
    ensures IpairIsBad(iMin, zeros) ==> forall j | j >= zeros :: IpairIsBad(iMin, j)
  {
    PairCheck(iMin, zeros);
    forall j | j >= zeros
      ensures IpairIsBad(iMin, zeros) ==> IpairIsBad(iMin, j)
    {
      ShlMonotone(iMin - 1, zeros, j);
      PairCheck(iMin, j);
    }
  }

  /** The value below a power of two needs one place more to reach the top bit. */
  lemma PowerMeetsHalf(x: nat, zeros: nat)
    requires x > 0 && HALF <= Shl(x, zeros) < RANGE
    ensures Shl(x - 1, zeros) < HALF <==> IsPow2(x)
  {
    if Shl(x - 1, zeros) < HALF {
      BetweenPowers(x, zeros);
    }
    if IsPow2(x) {
      var k: nat :| x == Shl(1, k);
      PowersBetween(k, zeros);
      ShlOrder(x, x - 1, zeros);
    }
  }

  lemma BetweenPowers(x: nat, zeros: nat)
    requires x > 0 && Shl(x - 1, zeros) < HALF <= Shl(x, zeros) < RANGE
    ensures IsPow2(x)
  {
    ShlOrder(1, x, zeros);
    assert zeros < WIDTH by {
      if zeros >= WIDTH {
        ShlMonotone(1, WIDTH, zeros);
      }
    }
    var k := WIDTH - 1 - zeros;
    ShlShl(1, k, zeros);
    ShlOrder(Shl(1, k), x - 1, zeros);
    ShlOrder(x + 1, Shl(1, k), zeros);
    ShlOrder(Shl(1, k), x, zeros);
    ShlOrder(x, Shl(1, k), zeros);
    assert x == Shl(1, k);
  }

  lemma PowerBetween(n: nat)
    requires HALF <= Shl(1, n) < RANGE
    ensures Shl(1, n) == HALF
  {
    if n >= WIDTH {
      ShlMonotone(1, WIDTH, n);
    } else if n < WIDTH - 1 {
      ShlMonotone(1, n + 1, WIDTH - 1);
      assert Shl(1, n + 1) == 2 * Shl(1, n);
    }
  }

  lemma PowersBetween(k: nat, zeros: nat)
    requires HALF <= Shl(Shl(1, k), zeros) < RANGE
    ensures Shl(Shl(1, k), zeros) == HALF
  {
    ShlShl(1, k, zeros);
    PowerBetween(k + zeros);
  }
}
