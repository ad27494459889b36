/**
 The 8-bit maps of os/net/nbr-table.c: one bit per table.
 */
module Bitmap {

  /** MAX_NUM_TABLES: one bit of a uint8_t for each. */
  const MAX_TABLES: nat := 8

  /** 1 << t, written out. */
  function Mask(t: nat): bv8
    requires t < MAX_TABLES
  {
    if t == 0 then 1 else if t == 1 then 2 else if t == 2 then 4 else if t == 3 then 8
    else if t == 4 then 16 else if t == 5 then 32 else if t == 6 then 64 else 128
  }

  lemma MaskIsShift(t: nat)
    requires t < MAX_TABLES
    ensures Mask(t) == (1 as bv8) << t
  {
    if t == 0 { assert (1 as bv8) << 0 == 1; }
    else if t == 1 { assert (1 as bv8) << 1 == 2; }
    else if t == 2 { assert (1 as bv8) << 2 == 4; }
    else if t == 3 { assert (1 as bv8) << 3 == 8; }
    else if t == 4 { assert (1 as bv8) << 4 == 16; }
    else if t == 5 { assert (1 as bv8) << 5 == 32; }
    else if t == 6 { assert (1 as bv8) << 6 == 64; }
    else { assert (1 as bv8) << 7 == 128; }
  }

  predicate Bit(m: bv8, t: nat)
    requires t < MAX_TABLES
  {
    m & Mask(t) != 0
  }

  /** The tables whose bit is set. */
  ghost function Bits(m: bv8): set<nat> {
    set t: nat | t < MAX_TABLES && Bit(m, t)
  }

  lemma SetBit(m: bv8, t: nat)
    requires t < MAX_TABLES
    ensures Bits(m | Mask(t)) == Bits(m) + {t}
  {
    forall u: nat | u < MAX_TABLES
      ensures Bit(m | Mask(t), u) <==> u == t || Bit(m, u)
    {
      SetBitAt(m, t, u);
    }
  }

  lemma SetBitAt(m: bv8, t: nat, u: nat)
    requires t < MAX_TABLES && u < MAX_TABLES
    ensures Bit(m | Mask(t), u) <==> u == t || Bit(m, u)
  {
    MasksApart(t, u);
    OrAt(m, Mask(t), Mask(u));
  }

  lemma ClearBitAt(m: bv8, t: nat, u: nat)
    requires t < MAX_TABLES && u < MAX_TABLES
    ensures Bit(m & !Mask(t), u) <==> u != t && Bit(m, u)
  {
    MasksApart(t, u);
    AndNotAt(m, Mask(t), Mask(u));
  }

  lemma MasksApart(t: nat, u: nat)
    requires t < MAX_TABLES && u < MAX_TABLES
    ensures t == u ==> Mask(t) == Mask(u) && Mask(t) != 0
    ensures t != u ==> Mask(t) & Mask(u) == 0 && Mask(t) != Mask(u)
  {
  }

  lemma OrAt(m: bv8, a: bv8, b: bv8)
    ensures a == b && a != 0 ==> (m | a) & b != 0
    ensures a & b == 0 ==> ((m | a) & b != 0 <==> m & b != 0)
  {
  }

  lemma AndNotAt(m: bv8, a: bv8, b: bv8)
    ensures a == b ==> (m & !a) & b == 0
    ensures a & b == 0 ==> ((m & !a) & b != 0 <==> m & b != 0)
  {
  }

  lemma ClearBit(m: bv8, t: nat)
    requires t < MAX_TABLES
    ensures Bits(m & !Mask(t)) == Bits(m) - {t}
  {
    forall u: nat | u < MAX_TABLES
      ensures Bit(m & !Mask(t), u) <==> u != t && Bit(m, u)
    {
      ClearBitAt(m, t, u);
    }
  }

  lemma NoBits(m: bv8)
    ensures m == 0 <==> Bits(m) == {}
  {
    if m == 0 {
    } else {
      var t := if Bit(m, 0) then 0 else if Bit(m, 1) then 1 else if Bit(m, 2) then 2 else if Bit(m, 3) then 3
               else if Bit(m, 4) then 4 else if Bit(m, 5) then 5 else if Bit(m, 6) then 6 else 7;
      assert t in Bits(m);
    }
  }

  /** m shifted right k times, one place at a time. */
  ghost function Shifted(m: bv8, k: nat): bv8 {
    if k == 0 then m else Shifted(m, k - 1) >> 1
  }

  lemma ShiftedBit(m: bv8, k: nat)
    requires k < MAX_TABLES
    ensures Shifted(m, k) & 1 == 1 <==> Bit(m, k)
    ensures Shifted(m, MAX_TABLES) == 0
  {
    assert Shifted(m, 1) == m >> 1;
    assert Shifted(m, 2) == m >> 2;
    assert Shifted(m, 3) == m >> 3;
    assert Shifted(m, 4) == m >> 4;
    assert Shifted(m, 5) == m >> 5;
    assert Shifted(m, 6) == m >> 6;
    assert Shifted(m, 7) == m >> 7;
  }

  lemma {:induction false} ShiftedOut(m: bv8, k: nat, t: nat)
    requires k <= t < MAX_TABLES && Shifted(m, k) == 0
    ensures !Bit(m, t)
    decreases t - k
  {
    ShiftedBit(m, k);
    if k < t {
      assert Shifted(m, k + 1) == 0;
      ShiftedOut(m, k + 1, t);
    }
  }

  /** The assignment that nbr_set_bit makes to one map. */
  method ChangeBit(m: bv8, t: nat, value: bool) returns (x: bv8)
    requires t < MAX_TABLES
    ensures Bits(x) == if value then Bits(m) + {t} else Bits(m) - {t}
  {
    MaskIsShift(t);
    var mask := (1 as bv8) << t;
    if value {
      SetBit(m, t);
      x := m | mask;
    } else {
      ClearBit(m, t);
      x := m & !mask;
    }
  }

  /** The tables below k whose bit is set. */
  ghost function LowBits(m: bv8, k: nat): set<nat> {
    set t: nat | t < k && t < MAX_TABLES && Bit(m, t)
  }

  lemma LowBitsStep(m: bv8, k: nat)
    requires k < MAX_TABLES
    ensures k !in LowBits(m, k)
    ensures LowBits(m, k + 1) == if Shifted(m, k) & 1 == 1 then LowBits(m, k) + {k} else LowBits(m, k)
    ensures |LowBits(m, k + 1)| == |LowBits(m, k)| + if Shifted(m, k) & 1 == 1 then 1 else 0
  {
    ShiftedBit(m, k);
    LowBitsNext(m, k);
  }

  lemma LowBitsNext(m: bv8, k: nat)
    requires k < MAX_TABLES
    ensures k !in LowBits(m, k)
    ensures LowBits(m, k + 1) == if Bit(m, k) then LowBits(m, k) + {k} else LowBits(m, k)
  {
  }

  lemma LowBitsAll(m: bv8, k: nat)
    requires k <= MAX_TABLES && Shifted(m, k) == 0
    ensures LowBits(m, k) == Bits(m)
  {
    forall t: nat | k <= t < MAX_TABLES
      ensures !Bit(m, t)
    {
      ShiftedOut(m, k, t);
    }
  }

  /** The loop of used_count: counts the bits of a map while shifting it out. */
  method CountBits(m: bv8) returns (count: nat)
    ensures count == |Bits(m)|
  {
    count := 0;
    var used := m;
    ghost var k := 0;
    while used != 0
      invariant k <= MAX_TABLES && used == Shifted(m, k)
      invariant count == |LowBits(m, k)|
      decreases MAX_TABLES - k
    {
      ShiftedBit(m, 0);
      LowBitsStep(m, k);
      if used & 1 == 1 {
        count := count + 1;
      }
      used := used >> 1;
      k := k + 1;
    }
    LowBitsAll(m, k);
  }
}
