/**
 os/lib/crc16.c: the branch-free update, the bitwise CRC that it stands for, and errors it always detects.
 */
module Crc16 {

  // ----- the bitwise CRC -----

  /** One shift of the register, lowest bit first, with the reversed polynomial of x^16 + x^12 + x^5 + 1. */
  function Shift(acc: bv16): bv16 {
    (acc >> 1) ^ (if acc & 1 == 1 then 0x8408 else 0)
  }

  function Shifts(acc: bv16, n: nat): bv16
    decreases n
  {
    if n == 0 then acc else Shifts(Shift(acc), n - 1)
  }

  /** A byte goes into the low end of the register. */
  function In(acc: bv16, b: bv8): bv16 {
    acc ^ (b as bv16)
  }

  /** Each byte goes in and is shifted through. */
  function Bitwise(acc: bv16, data: seq<bv8>): bv16
    decreases |data|
  {
    if data == [] then acc else Bitwise(Shifts(In(acc, data[0]), 8), data[1..])
  }

  // ----- the bits of a message one by one -----

  /** One bit of the message, against the lowest bit of the register. */
  function Feed(acc: bv16, bit: bv16): bv16 {
    (acc >> 1) ^ (if (acc ^ bit) & 1 == 1 then 0x8408 else 0)
  }

  /** The lowest n bits of b, the lowest one first. */
  function FeedBits(acc: bv16, b: bv16, n: nat): bv16
    decreases n
  {
    if n == 0 then acc else FeedBits(Feed(acc, b & 1), b >> 1, n - 1)
  }

  /** The CRC of a message as a stream of bits, the lowest bit of each byte first. */
  function Serial(acc: bv16, data: seq<bv8>): bv16
    decreases |data|
  {
    if data == [] then acc else Serial(FeedBits(acc, data[0] as bv16, 8), data[1..])
  }

  function Rest(b: bv16, n: nat): bv16
    decreases n
  {
    if n == 0 then b else Rest(b >> 1, n - 1)
  }

  lemma ShiftFeeds(acc: bv16, b: bv16)
    ensures Shift(acc ^ b) == Feed(acc, b & 1) ^ (b >> 1)
  {
  }

  /** t is the register with bits of the message already in its low end. */
  ghost predicate Ahead(t: bv16, acc: bv16, b: bv16) {
    t == acc ^ b
  }

  lemma ShiftAhead(t: bv16, acc: bv16, b: bv16)
    requires Ahead(t, acc, b)
    ensures Ahead(Shift(t), Feed(acc, b & 1), b >> 1)
  {
    ShiftFeeds(acc, b);
  }

  lemma {:induction false} ShiftsAhead(t: bv16, acc: bv16, b: bv16, n: nat)
    requires Ahead(t, acc, b)
    ensures Ahead(Shifts(t, n), FeedBits(acc, b, n), Rest(b, n))
    decreases n
  {
    if n > 0 {
      ShiftAhead(t, acc, b);
      ShiftsAhead(Shift(t), Feed(acc, b & 1), b >> 1, n - 1);
    }
  }

  lemma NothingLeft(b: bv8)
    ensures Rest(b as bv16, 8) == 0
  {
  }

  lemma NothingAhead(t: bv16, acc: bv16, b: bv8)
    ensures Ahead(t, acc, Rest(b as bv16, 8)) ==> t == acc
  {
    NothingLeft(b);
  }

  lemma ByteIsSerial(acc: bv16, b: bv8, n: nat)
    requires n == 8
    ensures Shifts(In(acc, b), n) == FeedBits(acc, b as bv16, n)
  {
    ShiftsAhead(In(acc, b), acc, b as bv16, n);
    NothingAhead(Shifts(In(acc, b), n), FeedBits(acc, b as bv16, n), b);
  }

  /** Taking a whole byte in at once and shifting it through is taking its bits in one by one. */
  lemma {:induction false} BitwiseIsSerial(data: seq<bv8>, acc: bv16)
    ensures Bitwise(acc, data) == Serial(acc, data)
    decreases |data|
  {
    if data != [] {
      ByteIsSerial(acc, data[0], 8);
      BitwiseIsSerial(data[1..], Shifts(In(acc, data[0]), 8));
    }
  }

  // ----- the code -----

  /** The lines of crc16_add after the first. */
  function Mix(acc: bv16): bv16 {
    var a2 := (acc >> 8) | (acc << 8);
    var a3 := a2 ^ ((a2 & 0xff00) << 4);
    var a4 := a3 ^ ((a3 >> 8) >> 4);
    a4 ^ ((a4 & 0xff00) >> 5)
  }

  function Add(b: bv8, acc: bv16): bv16 {
    Mix(In(acc, b))
  }

  function CrcData(data: seq<bv8>, acc: bv16): bv16
    decreases |data|
  {
    if data == [] then acc else CrcData(data[1..], Add(data[0], acc))
  }

  /** crc16_add: one byte of the bitwise CRC. */
  method Crc16Add(b: bv8, acc0: bv16) returns (acc: bv16)
    ensures acc == Add(b, acc0) && acc == Bitwise(acc0, [b])
  {
    acc := acc0;
    acc := acc ^ (b as bv16);
    acc := (acc >> 8) | (acc << 8);
    acc := acc ^ ((acc & 0xff00) << 4);
    acc := acc ^ ((acc >> 8) >> 4);
    acc := acc ^ ((acc & 0xff00) >> 5);
    OneByte(b, acc0);
  }

  /** crc16_data: the bitwise CRC of the message. */
  method Crc16Data(data: array<bv8>, len: nat, acc0: bv16) returns (acc: bv16)
    requires len <= data.Length
    ensures acc == Bitwise(acc0, data[..len]) && acc == Serial(acc0, data[..len])
  {
    acc := acc0;
    for i := 0 to len
      invariant CrcData(data[i..len], acc) == CrcData(data[..len], acc0)
    {
      assert data[i..len][0] == data[i] && data[i..len][1..] == data[i + 1..len];
      acc := Crc16Add(data[i], acc);
    }
    DataIsBitwise(data[..len], acc0);
    BitwiseIsSerial(data[..len], acc0);
  }

  // ----- the fast form is the bitwise one -----

  function Shift4(t: bv16): bv16 {
    (t >> 4) ^ ((t & 0xf) << 12) ^ ((t & 0xf) << 7) ^ (t & 0xf)
  }

  function Shift1(t: bv16): bv16 {
    (t >> 1) ^ ((t & 0x1) << 15) ^ ((t & 0x1) << 10) ^ ((t & 0x1) << 3)
  }

  function Shift2(t: bv16): bv16 {
    (t >> 2) ^ ((t & 0x3) << 14) ^ ((t & 0x3) << 9) ^ ((t & 0x3) << 2)
  }

  lemma OneShift(t: bv16)
    ensures Shift1(t) == Shift(t)
  {
    if t & 1 == 1 {} else {
      assert t & 1 == 0;
    }
  }

  lemma TwoIsTwiceOne(t: bv16)
    ensures Shift2(t) == Shift1(Shift1(t))
  {
  }

  lemma FourIsTwiceTwo(t: bv16)
    ensures Shift4(t) == Shift2(Shift2(t))
  {
  }

  lemma FourShifts(t: bv16)
    ensures Shift4(t) == Shift(Shift(Shift(Shift(t))))
  {
    FourIsTwiceTwo(t);
    TwoIsTwiceOne(t);
    TwoIsTwiceOne(Shift2(t));
    OneShift(t);
    OneShift(Shift(t));
    OneShift(Shift(Shift(t)));
    OneShift(Shift(Shift(Shift(t))));
  }

  lemma MixIsTwiceFour(t: bv16)
    ensures Mix(t) == Shift4(Shift4(t))
  {
  }

  lemma ShiftsOfFour(t: bv16, n: nat)
    ensures Shifts(t, n + 4) == Shifts(Shift(Shift(Shift(Shift(t)))), n)
  {
    assert Shifts(t, n + 4) == Shifts(Shift(Shift(t)), n + 2);
  }

  /** The lines of crc16_add are eight shifts. */
  lemma MixIsEightShifts(t: bv16)
    ensures Mix(t) == Shifts(t, 8)
  {
    MixIsTwiceFour(t);
    FourShifts(t);
    FourShifts(Shift4(t));
    ShiftsOfFour(t, 4);
    ShiftsOfFour(Shift4(t), 0);
  }

  lemma {:induction false} DataIsBitwise(data: seq<bv8>, acc: bv16)
    ensures CrcData(data, acc) == Bitwise(acc, data)
    decreases |data|
  {
    if data != [] {
      MixIsEightShifts(In(acc, data[0]));
      DataIsBitwise(data[1..], Add(data[0], acc));
    }
  }

  lemma OneByte(b: bv8, acc: bv16)
    ensures Add(b, acc) == Bitwise(acc, [b])
  {
    DataIsBitwise([b], acc);
    assert [b][1..] == [];
    assert CrcData([b], acc) == CrcData([], Add(b, acc));
  }

  // ----- errors -----

  /** The inverse of the lines of crc16_add. */
  function Unmix(acc: bv16): bv16 {
    var g := (acc & 0xff00) >> 5;
    var a4 := acc ^ g ^ ((g & 0xff00) >> 5);
    var a3 := a4 ^ ((a4 >> 8) >> 4);
    var a2 := a3 ^ ((a3 & 0xff00) << 4);
    (a2 >> 8) | (a2 << 8)
  }

  lemma UnmixMix(x: bv16)
    ensures Unmix(Mix(x)) == x
  {
  }

  lemma InTwice(x: bv16, b: bv8)
    ensures In(In(x, b), b) == x
  {
  }

  /** crc16_add is injective in the accumulator. */
  lemma AddInjective(b: bv8, x: bv16, y: bv16)
    requires Add(b, x) == Add(b, y)
    ensures x == y
  {
    UnmixMix(In(x, b));
    UnmixMix(In(y, b));
    InTwice(x, b);
    InTwice(y, b);
  }

  lemma {:induction false} DataInjective(data: seq<bv8>, x: bv16, y: bv16)
    requires CrcData(data, x) == CrcData(data, y)
    ensures x == y
    decreases |data|
  {
    if data != [] {
      DataInjective(data[1..], Add(data[0], x), Add(data[0], y));
      AddInjective(data[0], x, y);
    }
  }

  lemma {:induction false} DataConcat(a: seq<bv8>, b: seq<bv8>, acc: bv16)
    ensures CrcData(a + b, acc) == CrcData(b, CrcData(a, acc))
    decreases |a|
  {
    if a == [] {
      assert a + b == b;
    } else {
      assert (a + b)[0] == a[0] && (a + b)[1..] == a[1..] + b;
      DataConcat(a[1..], b, Add(a[0], acc));
    }
  }

  function LowByte(x: bv16): bv8 {
    (x & 0xff) as bv8
  }

  function HighByte(x: bv16): bv8 {
    LowByte(x >> 8)
  }

  /** Before, on bytes. */
  function BeforeByte(x: bv8): bv8 {
    var g := x ^ (x >> 5);
    g ^ (g << 4)
  }

  /** What a mixed high byte adds to the low one. */
  function Spill(high: bv8): bv8 {
    var f := high ^ (high >> 5);
    (f >> 4) ^ (f << 3)
  }

  /** Mixing, on bytes, backwards. */
  lemma MixedBytes(t: bv16)
    ensures LowByte(t) == BeforeByte(HighByte(Mix(t)))
    ensures HighByte(t) == LowByte(Mix(t)) ^ Spill(HighByte(Mix(t)))
  {
  }

  /** A byte taken in changes the low half only. */
  lemma TakenIn(x: bv16, b: bv8)
    ensures LowByte(In(x, b)) == LowByte(x) ^ b
    ensures HighByte(In(x, b)) == HighByte(x)
  {
  }

  lemma XorBack(a: bv8, b: bv8)
    ensures (a ^ b) ^ b == a && (b ^ a) ^ b == a
  {
  }

  lemma XorRegroup(a: bv8, b: bv8, c: bv8)
    ensures (a ^ b) ^ c == (a ^ c) ^ b
  {
  }

  /** The byte taken in, from the accumulator before it and the high half after it. */
  lemma FirstTells(z: bv16, a: bv8)
    ensures a == BeforeByte(HighByte(Add(a, z))) ^ LowByte(z)
  {
    MixedBytes(In(z, a));
    TakenIn(z, a);
    XorBack(a, LowByte(z));
  }

  /** The accumulator before a byte, from the one after it. */
  lemma AddUndone(c: bv8, x: bv16)
    ensures x == In(Unmix(Add(c, x)), c)
  {
    UnmixMix(In(x, c));
    InTwice(x, c);
  }

  /** The high half before a byte, and the byte itself, from the word that it went into and the one it left. */
  lemma TakenBack(v: bv16, b: bv8, x: bv16)
    ensures x == In(v, b) ==> HighByte(x) == HighByte(v) && b == LowByte(v) ^ LowByte(x)
  {
    TakenIn(v, b);
    XorBack(b, LowByte(v));
  }

  /** The first of two bytes, from the accumulators before and after both: the second one leaves the high half alone. */
  function FirstOfTwo(z: bv16, r: bv16): bv8 {
    BeforeByte(HighByte(Unmix(r))) ^ LowByte(z)
  }

  function SecondOfTwo(z: bv16, r: bv16): bv8 {
    LowByte(Unmix(r)) ^ LowByte(Add(FirstOfTwo(z, r), z))
  }

  lemma TwoBytesDetermined(z: bv16, a: bv8, b: bv8)
    ensures var r := Add(b, Add(a, z)); FirstOfTwo(z, r) == a && SecondOfTwo(z, r) == b
  {
    TwoBytesBack(z, a, b, Add(a, z), Unmix(Add(b, Add(a, z))));
  }

  lemma TwoBytesBack(z: bv16, a: bv8, b: bv8, x: bv16, v: bv16)
    ensures x == Add(a, z) && v == Unmix(Add(b, x)) ==>
              a == BeforeByte(HighByte(v)) ^ LowByte(z) && b == LowByte(v) ^ LowByte(x)
  {
    AddUndone(b, x);
    TakenBack(v, b, x);
    FirstTells(z, a);
  }

  lemma CrcOfTwo(v: seq<bv8>, z: bv16)
    requires |v| == 2
    ensures CrcData(v, z) == Add(v[1], Add(v[0], z))
  {
    assert v[1..] == [v[1]] && v[1..][1..] == [];
    assert CrcData(v[1..], Add(v[0], z)) == CrcData([], Add(v[1], Add(v[0], z)));
  }

  lemma TwoUnique(z: bv16, v: seq<bv8>, w: seq<bv8>)
    requires |v| == |w| == 2 && CrcData(v, z) == CrcData(w, z)
    ensures v == w
  {
    CrcOfTwo(v, z);
    CrcOfTwo(w, z);
    TwoBytesDetermined(z, v[0], v[1]);
    TwoBytesDetermined(z, w[0], w[1]);
    assert v == [v[0], v[1]] && w == [w[0], w[1]];
  }

  lemma CrcAround(p: seq<bv8>, v: seq<bv8>, s: seq<bv8>, acc: bv16)
    ensures CrcData(p + v + s, acc) == CrcData(s, CrcData(v, CrcData(p, acc)))
  {
    DataConcat(p + v, s, acc);
    DataConcat(p, v, acc);
  }

  /** Messages of the same length that differ only within two adjacent bytes have different checksums. */
  lemma WindowDetected(p: seq<bv8>, v: seq<bv8>, w: seq<bv8>, s: seq<bv8>, acc: bv16)
    requires |v| == |w| == 2 && v != w
    ensures CrcData(p + v + s, acc) != CrcData(p + w + s, acc)
  {
    var z := CrcData(p, acc);
    CrcAround(p, v, s, acc);
    CrcAround(p, w, s, acc);
    if CrcData(s, CrcData(v, z)) == CrcData(s, CrcData(w, z)) {
      DataInjective(s, CrcData(v, z), CrcData(w, z));
      TwoUnique(z, v, w);
    }
  }

  // ----- bursts that do not keep to bytes -----

  /** The lowest k bits of a byte. The register takes the bits of a byte from the lowest one up. */
  function LowMask(k: nat): bv8
    requires k < 8
  {
    if k == 0 then 0 else if k == 1 then 1 else if k == 2 then 3 else if k == 3 then 7 else if k == 4 then 15
    else if k == 5 then 31 else if k == 6 then 63 else 127
  }

  /** First bytes a and b agree below bit k, last bytes c and d from bit k up. */
  predicate EndsAgree(k: nat, a: bv8, b: bv8, c: bv8, d: bv8)
    requires k < 8
  {
    a & LowMask(k) == b & LowMask(k) && c & !LowMask(k) == d & !LowMask(k)
  }

  /** Three bytes agree but for the 16 consecutive bits that begin with bit k of the first. */
  predicate WithinBurst(v: seq<bv8>, w: seq<bv8>, k: nat)
    requires |v| == |w| == 3 && k < 8
  {
    EndsAgree(k, v[0], w[0], v[2], w[2])
  }

  function Key(r: bv16): bv8 {
    LowByte(r) ^ Spill(HighByte(r))
  }

  /** The high half before a byte, from the accumulator after it, up to one more byte. */
  lemma MiddleTells(x: bv16, b: bv8, r: bv16, c: bv8)
    ensures Add(b, x) == In(r, c) ==> HighByte(x) == Key(r) ^ c
  {
    MixedBytes(In(x, b));
    TakenIn(x, b);
    TakenIn(r, c);
    XorRegroup(LowByte(r), c, Spill(HighByte(r)));
  }

  lemma MiddleFrom(x: bv16, b: bv8, c: bv8, r: bv16)
    ensures r == Unmix(Add(c, Add(b, x))) ==> HighByte(x) == Key(r) ^ c
  {
    AddUndone(c, Add(b, x));
    MiddleTells(x, b, r, c);
  }

  function FirstFrom(key: bv8, low: bv8, c: bv8): bv8 {
    BeforeByte(key ^ c) ^ low
  }

  predicate IsFirst(key: bv8, low: bv8, a: bv8, c: bv8) {
    a == FirstFrom(key, low, c)
  }

  /** Of three bytes, the first one follows from the last one and the accumulators before and after all of them. */
  lemma ThreeBytes(z: bv16, a: bv8, b: bv8, c: bv8, r: bv16)
    requires r == Unmix(Add(c, Add(b, Add(a, z))))
    ensures IsFirst(Key(r), LowByte(z), a, c)
  {
    MiddleFrom(Add(a, z), b, c, r);
    FirstTells(z, a);
  }

  /** Below the mask, the first byte tells what it was made from, given the bits above. */
  predicate Tells(u: bv8, v: bv8, m: bv8) {
    u & !m == v & !m && BeforeByte(u) & m == BeforeByte(v) & m ==> u == v
  }

  lemma FewBitsTell(u: bv8, v: bv8)
    ensures Tells(u, v, 0) && Tells(u, v, 1) && Tells(u, v, 3) && Tells(u, v, 7)
  {
  }

  lemma MoreBitsTell(u: bv8, v: bv8)
    ensures Tells(u, v, 15) && Tells(u, v, 31)
  {
  }

  lemma MostBitsTell(u: bv8, v: bv8)
    ensures Tells(u, v, 63) && Tells(u, v, 127)
  {
  }

  lemma LowBitsTell(k: nat, u: bv8, v: bv8)
    requires k < 8
    ensures Tells(u, v, LowMask(k))
  {
    FewBitsTell(u, v);
    MoreBitsTell(u, v);
    MostBitsTell(u, v);
  }

  lemma MaskOverXor(x: bv8, y: bv8, m: bv8)
    ensures (x ^ y) & m == (x & m) ^ (y & m)
  {
  }

  lemma MaskedXor(x: bv8, y: bv8, z: bv8, m: bv8)
    ensures (x ^ z) & m == (y ^ z) & m ==> x & m == y & m
    ensures x & m == y & m ==> (z ^ x) & m == (z ^ y) & m
  {
    MaskOverXor(x, z, m);
    MaskOverXor(y, z, m);
    MaskOverXor(z, x, m);
    MaskOverXor(z, y, m);
    XorBack(x & m, z & m);
    XorBack(y & m, z & m);
  }

  /** Different last bytes that agree from bit k up come with first bytes that do not agree below bit k. */
  lemma LastTells(k: nat, key: bv8, low: bv8, a: bv8, b: bv8, c: bv8, d: bv8)
    requires k < 8
    ensures EndsAgree(k, a, b, c, d) && IsFirst(key, low, a, c) && IsFirst(key, low, b, d) ==> c == d
  {
    MaskedXor(BeforeByte(key ^ c), BeforeByte(key ^ d), low, LowMask(k));
    MaskedXor(c, d, key, !LowMask(k));
    LowBitsTell(k, key ^ c, key ^ d);
    XorBack(c, key);
    XorBack(d, key);
  }

  lemma BurstSame(z: bv16, v: seq<bv8>, w: seq<bv8>)
    requires |v| == |w| == 3 && v[2] == w[2]
    requires Add(v[2], Add(v[1], Add(v[0], z))) == Add(w[2], Add(w[1], Add(w[0], z)))
    ensures v == w
  {
    AddInjective(v[2], Add(v[1], Add(v[0], z)), Add(w[1], Add(w[0], z)));
    TwoBytesDetermined(z, v[0], v[1]);
    TwoBytesDetermined(z, w[0], w[1]);
    assert v == [v[0], v[1], v[2]] && w == [w[0], w[1], w[2]];
  }

  lemma CrcOfThree(v: seq<bv8>, z: bv16)
    requires |v| == 3
    ensures CrcData(v, z) == Add(v[2], Add(v[1], Add(v[0], z)))
  {
    CrcOfTwo(v[1..], Add(v[0], z));
  }

  lemma FirstOf(v: seq<bv8>, z: bv16, key: bv8)
    requires |v| == 3 && key == Key(Unmix(CrcData(v, z)))
    ensures IsFirst(key, LowByte(z), v[0], v[2])
  {
    CrcOfThree(v, z);
    ThreeBytes(z, v[0], v[1], v[2], Unmix(CrcData(v, z)));
  }

  lemma BurstUnique(z: bv16, v: seq<bv8>, w: seq<bv8>, k: nat)
    requires |v| == |w| == 3 && k < 8 && WithinBurst(v, w, k) && CrcData(v, z) == CrcData(w, z)
    ensures v == w
  {
    var key := Key(Unmix(CrcData(v, z)));
    FirstOf(v, z, key);
    FirstOf(w, z, key);
    LastTells(k, key, LowByte(z), v[0], w[0], v[2], w[2]);
    CrcOfThree(v, z);
    CrcOfThree(w, z);
    BurstSame(z, v, w);
  }

  /** Messages of the same length that differ within 16 consecutive bits have different checksums, wherever
      in a byte the 16 bits begin. */
  lemma BurstDetected(p: seq<bv8>, v: seq<bv8>, w: seq<bv8>, s: seq<bv8>, k: nat, acc: bv16)
    requires |v| == |w| == 3 && k < 8 && WithinBurst(v, w, k) && v != w
    ensures CrcData(p + v + s, acc) != CrcData(p + w + s, acc)
  {
    var z := CrcData(p, acc);
    CrcAround(p, v, s, acc);
    CrcAround(p, w, s, acc);
    if CrcData(s, CrcData(v, z)) == CrcData(s, CrcData(w, z)) {
      DataInjective(s, CrcData(v, z), CrcData(w, z));
      BurstUnique(z, v, w, k);
    }
  }

  /** Sixteen bits is the limit: the 17 bits of the polynomial itself go unnoticed. */
  lemma LongerBurstMissed()
    ensures CrcData([0x11, 0x08, 0x01], 0) == CrcData([0, 0, 0], 0)
  {
    CrcOfThree([0x11, 0x08, 0x01], 0);
    CrcOfThree([0, 0, 0], 0);
    assert Add(0x01, Add(0x08, Add(0x11, 0))) == 0;
    assert Add(0, Add(0, Add(0, 0))) == 0;
  }
}
