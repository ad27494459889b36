/**
 os/lib/ccm-star.c against RFC 3610 with L = 2. The block cipher under its key is any function on blocks.
 */
module CcmStar {

  const NONCE_LENGTH: nat := 13
  const MAX_A_LEN: nat := 0xfeff

  type Block = b: seq<bv8> | |b| == 16 witness [0, 0, 0, 0, 0, 0, 0, 0, 0, 0, 0, 0, 0, 0, 0, 0]
  type Nonce = n: seq<bv8> | |n| == 13 witness [0, 0, 0, 0, 0, 0, 0, 0, 0, 0, 0, 0, 0]
  type Cipher = Block -> Block
  type Word16 = n: nat | n < 0x1_0000

  // ----- bytes -----

  /** n truncated to a byte. */
  function Byte(n: nat): bv8 {
    if n == 0 then 0 else Byte(n - 1) + 1
  }

  lemma {:induction false} ByteValue(n: nat)
    requires n < 256
    ensures Byte(n) as nat == n
  {
    if n > 0 {
      ByteValue(n - 1);
      Successor(Byte(n - 1));
    }
  }

  lemma Successor(b: bv8)
    requires b as nat < 255
    ensures (b + 1) as nat == b as nat + 1
  {
  }

  lemma ByteInjective(i: nat, j: nat)
    requires i < 256 && j < 256 && Byte(i) == Byte(j)
    ensures i == j
  {
    ByteValue(i);
    ByteValue(j);
  }

  function High(n: Word16): bv8 {
    Byte(n / 256)
  }

  function Low(n: Word16): bv8 {
    Byte(n % 256)
  }

  lemma WordInjective(i: Word16, j: Word16)
    requires High(i) == High(j) && Low(i) == Low(j)
    ensures i == j
  {
    ByteInjective(i / 256, j / 256);
    ByteInjective(i % 256, j % 256);
  }

  function Xor(x: Block, y: Block): Block {
    seq(16, i requires 0 <= i < 16 => x[i] ^ y[i])
  }

  /** Xoring twice with the same block changes nothing, so that the tag can be recovered from the MIC. */
  lemma XorUndone(x: Block, y: Block)
    ensures Xor(Xor(x, y), y) == x
  {
    forall i | 0 <= i < 16
      ensures Xor(Xor(x, y), y)[i] == x[i]
    {
      XorTwice(x[i], y[i]);
    }
  }

  // ----- authentication, section 2.2 of RFC 3610 -----

  function Zeros(n: nat): (z: seq<bv8>)
    ensures |z| == n && forall i | 0 <= i < n :: z[i] == 0
  {
    seq(n, i => 0)
  }

  /** Zero padding to whole blocks. */
  function Pad(s: seq<bv8>): (p: seq<bv8>)
    ensures |p| % 16 == 0 && |s| <= |p| < |s| + 16
  {
    s + Zeros((16 - |s| % 16) % 16)
  }

  predicate MicLenValid(micLen: nat): (r: bool)
    ensures r <==> micLen in {4, 6, 8, 10, 12, 14, 16}
  {
    4 <= micLen <= 16 && micLen % 2 == 0
  }

  /** The flags octet of B_0: 64 * Adata + 8 * M' + L', with M' = (M - 2) / 2 and L' = 1. */
  function AuthFlags(adata: bool, micLen: nat): bv8
    requires MicLenValid(micLen)
  {
    Byte((if adata then 64 else 0) + 8 * ((micLen - 2) / 2) + 1)
  }

  /** A block of flags, nonce and a two-byte number. */
  function IvBlock(flags: bv8, nonce: Nonce, counter: Word16): Block {
    [flags] + nonce + [High(counter), Low(counter)]
  }

  function B0(nonce: Nonce, mLen: Word16, adata: bool, micLen: nat): Block
    requires MicLenValid(micLen)
  {
    IvBlock(AuthFlags(adata, micLen), nonce, mLen)
  }

  /** The length of the additional data in two bytes, and the data. */
  function Counted(a: seq<bv8>): seq<bv8>
    requires |a| <= MAX_A_LEN
  {
    if a == [] then [] else [High(|a|), Low(|a|)] + a
  }

  /** B_1 ... B_n. */
  function AuthBlocks(a: seq<bv8>, m: seq<bv8>): (s: seq<bv8>)
    requires |a| <= MAX_A_LEN
    ensures |s| % 16 == 0
  {
    SumOfBlocks(|Pad(Counted(a))|, |Pad(m)|);
    Pad(Counted(a)) + Pad(m)
  }

  lemma SumOfBlocks(i: nat, j: nat)
    requires i % 16 == 0 && j % 16 == 0
    ensures (i + j) % 16 == 0
  {
  }

  /** X_{i+1} = E(X_i xor B_i) over whole blocks. */
  function CbcMac(e: Cipher, x: Block, blocks: seq<bv8>): Block
    requires |blocks| % 16 == 0
    decreases |blocks|
  {
    if blocks == [] then x else CbcMac(e, e(Xor(x, blocks[..16])), blocks[16..])
  }

  function Tag(e: Cipher, nonce: Nonce, m: seq<bv8>, a: seq<bv8>, micLen: nat): Block
    requires |a| <= MAX_A_LEN && |m| < 0x1_0000 && MicLenValid(micLen)
  {
    CbcMac(e, e(B0(nonce, |m|, a != [], micLen)), AuthBlocks(a, m))
  }

  // ----- the blocks by what they hold -----

  /** The number that the bytes stand for, most significant byte first. */
  function Value(s: seq<bv8>): nat {
    if s == [] then 0 else 256 * Value(s[..|s| - 1]) + s[|s| - 1] as nat
  }

  lemma ValueOfTwo(hi: bv8, lo: bv8)
    ensures Value([hi, lo]) == 256 * hi as nat + lo as nat
  {
    assert [hi, lo][..1] == [hi] && [hi][..0] == [];
    assert Value([hi]) == hi as nat;
  }

  /** A number goes into a block with its high byte first. */
  lemma WordValue(n: Word16)
    ensures Value([High(n), Low(n)]) == n
  {
    ByteValue(n / 256);
    ByteValue(n % 256);
    ValueOfTwo(High(n), Low(n));
  }

  lemma ValueInjective(s: seq<bv8>, t: seq<bv8>)
    requires |s| == |t| == 2 && Value(s) == Value(t)
    ensures s == t
  {
    ValueOf(s);
    ValueOf(t);
    SameWord(s[0], s[1], t[0], t[1]);
  }

  lemma ValueOf(s: seq<bv8>)
    requires |s| == 2
    ensures Value(s) == 256 * s[0] as nat + s[1] as nat
  {
    assert s == [s[0], s[1]];
    ValueOfTwo(s[0], s[1]);
  }

  lemma SameWord(i: bv8, j: bv8, k: bv8, l: bv8)
    ensures 256 * i as nat + j as nat == 256 * k as nat + l as nat ==> i == k && j == l
  {
    TwoDigits(i as nat, j as nat, k as nat, l as nat);
    SameByte(i, k);
    SameByte(j, l);
  }

  lemma TwoDigits(i: nat, j: nat, k: nat, l: nat)
    ensures j < 256 && l < 256 && 256 * i + j == 256 * k + l ==> i == k && j == l
  {
  }

  lemma SameByte(x: bv8, y: bv8)
    ensures x as nat == y as nat ==> x == y
  {
  }

  /** A block of flags, nonce and a number, high byte first. */
  ghost predicate Holds(b: Block, flags: bv8, nonce: Nonce, n: nat) {
    b[0] == flags && b[1..14] == nonce && Value(b[14..]) == n
  }

  /** set_iv makes the only block of that kind. */
  lemma IvBlockExact(b: Block, flags: bv8, nonce: Nonce, n: Word16)
    ensures Holds(b, flags, nonce, n) <==> b == IvBlock(flags, nonce, n)
  {
    var c := IvBlock(flags, nonce, n);
    WordValue(n);
    assert c[14..] == [High(n), Low(n)] && c[1..14] == nonce;
    if Holds(b, flags, nonce, n) {
      ValueInjective(b[14..], c[14..]);
      assert b == [b[0]] + b[1..14] + b[14..];
    }
  }

  /** The flags octet of B_0: bit 6 says whether there is additional data, bits 5 to 3 are (M - 2) / 2, bits 2 to 0
      are 1. */
  ghost predicate FlagBits(f: bv8, adata: bool, micLen: nat) {
    && f & 0x80 == 0
    && (f & 0x40 != 0 <==> adata)
    && ((f >> 3) & 7) as nat == (micLen - 2) / 2
    && f & 7 == 1
  }

  lemma AuthFlagsBits(adata: bool, micLen: nat)
    requires MicLenValid(micLen)
    ensures FlagBits(AuthFlags(adata, micLen), adata, micLen)
  {
    ByteValue((if adata then 64 else 0) + 8 * ((micLen - 2) / 2) + 1);
    FlagLiterals(AuthFlags(adata, micLen));
  }

  lemma FlagLiterals(f: bv8)
    ensures f as nat == 9 ==> f == 9
    ensures f as nat == 17 ==> f == 17
    ensures f as nat == 25 ==> f == 25
    ensures f as nat == 33 ==> f == 33
    ensures f as nat == 41 ==> f == 41
    ensures f as nat == 49 ==> f == 49
    ensures f as nat == 57 ==> f == 57
    ensures f as nat == 73 ==> f == 73
    ensures f as nat == 81 ==> f == 81
    ensures f as nat == 89 ==> f == 89
    ensures f as nat == 97 ==> f == 97
    ensures f as nat == 105 ==> f == 105
    ensures f as nat == 113 ==> f == 113
    ensures f as nat == 121 ==> f == 121
  {
  }

  lemma FlagsUnique(f: bv8, g: bv8, adata: bool, micLen: nat)
    requires FlagBits(f, adata, micLen) && FlagBits(g, adata, micLen)
    ensures f == g
  {
    SameByte((f >> 3) & 7, (g >> 3) & 7);
    BitsApart(f, g);
  }

  lemma BitsApart(f: bv8, g: bv8)
    ensures f & 0x80 == g & 0x80 && f & 0x40 == g & 0x40 && (f >> 3) & 7 == (g >> 3) & 7 && f & 7 == g & 7 ==> f == g
    ensures f & 0x40 == 0 || f & 0x40 == 0x40
    ensures g & 0x40 == 0 || g & 0x40 == 0x40
  {
  }

  /** The additional data with its length in front, high byte first. */
  ghost predicate LengthFirst(d: seq<bv8>, a: seq<bv8>) {
    if a == [] then d == [] else |d| == 2 + |a| && Value(d[..2]) == |a| && d[2..] == a
  }

  lemma CountedExact(d: seq<bv8>, a: seq<bv8>)
    requires |a| <= MAX_A_LEN
    ensures LengthFirst(d, a) <==> d == Counted(a)
  {
    if a != [] {
      var c := Counted(a);
      WordValue(|a|);
      assert c[..2] == [High(|a|), Low(|a|)] && c[2..] == a;
      if LengthFirst(d, a) {
        ValueInjective(d[..2], c[..2]);
        assert d == d[..2] + d[2..];
      }
    }
  }

  /** s with the fewest zeros after it that make whole blocks. */
  ghost predicate ZeroPadded(p: seq<bv8>, s: seq<bv8>) {
    && |p| % 16 == 0 && |s| <= |p| < |s| + 16
    && p[..|s|] == s && forall i | |s| <= i < |p| :: p[i] == 0
  }

  lemma PadExact(p: seq<bv8>, s: seq<bv8>)
    ensures ZeroPadded(p, s) <==> p == Pad(s)
  {
    var q := Pad(s);
    assert q[..|s|] == s;
    if ZeroPadded(p, s) {
      assert |p| == |q|;
      forall i | 0 <= i < |p|
        ensures p[i] == q[i]
      {
        assert i < |s| ==> p[i] == p[..|s|][i];
      }
    }
  }

  // ----- encryption, section 2.3 of RFC 3610 -----

  /** S_i = E(A_i). */
  function KeyBlock(e: Cipher, nonce: Nonce, i: Word16): Block {
    e(IvBlock(1, nonce, i))
  }

  /** Byte k of the message is masked with byte k of S_1 || S_2 || ... */
  function Ctr(e: Cipher, nonce: Nonce, m: seq<bv8>): (c: seq<bv8>)
    requires |m| < 0x1_0000
    ensures |c| == |m|
  {
    seq(|m|, k requires 0 <= k < |m| => m[k] ^ KeyBlock(e, nonce, k / 16 + 1)[k % 16])
  }

  /** U = T xor first-M-bytes(S_0). */
  function Mic(e: Cipher, nonce: Nonce, m: seq<bv8>, a: seq<bv8>, micLen: nat): (u: seq<bv8>)
    requires |a| <= MAX_A_LEN && |m| < 0x1_0000 && MicLenValid(micLen)
    ensures |u| == micLen
  {
    Xor(Tag(e, nonce, m, a, micLen), KeyBlock(e, nonce, 0))[..micLen]
  }

  /** What has become of each byte of a message: byte k is masked with byte k % 16 of the cipher of the block that holds
      flags 1, the nonce and the number k / 16 + 1. */
  ghost predicate Masked(e: Cipher, nonce: Nonce, was: seq<bv8>, now: seq<bv8>) {
    |now| == |was| && forall k | 0 <= k < |was| :: MaskedAt(e, nonce, was[k], now[k], k / 16 + 1, k % 16)
  }

  ghost predicate MaskedAt(e: Cipher, nonce: Nonce, was: bv8, now: bv8, n: nat, j: nat)
    requires j < 16
  {
    exists b: Block :: Holds(b, 1, nonce, n) && MaskedBy(e(b), was, now, j)
  }

  ghost predicate MaskedBy(key: Block, was: bv8, now: bv8, j: nat)
    requires j < 16
  {
    now == was ^ key[j]
  }

  /** Counter-mode encryption is the only such transformation. */
  lemma CtrExact(e: Cipher, nonce: Nonce, m: seq<bv8>, c: seq<bv8>)
    requires |m| < 0x1_0000
    ensures Masked(e, nonce, m, c) <==> c == Ctr(e, nonce, m)
  {
    forall k | 0 <= k < |m| && k < |c|
      ensures MaskedAt(e, nonce, m[k], c[k], k / 16 + 1, k % 16) <==> c[k] == Ctr(e, nonce, m)[k]
    {
      CtrAt(e, nonce, m, k, c[k]);
    }
  }

  lemma CtrAt(e: Cipher, nonce: Nonce, m: seq<bv8>, k: nat, now: bv8)
    requires k < |m| < 0x1_0000
    ensures MaskedAt(e, nonce, m[k], now, k / 16 + 1, k % 16) <==> now == Ctr(e, nonce, m)[k]
  {
    MaskExact(e, nonce, m[k], now, k / 16 + 1, k % 16);
    CtrMask(e, nonce, m, k, now);
  }

  lemma CtrMask(e: Cipher, nonce: Nonce, m: seq<bv8>, k: nat, now: bv8)
    requires k < |m| < 0x1_0000
    ensures MaskedBy(KeyBlock(e, nonce, k / 16 + 1), m[k], now, k % 16) <==> now == Ctr(e, nonce, m)[k]
  {
    CtrElement(e, nonce, m, k, KeyBlock(e, nonce, k / 16 + 1)[k % 16]);
  }

  lemma CtrElement(e: Cipher, nonce: Nonce, m: seq<bv8>, k: nat, x: bv8)
    requires k < |m| < 0x1_0000 && x == KeyBlock(e, nonce, k / 16 + 1)[k % 16]
    ensures Ctr(e, nonce, m)[k] == m[k] ^ x
  {
  }

  lemma MaskExact(e: Cipher, nonce: Nonce, was: bv8, now: bv8, n: Word16, j: nat)
    requires j < 16
    ensures MaskedAt(e, nonce, was, now, n, j) <==> MaskedBy(KeyBlock(e, nonce, n), was, now, j)
  {
    IvBlockExact(IvBlock(1, nonce, n), 1, nonce, n);
    if MaskedAt(e, nonce, was, now, n, j) {
      var b: Block :| Holds(b, 1, nonce, n) && MaskedBy(e(b), was, now, j);
      IvBlockExact(b, 1, nonce, n);
    }
  }

  /** The blocks that a MIC is made of: B_0, the additional data and the message in whole blocks, and A_0. */
  datatype Parts = Parts(b0: Block, data: seq<bv8>, dataBlocks: seq<bv8>, messageBlocks: seq<bv8>, a0: Block)

  ghost predicate LaidOut(s: Parts, nonce: Nonce, m: seq<bv8>, a: seq<bv8>, micLen: nat) {
    && FlagBits(s.b0[0], a != [], micLen) && Holds(s.b0, s.b0[0], nonce, |m|)
    && LengthFirst(s.data, a) && ZeroPadded(s.dataBlocks, s.data)
    && ZeroPadded(s.messageBlocks, m) && |s.dataBlocks + s.messageBlocks| % 16 == 0
    && Holds(s.a0, 1, nonce, 0)
  }

  /** The first micLen bytes of the CBC-MAC over B_0, the data and the message, masked with the cipher of A_0. */
  ghost predicate MicOver(e: Cipher, s: Parts, micLen: nat, u: seq<bv8>) {
    && |s.dataBlocks + s.messageBlocks| % 16 == 0 && |u| == micLen <= 16
    && forall k | 0 <= k < micLen :: u[k] == CbcMac(e, e(s.b0), s.dataBlocks + s.messageBlocks)[k] ^ e(s.a0)[k]
  }

  /** u is the MIC that sections 2.2 and 2.3 ask for. */
  ghost predicate Authenticates(e: Cipher, nonce: Nonce, m: seq<bv8>, a: seq<bv8>, micLen: nat, u: seq<bv8>) {
    exists s :: LaidOut(s, nonce, m, a, micLen) && MicOver(e, s, micLen, u)
  }

  /** The blocks as the code lays them out. */
  function PartsOf(nonce: Nonce, m: seq<bv8>, a: seq<bv8>, micLen: nat): Parts
    requires |a| <= MAX_A_LEN && |m| < 0x1_0000 && MicLenValid(micLen)
  {
    Parts(B0(nonce, |m|, a != [], micLen), Counted(a), Pad(Counted(a)), Pad(m), IvBlock(1, nonce, 0))
  }

  /** Only these blocks hold what section 2.2 asks for. */
  lemma PartsExact(s: Parts, nonce: Nonce, m: seq<bv8>, a: seq<bv8>, micLen: nat)
    requires |a| <= MAX_A_LEN && |m| < 0x1_0000 && MicLenValid(micLen)
    ensures LaidOut(s, nonce, m, a, micLen) <==> s == PartsOf(nonce, m, a, micLen)
  {
    var f := AuthFlags(a != [], micLen);
    AuthFlagsBits(a != [], micLen);
    IvBlockExact(s.b0, s.b0[0], nonce, |m|);
    IvBlockExact(s.a0, 1, nonce, 0);
    CountedExact(s.data, a);
    PadExact(s.dataBlocks, s.data);
    PadExact(s.messageBlocks, m);
    SumOfBlocks(|Pad(Counted(a))|, |Pad(m)|);
    if LaidOut(s, nonce, m, a, micLen) {
      FlagsUnique(s.b0[0], f, a != [], micLen);
    }
  }

  /** The MIC is the one made of those blocks, and no other sequence of bytes is. */
  lemma MicExact(e: Cipher, nonce: Nonce, m: seq<bv8>, a: seq<bv8>, micLen: nat, u: seq<bv8>)
    requires |a| <= MAX_A_LEN && |m| < 0x1_0000 && MicLenValid(micLen)
    ensures Authenticates(e, nonce, m, a, micLen, u) <==> u == Mic(e, nonce, m, a, micLen)
  {
    var s0 := PartsOf(nonce, m, a, micLen);
    PartsExact(s0, nonce, m, a, micLen);
    MicOfParts(e, nonce, m, a, micLen, u);
    forall s | LaidOut(s, nonce, m, a, micLen)
      ensures s == s0
    {
      PartsExact(s, nonce, m, a, micLen);
    }
  }

  lemma MicOfParts(e: Cipher, nonce: Nonce, m: seq<bv8>, a: seq<bv8>, micLen: nat, u: seq<bv8>)
    requires |a| <= MAX_A_LEN && |m| < 0x1_0000 && MicLenValid(micLen)
    ensures MicOver(e, PartsOf(nonce, m, a, micLen), micLen, u) <==> u == Mic(e, nonce, m, a, micLen)
  {
    SumOfBlocks(|Pad(Counted(a))|, |Pad(m)|);
  }

  lemma CtrInvolution(e: Cipher, nonce: Nonce, m: seq<bv8>)
    requires |m| < 0x1_0000
    ensures Ctr(e, nonce, Ctr(e, nonce, m)) == m
  {
    forall k | 0 <= k < |m|
      ensures Ctr(e, nonce, Ctr(e, nonce, m))[k] == m[k]
    {
      XorTwice(m[k], KeyBlock(e, nonce, k / 16 + 1)[k % 16]);
    }
  }

  lemma XorTwice(x: bv8, y: bv8)
    ensures (x ^ y) ^ y == x
  {
  }

  // ----- the blocks determine what they authenticate -----

  lemma FlagsInjective(ad1: bool, l1: nat, ad2: bool, l2: nat)
    requires MicLenValid(l1) && MicLenValid(l2) && AuthFlags(ad1, l1) == AuthFlags(ad2, l2)
    ensures ad1 == ad2 && l1 == l2
  {
    ByteInjective((if ad1 then 64 else 0) + 8 * ((l1 - 2) / 2) + 1, (if ad2 then 64 else 0) + 8 * ((l2 - 2) / 2) + 1);
  }

  lemma IvInjective(f1: bv8, n1: Nonce, c1: Word16, f2: bv8, n2: Nonce, c2: Word16)
    requires IvBlock(f1, n1, c1) == IvBlock(f2, n2, c2)
    ensures f1 == f2 && n1 == n2 && c1 == c2
  {
    var b1, b2 := IvBlock(f1, n1, c1), IvBlock(f2, n2, c2);
    assert f1 == b1[0] && f2 == b2[0];
    assert n1 == b1[1..14] && n2 == b2[1..14];
    assert High(c1) == b1[14] == b2[14] == High(c2) && Low(c1) == b1[15] == b2[15] == Low(c2);
    WordInjective(c1, c2);
  }

  /** Two different inputs never have the same blocks B_0 ... B_n. */
  lemma BlocksInjective(n1: Nonce, m1: seq<bv8>, a1: seq<bv8>, l1: nat, n2: Nonce, m2: seq<bv8>, a2: seq<bv8>, l2: nat)
    requires |a1| <= MAX_A_LEN && |m1| < 0x1_0000 && MicLenValid(l1)
    requires |a2| <= MAX_A_LEN && |m2| < 0x1_0000 && MicLenValid(l2)
    ensures B0(n1, |m1|, a1 != [], l1) == B0(n2, |m2|, a2 != [], l2) && AuthBlocks(a1, m1) == AuthBlocks(a2, m2)
            ==> n1 == n2 && m1 == m2 && a1 == a2 && l1 == l2
  {
    if B0(n1, |m1|, a1 != [], l1) == B0(n2, |m2|, a2 != [], l2) && AuthBlocks(a1, m1) == AuthBlocks(a2, m2) {
      IvInjective(AuthFlags(a1 != [], l1), n1, |m1|, AuthFlags(a2 != [], l2), n2, |m2|);
      FlagsInjective(a1 != [], l1, a2 != [], l2);
      DataDetermined(a1, m1, a2, m2);
      MessageDetermined(Pad(Counted(a1)), m1, m2);
    }
  }

  lemma DataDetermined(a1: seq<bv8>, m1: seq<bv8>, a2: seq<bv8>, m2: seq<bv8>)
    requires |a1| <= MAX_A_LEN && |a2| <= MAX_A_LEN && (a1 != [] <==> a2 != [])
    requires AuthBlocks(a1, m1) == AuthBlocks(a2, m2)
    ensures a1 == a2
  {
    if a1 != [] {
      CountedAt(a1, m1);
      CountedAt(a2, m2);
      WordInjective(|a1|, |a2|);
    }
  }

  lemma CountedAt(a: seq<bv8>, m: seq<bv8>)
    requires 0 < |a| <= MAX_A_LEN
    ensures var s := AuthBlocks(a, m);
            && |s| >= 2 + |a| && s[0] == High(|a|) && s[1] == Low(|a|) && s[2..2 + |a|] == a
  {
    var c := Counted(a);
    assert Pad(c)[..|c|] == c && c[2..] == a;
    assert AuthBlocks(a, m)[..|c|] == c;
  }

  lemma MessageDetermined(p: seq<bv8>, m1: seq<bv8>, m2: seq<bv8>)
    requires |m1| == |m2| && p + Pad(m1) == p + Pad(m2)
    ensures m1 == m2
  {
    assert (p + Pad(m1))[|p|..] == Pad(m1) && (p + Pad(m2))[|p|..] == Pad(m2);
    assert Pad(m1)[..|m1|] == m1 && Pad(m2)[..|m2|] == m2;
  }

  /** The key-stream blocks are distinct, and none is the first block of an authentication. */
  lemma KeyBlocksApart(nonce: Nonce, i: Word16, j: Word16, mLen: Word16, adata: bool, micLen: nat)
    requires i != j && MicLenValid(micLen)
    ensures IvBlock(1, nonce, i) != IvBlock(1, nonce, j)
    ensures IvBlock(1, nonce, i) != B0(nonce, mLen, adata, micLen)
  {
    if IvBlock(1, nonce, i) == IvBlock(1, nonce, j) {
      IvInjective(1, nonce, i, 1, nonce, j);
    }
    if IvBlock(1, nonce, i) == B0(nonce, mLen, adata, micLen) {
      IvInjective(1, nonce, i, AuthFlags(adata, micLen), nonce, mLen);
      ByteInjective(1, (if adata then 64 else 0) + 8 * ((micLen - 2) / 2) + 1);
    }
  }

  // ----- chaining -----

  lemma {:induction false} CbcConcat(e: Cipher, x: Block, s: seq<bv8>, t: seq<bv8>)
    requires |s| % 16 == 0 && |t| % 16 == 0
    ensures CbcMac(e, x, s + t) == CbcMac(e, CbcMac(e, x, s), t)
    decreases |s|
  {
    if s == [] {
      assert s + t == t;
    } else {
      assert (s + t)[..16] == s[..16] && (s + t)[16..] == s[16..] + t;
      CbcConcat(e, e(Xor(x, s[..16])), s[16..], t);
    }
  }

  // ----- the code -----

  /** AES_128.encrypt, in place. */
  method Encrypt(e: Cipher, x: array<bv8>)
    requires x.Length == 16
    modifies x
    ensures x[..] == e(old(x[..]))
  {
    var r := e(x[..]);
    for i := 0 to 16
      invariant x[..i] == r[..i]
    {
      x[i] := r[i];
    }
    assert x[..] == x[..16] && r == r[..16];
  }

  method SetIv(iv: array<bv8>, flags: bv8, nonce: Nonce, counter: Word16)
    requires iv.Length == 16
    modifies iv
    ensures iv[..] == IvBlock(flags, nonce, counter)
  {
    iv[0] := flags;
    for i := 0 to NONCE_LENGTH
      invariant iv[0] == flags && iv[1..1 + i] == nonce[..i]
    {
      iv[1 + i] := nonce[i];
      assert iv[1..2 + i] == iv[1..1 + i] + [iv[1 + i]];
    }
    iv[14] := High(counter);
    iv[15] := Low(counter);
  }

  /** XORs the block m[pos] ... m[pos + 15] with the key-stream block. */
  method CtrStep(e: Cipher, nonce: Nonce, pos: nat, m: array<bv8>, mLen: nat, counter: Word16)
    requires pos <= mLen <= m.Length
    modifies m
    ensures forall k | 0 <= k < m.Length ::
              m[k] == if pos <= k < mLen && k < pos + 16 then old(m[k]) ^ KeyBlock(e, nonce, counter)[k - pos]
                      else old(m[k])
  {
    var a := new bv8[16];
    SetIv(a, 1, nonce, counter);
    Encrypt(e, a);
    var i := 0;
    while pos + i < mLen && i < 16
      invariant i <= 16 && pos + i <= mLen
      invariant a[..] == KeyBlock(e, nonce, counter)
      invariant forall k | 0 <= k < m.Length ::
                  m[k] == if pos <= k < pos + i then old(m[k]) ^ KeyBlock(e, nonce, counter)[k - pos] else old(m[k])
    {
      m[pos + i] := m[pos + i] ^ a[i];
      i := i + 1;
    }
  }

  /** data[pos] ... data[pos + 15], with zeros where there is no data. */
  function Chunk(data: seq<bv8>, pos: nat): Block {
    seq(16, i requires 0 <= i < 16 => if pos + i < |data| then data[pos + i] else 0)
  }

  /** What is left of the data at pos, in whole blocks. */
  function Rest(data: seq<bv8>, pos: nat): (r: seq<bv8>)
    ensures |r| % 16 == 0
  {
    if pos <= |data| then Pad(data[pos..]) else []
  }

  lemma LastChunk(data: seq<bv8>, pos: nat)
    requires pos < |data| < pos + 16
    ensures Pad(data[pos..]) == Chunk(data, pos) && Rest(data, pos + 16) == []
  {
  }

  lemma RestStep(data: seq<bv8>, pos: nat)
    requires pos < |data|
    ensures Rest(data, pos) == Chunk(data, pos) + Rest(data, pos + 16)
  {
    var d := data[pos..];
    if |d| >= 16 {
      assert d == d[..16] + d[16..] && d[16..] == data[pos + 16..];
      assert Chunk(data, pos) == d[..16];
      PadAfterBlock(d[..16], d[16..]);
    } else {
      LastChunk(data, pos);
    }
  }

  lemma PadAfterBlock(block: seq<bv8>, s: seq<bv8>)
    requires |block| == 16
    ensures Pad(block + s) == block + Pad(s)
  {
    SamePadding(|s|);
    PaddedAfter(block, s, Zeros((16 - |s| % 16) % 16));
  }

  lemma SamePadding(n: nat)
    ensures (16 - (16 + n) % 16) % 16 == (16 - n % 16) % 16
  {
  }

  lemma PaddedAfter(block: seq<bv8>, s: seq<bv8>, z: seq<bv8>)
    ensures (block + s) + z == block + (s + z)
  {
  }

  /** One turn of a loop over the data is one block. */
  lemma CbcChunk(e: Cipher, x: Block, data: seq<bv8>, pos: nat)
    requires pos < |data|
    ensures CbcMac(e, x, Rest(data, pos)) == CbcMac(e, e(Xor(x, Chunk(data, pos))), Rest(data, pos + 16))
  {
    RestStep(data, pos);
    CbcFirst(e, x, Chunk(data, pos), Rest(data, pos + 16));
  }

  /** x[skip..] ^= data[pos..], as far as there is data and room. */
  ghost predicate Mixed(was: Block, now: Block, data: seq<bv8>, pos: nat, skip: nat) {
    && (forall k | skip <= k < 16 && pos + k - skip < |data| :: now[k] == was[k] ^ data[pos + k - skip])
    && (forall k | 0 <= k < 16 && (k < skip || pos + k - skip >= |data|) :: now[k] == was[k])
  }

  lemma MixedIsXor(was: Block, now: Block, data: seq<bv8>, pos: nat)
    requires Mixed(was, now, data, pos, 0)
    ensures now == Xor(was, Chunk(data, pos))
  {
    forall k | 0 <= k < 16
      ensures now[k] == was[k] ^ Chunk(data, pos)[k]
    {
      XorZero(was[k]);
    }
  }

  lemma XorZero(b: bv8)
    ensures b ^ 0 == b
  {
  }

  /** The innermost loops: XORs data[pos], data[pos + 1] ... into x[skip], x[skip + 1] ... */
  method XorInto(x: array<bv8>, data: seq<bv8>, pos: nat, skip: nat)
    requires x.Length == 16 && pos <= |data| && skip <= 16
    modifies x
    ensures Mixed(old(x[..]), x[..], data, pos, skip)
  {
    var i := skip;
    while pos + i - skip < |data| && i < 16
      invariant skip <= i <= 16 && pos + i - skip <= |data|
      invariant forall k | skip <= k < i :: x[k] == old(x[k]) ^ data[pos + k - skip]
      invariant forall k | 0 <= k < 16 && (k < skip || i <= k) :: x[k] == old(x[k])
    {
      x[i] := x[i] ^ data[pos + i - skip];
      i := i + 1;
    }
  }

  /** The loops of mic over whole blocks. */
  method Absorb(e: Cipher, x: array<bv8>, data: seq<bv8>, from: nat)
    requires x.Length == 16
    modifies x
    ensures x[..] == CbcMac(e, old(x[..]), Rest(data, from))
  {
    ghost var goal := CbcMac(e, x[..], Rest(data, from));
    var pos := from;
    while pos < |data|
      invariant Heading(e, x, data, pos, goal)
    {
      AbsorbBlock(e, x, data, pos, goal);
      pos := pos + 16;
    }
    NothingLeft(e, x[..], data, pos);
  }

  /** The chaining over what is left of the data ends in `goal`. */
  ghost predicate Heading(e: Cipher, x: array<bv8>, data: seq<bv8>, pos: nat, goal: Block)
    reads x
    requires x.Length == 16
  {
    CbcMac(e, x[..], Rest(data, pos)) == goal
  }

  lemma NothingLeft(e: Cipher, x: Block, data: seq<bv8>, pos: nat)
    requires pos >= |data|
    ensures CbcMac(e, x, Rest(data, pos)) == x
  {
    assert Rest(data, pos) == [];
  }

  /** One turn of the loop. */
  method AbsorbBlock(e: Cipher, x: array<bv8>, data: seq<bv8>, pos: nat, ghost goal: Block)
    requires x.Length == 16 && pos < |data| && Heading(e, x, data, pos, goal)
    modifies x
    ensures Heading(e, x, data, pos + 16, goal)
  {
    ghost var was := x[..];
    CbcChunk(e, was, data, pos);
    XorInto(x, data, pos, 0);
    MixedIsXor(was, x[..], data, pos);
    Encrypt(e, x);
  }

  /** mic; the result begins at index `to`. */
  method ComputeMic(e: Cipher, nonce: Nonce, m: seq<bv8>, a: seq<bv8>, result: array<bv8>, to: nat, micLen: nat)
    requires |m| < 0x1_0000 && |a| <= MAX_A_LEN && MicLenValid(micLen) && to + micLen <= result.Length
    modifies result
    ensures result[to..to + micLen] == Mic(e, nonce, m, a, micLen)
    ensures OnlyWithin(old(result[..]), result[..], to, to + micLen)
  {
    var x := new bv8[16];
    ComputeTag(e, nonce, m, a, micLen, x);
    MaskTag(e, nonce, x);
    CopyOut(x, result, to, micLen);
  }

  /** The CBC-MAC of section 2.2. */
  method ComputeTag(e: Cipher, nonce: Nonce, m: seq<bv8>, a: seq<bv8>, micLen: nat, x: array<bv8>)
    requires |m| < 0x1_0000 && |a| <= MAX_A_LEN && MicLenValid(micLen) && x.Length == 16
    modifies x
    ensures x[..] == Tag(e, nonce, m, a, micLen)
  {
    SetIv(x, AuthFlags(|a| > 0, micLen), nonce, |m|);
    Encrypt(e, x);
    ghost var x1 := x[..];
    if |a| > 0 {
      AbsorbAuth(e, x, a);
    }
    AbsorbMessage(e, x, m);
    CbcConcat(e, x1, Pad(Counted(a)), Pad(m));
  }

  /** The message, if there is one. */
  method AbsorbMessage(e: Cipher, x: array<bv8>, m: seq<bv8>)
    requires x.Length == 16
    modifies x
    ensures x[..] == CbcMac(e, old(x[..]), Pad(m))
  {
    assert m[0..] == m;
    if |m| > 0 {
      Absorb(e, x, m, 0);
    }
  }

  /** The tag, masked with S_0. */
  method MaskTag(e: Cipher, nonce: Nonce, x: array<bv8>)
    requires x.Length == 16
    modifies x
    ensures x[..] == Xor(old(x[..]), KeyBlock(e, nonce, 0))
  {
    CtrStep(e, nonce, 0, x, 16, 0);
  }

  /** The memcpy of the MIC. */
  method CopyOut(x: array<bv8>, result: array<bv8>, to: nat, n: nat)
    requires n <= x.Length && to + n <= result.Length && x != result
    modifies result
    ensures result[to..to + n] == x[..n] && OnlyWithin(old(result[..]), result[..], to, to + n)
  {
    for i := 0 to n
      invariant result[to..to + i] == x[..i]
      invariant OnlyWithin(old(result[..]), result[..], to, to + i)
    {
      result[to + i] := x[i];
    }
  }

  /** The additional data: the first block starts with its length. */
  method AbsorbAuth(e: Cipher, x: array<bv8>, a: seq<bv8>)
    requires x.Length == 16 && 0 < |a| <= MAX_A_LEN
    modifies x
    ensures x[..] == CbcMac(e, old(x[..]), Pad(Counted(a)))
  {
    ghost var x0, first := x[..], [High(|a|), Low(|a|)] + Chunk(a, 0)[..14];
    CountedBlocks(a);
    CbcFirst(e, x0, first, Rest(a, 14));
    XorLength(x, High(|a|), Low(|a|));
    ghost var x1 := x[..];
    XorInto(x, a, 0, 2);
    FirstMixed(x0, x1, x[..], a, High(|a|), Low(|a|));
    Encrypt(e, x);
    Absorb(e, x, a, 14);
  }

  method XorLength(x: array<bv8>, hi: bv8, lo: bv8)
    requires x.Length == 16
    modifies x
    ensures x[0] == old(x[0]) ^ hi && x[1] == old(x[1]) ^ lo && forall k | 2 <= k < 16 :: x[k] == old(x[k])
  {
    x[0] := x[0] ^ hi;
    x[1] := x[1] ^ lo;
  }

  lemma CountedBlocks(a: seq<bv8>)
    requires 0 < |a| <= MAX_A_LEN
    ensures Pad(Counted(a)) == [High(|a|), Low(|a|)] + Chunk(a, 0)[..14] + Rest(a, 14)
  {
    LengthAhead(a, High(|a|), Low(|a|));
  }

  lemma LengthAhead(a: seq<bv8>, hi: bv8, lo: bv8)
    requires a != []
    ensures Pad([hi, lo] + a) == [hi, lo] + Chunk(a, 0)[..14] + Rest(a, 14)
  {
    var d := [hi, lo] + a;
    if |a| >= 14 {
      assert d == ([hi, lo] + a[..14]) + a[14..];
      assert Chunk(a, 0)[..14] == a[..14];
      PadAfterBlock([hi, lo] + a[..14], a[14..]);
    } else {
      assert Rest(a, 14) == [];
      assert Pad(d) == [hi, lo] + Chunk(a, 0)[..14];
    }
  }

  lemma CbcFirst(e: Cipher, x: Block, first: seq<bv8>, rest: seq<bv8>)
    requires |first| == 16 && |rest| % 16 == 0
    ensures CbcMac(e, x, first + rest) == CbcMac(e, e(Xor(x, first)), rest)
  {
    assert (first + rest)[..16] == first && (first + rest)[16..] == rest;
  }

  lemma FirstMixed(x0: Block, x1: Block, x2: Block, a: seq<bv8>, hi: bv8, lo: bv8)
    requires x1[0] == x0[0] ^ hi && x1[1] == x0[1] ^ lo && forall k | 2 <= k < 16 :: x1[k] == x0[k]
    requires Mixed(x1, x2, a, 0, 2)
    ensures x2 == Xor(x0, [hi, lo] + Chunk(a, 0)[..14])
  {
    var b: Block := [hi, lo] + Chunk(a, 0)[..14];
    forall k | 0 <= k < 16
      ensures x2[k] == x0[k] ^ b[k]
    {
      if k == 0 {
        assert b[0] == hi && x2[0] == x1[0];
      } else if k == 1 {
        assert b[1] == lo && x2[1] == x1[1];
      } else {
        assert b[k] == Chunk(a, 0)[k - 2];
        MixedAt(x0, x1, x2, a, k, b[k]);
      }
    }
    IsXor(x0, b, x2);
  }

  lemma IsXor(x: Block, y: Block, z: Block)
    requires forall k | 0 <= k < 16 :: z[k] == x[k] ^ y[k]
    ensures z == Xor(x, y)
  {
  }

  lemma MixedAt(x0: Block, x1: Block, x2: Block, a: seq<bv8>, k: nat, b: bv8)
    requires Mixed(x1, x2, a, 0, 2) && 2 <= k < 16 && x1[k] == x0[k]
    requires b == if k - 2 < |a| then a[k - 2] else 0
    ensures x2[k] == x0[k] ^ b
  {
    XorZero(x0[k]);
  }

  /** Between two states of an array, only the bytes from lo up to hi have changed. */
  ghost predicate OnlyWithin(was: seq<bv8>, now: seq<bv8>, lo: nat, hi: nat) {
    |was| == |now| && forall k | 0 <= k < |was| && !(lo <= k < hi) :: now[k] == was[k]
  }

  lemma OnlyWithinPart(was: seq<bv8>, now: seq<bv8>, n: nat, lo: nat, hi: nat)
    requires OnlyWithin(was, now, 0, n) && n <= lo <= hi <= |was|
    ensures was[lo..hi] == now[lo..hi]
  {
  }

  /** ctr. */
  method EncryptMessage(e: Cipher, nonce: Nonce, m: array<bv8>, mLen: nat)
    requires mLen <= m.Length && mLen < 0x1_0000
    modifies m
    ensures m[..mLen] == Ctr(e, nonce, old(m[..mLen])) && OnlyWithin(old(m[..]), m[..], 0, mLen)
  {
    var pos, counter := 0, 1;
    while pos < mLen
      invariant pos == 16 * (counter - 1) && pos < mLen + 16
      invariant forall k | 0 <= k < m.Length ::
                  m[k] == if k < pos && k < mLen then Ctr(e, nonce, old(m[..mLen]))[k] else old(m[k])
    {
      CtrStep(e, nonce, pos, m, mLen, counter);
      counter := counter + 1;
      pos := pos + 16;
    }
  }

  /** aead: the argument check comes first, and a call that fails it changes nothing. The MIC goes to index `to` of
      result, which may be the buffer of the message if it lies behind that. */
  method Aead(e: Cipher, nonce: Nonce, m: array<bv8>, mLen: nat, a: seq<bv8>, result: array<bv8>, to: nat, micLen: nat,
              forward: bool)
    requires mLen <= m.Length && mLen < 0x1_0000 && |a| < 0x1_0000
    requires to + micLen <= result.Length && (m == result ==> mLen <= to)
    modifies m, result
    ensures |a| > MAX_A_LEN || !MicLenValid(micLen) ==> m[..] == old(m[..]) && result[..] == old(result[..])
    ensures |a| <= MAX_A_LEN && MicLenValid(micLen) ==>
              && m[..mLen] == Ctr(e, nonce, old(m[..mLen]))
              && result[to..to + micLen] == Mic(e, nonce, if forward then old(m[..mLen]) else m[..mLen], a, micLen)
    ensures |a| <= MAX_A_LEN && MicLenValid(micLen) ==>
              && Masked(e, nonce, old(m[..mLen]), m[..mLen])
              && Authenticates(e, nonce, if forward then old(m[..mLen]) else m[..mLen], a, micLen,
                               result[to..to + micLen])
    ensures OnlyThere(old(m[..]), m[..], mLen, m == result, to, to + micLen)
    ensures m != result ==> OnlyWithin(old(result[..]), result[..], to, to + micLen)
  {
    if |a| > MAX_A_LEN || !MicLenValid(micLen) {
      return;
    }
    ghost var m0 := m[..];
    if !forward {
      EncryptMessage(e, nonce, m, mLen);
    }
    ghost var m1 := m[..];
    WriteMic(e, nonce, m, mLen, a, result, to, micLen);
    ghost var m2, r2 := m[..], result[..];
    if forward {
      EncryptMessage(e, nonce, m, mLen);
      if m == result {
        OnlyWithinPart(r2, result[..], mLen, to, to + micLen);
      }
    }
    OnlyThereTrans(m0, m1, m2, m[..], mLen, m == result, to, to + micLen);
    CtrExact(e, nonce, m0[..mLen], m[..mLen]);
    MicExact(e, nonce, if forward then m0[..mLen] else m[..mLen], a, micLen, result[to..to + micLen]);
  }

  /** Between two states of a buffer, only its first n bytes have changed, and those from lo up to hi if `also`. */
  ghost predicate OnlyThere(was: seq<bv8>, now: seq<bv8>, n: nat, also: bool, lo: nat, hi: nat) {
    |was| == |now| && forall k | n <= k < |was| && !(also && lo <= k < hi) :: now[k] == was[k]
  }

  lemma OnlyThereTrans(s: seq<bv8>, t: seq<bv8>, u: seq<bv8>, v: seq<bv8>, n: nat, also: bool, lo: nat, hi: nat)
    requires OnlyWithin(s, t, 0, n) && OnlyWithin(u, v, 0, n) && if also then OnlyWithin(t, u, lo, hi) else t == u
    ensures OnlyThere(s, v, n, also, lo, hi)
  {
    forall k | n <= k < |s| && !(also && lo <= k < hi)
      ensures v[k] == s[k]
    {
      assert t[k] == s[k] && u[k] == t[k] && v[k] == u[k];
    }
  }

  /** The call of mic in aead. */
  method WriteMic(e: Cipher, nonce: Nonce, m: array<bv8>, mLen: nat, a: seq<bv8>, result: array<bv8>, to: nat,
                  micLen: nat)
    requires mLen <= m.Length && mLen < 0x1_0000 && |a| <= MAX_A_LEN && MicLenValid(micLen)
    requires to + micLen <= result.Length && (m == result ==> mLen <= to)
    modifies result
    ensures m[..mLen] == old(m[..mLen]) && result[to..to + micLen] == Mic(e, nonce, m[..mLen], a, micLen)
    ensures OnlyWithin(old(result[..]), result[..], to, to + micLen)
  {
    ghost var m0 := m[..];
    ComputeMic(e, nonce, m[..mLen], a, result, to, micLen);
    if m == result {
      PrefixKept(m0, m[..], to, to + micLen, mLen);
    }
  }

  lemma PrefixKept(s: seq<bv8>, t: seq<bv8>, lo: nat, hi: nat, n: nat)
    requires OnlyWithin(s, t, lo, hi) && n <= lo && n <= |s|
    ensures s[..n] == t[..n]
  {
  }

  /** Forward, then backward over what came out: the message is back and both MICs agree. The MIC may be kept in the
      buffer of the message, behind it. */
  method SealAndOpen(e: Cipher, nonce: Nonce, m: array<bv8>, mLen: nat, a: seq<bv8>, sent: array<bv8>, to: nat,
                     check: array<bv8>, micLen: nat)
    requires mLen <= m.Length && mLen < 0x1_0000 && |a| <= MAX_A_LEN && MicLenValid(micLen)
    requires to + micLen <= sent.Length && micLen <= check.Length && m != check && sent != check
    requires m == sent ==> mLen <= to
    modifies m, sent, check
    ensures m[..mLen] == old(m[..mLen])
    ensures sent[to..to + micLen] == check[..micLen] == Mic(e, nonce, old(m[..mLen]), a, micLen)
    ensures OnlyThere(old(m[..]), m[..], mLen, m == sent, to, to + micLen)
  {
    ghost var was := m[..];
    CtrInvolution(e, nonce, was[..mLen]);
    Aead(e, nonce, m, mLen, a, sent, to, micLen, true);
    ghost var sealed := m[..];
    Open(e, nonce, m, mLen, a, check, micLen);
    if m == sent {
      OnlyWithinPart(sealed, m[..], mLen, to, to + micLen);
    }
  }

  /** Backward, with the MIC in a buffer of its own. */
  method Open(e: Cipher, nonce: Nonce, m: array<bv8>, mLen: nat, a: seq<bv8>, check: array<bv8>, micLen: nat)
    requires mLen <= m.Length && mLen < 0x1_0000 && |a| <= MAX_A_LEN && MicLenValid(micLen)
    requires micLen <= check.Length && m != check
    modifies m, check
    ensures m[..mLen] == Ctr(e, nonce, old(m[..mLen])) && OnlyWithin(old(m[..]), m[..], 0, mLen)
    ensures check[..micLen] == Mic(e, nonce, m[..mLen], a, micLen)
  {
    Aead(e, nonce, m, mLen, a, check, 0, micLen, false);
    assert check[0..0 + micLen] == check[..micLen];
  }
}
