/**
 The byte protocol of os/dev/slip.c as values: escaping, the receiver's state without its ring
 arithmetic, and what a stream of bytes and polls delivers. Framing follows RFC 1055.
 */
module SlipProtocol {

  const SLIP_END: bv8 := 0xC0
  const SLIP_ESC: bv8 := 0xDB
  const SLIP_ESC_END: bv8 := 0xDC
  const SLIP_ESC_ESC: bv8 := 0xDD

  type BufSize = n: nat | n >= 2 witness 2

  /** RX_BUFSIZE. */
  const RX_BUFSIZE: BufSize

  // ----- escaping -----

  function EscapeByte(c: bv8): seq<bv8> {
    if c == SLIP_END then [SLIP_ESC, SLIP_ESC_END]
    else if c == SLIP_ESC then [SLIP_ESC, SLIP_ESC_ESC]
    else [c]
  }

  function Escape(p: seq<bv8>): seq<bv8> {
    if p == [] then [] else EscapeByte(p[0]) + Escape(p[1..])
  }

  /** The codes of RFC 1055, octal 300, 333, 334 and 335 there. */
  lemma EscapeCodes(c: bv8)
    ensures EscapeByte(c) == if c == 192 then [219, 220] else if c == 219 then [219, 221] else [c]
  {
  }

  /** The inverse, for raw bytes in which each escape is followed by one of the two codes. */
  function Unescape(raw: seq<bv8>): seq<bv8> {
    if raw == [] then []
    else if raw[0] == SLIP_ESC && |raw| >= 2 then
      [if raw[1] == SLIP_ESC_END then SLIP_END else SLIP_ESC] + Unescape(raw[2..])
    else [raw[0]] + Unescape(raw[1..])
  }

  /** Raw bytes of a frame: no END, and each escape followed by one of the two codes;
      `open` says whether the last byte is an escape still waiting for its code. */
  predicate WellEscaped(raw: seq<bv8>, open: bool) {
    if raw == [] then !open
    else if raw[0] == SLIP_ESC then
      if |raw| == 1 then open
      else (raw[1] == SLIP_ESC_END || raw[1] == SLIP_ESC_ESC) && WellEscaped(raw[2..], open)
    else raw[0] != SLIP_END && WellEscaped(raw[1..], open)
  }

  lemma {:induction false} EscapeRoundTrip(p: seq<bv8>)
    ensures Unescape(Escape(p)) == p && WellEscaped(Escape(p), false) && SLIP_END !in Escape(p)
    ensures p != [] ==> Escape(p) != []
  {
    if p != [] {
      EscapeRoundTrip(p[1..]);
      var e, r := EscapeByte(p[0]), Escape(p[1..]);
      assert e + r == Escape(p);
      if |e| == 2 {
        assert (e + r)[2..] == r;
      } else {
        assert (e + r)[1..] == r;
      }
      assert p == [p[0]] + p[1..];
    }
  }

  lemma {:induction false} WellEscapedNoEnd(raw: seq<bv8>, open: bool)
    requires WellEscaped(raw, open)
    ensures SLIP_END !in raw
    ensures raw != [] ==> Unescape(raw) != []
    decreases |raw|
  {
    if raw != [] {
      if raw[0] == SLIP_ESC {
        if |raw| >= 2 {
          WellEscapedNoEnd(raw[2..], open);
          assert raw == [raw[0], raw[1]] + raw[2..];
        }
      } else {
        WellEscapedNoEnd(raw[1..], open);
        assert raw == [raw[0]] + raw[1..];
      }
    }
  }

  /** One more raw byte. */
  lemma {:induction false} WellEscapedSnoc(raw: seq<bv8>, open: bool, c: bv8)
    requires WellEscaped(raw, open)
    requires if open then c == SLIP_ESC_END || c == SLIP_ESC_ESC else c != SLIP_END
    ensures WellEscaped(raw + [c], !open && c == SLIP_ESC)
    decreases |raw|
  {
    var r := raw + [c];
    if raw == [] {
      assert r == [c] && r[1..] == [];
    } else if raw[0] == SLIP_ESC {
      if |raw| == 1 {
        assert r == [raw[0], c] && r[2..] == [];
      } else {
        assert r[2..] == raw[2..] + [c];
        WellEscapedSnoc(raw[2..], open, c);
      }
    } else {
      assert r[1..] == raw[1..] + [c];
      WellEscapedSnoc(raw[1..], open, c);
    }
  }

  // ----- what the poll handler makes of raw bytes -----

  /** outbuf and esc after one raw byte: a code that is neither of the two is dropped. */
  function DecodeByte(out: seq<bv8>, esc: bool, c: bv8): (seq<bv8>, bool) {
    if esc then
      (if c == SLIP_ESC_ESC then out + [SLIP_ESC] else if c == SLIP_ESC_END then out + [SLIP_END] else out, false)
    else if c == SLIP_ESC then (out, true)
    else (out + [c], false)
  }

  /** One decoding loop: it gives up, with nothing decoded, once more than blen bytes are out. */
  function Scan(raw: seq<bv8>, out: seq<bv8>, esc: bool, blen: nat): (seq<bv8>, bool) {
    if raw == [] then (out, esc)
    else if |out| > blen then ([], esc)
    else var (o, e) := DecodeByte(out, esc, raw[0]); Scan(raw[1..], o, e, blen)
  }

  /** The frame as decoded when the ring wraps after `cut` bytes of it: the second loop goes on where
      the first one stopped, whatever the reason. */
  function Delivered(raw: seq<bv8>, cut: nat, blen: nat): seq<bv8> {
    if |raw| < cut then Scan(raw, [], false, blen).0
    else var (o, e) := Scan(raw[..cut], [], false, blen); Scan(raw[cut..], o, e, blen).0
  }

  /** Within the size limit, decoding in two parts is decoding in one. */
  lemma {:induction false} ScanSplit(a: seq<bv8>, b: seq<bv8>, out: seq<bv8>, esc: bool, blen: nat)
    requires Within(a, out, esc, blen)
    ensures Scan(a + b, out, esc, blen) == var (o, e) := Scan(a, out, esc, blen); Scan(b, o, e, blen)
  {
    if a == [] {
      assert a + b == b;
    } else {
      var (o, e) := DecodeByte(out, esc, a[0]);
      assert (a + b)[0] == a[0] && (a + b)[1..] == a[1..] + b;
      ScanSplit(a[1..], b, o, e, blen);
    }
  }

  /** The size check of the loop never strikes. */
  predicate Within(raw: seq<bv8>, out: seq<bv8>, esc: bool, blen: nat) {
    raw == [] || (|out| <= blen && var (o, e) := DecodeByte(out, esc, raw[0]); Within(raw[1..], o, e, blen))
  }

  lemma {:induction false} ScanUnescapes(raw: seq<bv8>, out: seq<bv8>, blen: nat)
    requires WellEscaped(raw, false) && |out| + |Unescape(raw)| <= blen + 1
    ensures Within(raw, out, false, blen)
    ensures Scan(raw, out, false, blen) == (out + Unescape(raw), false)
    decreases |raw|
  {
    if raw == [] {
      assert out + [] == out;
    } else if raw[0] == SLIP_ESC {
      var x := if raw[1] == SLIP_ESC_END then SLIP_END else SLIP_ESC;
      assert raw[1..][1..] == raw[2..] && raw[1..][0] == raw[1];
      ScanUnescapes(raw[2..], out + [x], blen);
      assert out + [x] + Unescape(raw[2..]) == out + Unescape(raw);
    } else {
      ScanUnescapes(raw[1..], out + [raw[0]], blen);
      assert out + [raw[0]] + Unescape(raw[1..]) == out + Unescape(raw);
    }
  }

  lemma {:induction false} WithinPrefix(a: seq<bv8>, b: seq<bv8>, out: seq<bv8>, esc: bool, blen: nat)
    requires Within(a + b, out, esc, blen)
    ensures Within(a, out, esc, blen)
  {
    if a != [] {
      var (o, e) := DecodeByte(out, esc, a[0]);
      assert (a + b)[0] == a[0] && (a + b)[1..] == a[1..] + b;
      WithinPrefix(a[1..], b, o, e, blen);
    }
  }

  /** A frame whose payload fits is delivered whole, wherever the ring wraps. */
  lemma DeliveredWhole(raw: seq<bv8>, cut: nat, blen: nat)
    requires WellEscaped(raw, false) && |Unescape(raw)| <= blen + 1
    ensures Delivered(raw, cut, blen) == Unescape(raw)
  {
    ScanUnescapes(raw, [], blen);
    assert [] + Unescape(raw) == Unescape(raw);
    if |raw| >= cut {
      assert raw == raw[..cut] + raw[cut..];
      WithinPrefix(raw[..cut], raw[cut..], [], false, blen);
      ScanSplit(raw[..cut], raw[cut..], [], false, blen);
    }
  }

  /** The bytes that raw decodes to when no size is checked. */
  function Plain(raw: seq<bv8>, esc: bool): seq<bv8> {
    if raw == [] then []
    else var (o, e) := DecodeByte([], esc, raw[0]); o + Plain(raw[1..], e)
  }

  lemma {:induction false} PlainAppends(raw: seq<bv8>, tail: seq<bv8>)
    requires WellEscaped(raw, false)
    ensures Plain(raw + tail, false) == Unescape(raw) + Plain(tail, false)
    decreases |raw|
  {
    if raw == [] {
      assert raw + tail == tail;
    } else if raw[0] == SLIP_ESC {
      PlainAppends(raw[2..], tail);
      PlainPair(raw, tail);
      Prepended(if raw[1] == SLIP_ESC_END then SLIP_END else SLIP_ESC, Unescape(raw[2..]), Plain(tail, false));
    } else {
      PlainAppends(raw[1..], tail);
      PlainSingle(raw, tail);
      Prepended(raw[0], Unescape(raw[1..]), Plain(tail, false));
    }
  }

  lemma PlainPair(raw: seq<bv8>, tail: seq<bv8>)
    requires |raw| >= 2 && raw[0] == SLIP_ESC && (raw[1] == SLIP_ESC_END || raw[1] == SLIP_ESC_ESC)
    ensures Plain(raw + tail, false)
         == [if raw[1] == SLIP_ESC_END then SLIP_END else SLIP_ESC] + Plain(raw[2..] + tail, false)
  {
    var s := raw + tail;
    assert s[1..][0] == raw[1] && s[1..][1..] == raw[2..] + tail;
    assert Plain(s, false) == [] + Plain(s[1..], true);
  }

  lemma PlainSingle(raw: seq<bv8>, tail: seq<bv8>)
    requires raw != [] && raw[0] != SLIP_ESC
    ensures Plain(raw + tail, false) == [raw[0]] + Plain(raw[1..] + tail, false)
  {
    assert (raw + tail)[0] == raw[0] && (raw + tail)[1..] == raw[1..] + tail;
  }

  lemma Prepended(x: bv8, s: seq<bv8>, t: seq<bv8>)
    ensures [x] + (s + t) == ([x] + s) + t
  {
  }

  lemma PlainUnescapes(raw: seq<bv8>)
    requires WellEscaped(raw, false)
    ensures Plain(raw, false) == Unescape(raw)
  {
    PlainAppends(raw, []);
    assert raw + [] == raw && Unescape(raw) + [] == Unescape(raw);
  }

  lemma {:induction false} ScanPlain(raw: seq<bv8>, out: seq<bv8>, esc: bool, blen: nat)
    requires |out| + |Plain(raw, esc)| <= blen
    ensures Within(raw, out, esc, blen) && Scan(raw, out, esc, blen).0 == out + Plain(raw, esc)
  {
    if raw != [] {
      var (d, e) := DecodeByte([], esc, raw[0]);
      var (o, _) := DecodeByte(out, esc, raw[0]);
      assert o == out + d;
      ScanPlain(raw[1..], o, e, blen);
    }
  }

  /** Any bytes, ENDs among them, are delivered as they decode if that fits. */
  lemma DeliveredPlain(raw: seq<bv8>, cut: nat, blen: nat)
    requires |Plain(raw, false)| <= blen
    ensures Delivered(raw, cut, blen) == Plain(raw, false)
  {
    ScanPlain(raw, [], false, blen);
    if |raw| >= cut {
      assert raw == raw[..cut] + raw[cut..];
      WithinPrefix(raw[..cut], raw[cut..], [], false, blen);
      ScanSplit(raw[..cut], raw[cut..], [], false, blen);
    }
  }

  /** The loop never has more than one byte too many out. */
  lemma {:induction false} ScanShort(raw: seq<bv8>, out: seq<bv8>, esc: bool, blen: nat)
    requires |out| <= blen + 1
    ensures |Scan(raw, out, esc, blen).0| <= blen + 1
  {
    if raw != [] && |out| <= blen {
      var (o, e) := DecodeByte(out, esc, raw[0]);
      ScanShort(raw[1..], o, e, blen);
    }
  }

  /** The size check lets one byte too many through: the frames delivered whole are those whose payload is at most
      one byte longer than blen. */
  lemma DeliveredExact(raw: seq<bv8>, cut: nat, blen: nat)
    requires WellEscaped(raw, false)
    ensures Delivered(raw, cut, blen) == Unescape(raw) <==> |Unescape(raw)| <= blen + 1
  {
    if |Unescape(raw)| <= blen + 1 {
      DeliveredWhole(raw, cut, blen);
    } else if |raw| < cut {
      ScanShort(raw, [], false, blen);
    } else {
      var (o, e) := Scan(raw[..cut], [], false, blen);
      ScanShort(raw[..cut], [], false, blen);
      ScanShort(raw[cut..], o, e, blen);
    }
  }

  // ----- room in the output buffer -----

  /** Decoding never writes past cap bytes. */
  predicate Room(raw: seq<bv8>, out: seq<bv8>, esc: bool, blen: nat, cap: nat) {
    raw == [] || |out| > blen
    || (var (o, e) := DecodeByte(out, esc, raw[0]); |o| <= cap && Room(raw[1..], o, e, blen, cap))
  }

  /** The same for a frame that wraps after `cut` bytes. */
  predicate Roomy(raw: seq<bv8>, cut: nat, blen: nat, cap: nat) {
    if |raw| < cut then Room(raw, [], false, blen, cap)
    else Room(raw[..cut], [], false, blen, cap)
         && var (o, e) := Scan(raw[..cut], [], false, blen); Room(raw[cut..], o, e, blen, cap)
  }

  lemma {:induction false} RoomAbove(raw: seq<bv8>, out: seq<bv8>, esc: bool, blen: nat, cap: nat)
    requires blen < cap
    ensures Room(raw, out, esc, blen, cap)
  {
    if raw != [] && |out| <= blen {
      var (o, e) := DecodeByte(out, esc, raw[0]);
      RoomAbove(raw[1..], o, e, blen, cap);
    }
  }

  /** In a buffer of no more than blen bytes the size check comes too late to help. */
  lemma {:induction false} RoomIff(raw: seq<bv8>, out: seq<bv8>, esc: bool, blen: nat, cap: nat)
    requires |out| <= cap <= blen
    ensures Room(raw, out, esc, blen, cap) <==> |out| + |Plain(raw, esc)| <= cap
  {
    if raw != [] {
      var (o, e) := DecodeByte(out, esc, raw[0]);
      assert |o| == |out| + |DecodeByte([], esc, raw[0]).0|;
      if |o| <= cap {
        RoomIff(raw[1..], o, e, blen, cap);
      }
    }
  }

  lemma {:induction false} RoomConcat(a: seq<bv8>, b: seq<bv8>, out: seq<bv8>, esc: bool, blen: nat, cap: nat)
    requires |out| <= cap <= blen
    ensures Room(a + b, out, esc, blen, cap)
       <==> Room(a, out, esc, blen, cap) && var (o, e) := Scan(a, out, esc, blen); Room(b, o, e, blen, cap)
  {
    if a == [] {
      assert a + b == b;
    } else {
      var (o, e) := DecodeByte(out, esc, a[0]);
      assert (a + b)[0] == a[0] && (a + b)[1..] == a[1..] + b;
      if |o| <= cap {
        RoomConcat(a[1..], b, o, e, blen, cap);
      }
    }
  }

  /** Decoding stays within cap bytes exactly if there are more than blen of them or the payload fits in. So with
      just the blen bytes that the caller names, a longer payload is written past the end. */
  lemma RoomyExact(raw: seq<bv8>, cut: nat, blen: nat, cap: nat)
    ensures Roomy(raw, cut, blen, cap) <==> blen < cap || |Plain(raw, false)| <= cap
    ensures WellEscaped(raw, false) ==> (Roomy(raw, cut, blen, blen) <==> |Unescape(raw)| <= blen)
  {
    RoomyIff(raw, cut, blen, cap);
    if WellEscaped(raw, false) {
      RoomyIff(raw, cut, blen, blen);
      PlainUnescapes(raw);
    }
  }

  lemma RoomyIff(raw: seq<bv8>, cut: nat, blen: nat, cap: nat)
    ensures Roomy(raw, cut, blen, cap) <==> blen < cap || |Plain(raw, false)| <= cap
  {
    if blen < cap {
      RoomAbove(raw, [], false, blen, cap);
      if |raw| >= cut {
        var (o, e) := Scan(raw[..cut], [], false, blen);
        RoomAbove(raw[..cut], [], false, blen, cap);
        RoomAbove(raw[cut..], o, e, blen, cap);
      }
    } else {
      RoomIff(raw, [], false, blen, cap);
      if |raw| >= cut {
        assert raw == raw[..cut] + raw[cut..];
        RoomConcat(raw[..cut], raw[cut..], [], false, blen, cap);
      }
    }
  }
}
