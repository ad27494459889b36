/**
 The SLIP driver of os/dev/slip.c over its cyclic buffer: slip_write, slip_input_byte and
 slip_poll_handler, each call atomic.
 */
module Slip {
  import opened SlipProtocol
  import opened SlipStream

  // ----- the ring -----

  function Wrap(i: nat): nat {
    if i == RX_BUFSIZE then 0 else i
  }

  /** How many bytes lie between two indices, going round. */
  function Dist(lo: nat, hi: nat): nat
    requires lo < RX_BUFSIZE && hi < RX_BUFSIZE
  {
    if lo <= hi then hi - lo else RX_BUFSIZE - lo + hi
  }

  /** The bytes of ring s from lo up to hi, going round. */
  ghost function Cyclic(s: seq<bv8>, lo: nat, hi: nat): (r: seq<bv8>)
    requires |s| == RX_BUFSIZE && lo < RX_BUFSIZE && hi < RX_BUFSIZE
    ensures |r| == Dist(lo, hi)
  {
    if lo <= hi then s[lo..hi] else s[lo..] + s[..hi]
  }

  lemma CyclicPush(s: seq<bv8>, lo: nat, hi: nat, c: bv8)
    requires |s| == RX_BUFSIZE && lo < RX_BUFSIZE && hi < RX_BUFSIZE && Wrap(hi + 1) != lo
    ensures Cyclic(s[hi := c], lo, Wrap(hi + 1)) == Cyclic(s, lo, hi) + [c]
    ensures Dist(lo, hi) + 1 < RX_BUFSIZE && Dist(lo, Wrap(hi + 1)) == Dist(lo, hi) + 1
  {
  }

  lemma CyclicSplit(s: seq<bv8>, lo: nat, mid: nat, hi: nat)
    requires |s| == RX_BUFSIZE && lo < RX_BUFSIZE && mid < RX_BUFSIZE && hi < RX_BUFSIZE
    requires Dist(lo, mid) <= Dist(lo, hi)
    ensures Cyclic(s, lo, hi)[..Dist(lo, mid)] == Cyclic(s, lo, mid)
    ensures Cyclic(s, lo, hi)[Dist(lo, mid)..] == Cyclic(s, mid, hi)
    ensures Dist(mid, hi) == Dist(lo, hi) - Dist(lo, mid)
  {
  }

  /** The first byte and the rest. */
  lemma CyclicPop(s: seq<bv8>, lo: nat, hi: nat)
    requires |s| == RX_BUFSIZE && lo < RX_BUFSIZE && hi < RX_BUFSIZE && lo != hi
    ensures Cyclic(s, lo, hi) == [s[lo]] + Cyclic(s, Wrap(lo + 1), hi)
    ensures Dist(lo, hi) == 1 + Dist(Wrap(lo + 1), hi)
  {
  }

  class SlipDriver {
    var state: RxState
    var begin: nat
    var next_free: nat
    var pkt_end: nat
    const rxbuf: array<bv8>
    /** Set by process_poll, cleared when the process is dispatched. */
    var pollRequested: bool

    ghost predicate Valid()
      reads this
    {
      && rxbuf.Length == RX_BUFSIZE
      && begin < RX_BUFSIZE && next_free < RX_BUFSIZE && pkt_end < RX_BUFSIZE
      && Dist(begin, pkt_end) <= Dist(begin, next_free)
      && (begin != pkt_end ==> pollRequested)
    }

    ghost function View(): (rx: Rx)
      reads this, rxbuf
      requires Valid()
      ensures rx.pkt <= |rx.buf| < RX_BUFSIZE
    {
      Rx(Cyclic(rxbuf[..], begin, next_free), Dist(begin, pkt_end), state)
    }

    constructor ()
      ensures Valid() && View() == Rx([], 0, TwoPackets)
      ensures fresh(rxbuf)
    {
      state := TwoPackets;
      begin, next_free, pkt_end := 0, 0, 0;
      pollRequested := false;
      rxbuf := new bv8[RX_BUFSIZE];
    }

    /** rxbuf_init. */
    method RxbufInit()
      requires Valid()
      modifies this
      ensures Valid() && View() == RX_INIT
    {
      begin, next_free, pkt_end := 0, 0, 0;
      state := Ok;
    }

    /** slip_input_byte. */
    method InputByte(c: bv8) returns (r: int)
      requires Valid()
      modifies this, rxbuf
      ensures Valid() && View() == InputSpec(old(View()), c)
      ensures begin == old(begin)
      ensures r == if c == SLIP_END && |View().buf| > |old(View()).buf| then 1 else 0
    {
      var go := Unescaping(c);
      r := 0;
      if go {
        r := AddChar(c);
      }
    }

    /** The switch of slip_input_byte and the test for an escape; `go` unless the byte is dropped. */
    method Unescaping(c: bv8) returns (go: bool)
      requires Valid()
      modifies `state, `next_free
      ensures Valid()
      ensures go ==> View().pkt == old(View()).pkt && InputSpec(old(View()), c) == Store(View(), c)
                     && View().buf == old(View()).buf
      ensures !go ==> View() == InputSpec(old(View()), c) && |View().buf| <= |old(View()).buf|
    {
      match state {
        case Rubbish =>
          if c == SLIP_END {
            state := Ok;
          }
          return false;
        case Esc =>
          if c != SLIP_ESC_END && c != SLIP_ESC_ESC {
            CyclicSplit(rxbuf[..], begin, pkt_end, next_free);
            state := Rubbish;
            next_free := pkt_end;
            return false;
          }
          state := Ok;
        case _ =>
      }
      if c == SLIP_ESC {
        state := Esc;
      }
      return true;
    }

    /** The part of slip_input_byte from the label add_char on. */
    method AddChar(c: bv8) returns (r: int)
      requires Valid()
      modifies this, rxbuf
      ensures Valid() && View() == Store(old(View()), c)
      ensures begin == old(begin)
      ensures r == if c == SLIP_END && |View().buf| > |old(View()).buf| then 1 else 0
    {
      CyclicSplit(rxbuf[..], begin, pkt_end, next_free);
      var cur_end := next_free;
      next_free := next_free + 1;
      if next_free == RX_BUFSIZE {
        next_free := 0;
      }
      if next_free == begin {
        state := Rubbish;
        next_free := pkt_end;
        return 0;
      }
      r := StoreChar(c, cur_end, old(View()));
    }

    /** The rest of slip_input_byte for a byte that fits behind the ring contents of rx. */
    method StoreChar(c: bv8, cur_end: nat, ghost rx: Rx) returns (r: int)
      requires rxbuf.Length == RX_BUFSIZE && begin < RX_BUFSIZE && pkt_end < RX_BUFSIZE && cur_end < RX_BUFSIZE
      requires next_free == Wrap(cur_end + 1) != begin && (begin != pkt_end ==> pollRequested)
      requires rx == Rx(Cyclic(rxbuf[..], begin, cur_end), Dist(begin, pkt_end), state) && rx.pkt <= |rx.buf|
      modifies `pkt_end, `pollRequested, `next_free, rxbuf
      ensures Valid() && View() == Store(rx, c)
      ensures r == if c == SLIP_END && |View().buf| > |rx.buf| then 1 else 0
    {
      ghost var s := rxbuf[..];
      r := 0;
      rxbuf[cur_end] := c;
      CyclicPush(s, begin, cur_end, c);
      assert rxbuf[..] == s[cur_end := c];
      if c == SLIP_END {
        SameBytes(s, begin, cur_end, c);
        r := EndStored(cur_end);
      }
    }

    /** What an END brings about that has just been stored at cur_end. */
    method EndStored(cur_end: nat) returns (r: int)
      requires Valid() && cur_end < RX_BUFSIZE && Dist(begin, pkt_end) <= Dist(begin, cur_end)
      requires Dist(begin, next_free) == Dist(begin, cur_end) + 1
      modifies `pkt_end, `pollRequested, `next_free
      ensures Valid() && r == if cur_end != old(pkt_end) then 1 else 0
      ensures next_free == if cur_end != old(pkt_end) then old(next_free) else cur_end
      ensures pkt_end == if begin == old(pkt_end) then cur_end else old(pkt_end)
    {
      if cur_end != pkt_end {
        if begin == pkt_end {
          pkt_end := cur_end;
        }
        pollRequested := true;
        r := 1;
      } else {
        next_free := cur_end;
        r := 0;
      }
    }

    lemma SameBytes(s: seq<bv8>, lo: nat, hi: nat, c: bv8)
      requires |s| == RX_BUFSIZE && lo < RX_BUFSIZE && hi < RX_BUFSIZE
      ensures Cyclic(s[hi := c], lo, hi) == Cyclic(s, lo, hi)
    {
    }

    /** One of the decoding loops of slip_poll_handler, over rxbuf[lo..hi]. */
    method DecodeLoop(outbuf: array<bv8>, blen: nat, lo: nat, hi: nat, len0: nat, esc0: bool)
      returns (len: nat, esc: bool)
      requires outbuf != rxbuf && lo <= hi <= rxbuf.Length && len0 <= outbuf.Length
      requires Room(rxbuf[lo..hi], outbuf[..len0], esc0, blen, outbuf.Length)
      modifies outbuf
      ensures len <= outbuf.Length
      ensures (outbuf[..len], esc) == Scan(rxbuf[lo..hi], old(outbuf[..len0]), esc0, blen)
    {
      len, esc := len0, esc0;
      ghost var goal := Scan(rxbuf[lo..hi], outbuf[..len0], esc0, blen);
      for i := lo to hi
        invariant len <= outbuf.Length && Room(rxbuf[i..hi], outbuf[..len], esc, blen, outbuf.Length)
        invariant Scan(rxbuf[i..hi], outbuf[..len], esc, blen) == goal
      {
        assert rxbuf[i..hi][0] == rxbuf[i] && rxbuf[i..hi][1..] == rxbuf[i + 1..hi];
        if len > blen {
          len := 0;
          break;
        }
        ghost var before := outbuf[..len];
        if esc {
          if rxbuf[i] == SLIP_ESC_ESC {
            outbuf[len] := SLIP_ESC;
            len := len + 1;
            assert outbuf[..len] == before + [SLIP_ESC];
          } else if rxbuf[i] == SLIP_ESC_END {
            outbuf[len] := SLIP_END;
            len := len + 1;
            assert outbuf[..len] == before + [SLIP_END];
          }
          esc := false;
        } else if rxbuf[i] == SLIP_ESC {
          esc := true;
        } else {
          outbuf[len] := rxbuf[i];
          len := len + 1;
          assert outbuf[..len] == before + [rxbuf[i]];
        }
      }
    }

    /** The two ways slip_poll_handler decodes the frame between begin and pkt_end. */
    method DecodeFrame(outbuf: array<bv8>, blen: nat) returns (len: nat)
      requires rxbuf.Length == RX_BUFSIZE && begin < RX_BUFSIZE && pkt_end < RX_BUFSIZE
      requires begin != pkt_end && outbuf != rxbuf
      requires Roomy(Cyclic(rxbuf[..], begin, pkt_end), RX_BUFSIZE - begin, blen, outbuf.Length)
      modifies outbuf
      ensures len <= outbuf.Length
      ensures outbuf[..len] == Delivered(Cyclic(rxbuf[..], begin, pkt_end), RX_BUFSIZE - begin, blen)
    {
      var esc;
      ghost var raw := Cyclic(rxbuf[..], begin, pkt_end);
      assert outbuf[..0] == [];
      if begin < pkt_end {
        assert rxbuf[begin..pkt_end] == raw;
        len, esc := DecodeLoop(outbuf, blen, begin, pkt_end, 0, false);
      } else {
        assert rxbuf[begin..RX_BUFSIZE] == raw[..RX_BUFSIZE - begin];
        assert rxbuf[0..pkt_end] == raw[RX_BUFSIZE - begin..];
        len, esc := DecodeLoop(outbuf, blen, begin, RX_BUFSIZE, 0, false);
        len, esc := DecodeLoop(outbuf, blen, 0, pkt_end, len, esc);
      }
    }

    /** The search for the END of the next frame; `to` when there is none. */
    method FindEnd(from: nat, to: nat) returns (ptr: nat)
      requires rxbuf.Length == RX_BUFSIZE && from < RX_BUFSIZE && to < RX_BUFSIZE
      ensures ptr < RX_BUFSIZE
      ensures Dist(from, ptr) == FirstEnd(Cyclic(rxbuf[..], from, to)) <= Dist(from, to)
    {
      ptr := from;
      ghost var s := rxbuf[..];
      while ptr != to
        invariant ptr < RX_BUFSIZE && Dist(from, ptr) <= Dist(from, to)
        invariant Dist(ptr, to) == Dist(from, to) - Dist(from, ptr)
        invariant FirstEnd(Cyclic(s, from, to)) == Dist(from, ptr) + FirstEnd(Cyclic(s, ptr, to))
        decreases Dist(ptr, to)
      {
        CyclicPop(s, ptr, to);
        assert Cyclic(s, ptr, to)[1..] == Cyclic(s, Wrap(ptr + 1), to);
        if rxbuf[ptr] == SLIP_END {
          break;
        }
        ptr := ptr + 1;
        if ptr == RX_BUFSIZE {
          ptr := 0;
        }
      }
    }

    /** slip_poll_handler. With a complete frame in the ring it is decoded into outbuf and removed, and the
        process asks to be polled again if another one follows. The buffer must have room for what is decoded. */
    method PollHandler(outbuf: array<bv8>, blen: nat) returns (len: nat)
      requires Valid() && outbuf != rxbuf
      requires View().pkt > 0 ==> Roomy(View().buf[..View().pkt], RX_BUFSIZE - begin, blen, outbuf.Length)
      modifies this, outbuf
      ensures Valid() && len <= outbuf.Length
      ensures old(View()).pkt == 0 ==> len == 0 && View() == old(View())
      ensures HasFrame(old(View())) ==> View() == PollSpec(old(View()))
      ensures old(View()).pkt > 0 && !HasFrame(old(View())) ==> Overran(old(View()), View())
      ensures old(View()).pkt > 0 ==>
                outbuf[..len] == Delivered(old(View()).buf[..old(View()).pkt], RX_BUFSIZE - old(begin), blen)
    {
      pollRequested := false;
      if begin == pkt_end {
        return 0;
      }
      ghost var s, b, e, rx := rxbuf[..], begin, pkt_end, old(View());
      CyclicSplit(s, b, e, next_free);
      assert rx.buf[..rx.pkt] == Cyclic(s, b, e);
      len := TakeFrame(outbuf, blen, Cyclic(s, b, e), Wrap(e + 1), Cyclic(s, Wrap(e + 1), next_free));
      assert outbuf[..len] == Delivered(rx.buf[..rx.pkt], RX_BUFSIZE - b, blen);
      FrameLeaves(s, b, e, next_free, state, rx, begin, pkt_end);
    }

    /** The branch of slip_poll_handler for a buffered frame. */
    method TakeFrame(outbuf: array<bv8>, blen: nat, ghost raw: seq<bv8>, ghost e: nat, ghost rest: seq<bv8>)
      returns (len: nat)
      requires rxbuf.Length == RX_BUFSIZE && begin < RX_BUFSIZE && next_free < RX_BUFSIZE && pkt_end < RX_BUFSIZE
      requires begin != pkt_end && outbuf != rxbuf && raw == Cyclic(rxbuf[..], begin, pkt_end)
      requires e == Wrap(pkt_end + 1) && rest == Cyclic(rxbuf[..], e, next_free)
      requires Roomy(raw, RX_BUFSIZE - begin, blen, outbuf.Length)
      modifies `begin, `pkt_end, `pollRequested, outbuf
      ensures len <= outbuf.Length && outbuf[..len] == Delivered(raw, RX_BUFSIZE - old(begin), blen)
      ensures begin == e && pkt_end < RX_BUFSIZE
      ensures Dist(begin, pkt_end) == if FirstEnd(rest) < |rest| then FirstEnd(rest) else 0
      ensures begin != pkt_end ==> pollRequested
    {
      len := DecodeFrame(outbuf, blen);
      RemoveFrame(e, rest);
    }

    /** The end of slip_poll_handler: the frame leaves the ring and the next one is looked for. */
    method RemoveFrame(ghost e: nat, ghost rest: seq<bv8>)
      requires rxbuf.Length == RX_BUFSIZE && begin < RX_BUFSIZE && next_free < RX_BUFSIZE && pkt_end < RX_BUFSIZE
      requires e == Wrap(pkt_end + 1) && rest == Cyclic(rxbuf[..], e, next_free)
      modifies `begin, `pkt_end, `pollRequested
      ensures begin == e && pkt_end < RX_BUFSIZE
      ensures Dist(begin, pkt_end) == if FirstEnd(rest) < |rest| then FirstEnd(rest) else 0
      ensures begin != pkt_end ==> pollRequested
    {
      pkt_end := pkt_end + 1;
      if pkt_end == RX_BUFSIZE {
        pkt_end := 0;
      }
      if pkt_end != next_free {
        var cur_ptr := FindEnd(pkt_end, next_free);
        if cur_ptr != next_free {
          var tmp_begin := pkt_end;
          pkt_end := cur_ptr;
          begin := tmp_begin;
          pollRequested := true;
        }
        if cur_ptr == next_free {
          begin := pkt_end;
        }
      } else {
        begin := pkt_end;
      }
    }

    /** slip_process over any admissible run: what it hands on, followed by what is still buffered, is what the
        reference decoder makes of the bytes received. */
    method Serve(evs: seq<Event>, outbuf: array<bv8>, blen: nat) returns (out: seq<seq<bv8>>, ghost q: seq<seq<bv8>>,
                                                                      ghost cur: seq<bv8>, ghost open: bool)
      requires Valid() && View() == RX_INIT && outbuf != rxbuf && outbuf.Length >= blen
      requires AdmissibleRun(RX_INIT, evs, blen)
      modifies this, rxbuf, outbuf
      ensures RefRun(Ref([], []), Bytes(evs)) == Ref(out + Payloads(q), cur)
      ensures Valid() && Holds(View(), q, cur, open) && (q == [] <==> begin == pkt_end)
    {
      out, q, cur, open := [], [], [], false;
      assert Holds(RX_INIT, q, cur, open);
      for i := 0 to |evs|
        invariant Valid() && Holds(View(), q, cur, open) && AdmissibleRun(View(), evs[i..], blen)
        invariant RefRun(Ref(out + Payloads(q), cur), Bytes(evs[i..])) == RefRun(Ref([], []), Bytes(evs))
      {
        NextEvent(View(), evs, i, blen);
        out, q, cur, open := Dispatch(evs[i], outbuf, blen, out, q, cur, open, evs[i + 1..]);
      }
      assert evs[|evs|..] == [];
      HoldsShape(View(), q, cur, open);
    }

    /** One byte or one poll of slip_process. */
    method Dispatch(ev: Event, outbuf: array<bv8>, blen: nat, out0: seq<seq<bv8>>,
                    ghost q0: seq<seq<bv8>>, ghost cur0: seq<bv8>, ghost open0: bool, ghost rest: seq<Event>)
      returns (out: seq<seq<bv8>>, ghost q: seq<seq<bv8>>, ghost cur: seq<bv8>, ghost open: bool)
      requires Valid() && outbuf != rxbuf && outbuf.Length >= blen
      requires Holds(View(), q0, cur0, open0) && Admissible(View(), ev, blen)
      modifies this, rxbuf, outbuf
      ensures Valid() && View() == Step(old(View()), ev) && Holds(View(), q, cur, open)
      ensures RefRun(Ref(out + Payloads(q), cur), Bytes(rest))
           == RefRun(Ref(out0 + Payloads(q0), cur0), Bytes([ev] + rest))
    {
      out, q, cur, open := out0, q0, cur0, open0;
      BytesCons(ev, rest);
      match ev
      case Byte(c) =>
        q, cur, open := TakeByte(c, blen, out0, q0, cur0, open0, Bytes(rest));
      case Poll(cut) =>
        out, q := TakePoll(cut, outbuf, blen, out0, q0, cur0, open0);
    }

    /** A byte arrives. */
    method TakeByte(c: bv8, blen: nat, ghost out: seq<seq<bv8>>, ghost q0: seq<seq<bv8>>, ghost cur0: seq<bv8>,
                    ghost open0: bool, ghost rest: seq<bv8>)
      returns (ghost q: seq<seq<bv8>>, ghost cur: seq<bv8>, ghost open: bool)
      requires Valid() && Holds(View(), q0, cur0, open0) && Admissible(View(), Byte(c), blen)
      modifies this, rxbuf
      ensures Valid() && View() == Step(old(View()), Byte(c)) && Holds(View(), q, cur, open)
      ensures RefRun(Ref(out + Payloads(q), cur), rest) == RefRun(Ref(out + Payloads(q0), cur0), [c] + rest)
    {
      q, cur, open := ByteRound(View(), q0, cur0, open0, c, blen, out, rest);
      var _ := InputByte(c);
    }

    /** A poll comes. */
    method TakePoll(ghost cut: nat, outbuf: array<bv8>, blen: nat, out0: seq<seq<bv8>>, ghost q0: seq<seq<bv8>>,
                    ghost cur: seq<bv8>, ghost open: bool)
      returns (out: seq<seq<bv8>>, ghost q: seq<seq<bv8>>)
      requires Valid() && outbuf != rxbuf && outbuf.Length >= blen
      requires Holds(View(), q0, cur, open) && Admissible(View(), Poll(cut), blen)
      modifies this, outbuf
      ensures Valid() && View() == Step(old(View()), Poll(cut)) && Holds(View(), q, cur, open)
      ensures out + Payloads(q) == out0 + Payloads(q0)
    {
      ghost var rx, cut1 := View(), RX_BUFSIZE - begin;
      q := PollRound(rx, q0, cur, open, cut, cut1, blen, out0, outbuf.Length);
      out := Collect(outbuf, blen, out0);
      assert View() == Step(rx, Poll(cut1)) == Step(rx, Poll(cut));
    }

    /** One poll of slip_process: a length of zero is not handed on. */
    method Collect(outbuf: array<bv8>, blen: nat, out0: seq<seq<bv8>>) returns (out: seq<seq<bv8>>)
      requires Valid() && outbuf != rxbuf && (View().pkt == 0 || HasFrame(View()))
      requires View().pkt > 0 ==> Roomy(View().buf[..View().pkt], RX_BUFSIZE - begin, blen, outbuf.Length)
      modifies this, outbuf
      ensures Valid() && View() == Step(old(View()), Poll(RX_BUFSIZE - old(begin)))
      ensures out == out0 + Output(old(View()), Poll(RX_BUFSIZE - old(begin)), blen)
    {
      out := out0;
      var len := PollHandler(outbuf, blen);
      if len > 0 {
        out := out + [outbuf[..len]];
      }
      assert out0 + [] == out0;
    }
  }

  lemma NextEvent(rx: Rx, evs: seq<Event>, i: nat, blen: nat)
    requires i < |evs| && rx.pkt <= |rx.buf| && AdmissibleRun(rx, evs[i..], blen)
    ensures evs[i..] == [evs[i]] + evs[i + 1..]
    ensures Admissible(rx, evs[i], blen) && AdmissibleRun(Step(rx, evs[i]), evs[i + 1..], blen)
  {
    assert evs[i..][0] == evs[i] && evs[i..][1..] == evs[i + 1..];
  }

  lemma BytesCons(ev: Event, rest: seq<Event>)
    ensures Bytes([ev] + rest) == if ev.Byte? then [ev.c] + Bytes(rest) else Bytes(rest)
  {
    assert ([ev] + rest)[1..] == rest;
    assert [] + Bytes(rest) == Bytes(rest);
  }

  /** A byte goes to the ring and to the reference decoder. */
  lemma ByteRound(rx: Rx, q0: seq<seq<bv8>>, cur0: seq<bv8>, open0: bool, c: bv8, blen: nat,
                  out: seq<seq<bv8>>, rest: seq<bv8>) returns (q: seq<seq<bv8>>, cur: seq<bv8>, open: bool)
    requires Holds(rx, q0, cur0, open0) && rx.pkt <= |rx.buf| && Admissible(rx, Byte(c), blen)
    ensures Holds(InputSpec(rx, c), q, cur, open)
    ensures RefRun(Ref(out + Payloads(q), cur), rest) == RefRun(Ref(out + Payloads(q0), cur0), [c] + rest)
  {
    q, cur, open := ByteStep(rx, q0, cur0, open0, c, blen);
    RefRunByte(out, q0, cur0, c, q, rest);
  }

  /** A poll moves one payload from the ring to what was handed on, wherever the ring wraps. */
  lemma PollRound(rx: Rx, q0: seq<seq<bv8>>, cur: seq<bv8>, open: bool, cut: nat, cut1: nat, blen: nat,
                  out: seq<seq<bv8>>, cap: nat) returns (q: seq<seq<bv8>>)
    requires Holds(rx, q0, cur, open) && rx.pkt <= |rx.buf| && Admissible(rx, Poll(cut), blen) && blen <= cap
    ensures rx.pkt > 0 ==> Roomy(rx.buf[..rx.pkt], cut1, blen, cap)
    ensures Holds(Step(rx, Poll(cut1)), q, cur, open) && (rx.pkt == 0 || HasFrame(rx))
    ensures Step(rx, Poll(cut)) == Step(rx, Poll(cut1))
    ensures out + Output(rx, Poll(cut1), blen) + Payloads(q) == out + Payloads(q0)
  {
    var o;
    q, o := PollOutput(rx, q0, cur, open, Poll(cut1), blen);
    HoldsShape(rx, q0, cur, open);
    Regroup(out, o, Payloads(q), [], []);
    RoomyExact(rx.buf[..rx.pkt], cut1, blen, cap);
    if rx.pkt > 0 {
      PlainUnescapes(rx.buf[..rx.pkt]);
    }
  }

  /** PollSpec in terms of ring indices: the ring from e on, marked at the next END. */
  lemma FrameLeaves(s: seq<bv8>, lo: nat, mid: nat, hi: nat, st: RxState, rx: Rx, e: nat, pkt: nat)
    requires |s| == RX_BUFSIZE && lo < RX_BUFSIZE && mid < RX_BUFSIZE && hi < RX_BUFSIZE && pkt < RX_BUFSIZE
    requires rx == Rx(Cyclic(s, lo, hi), Dist(lo, mid), st) && e == Wrap(mid + 1)
    requires var rest := Cyclic(s, e, hi); Dist(e, pkt) == if FirstEnd(rest) < |rest| then FirstEnd(rest) else 0
    ensures HasFrame(rx) ==> Rx(Cyclic(s, e, hi), Dist(e, pkt), st) == PollSpec(rx)
    ensures !HasFrame(rx) && rx.pkt == |rx.buf| ==> Overran(rx, Rx(Cyclic(s, e, hi), Dist(e, pkt), st))
    ensures Dist(e, pkt) <= Dist(e, hi)
  {
    if mid == hi {
      FrameOverruns(s, lo, hi, e);
    }
    if HasFrame(rx) {
      FrameDropped(s, lo, mid, hi, e);
    }
  }

  lemma FrameDropped(s: seq<bv8>, lo: nat, mid: nat, hi: nat, e: nat)
    requires |s| == RX_BUFSIZE && lo < RX_BUFSIZE && mid < RX_BUFSIZE && hi < RX_BUFSIZE && e == Wrap(mid + 1)
    requires Dist(lo, mid) < Dist(lo, hi)
    ensures Cyclic(s, lo, hi)[Dist(lo, mid) + 1..] == Cyclic(s, e, hi)
  {
    CyclicSplit(s, lo, mid, hi);
    CyclicPop(s, mid, hi);
    DropOne(Cyclic(s, lo, hi), Dist(lo, mid), s[mid], Cyclic(s, e, hi));
  }

  /** What slip_poll_handler leaves when the END behind the frame is gone: `begin` steps over `next_free`, and the
      ring counts as full, with old bytes in front of the frame just decoded; the first END among them marks the
      next frame. */
  ghost predicate Overran(rx: Rx, r: Rx)
    requires rx.pkt <= |rx.buf| < RX_BUFSIZE
  {
    && |r.buf| == RX_BUFSIZE - 1 && r.buf[RX_BUFSIZE - 1 - |rx.buf|..] == rx.buf
    && r.pkt == (if FirstEnd(r.buf) < |r.buf| then FirstEnd(r.buf) else 0)
    && r.st == rx.st
  }

  lemma FrameOverruns(s: seq<bv8>, lo: nat, hi: nat, e: nat)
    requires |s| == RX_BUFSIZE && lo < RX_BUFSIZE && hi < RX_BUFSIZE && e == Wrap(hi + 1)
    ensures Dist(e, hi) == RX_BUFSIZE - 1
    ensures Cyclic(s, e, hi)[RX_BUFSIZE - 1 - Dist(lo, hi)..] == Cyclic(s, lo, hi)
  {
    assert Dist(e, lo) == RX_BUFSIZE - 1 - Dist(lo, hi);
    CyclicSplit(s, e, lo, hi);
  }

  lemma DropOne(s: seq<bv8>, i: nat, c: bv8, rest: seq<bv8>)
    requires i < |s| && s[i..] == [c] + rest
    ensures s[i + 1..] == rest
  {
    assert s[i + 1..] == s[i..][1..];
  }

  /** Bytes arrive, without a poll. */
  method Feed(driver: SlipDriver, s: seq<bv8>)
    requires driver.Valid()
    modifies driver, driver.rxbuf
    ensures driver.Valid() && driver.View() == RunBytes(old(driver.View()), s) && driver.begin == old(driver.begin)
  {
    assert s[0..] == s;
    for i := 0 to |s|
      invariant driver.Valid() && driver.begin == old(driver.begin)
      invariant RunBytes(driver.View(), s[i..]) == RunBytes(old(driver.View()), s)
    {
      assert s[i..][0] == s[i] && s[i..][1..] == s[i + 1..];
      var _ := driver.InputByte(s[i]);
    }
  }

  /** slip_process names blen = UIP_BUFSIZE bytes, 16 fewer than the ring has. A packet of one byte more still fits the
      ring: the poll handler writes all of it and hands it on, and a buffer of just blen bytes has no room for it. */
  method OneByteTooFar(driver: SlipDriver, p: seq<bv8>, outbuf: array<bv8>, blen: nat) returns (len: nat)
    requires driver.Valid() && driver.View() == RX_INIT && outbuf != driver.rxbuf && RX_BUFSIZE == blen + 16
    requires |p| == outbuf.Length == blen + 1 && |SlipWrite(p)| < RX_BUFSIZE
    modifies driver, driver.rxbuf, outbuf
    ensures len == blen + 1 && outbuf[..] == p
    ensures forall cut :: !Roomy(Escape(p), cut, blen, blen)
  {
    OnlyFrame(p, blen, RX_BUFSIZE - driver.begin);
    Feed(driver, SlipWrite(p));
    len := PollFor(driver, Escape(p), outbuf, blen);
    assert outbuf[..len] == outbuf[..];
    NoRoomFor(p, blen);
  }

  /** A poll of a ring whose marked frame is raw. */
  method PollFor(driver: SlipDriver, ghost raw: seq<bv8>, outbuf: array<bv8>, blen: nat) returns (len: nat)
    requires driver.Valid() && outbuf != driver.rxbuf
    requires driver.View().pkt > 0 && driver.View().buf[..driver.View().pkt] == raw
    requires Roomy(raw, RX_BUFSIZE - driver.begin, blen, outbuf.Length)
    modifies driver, outbuf
    ensures len <= outbuf.Length && outbuf[..len] == Delivered(raw, RX_BUFSIZE - old(driver.begin), blen)
  {
    len := driver.PollHandler(outbuf, blen);
  }

  lemma OnlyFrame(p: seq<bv8>, blen: nat, cut: nat)
    requires |p| == blen + 1 && |SlipWrite(p)| < RX_BUFSIZE
    ensures var rx := RunBytes(RX_INIT, SlipWrite(p));
            0 < rx.pkt < |rx.buf| && rx.buf[..rx.pkt] == Escape(p)
    ensures Roomy(Escape(p), cut, blen, blen + 1) && Delivered(Escape(p), cut, blen) == p
  {
    EscapeRoundTrip(p);
    WriteResult([], p);
    FrontOf(Escape(p), [], []);
    RoomyExact(Escape(p), cut, blen, blen + 1);
    DeliveredExact(Escape(p), cut, blen);
  }

  lemma NoRoomFor(p: seq<bv8>, blen: nat)
    requires |p| > blen
    ensures forall cut :: !Roomy(Escape(p), cut, blen, blen)
  {
    EscapeRoundTrip(p);
    forall cut
      ensures !Roomy(Escape(p), cut, blen, blen)
    {
      RoomyExact(Escape(p), cut, blen, blen);
    }
  }

  /** There are such packets: any that have no byte to escape. */
  lemma {:induction false} PlainFits(p: seq<bv8>)
    requires SLIP_END !in p && SLIP_ESC !in p
    ensures Escape(p) == p && |SlipWrite(p)| == |p| + 2
  {
    if p != [] {
      PlainFits(p[1..]);
      assert p == [p[0]] + p[1..];
    }
  }

  /** The serial line as written by slip_write. */
  class Transmitter {
    var sent: seq<bv8>

    /** slip_write, for the len <= 65535 that its 16-bit index can count. */
    method Write(data: array<bv8>, len: nat)
      requires len <= data.Length && len < 0x1_0000
      modifies this
      ensures sent == old(sent) + SlipWrite(data[..len])
    {
      ghost var p := data[..len];
      ghost var start := sent + [SLIP_END];
      sent := sent + [SLIP_END];
      for i := 0 to len
        invariant sent + Escape(p[i..]) == start + Escape(p)
      {
        ghost var was := sent;
        assert p[i..][0] == data[i] && p[i..][1..] == p[i + 1..];
        WriteByte(data[i]);
        Appended(was, EscapeByte(data[i]), Escape(p[i + 1..]));
      }
      assert p[len..] == [] && sent + [] == sent;
      sent := sent + [SLIP_END];
      Framed(old(sent), Escape(p));
    }

    /** One turn of the loop of slip_write. */
    method WriteByte(byte: bv8)
      modifies this
      ensures sent == old(sent) + EscapeByte(byte)
    {
      var c := byte;
      if c == SLIP_END {
        sent := sent + [SLIP_ESC];
        c := SLIP_ESC_END;
      } else if c == SLIP_ESC {
        sent := sent + [SLIP_ESC];
        c := SLIP_ESC_ESC;
      }
      sent := sent + [c];
    }
  }

  lemma Appended(was: seq<bv8>, a: seq<bv8>, b: seq<bv8>)
    ensures was + a + b == was + (a + b)
  {
  }

  lemma Framed(was: seq<bv8>, e: seq<bv8>)
    ensures was + [SLIP_END] + e + [SLIP_END] == was + ([SLIP_END] + e + [SLIP_END])
  {
  }
}
