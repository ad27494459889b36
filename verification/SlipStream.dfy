/**
 The receiver of os/dev/slip.c on values, and what it delivers over any stream of bytes and polls.
 */
module SlipStream {
  import opened SlipProtocol

  datatype RxState = TwoPackets | Ok | Esc | Rubbish

  /** The bytes from `begin` to `next_free`, the distance from `begin` to `pkt_end`, and `state`. */
  datatype Rx = Rx(buf: seq<bv8>, pkt: nat, st: RxState)

  /** rxbuf_init. */
  const RX_INIT: Rx := Rx([], 0, Ok)

  predicate IsCode(c: bv8) {
    c == SLIP_ESC_END || c == SLIP_ESC_ESC
  }

  /** The part of slip_input_byte after the switch. A full ring rewinds to the end of the first frame. */
  function Store(rx: Rx, c: bv8): Rx
    requires rx.pkt <= |rx.buf|
  {
    if |rx.buf| + 1 >= RX_BUFSIZE then Rx(rx.buf[..rx.pkt], rx.pkt, Rubbish)
    else if c == SLIP_END && |rx.buf| == rx.pkt then rx
    else Rx(rx.buf + [c], if c == SLIP_END && rx.pkt == 0 then |rx.buf| else rx.pkt, rx.st)
  }

  /** slip_input_byte. */
  function InputSpec(rx: Rx, c: bv8): (r: Rx)
    requires rx.pkt <= |rx.buf|
    ensures r.pkt <= |r.buf|
  {
    if rx.st == Rubbish then rx.(st := if c == SLIP_END then Ok else Rubbish)
    else if rx.st == Esc && !IsCode(c) then Rx(rx.buf[..rx.pkt], rx.pkt, Rubbish)
    else Store(rx.(st := if c == SLIP_ESC then Esc else if rx.st == Esc then Ok else rx.st), c)
  }

  /** The position of the first END, or the length if there is none. */
  function FirstEnd(s: seq<bv8>): (i: nat)
    ensures i <= |s|
    ensures i < |s| ==> s[i] == SLIP_END
    ensures forall j | 0 <= j < i :: s[j] != SLIP_END
  {
    if s == [] || s[0] == SLIP_END then 0 else 1 + FirstEnd(s[1..])
  }

  /** A frame is buffered and its END is still there. */
  predicate HasFrame(rx: Rx) {
    0 < rx.pkt < |rx.buf|
  }

  /** What slip_poll_handler leaves: the frame and its END are gone, and the next END marks the next frame. */
  function PollSpec(rx: Rx): (r: Rx)
    requires HasFrame(rx)
    ensures r.pkt <= |r.buf|
  {
    var rest := rx.buf[rx.pkt + 1..];
    Rx(rest, if FirstEnd(rest) < |rest| then FirstEnd(rest) else 0, rx.st)
  }

  // ----- runs -----

  /** A poll comes with the number of bytes from `begin` to the end of the ring. */
  datatype Event = Byte(c: bv8) | Poll(cut: nat)

  function Step(rx: Rx, ev: Event): (r: Rx)
    requires rx.pkt <= |rx.buf|
    ensures r.pkt <= |r.buf|
  {
    match ev
    case Byte(c) => InputSpec(rx, c)
    case Poll(_) => if HasFrame(rx) then PollSpec(rx) else rx
  }

  /** The payload that a poll hands on: nothing for a length of zero. */
  function Output(rx: Rx, ev: Event, blen: nat): seq<seq<bv8>>
    requires rx.pkt <= |rx.buf|
  {
    if ev.Poll? && HasFrame(rx) && Delivered(rx.buf[..rx.pkt], ev.cut, blen) != []
    then [Delivered(rx.buf[..rx.pkt], ev.cut, blen)]
    else []
  }

  function Run(rx: Rx, evs: seq<Event>): (r: Rx)
    requires rx.pkt <= |rx.buf|
    ensures r.pkt <= |r.buf|
    decreases |evs|
  {
    if evs == [] then rx else Run(Step(rx, evs[0]), evs[1..])
  }

  function Outputs(rx: Rx, evs: seq<Event>, blen: nat): seq<seq<bv8>>
    requires rx.pkt <= |rx.buf|
    decreases |evs|
  {
    if evs == [] then [] else Output(rx, evs[0], blen) + Outputs(Step(rx, evs[0]), evs[1..], blen)
  }

  /** What the stream may bring next: a byte that fits, that completes an escape if one is open, and that
      is an END only after a non-empty frame or into an empty ring; or a poll, the frame then fitting blen. */
  predicate Admissible(rx: Rx, ev: Event, blen: nat)
    requires rx.pkt <= |rx.buf|
  {
    match ev
    case Byte(c) =>
      && |rx.buf| + 1 < RX_BUFSIZE
      && (rx.st == Esc ==> IsCode(c))
      && (c == SLIP_END ==> rx.buf == [] || rx.buf[|rx.buf| - 1] != SLIP_END)
    case Poll(_) => HasFrame(rx) ==> |Unescape(rx.buf[..rx.pkt])| <= blen
  }

  predicate AdmissibleRun(rx: Rx, evs: seq<Event>, blen: nat)
    requires rx.pkt <= |rx.buf|
    decreases |evs|
  {
    evs == [] || (Admissible(rx, evs[0], blen) && AdmissibleRun(Step(rx, evs[0]), evs[1..], blen))
  }

  // ----- the reference decoder -----

  /** RFC 1055 without a ring: payloads decoded so far and raw bytes since the last END. Empty packets are dropped. */
  datatype Ref = Ref(done: seq<seq<bv8>>, cur: seq<bv8>)

  function RefByte(ref: Ref, c: bv8): Ref {
    if c != SLIP_END then ref.(cur := ref.cur + [c])
    else if ref.cur == [] then ref
    else Ref(ref.done + [Unescape(ref.cur)], [])
  }

  function RefRun(ref: Ref, s: seq<bv8>): Ref
    decreases |s|
  {
    if s == [] then ref else RefRun(RefByte(ref, s[0]), s[1..])
  }

  function Bytes(evs: seq<Event>): seq<bv8> {
    if evs == [] then [] else (if evs[0].Byte? then [evs[0].c] else []) + Bytes(evs[1..])
  }

  // ----- the invariant -----

  function Join(q: seq<seq<bv8>>): seq<bv8> {
    if q == [] then [] else q[0] + [SLIP_END] + Join(q[1..])
  }

  function Payloads(q: seq<seq<bv8>>): seq<seq<bv8>> {
    if q == [] then [] else [Unescape(q[0])] + Payloads(q[1..])
  }

  ghost predicate Frames(q: seq<seq<bv8>>) {
    forall i | 0 <= i < |q| :: q[i] != [] && WellEscaped(q[i], false)
  }

  /** The ring holds the complete frames q and the beginning cur of the next one. */
  ghost predicate Holds(rx: Rx, q: seq<seq<bv8>>, cur: seq<bv8>, open: bool) {
    && Frames(q) && WellEscaped(cur, open)
    && rx.buf == Join(q) + cur
    && rx.pkt == (if q == [] then 0 else |q[0]|)
    && rx.st == (if open then Esc else Ok)
  }

  lemma HoldsShape(rx: Rx, q: seq<seq<bv8>>, cur: seq<bv8>, open: bool)
    requires Holds(rx, q, cur, open)
    ensures rx.pkt <= |rx.buf|
    ensures HasFrame(rx) <==> q != []
    ensures q != [] ==> rx.buf[..rx.pkt] == q[0] && rx.buf[rx.pkt + 1..] == Join(q[1..]) + cur
  {
    if q != [] {
      FrontOf(q[0], Join(q[1..]), cur);
    }
  }

  /** The first frame of a ring and what follows its END. */
  lemma FrontOf(f: seq<bv8>, j: seq<bv8>, tail: seq<bv8>)
    ensures var s := f + [SLIP_END] + j + tail;
            |s| > |f| && s[..|f|] == f && s[|f| + 1..] == j + tail
  {
  }

  lemma {:induction false} JoinSnoc(q: seq<seq<bv8>>, f: seq<bv8>)
    ensures Join(q + [f]) == Join(q) + f + [SLIP_END]
    ensures Payloads(q + [f]) == Payloads(q) + [Unescape(f)]
  {
    if q == [] {
      assert q + [f] == [f] && [f][1..] == [];
      assert Join([f]) == f + [SLIP_END] + Join([]);
    } else {
      JoinSnoc(q[1..], f);
      assert (q + [f])[0] == q[0] && (q + [f])[1..] == q[1..] + [f];
      JoinAssoc(q[0] + [SLIP_END], Join(q[1..]), f, [SLIP_END]);
    }
  }

  lemma JoinAssoc(a: seq<bv8>, b: seq<bv8>, c: seq<bv8>, d: seq<bv8>)
    ensures a + (b + c + d) == a + b + c + d
  {
  }

  lemma {:induction false} JoinEndsWithEnd(q: seq<seq<bv8>>)
    requires q != []
    ensures Join(q) != [] && Join(q)[|Join(q)| - 1] == SLIP_END
  {
    JoinSnoc(q[..|q| - 1], q[|q| - 1]);
    assert q[..|q| - 1] + [q[|q| - 1]] == q;
  }

  /** One admissible byte extends the current frame, completes it, or is an END into an empty ring. */
  lemma ByteStep(rx: Rx, q: seq<seq<bv8>>, cur: seq<bv8>, open: bool, c: bv8, blen: nat)
    returns (q': seq<seq<bv8>>, cur': seq<bv8>, open': bool)
    requires Holds(rx, q, cur, open) && rx.pkt <= |rx.buf| && Admissible(rx, Byte(c), blen)
    ensures Holds(InputSpec(rx, c), q', cur', open')
    ensures Payloads(q') == Payloads(q) + (if c == SLIP_END && cur != [] then [Unescape(cur)] else [])
    ensures cur' == if c == SLIP_END then [] else cur + [c]
  {
    HoldsShape(rx, q, cur, open);
    if c != SLIP_END {
      q', cur', open' := q, cur + [c], !open && c == SLIP_ESC;
      DataByte(rx, q, cur, open, c);
      assert Payloads(q) + [] == Payloads(q);
    } else if cur == [] {
      q', cur', open' := q, cur, open;
      IdleEnd(rx, q);
      assert Payloads(q) + [] == Payloads(q);
    } else {
      q', cur', open' := q + [cur], [], false;
      EndByte(rx, q, cur);
    }
  }

  lemma DataByte(rx: Rx, q: seq<seq<bv8>>, cur: seq<bv8>, open: bool, c: bv8)
    requires Holds(rx, q, cur, open) && rx.pkt <= |rx.buf| && |rx.buf| + 1 < RX_BUFSIZE
    requires c != SLIP_END && (open ==> IsCode(c))
    ensures Holds(InputSpec(rx, c), q, cur + [c], !open && c == SLIP_ESC)
  {
    WellEscapedSnoc(cur, open, c);
    assert Join(q) + cur + [c] == Join(q) + (cur + [c]);
  }

  lemma IdleEnd(rx: Rx, q: seq<seq<bv8>>)
    requires Holds(rx, q, [], false) && rx.pkt <= |rx.buf| && |rx.buf| + 1 < RX_BUFSIZE
    requires rx.buf == [] || rx.buf[|rx.buf| - 1] != SLIP_END
    ensures InputSpec(rx, SLIP_END) == rx
  {
    assert rx.buf == Join(q);
    if q != [] {
      JoinEndsWithEnd(q);
    }
  }

  lemma EndByte(rx: Rx, q: seq<seq<bv8>>, cur: seq<bv8>)
    requires Holds(rx, q, cur, false) && cur != [] && rx.pkt <= |rx.buf| && |rx.buf| + 1 < RX_BUFSIZE
    ensures Holds(InputSpec(rx, SLIP_END), q + [cur], [], false)
    ensures Payloads(q + [cur]) == Payloads(q) + [Unescape(cur)]
  {
    HoldsShape(rx, q, cur, false);
    JoinSnoc(q, cur);
    assert Join(q + [cur]) + [] == Join(q) + cur + [SLIP_END];
    assert (q + [cur])[0] == if q == [] then cur else q[0];
  }

  lemma PollStep(rx: Rx, q: seq<seq<bv8>>, cur: seq<bv8>, open: bool)
    requires Holds(rx, q, cur, open) && q != []
    ensures HasFrame(rx) && Holds(PollSpec(rx), q[1..], cur, open)
  {
    HoldsShape(rx, q, cur, open);
    var r := q[1..];
    assert Frames(r);
    FirstEndOfRest(r, cur, open);
  }

  lemma FirstEndOfRest(r: seq<seq<bv8>>, cur: seq<bv8>, open: bool)
    requires Frames(r) && WellEscaped(cur, open)
    ensures FirstEnd(Join(r) + cur) == if r == [] then |Join(r) + cur| else |r[0]|
    ensures r != [] ==> |r[0]| < |Join(r) + cur|
  {
    WellEscapedNoEnd(cur, open);
    var rest := Join(r) + cur;
    if r == [] {
      assert rest == cur;
      NoEnd(cur);
    } else {
      FirstFrameEnds(r, cur);
    }
  }

  lemma FirstFrameEnds(r: seq<seq<bv8>>, tail: seq<bv8>)
    requires Frames(r) && r != []
    ensures FirstEnd(Join(r) + tail) == |r[0]| < |Join(r) + tail|
  {
    WellEscapedNoEnd(r[0], false);
    EndAfter(r[0], Join(r[1..]), tail);
  }

  lemma EndAfter(f: seq<bv8>, j: seq<bv8>, tail: seq<bv8>)
    requires SLIP_END !in f
    ensures FirstEnd(f + [SLIP_END] + j + tail) == |f|
  {
    assert f + [SLIP_END] + j + tail == f + ([SLIP_END] + j + tail);
    FirstEndOf(f, [SLIP_END] + j + tail);
  }

  lemma {:induction false} FirstEndOf(a: seq<bv8>, b: seq<bv8>)
    requires SLIP_END !in a && b != [] && b[0] == SLIP_END
    ensures FirstEnd(a + b) == |a|
  {
    if a == [] {
      assert a + b == b;
    } else {
      assert (a + b)[0] == a[0] && (a + b)[1..] == a[1..] + b;
      FirstEndOf(a[1..], b);
    }
  }

  lemma {:induction false} NoEnd(s: seq<bv8>)
    requires SLIP_END !in s
    ensures FirstEnd(s) == |s|
  {
    if s != [] {
      NoEnd(s[1..]);
    }
  }

  // ----- delivery -----

  /** Every admissible run: what was delivered, followed by what is still buffered, is what the reference
      decoder makes of the bytes received; and the ring holds exactly the rest. */
  lemma {:induction false} StreamDelivers(rx: Rx, q: seq<seq<bv8>>, cur: seq<bv8>, open: bool,
                                          done: seq<seq<bv8>>, evs: seq<Event>, blen: nat)
    returns (q': seq<seq<bv8>>, cur': seq<bv8>, open': bool)
    requires Holds(rx, q, cur, open) && rx.pkt <= |rx.buf|
    requires AdmissibleRun(rx, evs, blen)
    ensures Holds(Run(rx, evs), q', cur', open')
    ensures RefRun(Ref(done + Payloads(q), cur), Bytes(evs)) == Ref(done + Outputs(rx, evs, blen) + Payloads(q'), cur')
    decreases |evs|
  {
    if evs == [] {
      q', cur', open' := q, cur, open;
      assert done + [] + Payloads(q) == done + Payloads(q);
    } else if evs[0].Byte? {
      var ev, rest := evs[0], evs[1..];
      var q1, cur1, open1 := ByteStep(rx, q, cur, open, ev.c, blen);
      q', cur', open' := StreamDelivers(Step(rx, ev), q1, cur1, open1, done, rest, blen);
      RefRunByte(done, q, cur, ev.c, q1, Bytes(rest));
      assert [] + Outputs(Step(rx, ev), rest, blen) == Outputs(Step(rx, ev), rest, blen);
    } else {
      var ev, rest := evs[0], evs[1..];
      var q1, out := PollOutput(rx, q, cur, open, ev, blen);
      q', cur', open' := StreamDelivers(Step(rx, ev), q1, cur, open, done + out, rest, blen);
      Regroup(done, out, Payloads(q1), Outputs(Step(rx, ev), rest, blen), Payloads(q'));
      assert [] + Bytes(rest) == Bytes(rest);
    }
  }

  /** A poll hands on the first complete frame, if there is one. */
  lemma PollOutput(rx: Rx, q: seq<seq<bv8>>, cur: seq<bv8>, open: bool, ev: Event, blen: nat)
    returns (q1: seq<seq<bv8>>, out: seq<seq<bv8>>)
    requires Holds(rx, q, cur, open) && rx.pkt <= |rx.buf| && ev.Poll? && Admissible(rx, ev, blen)
    ensures out == Output(rx, ev, blen) && Holds(Step(rx, ev), q1, cur, open)
    ensures out + Payloads(q1) == Payloads(q)
  {
    HoldsShape(rx, q, cur, open);
    if q == [] {
      q1, out := q, [];
    } else {
      PollStep(rx, q, cur, open);
      DeliveredWhole(q[0], ev.cut, blen);
      WellEscapedNoEnd(q[0], false);
      q1, out := q[1..], [Unescape(q[0])];
    }
  }

  lemma Regroup(done: seq<seq<bv8>>, out: seq<seq<bv8>>, p: seq<seq<bv8>>, o: seq<seq<bv8>>, r: seq<seq<bv8>>)
    ensures done + (out + p) == (done + out) + p
    ensures done + (out + o) + r == (done + out) + o + r
    ensures [] + o == o && [] + p == p
  {
  }

  lemma RefRunByte(done: seq<seq<bv8>>, q: seq<seq<bv8>>, cur: seq<bv8>, c: bv8, q1: seq<seq<bv8>>, s: seq<bv8>)
    requires Payloads(q1) == Payloads(q) + (if c == SLIP_END && cur != [] then [Unescape(cur)] else [])
    ensures RefRun(Ref(done + Payloads(q), cur), [c] + s)
         == RefRun(Ref(done + Payloads(q1), if c == SLIP_END then [] else cur + [c]), s)
  {
    assert ([c] + s)[0] == c && ([c] + s)[1..] == s;
    assert Payloads(q) + [] == Payloads(q);
    assert done + Payloads(q) + [Unescape(cur)] == done + (Payloads(q) + [Unescape(cur)]);
  }

  /** From the initial state: the payloads delivered are a prefix of the reference decoder's, the frames not yet
      delivered are still in the ring, and none is left exactly when no frame is marked. */
  lemma DeliversReference(evs: seq<Event>, blen: nat) returns (q: seq<seq<bv8>>, cur: seq<bv8>, open: bool)
    requires AdmissibleRun(RX_INIT, evs, blen)
    ensures RefRun(Ref([], []), Bytes(evs)) == Ref(Outputs(RX_INIT, evs, blen) + Payloads(q), cur)
    ensures Holds(Run(RX_INIT, evs), q, cur, open)
    ensures q == [] <==> Run(RX_INIT, evs).pkt == 0
    ensures |Payloads(q)| == |q|
  {
    q, cur, open := StreamDelivers(RX_INIT, [], [], false, [], evs, blen);
    Regroup([], [], [], Outputs(RX_INIT, evs, blen), Payloads(q));
    HoldsShape(Run(RX_INIT, evs), q, cur, open);
    PayloadsCount(q);
  }

  lemma {:induction false} PayloadsCount(q: seq<seq<bv8>>)
    ensures |Payloads(q)| == |q|
  {
    if q != [] {
      PayloadsCount(q[1..]);
    }
  }

  // ----- the sender -----

  /** slip_write: an END before the frame and an END after it. */
  function SlipWrite(p: seq<bv8>): seq<bv8> {
    [SLIP_END] + Escape(p) + [SLIP_END]
  }

  function Wire(ps: seq<seq<bv8>>): seq<bv8> {
    if ps == [] then [] else SlipWrite(ps[0]) + Wire(ps[1..])
  }

  function NonEmpty(ps: seq<seq<bv8>>): seq<seq<bv8>> {
    if ps == [] then [] else (if ps[0] == [] then [] else [ps[0]]) + NonEmpty(ps[1..])
  }

  lemma {:induction false} RefRunConcat(ref: Ref, a: seq<bv8>, b: seq<bv8>)
    ensures RefRun(ref, a + b) == RefRun(RefRun(ref, a), b)
    decreases |a|
  {
    if a == [] {
      assert a + b == b;
    } else {
      assert (a + b)[0] == a[0] && (a + b)[1..] == a[1..] + b;
      RefRunConcat(RefByte(ref, a[0]), a[1..], b);
    }
  }

  lemma {:induction false} RefRunFrame(ref: Ref, s: seq<bv8>)
    requires SLIP_END !in s
    ensures RefRun(ref, s) == ref.(cur := ref.cur + s)
    decreases |s|
  {
    if s == [] {
      assert ref.cur + s == ref.cur;
    } else {
      RefRunFrame(RefByte(ref, s[0]), s[1..]);
      assert ref.cur + [s[0]] + s[1..] == ref.cur + s;
    }
  }

  /** One slip_write is one reference payload; an empty packet is none. */
  lemma RefOfWrite(done: seq<seq<bv8>>, p: seq<bv8>)
    ensures RefRun(Ref(done, []), SlipWrite(p)) == Ref(done + (if p == [] then [] else [p]), [])
  {
    EscapeRoundTrip(p);
    var ref := Ref(done, []);
    RefRunConcat(ref, [SLIP_END] + Escape(p), [SLIP_END]);
    RefRunConcat(ref, [SLIP_END], Escape(p));
    RefRunFrame(ref, Escape(p));
    assert [] + Escape(p) == Escape(p);
    assert forall r: Ref :: RefRun(r, [SLIP_END]) == RefRun(RefByte(r, SLIP_END), []);
    assert done + [] == done;
  }

  /** The reference decoder inverts the sender. */
  lemma {:induction false} RefOfWire(done: seq<seq<bv8>>, ps: seq<seq<bv8>>)
    ensures RefRun(Ref(done, []), Wire(ps)) == Ref(done + NonEmpty(ps), [])
    decreases |ps|
  {
    if ps == [] {
      assert done + [] == done;
    } else {
      var first := if ps[0] == [] then [] else [ps[0]];
      RefOfWrite(done, ps[0]);
      RefRunConcat(Ref(done, []), SlipWrite(ps[0]), Wire(ps[1..]));
      RefOfWire(done + first, ps[1..]);
      Regroup(done, first, NonEmpty(ps[1..]), [], []);
    }
  }

  /** End to end: over any admissible run whose bytes are what slip_write sends for ps, the polls deliver the
      non-empty packets of ps in order, up to those that are still buffered. */
  lemma EndToEnd(ps: seq<seq<bv8>>, evs: seq<Event>, blen: nat) returns (q: seq<seq<bv8>>)
    requires AdmissibleRun(RX_INIT, evs, blen) && Bytes(evs) == Wire(ps)
    ensures NonEmpty(ps) == Outputs(RX_INIT, evs, blen) + Payloads(q)
    ensures Holds(Run(RX_INIT, evs), q, [], false)
    ensures q == [] <==> Run(RX_INIT, evs).pkt == 0
  {
    var cur, open;
    q, cur, open := DeliversReference(evs, blen);
    RefOfWire([], ps);
    assert [] + NonEmpty(ps) == NonEmpty(ps);
  }

  // ----- when frames written back to back survive -----

  function RunBytes(rx: Rx, s: seq<bv8>): (r: Rx)
    requires rx.pkt <= |rx.buf|
    ensures r.pkt <= |r.buf|
    decreases |s|
  {
    if s == [] then rx else RunBytes(InputSpec(rx, s[0]), s[1..])
  }

  lemma {:induction false} RunBytesConcat(rx: Rx, a: seq<bv8>, b: seq<bv8>)
    requires rx.pkt <= |rx.buf|
    ensures RunBytes(rx, a + b) == RunBytes(RunBytes(rx, a), b)
    decreases |a|
  {
    if a == [] {
      assert a + b == b;
    } else {
      assert (a + b)[0] == a[0] && (a + b)[1..] == a[1..] + b;
      RunBytesConcat(InputSpec(rx, a[0]), a[1..], b);
    }
  }

  lemma RunBytesTwo(rx: Rx, a: bv8, b: bv8, s: seq<bv8>)
    requires rx.pkt <= |rx.buf|
    ensures RunBytes(rx, [a, b] + s) == RunBytes(InputSpec(InputSpec(rx, a), b), s)
  {
    assert ([a, b] + s)[1..] == [b] + s && ([b] + s)[1..] == s;
  }

  /** A well-escaped stretch that fits is stored as it is. */
  lemma {:induction false} FeedFrame(rx: Rx, s: seq<bv8>)
    requires rx.pkt <= |rx.buf| && rx.st == Ok && WellEscaped(s, false) && |rx.buf| + |s| < RX_BUFSIZE
    ensures RunBytes(rx, s) == Rx(rx.buf + s, rx.pkt, Ok)
    decreases |s|
  {
    if s == [] {
      assert rx.buf + s == rx.buf;
    } else if s[0] == SLIP_ESC {
      assert s == [s[0], s[1]] + s[2..];
      RunBytesTwo(rx, s[0], s[1], s[2..]);
      PairStored(rx, s[1]);
      FeedFrame(Rx(rx.buf + [s[0], s[1]], rx.pkt, Ok), s[2..]);
      assert rx.buf + [s[0], s[1]] + s[2..] == rx.buf + s;
    } else {
      FeedFrame(Rx(rx.buf + [s[0]], rx.pkt, Ok), s[1..]);
      assert rx.buf + [s[0]] + s[1..] == rx.buf + s;
    }
  }

  lemma PairStored(rx: Rx, c: bv8)
    requires rx.pkt <= |rx.buf| && rx.st == Ok && IsCode(c) && |rx.buf| + 2 < RX_BUFSIZE
    ensures InputSpec(InputSpec(rx, SLIP_ESC), c) == Rx(rx.buf + [SLIP_ESC, c], rx.pkt, Ok)
  {
    assert rx.buf + [SLIP_ESC] + [c] == rx.buf + [SLIP_ESC, c];
  }

  /** A ring with the complete frames q, followed by the bytes of tail. */
  function RingOf(q: seq<seq<bv8>>, tail: seq<bv8>): (rx: Rx)
    ensures rx.pkt <= |rx.buf|
  {
    Rx(Join(q) + tail, if q == [] then 0 else |q[0]|, Ok)
  }

  /** What slip_write leaves in the ring: into an empty ring its frame; onto buffered frames
      also the END that was meant to open it. */
  lemma WriteResult(q: seq<seq<bv8>>, p: seq<bv8>)
    requires Frames(q) && p != [] && |Join(q)| + |SlipWrite(p)| < RX_BUFSIZE
    ensures q == [] ==> RunBytes(RingOf(q, []), SlipWrite(p)) == RingOf([Escape(p)], [])
    ensures q != [] ==> RunBytes(RingOf(q, []), SlipWrite(p)) == RingOf(q, SlipWrite(p))
  {
    EscapeRoundTrip(p);
    var rx, e := RingOf(q, []), Escape(p);
    RunFramed(rx, e);
    assert Join(q) + [] == Join(q);
    if q == [] {
      FreshFrame(p);
      assert Join([e]) == e + [SLIP_END] + Join([]);
      assert Join([e]) + [] == e + [SLIP_END];
    } else {
      assert |Join(q)| > |q[0]|;
      WriteBehind(Join(q), |q[0]|, e);
    }
  }

  /** Frame and both its ENDs stored behind the bytes j. */
  lemma WriteBehind(j: seq<bv8>, pkt: nat, e: seq<bv8>)
    requires 0 < pkt < |j| && WellEscaped(e, false) && |j| + |e| + 2 < RX_BUFSIZE
    ensures InputSpec(RunBytes(InputSpec(Rx(j, pkt, Ok), SLIP_END), e), SLIP_END)
         == Rx(j + ([SLIP_END] + e + [SLIP_END]), pkt, Ok)
  {
    EndBehind(j, pkt);
    FeedFrame(Rx(j + [SLIP_END], pkt, Ok), e);
    EndBehind(j + [SLIP_END] + e, pkt);
    Behind(j, e);
  }

  lemma Behind(j: seq<bv8>, e: seq<bv8>)
    ensures j + [SLIP_END] + e + [SLIP_END] == j + ([SLIP_END] + e + [SLIP_END])
  {
  }

  lemma EndBehind(j: seq<bv8>, pkt: nat)
    requires 0 < pkt < |j| && |j| + 1 < RX_BUFSIZE
    ensures InputSpec(Rx(j, pkt, Ok), SLIP_END) == Rx(j + [SLIP_END], pkt, Ok)
  {
  }

  lemma RunOne(rx: Rx, c: bv8)
    requires rx.pkt <= |rx.buf|
    ensures RunBytes(rx, [c]) == InputSpec(rx, c)
  {
    assert [c][1..] == [];
  }

  lemma RunFramed(rx: Rx, e: seq<bv8>)
    requires rx.pkt <= |rx.buf|
    ensures RunBytes(rx, [SLIP_END] + e + [SLIP_END]) == InputSpec(RunBytes(InputSpec(rx, SLIP_END), e), SLIP_END)
  {
    RunBytesConcat(rx, [SLIP_END] + e, [SLIP_END]);
    RunBytesConcat(rx, [SLIP_END], e);
    RunOne(rx, SLIP_END);
    RunOne(RunBytes(InputSpec(rx, SLIP_END), e), SLIP_END);
  }

  /** A frame into an empty ring. */
  lemma FreshFrame(p: seq<bv8>)
    requires p != [] && |Escape(p)| + 1 < RX_BUFSIZE
    ensures RunBytes(RX_INIT, Escape(p)) == Rx(Escape(p), 0, Ok)
    ensures InputSpec(Rx(Escape(p), 0, Ok), SLIP_END) == Rx(Escape(p) + [SLIP_END], |Escape(p)|, Ok)
  {
    EscapeRoundTrip(p);
    FeedFrame(RX_INIT, Escape(p));
    assert [] + Escape(p) == Escape(p);
  }

  function Polls(cuts: seq<nat>): seq<Event> {
    if cuts == [] then [] else [Poll(cuts[0])] + Polls(cuts[1..])
  }

  /** A stray END behind the frames stops the polls once the frames are delivered, and stays where it is. */
  lemma {:induction false} StuckPolls(q: seq<seq<bv8>>, tail: seq<bv8>, cuts: seq<nat>, blen: nat)
    requires Frames(q) && |cuts| >= |q| && (tail == [] || tail[0] == SLIP_END)
    requires forall i | 0 <= i < |q| :: |Unescape(q[i])| <= blen
    ensures Outputs(RingOf(q, tail), Polls(cuts), blen) == Payloads(q)
    ensures Run(RingOf(q, tail), Polls(cuts)) == RingOf([], tail)
    decreases |cuts|
  {
    var rx := RingOf(q, tail);
    if cuts == [] {
    } else if q == [] {
      assert !HasFrame(rx) && Polls(cuts)[1..] == Polls(cuts[1..]);
      StuckPolls(q, tail, cuts[1..], blen);
      assert [] + Outputs(rx, Polls(cuts[1..]), blen) == Outputs(rx, Polls(cuts[1..]), blen);
    } else {
      assert Polls(cuts)[1..] == Polls(cuts[1..]);
      PollRing(q, tail, cuts[0], blen);
      StuckPolls(q[1..], tail, cuts[1..], blen);
    }
  }

  lemma PollRing(q: seq<seq<bv8>>, tail: seq<bv8>, cut: nat, blen: nat)
    requires Frames(q) && q != [] && (tail == [] || tail[0] == SLIP_END) && |Unescape(q[0])| <= blen
    ensures Step(RingOf(q, tail), Poll(cut)) == RingOf(q[1..], tail)
    ensures Output(RingOf(q, tail), Poll(cut), blen) == [Unescape(q[0])]
  {
    NextFrame(q[1..], tail);
    DeliveredWhole(q[0], cut, blen);
    WellEscapedNoEnd(q[0], false);
    FrameTaken(q[0], Join(q[1..]), tail, cut, blen);
  }

  /** A poll takes the marked bytes f out of the ring, and the next END in what follows marks the next frame. */
  lemma FrameTaken(f: seq<bv8>, j: seq<bv8>, tail: seq<bv8>, cut: nat, blen: nat)
    requires f != []
    ensures var rx := Rx(f + [SLIP_END] + j + tail, |f|, Ok);
            && Output(rx, Poll(cut), blen) == (if Delivered(f, cut, blen) != [] then [Delivered(f, cut, blen)] else [])
            && Step(rx, Poll(cut))
            == Rx(j + tail, if FirstEnd(j + tail) < |j + tail| then FirstEnd(j + tail) else 0, Ok)
  {
    FrontOf(f, j, tail);
  }

  lemma NextFrame(r: seq<seq<bv8>>, tail: seq<bv8>)
    requires Frames(r) && (tail == [] || tail[0] == SLIP_END)
    ensures FirstEnd(Join(r) + tail) == if r == [] then 0 else |r[0]|
    ensures r != [] ==> |r[0]| < |Join(r) + tail|
  {
    if r == [] {
      assert Join(r) + tail == tail;
    } else {
      FirstFrameEnds(r, tail);
    }
  }

  /** A packet sent with slip_write while q is buffered is delivered by the polls that follow if and only if
      q is empty: the opening END is not ignored once a frame is in the ring. */
  lemma BackToBack(q: seq<seq<bv8>>, p: seq<bv8>, cuts: seq<nat>, blen: nat)
    requires Frames(q) && p != [] && |Join(q)| + |SlipWrite(p)| < RX_BUFSIZE
    requires |cuts| > |q| && |p| <= blen && forall i | 0 <= i < |q| :: |Unescape(q[i])| <= blen
    ensures Outputs(RunBytes(RingOf(q, []), SlipWrite(p)), Polls(cuts), blen) == Payloads(q) + [p] <==> q == []
  {
    WriteResult(q, p);
    EscapeRoundTrip(p);
    if q == [] {
      StuckPolls([Escape(p)], [], cuts, blen);
      assert Payloads([Escape(p)]) == [p];
      assert Payloads(q) + [p] == [p];
    } else {
      StuckPolls(q, SlipWrite(p), cuts, blen);
      assert |Payloads(q) + [p]| == |Payloads(q)| + 1;
    }
  }

  /** What is left of such a packet p in the ring spoils what comes next: the END that opens the following packet r
      completes a frame with both ENDs of p in it, and a poll hands that on as a payload; r itself comes through. */
  lemma StrayCorrupts(p: seq<bv8>, r: seq<bv8>, cut1: nat, cut2: nat, blen: nat)
    requires p != [] && r != [] && |SlipWrite(p)| + |SlipWrite(r)| < RX_BUFSIZE
    requires |p| + 2 <= blen && |r| <= blen
    ensures var rx := RunBytes(RingOf([], SlipWrite(p)), SlipWrite(r));
            && Output(rx, Poll(cut1), blen) == [[SLIP_END] + p + [SLIP_END]]
            && Output(Step(rx, Poll(cut1)), Poll(cut2), blen) == [r]
            && Step(Step(rx, Poll(cut1)), Poll(cut2)) == RX_INIT
  {
    EscapeRoundTrip(r);
    var w, e := SlipWrite(p), Escape(r);
    assert Join([]) + w == w;
    RunFramed(RingOf([], w), e);
    assert InputSpec(Rx(w, 0, Ok), SLIP_END) == Rx(w + [SLIP_END], |w|, Ok);
    FeedFrame(Rx(w + [SLIP_END], |w|, Ok), e);
    EndBehind(w + [SLIP_END] + e, |w|);
    StrayOut(p, e, cut1, blen);
    FrameOut(r, cut2, blen);
  }

  lemma StrayOut(p: seq<bv8>, e: seq<bv8>, cut: nat, blen: nat)
    requires p != [] && |p| + 2 <= blen && e != [] && WellEscaped(e, false)
    ensures var rx := Rx(SlipWrite(p) + [SLIP_END] + e + [SLIP_END], |SlipWrite(p)|, Ok);
            && Output(rx, Poll(cut), blen) == [[SLIP_END] + p + [SLIP_END]]
            && Step(rx, Poll(cut)) == Rx(e + [SLIP_END], |e|, Ok)
  {
    var w := SlipWrite(p);
    FrameTaken(w, e, [SLIP_END], cut, blen);
    StrayDelivered(p, w, cut, blen);
    WellEscapedNoEnd(e, false);
    FirstEndOf(e, [SLIP_END]);
  }

  lemma StrayDelivered(p: seq<bv8>, w: seq<bv8>, cut: nat, blen: nat)
    requires w == SlipWrite(p) && |p| + 2 <= blen
    ensures Delivered(w, cut, blen) == [SLIP_END] + p + [SLIP_END] != []
  {
    PlainOfWrite(p);
    DeliveredPlain(w, cut, blen);
  }

  /** Inside a frame an END is a byte like any other. */
  lemma PlainOfWrite(p: seq<bv8>)
    ensures Plain(SlipWrite(p), false) == [SLIP_END] + p + [SLIP_END]
  {
    var w := SlipWrite(p);
    EscapeRoundTrip(p);
    PlainAppends(Escape(p), [SLIP_END]);
    assert w[0] == SLIP_END && w[1..] == Escape(p) + [SLIP_END];
    assert [SLIP_END][1..] == [] && [SLIP_END] + Plain([], false) == [SLIP_END];
    assert Plain([SLIP_END], false) == [SLIP_END];
    assert [SLIP_END] + (p + [SLIP_END]) == [SLIP_END] + p + [SLIP_END];
  }

  // ----- errors and resynchronisation -----

  /** A byte that the receiver cannot take: a bad escape code, or any byte into a full ring. */
  predicate IsError(rx: Rx, c: bv8) {
    rx.st != Rubbish && ((rx.st == Esc && !IsCode(c)) || |rx.buf| + 1 >= RX_BUFSIZE)
  }

  /** An error discards the partial frame. What it leaves is the complete frames that were buffered if and only if
      there are none: otherwise the rewind stops in front of the END of the first frame and drops that too. */
  lemma ErrorRewinds(rx: Rx, q: seq<seq<bv8>>, cur: seq<bv8>, open: bool, c: bv8)
    requires Holds(rx, q, cur, open) && rx.pkt <= |rx.buf| && IsError(rx, c)
    ensures InputSpec(rx, c) == Rx(if q == [] then [] else q[0], rx.pkt, Rubbish)
    ensures InputSpec(rx, c).buf == Join(q) <==> q == []
  {
    HoldsShape(rx, q, cur, open);
    if q != [] {
      assert |Join(q)| > |q[0]|;
    }
  }

  /** After an error with nothing buffered, everything up to the next END is dropped, and the next
      frame that fits is then decoded exactly. */
  lemma Resynchronises(rx: Rx, c: bv8, junk: seq<bv8>, p: seq<bv8>, cut: nat, blen: nat)
    requires rx.pkt == 0 && IsError(rx, c)
    requires SLIP_END !in junk && p != [] && |p| <= blen && |Escape(p)| + 1 < RX_BUFSIZE
    ensures InputSpec(rx, c) == Rx([], 0, Rubbish)
    ensures RunBytes(InputSpec(rx, c), junk + [SLIP_END]) == RX_INIT
    ensures var r := RunBytes(InputSpec(rx, c), junk + [SLIP_END] + Escape(p) + [SLIP_END]);
            && Output(r, Poll(cut), blen) == [p] && Step(r, Poll(cut)) == RX_INIT
  {
    var bad, e := Rx([], 0, Rubbish), Escape(p);
    SkipRubbish(bad, junk);
    RunBytesConcat(bad, junk, [SLIP_END]);
    RunOne(bad, SLIP_END);
    RunBytesConcat(bad, junk + [SLIP_END] + e, [SLIP_END]);
    RunBytesConcat(bad, junk + [SLIP_END], e);
    FreshFrame(p);
    RunOne(Rx(e, 0, Ok), SLIP_END);
    FrameOut(p, cut, blen);
  }

  lemma FrameOut(p: seq<bv8>, cut: nat, blen: nat)
    requires p != [] && |p| <= blen
    ensures var r := Rx(Escape(p) + [SLIP_END], |Escape(p)|, Ok);
            Output(r, Poll(cut), blen) == [p] && Step(r, Poll(cut)) == RX_INIT
  {
    EscapeRoundTrip(p);
    var e := Escape(p);
    var full := Rx(e + [SLIP_END], |e|, Ok);
    assert full.buf[..full.pkt] == e && full.buf[full.pkt + 1..] == [];
    DeliveredWhole(e, cut, blen);
  }

  lemma {:induction false} SkipRubbish(rx: Rx, junk: seq<bv8>)
    requires rx.st == Rubbish && rx.pkt <= |rx.buf| && SLIP_END !in junk
    ensures RunBytes(rx, junk) == rx
    decreases |junk|
  {
    if junk != [] {
      assert junk[0] in junk;
      SkipRubbish(rx, junk[1..]);
    }
  }
}
