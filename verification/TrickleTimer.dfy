/**
 os/lib/trickle-timer.c, with drift compensation, against the rules of section 4.2 of RFC 6206. The rules are
 a state machine over unbounded time and unbounded counters; the code has a wrapping clock and one byte.
 */
module TrickleTimer {
  import opened Arithmetic
  import opened ClockTime
  import opened TrickleImax

  // ----- RFC 6206, section 4.2 -----

  datatype Params = Params(iMin: nat, iMax: nat, k: nat)

  predicate Proper(p: Params) {
    2 <= p.iMin <= p.iMax <= HALF
  }

  /** The current interval, and when its timer was set and is due. */
  datatype Rfc = Rfc(start: nat, len: nat, offset: nat, heard: nat, fired: bool, armed: nat, due: nat)

  datatype Event = Consistent | Inconsistent(now: nat, rand: nat) | Timeout(now: nat, rand: nat)

  datatype Output = Transmit(allowed: bool) | Begin(start: nat, len: nat, offset: nat)

  function Min(a: nat, b: nat): nat {
    if a <= b then a else b
  }

  function Max(a: nat, b: nat): nat {
    if a <= b then b else a
  }

  /** get_t: a point in the second half of the interval. */
  function Draw(len: nat, rand: nat): (t: nat)
    requires len >= 2
    ensures len / 2 <= t < len
  {
    len / 2 + Rem(rand, len / 2)
  }

  /** Some random number below `range` gives the point t. */
  ghost predicate Drawn(len: nat, range: nat, t: nat)
    requires len >= 2
  {
    exists rand: nat :: rand < range && Draw(len, rand) == t
  }

  /** With random numbers below `range`, exactly the first `range` points from the middle of the interval on can come
      up, and never the last one of an odd interval. */
  lemma DrawReaches(len: nat, range: nat, t: nat)
    requires len >= 2
    ensures Drawn(len, range, t) <==> len / 2 <= t < len / 2 + Min(len / 2, range)
  {
    if len / 2 <= t < len / 2 + Min(len / 2, range) {
      assert Draw(len, t - len / 2) == t;
    }
  }

  /** 16-bit random numbers reach every point that wide ones do exactly for intervals up to 0x20001. */
  lemma NarrowRandomSuffices(len: nat, wide: nat)
    requires 2 <= len && len / 2 <= wide
    ensures (forall t: nat | Drawn(len, wide, t) :: Drawn(len, 0x1_0000, t)) <==> len <= 0x2_0001
  {
    var t := len / 2 + 0x1_0000;
    DrawReaches(len, wide, t);
    DrawReaches(len, 0x1_0000, t);
    forall t: nat
      ensures len <= 0x2_0001 && Drawn(len, wide, t) ==> Drawn(len, 0x1_0000, t)
    {
      DrawReaches(len, wide, t);
      DrawReaches(len, 0x1_0000, t);
    }
  }

  lemma SmallRemainder(a: nat, n: Pos)
    ensures a < n ==> a % n == a
  {
    if a < n {
      QuotientUnique(a, n, 0, a);
    }
  }

  /** The remainder, by repeated subtraction. */
  function Rem(a: nat, n: Pos): (r: nat)
    ensures r < n && r <= a
    decreases a
  {
    if a < n then a else Rem(a - n, n)
  }

  lemma {:induction false} RemIsMod(a: nat, n: Pos)
    ensures Rem(a, n) == a % n
    decreases a
  {
    if a < n {
      QuotientUnique(a, n, 0, a);
    } else {
      RemIsMod(a - n, n);
      var q := (a - n) / n;
      assert a == (q + 1) * n + (a - n) % n;
      QuotientUnique(a, n, q + 1, (a - n) % n);
    }
  }

  function Fresh(start: nat, len: nat, rand: nat, now: nat): Rfc
    requires len >= 2
  {
    Rfc(start, len, Draw(len, rand), 0, false, now, Max(start + Draw(len, rand), now))
  }

  predicate Sound(p: Params, s: Rfc) {
    && Proper(p) && p.iMin <= s.len <= p.iMax && s.len / 2 <= s.offset < s.len
    && s.armed <= s.due <= s.armed + HALF
    && s.due == Max(s.start + (if s.fired then s.len else s.offset), s.armed)
  }

  function RfcStep(p: Params, s: Rfc, ev: Event): (r: (Rfc, seq<Output>))
    requires Proper(p) && s.len >= 2
    ensures r.0.len >= 2
  {
    match ev
    case Consistent => (s.(heard := s.heard + 1), [])
    case Inconsistent(now, rand) =>
      if s.len == p.iMin then (s, [])
      else (Fresh(now, p.iMin, rand, now), [Begin(now, p.iMin, Draw(p.iMin, rand))])
    case Timeout(now, rand) =>
      if !s.fired then
        (s.(fired := true, armed := now, due := Max(s.start + s.len, now)), [Transmit(p.k == 0 || s.heard < p.k)])
      else
        var len := Min(2 * s.len, p.iMax);
        (Fresh(s.start + s.len, len, rand, now), [Begin(s.start + s.len, len, Draw(len, rand))])
  }

  /** A timeout comes when it is due, or later by at most half the clock range after the interval's end. */
  predicate Admissible(s: Rfc, ev: Event) {
    ev.Timeout? ==> s.due <= ev.now <= s.start + s.len + HALF
  }

  function RfcRun(p: Params, s: Rfc, evs: seq<Event>): (r: Rfc)
    requires Proper(p) && s.len >= 2
    ensures r.len >= 2
    decreases |evs|
  {
    if evs == [] then s else RfcRun(p, RfcStep(p, s, evs[0]).0, evs[1..])
  }

  function Outputs(p: Params, s: Rfc, evs: seq<Event>): seq<Output>
    requires Proper(p) && s.len >= 2
    decreases |evs|
  {
    if evs == [] then [] else RfcStep(p, s, evs[0]).1 + Outputs(p, RfcStep(p, s, evs[0]).0, evs[1..])
  }

  predicate AdmissibleRun(p: Params, s: Rfc, evs: seq<Event>)
    requires Proper(p) && s.len >= 2
    decreases |evs|
  {
    evs == [] || (Admissible(s, evs[0]) && AdmissibleRun(p, RfcStep(p, s, evs[0]).0, evs[1..]))
  }

  /** Every event keeps the interval within its bounds and its timer within half the clock range. */
  lemma StepSound(p: Params, s: Rfc, ev: Event)
    requires Sound(p, s) && Admissible(s, ev)
    ensures Sound(p, RfcStep(p, s, ev).0)
  {
  }

  /** The code's way of doubling. */
  function Doubled(len: nat, iMax: nat): nat {
    if len <= iMax / 2 then len * 2 else iMax
  }

  lemma NextInterval(p: Params, s: Rfc, now: nat, rand: nat)
    requires Sound(p, s) && s.fired && Admissible(s, Timeout(now, rand))
    ensures var next := RfcStep(p, s, Timeout(now, rand)).0;
            && Sound(p, next) && next.start == s.start + s.len && next.len == Doubled(s.len, p.iMax)
            && next.offset == Draw(next.len, rand) && next.heard == 0 && !next.fired && next.armed == now
            && next.start <= now <= next.start + HALF
  {
    StepSound(p, s, Timeout(now, rand));
  }

  function Begins(outs: seq<Output>): seq<Output> {
    if outs == [] then [] else (if outs[0].Begin? then [outs[0]] else []) + Begins(outs[1..])
  }

  lemma BeginsCons(a: seq<Output>, outs: seq<Output>)
    requires |a| <= 1
    ensures Begins(a + outs) == if a != [] && a[0].Begin? then [a[0]] + Begins(outs) else Begins(outs)
  {
    if a == [] {
      assert a + outs == outs;
    } else {
      assert (a + outs)[1..] == outs;
      assert [] + Begins(outs) == Begins(outs);
    }
  }

  /** An inconsistent message resets the timer unless the interval is Imin already. */
  predicate Resets(p: Params, s: Rfc, ev: Event) {
    ev.Inconsistent? && s.len != p.iMin
  }

  /** No event of the run resets the timer. */
  predicate NoReset(p: Params, s: Rfc, evs: seq<Event>)
    requires Proper(p) && s.len >= 2
    decreases |evs|
  {
    evs == [] || (!Resets(p, s, evs[0]) && NoReset(p, RfcStep(p, s, evs[0]).0, evs[1..]))
  }

  /** The j-th interval: its length, its transmission point, and that it begins where the one before it ended. */
  ghost predicate Link(bs: seq<Output>, j: nat, p: Params, end: nat, len: nat) {
    && j < |bs| && bs[j].Begin?
    && bs[j].len == Min(Shl(len, j + 1), p.iMax) && bs[j].len / 2 <= bs[j].offset < bs[j].len
    && if j == 0 then bs[j].start == end else bs[j - 1].Begin? && bs[j].start == bs[j - 1].start + bs[j - 1].len
  }

  /** The intervals of a run without resets after an interval of length len that ends at `end`. */
  ghost predicate Chain(bs: seq<Output>, p: Params, end: nat, len: nat) {
    forall j | 0 <= j < |bs| :: Link(bs, j, p, end, len)
  }

  /** Between resets the n-th interval has length min(I0 * 2^n, Imax), each begins where the one before ended,
      and its transmission point is in its second half. */
  lemma {:induction false} IntervalsDouble(p: Params, s: Rfc, evs: seq<Event>)
    requires Proper(p) && 2 <= s.len <= p.iMax && NoReset(p, s, evs)
    ensures Chain(Begins(Outputs(p, s, evs)), p, s.start + s.len, s.len)
    decreases |evs|
  {
    if evs != [] {
      var r, rest := RfcStep(p, s, evs[0]), evs[1..];
      StepBegins(p, s, evs[0]);
      IntervalsDouble(p, r.0, rest);
      OutputsChain(p, s, r.0, r.1, Outputs(p, r.0, rest), Outputs(p, s, evs));
    }
  }

  lemma OutputsChain(p: Params, s: Rfc, r: Rfc, first: seq<Output>, rest: seq<Output>, outs: seq<Output>)
    requires Chain(Begins(rest), p, r.start + r.len, r.len) && OneStep(p, s, r, first) && outs == first + rest
    ensures Chain(Begins(outs), p, s.start + s.len, s.len)
  {
    BeginsCons(first, rest);
    StepChain(p, s, r, first, Begins(outs), Begins(rest));
  }

  lemma StepChain(p: Params, s: Rfc, r: Rfc, outs: seq<Output>, bs: seq<Output>, rest: seq<Output>)
    requires Chain(rest, p, r.start + r.len, r.len) && OneStep(p, s, r, outs)
    requires bs == if outs != [] && outs[0].Begin? then [outs[0]] + rest else rest
    ensures Chain(bs, p, s.start + s.len, s.len)
  {
    if outs != [] && outs[0].Begin? {
      ChainCons(outs[0], rest, p, s.start + s.len, s.len, r.start + r.len, r.len);
    } else {
      ChainSame(rest, p, r.start + r.len, r.len, s.start + s.len, s.len);
    }
  }

  lemma ChainSame(bs: seq<Output>, p: Params, end: nat, len: nat, end1: nat, len1: nat)
    requires Chain(bs, p, end, len) && end == end1 && len == len1
    ensures Chain(bs, p, end1, len1)
  {
  }

  /** A step stays in its interval, or begins the next one. */
  predicate OneStep(p: Params, s: Rfc, r: Rfc, outs: seq<Output>) {
    if outs == [] || outs[0].Transmit? then |outs| <= 1 && r.start == s.start && r.len == s.len
    else |outs| == 1 && outs[0].start == s.start + s.len
         && outs[0].len == Min(2 * s.len, p.iMax) && outs[0].len / 2 <= outs[0].offset < outs[0].len
         && r.start == outs[0].start && r.len == outs[0].len
  }

  lemma StepBegins(p: Params, s: Rfc, ev: Event)
    requires Proper(p) && 2 <= s.len <= p.iMax && !Resets(p, s, ev)
    ensures var (r, outs) := RfcStep(p, s, ev); 2 <= r.len <= p.iMax && OneStep(p, s, r, outs)
  {
  }

  lemma ChainCons(b: Output, rest: seq<Output>, p: Params, end: nat, len: nat, end1: nat, len1: nat)
    requires b.Begin? && b.start == end && end1 == b.start + b.len && len1 == b.len
    requires b.len == Min(2 * len, p.iMax) && b.len / 2 <= b.offset < b.len
    requires Chain(rest, p, end1, len1)
    ensures Chain([b] + rest, p, end, len)
  {
    var bs := [b] + rest;
    assert Shl(len, 1) == 2 * Shl(len, 0);
    forall j | 0 <= j < |bs|
      ensures Link(bs, j, p, end, len)
    {
      if j > 0 {
        assert bs[j] == rest[j - 1] && Link(rest, j - 1, p, end1, len1);
        DoubleCapped(len, p.iMax, j);
      }
    }
  }

  lemma {:induction false} DoubleCapped(len: nat, cap: nat, j: nat)
    ensures Min(Shl(Min(2 * len, cap), j), cap) == Min(Shl(len, j + 1), cap)
    decreases j
  {
    if j > 0 {
      DoubleCapped(len, cap, j - 1);
    } else {
      assert Shl(len, 1) == 2 * Shl(len, 0);
    }
  }

  // ----- resets -----

  /** The j-th interval since a reset at `now`. */
  ghost predicate ResetLink(bs: seq<Output>, j: nat, p: Params, now: nat) {
    && j < |bs| && bs[j].Begin?
    && bs[j].len == Min(Shl(p.iMin, j), p.iMax) && bs[j].len / 2 <= bs[j].offset < bs[j].len
    && if j == 0 then bs[j].start == now else bs[j - 1].Begin? && bs[j].start == bs[j - 1].start + bs[j - 1].len
  }

  /** An inconsistent message in an interval longer than Imin: the intervals from then to the next reset begin at once,
      the n-th has length min(Imin * 2^n, Imax), and each begins where the one before ended. */
  lemma ResetRestarts(p: Params, s: Rfc, now: nat, rand: nat, evs: seq<Event>)
    requires Proper(p) && p.iMin < s.len && NoReset(p, RfcStep(p, s, Inconsistent(now, rand)).0, evs)
    ensures var bs := Begins(Outputs(p, s, [Inconsistent(now, rand)] + evs));
            bs != [] && forall j | 0 <= j < |bs| :: ResetLink(bs, j, p, now)
  {
    var ev := Inconsistent(now, rand);
    var r, rest := RfcStep(p, s, ev), Begins(Outputs(p, RfcStep(p, s, ev).0, evs));
    assert ([ev] + evs)[1..] == evs;
    IntervalsDouble(p, r.0, evs);
    BeginsCons(r.1, Outputs(p, r.0, evs));
    var bs := [r.1[0]] + rest;
    forall j | 0 <= j < |bs|
      ensures ResetLink(bs, j, p, now)
    {
      assert Shl(p.iMin, 0) == p.iMin;
      assert j > 0 ==> bs[j] == rest[j - 1] && Link(rest, j - 1, p, now + p.iMin, p.iMin);
    }
  }

  /** At Imin, an inconsistent message does nothing. */
  lemma ResetAtImin(p: Params, s: Rfc, now: nat, rand: nat)
    requires Proper(p) && s.len >= 2
    ensures RfcStep(p, s, Inconsistent(now, rand)) == (s, []) <==> s.len == p.iMin
  {
  }

  // ----- suppression -----

  /** Only messages arrive, and none resets the timer. */
  predicate OnlyMessages(p: Params, s: Rfc, evs: seq<Event>) {
    forall i | 0 <= i < |evs| :: evs[i].Consistent? || (evs[i].Inconsistent? && !Resets(p, s, evs[i]))
  }

  /** How many consistent messages there are. */
  function Heard(evs: seq<Event>): nat {
    if evs == [] then 0 else (if evs[0].Consistent? then 1 else 0) + Heard(evs[1..])
  }

  /** Transmission is allowed exactly if suppression is off or fewer than k consistent messages were heard,
      however many those are. */
  lemma {:induction false} SuppressionRule(p: Params, s: Rfc, evs: seq<Event>, now: nat, rand: nat)
    requires Proper(p) && s.len >= 2 && !s.fired && OnlyMessages(p, s, evs)
    ensures Outputs(p, s, evs + [Timeout(now, rand)]) == [Transmit(p.k == 0 || s.heard + Heard(evs) < p.k)]
    decreases |evs|
  {
    var all := evs + [Timeout(now, rand)];
    if evs == [] {
      assert all == [Timeout(now, rand)] && all[1..] == [];
    } else {
      var r := RfcStep(p, s, evs[0]);
      assert all[0] == evs[0] && all[1..] == evs[1..] + [Timeout(now, rand)];
      SuppressionRule(p, r.0, evs[1..], now, rand);
      assert r.1 == [] && Outputs(p, s, all) == [] + Outputs(p, r.0, all[1..]);
    }
  }

  /** Whatever begins an interval, a timeout or a reset: at its t, transmission is allowed exactly if suppression is off
      or fewer than k consistent messages were heard since. */
  lemma SuppressionInInterval(p: Params, s: Rfc, ev: Event, evs: seq<Event>, now: nat, rand: nat)
    requires Proper(p) && s.len >= 2 && Begins(RfcStep(p, s, ev).1) != []
    requires OnlyMessages(p, RfcStep(p, s, ev).0, evs)
    ensures Outputs(p, RfcStep(p, s, ev).0, evs + [Timeout(now, rand)]) == [Transmit(p.k == 0 || Heard(evs) < p.k)]
  {
    var r := RfcStep(p, s, ev);
    BeginsCons(r.1, []);
    assert r.1 + [] == r.1;
    SuppressionRule(p, r.0, evs, now, rand);
  }

  /** Served in time, an interval transmits in its second half and ends where the next one begins. */
  lemma OnTime(p: Params, s: Rfc, ev: Event)
    requires Sound(p, s) && Admissible(s, ev) && ev.Timeout? && ev.now == s.due && s.armed <= s.start + s.offset
    ensures !s.fired ==> ev.now == s.start + s.offset && s.start + s.len / 2 <= ev.now < s.start + s.len
    ensures s.fired ==> ev.now == s.start + s.len
  {
  }

  // ----- the code -----

  datatype Callback = Idle | FireAt | EndAt

  class Timer {
    var i_min: nat
    var i_cur: nat
    var i_start: nat
    var i_max_abs: nat
    var i_max: nat
    var k: nat
    var c: nat
    /** Whether cb is set. */
    var cb: bool
    /** The ctimer: which callback is pending, the start and the interval of its timer. */
    var ct: Callback
    var ctStart: nat
    var ctInterval: nat
    /** The arguments with which the protocol was called back. */
    var calls: seq<bool>
    ghost var rfc: Rfc

    ghost function Setup(): Params
      reads this
    {
      Params(i_min, i_max_abs, k)
    }

    ghost predicate Valid()
      reads this
    {
      && k <= 255 && c <= 255 && Proper(Setup())
      && if i_cur == 0 then ct == Idle else Tracks(rfc)
    }

    /** The struct stands for s, modulo the clock range and up to saturation. */
    ghost predicate Tracks(s: Rfc)
      reads this
    {
      && Sound(Setup(), s) && cb
      && i_cur == s.len && i_start == Clock(s.start)
      && (!s.fired ==> c == Min(s.heard, 255))
      && ct == (if s.fired then EndAt else FireAt)
      && ctStart == Clock(s.armed) && ctInterval == s.due - s.armed
    }

    /** trickle_timer_config on a struct with any contents. A shift count of 32 or more is undefined in C. */
    constructor (iMin: nat, iMax: nat, k0: nat)
      requires !IminIsBad(iMin) && 0 < iMax < 31 && 0 < k0 <= 255
      ensures Valid() && i_cur == 0 && i_min == iMin && k == k0 && i_max_abs == Shl(iMin, i_max) <= HALF
      ensures Shl(iMin, iMax) <= HALF ==> i_max == iMax
      ensures Shl(iMin, iMax) > HALF ==> Shl(iMin, i_max + 1) > HALF
      ensures calls == []
    {
      i_min, i_cur, i_start, i_max_abs, i_max, k, c := 2, 0, 0, 2, 0, 0, 0;
      cb, ct, ctStart, ctInterval, calls := false, Idle, 0, 0, [];
      rfc := Rfc(0, 0, 0, 0, false, 0, 0);
      new;
      IminCheckExact(iMin);
      var done := Config(iMin, iMax, k0);
    }

    /** trickle_timer_config. It does not stop a ctimer that is pending, which then is one of a timer that counts as
        stopped. */
    method Config(iMin: nat, iMax0: nat, k0: nat) returns (done: bool)
      requires iMax0 < 31 && k0 <= 255 && c <= 255
      modifies this
      ensures done == (2 <= iMin < HALF && iMax0 > 0 && k0 > 0)
      ensures !done ==> unchanged(this)
      ensures done ==> (Valid() <==> ct == Idle) && ct == old(ct) && Proper(Setup())
      ensures done ==> i_cur == 0 && !cb && i_min == iMin && k == k0 && i_max_abs == Shl(iMin, i_max) <= HALF
      ensures done && Shl(iMin, iMax0) <= HALF ==> i_max == iMax0
      ensures done && Shl(iMin, iMax0) > HALF ==> Shl(iMin, i_max + 1) > HALF
      ensures calls == old(calls)
    {
      IminCheckExact(iMin);
      if IminIsBad(iMin) {
        return false;
      }
      if iMax0 == 0 || k0 == 0 {
        return false;
      }
      var iMax := FittingImax(iMin, iMax0);
      i_min := iMin;
      i_max := iMax;
      i_max_abs := ClockShl(iMin, iMax);
      k := k0;
      i_cur := 0;
      cb := false;
      return true;
    }

    /** The correction of Imax. */
    method FittingImax(iMin: nat, iMax0: nat) returns (iMax: nat)
      requires 2 <= iMin < HALF
      ensures iMin <= ClockShl(iMin, iMax) == Shl(iMin, iMax) <= HALF
      ensures if Shl(iMin, iMax0) <= HALF then iMax == iMax0 else Shl(iMin, iMax + 1) > HALF
    {
      iMax := iMax0;
      PairCheckExact(iMin, iMax0);
      if IpairIsBad(iMin, iMax) {
        iMax := MaxImax(iMin);
        PairCheckExact(iMin, iMax);
        PairCheckExact(iMin, iMax + 1);
      }
      Ranges();
      NoOverflow(iMin, iMax);
      ShlMonotone(iMin, 0, iMax);
    }

    /** get_t. */
    method GetT(i: nat, rand: nat) returns (t: nat)
      requires i >= 2
      ensures t == Draw(i, rand)
    {
      var half := i / 2;
      RemIsMod(rand, half);
      t := half + rand % half;
    }

    method CtimerSet(callback: Callback, interval: nat, clock: nat)
      modifies `ct, `ctStart, `ctInterval
      ensures ct == callback && ctStart == clock && ctInterval == interval
    {
      ct, ctStart, ctInterval := callback, clock, interval;
    }

    /** The interval begins now: nothing heard, and the transmission due in its second half. */
    ghost predicate Begun(clock: nat, rand: nat)
      reads this
    {
      && i_start == clock && c == 0 && i_cur >= 2
      && ct == FireAt && ctStart == clock && i_cur / 2 <= ctInterval < i_cur && ctInterval == Draw(i_cur, rand)
    }

    /** new_interval. */
    method NewInterval(clock: nat, rand: nat, ghost now: nat)
      requires cb && k <= 255 && Proper(Setup()) && i_min <= i_cur <= i_max_abs && clock == Clock(now)
      modifies this
      ensures Valid() && rfc == Fresh(now, old(i_cur), rand, now) && i_cur == old(i_cur) && Begun(clock, rand)
      ensures Setup() == old(Setup()) && calls == old(calls)
    {
      FreshSound(Setup(), i_cur, rand, now);
      c := 0;
      var t := GetT(i_cur, rand);
      CtimerSet(FireAt, t, clock);
      i_start := ctStart;
      Follow(Fresh(now, i_cur, rand, now));
    }

    /** From here on the struct stands for next. */
    ghost method Follow(next: Rfc)
      requires k <= 255 && c <= 255 && i_cur != 0 && Tracks(next)
      modifies `rfc
      ensures Valid() && rfc == next
    {
      rfc := next;
    }

    /** trickle_timer_set. The first interval may have any length in [Imin, Imax]. */
    method Set(hasCallback: bool, clock: nat, rand0: nat, rand: nat, ghost now: nat) returns (done: bool)
      requires Valid() && clock == Clock(now)
      modifies this
      ensures done == hasCallback && (!done ==> unchanged(this))
      ensures done ==> Valid() && i_min <= i_cur <= i_max_abs && rfc == Fresh(now, i_cur, rand, now)
      ensures done ==> Begun(clock, rand)
      ensures done && rand0 <= i_max_abs - i_min ==> i_cur == i_min + rand0
      ensures Setup() == old(Setup()) && calls == old(calls)
    {
      if !hasCallback {
        return false;
      }
      cb := true;
      SmallRemainder(rand0, i_max_abs - i_min + 1);
      i_cur := i_min + rand0 % (i_max_abs - i_min + 1);
      NewInterval(clock, rand, now);
      return true;
    }

    /** trickle_timer_stop. */
    method Stop()
      requires Valid()
      modifies `ct, `i_cur
      ensures Valid() && i_cur == 0
    {
      ct := Idle;
      i_cur := 0;
    }

    /** trickle_timer_consistency. The counter stops at 255. */
    method Consistency()
      requires Valid()
      modifies `c, `rfc
      ensures Valid() && (i_cur == 0 ==> c == old(c))
      ensures i_cur != 0 ==> rfc == RfcStep(Setup(), old(rfc), Consistent).0 && c == Min(old(c) + 1, 255)
    {
      if i_cur == 0 {
        return;
      }
      rfc := RfcStep(Setup(), rfc, Consistent).0;
      if c < 0xFF {
        c := c + 1;
      }
    }

    /** trickle_timer_inconsistency. */
    method Inconsistency(clock: nat, rand: nat, ghost now: nat)
      requires Valid() && clock == Clock(now)
      modifies this
      ensures Valid() && Setup() == old(Setup()) && calls == old(calls)
      ensures old(i_cur) == 0 || old(i_cur) == i_min ==> unchanged(this)
      ensures old(i_cur) != 0 && old(i_cur) != i_min ==> i_cur == i_min && Begun(clock, rand)
      ensures old(i_cur) != 0 ==> i_cur != 0 && rfc == RfcStep(Setup(), old(rfc), Inconsistent(now, rand)).0
    {
      if i_cur == 0 {
        return;
      }
      if i_cur != i_min {
        i_cur := i_min;
        NewInterval(clock, rand, now);
      }
    }

    /** fire: the callback of the protocol, then the timer for the end of the interval. */
    method Fire(clock: nat, ghost now: nat, ghost rand: nat)
      requires Valid() && ct == FireAt && clock == Clock(now) && Admissible(rfc, Timeout(now, rand))
      modifies this
      ensures Valid() && i_cur != 0 && Setup() == old(Setup())
      ensures rfc == RfcStep(Setup(), old(rfc), Timeout(now, rand)).0
      ensures calls == old(calls) + Calls(RfcStep(Setup(), old(rfc), Timeout(now, rand)).1)
      ensures calls == old(calls) + [k == 0 || old(c) < k] && i_cur == old(i_cur) && i_start == old(i_start)
    {
      ghost var p, s := Setup(), rfc;
      StepSound(p, s, Timeout(now, rand));
      CallBack(clock, p, RfcStep(p, s, Timeout(now, rand)).0);
    }

    method CallBack(clock: nat, ghost p: Params, ghost next: Rfc)
      requires Valid() && ct == FireAt && p == Setup() && Sound(p, next) && clock == Clock(next.armed)
      requires SameInterval(rfc, next) && next.fired && next.due == Max(rfc.start + rfc.len, next.armed)
      requires rfc.start + rfc.len / 2 <= next.armed <= rfc.start + rfc.len + HALF
      modifies this
      ensures Valid() && i_cur != 0 && Setup() == p && rfc == next
      ensures calls == old(calls) + [p.k == 0 || next.heard < p.k]
    {
      if cb {
        calls := calls + [k == 0 || c < k];
      }
      if i_cur != 0 {
        ScheduleForEnd(clock, next.armed);
      }
      Follow(next);
    }

    /** schedule_for_end: at the end of the interval, or at once if that has passed. */
    method ScheduleForEnd(clock: nat, ghost now: nat)
      requires i_start == Clock(rfc.start) && i_cur == rfc.len <= HALF && clock == Clock(now)
      requires rfc.start + rfc.len / 2 <= now <= rfc.start + rfc.len + HALF
      modifies `ct, `ctStart, `ctInterval
      ensures ct == EndAt && ctStart == clock && ctInterval == Max(rfc.start + rfc.len, now) - now
    {
      Ranges();
      PlusClock(rfc.start, i_cur);
      DelayTo(rfc.start + rfc.len, now);
      var local := Minus(Plus(i_start, i_cur), clock);
      if local > Shr(CLOCK_MAX, 1) {
        local := 0;
      }
      CtimerSet(EndAt, local, clock);
    }

    /** double_interval: the next interval begins where this one ended, whenever this is called. */
    method DoubleInterval(clock: nat, rand: nat, ghost now: nat)
      requires Valid() && ct == EndAt && clock == Clock(now) && Admissible(rfc, Timeout(now, rand))
      modifies this
      ensures Valid() && i_cur == Min(2 * old(i_cur), i_max_abs) && Setup() == old(Setup()) && calls == old(calls)
      ensures i_start == Plus(old(i_start), old(i_cur)) && c == 0 && ct == FireAt
      ensures rfc == RfcStep(Setup(), old(rfc), Timeout(now, rand)).0
    {
      ghost var p, s := Setup(), rfc;
      Ranges();
      PlusClock(s.start, s.len);
      NextInterval(p, s, now, rand);
      BeginNext(clock, rand, p, RfcStep(p, s, Timeout(now, rand)).0);
    }

    method BeginNext(clock: nat, rand: nat, ghost p: Params, ghost next: Rfc)
      requires Valid() && ct == EndAt && p == Setup() && Sound(p, next) && clock == Clock(next.armed)
      requires next.start == rfc.start + rfc.len && next.len == Doubled(rfc.len, p.iMax)
      requires next.offset == Draw(next.len, rand) && next.heard == 0 && !next.fired
      requires next.start <= next.armed <= next.start + HALF
      modifies this
      ensures Valid() && i_cur != 0 && Setup() == p && calls == old(calls) && rfc == next
    {
      var last_end, local := NextDelay(clock, rand, p.iMax, rfc.start, next);
      Enter(clock, last_end, local, next);
    }

    /** The last part of double_interval. */
    method Enter(clock: nat, last_end: nat, local: nat, ghost next: Rfc)
      requires Sound(Setup(), next) && !next.fired && next.heard == 0 && c == 0 && cb && k <= 255
      requires i_cur == next.len && last_end == Clock(next.start) && clock == Clock(next.armed)
      requires local == next.due - next.armed
      modifies `ct, `ctStart, `ctInterval, `i_start, `rfc
      ensures Valid() && rfc == next
    {
      CtimerSet(FireAt, local, clock);
      i_start := last_end;
      Follow(next);
    }

    /** The first part of double_interval: the end of the interval, the next length, and the delay to its t. */
    method NextDelay(clock: nat, rand: nat, ghost iMax: nat, ghost start: nat, ghost next: Rfc)
      returns (last_end: nat, local: nat)
      requires i_start == Clock(start) && 2 <= i_cur <= i_max_abs == iMax <= HALF && clock == Clock(next.armed)
      requires next.start == start + i_cur && next.len == Doubled(i_cur, iMax) && next.offset == Draw(next.len, rand)
      requires next.start <= next.armed <= next.start + HALF && next.due == Max(next.start + next.offset, next.armed)
      modifies `c, `i_cur
      ensures c == 0 && i_cur == next.len && last_end == Clock(next.start) && local == next.due - next.armed
    {
      c := 0;
      last_end := LengthenInterval(start);
      var t := GetT(i_cur, rand);
      local := Compensate(last_end, t, clock, next.armed, next.start);
    }

    /** The end of the interval, and the length of the next one. */
    method LengthenInterval(ghost start: nat) returns (last_end: nat)
      requires i_start == Clock(start) && 0 < i_cur <= HALF
      modifies `i_cur
      ensures last_end == Clock(start + old(i_cur)) && i_cur == Doubled(old(i_cur), i_max_abs)
    {
      Ranges();
      PlusClock(start, i_cur);
      last_end := Plus(i_start, i_cur);
      if i_cur <= i_max_abs / 2 {
        i_cur := i_cur * 2;
      } else {
        i_cur := i_max_abs;
      }
    }

    /** The drift compensation of double_interval. */
    method Compensate(last_end: nat, t: nat, clock: nat, ghost now: nat, ghost end: nat) returns (local: nat)
      requires last_end == Clock(end) && t < HALF && clock == Clock(now) && end <= now <= end + HALF
      ensures local == Max(end + t, now) - now
    {
      Ranges();
      PlusClock(end, t);
      DelayTo(end + t, now);
      local := Minus(Plus(last_end, t), clock);
      if local > Shr(CLOCK_MAX, 1) {
        local := 0;
      }
    }

    /** One event of a run. */
    method Handle(ev: Event)
      requires Valid() && i_cur != 0 && Admissible(rfc, ev)
      modifies this
      ensures Valid() && i_cur != 0 && Setup() == old(Setup())
      ensures rfc == RfcStep(Setup(), old(rfc), ev).0
      ensures calls == old(calls) + Calls(RfcStep(Setup(), old(rfc), ev).1)
    {
      match ev
      case Consistent => Consistency();
      case Inconsistent(now, rand) => Inconsistency(Clock(now), rand, now);
      case Timeout(now, rand) =>
        if ct == FireAt {
          Fire(Clock(now), now, rand);
        } else {
          DoubleInterval(Clock(now), rand, now);
        }
    }

    /** Every run of the code is a run of the rules, and calls the protocol back with their outputs. */
    method Run(evs: seq<Event>)
      requires Valid() && i_cur != 0 && AdmissibleRun(Setup(), rfc, evs)
      modifies this
      ensures Valid() && i_cur != 0 && Setup() == old(Setup())
      ensures rfc == RfcRun(Setup(), old(rfc), evs)
      ensures calls == old(calls) + Calls(Outputs(Setup(), old(rfc), evs))
    {
      ghost var p, s0, c0 := Setup(), rfc, calls;
      assert evs[0..] == evs && c0 + [] == c0;
      ghost var outs := [];
      for i := 0 to |evs|
        invariant Valid() && i_cur != 0 && Setup() == p && AdmissibleRun(p, rfc, evs[i..])
        invariant RfcRun(p, rfc, evs[i..]) == RfcRun(p, s0, evs)
        invariant outs + Outputs(p, rfc, evs[i..]) == Outputs(p, s0, evs) && calls == c0 + Calls(outs)
      {
        ghost var step, rest := RfcStep(p, rfc, evs[i]), evs[i + 1..];
        assert evs[i..][0] == evs[i] && evs[i..][1..] == rest;
        CallsConcat(outs, step.1);
        OutputsRegroup(outs, step.1, Outputs(p, step.0, rest));
        CallsRegroup(c0, Calls(outs), Calls(step.1));
        Handle(evs[i]);
        outs := outs + step.1;
      }
      assert evs[|evs|..] == [] && outs + [] == outs;
    }
  }

  predicate SameInterval(s: Rfc, next: Rfc) {
    next.start == s.start && next.len == s.len && next.offset == s.offset && next.heard == s.heard
  }

  lemma FreshSound(p: Params, len: nat, rand: nat, now: nat)
    requires Proper(p) && p.iMin <= len <= p.iMax
    ensures var s := Fresh(now, len, rand, now);
            && Sound(p, s) && s.len == len && s.start == s.armed == now && s.due == now + Draw(len, rand)
            && s.heard == 0 && !s.fired
  {
  }

  /** How long to wait at `now` for the point x, as the code computes it. */
  lemma DelayTo(x: nat, now: nat)
    requires x < now + HALF && now <= x + HALF
    ensures var local := Minus(Clock(x), Clock(now));
            (if local > Shr(CLOCK_MAX, 1) then 0 else local) == Max(x, now) - now
  {
    Ranges();
    MinusClock(x, now);
    DelayFrom(x, now, Minus(Clock(x), Clock(now)));
  }

  lemma DelayFrom(x: nat, now: nat, local: int)
    requires x < now + HALF && now <= x + HALF
    requires (now <= x ==> local == x - now) && (x < now ==> local == x - now + RANGE)
    ensures (if local > Shr(CLOCK_MAX, 1) then 0 else local) == Max(x, now) - now
  {
    Ranges();
    HalfOfMax();
  }

  function Calls(outs: seq<Output>): seq<bool> {
    if outs == [] then [] else (if outs[0].Transmit? then [outs[0].allowed] else []) + Calls(outs[1..])
  }

  lemma {:induction false} CallsConcat(a: seq<Output>, b: seq<Output>)
    ensures Calls(a + b) == Calls(a) + Calls(b)
  {
    if a == [] {
      assert a + b == b;
    } else {
      assert (a + b)[0] == a[0] && (a + b)[1..] == a[1..] + b;
      CallsConcat(a[1..], b);
    }
  }

  lemma OutputsRegroup(a: seq<Output>, b: seq<Output>, c: seq<Output>)
    ensures a + (b + c) == (a + b) + c
  {
  }

  lemma CallsRegroup(a: seq<bool>, b: seq<bool>, c: seq<bool>)
    ensures a + (b + c) == (a + b) + c
  {
  }
}
