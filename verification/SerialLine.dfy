/**
 os/dev/serial-line.c: the interrupt side feeds bytes into a ring and drops the rest of a line when the ring
 is full; the process assembles lines from what comes out.
 */
module SerialLine {
  import opened Options
  import opened RingBuf

  const END: bv8 := 0x0a
  const END2: bv8 := 0x0d

  type BufferSize = n: nat | n > 0 && IsMask(n - 1) witness 128

  /** BUFSIZE, 128 unless configured. */
  const BUFSIZE: BufferSize

  predicate IsEnd(c: bv8) {
    c == END || c == END2
  }

  // ----- lines of a byte stream -----

  /** The complete lines and the bytes after the last terminator. */
  datatype Text = Text(lines: seq<seq<bv8>>, cur: seq<bv8>)

  const NO_TEXT: Text := Text([], [])

  function AddByte(t: Text, c: bv8): Text {
    if IsEnd(c) then Text(t.lines + [t.cur], []) else t.(cur := t.cur + [c])
  }

  function Split(t: Text, s: seq<bv8>): Text
    decreases |s|
  {
    if s == [] then t else Split(AddByte(t, s[0]), s[1..])
  }

  lemma {:induction false} SplitSnoc(t: Text, s: seq<bv8>, c: bv8)
    ensures Split(t, s + [c]) == AddByte(Split(t, s), c)
    decreases |s|
  {
    if s == [] {
      assert s + [c] == [c] && [c][1..] == [];
    } else {
      assert (s + [c])[0] == s[0] && (s + [c])[1..] == s[1..] + [c];
      SplitSnoc(AddByte(t, s[0]), s[1..], c);
    }
  }

  ghost predicate NoTerminator(s: seq<bv8>) {
    0x0a !in s && 0x0d !in s
  }

  /** The lines, each with its terminator. */
  function Joined(lines: seq<seq<bv8>>, ends: seq<bv8>): seq<bv8>
    requires |lines| == |ends|
  {
    if lines == [] then []
    else var k := |lines| - 1;
         Joined(lines[..k], ends[..k]) + lines[k] + [ends[k]]
  }

  /** `text` is s cut at its newlines and carriage returns, which are `ends`. */
  ghost predicate CutAt(s: seq<bv8>, text: Text, ends: seq<bv8>) {
    && |ends| == |text.lines| && (forall i | 0 <= i < |ends| :: ends[i] == 0x0a || ends[i] == 0x0d)
    && (forall i | 0 <= i < |text.lines| :: NoTerminator(text.lines[i])) && NoTerminator(text.cur)
    && s == Joined(text.lines, ends) + text.cur
  }

  /** The lines are what lies between the terminators: with these put back they make up the stream. */
  lemma {:induction false} SplitExact(s: seq<bv8>) returns (ends: seq<bv8>)
    ensures CutAt(s, Split(NO_TEXT, s), ends)
    decreases |s|
  {
    if s == [] {
      ends := [];
    } else {
      var k := |s| - 1;
      assert s == s[..k] + [s[k]];
      SplitSnoc(NO_TEXT, s[..k], s[k]);
      var t := Split(NO_TEXT, s[..k]);
      ends := SplitExact(s[..k]);
      ends := CutOneMore(s[..k], t, ends, s[k]);
    }
  }

  lemma CutOneMore(s: seq<bv8>, t: Text, ends: seq<bv8>, c: bv8) returns (ends': seq<bv8>)
    requires CutAt(s, t, ends)
    ensures CutAt(s + [c], AddByte(t, c), ends')
  {
    if IsEnd(c) {
      ends' := ends + [c];
      var lines := t.lines + [t.cur];
      assert lines[..|t.lines|] == t.lines && ends'[..|ends|] == ends;
      assert Joined(lines, ends') + [] == s + [c];
    } else {
      ends' := ends;
      assert s + [c] == Joined(t.lines, ends) + (t.cur + [c]);
    }
  }

  /** Complete lines stay as they are. */
  lemma {:induction false} SplitExtends(t: Text, s: seq<bv8>)
    ensures |t.lines| <= |Split(t, s).lines| && Split(t, s).lines[..|t.lines|] == t.lines
    decreases |s|
  {
    if s != [] {
      var u := AddByte(t, s[0]);
      SplitExtends(u, s[1..]);
      assert u.lines[..|t.lines|] == t.lines;
      assert Split(t, s).lines[..|t.lines|] == Split(t, s).lines[..|u.lines|][..|t.lines|];
    }
  }

  // ----- the module as a state machine -----

  /** Ring contents, overflow flag, buf[..ptr], and the lines posted so far. */
  datatype Serial = Serial(q: seq<bv8>, overflow: bool, buf: seq<bv8>, posted: seq<seq<bv8>>)

  const SERIAL_INIT: Serial := Serial([], false, [], [])

  /** An interrupt with a byte, or one turn of the process loop. */
  datatype Event = Input(c: bv8) | Consume

  predicate Offered(s: Serial, c: bv8) {
    !s.overflow || IsEnd(c)
  }

  /** The byte gets into the ring. */
  predicate Taken(s: Serial, c: bv8) {
    Offered(s, c) && |s.q| < BUFSIZE - 1
  }

  /** serial_line_input_byte. */
  function InputStep(s: Serial, c: bv8): Serial {
    if Taken(s, c) then s.(q := s.q + [c], overflow := false) else s.(overflow := true)
  }

  function Append(buf: seq<bv8>, c: bv8): seq<bv8> {
    if |buf| < BUFSIZE - 1 then buf + [c] else buf
  }

  /** One turn of serial_line_process. */
  function ConsumeStep(s: Serial): Serial {
    if s.q == [] then s
    else if IsEnd(s.q[0]) then s.(q := s.q[1..], buf := [], posted := s.posted + [s.buf])
    else s.(q := s.q[1..], buf := Append(s.buf, s.q[0]))
  }

  function Step(s: Serial, ev: Event): Serial {
    match ev
    case Input(c) => InputStep(s, c)
    case Consume => ConsumeStep(s)
  }

  function Run(s: Serial, evs: seq<Event>): Serial
    decreases |evs|
  {
    if evs == [] then s else Run(Step(s, evs[0]), evs[1..])
  }

  function Inputs(evs: seq<Event>): seq<bv8> {
    if evs == [] then [] else (if evs[0].Input? then [evs[0].c] else []) + Inputs(evs[1..])
  }

  // ----- the invariant -----

  function Cut(l: seq<bv8>): seq<bv8> {
    if |l| <= BUFSIZE - 1 then l else l[..BUFSIZE - 1]
  }

  function LineAt(t: Text, i: nat): seq<bv8>
    requires i <= |t.lines|
  {
    if i < |t.lines| then t.lines[i] else t.cur
  }

  predicate Before(idx: seq<nat>, i: nat, j: nat) {
    i < j < |idx| && idx[i] < idx[j]
  }

  /** Each line of `out` is a prefix of the line of `text` that idx names, and idx goes up. */
  ghost predicate PrefixesAt(out: seq<seq<bv8>>, text: seq<seq<bv8>>, idx: seq<nat>) {
    && |idx| == |out|
    && (forall j | 0 <= j < |out| :: idx[j] < |text| && out[j] <= text[idx[j]])
    && (forall i, j {:trigger Before(idx, i, j)} | 0 <= i < j < |idx| :: Before(idx, i, j))
  }

  /** `inp` is all input, `out` all of it that entered the ring, `taken` the part of that which the process saw. */
  ghost predicate Holds(s: Serial, inp: Text, out: Text, taken: Text, idx: seq<nat>, at: nat) {
    && |s.q| <= BUFSIZE - 1 && |s.buf| <= BUFSIZE - 1
    && Split(taken, s.q) == out
    && s.buf == Cut(taken.cur)
    && |s.posted| == |taken.lines| && (forall j | 0 <= j < |s.posted| :: s.posted[j] == Cut(taken.lines[j]))
    && PrefixesAt(out.lines, inp.lines, idx)
    && at <= |inp.lines| && (forall j | 0 <= j < |idx| :: idx[j] < at)
    && out.cur <= LineAt(inp, at)
    && (!s.overflow ==> at == |inp.lines| && out.cur == inp.cur)
  }

  lemma PrefixesGrow(out: seq<seq<bv8>>, text: seq<seq<bv8>>, idx: seq<nat>, l: seq<bv8>)
    requires PrefixesAt(out, text, idx)
    ensures PrefixesAt(out, text + [l], idx)
  {
    var more := text + [l];
    assert forall j | 0 <= j < |out| :: idx[j] < |more| && more[idx[j]] == text[idx[j]];
  }

  lemma PrefixesSnoc(out: seq<seq<bv8>>, text: seq<seq<bv8>>, idx: seq<nat>, l: seq<bv8>, at: nat)
    requires PrefixesAt(out, text, idx) && at < |text| && l <= text[at]
    requires forall j | 0 <= j < |idx| :: idx[j] < at
    ensures PrefixesAt(out + [l], text, idx + [at])
  {
    var idx1, out1 := idx + [at], out + [l];
    forall i, j | 0 <= i < j < |idx1|
      ensures Before(idx1, i, j)
    {
      assert j < |idx| ==> Before(idx, i, j);
    }
  }

  /** The producer's part: what entered the ring is, line by line, a prefix of a line of the input. */
  lemma InputLine(s: Serial, inp: Text, out: Text, taken: Text, idx: seq<nat>, at: nat, c: bv8)
    returns (out': Text, idx': seq<nat>, at': nat)
    requires Holds(s, inp, out, taken, idx, at)
    ensures Holds(InputStep(s, c), AddByte(inp, c), out', taken, idx', at')
    ensures out' == if Taken(s, c) then AddByte(out, c) else out
  {
    out', idx', at' := out, idx, at;
    if IsEnd(c) {
      PrefixesGrow(out.lines, inp.lines, idx, inp.cur);
    }
    if Taken(s, c) {
      SplitSnoc(taken, s.q, c);
      out' := AddByte(out, c);
      if IsEnd(c) {
        PrefixesSnoc(out.lines, inp.lines + [inp.cur], idx, out.cur, at);
        idx', at' := idx + [at], |inp.lines| + 1;
      }
    }
  }

  /** The consumer's part: it posts the lines it sees, cut to the size of its buffer. */
  lemma ConsumeLine(s: Serial, inp: Text, out: Text, taken: Text, idx: seq<nat>, at: nat) returns (taken': Text)
    requires Holds(s, inp, out, taken, idx, at)
    ensures Holds(ConsumeStep(s), inp, out, taken', idx, at)
  {
    taken' := if s.q == [] then taken else AddByte(taken, s.q[0]);
  }

  lemma {:induction false} RunHolds(s: Serial, inp: Text, out: Text, taken: Text, idx: seq<nat>, at: nat,
                                    evs: seq<Event>)
    returns (out': Text, taken': Text, idx': seq<nat>, at': nat)
    requires Holds(s, inp, out, taken, idx, at)
    ensures Holds(Run(s, evs), Split(inp, Inputs(evs)), out', taken', idx', at')
    decreases |evs|
  {
    if evs == [] {
      out', taken', idx', at' := out, taken, idx, at;
    } else if evs[0].Input? {
      var c, rest := evs[0].c, Inputs(evs[1..]);
      var out1, idx1, at1 := InputLine(s, inp, out, taken, idx, at, c);
      out', taken', idx', at' := RunHolds(InputStep(s, c), AddByte(inp, c), out1, taken, idx1, at1, evs[1..]);
      assert ([c] + rest)[0] == c && ([c] + rest)[1..] == rest;
    } else {
      var taken1 := ConsumeLine(s, inp, out, taken, idx, at);
      out', taken', idx', at' := RunHolds(ConsumeStep(s), inp, out, taken1, idx, at, evs[1..]);
      assert [] + Inputs(evs[1..]) == Inputs(evs[1..]);
    }
  }

  /** Every interleaving: each posted line is a prefix of one input line, in input order and without two of
      one line, so none mixes bytes of two lines; and the write index stays below BUFSIZE. */
  lemma PostedLinesAreInputLines(evs: seq<Event>) returns (idx: seq<nat>)
    ensures PrefixesAt(Run(SERIAL_INIT, evs).posted, Split(NO_TEXT, Inputs(evs)).lines, idx)
    ensures |Run(SERIAL_INIT, evs).buf| <= BUFSIZE - 1
  {
    var inp := Split(NO_TEXT, Inputs(evs));
    var s := Run(SERIAL_INIT, evs);
    assert Holds(SERIAL_INIT, NO_TEXT, NO_TEXT, NO_TEXT, [], 0);
    var out, taken, idx', at := RunHolds(SERIAL_INIT, NO_TEXT, NO_TEXT, NO_TEXT, [], 0, evs);
    SplitExtends(taken, s.q);
    idx := idx'[..|s.posted|];
    PostedPrefixes(s.posted, taken.lines, out.lines, inp.lines, idx');
  }

  lemma PostedPrefixes(posted: seq<seq<bv8>>, taken: seq<seq<bv8>>, out: seq<seq<bv8>>, text: seq<seq<bv8>>,
                       idx: seq<nat>)
    requires |posted| == |taken| <= |out| && out[..|taken|] == taken
    requires forall j | 0 <= j < |posted| :: posted[j] == Cut(taken[j])
    requires PrefixesAt(out, text, idx)
    ensures PrefixesAt(posted, text, idx[..|posted|])
  {
    var some := idx[..|posted|];
    forall j | 0 <= j < |posted|
      ensures some[j] < |text| && posted[j] <= text[some[j]]
    {
      assert taken[j] == out[j];
    }
    forall i, j | 0 <= i < j < |some|
      ensures Before(some, i, j)
    {
      assert Before(idx, i, j);
    }
  }

  // ----- without overflow nothing is lost -----

  /** No byte of the run finds the ring full. */
  predicate NoneRefused(s: Serial, evs: seq<Event>)
    decreases |evs|
  {
    evs == [] || ((evs[0].Input? ==> Taken(s, evs[0].c)) && NoneRefused(Step(s, evs[0]), evs[1..]))
  }

  lemma {:induction false} RunLossless(s: Serial, inp: Text, out: Text, taken: Text, idx: seq<nat>, at: nat,
                                       evs: seq<Event>) returns (taken': Text)
    requires Holds(s, inp, out, taken, idx, at) && NoneRefused(s, evs)
    ensures var s' := Run(s, evs);
            && Split(taken', s'.q) == Split(out, Inputs(evs)) && |s'.posted| == |taken'.lines|
            && forall j | 0 <= j < |s'.posted| :: s'.posted[j] == Cut(taken'.lines[j])
    decreases |evs|
  {
    if evs == [] {
      taken' := taken;
    } else if evs[0].Input? {
      var c, rest := evs[0].c, Inputs(evs[1..]);
      var out1, idx1, at1 := InputLine(s, inp, out, taken, idx, at, c);
      taken' := RunLossless(InputStep(s, c), AddByte(inp, c), out1, taken, idx1, at1, evs[1..]);
      assert ([c] + rest)[0] == c && ([c] + rest)[1..] == rest;
    } else {
      var taken1 := ConsumeLine(s, inp, out, taken, idx, at);
      taken' := RunLossless(ConsumeStep(s), inp, out, taken1, idx, at, evs[1..]);
      assert [] + Inputs(evs[1..]) == Inputs(evs[1..]);
    }
  }

  /** If no byte finds the ring full, the lines posted are the first lines of the input, each cut to
      BUFSIZE - 1 bytes, and all of them once the ring is empty. */
  lemma NoOverflowNoLoss(evs: seq<Event>)
    requires NoneRefused(SERIAL_INIT, evs)
    ensures var s, lines := Run(SERIAL_INIT, evs), Split(NO_TEXT, Inputs(evs)).lines;
            && |s.posted| <= |lines| && (s.q == [] ==> |s.posted| == |lines|)
            && forall j | 0 <= j < |s.posted| ::
                 s.posted[j] == if |lines[j]| < BUFSIZE then lines[j] else lines[j][..BUFSIZE - 1]
  {
    assert Holds(SERIAL_INIT, NO_TEXT, NO_TEXT, NO_TEXT, [], 0);
    var taken := RunLossless(SERIAL_INIT, NO_TEXT, NO_TEXT, NO_TEXT, [], 0, evs);
    var s, lines := Run(SERIAL_INIT, evs), Split(NO_TEXT, Inputs(evs)).lines;
    SplitExtends(taken, s.q);
    forall j | 0 <= j < |s.posted|
      ensures s.posted[j] == Cut(lines[j])
    {
      assert taken.lines[j] == lines[..|taken.lines|][j];
    }
  }

  /** Overflow ends with the first terminator that fits: from then on lines are whole again. */
  lemma OverflowEnds(s: Serial, inp: Text, out: Text, taken: Text, idx: seq<nat>, at: nat, c: bv8)
    requires Holds(s, inp, out, taken, idx, at) && s.overflow
    ensures !InputStep(s, c).overflow <==> IsEnd(c) && |s.q| < BUFSIZE - 1
    ensures !InputStep(s, c).overflow ==>
              exists out', idx', at' :: Holds(InputStep(s, c), AddByte(inp, c), out', taken, idx', at')
                                        && out'.lines == out.lines + [out.cur] && out'.cur == AddByte(inp, c).cur == []
  {
    var out', idx', at' := InputLine(s, inp, out, taken, idx, at, c);
  }

  // ----- over the single steps of the ring -----

  /** The module with the ring in the middle of its calls. */
  datatype Fine = Fine(r: Ring, overflow: bool, buf: seq<bv8>, posted: seq<seq<bv8>>)

  /** One access to shared memory: by the interrupt, which takes byte c when it is not in the middle of a put, or by
      the process. */
  datatype FineMove = Interrupt(c: bv8) | Turn

  /** The events of the coarse machine that a move completes. */
  function Completes(f: Fine, m: FineMove): seq<Event>
    requires Shaped(f.r)
  {
    match m
    case Interrupt(c) =>
      if f.r.p.PutIdle? && f.overflow && !IsEnd(c) then [Input(c)]
      else
        var replies := PutStep(f.r, c).1;
        if replies == [] then [] else [Input(replies[0].c)]
    case Turn => if GetStep(f.r).1 == [] then [] else [Consume]
  }

  /** The byte that an interrupt begins with. */
  function Begins(f: Fine, m: FineMove): seq<bv8> {
    if m.Interrupt? && f.r.p.PutIdle? then [m.c] else []
  }

  /** The byte of a put that is under way. */
  function Pending(f: Fine): seq<bv8> {
    if f.r.p.PutIdle? then [] else [f.r.p.c]
  }

  function FineStep(f: Fine, m: FineMove): (f': Fine)
    requires Shaped(f.r)
    ensures Shaped(f'.r)
  {
    match m
    case Interrupt(c) =>
      if f.r.p.PutIdle? && f.overflow && !IsEnd(c) then f
      else
        var (r, replies) := PutStep(f.r, c);
        f.(r := r, overflow := if replies == [] then f.overflow else replies[0].Full?)
    case Turn =>
      var (r, replies) := GetStep(f.r);
      if replies == [] || replies[0].Empty? then f.(r := r)
      else if IsEnd(replies[0].c) then Fine(r, f.overflow, [], f.posted + [f.buf])
      else Fine(r, f.overflow, Append(f.buf, replies[0].c), f.posted)
  }

  function FineRun(f: Fine, moves: seq<FineMove>): (f': Fine)
    requires Shaped(f.r)
    ensures Shaped(f'.r)
    decreases |moves|
  {
    if moves == [] then f else FineRun(FineStep(f, moves[0]), moves[1..])
  }

  function Events(f: Fine, moves: seq<FineMove>): seq<Event>
    requires Shaped(f.r)
    decreases |moves|
  {
    if moves == [] then [] else Completes(f, moves[0]) + Events(FineStep(f, moves[0]), moves[1..])
  }

  /** The bytes that interrupts came with. */
  function Arrived(f: Fine, moves: seq<FineMove>): seq<bv8>
    requires Shaped(f.r)
    decreases |moves|
  {
    if moves == [] then [] else Begins(f, moves[0]) + Arrived(FineStep(f, moves[0]), moves[1..])
  }

  /** The ring holds q, and a put under way is one that the overflow flag lets through. */
  ghost predicate Shows(f: Fine, s: Serial) {
    && RingBuf.Holds(f.r, s.q) && f.r.mask == BUFSIZE - 1
    && s.overflow == f.overflow && s.buf == f.buf && s.posted == f.posted
    && (!f.r.p.PutIdle? ==> Offered(s, f.r.p.c))
  }

  /** Each single step completes one event of the coarse machine or is invisible to it. */
  lemma FineStepRefines(f: Fine, s: Serial, m: FineMove) returns (s': Serial)
    requires Shows(f, s)
    ensures Shows(FineStep(f, m), s') && s' == Run(s, Completes(f, m))
    ensures Pending(f) + Begins(f, m) == Inputs(Completes(f, m)) + Pending(FineStep(f, m))
  {
    match m
    case Interrupt(c) => s' := InterruptRefines(f, s, c);
    case Turn => s' := TurnRefines(f, s);
  }

  lemma InterruptRefines(f: Fine, s: Serial, c: bv8) returns (s': Serial)
    requires Shows(f, s)
    ensures Shows(FineStep(f, Interrupt(c)), s') && s' == Run(s, Completes(f, Interrupt(c)))
    ensures Pending(f) + Begins(f, Interrupt(c))
         == Inputs(Completes(f, Interrupt(c))) + Pending(FineStep(f, Interrupt(c)))
  {
    var b := if f.r.p.PutIdle? then c else f.r.p.c;
    RunOneInput(s, b);
    if f.r.p.PutIdle? && f.overflow && !IsEnd(c) {
      s' := InputStep(s, c);
    } else {
      var replies := PutStep(f.r, c).1;
      var q' := PutRefines(f.r, s.q, c);
      FifoOne(s.q, replies, f.r.mask);
      s' := if replies == [] then s else InputStep(s, b);
      assert s'.q == q';
    }
  }

  lemma RunOneInput(s: Serial, c: bv8)
    ensures Run(s, [Input(c)]) == InputStep(s, c) && Run(s, []) == s
    ensures Inputs([Input(c)]) == [c] && Inputs([]) == []
  {
    assert [Input(c)][1..] == [];
  }

  /** A step of the consumer leaves the producer alone. */
  lemma GetKeeps(r: Ring)
    requires Shaped(r)
    ensures GetStep(r).0.p == r.p && GetStep(r).0.mask == r.mask && |GetStep(r).1| <= 1
    ensures GetStep(r).1 != [] ==> GetStep(r).1[0].Got? || GetStep(r).1[0].Empty?
  {
  }

  lemma TurnRefines(f: Fine, s: Serial) returns (s': Serial)
    requires Shows(f, s)
    ensures Shows(FineStep(f, Turn), s') && s' == Run(s, Completes(f, Turn))
    ensures Pending(f) == Inputs(Completes(f, Turn)) + Pending(FineStep(f, Turn))
  {
    var q' := GetRefines(f.r, s.q);
    GetKeeps(f.r);
    s' := TurnDone(f, s, GetStep(f.r).0, GetStep(f.r).1, q');
    TurnEvents(f, s);
  }

  lemma TurnEvents(f: Fine, s: Serial)
    requires Shaped(f.r) && FineStep(f, Turn).r.p == f.r.p
    ensures Run(s, Completes(f, Turn)) == if GetStep(f.r).1 == [] then s else ConsumeStep(s)
    ensures Pending(f) == Inputs(Completes(f, Turn)) + Pending(FineStep(f, Turn))
  {
    RunOneConsume(s);
    assert [] + Pending(f) == Pending(f);
  }

  lemma TurnDone(f: Fine, s: Serial, r: Ring, replies: seq<Reply>, q: seq<bv8>) returns (s': Serial)
    requires Shows(f, s) && GetStep(f.r) == (r, replies)
    requires RingBuf.Holds(r, q) && r.p == f.r.p && r.mask == f.r.mask
    requires |replies| <= 1 && (replies != [] ==> replies[0].Got? || replies[0].Empty?)
    requires FifoRun(s.q, replies, r.mask) == Some(q)
    ensures Shows(FineStep(f, Turn), s') && FineStep(f, Turn).r.p == f.r.p
    ensures s' == if replies == [] then s else ConsumeStep(s)
  {
    FifoOne(s.q, replies, r.mask);
    s' := if replies == [] then s else ConsumeStep(s);
    assert s'.q == q && FineStep(f, Turn).r == r;
  }

  lemma RunOneConsume(s: Serial)
    ensures Run(s, [Consume]) == ConsumeStep(s) && Run(s, []) == s && Inputs([Consume]) == []
  {
    assert [Consume][1..] == [];
  }

  /** A step gives one reply at most. */
  lemma FifoOne(q: seq<bv8>, replies: seq<Reply>, cap: nat)
    requires |replies| <= 1
    ensures FifoRun(q, replies, cap) == if replies == [] then Some(q) else Fifo(q, replies[0], cap)
  {
    if replies != [] {
      assert replies[1..] == [];
    }
  }

  lemma {:induction false} RunConcat(s: Serial, a: seq<Event>, b: seq<Event>)
    ensures Run(s, a + b) == Run(Run(s, a), b)
    decreases |a|
  {
    if a == [] {
      assert a + b == b;
    } else {
      assert (a + b)[0] == a[0] && (a + b)[1..] == a[1..] + b;
      RunConcat(Step(s, a[0]), a[1..], b);
    }
  }

  lemma {:induction false} InputsConcat(a: seq<Event>, b: seq<Event>)
    ensures Inputs(a + b) == Inputs(a) + Inputs(b)
    decreases |a|
  {
    if a == [] {
      assert a + b == b;
    } else {
      assert (a + b)[0] == a[0] && (a + b)[1..] == a[1..] + b;
      InputsConcat(a[1..], b);
    }
  }

  lemma {:induction false} FineRunRefines(f: Fine, s: Serial, moves: seq<FineMove>) returns (s': Serial)
    requires Shows(f, s)
    ensures Shows(FineRun(f, moves), s') && s' == Run(s, Events(f, moves))
    ensures Pending(f) + Arrived(f, moves) == Inputs(Events(f, moves)) + Pending(FineRun(f, moves))
    decreases |moves|
  {
    if moves == [] {
      s' := s;
      assert Pending(f) + [] == [] + Pending(f);
    } else {
      var m, g := moves[0], FineStep(f, moves[0]);
      var s1 := FineStepRefines(f, s, m);
      s' := FineRunRefines(g, s1, moves[1..]);
      RunConcat(s, Completes(f, m), Events(g, moves[1..]));
      InputsConcat(Completes(f, m), Events(g, moves[1..]));
      Carry(Pending(f), Begins(f, m), Arrived(g, moves[1..]), Inputs(Completes(f, m)), Pending(g),
            Inputs(Events(g, moves[1..])), Pending(FineRun(f, moves)));
    }
  }

  lemma Carry(p: seq<bv8>, b: seq<bv8>, a: seq<bv8>, i: seq<bv8>, q: seq<bv8>, j: seq<bv8>, r: seq<bv8>)
    requires p + b == i + q && q + a == j + r
    ensures p + (b + a) == (i + j) + r
  {
    assert p + (b + a) == (i + q) + a;
    assert (i + q) + a == i + (j + r);
  }

  /** Every interleaving of the interrupt's and the process's accesses to shared memory, from an empty ring: each posted
      line is a prefix of one line of the bytes that have arrived, in order and without two of one line. */
  lemma FineLinesAreInputLines(data: seq<bv8>, moves: seq<FineMove>) returns (idx: seq<nat>)
    requires |data| == BUFSIZE
    ensures var f := Fine(Ring(data, BUFSIZE - 1, 0, 0, PutIdle, GetIdle), false, [], []);
            && PrefixesAt(FineRun(f, moves).posted, Split(NO_TEXT, Arrived(f, moves)).lines, idx)
            && |FineRun(f, moves).buf| <= BUFSIZE - 1
  {
    var f := Fine(Ring(data, BUFSIZE - 1, 0, 0, PutIdle, GetIdle), false, [], []);
    assert At(0, 0, BUFSIZE) == 0;
    var s := FineRunRefines(f, SERIAL_INIT, moves);
    idx := PostedLinesAreInputLines(Events(f, moves));
    var seen := Inputs(Events(f, moves));
    assert [] + Arrived(f, moves) == Arrived(f, moves);
    SplitConcat(NO_TEXT, seen, Pending(FineRun(f, moves)));
    SplitExtends(Split(NO_TEXT, seen), Pending(FineRun(f, moves)));
    PrefixesOfMore(s.posted, Split(NO_TEXT, seen).lines, Split(NO_TEXT, Arrived(f, moves)).lines, idx);
  }

  lemma {:induction false} SplitConcat(t: Text, a: seq<bv8>, b: seq<bv8>)
    ensures Split(t, a + b) == Split(Split(t, a), b)
    decreases |a|
  {
    if a == [] {
      assert a + b == b;
    } else {
      assert (a + b)[0] == a[0] && (a + b)[1..] == a[1..] + b;
      SplitConcat(AddByte(t, a[0]), a[1..], b);
    }
  }

  lemma PrefixesOfMore(out: seq<seq<bv8>>, text: seq<seq<bv8>>, more: seq<seq<bv8>>, idx: seq<nat>)
    requires PrefixesAt(out, text, idx) && |text| <= |more| && more[..|text|] == text
    ensures PrefixesAt(out, more, idx)
  {
    assert forall j | 0 <= j < |out| :: more[idx[j]] == more[..|text|][idx[j]];
  }

  // ----- the code -----

  class SerialDriver {
    const rxbuf: RingBuffer
    const buf: array<bv8>
    var overflow: bool
    var ptr: nat
    /** The lines posted with serial_line_event_message. */
    var posted: seq<seq<bv8>>

    ghost predicate Valid()
      reads this, rxbuf
    {
      && rxbuf.Valid() && rxbuf.mask == BUFSIZE - 1
      && buf != rxbuf.data && buf.Length == BUFSIZE && ptr <= BUFSIZE - 1
    }

    ghost function View(): (s: Serial)
      reads this, rxbuf, rxbuf.data, buf
      requires Valid()
    {
      Serial(rxbuf.Queue(), overflow, buf[..ptr], posted)
    }

    /** serial_line_init and the start of the process. */
    constructor (rxbuf_data: array<bv8>)
      requires rxbuf_data.Length == BUFSIZE
      ensures Valid() && View() == SERIAL_INIT
      ensures fresh(rxbuf) && fresh(buf) && rxbuf.data == rxbuf_data
    {
      rxbuf := new RingBuffer(rxbuf_data, BUFSIZE);
      buf := new bv8[BUFSIZE];
      overflow := false;
      ptr := 0;
      posted := [];
    }

    /** serial_line_input_byte. */
    method InputByte(c: bv8)
      requires Valid()
      modifies this, rxbuf, rxbuf.data
      ensures Valid() && View() == InputStep(old(View()), c)
    {
      if !overflow {
        var done := Offer(c);
        if !done {
          overflow := true;
        }
      } else if c == END || c == END2 {
        var done := Offer(c);
        if done {
          overflow := false;
        }
      }
    }

    method Offer(c: bv8) returns (done: bool)
      requires Valid()
      modifies rxbuf, rxbuf.data
      ensures Valid() && done == (|old(View()).q| < BUFSIZE - 1)
      ensures View() == if done then old(View()).(q := old(View()).q + [c]) else old(View())
    {
      ghost var s := View();
      done := rxbuf.Put(c);
      assert buf[..ptr] == s.buf;
      assert done ==> rxbuf.Queue() == s.q + [c];
    }

    /** One turn of the loop of serial_line_process; waiting changes nothing. */
    method ProcessTurn()
      requires Valid()
      modifies this, rxbuf, buf
      ensures Valid() && View() == ConsumeStep(old(View()))
    {
      var c := Fetch();
      if c.Some? {
        if c.value != END && c.value != END2 {
          if ptr < BUFSIZE - 1 {
            ghost var was := buf[..ptr];
            buf[ptr] := c.value;
            ptr := ptr + 1;
            assert buf[..ptr] == was + [c.value];
          }
        } else {
          posted := posted + [buf[..ptr]];
          buf[ptr] := 0;
          ptr := 0;
        }
      }
    }

    method Fetch() returns (c: Option<bv8>)
      requires Valid()
      modifies rxbuf
      ensures Valid() && c == (if old(View()).q == [] then None else Some(old(View()).q[0]))
      ensures View() == if c == None then old(View()) else old(View()).(q := old(View()).q[1..])
    {
      ghost var s := View();
      c := rxbuf.Get();
      assert buf[..ptr] == s.buf;
    }
  }
}
