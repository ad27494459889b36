/**
 os/lib/ringbuf.c: a ring shared by one producer and one consumer without locks. Every access to shared
 memory is a step of its own; any interleaving of the steps is a FIFO of capacity size - 1.
 */
module RingBuf {
  import opened Arithmetic
  import opened Options

  // ----- masked indices -----

  /** All bits set up to some place. */
  predicate AllOnes(m: nat) {
    m == 0 || (m % 2 == 1 && AllOnes(m / 2))
  }

  /** size - 1, for a size that is a power of two up to 128. */
  predicate IsMask(m: nat) {
    m <= 127 && AllOnes(m)
  }

  lemma {:induction false} MaskIsPow2(m: nat) returns (k: nat)
    requires AllOnes(m)
    ensures k <= m && Pow2(k) == m + 1
  {
    k := 0;
    if m != 0 {
      k := MaskIsPow2(m / 2);
      k := k + 1;
    }
  }

  /** A mask takes the remainder, of negative numbers too. */
  lemma MaskIsMod(x: int, m: nat)
    requires IsMask(m)
    ensures And(x, m) == x % (m + 1)
  {
    var k := MaskIsPow2(m);
    AndIsMod(x, k);
  }

  /** The index i places after lo. */
  function At(lo: nat, i: nat, size: nat): nat
    requires lo < size && i <= size
  {
    if lo + i < size then lo + i else lo + i - size
  }

  /** How far put is ahead of get, going round. */
  function Count(put: nat, get: nat, size: nat): nat
    requires put < size && get < size
  {
    if get <= put then put - get else size - get + put
  }

  lemma MaskedDistance(put: nat, get: nat, mask: nat)
    requires IsMask(mask) && put <= mask && get <= mask
    ensures And(put - get, mask) == Count(put, get, mask + 1)
  {
    MaskIsMod(put - get, mask);
    QuotientUnique(put - get, mask + 1, if get <= put then 0 else -1, Count(put, get, mask + 1));
  }

  lemma MaskedNext(i: nat, mask: nat)
    requires IsMask(mask) && i <= mask
    ensures And(i + 1, mask) == At(i, 1, mask + 1) <= mask
  {
    MaskIsMod(i + 1, mask);
    QuotientUnique(i + 1, mask + 1, if i == mask then 1 else 0, At(i, 1, mask + 1));
  }

  // ----- the steps -----

  /** Where the producer is inside ringbuf_put. */
  datatype Producer = PutIdle | Storing(c: bv8) | Publishing(c: bv8)

  /** Where the consumer is inside ringbuf_get. */
  datatype Consumer = GetIdle | Loading | Releasing(c: bv8)

  datatype Ring = Ring(data: seq<bv8>, mask: nat, put: nat, get: nat, p: Producer, g: Consumer)

  /** Who moves; an idle producer starts putting c. */
  datatype Move = PutMove(c: bv8) | GetMove

  /** What a call returns. */
  datatype Reply = Accepted(c: bv8) | Full(c: bv8) | Got(c: bv8) | Empty

  predicate Shaped(r: Ring) {
    IsMask(r.mask) && |r.data| == r.mask + 1 && r.put <= r.mask && r.get <= r.mask
  }

  /** ringbuf_put reads get_ptr, writes the byte, then advances put_ptr. */
  function PutStep(r: Ring, c: bv8): (Ring, seq<Reply>)
    requires Shaped(r)
  {
    match r.p
    case PutIdle =>
      if Count(r.put, r.get, r.mask + 1) == r.mask then (r, [Full(c)]) else (r.(p := Storing(c)), [])
    case Storing(b) => (r.(data := r.data[r.put := b], p := Publishing(b)), [])
    case Publishing(b) => (r.(put := At(r.put, 1, r.mask + 1), p := PutIdle), [Accepted(b)])
  }

  /** ringbuf_get reads put_ptr, reads the byte, then advances get_ptr. */
  function GetStep(r: Ring): (Ring, seq<Reply>)
    requires Shaped(r)
  {
    match r.g
    case GetIdle => if Count(r.put, r.get, r.mask + 1) > 0 then (r.(g := Loading), []) else (r, [Empty])
    case Loading => (r.(g := Releasing(r.data[r.get])), [])
    case Releasing(b) => (r.(get := At(r.get, 1, r.mask + 1), g := GetIdle), [Got(b)])
  }

  function Step(r: Ring, m: Move): (s: (Ring, seq<Reply>))
    requires Shaped(r)
    ensures Shaped(s.0)
  {
    if m.PutMove? then PutStep(r, m.c) else GetStep(r)
  }

  function Final(r: Ring, moves: seq<Move>): (s: Ring)
    requires Shaped(r)
    ensures Shaped(s)
    decreases |moves|
  {
    if moves == [] then r else Final(Step(r, moves[0]).0, moves[1..])
  }

  function Replies(r: Ring, moves: seq<Move>): seq<Reply>
    requires Shaped(r)
    decreases |moves|
  {
    if moves == [] then [] else Step(r, moves[0]).1 + Replies(Step(r, moves[0]).0, moves[1..])
  }

  // ----- the FIFO -----

  /** A bounded FIFO that may give this reply, and what is then in it. */
  function Fifo(q: seq<bv8>, reply: Reply, cap: nat): Option<seq<bv8>> {
    match reply
    case Accepted(c) => if |q| < cap then Some(q + [c]) else None
    case Full(_) => if |q| == cap then Some(q) else None
    case Got(c) => if q != [] && q[0] == c then Some(q[1..]) else None
    case Empty => if q == [] then Some(q) else None
  }

  function FifoRun(q: seq<bv8>, replies: seq<Reply>, cap: nat): Option<seq<bv8>>
    decreases |replies|
  {
    if replies == [] then Some(q)
    else match Fifo(q, replies[0], cap)
         case None => None
         case Some(q1) => FifoRun(q1, replies[1..], cap)
  }

  lemma {:induction false} FifoRunConcat(q: seq<bv8>, a: seq<Reply>, b: seq<Reply>, cap: nat)
    requires FifoRun(q, a, cap).Some?
    ensures FifoRun(q, a + b, cap) == FifoRun(FifoRun(q, a, cap).value, b, cap)
    decreases |a|
  {
    if a == [] {
      assert a + b == b;
    } else {
      assert (a + b)[0] == a[0] && (a + b)[1..] == a[1..] + b;
      FifoRunConcat(Fifo(q, a[0], cap).value, a[1..], b, cap);
    }
  }

  function Puts(replies: seq<Reply>): seq<bv8> {
    if replies == [] then [] else (if replies[0].Accepted? then [replies[0].c] else []) + Puts(replies[1..])
  }

  function Gets(replies: seq<Reply>): seq<bv8> {
    if replies == [] then [] else (if replies[0].Got? then [replies[0].c] else []) + Gets(replies[1..])
  }

  /** Bytes come out in order, none lost, none repeated. */
  lemma {:induction false} FifoConserves(q: seq<bv8>, replies: seq<Reply>, cap: nat)
    requires FifoRun(q, replies, cap).Some? && |q| <= cap
    ensures q + Puts(replies) == Gets(replies) + FifoRun(q, replies, cap).value
    ensures |FifoRun(q, replies, cap).value| <= cap
    decreases |replies|
  {
    if replies == [] {
      assert q + [] == [] + q;
    } else {
      var q1, rest := Fifo(q, replies[0], cap).value, replies[1..];
      FifoConserves(q1, rest, cap);
      Shuffle(q, if replies[0].Accepted? then [replies[0].c] else [], Puts(rest),
              if replies[0].Got? then [replies[0].c] else [], q1, Gets(rest), FifoRun(q1, rest, cap).value);
    }
  }

  lemma Shuffle(q: seq<bv8>, p: seq<bv8>, ps: seq<bv8>, g: seq<bv8>, q1: seq<bv8>, gs: seq<bv8>, out: seq<bv8>)
    requires q + p == g + q1 && q1 + ps == gs + out
    ensures q + (p + ps) == (g + gs) + out
  {
    assert q + (p + ps) == (g + q1) + ps;
    assert (g + q1) + ps == g + (gs + out);
  }

  // ----- refinement -----

  /** The published bytes are q. A producer past its check still has room, a consumer past its check still has
      a byte, whatever the other side did since. */
  ghost predicate Holds(r: Ring, q: seq<bv8>) {
    && Shaped(r)
    && var size, get, put := r.mask + 1, r.get, r.put;
    && |q| < size && put == At(get, |q|, size)
    && (forall i | 0 <= i < |q| :: r.data[At(get, i, size)] == q[i])
    && (r.p.Storing? ==> |q| + 1 < size)
    && (r.p.Publishing? ==> |q| + 1 < size && r.data[put] == r.p.c)
    && (r.g.Loading? ==> q != [])
    && (r.g.Releasing? ==> q != [] && r.g.c == q[0])
  }

  lemma CountOf(r: Ring, q: seq<bv8>)
    requires Holds(r, q)
    ensures Count(r.put, r.get, r.mask + 1) == |q| == And(r.put - r.get, r.mask)
  {
    MaskedDistance(r.put, r.get, r.mask);
  }

  /** One step of the producer is a step of the FIFO, or invisible. */
  lemma PutRefines(r: Ring, q: seq<bv8>, c: bv8) returns (q': seq<bv8>)
    requires Holds(r, q)
    ensures FifoRun(q, PutStep(r, c).1, r.mask) == Some(q') && Holds(PutStep(r, c).0, q')
  {
    var cap := r.mask;
    match r.p
    case PutIdle =>
      CountOf(r, q);
      q' := q;
    case Storing(b) =>
      q' := q;
    case Publishing(b) =>
      q' := q + [b];
  }

  lemma GetRefines(r: Ring, q: seq<bv8>) returns (q': seq<bv8>)
    requires Holds(r, q)
    ensures FifoRun(q, GetStep(r).1, r.mask) == Some(q') && Holds(GetStep(r).0, q')
  {
    match r.g
    case GetIdle =>
      CountOf(r, q);
      q' := q;
    case Loading =>
      assert At(r.get, 0, r.mask + 1) == r.get;
      q' := q;
    case Releasing(b) =>
      q' := q[1..];
      Releases(r, q, b);
  }

  lemma Releases(r: Ring, q: seq<bv8>, b: bv8)
    requires Holds(r, q) && r.g == Releasing(b)
    ensures FifoRun(q, [Got(b)], r.mask) == Some(q[1..])
    ensures Holds(r.(get := At(r.get, 1, r.mask + 1), g := GetIdle), q[1..])
  {
    Released(r.data, r.get, r.mask + 1, q);
  }

  lemma Released(data: seq<bv8>, get: nat, size: nat, q: seq<bv8>)
    requires 0 < |q| < size && |data| == size && get < size
    requires forall i | 0 <= i < |q| :: data[At(get, i, size)] == q[i]
    ensures var next := At(get, 1, size);
            && At(next, |q| - 1, size) == At(get, |q|, size)
            && forall i | 0 <= i < |q| - 1 :: data[At(next, i, size)] == q[1..][i]
  {
    var next := At(get, 1, size);
    forall i | 0 <= i < |q| - 1
      ensures data[At(next, i, size)] == q[1..][i]
    {
      assert At(next, i, size) == At(get, i + 1, size);
    }
  }

  /** Every interleaving of the producer's and the consumer's steps is a run of a FIFO of capacity size - 1:
      a refused call gives an answer that was true at one of its own steps. */
  lemma {:induction false} AnyInterleaving(r: Ring, q: seq<bv8>, moves: seq<Move>) returns (q': seq<bv8>)
    requires Holds(r, q)
    ensures FifoRun(q, Replies(r, moves), r.mask) == Some(q') && Holds(Final(r, moves), q')
    decreases |moves|
  {
    if moves == [] {
      q' := q;
    } else {
      var m := moves[0];
      var q1;
      if m.PutMove? {
        q1 := PutRefines(r, q, m.c);
      } else {
        q1 := GetRefines(r, q);
      }
      var s := Step(r, m);
      q' := AnyInterleaving(s.0, q1, moves[1..]);
      FifoRunConcat(q, s.1, Replies(s.0, moves[1..]), r.mask);
    }
  }

  /** From an empty ring: the bytes got are a prefix of the bytes accepted, and at most size - 1 are in between. */
  lemma InOrder(data: seq<bv8>, mask: nat, moves: seq<Move>) returns (q: seq<bv8>)
    requires IsMask(mask) && |data| == mask + 1
    ensures var replies := Replies(Ring(data, mask, 0, 0, PutIdle, GetIdle), moves);
            Puts(replies) == Gets(replies) + q && |q| <= mask
  {
    var r := Ring(data, mask, 0, 0, PutIdle, GetIdle);
    q := AnyInterleaving(r, [], moves);
    FifoConserves([], Replies(r, moves), mask);
    assert [] + Puts(Replies(r, moves)) == Puts(Replies(r, moves));
  }

  // ----- the calls -----

  class RingBuffer {
    const data: array<bv8>
    const mask: nat
    var put_ptr: nat
    var get_ptr: nat

    ghost predicate Valid()
      reads this
    {
      IsMask(mask) && data.Length == mask + 1 && put_ptr <= mask && get_ptr <= mask
    }

    /** The ring between calls. */
    ghost function Snapshot(): (r: Ring)
      reads this, data
      requires Valid()
      ensures Shaped(r)
    {
      Ring(data[..], mask, put_ptr, get_ptr, PutIdle, GetIdle)
    }

    /** The bytes in the ring, oldest first. */
    ghost function Queue(): (q: seq<bv8>)
      reads this, data
      requires Valid()
      ensures Holds(Snapshot(), q)
    {
      MaskedDistance(put_ptr, get_ptr, mask);
      Contents(data[..], get_ptr, Count(put_ptr, get_ptr, mask + 1))
    }

    /** ringbuf_init, for a buffer whose size is a power of two up to 128. */
    constructor (dataptr: array<bv8>, size: nat)
      requires size > 0 && IsMask(size - 1) && dataptr.Length == size
      ensures Valid() && Queue() == [] && data == dataptr && mask == size - 1
    {
      data := dataptr;
      mask := size - 1;
      put_ptr := 0;
      get_ptr := 0;
    }

    /** ringbuf_put. */
    method Put(c: bv8) returns (done: bool)
      requires Valid()
      modifies `put_ptr, data
      ensures Valid() && done == (|old(Queue())| < mask)
      ensures Queue() == if done then old(Queue()) + [c] else old(Queue())
      ensures Snapshot() == Final(old(Snapshot()), PutMoves(c, done))
    {
      ghost var r, q := Snapshot(), Queue();
      CountOf(r, q);
      if And(put_ptr - get_ptr, mask) == mask {
        assert Final(r, [PutMove(c)]) == r;
        return false;
      }
      PutThrice(r, q, c);
      Deposit(c, r);
      Unique(Snapshot(), Queue(), q + [c]);
      return true;
    }

    /** The two writes of ringbuf_put. */
    method Deposit(c: bv8, ghost r: Ring)
      requires Valid() && r == Snapshot()
      modifies `put_ptr, data
      ensures Valid() && Snapshot() == r.(data := r.data[r.put := c], put := At(r.put, 1, r.mask + 1))
    {
      MaskedNext(put_ptr, mask);
      data[put_ptr] := c;
      put_ptr := And(put_ptr + 1, mask);
    }

    /** ringbuf_get, with None for -1. */
    method Get() returns (res: Option<bv8>)
      requires Valid()
      modifies `get_ptr
      ensures Valid()
      ensures old(Queue()) == [] ==> res == None && Queue() == []
      ensures old(Queue()) != [] ==> res == Some(old(Queue())[0]) && Queue() == old(Queue())[1..]
      ensures Snapshot() == Final(old(Snapshot()), GetMoves(res.Some?))
    {
      ghost var r, q := Snapshot(), Queue();
      CountOf(r, q);
      if And(put_ptr - get_ptr, mask) > 0 {
        GetThrice(r, q);
        var c := Withdraw(r);
        Unique(Snapshot(), Queue(), q[1..]);
        return Some(c);
      } else {
        assert Final(r, [GetMove]) == r;
        return None;
      }
    }

    /** The read and the write of ringbuf_get. */
    method Withdraw(ghost r: Ring) returns (c: bv8)
      requires Valid() && r == Snapshot()
      modifies `get_ptr
      ensures Valid() && c == r.data[r.get] && Snapshot() == r.(get := At(r.get, 1, r.mask + 1))
    {
      MaskedNext(get_ptr, mask);
      c := data[get_ptr];
      get_ptr := And(get_ptr + 1, mask);
    }

    /** ringbuf_elements. */
    method Elements() returns (n: nat)
      requires Valid()
      ensures n == |Queue()|
    {
      CountOf(Snapshot(), Queue());
      n := And(put_ptr - get_ptr, mask);
    }

    /** ringbuf_size: one more than the ring can hold. */
    method Size() returns (n: nat)
      requires Valid()
      ensures n == data.Length && |Queue()| < n
    {
      n := mask + 1;
    }
  }

  /** The steps of an accepted put and of a refused one. */
  function PutMoves(c: bv8, done: bool): seq<Move> {
    if done then [PutMove(c), PutMove(c), PutMove(c)] else [PutMove(c)]
  }

  /** The steps of a get, and of one that finds the ring empty. */
  function GetMoves(got: bool): seq<Move> {
    if got then [GetMove, GetMove, GetMove] else [GetMove]
  }

  function Contents(data: seq<bv8>, get: nat, n: nat): (q: seq<bv8>)
    requires get < |data| && n < |data|
    ensures |q| == n && forall i | 0 <= i < n :: q[i] == data[At(get, i, |data|)]
  {
    seq(n, i requires 0 <= i < n => data[At(get, i, |data|)])
  }

  /** A ring determines what is in it. */
  lemma Unique(r: Ring, a: seq<bv8>, b: seq<bv8>)
    requires Holds(r, a) && Holds(r, b)
    ensures a == b
  {
    var size, get := r.mask + 1, r.get;
    assert |a| == |b|;
    assert forall i | 0 <= i < |a| :: a[i] == r.data[At(get, i, size)] == b[i];
  }

  /** A put that meets no other step. */
  lemma PutThrice(r: Ring, q: seq<bv8>, c: bv8)
    requires Holds(r, q) && r.p.PutIdle? && |q| < r.mask
    ensures Final(r, [PutMove(c), PutMove(c), PutMove(c)])
         == r.(data := r.data[r.put := c], put := At(r.put, 1, r.mask + 1))
    ensures Holds(r.(data := r.data[r.put := c], put := At(r.put, 1, r.mask + 1)), q + [c])
  {
    var m := PutMove(c);
    FinalThree(r, m, m, m);
    var r1 := r.(p := Storing(c));
    var r2 := r.(data := r.data[r.put := c], p := Publishing(c));
    PutIs(r, q, c, r1, q);
    PutIs(r1, q, c, r2, q);
    PutIs(r2, q, c, r2.(put := At(r.put, 1, r.mask + 1), p := PutIdle), q + [c]);
  }

  /** A get that meets no other step. */
  lemma GetThrice(r: Ring, q: seq<bv8>)
    requires Holds(r, q) && r.g.GetIdle? && q != []
    ensures Final(r, [GetMove, GetMove, GetMove]) == r.(get := At(r.get, 1, r.mask + 1))
    ensures Holds(r.(get := At(r.get, 1, r.mask + 1)), q[1..]) && r.data[r.get] == q[0]
  {
    FinalThree(r, GetMove, GetMove, GetMove);
    assert At(r.get, 0, r.mask + 1) == r.get;
    var r1 := r.(g := Loading);
    var r2 := r.(g := Releasing(q[0]));
    GetIs(r, q, r1, q);
    GetIs(r1, q, r2, q);
    GetIs(r2, q, r.(get := At(r.get, 1, r.mask + 1)), q[1..]);
  }

  lemma PutIs(r: Ring, q: seq<bv8>, c: bv8, s: Ring, q1: seq<bv8>)
    requires Holds(r, q)
    requires r.p.PutIdle? ==> |q| < r.mask && s == r.(p := Storing(c)) && q1 == q
    requires r.p.Storing? ==> s == r.(data := r.data[r.put := r.p.c], p := Publishing(r.p.c)) && q1 == q
    requires r.p.Publishing? ==> s == r.(put := At(r.put, 1, r.mask + 1), p := PutIdle) && q1 == q + [r.p.c]
    ensures Step(r, PutMove(c)).0 == s && Holds(s, q1)
  {
    CountOf(r, q);
    var q2 := PutRefines(r, q, c);
  }

  lemma GetIs(r: Ring, q: seq<bv8>, s: Ring, q1: seq<bv8>)
    requires Holds(r, q)
    requires r.g.GetIdle? ==> q != [] && s == r.(g := Loading) && q1 == q
    requires r.g.Loading? ==> s == r.(g := Releasing(r.data[r.get])) && q1 == q
    requires r.g.Releasing? ==> s == r.(get := At(r.get, 1, r.mask + 1), g := GetIdle) && q1 == q[1..]
    ensures Step(r, GetMove).0 == s && Holds(s, q1)
  {
    CountOf(r, q);
    var q2 := GetRefines(r, q);
  }

  lemma FinalThree(r: Ring, a: Move, b: Move, c: Move)
    requires Shaped(r)
    ensures Final(r, [a, b, c]) == Step(Step(Step(r, a).0, b).0, c).0
  {
    assert [a, b, c][1..] == [b, c] && [b, c][1..] == [c] && [c][1..] == [];
    var s := Step(r, a).0;
    var u := Step(s, b).0;
    assert Final(u, [c]) == Final(Step(u, c).0, []);
    assert Final(s, [b, c]) == Final(u, [c]);
  }
}
