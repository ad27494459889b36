/**
 Whole runs of the allocator of os/lib/heapmem.c: what a client that keeps to its own pointers can rely on, told
 from its requests and the replies alone.
 */
module HeapClient {
  import opened HeapLayout
  import opened HeapMem

  datatype Request = AllocRequest(zone: nat, size: nat)
                   | FreeRequest(ptr: Ptr)
                   | ReallocRequest(ptr: Ptr, size: nat)
                   | StatsRequest
                   | WriteRequest(ptr: Ptr, index: nat, byte: bv8)

  // ----- the client's books -----

  /** What a client knows of a block it holds: the size it asked for and what it last wrote at each index. */
  datatype Lease = Lease(size: nat, written: map<nat, bv8>)

  /** The blocks that a client holds, by the pointers it was given. */
  type View = map<Ptr, Lease>

  /** A client passes and writes through no other pointers than its own; NULL may be reallocated. */
  predicate Permitted(v: View, q: Request) {
    match q
    case AllocRequest(_, _) => true
    case FreeRequest(p) => p in v
    case ReallocRequest(p, _) => p == NULL || p in v
    case StatsRequest => true
    case WriteRequest(p, i, _) => p in v && i < v[p].size
  }

  /** The client's books after a request and its reply. A request that is not permitted is not made. */
  function Observed(v: View, q: Request, r: Ptr): View {
    if !Permitted(v, q) then v
    else match q
      case AllocRequest(_, size) => if r == NULL then v else v[r := Lease(size, map[])]
      case FreeRequest(p) => v - {p}
      case ReallocRequest(p, size) =>
        if p == NULL then if r == NULL then v else v[r := Lease(size, map[])]
        else if size == 0 then v - {p}
        else if r == NULL then v
        else (v - {p})[r := Lease(size, map i | i in v[p].written && i < size :: v[p].written[i])]
      case StatsRequest => v
      case WriteRequest(p, i, byte) => v[p := Lease(v[p].size, v[p].written[i := byte])]
  }

  ghost function Client(script: seq<Request>, replies: seq<Ptr>): View
    requires |script| == |replies|
  {
    if script == [] then map[]
    else
      var n := |script| - 1;
      Observed(Client(script[..n], replies[..n]), script[n], replies[n])
  }

  // ----- the books against the heap -----

  /** The block has room for what was asked for and holds what was last written. */
  ghost predicate Keeps(l: Lease, bytes: seq<bv8>) {
    l.size <= |bytes| && forall i | i in l.written :: i < l.size && bytes[i] == l.written[i]
  }

  /** The chunk that a client's pointer points into. */
  function ChunkOf(p: Ptr): nat {
    if p >= HEADER_SIZE then p - HEADER_SIZE else 0
  }

  ghost predicate KeepsAt(v: View, b: map<nat, seq<bv8>>, p: Ptr)
    requires p in v
  {
    GetChunk(p) == At(ChunkOf(p)) && ChunkOf(p) in b && Keeps(v[p], b[ChunkOf(p)])
  }

  ghost predicate Held(v: View, c: nat) {
    c + HEADER_SIZE in v
  }

  /** The live blocks are exactly those the client holds, each with the room and the bytes the client expects. */
  ghost predicate Honoured(v: View, b: map<nat, seq<bv8>>) {
    && (forall p {:trigger KeepsAt(v, b, p)} | p in v :: KeepsAt(v, b, p))
    && (forall c {:trigger Held(v, c)} | c in b :: Held(v, c))
  }

  /** A pointer handed out is none that the client holds already, but for a block that stays where it was. */
  predicate NewPointer(v: View, q: Request, r: Ptr) {
    r != NULL ==> r !in v || (q.ReallocRequest? && q.ptr == r)
  }

  lemma LeaseKept(v: View, a: map<nat, seq<bv8>>, w: View, b: map<nat, seq<bv8>>, q: Ptr)
    requires q in v && q in w && w[q] == v[q] && KeepsAt(v, a, q)
    requires ChunkOf(q) in b && b[ChunkOf(q)] == a[ChunkOf(q)]
    ensures KeepsAt(w, b, q)
  {
  }

  /** The block of another pointer. */
  lemma OtherChunk(v: View, a: map<nat, seq<bv8>>, p: Ptr, q: Ptr)
    requires Honoured(v, a) && q in v && p != q && (p in v || ChunkOf(p) !in a)
    ensures ChunkOf(q) in a && ChunkOf(q) != ChunkOf(p)
  {
    assert KeepsAt(v, a, q) && (p in v ==> KeepsAt(v, a, p));
  }

  /** Away from c and d, the two maps hold the same blocks. */
  lemma SameElsewhere(a: map<nat, seq<bv8>>, b: map<nat, seq<bv8>>, c: nat, d: nat)
    requires b - {d} == a - {c}
    ensures forall k | k in a && k != c :: k in b && k != d && b[k] == a[k]
    ensures forall k | k in b && k != d :: k in a && k != c
  {
    forall k | k in a && k != c
      ensures k in b && k != d && b[k] == a[k]
    {
      assert k in a - {c};
      assert k in b - {d};
    }
    forall k | k in b && k != d
      ensures k in a && k != c
    {
      assert k in b - {d};
    }
  }

  lemma LeaseBegun(v: View, a: map<nat, seq<bv8>>, b: map<nat, seq<bv8>>, r: Ptr, size: nat)
    requires Honoured(v, a) && GetChunk(r) != Null && Allocated(a, b, ChunkOf(r), Align(size))
    ensures r !in v && Honoured(v[r := Lease(size, map[])], b)
  {
    var w, d, l := v[r := Lease(size, map[])], ChunkOf(r), Lease(size, map[]);
    assert r in v ==> KeepsAt(v, a, r);
    forall k | k in a
      ensures k in b && k != d && b[k] == a[k]
    {
      assert k in b - {d};
    }
    assert Keeps(l, b[d]);
    LeasePut(v, a, b, r, r, d, d, w);
  }

  /** Books w agree with v but for p and r, and heap b with a but for their blocks c and d. */
  lemma LeasePut(v: View, a: map<nat, seq<bv8>>, b: map<nat, seq<bv8>>, p: Ptr, r: Ptr, c: nat, d: nat, w: View)
    requires Honoured(v, a) && r in w && KeepsAt(w, b, r) && d == ChunkOf(r) && c == ChunkOf(p) && (p in v || c !in a)
    requires forall q | q in w && q != r :: q in v && q != p && w[q] == v[q]
    requires forall q | q in v && q != p :: q in w
    requires forall k | k in a && k != c :: k in b && b[k] == a[k]
    requires forall k | k in b && k != d :: k in a && k != c
    ensures Honoured(w, b)
  {
    forall q | q in w && q != r
      ensures KeepsAt(w, b, q)
    {
      assert KeepsAt(v, a, q);
      OtherChunk(v, a, p, q);
      LeaseKept(v, a, w, b, q);
    }
    forall k | k in b && k != d
      ensures Held(w, k)
    {
      assert Held(v, k);
    }
    assert Held(w, d);
  }

  lemma LeaseEnded(v: View, a: map<nat, seq<bv8>>, p: Ptr)
    requires Honoured(v, a) && p in v
    ensures Honoured(v - {p}, a - {ChunkOf(p)})
  {
    var w, b := v - {p}, a - {ChunkOf(p)};
    assert KeepsAt(v, a, p);
    forall q | q in w
      ensures KeepsAt(w, b, q)
    {
      assert KeepsAt(v, a, q);
      OtherChunk(v, a, p, q);
      LeaseKept(v, a, w, b, q);
    }
    forall c | c in b
      ensures Held(w, c)
    {
      assert Held(v, c);
    }
  }

  /** The block of p is now the one of r; the bytes that both hold are the same. */
  lemma LeaseMoved(v: View, a: map<nat, seq<bv8>>, b: map<nat, seq<bv8>>, p: Ptr, r: Ptr, l: Lease)
    requires Honoured(v, a) && p in v && GetChunk(r) != Null && (r == p || ChunkOf(r) !in a)
    requires ChunkOf(r) in b && b - {ChunkOf(r)} == a - {ChunkOf(p)} && Keeps(l, b[ChunkOf(r)])
    ensures (r == p || r !in v) && Honoured((v - {p})[r := l], b)
  {
    assert r in v ==> KeepsAt(v, a, r);
    SameElsewhere(a, b, ChunkOf(p), ChunkOf(r));
    var w := (v - {p})[r := l];
    assert KeepsAt(w, b, r);
    LeasePut(v, a, b, p, r, ChunkOf(p), ChunkOf(r), w);
  }

  /** A block that could not be moved has at most become longer. */
  lemma LeaseStays(v: View, a: map<nat, seq<bv8>>, b: map<nat, seq<bv8>>, p: Ptr)
    requires Honoured(v, a) && p in v && Resized(a, b, ChunkOf(p)) && |a[ChunkOf(p)]| <= |b[ChunkOf(p)]|
    ensures Honoured(v, b)
  {
    assert KeepsAt(v, a, p);
    LeaseMoved(v, a, b, p, p, v[p]);
    assert (v - {p})[p := v[p]] == v;
  }

  lemma LeaseWritten(v: View, a: map<nat, seq<bv8>>, p: Ptr, i: nat, byte: bv8)
    requires Honoured(v, a) && p in v && i < v[p].size
    ensures ChunkOf(p) in a && i < |a[ChunkOf(p)]|
    ensures Honoured(v[p := Lease(v[p].size, v[p].written[i := byte])], a[ChunkOf(p) := a[ChunkOf(p)][i := byte]])
  {
    var c, l := ChunkOf(p), Lease(v[p].size, v[p].written[i := byte]);
    assert KeepsAt(v, a, p);
    var b := a[c := a[c][i := byte]];
    assert b - {c} == a - {c};
    LeaseMoved(v, a, b, p, p, l);
    assert (v - {p})[p := l] == v[p := l];
  }

  // ----- runs -----

  /** One request of a client with books v, from heap s to heap t with reply r. */
  ghost predicate Step(v: View, s: State, q: Request, r: Ptr, t: State) {
    && (r != NULL ==> GetChunk(r) != Null)
    && if !Permitted(v, q) then r == NULL && t == s
       else match q
         case AllocRequest(zone, size) => AllocStep(s, zone, size, GetChunk(r), t)
         case FreeRequest(p) => r == NULL && FreeStep(s, ChunkOf(p), t)
         case ReallocRequest(p, size) => MoveStep(s, p, size, r, t)
         case StatsRequest =>
           r == NULL && t.blocks == s.blocks && t.used == s.used && t.zones == s.zones && ZonesKept(s.hdr, t.hdr, {})
         case WriteRequest(p, i, byte) => r == NULL && WriteStep(s, ChunkOf(p), i, byte, t)
  }

  ghost predicate MoveStep(s: State, p: Ptr, size: nat, r: Ptr, t: State) {
    if p == NULL then AllocStep(s, 0, size, GetChunk(r), t)
    else if size > ARENA_SIZE then r == NULL && t == s
    else if size == 0 then r == NULL && FreeStep(s, ChunkOf(p), t)
    else ReallocStep(s, ChunkOf(p), Align(size), GetChunk(r), t)
  }

  ghost predicate WriteStep(s: State, c: nat, i: nat, byte: bv8, t: State) {
    c in s.blocks && i < |s.blocks[c]| && t == s.(blocks := s.blocks[c := s.blocks[c][i := byte]])
  }

  /** A permitted request leaves the client's books in agreement with the heap. */
  lemma StepHonoured(v: View, s: State, q: Request, r: Ptr, t: State)
    requires Honoured(v, s.blocks) && Step(v, s, q, r, t)
    ensures NewPointer(v, q, r) && Honoured(Observed(v, q, r), t.blocks)
  {
    if Permitted(v, q) {
      match q
      case AllocRequest(_, size) =>
        if r != NULL {
          LeaseBegun(v, s.blocks, t.blocks, r, size);
        }
      case FreeRequest(p) =>
        LeaseEnded(v, s.blocks, p);
      case ReallocRequest(p, size) =>
        MoveHonoured(v, s, p, size, r, t);
      case StatsRequest =>
      case WriteRequest(p, i, byte) =>
        LeaseWritten(v, s.blocks, p, i, byte);
    }
  }

  lemma MoveHonoured(v: View, s: State, p: Ptr, size: nat, r: Ptr, t: State)
    requires Honoured(v, s.blocks) && (p == NULL || p in v) && MoveStep(s, p, size, r, t)
    requires r != NULL ==> GetChunk(r) != Null
    ensures NewPointer(v, ReallocRequest(p, size), r)
    ensures Honoured(Observed(v, ReallocRequest(p, size), r), t.blocks)
  {
    assert NULL in v ==> KeepsAt(v, s.blocks, NULL);
    if p == NULL {
      if r != NULL {
        LeaseBegun(v, s.blocks, t.blocks, r, size);
      }
    } else if size == 0 {
      LeaseEnded(v, s.blocks, p);
    } else if size <= ARENA_SIZE {
      assert KeepsAt(v, s.blocks, p);
      if r == NULL {
        LeaseStays(v, s.blocks, t.blocks, p);
      } else {
        LeaseMoved(v, s.blocks, t.blocks, p, r, Lease(size, map i | i in v[p].written && i < size :: v[p].written[i]));
      }
    }
  }

  /** Request i of a run is one step of a client whose books follow from the requests and replies before it. */
  ghost predicate StepAt(heaps: seq<State>, script: seq<Request>, replies: seq<Ptr>, i: nat)
    requires |heaps| == |script| + 1 && |replies| == |script| && i < |script|
  {
    Step(Client(script[..i], replies[..i]), heaps[i], script[i], replies[i], heaps[i + 1])
  }

  /** A run of requests through the heaps given, the first of which holds no block. */
  ghost predicate IsRun(heaps: seq<State>, script: seq<Request>, replies: seq<Ptr>) {
    && |heaps| == |script| + 1 && |replies| == |script|
    && heaps[0].blocks == map[]
    && (forall i | 0 <= i < |heaps| :: Sound(heaps[i]))
    && (forall i {:trigger StepAt(heaps, script, replies, i)} | 0 <= i < |script| :: StepAt(heaps, script, replies, i))
  }

  /** At each point of a run, the live blocks are exactly those that the client was given and has not given back,
      each with room for the size asked for and with the bytes last written to it; and a pointer handed out is new. */
  lemma {:induction false} RunHonoured(heaps: seq<State>, script: seq<Request>, replies: seq<Ptr>, i: nat)
    requires IsRun(heaps, script, replies) && i <= |script|
    ensures Honoured(Client(script[..i], replies[..i]), heaps[i].blocks)
    ensures i < |script| ==> NewPointer(Client(script[..i], replies[..i]), script[i], replies[i])
  {
    if i > 0 {
      RunHonoured(heaps, script, replies, i - 1);
      StepOfRun(heaps, script, replies, i - 1);
    }
    if i < |script| {
      StepOfRun(heaps, script, replies, i);
    }
  }

  lemma StepOfRun(heaps: seq<State>, script: seq<Request>, replies: seq<Ptr>, i: nat)
    requires IsRun(heaps, script, replies) && i < |script|
    requires Honoured(Client(script[..i], replies[..i]), heaps[i].blocks)
    ensures NewPointer(Client(script[..i], replies[..i]), script[i], replies[i])
    ensures Honoured(Client(script[..i + 1], replies[..i + 1]), heaps[i + 1].blocks)
  {
    assert StepAt(heaps, script, replies, i);
    StepHonoured(Client(script[..i], replies[..i]), heaps[i], script[i], replies[i], heaps[i + 1]);
    assert script[..i + 1][..i] == script[..i] && replies[..i + 1][..i] == replies[..i];
  }

  /** No two of a client's blocks overlap, and all lie in the used prefix. */
  lemma LeasesApart(heaps: seq<State>, script: seq<Request>, replies: seq<Ptr>, i: nat, p: Ptr, q: Ptr)
    requires IsRun(heaps, script, replies) && i <= |script|
    requires p in Client(script[..i], replies[..i]) && q in Client(script[..i], replies[..i]) && p < q
    ensures var v := Client(script[..i], replies[..i]);
            0 <= p && p + v[p].size + HEADER_SIZE <= q && q + v[q].size <= heaps[i].used <= ARENA_SIZE
  {
    RunHonoured(heaps, script, replies, i);
    var v, s := Client(script[..i], replies[..i]), heaps[i];
    assert KeepsAt(v, s.blocks, p) && KeepsAt(v, s.blocks, q);
    Ordered(ShapeOf(s.hdr), s.used);
    assert ChunkOf(p) in ShapeOf(s.hdr) && ChunkOf(q) in ShapeOf(s.hdr);
  }

  lemma RunExtended(heaps: seq<State>, script: seq<Request>, replies: seq<Ptr>, q: Request, r: Ptr, t: State)
    requires IsRun(heaps, script, replies) && Sound(t)
    requires Step(Client(script, replies), heaps[|script|], q, r, t)
    ensures IsRun(heaps + [t], script + [q], replies + [r])
    ensures Client(script + [q], replies + [r]) == Observed(Client(script, replies), q, r)
  {
    var hs, qs, rs := heaps + [t], script + [q], replies + [r];
    assert qs[..|script|] == script && rs[..|script|] == replies;
    forall i | 0 <= i < |qs|
      ensures StepAt(hs, qs, rs, i)
    {
      if i < |script| {
        StepStays(heaps, script, replies, q, r, t, i);
      }
    }
  }

  lemma StepStays(heaps: seq<State>, script: seq<Request>, replies: seq<Ptr>, q: Request, r: Ptr, t: State, i: nat)
    requires |heaps| == |script| + 1 && |replies| == |script| && i < |script| && StepAt(heaps, script, replies, i)
    ensures StepAt(heaps + [t], script + [q], replies + [r], i)
  {
    assert (script + [q])[..i] == script[..i] && (replies + [r])[..i] == replies[..i];
  }

  lemma OneMore(heaps: seq<State>, script: seq<Request>, i: nat, replies: seq<Ptr>, r: Ptr, t: State)
    requires i < |script| && IsRun(heaps, script[..i], replies) && Sound(t)
    requires Step(Client(script[..i], replies), heaps[i], script[i], r, t)
    ensures IsRun(heaps + [t], script[..i + 1], replies + [r])
    ensures (heaps + [t])[0] == heaps[0] && (heaps + [t])[i + 1] == t
    ensures Client(script[..i + 1], replies + [r]) == Observed(Client(script[..i], replies), script[i], r)
  {
    RunExtended(heaps, script[..i], replies, script[i], r, t);
    assert script[..i + 1] == script[..i] + [script[i]];
  }

  // ----- the code -----

  /** Any sequence of requests, served by the code, is a run. */
  method Run(heap: Heap, script: seq<Request>) returns (replies: seq<Ptr>, ghost heaps: seq<State>)
    requires heap.Valid() && heap.Blocks() == map[]
    modifies heap, heap.mem
    ensures heap.Valid()
    ensures IsRun(heaps, script, replies) && heaps[0] == old(heap.Now()) && heaps[|script|] == heap.Now()
    ensures Honoured(Client(script, replies), heap.Blocks())
  {
    heap.NowSound();
    replies, heaps := [], [heap.Now()];
    var books: View := map[];
    for i := 0 to |script|
      invariant heap.Valid() && |replies| == i
      invariant IsRun(heaps, script[..i], replies) && heaps[0] == old(heap.Now()) && heaps[i] == heap.Now()
      invariant books == Client(script[..i], replies)
    {
      replies, books, heaps := Turn(heap, script, i, replies, books, heaps);
    }
    assert script[..|script|] == script;
    RunWhole(heaps, script, replies);
  }

  lemma RunWhole(heaps: seq<State>, script: seq<Request>, replies: seq<Ptr>)
    requires IsRun(heaps, script, replies)
    ensures Honoured(Client(script, replies), heaps[|script|].blocks)
  {
    RunHonoured(heaps, script, replies, |script|);
    assert script[..|script|] == script && replies[..|script|] == replies;
  }

  /** One turn of the loop. */
  method Turn(heap: Heap, script: seq<Request>, i: nat, replies: seq<Ptr>, books: View, ghost heaps: seq<State>)
    returns (replies': seq<Ptr>, books': View, ghost heaps': seq<State>)
    requires heap.Valid() && i < |script| && |replies| == i
    requires IsRun(heaps, script[..i], replies) && heaps[i] == heap.Now() && books == Client(script[..i], replies)
    modifies heap, heap.mem
    ensures heap.Valid() && |replies'| == i + 1
    ensures IsRun(heaps', script[..i + 1], replies') && heaps'[0] == heaps[0] && heaps'[i + 1] == heap.Now()
    ensures books' == Client(script[..i + 1], replies')
  {
    RunWhole(heaps, script[..i], replies);
    var r := Serve(heap, script[i], books);
    heap.NowSound();
    OneMore(heaps, script, i, replies, r, heap.Now());
    books' := Observed(books, script[i], r);
    replies', heaps' := replies + [r], heaps + [heap.Now()];
  }

  method Serve(heap: Heap, q: Request, books: View) returns (r: Ptr)
    requires heap.Valid() && Honoured(books, heap.Blocks())
    modifies heap, heap.mem
    ensures heap.Valid() && Step(books, old(heap.Now()), q, r, heap.Now())
  {
    r := NULL;
    if !Permitted(books, q) {
      return;
    }
    match q {
      case AllocRequest(zone, size) =>
        r := heap.ZoneAlloc(zone, size);
      case FreeRequest(p) =>
        ServeFree(heap, p, books);
      case ReallocRequest(p, size) =>
        r := ServeRealloc(heap, p, size, books);
      case StatsRequest =>
        var _ := heap.GetStats();
      case WriteRequest(p, i, byte) =>
        assert KeepsAt(books, heap.Blocks(), p);
        heap.Write(ChunkOf(p), i, byte);
    }
  }

  method ServeFree(heap: Heap, p: Ptr, ghost books: View)
    requires heap.Valid() && Honoured(books, heap.Blocks()) && p in books
    modifies heap, heap.mem
    ensures heap.Valid() && FreeStep(old(heap.Now()), ChunkOf(p), heap.Now())
  {
    assert KeepsAt(books, heap.Blocks(), p);
    InBlocks(ShapeOf(heap.hdr), heap.usage, heap.mem[..]);
    var _ := heap.Free(p);
  }

  method ServeRealloc(heap: Heap, p: Ptr, size: nat, ghost books: View) returns (r: Ptr)
    requires heap.Valid() && Honoured(books, heap.Blocks()) && (p == NULL || p in books)
    modifies heap, heap.mem
    ensures heap.Valid() && (r != NULL ==> GetChunk(r) != Null)
    ensures MoveStep(old(heap.Now()), p, size, r, heap.Now())
  {
    if p in books {
      assert KeepsAt(books, heap.Blocks(), p);
      InBlocks(ShapeOf(heap.hdr), heap.usage, heap.mem[..]);
    }
    r := heap.Realloc(p, size);
  }
}
