/**
 The heap of os/lib/heapmem.c seen as values: how chunks tile the used part of the
 arena, what merging and splitting do to that tiling, and which runs of free space exist.
 Offsets are byte offsets from heap_base.
 */
module HeapLayout {

  import opened Arithmetic

  /** Small enough for the `int` difference that heapmem_realloc computes. */
  type ArenaSize = n: nat | n < 0x4000_0000 witness 0

  /** sizeof(chunk_t). */
  const HEADER_SIZE: Pos

  /** HEAPMEM_ALIGNMENT. */
  const ALIGNMENT: Pos

  /** HEAPMEM_ARENA_SIZE. */
  const ARENA_SIZE: ArenaSize

  /** CHUNK_SEARCH_MAX. */
  const SEARCH_MAX: nat

  /** The least multiple of ALIGNMENT that is not below n. */
  function Align(n: nat): (r: nat)
    ensures n <= r < n + ALIGNMENT
    ensures r % ALIGNMENT == 0
  {
    var k := n + ALIGNMENT - 1;
    QuotientUnique(k / ALIGNMENT * ALIGNMENT, ALIGNMENT, k / ALIGNMENT, 0);
    k / ALIGNMENT * ALIGNMENT
  }

  lemma AlignIdempotent(n: nat)
    ensures Align(Align(n)) == Align(n)
  {
    var q := (n + ALIGNMENT - 1) / ALIGNMENT;
    QuotientUnique(q * ALIGNMENT + (ALIGNMENT - 1), ALIGNMENT, q, ALIGNMENT - 1);
  }

  // ----- shapes -----

  /** What the tiling depends on: the payload size of a chunk and its allocated flag. */
  datatype Cell = Cell(size: nat, inUse: bool)

  type Shape = map<nat, Cell>

  ghost function End(s: Shape, c: nat): nat
    requires c in s
  {
    c + HEADER_SIZE + s[c].size
  }

  /** Chunk c is the last one or another chunk begins where it ends. */
  ghost predicate Followed(s: Shape, u: nat, c: nat)
    requires c in s
  {
    End(s, c) == u || End(s, c) in s
  }

  /** Chunk c ends before chunk d begins. */
  ghost predicate Before(s: Shape, c: nat, d: nat)
    requires c in s
  {
    End(s, c) <= d
  }

  /** The chunks of s tile exactly the bytes [0, u). */
  ghost predicate Tiled(s: Shape, u: nat) {
    && (u > 0 ==> 0 in s)
    && (forall c | c in s :: End(s, c) <= u)
    && (forall c {:trigger Followed(s, u, c)} | c in s :: Followed(s, u, c))
    && (forall c, d {:trigger Before(s, c, d)} | c in s && d in s && c < d :: Before(s, c, d))
  }

  lemma Ordered(s: Shape, u: nat)
    requires Tiled(s, u)
    ensures forall c, d | c in s && d in s && c < d :: End(s, c) <= d
  {
    forall c, d | c in s && d in s && c < d
      ensures End(s, c) <= d
    {
      assert Before(s, c, d);
    }
  }

  ghost predicate Covers(s: Shape, c: nat, i: nat) {
    c in s && c <= i < End(s, c)
  }

  /** Every used byte belongs to one chunk and to no other. */
  lemma TilesExactly(s: Shape, u: nat, i: nat)
    requires Tiled(s, u) && i < u
    ensures exists c :: Covers(s, c, i) && forall d | Covers(s, d, i) :: d == c
  {
    Ordered(s, u);
    var c := CoverFrom(s, u, 0, i);
    forall d | Covers(s, d, i) ensures d == c {}
  }

  lemma {:induction false} CoverFrom(s: Shape, u: nat, start: nat, i: nat) returns (c: nat)
    requires Tiled(s, u) && start in s && start <= i < u
    ensures Covers(s, c, i)
    decreases i - start
  {
    assert Followed(s, u, start);
    if i < End(s, start) {
      c := start;
    } else {
      c := CoverFrom(s, u, End(s, start), i);
    }
  }

  // ----- merging and splitting -----

  /** [c, e) is chunk c followed only by free chunks. */
  ghost predicate Mergeable(s: Shape, u: nat, c: nat, e: nat) {
    && c in s && End(s, c) <= e <= u
    && (e == u || e in s)
    && (forall d | d in s && c < d < e :: !s[d].inUse)
  }

  /** The chunks that a merge of [c, e) swallows. */
  ghost function Inside(s: Shape, c: nat, e: nat): set<nat> {
    set d | d in s && c < d < e
  }

  ghost function Merged(s: Shape, c: nat, e: nat): Shape
    requires c in s && c + HEADER_SIZE <= e
  {
    (s - Inside(s, c, e))[c := Cell(e - c - HEADER_SIZE, s[c].inUse)]
  }

  lemma MergedTiled(s: Shape, u: nat, c: nat, e: nat)
    requires Tiled(s, u) && Mergeable(s, u, c, e)
    ensures Tiled(Merged(s, c, e), u)
  {
    var t := Merged(s, c, e);
    forall x, y | x in t && y in t && x < y
      ensures Before(t, x, y)
    {
      assert Before(s, x, y);
    }
    forall d | d in t
      ensures End(t, d) <= u && Followed(t, u, d)
    {
      assert Followed(s, u, d);
      assert d < c ==> Before(s, d, c);
    }
  }

  lemma MergeNone(s: Shape, u: nat, c: nat)
    requires Tiled(s, u) && c in s
    ensures Mergeable(s, u, c, End(s, c))
    ensures Inside(s, c, End(s, c)) == {}
    ensures Merged(s, c, End(s, c)) == s
  {
    assert Followed(s, u, c);
    NothingInside(s, u, c);
  }

  /** A merge leaves what follows it alone. */
  lemma MergedFrontier(s: Shape, u: nat, c: nat, e: nat)
    requires Mergeable(s, u, c, e)
    ensures e < u ==> e in s && e in Merged(s, c, e) && Merged(s, c, e)[e] == s[e] && e !in Inside(s, c, e)
  {
  }

  /** A merged chunk that takes in one more free chunk, up to offset f. */
  lemma MergeOneMore(s: Shape, u: nat, c: nat, e: nat, f: nat, x: Cell)
    requires Tiled(s, u) && Mergeable(s, u, c, e) && e in s && !s[e].inUse
    requires f == End(s, e) && x == Cell(f - c - HEADER_SIZE, s[c].inUse)
    ensures e != c
    ensures Mergeable(s, u, c, f)
    ensures Inside(s, c, f) == Inside(s, c, e) + {e}
    ensures Merged(s, c, f) == Merged(s, c, e)[c := x] - {e}
  {
    assert Followed(s, u, e);
    NothingInside(s, u, e);
    MergedOneMore(s, c, e, f, x);
  }

  lemma MergedOneMore(s: Shape, c: nat, e: nat, f: nat, x: Cell)
    requires c in s && c + HEADER_SIZE <= e <= f && e in s
    requires x == Cell(f - c - HEADER_SIZE, s[c].inUse)
    requires forall d | d in s && d < f :: d <= e
    ensures Inside(s, c, f) == Inside(s, c, e) + {e} || e == f
    ensures e < f ==> Merged(s, c, f) == Merged(s, c, e)[c := x] - {e}
  {
    if e < f {
      assert Inside(s, c, f) == Inside(s, c, e) + {e};
    }
  }

  /** No chunk begins inside another. */
  lemma NothingInside(s: Shape, u: nat, e: nat)
    requires Tiled(s, u) && e in s
    ensures forall d | d in s && d < End(s, e) :: d <= e
  {
    Ordered(s, u);
  }

  /** Chunk c cut down to n payload bytes, the rest becoming a free chunk. */
  ghost function Split(s: Shape, c: nat, n: nat): Shape
    requires c in s && n + HEADER_SIZE <= s[c].size
  {
    s[c := Cell(n, s[c].inUse)][c + HEADER_SIZE + n := Cell(s[c].size - HEADER_SIZE - n, false)]
  }

  lemma SplitTiled(s: Shape, u: nat, c: nat, n: nat)
    requires Tiled(s, u) && c in s && n + HEADER_SIZE <= s[c].size
    ensures c + HEADER_SIZE + n !in s
    ensures Tiled(Split(s, c, n), u)
  {
    var t := Split(s, c, n);
    var d := c + HEADER_SIZE + n;
    CutFits(s, u, c, n, d);
    assert End(t, c) == d && End(t, d) == End(s, c);
    assert t.Keys == s.Keys + {d};
    forall x | x in t
      ensures End(t, x) <= u && Followed(t, u, x)
    {
      assert Followed(s, u, if x == d then c else x);
      assert x == c || x == d || End(t, x) == End(s, x);
    }
    forall x, y | x in t && y in t && x < y
      ensures Before(t, x, y)
    {
      SplitDisjoint(s, u, c, n, x, y);
    }
  }

  lemma SplitDisjoint(s: Shape, u: nat, c: nat, n: nat, x: nat, y: nat)
    requires Tiled(s, u) && c in s && n + HEADER_SIZE <= s[c].size
    requires x in Split(s, c, n) && y in Split(s, c, n) && x < y
    ensures End(Split(s, c, n), x) <= y
  {
    Ordered(s, u);
    var d := c + HEADER_SIZE + n;
    assert x in s || x == d;
    assert y in s || y == d;
  }

  lemma CutFits(s: Shape, u: nat, c: nat, n: nat, d: nat)
    requires Tiled(s, u) && c in s && n + HEADER_SIZE <= s[c].size && d == c + HEADER_SIZE + n
    ensures d !in s && d + HEADER_SIZE <= u
  {
    Ordered(s, u);
    assert c < d < End(s, c);
  }

  /** Dropping the last chunk shortens the used prefix to where it began. */
  lemma DropLastTiled(s: Shape, u: nat, c: nat)
    requires Tiled(s, u) && c in s && End(s, c) == u
    ensures Tiled(s - {c}, c)
  {
    var t := s - {c};
    assert Followed(s, u, c);
    forall x | x in t
      ensures End(t, x) <= c && Followed(t, c, x)
    {
      BeforeLast(s, u, c, x);
    }
    forall x, y | x in t && y in t && x < y
      ensures Before(t, x, y)
    {
      assert Before(s, x, y);
    }
  }

  lemma BeforeLast(s: Shape, u: nat, c: nat, x: nat)
    requires Tiled(s, u) && c in s && x in s && x != c && End(s, c) == u
    ensures End(s, x) <= c && (End(s, x) == c || (End(s, x) in s && End(s, x) != c))
  {
    Ordered(s, u);
    assert Followed(s, u, x);
  }

  /** Cutting the last chunk down releases the rest to the unused tail. */
  lemma ShrinkLastTiled(s: Shape, u: nat, c: nat, n: nat)
    requires Tiled(s, u) && c in s && n + HEADER_SIZE <= s[c].size && End(s, c) == u
    ensures Tiled(s[c := Cell(n, s[c].inUse)], c + HEADER_SIZE + n)
  {
    var d := c + HEADER_SIZE + n;
    SplitTiled(s, u, c, n);
    assert End(Split(s, c, n), d) == u;
    DropLastTiled(Split(s, c, n), u, d);
    assert Split(s, c, n) - {d} == s[c := Cell(n, s[c].inUse)];
  }

  /** What split_chunk makes of shape s and used prefix u, n being the aligned size to keep. */
  ghost predicate SplitOutcome(s: Shape, u: nat, c: nat, n: nat, t: Shape, v: nat)
    requires c in s
  {
    if n + HEADER_SIZE >= s[c].size then t == s && v == u
    else if End(s, c) == u then t == s[c := Cell(n, s[c].inUse)] && v == c + HEADER_SIZE + n
    else t == Split(s, c, n) && v == u
  }

  lemma SplitOutcomeTiled(s: Shape, u: nat, c: nat, n: nat, t: Shape, v: nat)
    requires Tiled(s, u) && c in s && SplitOutcome(s, u, c, n, t, v)
    ensures Tiled(t, v)
    ensures n + HEADER_SIZE < s[c].size ==> c + HEADER_SIZE + n !in s
  {
    if n + HEADER_SIZE < s[c].size {
      SplitTiled(s, u, c, n);
      if End(s, c) == u {
        ShrinkLastTiled(s, u, c, n);
      }
    }
  }

  /** split_chunk touches no chunk but c and the new one at d. */
  lemma SplitOutcomeKeeps(s: Shape, u: nat, c: nat, n: nat, t: Shape, v: nat, d: nat)
    requires c in s && SplitOutcome(s, u, c, n, t, v) && d == c + HEADER_SIZE + n
    requires n + HEADER_SIZE < s[c].size ==> d !in s
    ensures c in t && t[c].inUse == s[c].inUse
    ensures t[c].size == if n + HEADER_SIZE < s[c].size then n else s[c].size
    ensures forall k | k in s && k != c :: k in t && t[k] == s[k]
    ensures forall k | k in t && k !in s :: k == d && !t[k].inUse
  {
  }

  /** The shape after free_chunk on the cut-off part and the shortening of c. */
  lemma CutOutcome(s: Shape, u: nat, c: nat, n: nat, d: nat, rest: nat, t: Shape, v: nat)
    requires c in s && d == c + HEADER_SIZE + n && n + HEADER_SIZE + rest == s[c].size && d !in s && rest > 0
    requires var r := s[d := Cell(rest, false)];
             if d + HEADER_SIZE + rest == u then v == d && t == r - {d} else v == u && t == r[d := Cell(rest, false)]
    ensures c in t && (d in t <==> d + HEADER_SIZE + rest != u)
    ensures SplitOutcome(s, u, c, n, t[c := Cell(n, s[c].inUse)], v)
  {
    var r := s[d := Cell(rest, false)];
    assert r - {d} == s;
    assert r[d := Cell(rest, false)] == r;
    assert r[c := Cell(n, s[c].inUse)] == s[c := Cell(n, s[c].inUse)][d := Cell(rest, false)];
  }

  /** A new chunk placed at the end of the used prefix. */
  lemma AppendTiled(s: Shape, u: nat, cell: Cell)
    requires Tiled(s, u)
    ensures u !in s
    ensures Tiled(s[u := cell], u + HEADER_SIZE + cell.size)
  {
    Ordered(s, u);
    var t := s[u := cell];
    var v := u + HEADER_SIZE + cell.size;
    forall x | x in t
      ensures End(t, x) <= v && Followed(t, v, x)
    {
      if x != u {
        assert Followed(s, u, x);
      }
    }
  }

  /** The last chunk may grow into the unused tail of the arena. */
  lemma GrowLastTiled(s: Shape, u: nat, c: nat, x: Cell, v: nat)
    requires Tiled(s, u) && c in s && End(s, c) == u
    requires v == c + HEADER_SIZE + x.size
    ensures Tiled(s[c := x], v)
  {
    Ordered(s, u);
    var t := s[c := x];
    forall y | y in t
      ensures End(t, y) <= v && Followed(t, v, y)
    {
      if y != c {
        assert Followed(s, u, y);
      }
    }
  }

  lemma FlagTiled(s: Shape, u: nat, c: nat, flag: bool)
    requires Tiled(s, u) && c in s
    ensures Tiled(s[c := s[c].(inUse := flag)], u)
  {
    Ordered(s, u);
    var t := s[c := s[c].(inUse := flag)];
    forall x | x in t
      ensures End(t, x) <= u && Followed(t, u, x)
    {
      assert Followed(s, u, x);
    }
  }

  // ----- runs of free space -----

  /** [a, e) consists of whole chunks, all of them free. */
  ghost predicate FreeRun(s: Shape, u: nat, a: nat, e: nat) {
    && a in s && a < e <= u
    && (e == u || e in s)
    && (forall c | c in s && a <= c < e :: !s[c].inUse)
  }

  /** A free run that no free chunk touches on either side. */
  ghost predicate MaximalRun(s: Shape, u: nat, a: nat, e: nat) {
    && FreeRun(s, u, a, e)
    && (e == u || s[e].inUse)
    && (forall c | c in s && End(s, c) == a :: s[c].inUse)
  }

  /** A maximal run that holds n payload bytes once merged into one chunk. */
  ghost predicate FittingRun(s: Shape, u: nat, n: nat, a: nat, e: nat) {
    MaximalRun(s, u, a, e) && a + HEADER_SIZE + n <= e
  }

  /** A fitting run than which no fitting run is shorter. */
  ghost predicate BestFit(s: Shape, u: nat, n: nat, a: nat, e: nat) {
    && FittingRun(s, u, n, a, e)
    && (forall b: nat, f: nat | FittingRun(s, u, n, b, f) :: e - a <= f - b)
  }

  /** n is o with some free neighbours merged; allocated chunks are as they were. */
  ghost predicate Coarsened(o: Shape, n: Shape, u: nat) {
    && Tiled(o, u) && Tiled(n, u)
    && n.Keys <= o.Keys
    && (forall c | c in o && o[c].inUse :: c in n && n[c] == o[c])
    && (forall c | c in n && n[c].inUse :: n[c] == o[c])
    && (forall c | c in n && !n[c].inUse :: FreeRun(o, u, c, End(n, c)))
  }

  lemma CoarsenedRefl(o: Shape, u: nat)
    requires Tiled(o, u)
    ensures Coarsened(o, o, u)
  {
    Ordered(o, u);
    forall c | c in o && !o[c].inUse
      ensures FreeRun(o, u, c, End(o, c))
    {
      assert Followed(o, u, c);
    }
  }

  lemma CoarsenedMerge(o: Shape, n: Shape, u: nat, c: nat, e: nat)
    requires Coarsened(o, n, u) && Mergeable(n, u, c, e) && !n[c].inUse
    ensures Coarsened(o, Merged(n, c, e), u)
  {
    MergedTiled(n, u, c, e);
    MergedRun(o, n, u, c, e);
    MergedAgrees(o, n, u, c, e);
  }

  lemma MergedRun(o: Shape, n: Shape, u: nat, c: nat, e: nat)
    requires n.Keys <= o.Keys
    requires forall d | d in o && o[d].inUse :: d in n && n[d].inUse
    requires Mergeable(n, u, c, e) && !n[c].inUse
    ensures FreeRun(o, u, c, e)
  {
  }

  lemma MergedAgrees(o: Shape, n: Shape, u: nat, c: nat, e: nat)
    requires n.Keys <= o.Keys
    requires forall d | d in o && o[d].inUse :: d in n && n[d] == o[d]
    requires forall d | d in n && n[d].inUse :: n[d] == o[d]
    requires forall d | d in n && !n[d].inUse :: FreeRun(o, u, d, End(n, d))
    requires Mergeable(n, u, c, e) && !n[c].inUse && FreeRun(o, u, c, e)
    ensures var m := Merged(n, c, e);
            && m.Keys <= o.Keys
            && (forall d | d in o && o[d].inUse :: d in m && m[d] == o[d])
            && (forall d | d in m && m[d].inUse :: m[d] == o[d])
            && (forall d | d in m && !m[d].inUse :: FreeRun(o, u, d, End(m, d)))
  {
    var m := Merged(n, c, e);
    forall d | d in m && !m[d].inUse
      ensures FreeRun(o, u, d, End(m, d))
    {
      if d != c {
        assert End(m, d) == End(n, d);
      }
    }
  }

  ghost predicate RightClosed(s: Shape, u: nat, c: nat)
    requires c in s
  {
    End(s, c) == u || (End(s, c) in s && s[End(s, c)].inUse)
  }

  lemma RightClosedAt(s: Shape, u: nat, c: nat, e: nat)
    requires c in s && e == End(s, c) && (e == u || (e in s && s[e].inUse))
    ensures RightClosed(s, u, c)
  {
  }

  /** Where the free chunks right after chunk c end; where c ends if none follows. */
  ghost function RunEnd(s: Shape, u: nat, c: nat): (e: nat)
    requires c in s
    ensures End(s, c) <= e
    decreases if c < u then u - c else 0
  {
    var d := End(s, c);
    if c < u && d in s && !s[d].inUse then RunEnd(s, u, d) else d
  }

  lemma NothingAtEnd(s: Shape, u: nat)
    requires Tiled(s, u)
    ensures u !in s
  {
  }

  /** A merge that goes on to a live chunk or to the end of the used prefix goes on to RunEnd. */
  lemma {:induction false} RunEndUnique(s: Shape, u: nat, c: nat, e: nat)
    requires Tiled(s, u) && Mergeable(s, u, c, e) && (e == u || s[e].inUse)
    ensures e == RunEnd(s, u, c)
    decreases e - c
  {
    var d := End(s, c);
    assert Followed(s, u, c);
    if d < e {
      Ordered(s, u);
      RunEndUnique(s, u, d, e);
    } else {
      NothingAtEnd(s, u);
    }
  }

  /** No live chunk lies above offset c. */
  ghost predicate Topmost(s: Shape, c: nat) {
    forall d | d in s && s[d].inUse :: d <= c
  }

  lemma TopmostKept(s: Shape, t: Shape, c: nat)
    requires KeepsInUse(s, t)
    ensures Topmost(s, c) <==> Topmost(t, c)
  {
  }

  /** In a fully merged heap, the free chunk above all live ones is the last one. */
  lemma LastFree(s: Shape, u: nat, c: nat)
    requires Tiled(s, u) && FullyMerged(s, u) && c in s && !s[c].inUse
    ensures Topmost(s, c) <==> End(s, c) == u
  {
    Ordered(s, u);
    assert RightClosed(s, u, c);
  }

  /** No two free chunks are neighbours. */
  ghost predicate FullyMerged(s: Shape, u: nat) {
    forall c {:trigger RightClosed(s, u, c)} | c in s && !s[c].inUse :: RightClosed(s, u, c)
  }

  /** A merge leaves an unmergeable free chunk unmergeable. */
  lemma RightClosedKept(s: Shape, u: nat, c: nat, e: nat, v: nat)
    requires Mergeable(s, u, c, e) && !s[c].inUse
    requires v in s && v != c && v !in Inside(s, c, e) && RightClosed(s, u, v)
    ensures v in Merged(s, c, e) && RightClosed(Merged(s, c, e), u, v)
  {
    RightClosedAt(Merged(s, c, e), u, v, End(s, v));
  }

  lemma FullyMergedIsMaximal(o: Shape, n: Shape, u: nat, c: nat)
    requires Coarsened(o, n, u) && FullyMerged(n, u)
    requires c in n && !n[c].inUse
    ensures MaximalRun(o, u, c, End(n, c))
  {
    Ordered(o, u);
    Ordered(n, u);
    assert RightClosed(n, u, c);
    forall p | p in o && End(o, p) == c
      ensures o[p].inUse
    {
      var b := CoverFrom(n, u, 0, p);
      assert Followed(n, u, b);
      assert n[b].inUse || RightClosed(n, u, b);
    }
  }

  lemma MaximalIsFullyMerged(o: Shape, n: Shape, u: nat, a: nat, e: nat)
    requires Coarsened(o, n, u) && FullyMerged(n, u)
    requires MaximalRun(o, u, a, e)
    ensures a in n && !n[a].inUse && End(n, a) == e
  {
    Ordered(o, u);
    var b := CoverFrom(n, u, 0, a);
    if b < a {
      RunsOnBefore(o, n, u, a, b);
    }
    FullyMergedIsMaximal(o, n, u, a);
  }

  /** A chunk of the merged heap that begins before free chunk a of the heap before merging, and reaches into it, has a
      free chunk that ends where a begins. */
  lemma RunsOnBefore(o: Shape, n: Shape, u: nat, a: nat, b: nat)
    requires Coarsened(o, n, u) && a in o && !o[a].inUse && Covers(n, b, a) && b < a
    ensures exists p :: p in o && End(o, p) == a && !o[p].inUse
  {
    Ordered(o, u);
    var p := CoverFrom(o, u, 0, a - 1);
    assert Followed(o, u, p);
    assert p in o && End(o, p) == a;
  }

  /** In a fully merged heap the smallest fitting chunk is the best fit of the heap before merging. */
  lemma SmallestChunkIsBestFit(o: Shape, s: Shape, u: nat, n: nat, c: nat)
    requires Coarsened(o, s, u) && FullyMerged(s, u)
    requires c in s && !s[c].inUse && n <= s[c].size
    requires forall d | d in s && !s[d].inUse && n <= s[d].size :: s[c].size <= s[d].size
    ensures BestFit(o, u, n, c, End(s, c))
  {
    FullyMergedIsMaximal(o, s, u, c);
    forall b: nat, f: nat | FittingRun(o, u, n, b, f)
      ensures End(s, c) - c <= f - b
    {
      MaximalIsFullyMerged(o, s, u, b, f);
    }
  }

  lemma NoChunkNoRun(o: Shape, s: Shape, u: nat, n: nat)
    requires Coarsened(o, s, u) && FullyMerged(s, u)
    requires forall d | d in s && !s[d].inUse :: s[d].size < n
    ensures !exists a: nat, e: nat :: FittingRun(o, u, n, a, e)
  {
    forall a: nat, e: nat | MaximalRun(o, u, a, e)
      ensures !FittingRun(o, u, n, a, e)
    {
      MaximalIsFullyMerged(o, s, u, a, e);
    }
  }

  // ----- allocated chunks -----

  /** From s to t no allocated chunk came, went or changed size. */
  ghost predicate KeepsInUse(s: Shape, t: Shape) {
    && (forall k | k in s && s[k].inUse :: k in t && t[k] == s[k])
    && (forall k | k in t && t[k].inUse :: k in s && s[k].inUse)
  }

  lemma KeepsInUseTrans(r: Shape, s: Shape, t: Shape)
    requires KeepsInUse(r, s) && KeepsInUse(s, t)
    ensures KeepsInUse(r, t)
  {
  }

  /** The same for all chunks but c, which is allocated in both. */
  ghost predicate KeepsOthers(s: Shape, t: Shape, c: nat) {
    && c in s && c in t && s[c].inUse && t[c].inUse
    && (forall k | k in s && s[k].inUse && k != c :: k in t && t[k] == s[k])
    && (forall k | k in t && t[k].inUse :: k in s && s[k].inUse)
  }

  // ----- tallies -----

  /** The payload bytes of the allocated chunks from offset c on. */
  ghost function LiveBytes(s: Shape, u: nat, c: nat): nat
    decreases if c < u then u - c else 0
  {
    if c in s && c < u then (if s[c].inUse then s[c].size else 0) + LiveBytes(s, u, End(s, c)) else 0
  }

  lemma {:induction false} LiveBytesAbove(s: Shape, t: Shape, u: nat, e: nat)
    requires Tiled(s, u) && (e == u || e in s)
    requires forall d | d >= e :: (d in s <==> d in t) && (d in s ==> s[d] == t[d])
    ensures LiveBytes(s, u, e) == LiveBytes(t, u, e)
    decreases if e < u then u - e else 0
  {
    if e in s && e < u {
      assert Followed(s, u, e);
      LiveBytesAbove(s, t, u, End(s, e));
    }
  }

  /** Free chunks contribute nothing. */
  lemma {:induction false} LiveBytesSkip(s: Shape, u: nat, c: nat, e: nat)
    requires Tiled(s, u) && c <= e <= u && (e == u || e in s) && (c == e || c in s)
    requires forall d | d in s && c <= d < e :: !s[d].inUse
    ensures LiveBytes(s, u, c) == LiveBytes(s, u, e)
    decreases e - c
  {
    Ordered(s, u);
    if c < e {
      assert Followed(s, u, c);
      LiveBytesSkip(s, u, End(s, c), e);
    }
  }

  lemma LiveBytesMerged(s: Shape, u: nat, c: nat, e: nat)
    requires Tiled(s, u) && Mergeable(s, u, c, e) && !s[c].inUse
    ensures LiveBytes(Merged(s, c, e), u, c) == LiveBytes(s, u, c)
  {
    LiveBytesSkip(s, u, c, e);
    LiveBytesAbove(s, Merged(s, c, e), u, e);
    assert End(Merged(s, c, e), c) == e;
  }

  /** Byte i of the arena belongs to the payload of the allocated chunk k. */
  ghost predicate InPayload(s: Shape, k: nat, i: nat) {
    k in s && s[k].inUse && k + HEADER_SIZE <= i < End(s, k)
  }

  ghost predicate IsPayload(s: Shape, i: nat) {
    exists k :: InPayload(s, k, i)
  }

  /** The bytes from c up to u that belong to the payload of some allocated chunk. */
  ghost function PayloadBytes(s: Shape, c: nat, u: nat): set<nat> {
    set i | c <= i < u && IsPayload(s, i)
  }

  /** The offsets from lo up to hi. */
  ghost function Range(lo: nat, hi: nat): (r: set<nat>)
    ensures forall i :: i in r <==> lo <= i < hi
    ensures |r| == if lo <= hi then hi - lo else 0
    decreases if lo < hi then hi - lo else 0
  {
    if lo < hi then Range(lo, hi - 1) + {hi - 1} else {}
  }

  /** The tally counts the bytes of the arena that belong to the payload of an allocated chunk. */
  lemma {:induction false} LiveBytesExact(s: Shape, u: nat, c: nat)
    requires Tiled(s, u) && c <= u && (c == u || c in s)
    ensures LiveBytes(s, u, c) == |PayloadBytes(s, c, u)|
    decreases u - c
  {
    if c < u {
      var e := End(s, c);
      assert Followed(s, u, c);
      LiveBytesExact(s, u, e);
      PayloadFirst(s, u, c);
    } else {
      assert PayloadBytes(s, c, u) == {};
    }
  }

  /** The payload of the first chunk, and that of the rest. */
  lemma PayloadFirst(s: Shape, u: nat, c: nat)
    requires Tiled(s, u) && c in s
    ensures var first := if s[c].inUse then Range(c + HEADER_SIZE, End(s, c)) else {};
            && PayloadBytes(s, c, u) == first + PayloadBytes(s, End(s, c), u)
            && first !! PayloadBytes(s, End(s, c), u)
  {
    var e := End(s, c);
    Ordered(s, u);
    forall i | c <= i < u
      ensures i in PayloadBytes(s, c, u)
         <==> (s[c].inUse && c + HEADER_SIZE <= i < e) || i in PayloadBytes(s, e, u)
    {
      if s[c].inUse && c + HEADER_SIZE <= i < e {
        assert InPayload(s, c, i);
      }
      if IsPayload(s, i) && i < e {
        var k :| InPayload(s, k, i);
        assert k == c;
      }
    }
  }

  lemma SplitKeepsInUse(s: Shape, u: nat, c: nat, n: nat, t: Shape, v: nat)
    requires Tiled(s, u) && c in s && !s[c].inUse && n <= s[c].size && SplitOutcome(s, u, c, n, t, v)
    ensures KeepsInUse(s, t) && c in t && !t[c].inUse && n <= t[c].size <= n + HEADER_SIZE
    ensures v == if End(s, c) == u then End(t, c) else u
  {
    SplitOutcomeTiled(s, u, c, n, t, v);
    SplitOutcomeKeeps(s, u, c, n, t, v, c + HEADER_SIZE + n);
  }
}
