/**
 The allocator of os/lib/heapmem.c as an object: chunk headers by arena offset, the arena's
 bytes, the doubly linked free list and the zone counters, all updated in place.
 */
module HeapMem {
  import opened Arithmetic
  import opened HeapLayout
  import opened Lists

  datatype Link = Null | At(offset: nat)

  /** chunk_t. The zone of a chunk that was never allocated is whatever the bytes held. */
  datatype Header = Header(prev: Link, next: Link, size: nat, inUse: bool, zone: nat)

  type Headers = map<nat, Header>

  /** struct heapmem_zone, without its name: `registered` says that the name is not NULL. */
  datatype Zone = Zone(registered: bool, limit: nat, charged: nat)

  /** An address relative to heap_base; NULL lies below the heap. */
  type Ptr = int

  const NULL: Ptr := -1

  /** size_t arithmetic wraps at this value: two to the width of size_t. */
  const SIZE_MOD: Pos

  ghost function ShapeOf(h: Headers): Shape {
    map c | c in h :: Cell(h[c].size, h[c].inUse)
  }

  lemma ShapeOfUpdate(h: Headers, c: nat, y: Header, x: Cell)
    requires x == Cell(y.size, y.inUse)
    ensures ShapeOf(h[c := y]) == ShapeOf(h)[c := x]
  {
  }

  lemma ShapeOfDrop(h: Headers, c: nat)
    ensures ShapeOf(h - {c}) == ShapeOf(h) - {c}
  {
  }

  // ----- the free list -----

  ghost function LinkAt(q: seq<nat>, i: int): Link {
    if 0 <= i < |q| then At(q[i]) else Null
  }

  /** Chunk q[i] links to its neighbours in q. */
  ghost predicate LinkedAt(h: Headers, q: seq<nat>, i: nat)
    requires i < |q| && q[i] in h
  {
    h[q[i]].next == LinkAt(q, i + 1) && h[q[i]].prev == LinkAt(q, i - 1)
  }

  /** From head, the next links visit exactly q, and the prev links go back the same way. */
  ghost predicate Linked(h: Headers, head: Link, q: seq<nat>) {
    && Distinct(q)
    && head == LinkAt(q, 0)
    && (forall i | 0 <= i < |q| :: q[i] in h)
    && (forall i {:trigger LinkedAt(h, q, i)} | 0 <= i < |q| :: LinkedAt(h, q, i))
  }

  lemma LinkedFrame(g: Headers, h: Headers, head: Link, q: seq<nat>)
    requires Linked(g, head, q)
    requires forall c | c in q :: c in h && h[c].next == g[c].next && h[c].prev == g[c].prev
    ensures Linked(h, head, q)
  {
    forall i | 0 <= i < |q|
      ensures LinkedAt(h, q, i)
    {
      assert LinkedAt(g, q, i);
    }
  }

  lemma WithoutAround(q: seq<nat>, k: nat, drop: set<nat>)
    requires k < |q|
    ensures Without(q, drop) == Without(q[..k], drop) + Without([q[k]], drop) + Without(q[k + 1..], drop)
  {
    var a, x, b := q[..k], [q[k]], q[k + 1..];
    assert q == (a + x) + b;
    WithoutConcat(a + x, b, drop);
    WithoutConcat(a, x, drop);
  }

  lemma SliceSnoc(q: seq<nat>, i: nat, x: nat)
    requires i < |q| && q[i] == x
    ensures q[..i + 1] == q[..i] + [x]
  {
  }

  /** Where the element at j ends up when others are filtered out. */
  lemma WithoutPosition(q: seq<nat>, j: nat, drop: set<nat>) returns (i: nat)
    requires j < |q| && q[j] !in drop
    ensures i <= j && i < |Without(q, drop)| && Without(q, drop)[i] == q[j]
    ensures Without(q, drop)[..i] == Without(q[..j], drop)
    ensures |Without(q, drop)| - i <= |q| - j
  {
    WithoutAround(q, j, drop);
    assert Without([q[j]], drop) == [q[j]];
    i := |Without(q[..j], drop)|;
  }

  /** The headers after chunk c is put in front of the free list. */
  ghost function Pushed(h: Headers, head: Link, c: nat): Headers
    requires c in h
  {
    var g := h[c := h[c].(inUse := false, prev := Null, next := head)];
    if head.At? && head.offset in g then g[head.offset := g[head.offset].(prev := At(c))] else g
  }

  lemma PushedLinked(h: Headers, head: Link, q: seq<nat>, c: nat)
    requires Linked(h, head, q) && c in h && c !in q
    ensures Linked(Pushed(h, head, c), At(c), [c] + q)
    ensures ShapeOf(Pushed(h, head, c)) == ShapeOf(h)[c := Cell(h[c].size, false)]
    ensures forall k | k in h :: Pushed(h, head, c)[k].zone == h[k].zone
  {
    var g, r := Pushed(h, head, c), [c] + q;
    forall i | 0 <= i < |r|
      ensures r[i] in g && LinkedAt(g, r, i)
    {
      if i > 0 {
        assert r[i] == q[i - 1] && LinkedAt(h, q, i - 1);
      }
    }
  }

  /** The headers after the links around chunk c have been joined. */
  ghost function Unlinked(h: Headers, c: nat): Headers
    requires c in h
  {
    var p, n := h[c].prev, h[c].next;
    var g := if p.At? && p.offset in h then h[p.offset := h[p.offset].(next := n)] else h;
    if n.At? && n.offset in g then g[n.offset := g[n.offset].(prev := p)] else g
  }

  lemma UnlinkedLinked(h: Headers, head: Link, q: seq<nat>, k: nat)
    requires Linked(h, head, q) && k < |q|
    ensures var r := q[..k] + q[k + 1..];
            Linked(Unlinked(h, q[k]), if k == 0 then h[q[0]].next else head, r)
    ensures ShapeOf(Unlinked(h, q[k])) == ShapeOf(h)
    ensures forall c | c in h :: c in Unlinked(h, q[k]) && Unlinked(h, q[k])[c].zone == h[c].zone
  {
    var g, r := Unlinked(h, q[k]), q[..k] + q[k + 1..];
    assert LinkedAt(h, q, k);
    forall i | 0 <= i < |r|
      ensures LinkedAt(g, r, i)
    {
      UnlinkedAt(h, head, q, k, i);
    }
  }

  lemma UnlinkedAt(h: Headers, head: Link, q: seq<nat>, k: nat, i: nat)
    requires Linked(h, head, q) && k < |q| && i + 1 < |q|
    ensures var r := q[..k] + q[k + 1..];
            r[i] in Unlinked(h, q[k]) && LinkedAt(Unlinked(h, q[k]), r, i)
  {
    var r := q[..k] + q[k + 1..];
    var j := if i < k then i else i + 1;
    assert r[i] == q[j];
    assert LinkedAt(h, q, k) && LinkedAt(h, q, j);
    assert i + 1 < |r| ==> r[i + 1] == q[if i + 1 < k then i + 1 else i + 2];
    assert i > 0 ==> r[i - 1] == q[if i - 1 < k then i - 1 else i];
  }

  /** The list holds each free chunk, but for those in held. */
  ghost predicate Listed(h: Headers, q: seq<nat>, held: set<nat>) {
    forall c | c in h :: c in q <==> !h[c].inUse && c !in held
  }

  ghost predicate ZonesExist(h: Headers, count: nat) {
    forall c | c in h && h[c].inUse :: h[c].zone < count
  }

  lemma MergedListed(g: Headers, h: Headers, q: seq<nat>, c: nat, e: nat)
    requires Listed(g, q, {}) && c in g && c + HEADER_SIZE <= e
    requires ShapeOf(h) == Merged(ShapeOf(g), c, e)
    ensures Listed(h, Without(q, Inside(ShapeOf(g), c, e)), {})
    ensures h.Keys <= g.Keys && forall k | k in h :: h[k].inUse == g[k].inUse
  {
    WithoutMembers(q, Inside(ShapeOf(g), c, e));
    forall k | k in h
      ensures k in g && h[k].inUse == g[k].inUse && k !in Inside(ShapeOf(g), c, e)
    {
      assert k in ShapeOf(h) && ShapeOf(h)[k].inUse == h[k].inUse;
      assert k in ShapeOf(g) && ShapeOf(g)[k].inUse == g[k].inUse;
    }
  }

  // ----- the arena's bytes -----

  ghost predicate InHeader(keys: set<nat>, i: int) {
    exists k :: k in keys && k <= i < k + HEADER_SIZE
  }

  /** From m to n, no byte outside the headers at the offsets in keys has changed. */
  ghost predicate OnlyHeaders(keys: set<nat>, m: seq<bv8>, n: seq<bv8>) {
    |m| == |n| && forall i | 0 <= i < |m| && !InHeader(keys, i) :: n[i] == m[i]
  }

  lemma OnlyHeadersMono(a: set<nat>, keys: set<nat>, m: seq<bv8>, n: seq<bv8>)
    requires a <= keys && OnlyHeaders(a, m, n)
    ensures OnlyHeaders(keys, m, n)
  {
    forall i | 0 <= i < |m| && !InHeader(keys, i)
      ensures n[i] == m[i]
    {
      assert !InHeader(a, i);
    }
  }

  lemma OnlyHeadersTrans(a: set<nat>, b: set<nat>, keys: set<nat>, l: seq<bv8>, m: seq<bv8>, n: seq<bv8>)
    requires a <= keys && b <= keys
    requires OnlyHeaders(a, l, m) && OnlyHeaders(b, m, n)
    ensures OnlyHeaders(keys, l, n)
  {
    forall i | 0 <= i < |l| && !InHeader(keys, i)
      ensures n[i] == l[i]
    {
      assert !InHeader(a, i) && !InHeader(b, i);
    }
  }

  ghost function BlocksOf(s: Shape, m: seq<bv8>): map<nat, seq<bv8>> {
    map c | c in s && s[c].inUse && End(s, c) <= |m| :: m[c + HEADER_SIZE..End(s, c)]
  }

  /** Header writes of a step between two tilings never reach a block that both have. */
  lemma PayloadKept(s: Shape, u: nat, t: Shape, v: nat, keys: set<nat>, m: seq<bv8>, n: seq<bv8>, c: nat, len: nat)
    requires Tiled(s, u) && Tiled(t, v) && u <= |m| && v <= |m|
    requires keys <= s.Keys + t.Keys + {v}
    requires OnlyHeaders(keys, m, n)
    requires c in s && c in t && len <= s[c].size && len <= t[c].size
    ensures c + HEADER_SIZE + len <= |m|
    ensures m[c + HEADER_SIZE..c + HEADER_SIZE + len] == n[c + HEADER_SIZE..c + HEADER_SIZE + len]
  {
    assert End(s, c) <= u && End(t, c) <= v;
    Ordered(s, u);
    Ordered(t, v);
    forall i | c + HEADER_SIZE <= i < c + HEADER_SIZE + len
      ensures n[i] == m[i]
    {
      forall k | k in keys
        ensures !(k <= i < k + HEADER_SIZE)
      {
        if k in s && k < c {
          assert End(s, k) <= c;
        } else if k in t && k < c {
          assert End(t, k) <= c;
        }
      }
      assert !InHeader(keys, i);
    }
  }

  ghost predicate Bounded(s: Shape, len: nat) {
    forall c | c in s :: End(s, c) <= len
  }

  ghost function Shorter(s: Shape, t: Shape, k: nat): nat
    requires k in s && k in t
  {
    if s[k].size < t[k].size then s[k].size else t[k].size
  }

  lemma InBlocks(s: Shape, u: nat, m: seq<bv8>)
    requires Tiled(s, u) && u <= |m|
    ensures Bounded(s, |m|)
    ensures forall c :: c in BlocksOf(s, m) <==> c in s && s[c].inUse
    ensures forall c | c in s && s[c].inUse :: |BlocksOf(s, m)[c]| == s[c].size
  {
  }

  /** A block that is live in both shapes keeps its bytes, as many as both have. */
  ghost predicate Survives(s: Shape, t: Shape, m: seq<bv8>, n: seq<bv8>, k: nat)
    requires Bounded(s, |m|) && Bounded(t, |n|) && k in s && k in t
  {
    var p := k + HEADER_SIZE;
    assert End(s, k) <= |m| && End(t, k) <= |n|;
    m[p..p + Shorter(s, t, k)] == n[p..p + Shorter(s, t, k)]
  }

  ghost predicate AllSurvive(s: Shape, t: Shape, m: seq<bv8>, n: seq<bv8>) {
    && Bounded(s, |m|) && Bounded(t, |n|)
    && (forall k {:trigger Survives(s, t, m, n, k)} | k in s && k in t && s[k].inUse && t[k].inUse ::
          Survives(s, t, m, n, k))
  }

  /** Header writes in a step from one tiling to another reach no block that is live in both. */
  lemma StepSurvives(s: Shape, u: nat, t: Shape, v: nat, keys: set<nat>, m: seq<bv8>, n: seq<bv8>)
    requires Tiled(s, u) && Tiled(t, v) && u <= |m| && v <= |m|
    requires keys <= s.Keys + t.Keys + {v} && OnlyHeaders(keys, m, n)
    ensures AllSurvive(s, t, m, n)
  {
    assert Bounded(s, |m|) && Bounded(t, |n|);
    forall k | k in s && k in t && s[k].inUse && t[k].inUse
      ensures Survives(s, t, m, n, k)
    {
      PayloadKept(s, u, t, v, keys, m, n, k, Shorter(s, t, k));
    }
  }

  lemma BlockKept(s: Shape, t: Shape, m: seq<bv8>, n: seq<bv8>, k: nat)
    requires AllSurvive(s, t, m, n)
    requires k in s && s[k].inUse && k in t && t[k] == s[k]
    ensures k in BlocksOf(s, m) && k in BlocksOf(t, n) && BlocksOf(t, n)[k] == BlocksOf(s, m)[k]
  {
    assert Survives(s, t, m, n, k);
    assert End(s, k) == End(t, k) == k + HEADER_SIZE + Shorter(s, t, k);
  }

  /** All blocks but c are kept. */
  lemma OthersKept(s: Shape, t: Shape, m: seq<bv8>, n: seq<bv8>, c: nat)
    requires AllSurvive(s, t, m, n)
    requires forall k | k in s && s[k].inUse && k != c :: k in t && t[k] == s[k]
    requires forall k | k in t && t[k].inUse && k != c :: k in s && s[k].inUse
    ensures BlocksOf(t, n) - {c} == BlocksOf(s, m) - {c}
  {
    var a, b := BlocksOf(s, m) - {c}, BlocksOf(t, n) - {c};
    forall k
      ensures k in a <==> k in b
      ensures k in a ==> b[k] == a[k]
    {
      if k in s && s[k].inUse && k != c {
        BlockKept(s, t, m, n, k);
      }
    }
  }

  lemma BlocksKept(s: Shape, t: Shape, m: seq<bv8>, n: seq<bv8>)
    requires AllSurvive(s, t, m, n) && KeepsInUse(s, t)
    ensures BlocksOf(t, n) == BlocksOf(s, m)
  {
    var a, b := BlocksOf(s, m), BlocksOf(t, n);
    forall k
      ensures k in a <==> k in b
      ensures k in a ==> b[k] == a[k]
    {
      if k in s && s[k].inUse {
        BlockKept(s, t, m, n, k);
      }
    }
  }

  /** Block c may have changed its length; its common prefix and all other blocks have not changed. */
  ghost predicate Resized(a: map<nat, seq<bv8>>, b: map<nat, seq<bv8>>, c: nat) {
    && c in a && c in b && b - {c} == a - {c}
    && (forall i | 0 <= i < |a[c]| && i < |b[c]| :: b[c][i] == a[c][i])
  }

  lemma BlockResized(s: Shape, t: Shape, m: seq<bv8>, n: seq<bv8>, c: nat)
    requires AllSurvive(s, t, m, n) && KeepsOthers(s, t, c)
    ensures Resized(BlocksOf(s, m), BlocksOf(t, n), c)
    ensures |BlocksOf(s, m)[c]| == s[c].size && |BlocksOf(t, n)[c]| == t[c].size
  {
    assert Survives(s, t, m, n, c);
    assert End(s, c) <= |m| && End(t, c) <= |n|;
    PrefixesAgree(m, n, c + HEADER_SIZE, End(s, c), End(t, c), Shorter(s, t, c));
    OthersKept(s, t, m, n, c);
  }

  lemma PrefixesAgree(m: seq<bv8>, n: seq<bv8>, p: nat, d: nat, e: nat, len: nat)
    requires p + len <= d <= |m| && p + len <= e <= |n|
    requires m[p..p + len] == n[p..p + len]
    ensures forall i | 0 <= i < len :: n[p..e][i] == m[p..d][i]
  {
    forall i | 0 <= i < len
      ensures n[p..e][i] == m[p..d][i]
    {
      assert m[p..p + len][i] == n[p..p + len][i];
    }
  }

  lemma BlockAdded(s: Shape, r: Shape, t: Shape, m: seq<bv8>, n: seq<bv8>, c: nat, x: Cell)
    requires AllSurvive(s, t, m, n)
    requires KeepsInUse(s, r) && c in r && !r[c].inUse && x.inUse && t == r[c := x]
    ensures c !in BlocksOf(s, m) && c in BlocksOf(t, n) && |BlocksOf(t, n)[c]| == x.size
    ensures BlocksOf(t, n) - {c} == BlocksOf(s, m)
  {
    OthersKept(s, t, m, n, c);
    assert BlocksOf(s, m) - {c} == BlocksOf(s, m);
    assert End(t, c) <= |n|;
  }

  lemma BlockDropped(s: Shape, t: Shape, m: seq<bv8>, n: seq<bv8>, c: nat)
    requires AllSurvive(s, t, m, n)
    requires forall k | k in s && s[k].inUse && k != c :: k in t && t[k] == s[k]
    requires forall k | k in t && t[k].inUse :: k in s && s[k].inUse
    requires c in t ==> !t[c].inUse
    ensures BlocksOf(t, n) == BlocksOf(s, m) - {c}
  {
    OthersKept(s, t, m, n, c);
    assert BlocksOf(t, n) - {c} == BlocksOf(t, n);
  }

  ghost predicate HasBestFit(s: Shape, u: nat, n: nat, c: nat) {
    exists e: nat :: BestFit(s, u, n, c, e)
  }

  /** The chosen chunk is a best fit of heap s, or s has no fitting run at all. */
  ghost predicate GoodChoice(s: Shape, u: nat, n: nat, best: Link) {
    if best == Null then !exists a: nat, e: nat :: FittingRun(s, u, n, a, e)
    else HasBestFit(s, u, n, best.offset)
  }

  /** Block c is new and holds n bytes, or so few more that splitting it was not worth it; all blocks there were
      are unchanged. */
  ghost predicate Allocated(a: map<nat, seq<bv8>>, b: map<nat, seq<bv8>>, c: nat, n: nat) {
    c !in a && c in b && n <= |b[c]| <= n + HEADER_SIZE && b - {c} == a
  }

  /** Which chunk an allocation of n bytes takes: a best fit; else the unused tail; else none. */
  ghost predicate Placed(s: Shape, u: nat, n: nat, chunk: Link) {
    if exists a: nat, e: nat :: FittingRun(s, u, n, a, e)
    then chunk != Null && HasBestFit(s, u, n, chunk.offset)
    else chunk == if HEADER_SIZE + n > ARENA_SIZE - u then Null else At(u)
  }

  /** What reallocating live block c to n bytes may do; r is the chunk returned.
      On failure the block stays, possibly longer; on success it stays or moves to a new chunk,
      and its first bytes come along. */
  ghost predicate Reallocated(a: map<nat, seq<bv8>>, b: map<nat, seq<bv8>>, c: nat, n: nat, r: Link) {
    && c in a
    && match r
       case Null => n > |a[c]| && Resized(a, b, c) && |b[c]| >= |a[c]|
       case At(d) =>
         && d in b && n <= |b[d]| <= n + HEADER_SIZE && b - {d} == a - {c}
         && (d == c || d !in a)
         && (forall i | 0 <= i < |a[c]| && i < |b[d]| :: b[d][i] == a[c][i])
  }

  lemma ResizedTwice(a: map<nat, seq<bv8>>, b: map<nat, seq<bv8>>, d: map<nat, seq<bv8>>, c: nat)
    requires Resized(a, b, c) && Resized(b, d, c) && |b[c]| >= |a[c]|
    ensures Resized(a, d, c)
  {
  }

  /** The charge of a zone after adding an amount in size_t arithmetic. */
  function Charged(z: Zone, amount: int): Zone {
    z.(charged := (z.charged + amount) % SIZE_MOD)
  }

  /** What a realloc of the block at c to n bytes charges to its zone when the block ends up at r: a moved block
      is charged anew. */
  ghost function ReallocCharged(zones: seq<Zone>, h: Header, c: nat, n: nat, r: Link): seq<Zone> {
    if r == Null then zones
    else Recharged(zones, h.zone, if r == At(c) then n - h.size else HEADER_SIZE + n)
  }

  /** The zone table after charging an amount to zone z. */
  ghost function Recharged(zones: seq<Zone>, z: nat, amount: int): seq<Zone> {
    if z < |zones| then zones[z := Charged(zones[z], amount)] else zones
  }

  // ----- what a call may do -----

  /** The checks on size and zone at the start of heapmem_zone_alloc. */
  predicate Admits(zones: seq<Zone>, zone: nat, size: nat) {
    && size <= ARENA_SIZE
    && zone < |zones| && zones[zone].registered
    && HEADER_SIZE + Align(size) <= (zones[zone].limit - zones[zone].charged) % SIZE_MOD
  }

  /** From g to h, live chunks keep their zone, but for those in `but`, and no other becomes live. */
  ghost predicate ZonesKept(g: Headers, h: Headers, but: set<nat>) {
    forall k | k in h && h[k].inUse && k !in but :: k in g && g[k].inUse && h[k].zone == g[k].zone
  }

  lemma ZonesKeptTrans(f: Headers, g: Headers, h: Headers, a: set<nat>, b: set<nat>, but: set<nat>)
    requires ZonesKept(f, g, a) && ZonesKept(g, h, b) && a <= but && b <= but
    ensures ZonesKept(f, h, but)
  {
  }

  lemma ZonesKeptBy(g: Headers, h: Headers)
    requires KeepsInUse(ShapeOf(g), ShapeOf(h))
    requires forall k | k in h && k in g :: h[k].zone == g[k].zone
    ensures ZonesKept(g, h, {})
  {
    forall k | k in h && h[k].inUse
      ensures k in g && g[k].inUse
    {
      assert k in ShapeOf(h) && ShapeOf(h)[k].inUse;
      assert k in ShapeOf(g) && ShapeOf(g)[k].inUse;
    }
  }

  /** The end of the used prefix once a block of len bytes has been placed at c in heap s: a new block that no
      live one lies above ends it. */
  ghost function UsedAfter(s: Shape, u: nat, c: nat, len: nat): nat {
    if Topmost(s, c) then c + HEADER_SIZE + len else u
  }

  /** The heap between two calls, as far as the calls speak of it. */
  datatype State = State(hdr: Headers, used: nat, zones: seq<Zone>, spare: nat, blocks: map<nat, seq<bv8>>)

  /** The used prefix is tiled, `spare` counts the free chunks, and the blocks are the live chunks. */
  ghost predicate Sound(s: State) {
    && Tiled(ShapeOf(s.hdr), s.used) && s.used <= ARENA_SIZE
    && s.spare == |Below(s.hdr, false, s.used)|
    && (forall c :: c in s.blocks <==> c in s.hdr && s.hdr[c].inUse)
    && (forall c | c in s.blocks :: |s.blocks[c]| == s.hdr[c].size)
  }

  /** The part of an allocation that takes block r and marks it as one of the zone. */
  ghost predicate TakeStep(s: State, zone: nat, n: nat, r: Link, t: State) {
    match r
    case Null => t.blocks == s.blocks && t.used == s.used && ZonesKept(s.hdr, t.hdr, {})
    case At(c) =>
      && Allocated(s.blocks, t.blocks, c, n)
      && ZonesKept(s.hdr, t.hdr, {c}) && c in t.hdr && t.hdr[c].zone == zone
      && (s.spare <= SEARCH_MAX ==> t.used == UsedAfter(ShapeOf(s.hdr), s.used, c, |t.blocks[c]|))
  }

  lemma TakenWhateverCharged(s: State, zone: nat, n: nat, r: Link, t: State, zones: seq<Zone>)
    requires TakeStep(s, zone, n, r, t)
    ensures TakeStep(s, zone, n, r, t.(zones := zones))
  {
  }

  /** heapmem_zone_alloc from heap s to heap t, r being the chunk it takes. A refused call changes no block and
      charges nothing. */
  ghost predicate AllocStep(s: State, zone: nat, size: nat, r: Link, t: State) {
    && (!Admits(s.zones, zone, size) ==> r == Null)
    && (Admits(s.zones, zone, size) && s.spare <= SEARCH_MAX ==> Placed(ShapeOf(s.hdr), s.used, Align(size), r))
    && TakeStep(s, zone, Align(size), r, t)
    && t.zones == if r == Null then s.zones else Recharged(s.zones, zone, HEADER_SIZE + Align(size))
  }

  lemma Refused(s: State, zone: nat, size: nat)
    requires !Admits(s.zones, zone, size)
    ensures AllocStep(s, zone, size, Null, s)
  {
  }

  /** An admitted allocation past the zone check, given what FindOrMake and MarkInUse leave. */
  lemma Tried(s: State, zone: nat, size: nat, n: nat, r: Link, t: State)
    requires Admits(s.zones, zone, size) && n == Align(size)
    requires s.spare <= SEARCH_MAX ==> Placed(ShapeOf(s.hdr), s.used, n, r)
    requires TakeStep(s, zone, n, r, t)
    requires t.zones == if r == Null then s.zones else Recharged(s.zones, zone, HEADER_SIZE + n)
    ensures AllocStep(s, zone, size, r, t)
  {
  }

  /** heapmem_free of live block c from heap s to heap t. */
  ghost predicate FreeStep(s: State, c: nat, t: State) {
    && c in s.hdr && c in s.blocks
    && t.blocks == s.blocks - {c}
    && t.zones == Recharged(s.zones, s.hdr[c].zone, -(HEADER_SIZE + s.hdr[c].size))
    && t.used == (if End(ShapeOf(s.hdr), c) == s.used then c else s.used)
    && ZonesKept(s.hdr, t.hdr, {})
  }

  /** Live block c can hold n bytes where it is: it does already; or it is the last one and the unused tail holds
      the difference; or it is not the last one and does so together with the free chunks right after it. */
  ghost predicate FitsInPlace(s: Shape, u: nat, c: nat, n: nat)
    requires c in s
  {
    || n <= s[c].size
    || (if End(s, c) == u then n - s[c].size <= ARENA_SIZE - u else c + HEADER_SIZE + n <= RunEnd(s, u, c))
  }

  /** The end of the used prefix once block c has come to hold len bytes in place, n of them asked for. */
  ghost function UsedInPlace(s: Shape, u: nat, c: nat, n: nat, len: nat): nat
    requires c in s
  {
    if (if n <= s[c].size then End(s, c) else RunEnd(s, u, c)) == u then c + HEADER_SIZE + len else u
  }

  /** The end of the used prefix once the block at c has moved to one of len bytes at d. */
  ghost function UsedAfterMove(s: Shape, u: nat, c: nat, d: nat, len: nat): nat
    requires c in s
  {
    var v := UsedAfter(s, u, d, len);
    if End(s, c) == v then c else v
  }

  /** Where heapmem_realloc puts live block c when asked for n bytes: it stays if it fits in place. If not, it has
      taken in the free chunks after it for nothing, and a new block is placed in the heap left after that merge,
      provided that its zone lets another block of n bytes in. Without a new block the answer is NULL. */
  ghost predicate Resettled(s: State, c: nat, n: nat, r: Link, t: State)
    requires c in s.hdr
  {
    var h, u := ShapeOf(s.hdr), s.used;
    var m := Merged(h, c, RunEnd(h, u, c));
    && (r == At(c) <==> FitsInPlace(h, u, c, n))
    && (r == At(c) ==> c in t.blocks && t.used == UsedInPlace(h, u, c, n, |t.blocks[c]|))
    && (r != At(c) && !Admits(s.zones, s.hdr[c].zone, n) ==> r == Null)
    && (r != At(c) && Admits(s.zones, s.hdr[c].zone, n) && s.spare <= SEARCH_MAX ==> Placed(m, u, n, r))
    && (r == Null ==> c in t.blocks && |t.blocks[c]| == m[c].size && t.used == u)
    && (r != At(c) && r.At? && s.spare <= SEARCH_MAX ==>
          r.offset in t.blocks && t.used == UsedAfterMove(m, u, c, r.offset, |t.blocks[r.offset]|))
  }

  /** heapmem_realloc of live block c to n > 0 bytes from heap s to heap t, r being the chunk that holds the block
      afterwards. */
  ghost predicate ReallocStep(s: State, c: nat, n: nat, r: Link, t: State) {
    && c in s.hdr
    && Reallocated(s.blocks, t.blocks, c, n, r)
    && Resettled(s, c, n, r, t)
    && t.zones == ReallocCharged(s.zones, s.hdr[c], c, n, r)
    && match r
       case Null => ZonesKept(s.hdr, t.hdr, {})
       case At(d) => ZonesKept(s.hdr, t.hdr, {d}) && d in t.hdr && t.hdr[d].zone == s.hdr[c].zone
  }

  // ----- what is charged -----

  /** What the zone check of heapmem_zone_alloc takes a zone to have left. */
  function Room(z: Zone): int {
    (z.limit - z.charged) % SIZE_MOD
  }

  /** Of the zones, only zone z has changed, and of it only what is charged. */
  ghost predicate OnlyCharged(before: seq<Zone>, after: seq<Zone>, z: nat) {
    && |before| == |after| && z < |after|
    && after[z].registered == before[z].registered && after[z].limit == before[z].limit
    && forall i | 0 <= i < |before| && i != z :: after[i] == before[i]
  }

  /** An allocation leaves its zone a header and the aligned size less room, in plain numbers. */
  lemma AllocTakesRoom(s: State, zone: nat, size: nat, c: nat, t: State)
    requires AllocStep(s, zone, size, At(c), t)
    ensures OnlyCharged(s.zones, t.zones, zone)
    ensures Room(t.zones[zone]) == Room(s.zones[zone]) - HEADER_SIZE - Align(size)
  {
    RoomCharged(s.zones[zone], HEADER_SIZE + Align(size));
    SmallMod(Room(s.zones[zone]) - (HEADER_SIZE + Align(size)));
  }

  /** Freeing a block gives its zone back a header and the size of the block. */
  lemma FreeGivesRoom(s: State, c: nat, t: State)
    requires FreeStep(s, c, t) && s.hdr[c].zone < |s.zones|
    ensures OnlyCharged(s.zones, t.zones, s.hdr[c].zone)
    ensures var z := s.hdr[c].zone; Room(t.zones[z]) == (Room(s.zones[z]) + HEADER_SIZE + s.hdr[c].size) % SIZE_MOD
  {
    RoomCharged(s.zones[s.hdr[c].zone], -(HEADER_SIZE + s.hdr[c].size));
  }

  /** A block that was allocated and freed again leaves its zone as much more room as the block was longer than the size
      asked for. */
  lemma AllocFreeRoom(s: State, zone: nat, size: nat, c: nat, t: State, u: State)
    requires Sound(t) && AllocStep(s, zone, size, At(c), t) && FreeStep(t, c, u)
    ensures zone < |s.zones| && zone < |u.zones| && c in t.blocks
    ensures Room(u.zones[zone]) == (Room(s.zones[zone]) + |t.blocks[c]| - Align(size)) % SIZE_MOD
  {
    AllocTakesRoom(s, zone, size, c, t);
    FreeGivesRoom(t, c, u);
  }

  /** A block that stays gives or takes the difference of the sizes; one that moves takes room for a new block and gives
      none back. */
  lemma ReallocRoom(s: State, c: nat, n: nat, r: Link, t: State)
    requires ReallocStep(s, c, n, r, t) && s.hdr[c].zone < |s.zones| && Align(n) == n
    ensures OnlyCharged(s.zones, t.zones, s.hdr[c].zone)
    ensures var z := s.hdr[c].zone;
            && (r == Null ==> t.zones == s.zones)
            && (r == At(c) ==> Room(t.zones[z]) == (Room(s.zones[z]) + s.hdr[c].size - n) % SIZE_MOD)
            && (r != Null && r != At(c) ==> Room(t.zones[z]) == Room(s.zones[z]) - HEADER_SIZE - n)
  {
    var z := s.zones[s.hdr[c].zone];
    if r == At(c) {
      RoomCharged(z, n - s.hdr[c].size);
    } else if r != Null {
      RoomCharged(z, HEADER_SIZE + n);
      SmallMod(Room(z) - (HEADER_SIZE + n));
    }
  }

  lemma RoomCharged(z: Zone, amount: int)
    ensures Room(Charged(z, amount)) == (Room(z) - amount) % SIZE_MOD
  {
    RoomLess(z.limit, z.charged + amount, z.limit - z.charged, amount);
  }

  lemma RoomLess(x: int, y: int, room: int, amount: int)
    requires x - y == room - amount
    ensures (x - y % SIZE_MOD) % SIZE_MOD == (room % SIZE_MOD - amount) % SIZE_MOD
  {
    ModMinus(x, y, x - y);
    ModMinusOf(room, amount, x - y);
  }

  lemma ModMinus(x: int, y: int, d: int)
    requires d == x - y
    ensures (x - y % SIZE_MOD) % SIZE_MOD == d % SIZE_MOD
  {
    ModShift(d, y / SIZE_MOD);
  }

  lemma ModMinusOf(x: int, y: int, d: int)
    requires d == x - y
    ensures (x % SIZE_MOD - y) % SIZE_MOD == d % SIZE_MOD
  {
    ModShift(d, -(x / SIZE_MOD));
  }

  lemma ModShift(x: int, k: int)
    ensures (x + k * SIZE_MOD) % SIZE_MOD == x % SIZE_MOD
  {
    assert x + k * SIZE_MOD == (x / SIZE_MOD + k) * SIZE_MOD + x % SIZE_MOD;
    QuotientUnique(x + k * SIZE_MOD, SIZE_MOD, x / SIZE_MOD + k, x % SIZE_MOD);
  }

  lemma SmallMod(x: int)
    ensures 0 <= x < SIZE_MOD ==> x % SIZE_MOD == x
  {
    if 0 <= x < SIZE_MOD {
      QuotientUnique(x, SIZE_MOD, 0, x);
    }
  }

  /** From heap s to heap t, block c took in the free chunks after it, and still does not hold n bytes. */
  ghost predicate GrewInVain(s: State, c: nat, n: nat, t: State) {
    && c in s.hdr && c in t.hdr && !FitsInPlace(ShapeOf(s.hdr), s.used, c, n)
    && Resized(s.blocks, t.blocks, c) && |s.blocks[c]| <= |t.blocks[c]| == t.hdr[c].size < n
    && ShapeOf(t.hdr) == Merged(ShapeOf(s.hdr), c, RunEnd(ShapeOf(s.hdr), s.used, c))
    && t.used == s.used && t.zones == s.zones && t.spare <= s.spare
    && t.hdr[c].zone == s.hdr[c].zone && ZonesKept(s.hdr, t.hdr, {})
  }

  /** Block c has come to hold n bytes in place. */
  lemma Stayed(s: State, r: State, c: nat, n: nat, t: State)
    requires c in s.hdr && c in r.hdr && r.hdr[c].zone == s.hdr[c].zone
    requires FitsInPlace(ShapeOf(s.hdr), s.used, c, n)
    requires Resized(s.blocks, r.blocks, c) && n <= |r.blocks[c]| <= n + HEADER_SIZE
    requires r.used == UsedInPlace(ShapeOf(s.hdr), s.used, c, n, |r.blocks[c]|)
    requires ZonesKept(s.hdr, r.hdr, {})
    requires t == r.(zones := Recharged(s.zones, s.hdr[c].zone, n - s.hdr[c].size))
    ensures ReallocStep(s, c, n, At(c), t)
  {
    ZonesKeptTrans(s.hdr, s.hdr, t.hdr, {c}, {}, {c});
  }

  lemma NotMoved(s: State, s1: State, c: nat, n: nat, t: State)
    requires GrewInVain(s, c, n, s1) && Align(n) == n && AllocStep(s1, s1.hdr[c].zone, n, Null, t)
    ensures ReallocStep(s, c, n, Null, t)
  {
    ZonesKeptTrans(s.hdr, s1.hdr, t.hdr, {}, {}, {});
  }

  /** A block that grew in vain, was copied to the new block d and then freed. */
  lemma Moved(s: State, s1: State, s2: State, t: State, c: nat, n: nat, d: nat)
    requires GrewInVain(s, c, n, s1) && Align(n) == n && AllocStep(s1, s1.hdr[c].zone, n, At(d), s2)
    requires d in t.blocks && t.blocks - {d} == s1.blocks - {c} && s1.blocks[c] <= t.blocks[d]
    requires d in s2.blocks && |t.blocks[d]| == |s2.blocks[d]|
    requires t.zones == s2.zones && d in t.hdr && d in s2.hdr && t.hdr[d].zone == s2.hdr[d].zone
    requires ZonesKept(s2.hdr, t.hdr, {})
    requires t.used == if c + HEADER_SIZE + |s1.blocks[c]| == s2.used then c else s2.used
    ensures d != c && ReallocStep(s, c, n, At(d), t)
  {
    assert d in s.blocks ==> d in s.blocks - {c};
    ZonesKeptTrans(s.hdr, s1.hdr, s2.hdr, {}, {d}, {d});
    ZonesKeptTrans(s.hdr, s2.hdr, t.hdr, {d}, {}, {d});
    assert s1.hdr[c].size == ShapeOf(s1.hdr)[c].size;
  }

  /** GET_CHUNK. */
  function GetChunk(ptr: Ptr): Link {
    if ptr >= HEADER_SIZE then At(ptr - HEADER_SIZE) else Null
  }

  /** heapmem_stats_t. */
  datatype Stats = Stats(allocated_: nat, overhead: nat, available: nat, footprint: nat, chunks: nat)

  /** The chunks below offset e whose allocated flag is `flag`. */
  ghost function Below(h: Headers, flag: bool, e: nat): set<nat> {
    set c | c in h && h[c].inUse == flag && c < e
  }

  /** The bytes that n headers take. */
  ghost function HeadersOf(n: nat): nat {
    if n == 0 then 0 else HeadersOf(n - 1) + HEADER_SIZE
  }

  lemma {:induction false} HeadersOfProduct(n: nat)
    ensures HeadersOf(n) == HEADER_SIZE * n
  {
    if n > 0 {
      HeadersOfProduct(n - 1);
      assert HEADER_SIZE * n == HEADER_SIZE * (n - 1) + HEADER_SIZE;
    }
  }

  /** The figures of heapmem_stats after the chunks below offset c, f of them free. */
  ghost predicate TallyOf(h: Headers, u: nat, live: nat, c: nat, st: Stats, f: nat) {
    && c <= u && (c == u || c in h)
    && st.allocated_ + LiveBytes(ShapeOf(h), u, c) == live
    && st.allocated_ + st.overhead + st.available + HeadersOf(f) == c
    && f == |Below(h, false, c)| && st.chunks == |Below(h, true, c)| && st.overhead == HeadersOf(st.chunks)
  }

  /** The free chunks below offset c have no free neighbour to their right. */
  ghost predicate ClosedBelow(h: Headers, u: nat, c: nat) {
    forall k | k in Below(h, false, c) :: k in ShapeOf(h) && RightClosed(ShapeOf(h), u, k)
  }

  /** Merging at free chunk c changes nothing below it. */
  lemma TallyMerged(g: Headers, h: Headers, u: nat, live: nat, c: nat, e: nat, st: Stats, f: nat)
    requires Tiled(ShapeOf(g), u) && Mergeable(ShapeOf(g), u, c, e) && !g[c].inUse
    requires ShapeOf(h) == Merged(ShapeOf(g), c, e)
    requires TallyOf(g, u, live, c, st, f)
    ensures c in h && TallyOf(h, u, live, c, st, f)
  {
    LiveBytesMerged(ShapeOf(g), u, c, e);
    assert c in ShapeOf(h);
    MergedBelow(g, h, c, e);
  }

  lemma ClosedMerged(g: Headers, h: Headers, u: nat, c: nat, e: nat)
    requires Mergeable(ShapeOf(g), u, c, e) && !g[c].inUse
    requires ShapeOf(h) == Merged(ShapeOf(g), c, e)
    requires ClosedBelow(g, u, c)
    ensures ClosedBelow(h, u, c)
  {
    MergedBelow(g, h, c, e);
    forall k | k in Below(h, false, c)
      ensures k in ShapeOf(h) && RightClosed(ShapeOf(h), u, k)
    {
      assert k in Below(g, false, c);
      RightClosedKept(ShapeOf(g), u, c, e, k);
    }
  }

  lemma MergedBelow(g: Headers, h: Headers, c: nat, e: nat)
    requires c in g && c + HEADER_SIZE <= e && ShapeOf(h) == Merged(ShapeOf(g), c, e)
    ensures Below(h, true, c) == Below(g, true, c) && Below(h, false, c) == Below(g, false, c)
  {
    forall k | k < c
      ensures k in g <==> k in h
      ensures k in g ==> h[k].inUse == g[k].inUse
    {
      assert k in ShapeOf(g) <==> k in ShapeOf(h);
      if k in g {
        assert ShapeOf(g)[k] == ShapeOf(h)[k];
      }
    }
  }

  lemma BelowNext(h: Headers, u: nat, c: nat, e: nat)
    requires Tiled(ShapeOf(h), u) && c in h && e == c + HEADER_SIZE + h[c].size
    ensures e <= u && (e == u || e in h)
    ensures c !in Below(h, h[c].inUse, c)
    ensures Below(h, h[c].inUse, e) == Below(h, h[c].inUse, c) + {c}
    ensures |Below(h, h[c].inUse, e)| == |Below(h, h[c].inUse, c)| + 1
    ensures Below(h, !h[c].inUse, e) == Below(h, !h[c].inUse, c)
    ensures c < u && LiveBytes(ShapeOf(h), u, c) == (if h[c].inUse then h[c].size else 0) + LiveBytes(ShapeOf(h), u, e)
  {
    var s := ShapeOf(h);
    assert c in s && e == End(s, c);
    assert Followed(s, u, c);
    NothingInside(s, u, c);
    forall k | k in h && k < e
      ensures k <= c
    {
      assert k in s;
    }
    assert Below(h, h[c].inUse, e) == Below(h, h[c].inUse, c) + {c};
  }

  /** The walk of heapmem_stats takes chunk c into account. */
  lemma TallyLive(h: Headers, u: nat, live: nat, c: nat, st: Stats, f: nat, st': Stats)
    requires Tiled(ShapeOf(h), u) && c in h && h[c].inUse && TallyOf(h, u, live, c, st, f)
    requires st' == st.(allocated_ := st.allocated_ + h[c].size, overhead := st.overhead + HEADER_SIZE,
                        chunks := st.chunks + 1)
    ensures TallyOf(h, u, live, c + HEADER_SIZE + h[c].size, st', f)
  {
    BelowNext(h, u, c, c + HEADER_SIZE + h[c].size);
    assert HeadersOf(st.chunks + 1) == HeadersOf(st.chunks) + HEADER_SIZE;
  }

  lemma TallyFree(h: Headers, u: nat, live: nat, c: nat, st: Stats, f: nat, st': Stats)
    requires Tiled(ShapeOf(h), u) && c in h && !h[c].inUse && TallyOf(h, u, live, c, st, f)
    requires st' == st.(available := st.available + h[c].size)
    ensures TallyOf(h, u, live, c + HEADER_SIZE + h[c].size, st', f + 1)
  {
    BelowNext(h, u, c, c + HEADER_SIZE + h[c].size);
    assert HeadersOf(f + 1) == HeadersOf(f) + HEADER_SIZE;
  }

  lemma ClosedNext(h: Headers, u: nat, c: nat, e: nat)
    requires Tiled(ShapeOf(h), u) && c in h && e == c + HEADER_SIZE + h[c].size
    requires ClosedBelow(h, u, c)
    requires c in ShapeOf(h) && (!h[c].inUse ==> RightClosed(ShapeOf(h), u, c))
    ensures ClosedBelow(h, u, e)
  {
    BelowNext(h, u, c, e);
  }

  class Heap {
    /** The headers of the chunks that tile the heap. A header that a merge or a release
        has made payload or unused space is dropped from the map. */
    var hdr: Headers
    /** heap_base; storing a header overwrites its bytes here. */
    const mem: array<bv8>
    /** heap_usage. */
    var usage: nat
    var freeList: Link
    var zones: seq<Zone>
    /** The chunks on the free list, in list order. */
    ghost var free: seq<nat>

    /** The allocator's invariant, but for the chunks in `held`: free, yet off the list. */
    ghost predicate ValidBut(held: set<nat>)
      reads this
    {
      && mem.Length == ARENA_SIZE
      && usage <= ARENA_SIZE
      && Tiled(ShapeOf(hdr), usage)
      && Linked(hdr, freeList, free)
      && Listed(hdr, free, held)
      && ZonesExist(hdr, |zones|)
      && |zones| > 0
    }

    ghost predicate Valid()
      reads this
    {
      ValidBut({})
    }

    /** The live blocks: chunk offset to payload bytes. */
    ghost function Blocks(): map<nat, seq<bv8>>
      reads this, mem
    {
      BlocksOf(ShapeOf(hdr), mem[..])
    }

    ghost function Now(): State
      reads this, mem
    {
      State(hdr, usage, zones, |free|, Blocks())
    }

    lemma NowSound()
      requires Valid()
      ensures Sound(Now())
    {
      CountLive();
      CountFree(hdr, free, usage);
      InBlocks(ShapeOf(hdr), usage, mem[..]);
    }

    ghost predicate HeadersInArena()
      reads this
    {
      mem.Length == ARENA_SIZE && forall c | c in hdr :: c + HEADER_SIZE <= ARENA_SIZE
    }

    lemma TiledInArena()
      requires mem.Length == ARENA_SIZE && usage <= ARENA_SIZE && Tiled(ShapeOf(hdr), usage)
      ensures HeadersInArena()
    {
      forall c | c in hdr
        ensures c + HEADER_SIZE <= ARENA_SIZE
      {
        assert End(ShapeOf(hdr), c) <= usage;
      }
    }

    constructor (zoneCount: nat)
      requires zoneCount > 0
      ensures Valid() && Blocks() == map[] && usage == 0 && free == []
      ensures |zones| == zoneCount && zones[0] == Zone(true, ARENA_SIZE, 0)
      ensures forall i | 0 < i < zoneCount :: zones[i] == Zone(false, 0, 0)
      ensures fresh(mem)
    {
      hdr := map[];
      usage := 0;
      freeList := Null;
      free := [];
      mem := new bv8[ARENA_SIZE];
      zones := seq(zoneCount, i => if i == 0 then Zone(true, ARENA_SIZE, 0) else Zone(false, 0, 0));
    }

    /** A store to the header at c. */
    method StoreHeader(c: nat, h: Header)
      requires mem.Length == ARENA_SIZE && c + HEADER_SIZE <= ARENA_SIZE
      modifies this`hdr, mem
      ensures hdr == old(hdr)[c := h]
      ensures OnlyHeaders({c}, old(mem[..]), mem[..])
    {
      hdr := hdr[c := h];
      ghost var before := mem[..];
      for i := c to c + HEADER_SIZE
        modifies mem
        invariant forall j | 0 <= j < mem.Length && !(c <= j < c + HEADER_SIZE) :: mem[j] == before[j]
      {
        mem[i] := *;
      }
      forall j | 0 <= j < mem.Length && !InHeader({c}, j)
        ensures mem[j] == before[j]
      {
        assert c in {c};
      }
    }

    /** extend_space: the old end of the used prefix, or None. */
    method ExtendSpace(size: nat) returns (r: Link)
      requires usage <= ARENA_SIZE
      modifies this`usage
      ensures r == if size > ARENA_SIZE - old(usage) then Null else At(old(usage))
      ensures usage == if r.Null? then old(usage) else old(usage) + size
    {
      if size > ARENA_SIZE - usage {
        return Null;
      }
      r := At(usage);
      usage := usage + size;
    }

    /** free_chunk: the last chunk goes back to the unused tail, any other onto the free list. */
    method FreeChunk(c: nat)
      requires HeadersInArena() && Linked(hdr, freeList, free)
      requires c in hdr && c !in free
      modifies this`hdr, this`usage, this`freeList, this`free, mem
      ensures HeadersInArena() && Linked(hdr, freeList, free)
      ensures OnlyHeaders(old(hdr).Keys, old(mem[..]), mem[..])
      ensures var s := old(ShapeOf(hdr));
              if End(s, c) == old(usage)
              then usage == c && ShapeOf(hdr) == s - {c} && free == old(free)
              else usage == old(usage) && ShapeOf(hdr) == s[c := Cell(s[c].size, false)] && free == [c] + old(free)
      ensures forall k | k in hdr :: k in old(hdr) && hdr[k].zone == old(hdr)[k].zone
    {
      ghost var h0, m0 := hdr, mem[..];
      StoreHeader(c, hdr[c].(inUse := false));
      ghost var m1 := mem[..];
      if c + HEADER_SIZE + hdr[c].size == usage {
        usage := usage - (HEADER_SIZE + hdr[c].size);
        hdr := hdr - {c};
        LinkedFrame(h0, hdr, freeList, free);
        OnlyHeadersMono({c}, h0.Keys, m0, mem[..]);
      } else {
        LinkedFrame(h0, hdr, freeList, free);
        PushFree(c);
        OnlyHeadersTrans({c}, h0.Keys, h0.Keys, m0, m1, mem[..]);
      }
    }

    /** The branch of free_chunk that puts the chunk, its flag cleared, in front of the free list. */
    method PushFree(c: nat)
      requires HeadersInArena() && Linked(hdr, freeList, free)
      requires c in hdr && c !in free && !hdr[c].inUse
      modifies this`hdr, this`freeList, this`free, mem
      ensures HeadersInArena() && Linked(hdr, freeList, free) && free == [c] + old(free)
      ensures OnlyHeaders(old(hdr).Keys, old(mem[..]), mem[..])
      ensures ShapeOf(hdr) == old(ShapeOf(hdr))[c := Cell(old(hdr)[c].size, false)]
      ensures forall k | k in hdr :: k in old(hdr) && hdr[k].zone == old(hdr)[k].zone
    {
      ghost var h0, m0 := hdr, mem[..];
      PushedLinked(hdr, freeList, free, c);
      StoreHeader(c, hdr[c].(prev := Null, next := freeList));
      OnlyHeadersMono({c}, h0.Keys, m0, mem[..]);
      if freeList != Null {
        ghost var m1 := mem[..];
        StoreHeader(freeList.offset, hdr[freeList.offset].(prev := At(c)));
        OnlyHeadersTrans(h0.Keys, {freeList.offset}, h0.Keys, m0, m1, mem[..]);
      }
      assert hdr == Pushed(h0, freeList, c);
      freeList := At(c);
      free := [c] + free;
    }

    /** remove_chunk_from_free_list. */
    method RemoveFromFreeList(c: nat)
      requires HeadersInArena() && Linked(hdr, freeList, free)
      requires c in free
      modifies this`hdr, this`freeList, this`free, mem
      ensures HeadersInArena() && Linked(hdr, freeList, free)
      ensures OnlyHeaders(old(hdr).Keys, old(mem[..]), mem[..])
      ensures ShapeOf(hdr) == old(ShapeOf(hdr))
      ensures free == Without(old(free), {c})
      ensures forall k :: k in free <==> k in old(free) && k != c
      ensures forall k | k in hdr :: k in old(hdr) && hdr[k].zone == old(hdr)[k].zone
    {
      ghost var h0, q0, head0 := hdr, free, freeList;
      ghost var k :| 0 <= k < |free| && free[k] == c;
      JoinLinks(c, k);
      free := free[..k] + free[k + 1..];
      UnlinkedLinked(h0, head0, q0, k);
      WithoutOne(q0, k);
      WithoutMembers(q0, {c});
    }

    /** The links around chunk c, at list position k, are joined. */
    method JoinLinks(c: nat, ghost k: nat)
      requires HeadersInArena() && Linked(hdr, freeList, free) && k < |free| && free[k] == c
      modifies this`hdr, this`freeList, mem
      ensures HeadersInArena() && hdr == Unlinked(old(hdr), c)
      ensures freeList == if k == 0 then old(hdr)[c].next else old(freeList)
      ensures OnlyHeaders(old(hdr).Keys, old(mem[..]), mem[..])
    {
      ghost var h0, m0 := hdr, mem[..];
      assert LinkedAt(hdr, free, k);
      var h := hdr[c];
      if At(c) == freeList {
        freeList := h.next;
        if freeList != Null {
          var f := freeList.offset;
          StoreHeader(f, hdr[f].(prev := Null));
          OnlyHeadersMono({f}, h0.Keys, m0, mem[..]);
        }
      } else {
        var p := h.prev.offset;
        StoreHeader(p, hdr[p].(next := h.next));
        OnlyHeadersMono({p}, h0.Keys, m0, mem[..]);
      }
      ghost var m1 := mem[..];
      if hdr[c].next != Null {
        var n := h.next.offset;
        StoreHeader(n, hdr[n].(prev := hdr[c].prev));
        OnlyHeadersTrans(h0.Keys, {n}, h0.Keys, m0, m1, mem[..]);
      }
      assert hdr == Unlinked(h0, c);
    }

    /** Free chunk d, right after chunk c, becomes part of c. */
    method Absorb(c: nat, d: nat, ghost x: Cell)
      requires HeadersInArena() && Linked(hdr, freeList, free)
      requires c in hdr && d in hdr && c != d && d in free
      requires x == Cell(hdr[c].size + HEADER_SIZE + hdr[d].size, hdr[c].inUse)
      modifies this`hdr, this`freeList, this`free, mem
      ensures HeadersInArena() && Linked(hdr, freeList, free)
      ensures ShapeOf(hdr) == old(ShapeOf(hdr))[c := x] - {d}
      ensures free == Without(old(free), {d})
      ensures OnlyHeaders(old(hdr).Keys, old(mem[..]), mem[..])
      ensures forall k | k in hdr :: k in old(hdr) && hdr[k].zone == old(hdr)[k].zone
    {
      ghost var h1, m1 := hdr, mem[..];
      var y := hdr[c].(size := hdr[c].size + HEADER_SIZE + hdr[d].size);
      StoreHeader(c, y);
      ghost var h2, m2 := hdr, mem[..];
      ShapeOfUpdate(h1, c, y, x);
      LinkedFrame(h1, hdr, freeList, free);
      RemoveFromFreeList(d);
      OnlyHeadersTrans({c}, h2.Keys, h1.Keys, m1, m2, mem[..]);
      ghost var h3 := hdr;
      hdr := hdr - {d};
      ShapeOfDrop(h3, d);
      LinkedFrame(h3, hdr, freeList, free);
    }

    /** coalesce_chunks, having reached offset e from headers h0, bytes m0 and free list q0. */
    ghost predicate Coalescing(h0: Headers, m0: seq<bv8>, q0: seq<nat>, c: nat, e: nat)
      reads this, mem
    {
      var s0 := ShapeOf(h0);
      && HeadersInArena() && Linked(hdr, freeList, free)
      && Tiled(s0, usage) && Listed(h0, q0, {}) && Mergeable(s0, usage, c, e)
      && (e < usage ==> e in hdr && e in s0 && Cell(hdr[e].size, hdr[e].inUse) == s0[e])
      && ShapeOf(hdr) == Merged(s0, c, e)
      && free == Without(q0, Inside(s0, c, e))
      && OnlyHeaders(h0.Keys, m0, mem[..])
      && (forall k | k in hdr :: k in h0 && hdr[k].zone == h0[k].zone)
    }

    /** coalesce_chunks: chunk c takes in all free chunks that follow it, up to offset e. */
    method CoalesceChunks(c: nat) returns (ghost e: nat)
      requires Valid() && c in hdr
      modifies this`hdr, this`freeList, this`free, mem
      ensures Valid()
      ensures Mergeable(old(ShapeOf(hdr)), usage, c, e)
      ensures ShapeOf(hdr) == Merged(old(ShapeOf(hdr)), c, e)
      ensures RightClosed(ShapeOf(hdr), usage, c)
      ensures free == Without(old(free), Inside(old(ShapeOf(hdr)), c, e))
      ensures OnlyHeaders(old(hdr).Keys, old(mem[..]), mem[..])
      ensures forall k | k in hdr :: k in old(hdr) && hdr[k].zone == old(hdr)[k].zone
    {
      var next := c + HEADER_SIZE + hdr[c].size;
      CoalesceStart(c, next);
      while next < usage && !hdr[next].inUse
        invariant next <= usage
        invariant Coalescing(old(hdr), old(mem[..]), old(free), c, next)
        decreases usage - next
      {
        next := CoalesceOne(c, next, old(hdr), old(mem[..]), old(free));
      }
      CoalesceDone(old(hdr), old(mem[..]), old(free), c, next);
      e := next;
    }

    lemma CoalesceStart(c: nat, next: nat)
      requires Valid() && c in hdr && next == c + HEADER_SIZE + hdr[c].size
      ensures Coalescing(hdr, mem[..], free, c, next)
    {
      var s0 := ShapeOf(hdr);
      TiledInArena();
      assert next == End(s0, c);
      MergeNone(s0, usage, c);
      WithoutNone(free, {});
      MergedFrontier(s0, usage, c, next);
    }

    lemma CoalesceDone(h0: Headers, m0: seq<bv8>, q0: seq<nat>, c: nat, next: nat)
      requires Coalescing(h0, m0, q0, c, next) && (next == usage || hdr[next].inUse) && ZonesExist(h0, |zones|)
      ensures Tiled(ShapeOf(hdr), usage) && Listed(hdr, free, {}) && ZonesExist(hdr, |zones|)
      ensures c in hdr && RightClosed(ShapeOf(hdr), usage, c)
    {
      var s0 := ShapeOf(h0);
      MergedTiled(s0, usage, c, next);
      MergedListed(h0, hdr, q0, c, next);
      assert ShapeOf(hdr)[c] == Cell(next - c - HEADER_SIZE, s0[c].inUse);
      RightClosedAt(ShapeOf(hdr), usage, c, next);
    }

    method CoalesceOne(c: nat, next: nat, ghost h0: Headers, ghost m0: seq<bv8>, ghost q0: seq<nat>)
      returns (after: nat)
      requires Coalescing(h0, m0, q0, c, next) && next < usage && !hdr[next].inUse
      modifies this`hdr, this`freeList, this`free, mem
      ensures next < after <= usage && Coalescing(h0, m0, q0, c, after)
    {
      ghost var s0, m1, h1 := ShapeOf(h0), mem[..], hdr;
      after := next + HEADER_SIZE + hdr[next].size;
      assert after == End(s0, next);
      assert next in free && c in hdr by {
        WithoutMembers(q0, Inside(s0, c, next));
        assert next in h0 && !h0[next].inUse;
        assert c in ShapeOf(hdr);
      }
      ghost var x := Cell(hdr[c].size + HEADER_SIZE + hdr[next].size, hdr[c].inUse);
      assert x == Cell(after - c - HEADER_SIZE, s0[c].inUse) by {
        assert ShapeOf(hdr)[c] == Merged(s0, c, next)[c];
      }
      MergeOneMore(s0, usage, c, next, after, x);
      Absorb(c, next, x);
      WithoutTwice(q0, Inside(s0, c, next), {next});
      OnlyHeadersTrans(h0.Keys, h1.Keys, h0.Keys, m0, m1, mem[..]);
      MergedFrontier(s0, usage, c, after);
      assert after < usage ==> after in ShapeOf(hdr);
    }

    /** Free chunks have been merged, those of `done` with all that can follow them, and nothing else has changed. */
    ghost predicate Settled(h0: Headers, m0: seq<bv8>, h: Headers, m: seq<bv8>, u: nat, done: seq<nat>) {
      && Coarsened(ShapeOf(h0), ShapeOf(h), u)
      && AllClosed(ShapeOf(h), u, done)
      && OnlyHeaders(h0.Keys, m0, m)
      && (forall k | k in h :: k in h0 && h[k].zone == h0[k].zone)
    }

    ghost predicate AllClosed(s: Shape, u: nat, done: seq<nat>) {
      forall v | v in done :: v in s && RightClosed(s, u, v)
    }

    /** defrag_chunks before list position j, with all earlier entries merged to the right. */
    ghost predicate Defragging(h0: Headers, m0: seq<bv8>, chunk: Link, j: nat)
      reads this, mem
    {
      && Valid() && j <= |free| && chunk == LinkAt(free, j)
      && Settled(h0, m0, hdr, mem[..], usage, free[..j])
    }

    /** defrag_chunks: merges the first SEARCH_MAX entries of the free list with what follows them. */
    method DefragChunks()
      requires Valid()
      modifies this`hdr, this`freeList, this`free, mem
      ensures Valid()
      ensures Coarsened(old(ShapeOf(hdr)), ShapeOf(hdr), usage)
      ensures old(|free|) <= SEARCH_MAX ==> FullyMerged(ShapeOf(hdr), usage)
      ensures |free| <= old(|free|)
      ensures OnlyHeaders(old(hdr).Keys, old(mem[..]), mem[..])
      ensures forall k | k in hdr :: k in old(hdr) && hdr[k].zone == old(hdr)[k].zone
    {
      CoarsenedRefl(ShapeOf(hdr), usage);
      var i: int := SEARCH_MAX;
      var chunk := freeList;
      ghost var j := 0;
      while chunk != Null
        invariant 0 <= i <= SEARCH_MAX
        invariant Defragging(old(hdr), old(mem[..]), chunk, j)
        invariant |free| - j <= old(|free|) - (SEARCH_MAX - i)
        invariant |free| <= old(|free|)
        decreases i
      {
        if i == 0 {
          break;
        }
        i := i - 1;
        chunk, j := DefragOne(chunk.offset, j, old(hdr), old(mem[..]));
      }
      if old(|free|) <= SEARCH_MAX {
        assert j == |free|;
        MergedThroughout();
      }
    }

    lemma MergedThroughout()
      requires Valid()
      requires AllClosed(ShapeOf(hdr), usage, free)
      ensures FullyMerged(ShapeOf(hdr), usage)
    {
    }

    method DefragOne(c: nat, ghost j: nat, ghost h0: Headers, ghost m0: seq<bv8>) returns (chunk: Link, ghost i: nat)
      requires Defragging(h0, m0, At(c), j)
      modifies this`hdr, this`freeList, this`free, mem
      ensures Defragging(h0, m0, chunk, i)
      ensures |free| - i < old(|free|) - j && |free| <= old(|free|)
    {
      EntryFree(j);
      ghost var h1, m1, q1 := hdr, mem[..], free;
      ghost var e := CoalesceChunks(c);
      chunk, i := NextEntry(c, q1, j, Inside(ShapeOf(h1), c, e));
      SettledNext(h0, m0, h1, m1, hdr, mem[..], usage, q1, j, c, e);
      SliceSnoc(free, i, c);
      i := i + 1;
    }

    lemma EntryFree(j: nat)
      requires Valid() && j < |free|
      ensures Distinct(free) && free[j] in ShapeOf(hdr) && !ShapeOf(hdr)[free[j]].inUse
    {
    }

    lemma ShapeKeys(h0: Headers, h1: Headers)
      ensures ShapeOf(h0).Keys == h0.Keys && ShapeOf(h1).Keys == h1.Keys
    {
    }

    lemma SettledNext(h0: Headers, m0: seq<bv8>, h1: Headers, m1: seq<bv8>, h: Headers, m: seq<bv8>, u: nat,
                      q: seq<nat>, j: nat, c: nat, e: nat)
      requires Distinct(q) && j < |q| && q[j] == c && Settled(h0, m0, h1, m1, u, q[..j])
      requires Mergeable(ShapeOf(h1), u, c, e) && !ShapeOf(h1)[c].inUse && ShapeOf(h) == Merged(ShapeOf(h1), c, e)
      requires RightClosed(ShapeOf(h), u, c) && OnlyHeaders(h1.Keys, m1, m)
      requires forall k | k in h :: k in h1 && h[k].zone == h1[k].zone
      ensures Settled(h0, m0, h, m, u, Without(q[..j], Inside(ShapeOf(h1), c, e)) + [c])
    {
      CoarsenedMerge(ShapeOf(h0), ShapeOf(h1), u, c, e);
      ShapeKeys(h0, h1);
      OnlyHeadersTrans(h0.Keys, h1.Keys, h0.Keys, m0, m1, m);
      DefragKept(ShapeOf(h1), u, q, j, c, e);
    }

    /** The entry after chunk c, which was at position j of list q before the chunks in `drop` left it. */
    method NextEntry(c: nat, ghost q: seq<nat>, ghost j: nat, ghost drop: set<nat>) returns (chunk: Link, ghost i: nat)
      requires Linked(hdr, freeList, free) && free == Without(q, drop) && j < |q| && q[j] == c && c !in drop
      ensures i < |free| && free[i] == c && free[..i] == Without(q[..j], drop) && |free| - i <= |q| - j
      ensures chunk == LinkAt(free, i + 1)
    {
      i := WithoutPosition(q, j, drop);
      assert LinkedAt(hdr, free, i);
      chunk := hdr[c].next;
    }

    lemma DefragKept(s: Shape, u: nat, q: seq<nat>, j: nat, c: nat, e: nat)
      requires Mergeable(s, u, c, e) && !s[c].inUse
      requires Distinct(q) && j < |q| && q[j] == c && AllClosed(s, u, q[..j])
      requires RightClosed(Merged(s, c, e), u, c)
      ensures AllClosed(Merged(s, c, e), u, Without(q[..j], Inside(s, c, e)) + [c])
    {
      WithoutMembers(q[..j], Inside(s, c, e));
      forall v | v in Without(q[..j], Inside(s, c, e))
        ensures v in Merged(s, c, e) && RightClosed(Merged(s, c, e), u, v)
      {
        RightClosedKept(s, u, c, e, v);
      }
    }

    /** split_chunk: chunk c, off the list, keeps Align(n) bytes; the rest is freed if it can hold a header and more. */
    method SplitChunk(c: nat, n: nat, ghost held: set<nat>)
      requires ValidBut(held) && held <= {c} && c in hdr && c !in free
      modifies this`hdr, this`usage, this`freeList, this`free, mem
      ensures ValidBut(held) && c in hdr && c !in free
      ensures SplitOutcome(old(ShapeOf(hdr)), old(usage), c, Align(n), ShapeOf(hdr), usage)
      ensures OnlyHeaders(old(hdr).Keys + hdr.Keys + {usage}, old(mem[..]), mem[..])
      ensures forall k | k in hdr && k in old(hdr) :: hdr[k].zone == old(hdr)[k].zone
    {
      ghost var s0, h0, u0, m0 := ShapeOf(hdr), hdr, usage, mem[..];
      TiledInArena();
      var offset := Align(n);
      var d := c + HEADER_SIZE + offset;
      if offset + HEADER_SIZE < hdr[c].size {
        CutFits(s0, u0, c, offset, d);
        CutChunk(c, offset, d);
        OnlyHeadersMono(h0.Keys + {d}, h0.Keys + hdr.Keys + {usage}, m0, mem[..]);
      }
      SplitOutcomeTiled(s0, u0, c, offset, ShapeOf(hdr), usage);
      SplitOutcomeKeeps(s0, u0, c, offset, ShapeOf(hdr), usage, d);
      SplitListed(h0, hdr, old(free), free, held, c, d, |zones|);
    }

    lemma SplitListed(g: Headers, h: Headers, p: seq<nat>, q: seq<nat>, held: set<nat>, c: nat, d: nat, count: nat)
      requires Listed(g, p, held) && ZonesExist(g, count) && c in g && held <= {c}
      requires c in ShapeOf(h) && ShapeOf(h)[c].inUse == g[c].inUse
      requires forall k | k in ShapeOf(g) && k != c :: k in ShapeOf(h) && ShapeOf(h)[k] == ShapeOf(g)[k]
      requires forall k | k in ShapeOf(h) && k !in ShapeOf(g) :: k == d && !ShapeOf(h)[k].inUse
      requires forall k | k in h && k in g :: h[k].zone == g[k].zone
      requires if d in h && d !in g then q == [d] + p else q == p
      ensures Listed(h, q, held) && ZonesExist(h, count)
    {
      forall k | k in h
        ensures k in q <==> !h[k].inUse && k !in held
        ensures h[k].inUse ==> h[k].zone < count
      {
        assert k in ShapeOf(h) && ShapeOf(h)[k].inUse == h[k].inUse;
        if k in g {
          assert k in ShapeOf(g) && ShapeOf(g)[k].inUse == g[k].inUse;
        }
      }
    }

    /** The free chunk that split_chunk makes from the end of another. Its links and zone are leftover bytes. */
    method CarveFree(d: nat, size: nat)
      requires HeadersInArena() && Linked(hdr, freeList, free)
      requires d !in hdr && d !in free && d + HEADER_SIZE <= ARENA_SIZE
      modifies this`hdr, this`usage, this`freeList, this`free, mem
      ensures HeadersInArena() && Linked(hdr, freeList, free)
      ensures var r := old(ShapeOf(hdr))[d := Cell(size, false)];
              if d + HEADER_SIZE + size == old(usage)
              then usage == d && ShapeOf(hdr) == r - {d} && free == old(free)
              else usage == old(usage) && ShapeOf(hdr) == r[d := Cell(size, false)] && free == [d] + old(free)
      ensures OnlyHeaders(old(hdr).Keys + {d}, old(mem[..]), mem[..])
      ensures forall k | k in hdr && k in old(hdr) :: hdr[k].zone == old(hdr)[k].zone
    {
      ghost var h0, m0, x := hdr, mem[..], Cell(size, false);
      var leftover: nat := *;
      var y := Header(Null, Null, size, false, leftover);
      StoreHeader(d, y);
      ghost var h1, m1 := hdr, mem[..];
      ShapeOfUpdate(h0, d, y, x);
      LinkedFrame(h0, h1, freeList, free);
      FreeChunk(d);
      OnlyHeadersTrans({d}, h1.Keys, h0.Keys + {d}, m0, m1, mem[..]);
    }

    /** The branch of split_chunk that makes a new chunk. */
    method CutChunk(c: nat, offset: nat, d: nat)
      requires HeadersInArena() && Linked(hdr, freeList, free)
      requires c in hdr && c !in free && offset + HEADER_SIZE < hdr[c].size
      requires d == c + HEADER_SIZE + offset && d !in hdr && d !in free && d + HEADER_SIZE <= ARENA_SIZE
      modifies this`hdr, this`usage, this`freeList, this`free, mem
      ensures HeadersInArena() && Linked(hdr, freeList, free)
      ensures SplitOutcome(old(ShapeOf(hdr)), old(usage), c, offset, ShapeOf(hdr), usage)
      ensures OnlyHeaders(old(hdr).Keys + {d}, old(mem[..]), mem[..])
      ensures forall k | k in hdr && k in old(hdr) :: hdr[k].zone == old(hdr)[k].zone
      ensures d in hdr || usage == d
      ensures free == if d in hdr then [d] + old(free) else old(free)
    {
      ghost var s0, h0, m0, u0 := ShapeOf(hdr), hdr, mem[..], usage;
      ghost var keys := h0.Keys + {d};
      var size := hdr[c].size - HEADER_SIZE - offset;
      CarveFree(d, size);
      CutOutcome(s0, u0, c, offset, d, size, ShapeOf(hdr), usage);
      assert c in ShapeOf(hdr) && (d in ShapeOf(hdr) <==> d in hdr);
      ghost var h2, m2 := hdr, mem[..];
      var z := hdr[c].(size := offset, next := Null, prev := Null);
      StoreHeader(c, z);
      ShapeOfUpdate(h2, c, z, Cell(offset, s0[c].inUse));
      LinkedFrame(h2, hdr, freeList, free);
      OnlyHeadersTrans(keys, {c}, keys, m0, m2, mem[..]);
    }

    /** Entry i of the free list is the first of the smallest among the first n that hold size bytes. */
    ghost predicate Chosen(size: nat, i: nat, n: nat)
      reads this
      requires n <= |free| && forall c | c in free :: c in hdr
    {
      && i < n && size <= hdr[free[i]].size
      && (forall k | 0 <= k < n && size <= hdr[free[k]].size :: hdr[free[i]].size <= hdr[free[k]].size)
      && (forall k | 0 <= k < i && size <= hdr[free[k]].size :: hdr[free[i]].size < hdr[free[k]].size)
    }

    ghost function Searched(): (n: nat)
      reads this
      ensures n <= |free|
    {
      if |free| <= SEARCH_MAX then |free| else SEARCH_MAX
    }

    /** The search loop of get_free_chunk. */
    method FindBest(size: nat) returns (best: Link, ghost i: nat)
      requires Valid()
      ensures best == Null ==> forall k | 0 <= k < Searched() :: hdr[free[k]].size < size
      ensures best != Null ==> i < |free| && best == At(free[i]) && Chosen(size, i, Searched())
    {
      best, i := Null, 0;
      var budget: int := SEARCH_MAX;
      var chunk := freeList;
      ghost var j := 0;
      while chunk != Null
        invariant 0 <= budget && budget + j == SEARCH_MAX
        invariant j <= |free| && chunk == LinkAt(free, j)
        invariant best == Null ==> forall k | 0 <= k < j :: hdr[free[k]].size < size
        invariant best != Null ==> i < j && best == At(free[i]) && Chosen(size, i, j)
        decreases budget
      {
        if budget == 0 {
          break;
        }
        budget := budget - 1;
        var c := chunk.offset;
        assert free[j] == c && LinkedAt(hdr, free, j);
        if size <= hdr[c].size {
          if best == Null || hdr[c].size < hdr[best.offset].size {
            best, i := chunk, j;
          }
          if hdr[best.offset].size == size {
            break;
          }
        }
        chunk := hdr[c].next;
        j := j + 1;
      }
    }

    /** get_free_chunk: defragments, takes the best chunk off the list and splits it. */
    method GetFreeChunk(size: nat) returns (best: Link)
      requires Valid() && Align(size) == size
      modifies this`hdr, this`usage, this`freeList, this`free, mem
      ensures KeepsInUse(old(ShapeOf(hdr)), ShapeOf(hdr))
      ensures OnlyHeaders(old(hdr).Keys + hdr.Keys + {usage}, old(mem[..]), mem[..])
      ensures best == Null ==> Valid() && usage == old(usage) && hdr.Keys <= old(hdr).Keys
      ensures best != Null ==> best.offset in hdr && !hdr[best.offset].inUse && ValidBut({best.offset})
      ensures best != Null ==> size <= hdr[best.offset].size <= size + HEADER_SIZE && best.offset in old(hdr)
      ensures ZonesKept(old(hdr), hdr, {})
      ensures old(|free|) <= SEARCH_MAX ==> GoodChoice(old(ShapeOf(hdr)), old(usage), size, best)
      ensures best != Null && old(|free|) <= SEARCH_MAX ==>
                usage == UsedAfter(old(ShapeOf(hdr)), old(usage), best.offset, hdr[best.offset].size)
    {
      ghost var s0, h0, m0, u0, q0 := ShapeOf(hdr), hdr, mem[..], usage, free;
      DefragChunks();
      ghost var s1, h1, m1 := ShapeOf(hdr), hdr, mem[..];
      assert KeepsInUse(s0, s1);
      ZonesKeptBy(h0, h1);
      ghost var i;
      best, i := FindBest(size);
      if |q0| <= SEARCH_MAX {
        BestIsGood(s0, size, best, i);
      }
      if best != Null {
        TakeBest(best.offset, size, h0, m0, |q0| <= SEARCH_MAX);
      } else {
        OnlyHeadersMono(h0.Keys, h0.Keys + hdr.Keys + {usage}, m0, mem[..]);
      }
    }

    /** The chosen chunk c is taken, after defragmentation has led from headers h0 and bytes m0 to the present heap. */
    method TakeBest(c: nat, size: nat, ghost h0: Headers, ghost m0: seq<bv8>, ghost merged: bool)
      requires Valid() && Align(size) == size && c in hdr && !hdr[c].inUse && size <= hdr[c].size
      requires Tiled(ShapeOf(h0), usage) && Coarsened(ShapeOf(h0), ShapeOf(hdr), usage) && ZonesKept(h0, hdr, {})
      requires OnlyHeaders(h0.Keys, m0, mem[..]) && (merged ==> FullyMerged(ShapeOf(hdr), usage))
      modifies this`hdr, this`usage, this`freeList, this`free, mem
      ensures KeepsInUse(ShapeOf(h0), ShapeOf(hdr)) && ZonesKept(h0, hdr, {})
      ensures OnlyHeaders(h0.Keys + hdr.Keys + {usage}, m0, mem[..])
      ensures c in hdr && c in h0 && size <= hdr[c].size <= size + HEADER_SIZE && !hdr[c].inUse && ValidBut({c})
      ensures merged ==> usage == UsedAfter(ShapeOf(h0), old(usage), c, hdr[c].size)
    {
      ghost var s0, s1, h1, m1, u0 := ShapeOf(h0), ShapeOf(hdr), hdr, mem[..], usage;
      assert c in s1 && KeepsInUse(s0, s1);
      KeysCoarsened(h0, h1, u0);
      if merged {
        LastFree(s1, u0, c);
        TopmostKept(s0, s1, c);
      }
      TakeChunk(c, size);
      KeepsInUseTrans(s0, s1, ShapeOf(hdr));
      ZonesKeptTrans(h0, h1, hdr, {}, {}, {});
      OnlyHeadersTrans(h0.Keys, h1.Keys + hdr.Keys + {usage}, h0.Keys + hdr.Keys + {usage}, m0, m1, mem[..]);
    }

    lemma KeysCoarsened(g: Headers, h: Headers, u: nat)
      requires Coarsened(ShapeOf(g), ShapeOf(h), u)
      ensures h.Keys <= g.Keys
    {
      forall k | k in h
        ensures k in g
      {
        assert k in ShapeOf(h);
        assert k in ShapeOf(g);
      }
    }

    lemma BestIsGood(s0: Shape, size: nat, best: Link, i: nat)
      requires Valid() && |free| <= SEARCH_MAX
      requires Coarsened(s0, ShapeOf(hdr), usage) && FullyMerged(ShapeOf(hdr), usage)
      requires best == Null ==> forall k | 0 <= k < |free| :: hdr[free[k]].size < size
      requires best != Null ==> i < |free| && best == At(free[i]) && Chosen(size, i, |free|)
      ensures GoodChoice(s0, usage, size, best)
    {
      var s := ShapeOf(hdr);
      if best == Null {
        NoChunkNoRun(s0, s, usage, size);
      } else {
        SmallestChunkIsBestFit(s0, s, usage, size, best.offset);
      }
    }

    /** The end of get_free_chunk: free chunk c leaves the list and is cut to size. */
    method TakeChunk(c: nat, size: nat)
      requires Valid() && Align(size) == size
      requires c in hdr && !hdr[c].inUse && size <= hdr[c].size
      modifies this`hdr, this`usage, this`freeList, this`free, mem
      ensures c in hdr && !hdr[c].inUse && size <= hdr[c].size <= size + HEADER_SIZE && ValidBut({c})
      ensures usage == if End(old(ShapeOf(hdr)), c) == old(usage) then c + HEADER_SIZE + hdr[c].size else old(usage)
      ensures KeepsInUse(old(ShapeOf(hdr)), ShapeOf(hdr)) && ZonesKept(old(hdr), hdr, {})
      ensures OnlyHeaders(old(hdr).Keys + hdr.Keys + {usage}, old(mem[..]), mem[..])
    {
      ghost var s0, h0, m0, u0 := ShapeOf(hdr), hdr, mem[..], usage;
      TiledInArena();
      RemoveFromFreeList(c);
      ghost var h1, m1 := hdr, mem[..];
      assert c in ShapeOf(hdr);
      TakenListed(h0, hdr, old(free), free, c, |zones|);
      SplitChunk(c, size, {c});
      SplitKeepsInUse(s0, u0, c, size, ShapeOf(hdr), usage);
      assert c in ShapeOf(hdr);
      SameFlags(h0, h1);
      ZonesKeptBy(h0, hdr);
      OnlyHeadersTrans(h0.Keys, h1.Keys + hdr.Keys + {usage}, h0.Keys + hdr.Keys + {usage}, m0, m1, mem[..]);
    }

    lemma TakenListed(g: Headers, h: Headers, p: seq<nat>, q: seq<nat>, c: nat, count: nat)
      requires ShapeOf(g) == ShapeOf(h) && Listed(g, p, {}) && ZonesExist(g, count) && c in g && !g[c].inUse
      requires forall k :: k in q <==> k in p && k != c
      requires forall k | k in h :: k in g && h[k].zone == g[k].zone
      ensures Listed(h, q, {c}) && ZonesExist(h, count) && c in h && !h[c].inUse && h[c].size == g[c].size
    {
      SameFlags(g, h);
    }

    lemma SameFlags(g: Headers, h: Headers)
      requires ShapeOf(g) == ShapeOf(h)
      ensures g.Keys == h.Keys
      ensures forall k | k in g :: h[k].inUse == g[k].inUse && h[k].size == g[k].size
    {
      forall k
        ensures k in g <==> k in h
        ensures k in g ==> h[k].inUse == g[k].inUse && h[k].size == g[k].size
      {
        assert k in ShapeOf(g) <==> k in ShapeOf(h);
        if k in g {
          assert ShapeOf(g)[k] == ShapeOf(h)[k];
        }
      }
    }

    // ----- allocation -----

    /** Adds to the bytes charged to a zone, in size_t arithmetic. */
    method Charge(zone: nat, amount: int)
      requires zone < |zones|
      modifies this`zones
      ensures zones == Recharged(old(zones), zone, amount)
      ensures Blocks() == old(Blocks()) && Now() == old(Now()).(zones := zones)
    {
      zones := zones[zone := Charged(zones[zone], amount)];
    }

    /** A chunk cut from the unused tail of the arena. */
    method NewChunk(size: nat) returns (chunk: Link)
      requires Valid()
      modifies this`hdr, this`usage, mem
      ensures chunk == if HEADER_SIZE + size > ARENA_SIZE - old(usage) then Null else At(old(usage))
      ensures chunk == Null ==> hdr == old(hdr) && usage == old(usage) && mem[..] == old(mem[..])
      ensures chunk != Null ==> chunk.offset in hdr && ValidBut({chunk.offset})
      ensures chunk != Null ==> hdr[chunk.offset].size == size && !hdr[chunk.offset].inUse
      ensures chunk != Null ==> usage == old(usage) + HEADER_SIZE + size
      ensures ZonesKept(old(hdr), hdr, {})
      ensures KeepsInUse(old(ShapeOf(hdr)), ShapeOf(hdr))
      ensures OnlyHeaders(old(hdr).Keys + hdr.Keys + {usage}, old(mem[..]), mem[..])
    {
      ghost var s0, h0, m0, u0 := ShapeOf(hdr), hdr, mem[..], usage;
      TiledInArena();
      chunk := ExtendSpace(HEADER_SIZE + size);
      if chunk != Null {
        AppendTiled(s0, u0, Cell(size, false));
        BeginChunk(chunk.offset, size);
        OnlyHeadersMono({chunk.offset}, h0.Keys + hdr.Keys + {usage}, m0, mem[..]);
      }
    }

    /** The header of a chunk made from the unused tail; its links and zone are leftover bytes. */
    method BeginChunk(c: nat, size: nat)
      requires mem.Length == ARENA_SIZE && usage == c + HEADER_SIZE + size <= ARENA_SIZE && |zones| > 0
      requires Linked(hdr, freeList, free) && Listed(hdr, free, {}) && ZonesExist(hdr, |zones|)
      requires c !in hdr && Tiled(ShapeOf(hdr)[c := Cell(size, false)], usage)
      modifies this`hdr, mem
      ensures c in hdr && ValidBut({c}) && hdr[c].size == size && !hdr[c].inUse
      ensures OnlyHeaders({c}, old(mem[..]), mem[..])
      ensures ZonesKept(old(hdr), hdr, {}) && KeepsInUse(old(ShapeOf(hdr)), ShapeOf(hdr))
    {
      ghost var h0, x := hdr, Cell(size, false);
      var leftover: nat := *;
      var y := Header(Null, Null, size, false, leftover);
      StoreHeader(c, y);
      ShapeOfUpdate(h0, c, y, x);
      LinkedFrame(h0, hdr, freeList, free);
    }

    method MarkInUse(c: nat, zone: nat, ghost x: Cell)
      requires c in hdr && !hdr[c].inUse && ValidBut({c}) && zone < |zones|
      requires x == Cell(hdr[c].size, true)
      modifies this`hdr, mem
      ensures Valid()
      ensures ShapeOf(hdr) == old(ShapeOf(hdr))[c := x]
      ensures hdr.Keys == old(hdr).Keys && hdr[c].zone == zone && ZonesKept(old(hdr), hdr, {c})
      ensures OnlyHeaders({c}, old(mem[..]), mem[..])
    {
      ghost var h0 := hdr;
      TiledInArena();
      var y := hdr[c].(inUse := true, zone := zone);
      StoreHeader(c, y);
      ShapeOfUpdate(h0, c, y, x);
      LinkedFrame(h0, hdr, freeList, free);
      FlagTiled(ShapeOf(h0), usage, c, true);
      assert ShapeOf(h0)[c].(inUse := true) == x;
    }

    /** heapmem_zone_alloc. */
    method ZoneAlloc(zone: nat, size: nat) returns (r: Ptr)
      requires Valid()
      modifies this, mem
      ensures Valid()
      ensures r != NULL ==> GetChunk(r) != Null
      ensures AllocStep(old(Now()), zone, size, GetChunk(r), Now())
    {
      ghost var s := Now();
      if !Admits(zones, zone, size) {
        Refused(s, zone, size);
      }
      if size > ARENA_SIZE {
        return NULL;
      }
      if zone >= |zones| || !zones[zone].registered {
        return NULL;
      }
      var n := Align(size);
      AlignIdempotent(size);
      if HEADER_SIZE + n > (zones[zone].limit - zones[zone].charged) % SIZE_MOD {
        return NULL;
      }
      var chunk := TakeAndCharge(zone, n);
      Tried(s, zone, size, n, chunk, Now());
      r := if chunk == Null then NULL else chunk.offset + HEADER_SIZE;
      assert GetChunk(r) == chunk;
    }

    /** heapmem_zone_alloc past its checks. */
    method TakeAndCharge(zone: nat, n: nat) returns (chunk: Link)
      requires Valid() && Align(n) == n && zone < |zones|
      modifies this, mem
      ensures Valid()
      ensures TakeStep(old(Now()), zone, n, chunk, Now())
      ensures old(|free|) <= SEARCH_MAX ==> Placed(old(ShapeOf(hdr)), old(usage), n, chunk)
      ensures zones == if chunk == Null then old(zones) else Recharged(old(zones), zone, HEADER_SIZE + n)
    {
      ghost var s := Now();
      chunk := TakeBlock(n, zone);
      if chunk != Null {
        ChargeTaken(zone, n, chunk, s);
      }
    }

    method ChargeTaken(zone: nat, n: nat, ghost chunk: Link, ghost s: State)
      requires Valid() && zone < |zones| && TakeStep(s, zone, n, chunk, Now())
      modifies this`zones
      ensures Valid() && TakeStep(s, zone, n, chunk, Now())
      ensures zones == Recharged(old(zones), zone, HEADER_SIZE + n)
    {
      ghost var t := Now();
      Charge(zone, HEADER_SIZE + n);
      TakenWhateverCharged(s, zone, n, chunk, t, zones);
    }

    /** The part of heapmem_zone_alloc that finds a chunk and marks it. */
    method TakeBlock(n: nat, zone: nat) returns (chunk: Link)
      requires Valid() && Align(n) == n && zone < |zones|
      modifies this`hdr, this`usage, this`freeList, this`free, mem
      ensures Valid()
      ensures TakeStep(old(Now()), zone, n, chunk, Now())
      ensures old(|free|) <= SEARCH_MAX ==> Placed(old(ShapeOf(hdr)), old(usage), n, chunk)
    {
      ghost var s, h0, m0 := ShapeOf(hdr), hdr, mem[..];
      chunk := FindOrMake(n);
      if chunk != Null {
        var c := chunk.offset;
        ghost var t, h, m, x := ShapeOf(hdr), hdr, mem[..], Cell(hdr[c].size, true);
        MarkInUse(c, zone, x);
        ghost var keys := h0.Keys + hdr.Keys + {usage};
        OnlyHeadersTrans(h0.Keys + h.Keys + {usage}, {c}, keys, m0, m, mem[..]);
        assert c in t;
        StepSurvives(s, old(usage), ShapeOf(hdr), usage, keys, m0, mem[..]);
        BlockAdded(s, t, ShapeOf(hdr), m0, mem[..], c, x);
        ZonesKeptTrans(h0, h, hdr, {}, {c}, {c});
      }
    }

    /** The chunk to allocate: a free one if any fits, else a new one at the end of the heap. */
    method FindOrMake(n: nat) returns (chunk: Link)
      requires Valid() && Align(n) == n
      modifies this`hdr, this`usage, this`freeList, this`free, mem
      ensures KeepsInUse(old(ShapeOf(hdr)), ShapeOf(hdr))
      ensures OnlyHeaders(old(hdr).Keys + hdr.Keys + {usage}, old(mem[..]), mem[..])
      ensures chunk == Null ==> Valid() && Blocks() == old(Blocks()) && usage == old(usage)
      ensures chunk != Null ==> chunk.offset in hdr && ValidBut({chunk.offset})
      ensures chunk != Null ==> n <= hdr[chunk.offset].size <= n + HEADER_SIZE && !hdr[chunk.offset].inUse
      ensures ZonesKept(old(hdr), hdr, {})
      ensures old(|free|) <= SEARCH_MAX ==> Placed(old(ShapeOf(hdr)), old(usage), n, chunk)
      ensures chunk != Null && old(|free|) <= SEARCH_MAX ==>
                usage == UsedAfter(old(ShapeOf(hdr)), old(usage), chunk.offset, hdr[chunk.offset].size)
    {
      ghost var s0, h0, m0, u0 := ShapeOf(hdr), hdr, mem[..], usage;
      chunk := GetFreeChunk(n);
      if chunk == Null {
        AllBelow(s0, u0);
        chunk := MakeChunk(n, h0, m0);
      }
    }

    /** The new chunk, after defragmentation has led from headers h0 and bytes m0 to the present heap. */
    method MakeChunk(n: nat, ghost h0: Headers, ghost m0: seq<bv8>) returns (chunk: Link)
      requires Valid() && Tiled(ShapeOf(h0), usage)
      requires KeepsInUse(ShapeOf(h0), ShapeOf(hdr)) && ZonesKept(h0, hdr, {}) && hdr.Keys <= h0.Keys
      requires OnlyHeaders(h0.Keys + hdr.Keys + {usage}, m0, mem[..])
      modifies this`hdr, this`usage, mem
      ensures chunk == if HEADER_SIZE + n > ARENA_SIZE - old(usage) then Null else At(old(usage))
      ensures KeepsInUse(ShapeOf(h0), ShapeOf(hdr)) && ZonesKept(h0, hdr, {})
      ensures OnlyHeaders(h0.Keys + hdr.Keys + {usage}, m0, mem[..])
      ensures chunk == Null ==> Valid() && Blocks() == BlocksOf(ShapeOf(h0), m0) && usage == old(usage)
      ensures chunk != Null ==> chunk.offset in hdr && ValidBut({chunk.offset})
      ensures chunk != Null ==> hdr[chunk.offset].size == n && !hdr[chunk.offset].inUse
      ensures chunk != Null ==> usage == old(usage) + HEADER_SIZE + n
    {
      ghost var s0, s1, h1, m1, u0 := ShapeOf(h0), ShapeOf(hdr), hdr, mem[..], usage;
      chunk := NewChunk(n);
      ghost var keys := h0.Keys + hdr.Keys + {usage};
      KeepsInUseTrans(s0, s1, ShapeOf(hdr));
      ZonesKeptTrans(h0, h1, hdr, {}, {}, {});
      KeysUsed(h0, h1, hdr, u0, usage, chunk);
      OnlyHeadersTrans(h0.Keys + h1.Keys + {u0}, h1.Keys + hdr.Keys + {usage}, keys, m0, m1, mem[..]);
      if chunk == Null {
        StepSurvives(s0, u0, ShapeOf(hdr), usage, keys, m0, mem[..]);
        BlocksKept(s0, ShapeOf(hdr), m0, mem[..]);
      }
    }

    lemma KeysUsed(h0: Headers, h1: Headers, h: Headers, u0: nat, u: nat, chunk: Link)
      requires h1.Keys <= h0.Keys && if chunk == Null then u == u0 else chunk == At(u0) && u0 in h
      ensures h0.Keys + h1.Keys + {u0} <= h0.Keys + h.Keys + {u}
      ensures h1.Keys + h.Keys + {u} <= h0.Keys + h.Keys + {u}
    {
    }

    lemma AllBelow(s: Shape, u: nat)
      requires Tiled(s, u)
      ensures Topmost(s, u)
    {
      forall d | d in s
        ensures d <= u
      {
        assert End(s, d) <= u;
      }
    }

    // ----- deallocation -----

    /** free_chunk on a live block. */
    method Release(c: nat)
      requires Valid() && c in hdr && hdr[c].inUse
      modifies this`hdr, this`usage, this`freeList, this`free, mem
      ensures Valid() && Blocks() == old(Blocks()) - {c} && ZonesKept(old(hdr), hdr, {})
      ensures usage == if End(old(ShapeOf(hdr)), c) == old(usage) then c else old(usage)
    {
      ghost var s, h0, m0, u := ShapeOf(hdr), hdr, mem[..], usage;
      TiledInArena();
      assert c in s;
      FreeChunk(c);
      ghost var t := ShapeOf(hdr);
      if End(s, c) == u {
        DropLastTiled(s, u, c);
      } else {
        FlagTiled(s, u, c, false);
        assert s[c].(inUse := false) == Cell(s[c].size, false);
      }
      ReleasedListed(h0, hdr, old(free), free, c, |zones|);
      StepSurvives(s, u, t, usage, h0.Keys, m0, mem[..]);
      BlockDropped(s, t, m0, mem[..], c);
    }

    lemma ReleasedListed(g: Headers, h: Headers, p: seq<nat>, q: seq<nat>, c: nat, count: nat)
      requires Listed(g, p, {}) && ZonesExist(g, count) && c in g && g[c].inUse
      requires forall k | k in h :: k in g && h[k].zone == g[k].zone
      requires (ShapeOf(h) == ShapeOf(g) - {c} && q == p)
            || (ShapeOf(h) == ShapeOf(g)[c := Cell(g[c].size, false)] && q == [c] + p)
      ensures Listed(h, q, {}) && ZonesExist(h, count) && ZonesKept(g, h, {})
    {
      forall k | k in h
        ensures k in q <==> !h[k].inUse
        ensures h[k].inUse ==> g[k].inUse
        ensures h[k].inUse ==> h[k].zone < count
      {
        assert k in ShapeOf(h) && ShapeOf(h)[k].inUse == h[k].inUse;
        assert k in ShapeOf(g) && ShapeOf(g)[k].inUse == g[k].inUse;
      }
    }

    /** The guard `!IN_HEAP(ptr)` as the macro expands: the negation covers the first comparison only. */
    predicate RejectedAsOutside(ptr: Ptr)
      reads this
    {
      !(ptr >= 0) && ptr < usage
    }

    /** heapmem_free, given NULL or a pointer to the payload of a chunk. */
    method Free(ptr: Ptr) returns (ok: bool)
      requires Valid()
      requires ptr < 0 || (GetChunk(ptr) != Null && GetChunk(ptr).offset in hdr)
      modifies this, mem
      ensures Valid()
      ensures ok <==> GetChunk(ptr) != Null && GetChunk(ptr).offset in old(Blocks())
      ensures ok ==> FreeStep(old(Now()), GetChunk(ptr).offset, Now())
      ensures !ok ==> Now() == old(Now()) && mem[..] == old(mem[..])
    {
      if RejectedAsOutside(ptr) {
        return false;
      }
      var c := GetChunk(ptr).offset;
      InBlocks(ShapeOf(hdr), usage, mem[..]);
      assert c in Blocks() <==> hdr[c].inUse;
      if !hdr[c].inUse {
        return false;
      }
      FreeLive(c);
      ok := true;
    }

    /** The end of heapmem_free. */
    method FreeLive(c: nat)
      requires Valid() && c in hdr && hdr[c].inUse && c in Blocks()
      modifies this, mem
      ensures Valid() && FreeStep(old(Now()), c, Now())
    {
      ghost var s := Now();
      Charge(hdr[c].zone, -(HEADER_SIZE + hdr[c].size));
      Release(c);
    }

    // ----- reallocation -----

    /** The branch of heapmem_realloc that makes a block smaller. */
    method Shrink(c: nat, n: nat)
      requires Valid() && c in hdr && hdr[c].inUse && n <= hdr[c].size && Align(n) == n
      modifies this`hdr, this`usage, this`freeList, this`free, mem
      ensures Valid() && c in hdr && hdr[c].inUse && hdr[c].zone == old(hdr[c].zone)
      ensures Resized(old(Blocks()), Blocks(), c) && |Blocks()[c]| == hdr[c].size
      ensures SplitOutcome(old(ShapeOf(hdr)), old(usage), c, n, ShapeOf(hdr), usage)
      ensures hdr[c].size == if n + HEADER_SIZE < old(hdr[c].size) then n else old(hdr[c].size)
      ensures usage == if End(old(ShapeOf(hdr)), c) == old(usage) then c + HEADER_SIZE + hdr[c].size else old(usage)
      ensures ZonesKept(old(hdr), hdr, {})
    {
      ghost var s, h0, m0, u := ShapeOf(hdr), hdr, mem[..], usage;
      SplitChunk(c, n, {});
      SplitOutcomeTiled(s, u, c, n, ShapeOf(hdr), usage);
      SplitOutcomeKeeps(s, u, c, n, ShapeOf(hdr), usage, c + HEADER_SIZE + n);
      assert c in ShapeOf(hdr) && ShapeOf(hdr)[c].inUse == hdr[c].inUse;
      StepSurvives(s, u, ShapeOf(hdr), usage, h0.Keys + hdr.Keys + {usage}, m0, mem[..]);
      BlockResized(s, ShapeOf(hdr), m0, mem[..], c);
      CutZonesKept(h0, hdr, c, c + HEADER_SIZE + n);
    }

    lemma CutZonesKept(g: Headers, h: Headers, c: nat, d: nat)
      requires c in g && g[c].inUse
      requires forall k | k in ShapeOf(g) && k != c :: k in ShapeOf(h) && ShapeOf(h)[k] == ShapeOf(g)[k]
      requires forall k | k in ShapeOf(h) && k !in ShapeOf(g) :: k == d && !ShapeOf(h)[k].inUse
      requires forall k | k in h && k in g :: h[k].zone == g[k].zone
      ensures ZonesKept(g, h, {})
    {
      forall k | k in h && h[k].inUse
        ensures k in g && g[k].inUse
      {
        assert k in ShapeOf(h) && ShapeOf(h)[k].inUse;
        assert k in ShapeOf(g);
        assert k != c ==> ShapeOf(g)[k].inUse;
      }
    }

    lemma UpdateKeepsOthers(s: Shape, c: nat, x: Cell)
      requires c in s && s[c].inUse && x.inUse
      ensures KeepsOthers(s, s[c := x], c)
    {
    }

    lemma StillListed(g: Headers, h: Headers, q: seq<nat>, count: nat)
      requires Listed(g, q, {}) && ZonesExist(g, count)
      requires g.Keys == h.Keys && forall k | k in h :: h[k].inUse == g[k].inUse && h[k].zone == g[k].zone
      ensures Listed(h, q, {}) && ZonesExist(h, count)
    {
    }

    /** The branch that extends the last block into the unused tail. */
    method ExtendLast(c: nat, n: nat) returns (ok: bool)
      requires Valid() && c in hdr && hdr[c].inUse && n > hdr[c].size
      requires c + HEADER_SIZE + hdr[c].size == usage
      modifies this`hdr, this`usage, mem
      ensures Valid() && c in hdr && hdr[c].inUse && hdr[c].zone == old(hdr[c].zone)
      ensures ok <==> n - old(hdr[c].size) <= ARENA_SIZE - old(usage)
      ensures !ok ==> hdr == old(hdr) && usage == old(usage) && mem[..] == old(mem[..])
      ensures ok ==> Resized(old(Blocks()), Blocks(), c) && |Blocks()[c]| == n && usage == c + HEADER_SIZE + n
      ensures ZonesKept(old(hdr), hdr, {})
    {
      ghost var s, h0, m0, u := ShapeOf(hdr), hdr, mem[..], usage;
      TiledInArena();
      assert End(s, c) == u;
      var old_end := ExtendSpace(n - hdr[c].size);
      ok := old_end != Null;
      if ok {
        var y := hdr[c].(size := n);
        ghost var x := Cell(n, true);
        StoreHeader(c, y);
        ShapeOfUpdate(h0, c, y, x);
        GrowLastTiled(s, u, c, x, usage);
        LinkedFrame(h0, hdr, freeList, free);
        StillListed(h0, hdr, free, |zones|);
        StepSurvives(s, u, ShapeOf(hdr), usage, {c}, m0, mem[..]);
        UpdateKeepsOthers(s, c, x);
        BlockResized(s, ShapeOf(hdr), m0, mem[..], c);
      }
    }

    /** The branch that lets a block take in the free chunks after it. */
    method GrowInto(c: nat)
      requires Valid() && c in hdr && hdr[c].inUse
      modifies this`hdr, this`freeList, this`free, mem
      ensures Valid() && c in hdr && hdr[c].inUse && hdr[c].zone == old(hdr[c].zone)
      ensures Resized(old(Blocks()), Blocks(), c) && |Blocks()[c]| == hdr[c].size >= old(hdr[c].size)
      ensures ShapeOf(hdr) == Merged(old(ShapeOf(hdr)), c, RunEnd(old(ShapeOf(hdr)), usage, c)) && |free| <= old(|free|)
      ensures ZonesKept(old(hdr), hdr, {})
    {
      ghost var s, h0, m0 := ShapeOf(hdr), hdr, mem[..];
      ghost var e := CoalesceChunks(c);
      MergedRunEnd(s, usage, c, e);
      assert c in ShapeOf(hdr) && ShapeOf(hdr)[c].inUse == hdr[c].inUse && ShapeOf(hdr)[c].size == hdr[c].size;
      StepSurvives(s, usage, ShapeOf(hdr), usage, h0.Keys, m0, mem[..]);
      BlockResized(s, ShapeOf(hdr), m0, mem[..], c);
      ZonesKeptMerged(h0, hdr, c, e);
    }

    lemma MergedRunEnd(s: Shape, u: nat, c: nat, e: nat)
      requires Tiled(s, u) && Mergeable(s, u, c, e) && RightClosed(Merged(s, c, e), u, c)
      ensures e == RunEnd(s, u, c)
    {
      assert End(Merged(s, c, e), c) == e;
      RunEndUnique(s, u, c, e);
    }

    /** memcpy between disjoint stretches of the arena. */
    method MemCpy(dst: nat, src: nat, len: nat)
      requires dst + len <= mem.Length && src + len <= mem.Length
      requires src + len <= dst || dst + len <= src
      modifies mem
      ensures mem[..] == Copied(old(mem[..]), dst, src, len)
    {
      ghost var m0 := mem[..];
      for i := 0 to len
        invariant forall j | dst <= j < dst + i :: mem[j] == m0[src + j - dst]
        invariant forall j | 0 <= j < mem.Length && !(dst <= j < dst + i) :: mem[j] == m0[j]
      {
        mem[dst + i] := mem[src + i];
      }
      IsCopied(m0, mem[..], dst, src, len);
    }

    lemma IsCopied(m: seq<bv8>, m': seq<bv8>, dst: nat, src: nat, len: nat)
      requires |m'| == |m| && dst + len <= |m| && src + len <= |m|
      requires forall j | dst <= j < dst + len :: m'[j] == m[src + j - dst]
      requires forall j | 0 <= j < |m| && !(dst <= j < dst + len) :: m'[j] == m[j]
      ensures m' == Copied(m, dst, src, len)
    {
      assert m'[..dst] == m[..dst];
      assert m'[dst..dst + len] == m[src..src + len];
      assert m' == m'[..dst] + m'[dst..dst + len] + m'[dst + len..];
    }

    /** The move in heapmem_realloc: the contents of one live block go to another. */
    method CopyBlock(from: nat, to: nat)
      requires Valid() && from in Blocks() && to in Blocks() && from != to && |Blocks()[from]| <= |Blocks()[to]|
      modifies mem
      ensures Valid() && Blocks() - {to} == old(Blocks()) - {to} && to in Blocks()
      ensures |Blocks()[to]| == old(|Blocks()[to]|)
      ensures old(Blocks()[from]) <= Blocks()[to]
    {
      ghost var s, m0 := ShapeOf(hdr), mem[..];
      InBlocks(s, usage, m0);
      assert s[from].size == hdr[from].size;
      Apart(s, usage, from, to);
      var dst, src, len := to + HEADER_SIZE, from + HEADER_SIZE, hdr[from].size;
      MemCpy(dst, src, len);
      CopiedBlock(s, m0, mem[..], from, to, dst, src, len);
      CopiedOthers(s, usage, m0, mem[..], to, dst, src, len);
    }

    lemma Apart(s: Shape, u: nat, c: nat, d: nat)
      requires Tiled(s, u) && c in s && d in s && c != d
      ensures End(s, c) <= u && End(s, d) <= u && (End(s, c) <= d || End(s, d) <= c)
    {
      Ordered(s, u);
    }

    ghost function Copied(m: seq<bv8>, dst: nat, src: nat, len: nat): seq<bv8>
      requires dst + len <= |m| && src + len <= |m|
    {
      m[..dst] + m[src..src + len] + m[dst + len..]
    }

    lemma CopiedBlock(s: Shape, m: seq<bv8>, n: seq<bv8>, from: nat, to: nat, dst: nat, src: nat, len: nat)
      requires Bounded(s, |m|) && from in s && to in s && s[from].inUse && s[to].inUse && len <= s[to].size
      requires dst == to + HEADER_SIZE && src == from + HEADER_SIZE && len == s[from].size
      requires dst + len <= |m| && src + len <= |m| && n == Copied(m, dst, src, len)
      ensures to in BlocksOf(s, n) && |BlocksOf(s, n)[to]| == s[to].size
      ensures from in BlocksOf(s, m) && BlocksOf(s, m)[from] <= BlocksOf(s, n)[to]
    {
      assert End(s, to) <= |m| && End(s, from) <= |m|;
      assert n[dst..dst + len] == m[src..src + len];
      assert n[dst..End(s, to)][..len] == n[dst..dst + len];
    }

    lemma CopiedOthers(s: Shape, u: nat, m: seq<bv8>, n: seq<bv8>, to: nat, dst: nat, src: nat, len: nat)
      requires Tiled(s, u) && Bounded(s, |m|) && to in s && len <= s[to].size
      requires dst == to + HEADER_SIZE && dst + len <= |m| && src + len <= |m| && n == Copied(m, dst, src, len)
      ensures BlocksOf(s, n) - {to} == BlocksOf(s, m) - {to}
    {
      forall k | k in s && k != to && s[k].inUse
        ensures k in BlocksOf(s, n) && k in BlocksOf(s, m) && BlocksOf(s, n)[k] == BlocksOf(s, m)[k]
      {
        Apart(s, u, k, to);
        CopiedOther(m, n, k + HEADER_SIZE, End(s, k), dst, src, len);
      }
      assert (BlocksOf(s, n) - {to}).Keys == (BlocksOf(s, m) - {to}).Keys;
    }

    lemma CopiedOther(m: seq<bv8>, n: seq<bv8>, lo: nat, hi: nat, dst: nat, src: nat, len: nat)
      requires lo <= hi <= |m| && dst + len <= |m| && src + len <= |m| && n == Copied(m, dst, src, len)
      requires hi <= dst || dst + len <= lo
      ensures n[lo..hi] == m[lo..hi]
    {
    }

    /** heapmem_realloc on a live block, after the early checks. A block that moves is charged anew and its old charge
        stays. */
    method Resize(c: nat, n: nat) returns (r: Link)
      requires Valid() && c in hdr && hdr[c].inUse && Align(n) == n
      modifies this, mem
      ensures Valid()
      ensures ReallocStep(old(Now()), c, n, r, Now())
    {
      ghost var s := Now();
      var adj := n - hdr[c].size;
      var done := ResizeInPlace(c, n);
      if done {
        Stay(c, n, adj, s);
        r := At(c);
      } else {
        r := Move(c, n, s);
      }
    }

    /** The end of heapmem_realloc for a block that has come to hold n bytes in place. */
    method Stay(c: nat, n: nat, adj: int, ghost s: State)
      requires Valid() && c in hdr && c in s.hdr && hdr[c].zone == s.hdr[c].zone < |zones| && zones == s.zones
      requires FitsInPlace(ShapeOf(s.hdr), s.used, c, n) && adj == n - s.hdr[c].size
      requires Resized(s.blocks, Blocks(), c) && n <= |Blocks()[c]| <= n + HEADER_SIZE
      requires usage == UsedInPlace(ShapeOf(s.hdr), s.used, c, n, |Blocks()[c]|)
      requires ZonesKept(s.hdr, hdr, {})
      modifies this`zones
      ensures Valid() && ReallocStep(s, c, n, At(c), Now())
    {
      ghost var t := Now();
      Charge(hdr[c].zone, adj);
      assert Now() == t.(zones := zones);
      Stayed(s, t, c, n, Now());
    }

    /** The attempts to keep the block where it is: cut it, extend it at the end of the heap, or merge and cut. */
    method ResizeInPlace(c: nat, n: nat) returns (done: bool)
      requires Valid() && c in hdr && hdr[c].inUse && Align(n) == n
      modifies this`hdr, this`usage, this`freeList, this`free, mem
      ensures Valid() && c in hdr && hdr[c].inUse && hdr[c].zone == old(hdr[c].zone)
      ensures c in old(Blocks()) && |old(Blocks())[c]| == old(hdr[c].size)
      ensures Resized(old(Blocks()), Blocks(), c) && |Blocks()[c]| == hdr[c].size
      ensures ZonesKept(old(hdr), hdr, {})
      ensures done <==> FitsInPlace(old(ShapeOf(hdr)), old(usage), c, n)
      ensures done ==> n <= hdr[c].size <= n + HEADER_SIZE
      ensures done ==> usage == UsedInPlace(old(ShapeOf(hdr)), old(usage), c, n, hdr[c].size)
      ensures !done ==> n > hdr[c].size >= old(hdr[c].size) && usage == old(usage) && |free| <= old(|free|)
      ensures !done ==> ShapeOf(hdr) == Merged(old(ShapeOf(hdr)), c, RunEnd(old(ShapeOf(hdr)), usage, c))
    {
      ghost var s, u, b0 := ShapeOf(hdr), usage, Blocks();
      InBlocks(s, u, mem[..]);
      assert s[c].size == hdr[c].size;
      if n <= hdr[c].size {
        Shrink(c, n);
        return true;
      }
      if c + HEADER_SIZE + hdr[c].size == usage {
        done := ExtendInPlace(c, n);
      } else {
        done := MergeAndCut(c, n, b0);
      }
    }

    /** The branch for the last block. */
    method ExtendInPlace(c: nat, n: nat) returns (done: bool)
      requires Valid() && c in hdr && hdr[c].inUse && n > hdr[c].size
      requires c + HEADER_SIZE + hdr[c].size == usage
      modifies this`hdr, this`usage, mem
      ensures Valid() && c in hdr && hdr[c].inUse && hdr[c].zone == old(hdr[c].zone)
      ensures Resized(old(Blocks()), Blocks(), c) && |Blocks()[c]| == hdr[c].size
      ensures ZonesKept(old(hdr), hdr, {})
      ensures done <==> FitsInPlace(old(ShapeOf(hdr)), old(usage), c, n)
      ensures done ==> hdr[c].size == n && usage == UsedInPlace(old(ShapeOf(hdr)), old(usage), c, n, n)
      ensures !done ==> hdr == old(hdr) && usage == old(usage)
      ensures !done ==> ShapeOf(hdr) == Merged(old(ShapeOf(hdr)), c, RunEnd(old(ShapeOf(hdr)), usage, c))
    {
      LastRun(ShapeOf(hdr), usage, c);
      InBlocks(ShapeOf(hdr), usage, mem[..]);
      assert ShapeOf(hdr)[c].size == hdr[c].size;
      done := ExtendLast(c, n);
      assert hdr[c].size == |Blocks()[c]| by { InBlocks(ShapeOf(hdr), usage, mem[..]); }
    }

    /** The branch for a block that is not the last one: it takes in the free chunks after it and, if that is enough,
        is cut to size. */
    method MergeAndCut(c: nat, n: nat, ghost b0: map<nat, seq<bv8>>) returns (done: bool)
      requires Valid() && c in hdr && hdr[c].inUse && Align(n) == n && b0 == Blocks()
      modifies this`hdr, this`usage, this`freeList, this`free, mem
      ensures Valid() && c in hdr && hdr[c].inUse && hdr[c].zone == old(hdr[c].zone)
      ensures Resized(b0, Blocks(), c) && |Blocks()[c]| == hdr[c].size
      ensures ZonesKept(old(hdr), hdr, {})
      ensures var s, u := old(ShapeOf(hdr)), old(usage);
              var e := RunEnd(s, u, c);
              && (done <==> c + HEADER_SIZE + n <= e)
              && (done ==> n <= hdr[c].size <= n + HEADER_SIZE)
              && (done ==> usage == if e == u then c + HEADER_SIZE + hdr[c].size else u)
              && (!done ==> n > hdr[c].size >= s[c].size && usage == u && |free| <= old(|free|))
              && (!done ==> ShapeOf(hdr) == Merged(s, c, e))
    {
      ghost var s, h0 := ShapeOf(hdr), hdr;
      GrowInto(c);
      assert ShapeOf(hdr)[c].size == hdr[c].size;
      done := hdr[c].size >= n;
      if done {
        assert End(ShapeOf(hdr), c) == RunEnd(s, usage, c);
        CutMerged(c, n, b0, h0);
      }
    }

    /** The block, grown from blocks b0 and headers h0, is cut to size. */
    method CutMerged(c: nat, n: nat, ghost b0: map<nat, seq<bv8>>, ghost h0: Headers)
      requires Valid() && c in hdr && hdr[c].inUse && n <= hdr[c].size && Align(n) == n
      requires Resized(b0, Blocks(), c) && |Blocks()[c]| >= |b0[c]| && ZonesKept(h0, hdr, {})
      modifies this`hdr, this`usage, this`freeList, this`free, mem
      ensures Valid() && c in hdr && hdr[c].inUse && hdr[c].zone == old(hdr[c].zone)
      ensures Resized(b0, Blocks(), c) && |Blocks()[c]| == hdr[c].size && n <= hdr[c].size <= n + HEADER_SIZE
      ensures usage == if End(old(ShapeOf(hdr)), c) == old(usage) then c + HEADER_SIZE + hdr[c].size else old(usage)
      ensures ZonesKept(h0, hdr, {})
    {
      ghost var b1, h1 := Blocks(), hdr;
      Shrink(c, n);
      ResizedTwice(b0, b1, Blocks(), c);
      ZonesKeptTrans(h0, h1, hdr, {}, {}, {});
    }

    lemma LastRun(s: Shape, u: nat, c: nat)
      requires Tiled(s, u) && c in s && End(s, c) == u
      ensures RunEnd(s, u, c) == u && Merged(s, c, u) == s
    {
      MergeNone(s, u, c);
      NothingAtEnd(s, u);
    }

    /** The last resort of heapmem_realloc: a new block, a copy, and the old chunk freed. Block c could not grow in
        place in heap s, although it has taken in what free chunks follow it. */
    method Move(c: nat, n: nat, ghost s: State) returns (r: Link)
      requires Valid() && c in hdr && hdr[c].inUse && Align(n) == n
      requires GrewInVain(s, c, n, Now())
      modifies this, mem
      ensures Valid()
      ensures r != At(c) && ReallocStep(s, c, n, r, Now())
    {
      ghost var s1 := Now();
      InBlocks(ShapeOf(hdr), usage, mem[..]);
      r := AllocAgain(hdr[c].zone, n);
      if r == Null {
        NotMoved(s, s1, c, n, Now());
      } else {
        FinishMove(c, r.offset, n, s, s1);
      }
    }

    /** The end of heapmem_realloc: the block has grown in vain from heap s to heap s1, and block d is the new one. */
    method FinishMove(c: nat, d: nat, n: nat, ghost s: State, ghost s1: State)
      requires Valid() && Align(n) == n
      requires GrewInVain(s, c, n, s1) && AllocStep(s1, s1.hdr[c].zone, n, At(d), Now())
      modifies this`hdr, this`usage, this`freeList, this`free, mem
      ensures Valid() && d != c && ReallocStep(s, c, n, At(d), Now())
    {
      ghost var s2 := Now();
      MoveTo(c, d, n, s1.blocks);
      Moved(s, s1, s2, Now(), c, n, d);
    }

    method AllocAgain(zone: nat, n: nat) returns (r: Link)
      requires Valid() && zone < |zones| && Align(n) == n
      modifies this, mem
      ensures Valid() && AllocStep(old(Now()), zone, n, r, Now())
    {
      var newptr := ZoneAlloc(zone, n);
      r := GetChunk(newptr);
    }

    /** The contents of block c go to the new block d, and chunk c is freed. */
    method MoveTo(c: nat, d: nat, n: nat, ghost b1: map<nat, seq<bv8>>)
      requires Valid() && c in b1 && |b1[c]| < n && Allocated(b1, Blocks(), d, n)
      modifies this`hdr, this`usage, this`freeList, this`free, mem
      ensures Valid() && c != d && d in Blocks() && Blocks() - {d} == b1 - {c} && b1[c] <= Blocks()[d]
      ensures |Blocks()[d]| == |old(Blocks())[d]|
      ensures d in hdr && d in old(hdr) && hdr[d].zone == old(hdr)[d].zone && ZonesKept(old(hdr), hdr, {})
      ensures usage == if c + HEADER_SIZE + |b1[c]| == old(usage) then c else old(usage)
    {
      ghost var b2, h2 := Blocks(), hdr;
      BlockApart(b1, b2, c, d, n);
      InBlocks(ShapeOf(hdr), usage, mem[..]);
      CopyBlock(c, d);
      ghost var b3 := Blocks();
      CopiedApart(b1, b2, b3, c, d);
      Release(c);
      InBlocks(ShapeOf(hdr), usage, mem[..]);
      assert d in hdr && hdr[d].inUse && hdr[d].zone == h2[d].zone;
    }

    lemma BlockApart(a: map<nat, seq<bv8>>, b: map<nat, seq<bv8>>, c: nat, d: nat, n: nat)
      requires c in a && Allocated(a, b, d, n)
      ensures c != d && c in b && b[c] == a[c]
    {
      assert c in b - {d};
    }

    lemma CopiedApart(a: map<nat, seq<bv8>>, b: map<nat, seq<bv8>>, b': map<nat, seq<bv8>>, c: nat, d: nat)
      requires c in a && d !in a && c != d && b - {d} == a && b' - {d} == b - {d} && d in b'
      ensures c in b' && b'[c] == a[c]
      ensures d in b' - {c} && (b' - {c})[d] == b'[d] && (b' - {c}) - {d} == a - {c}
    {
      assert c in b' - {d};
    }

    /** heapmem_realloc, given NULL or a pointer to the payload of a chunk. */
    method Realloc(ptr: Ptr, size: nat) returns (r: Ptr)
      requires Valid()
      requires ptr < 0 || (GetChunk(ptr) != Null && GetChunk(ptr).offset in hdr)
      modifies this, mem
      ensures Valid()
      ensures r != NULL ==> GetChunk(r) != Null
      ensures ptr == NULL ==> AllocStep(old(Now()), 0, size, GetChunk(r), Now())
      ensures ptr < 0 && ptr != NULL ==> r == NULL && Now() == old(Now())
      ensures ptr >= 0 ==>
                var c := GetChunk(ptr).offset;
                if size > ARENA_SIZE || c !in old(Blocks()) then r == NULL && Now() == old(Now())
                else if size == 0 then r == NULL && FreeStep(old(Now()), c, Now())
                else ReallocStep(old(Now()), c, Align(size), GetChunk(r), Now())
    {
      if ptr != NULL && RejectedAsOutside(ptr) {
        return NULL;
      }
      if size > ARENA_SIZE {
        return NULL;
      }
      if ptr == NULL {
        r := ZoneAlloc(0, size);
        return;
      } else if size == 0 {
        var _ := Free(ptr);
        return NULL;
      }
      r := ReallocChunk(size, GetChunk(ptr).offset);
    }

    /** heapmem_realloc past its special cases. */
    method ReallocChunk(size: nat, c: nat) returns (r: Ptr)
      requires Valid() && c in hdr
      modifies this, mem
      ensures Valid() && (r != NULL ==> GetChunk(r) != Null)
      ensures if c !in old(Blocks()) then r == NULL && Now() == old(Now())
              else ReallocStep(old(Now()), c, Align(size), GetChunk(r), Now())
    {
      InBlocks(ShapeOf(hdr), usage, mem[..]);
      assert c in Blocks() <==> hdr[c].inUse;
      if !hdr[c].inUse {
        return NULL;
      }
      AlignIdempotent(size);
      var d := Resize(c, Align(size));
      r := if d == Null then NULL else d.offset + HEADER_SIZE;
      assert GetChunk(r) == d;
    }

    // ----- statistics -----

    ghost predicate Walking(h0: Headers, m0: seq<bv8>, c: nat, st: Stats, f: nat)
      reads this, mem
    {
      && Valid()
      && Coarsened(ShapeOf(h0), ShapeOf(hdr), usage)
      && OnlyHeaders(h0.Keys, m0, mem[..]) && ZonesKept(h0, hdr, {})
      && TallyOf(hdr, usage, LiveBytes(ShapeOf(h0), usage, 0), c, st, f)
      && ClosedBelow(hdr, usage, c)
    }

    /** heapmem_stats. The field `chunks` is kept as a count; the source divides overhead by the header size. */
    method GetStats() returns (st: Stats)
      requires Valid()
      modifies this`hdr, this`freeList, this`free, mem
      ensures Valid() && Blocks() == old(Blocks()) && ZonesKept(old(hdr), hdr, {})
      ensures FullyMerged(ShapeOf(hdr), usage)
      ensures st.footprint == usage && st.chunks == |Blocks()|
      ensures st.overhead == HEADER_SIZE * st.chunks
      ensures st.allocated_ == |PayloadBytes(old(ShapeOf(hdr)), 0, usage)|
      ensures st.allocated_ + st.overhead + st.available + HEADER_SIZE * |free| == ARENA_SIZE
    {
      ghost var h0, m0, f := hdr, mem[..], 0;
      assert usage > 0 ==> 0 in ShapeOf(hdr);
      LiveBytesExact(ShapeOf(hdr), usage, 0);
      st, f := WalkAll();
      WalkedAll(h0, m0);
      TallyComplete(usage, st, f, LiveBytes(ShapeOf(h0), usage, 0));
      HeadersOfProduct(st.chunks);
      HeadersOfProduct(|free|);
      st := st.(available := st.available + (ARENA_SIZE - usage), footprint := usage);
    }

    /** The loop of heapmem_stats. */
    method WalkAll() returns (st: Stats, ghost f: nat)
      requires Valid()
      modifies this`hdr, this`freeList, this`free, mem
      ensures Walking(old(hdr), old(mem[..]), usage, st, f)
    {
      WalkBegins();
      st, f := Stats(0, 0, 0, 0, 0), 0;
      var c := 0;
      while c < usage
        invariant c <= usage && Walking(old(hdr), old(mem[..]), c, st, f)
        decreases usage - c
      {
        c, st, f := WalkOne(c, st, f, old(hdr), old(mem[..]));
      }
    }

    lemma WalkBegins()
      requires Valid()
      ensures Walking(hdr, mem[..], 0, Stats(0, 0, 0, 0, 0), 0)
    {
      CoarsenedRefl(ShapeOf(hdr), usage);
      assert 0 < usage ==> 0 in ShapeOf(hdr);
    }

    lemma WalkedAll(h0: Headers, m0: seq<bv8>)
      requires Valid() && Coarsened(ShapeOf(h0), ShapeOf(hdr), usage) && OnlyHeaders(h0.Keys, m0, mem[..])
      ensures Blocks() == BlocksOf(ShapeOf(h0), m0)
    {
      StepSurvives(ShapeOf(h0), usage, ShapeOf(hdr), usage, h0.Keys, m0, mem[..]);
      BlocksKept(ShapeOf(h0), ShapeOf(hdr), m0, mem[..]);
    }

    lemma TallyComplete(c: nat, st: Stats, f: nat, live: nat)
      requires Valid() && c >= usage && TallyOf(hdr, usage, live, c, st, f) && ClosedBelow(hdr, usage, c)
      ensures FullyMerged(ShapeOf(hdr), usage)
      ensures st.chunks == |Blocks()| && f == |free| && st.allocated_ == live
    {
      CountLive();
      CountFree(hdr, free, usage);
    }

    lemma CountLive()
      requires Valid()
      ensures |Below(hdr, true, usage)| == |Blocks()|
      ensures forall k | k in hdr :: k < usage
    {
      var t := ShapeOf(hdr);
      InBlocks(t, usage, mem[..]);
      forall k | k in hdr
        ensures k < usage
      {
        assert k in t && End(t, k) <= usage;
      }
      assert Below(hdr, true, usage) == Blocks().Keys;
    }

    lemma CountFree(h: Headers, q: seq<nat>, u: nat)
      requires Listed(h, q, {}) && Distinct(q)
      requires forall k | k in q :: k in h
      requires forall k | k in h :: k < u
      ensures |Below(h, false, u)| == |q|
      ensures forall k | k in h && !h[k].inUse :: k in Below(h, false, u)
    {
      DistinctSize(q);
      assert Below(h, false, u) == Elements(q);
    }

    /** One chunk of the walk. */
    method WalkOne(c: nat, st: Stats, ghost f: nat, ghost h0: Headers, ghost m0: seq<bv8>)
      returns (next: nat, st': Stats, ghost f': nat)
      requires Walking(h0, m0, c, st, f) && c < usage
      modifies this`hdr, this`freeList, this`free, mem
      ensures c < next && Walking(h0, m0, next, st', f')
    {
      if !hdr[c].inUse {
        MergeAt(c, h0, m0, st, f);
      }
      next, st', f' := CountChunk(c, st, f, LiveBytes(ShapeOf(h0), usage, 0));
    }

    /** A chunk enters the statistics. */
    method CountChunk(c: nat, st: Stats, ghost f: nat, ghost live: nat) returns (next: nat, st': Stats, ghost f': nat)
      requires Tiled(ShapeOf(hdr), usage) && c in hdr && (!hdr[c].inUse ==> RightClosed(ShapeOf(hdr), usage, c))
      requires TallyOf(hdr, usage, live, c, st, f) && ClosedBelow(hdr, usage, c)
      ensures c < next && TallyOf(hdr, usage, live, next, st', f') && ClosedBelow(hdr, usage, next)
    {
      next := c + HEADER_SIZE + hdr[c].size;
      assert c in ShapeOf(hdr);
      ClosedNext(hdr, usage, c, next);
      if hdr[c].inUse {
        st' := st.(allocated_ := st.allocated_ + hdr[c].size, overhead := st.overhead + HEADER_SIZE,
                   chunks := st.chunks + 1);
        f' := f;
        TallyLive(hdr, usage, live, c, st, f, st');
      } else {
        st' := st.(available := st.available + hdr[c].size);
        f' := f + 1;
        TallyFree(hdr, usage, live, c, st, f, st');
      }
    }

    method MergeAt(c: nat, ghost h0: Headers, ghost m0: seq<bv8>, ghost st: Stats, ghost f: nat)
      requires Walking(h0, m0, c, st, f) && c in hdr && !hdr[c].inUse
      modifies this`hdr, this`freeList, this`free, mem
      ensures Walking(h0, m0, c, st, f) && c in hdr && !hdr[c].inUse && RightClosed(ShapeOf(hdr), usage, c)
    {
      ghost var h1, m1 := hdr, mem[..];
      ghost var e := CoalesceChunks(c);
      ZonesKeptMerged(h1, hdr, c, e);
      ZonesKeptTrans(h0, h1, hdr, {}, {}, {});
      MergeWalked(h0, h1, hdr, usage, LiveBytes(ShapeOf(h0), usage, 0), c, e, st, f);
      OnlyHeadersTrans(h0.Keys, h1.Keys, h0.Keys, m0, m1, mem[..]);
    }

    lemma MergeWalked(h0: Headers, g: Headers, h: Headers, u: nat, live: nat, c: nat, e: nat, st: Stats, f: nat)
      requires Coarsened(ShapeOf(h0), ShapeOf(g), u) && Mergeable(ShapeOf(g), u, c, e) && !g[c].inUse
      requires ShapeOf(h) == Merged(ShapeOf(g), c, e)
      requires TallyOf(g, u, live, c, st, f) && ClosedBelow(g, u, c)
      ensures Coarsened(ShapeOf(h0), ShapeOf(h), u) && TallyOf(h, u, live, c, st, f) && ClosedBelow(h, u, c)
      ensures g.Keys <= h0.Keys && c in h && !h[c].inUse
    {
      assert g.Keys == ShapeOf(g).Keys && h0.Keys == ShapeOf(h0).Keys;
      CoarsenedMerge(ShapeOf(h0), ShapeOf(g), u, c, e);
      TallyMerged(g, h, u, live, c, e, st, f);
      ClosedMerged(g, h, u, c, e);
      MergedFlag(g, h, c, e);
    }

    lemma ZonesKeptMerged(g: Headers, h: Headers, c: nat, e: nat)
      requires c in g && c + HEADER_SIZE <= e && ShapeOf(h) == Merged(ShapeOf(g), c, e)
      requires forall k | k in h :: k in g && h[k].zone == g[k].zone
      ensures ZonesKept(g, h, {})
    {
      forall k | k in h && h[k].inUse
        ensures g[k].inUse
      {
        assert ShapeOf(h)[k].inUse == ShapeOf(g)[k].inUse;
      }
    }

    lemma MergedFlag(g: Headers, h: Headers, c: nat, e: nat)
      requires c in g && c + HEADER_SIZE <= e && ShapeOf(h) == Merged(ShapeOf(g), c, e)
      ensures c in h && h[c].inUse == g[c].inUse
    {
      assert c in ShapeOf(h) && ShapeOf(h)[c].inUse == h[c].inUse;
    }

    // ----- the client's own stores -----

    /** A client stores a byte in its block. */
    method Write(c: nat, i: nat, byte: bv8)
      requires Valid() && c in Blocks() && i < |Blocks()[c]|
      modifies mem
      ensures Now() == old(Now()).(blocks := old(Blocks())[c := old(Blocks())[c][i := byte]])
    {
      ghost var s, m := ShapeOf(hdr), mem[..];
      InBlocks(s, usage, m);
      Ordered(s, usage);
      mem[c + HEADER_SIZE + i] := byte;
      WrittenBlocks(s, usage, m, mem[..], c, i, byte);
    }

    lemma WrittenBlocks(s: Shape, u: nat, m: seq<bv8>, n: seq<bv8>, c: nat, i: nat, byte: bv8)
      requires Tiled(s, u) && u <= |m| && c in BlocksOf(s, m) && i < |BlocksOf(s, m)[c]|
      requires c + HEADER_SIZE + i < |m| && n == m[c + HEADER_SIZE + i := byte]
      ensures BlocksOf(s, n) == BlocksOf(s, m)[c := BlocksOf(s, m)[c][i := byte]]
    {
      var b := BlocksOf(s, m)[c := BlocksOf(s, m)[c][i := byte]];
      InBlocks(s, u, m);
      InBlocks(s, u, n);
      forall k | k in b
        ensures BlocksOf(s, n)[k] == b[k]
      {
        if k != c {
          Apart(s, u, k, c);
          WrittenElsewhere(m, n, c + HEADER_SIZE + i, k + HEADER_SIZE, End(s, k), byte);
        } else {
          WrittenHere(m, n, c + HEADER_SIZE, End(s, c), i, byte);
        }
      }
    }

    lemma WrittenHere(m: seq<bv8>, n: seq<bv8>, lo: nat, hi: nat, i: nat, byte: bv8)
      requires lo <= hi <= |m| && i < hi - lo && n == m[lo + i := byte]
      ensures n[lo..hi] == m[lo..hi][i := byte]
    {
    }

    lemma WrittenElsewhere(m: seq<bv8>, n: seq<bv8>, at: nat, lo: nat, hi: nat, byte: bv8)
      requires at < |m| && n == m[at := byte] && lo <= hi <= |m| && !(lo <= at < hi)
      ensures n[lo..hi] == m[lo..hi]
    {
    }

    // ----- what the invariant means -----

    /** Live payloads lie inside the used prefix and do not overlap. */
    lemma PayloadsDisjoint(c: nat, d: nat)
      requires Valid() && c in Blocks() && d in Blocks() && c != d
      ensures c + HEADER_SIZE + |Blocks()[c]| <= usage <= ARENA_SIZE
      ensures c + HEADER_SIZE + |Blocks()[c]| <= d || d + HEADER_SIZE + |Blocks()[d]| <= c
    {
      InBlocks(ShapeOf(hdr), usage, mem[..]);
      Apart(ShapeOf(hdr), usage, c, d);
    }

    /** The list holds each free chunk once and nothing else, and prev is the inverse of next. */
    lemma FreeListExact(c: nat)
      requires Valid() && c in hdr
      ensures multiset(free)[c] == if hdr[c].inUse then 0 else 1
      ensures !hdr[c].inUse && hdr[c].next.At? ==>
                hdr[c].next.offset in hdr && !hdr[hdr[c].next.offset].inUse && hdr[hdr[c].next.offset].prev == At(c)
      ensures !hdr[c].inUse && hdr[c].prev.At? ==>
                hdr[c].prev.offset in hdr && !hdr[hdr[c].prev.offset].inUse && hdr[hdr[c].prev.offset].next == At(c)
    {
      CountDistinct(free, c);
      if !hdr[c].inUse {
        var i :| 0 <= i < |free| && free[i] == c;
        assert LinkedAt(hdr, free, i);
        assert i + 1 < |free| ==> free[i + 1] in free && LinkedAt(hdr, free, i + 1);
        assert i > 0 ==> free[i - 1] in free && LinkedAt(hdr, free, i - 1);
      }
    }

    lemma {:induction false} CountDistinct(q: seq<nat>, c: nat)
      requires Distinct(q)
      ensures multiset(q)[c] == if c in q then 1 else 0
    {
      if q != [] {
        CountDistinct(q[1..], c);
        assert q == [q[0]] + q[1..];
      }
    }

    /** Every used byte lies in one chunk only. */
    lemma UsedPrefixTiled(i: nat)
      requires Valid() && i < usage
      ensures exists c :: Covers(ShapeOf(hdr), c, i) && forall d | Covers(ShapeOf(hdr), d, i) :: d == c
    {
      TilesExactly(ShapeOf(hdr), usage, i);
    }

    /** The guard does what its name says for exactly the pointers below the end of the used prefix:
        a pointer at or past it is outside the heap, yet not rejected. */
    lemma OutsideCheckExact(ptr: Ptr)
      ensures (RejectedAsOutside(ptr) <==> !(0 <= ptr < usage)) <==> ptr < usage
      ensures RejectedAsOutside(ptr) <==> ptr < 0
    {
    }
  }
}
