/**
 The neighbour tables of os/net/nbr-table.c seen as values: the shared pool of neighbours, the two
 bitmaps, and the map from address to item that each table stands for.
 */
module NbrState {
  import opened Arithmetic
  import opened Bitmap
  import opened Lists
  import opened ObjectPool
  import opened Options

  /** NBR_TABLE_MAX_NEIGHBORS. */
  const MAX_NEIGHBORS: Pos

  /** linkaddr_t, compared as a whole. */
  type Addr = nat

  /** linkaddr_null. */
  const LINKADDR_NULL: Addr

  /** The bytes of one item. */
  type Item = seq<bv8>

  /** The neighbours: slots in key list order, and per slot the address and the tables that use and lock it. */
  datatype Nbrs = Nbrs(order: seq<int>, addr: seq<Addr>, used: seq<set<nat>>, locked: seq<set<nat>>)

  ghost predicate Sized(n: Nbrs) {
    && |n.addr| == MAX_NEIGHBORS && |n.used| == MAX_NEIGHBORS && |n.locked| == MAX_NEIGHBORS
    && (forall i | 0 <= i < |n.order| :: 0 <= n.order[i] < MAX_NEIGHBORS)
  }

  ghost predicate AddrApart(addr: seq<Addr>, order: seq<int>, i: nat, j: nat)
    requires i < |order| && j < |order| && 0 <= order[i] < |addr| && 0 <= order[j] < |addr|
  {
    addr[order[i]] != addr[order[j]]
  }

  lemma AddressesDistinct(n: Nbrs)
    requires Inv(n)
    ensures forall i, j | 0 <= i < j < |n.order| :: n.addr[n.order[i]] != n.addr[n.order[j]]
  {
    forall i, j | 0 <= i < j < |n.order|
      ensures n.addr[n.order[i]] != n.addr[n.order[j]]
    {
      assert AddrApart(n.addr, n.order, i, j);
    }
  }

  /** Listed slots are distinct and have distinct addresses; unlisted slots are in no table. */
  ghost predicate Inv(n: Nbrs) {
    && Sized(n)
    && Distinct(n.order)
    && (forall i, j {:trigger AddrApart(n.addr, n.order, i, j)} | 0 <= i < j < |n.order| ::
          AddrApart(n.addr, n.order, i, j))
    && (forall k | 0 <= k < MAX_NEIGHBORS && k !in n.order :: n.used[k] == {})
  }

  /** No slot is locked that is not listed. */
  ghost predicate LocksListed(n: Nbrs)
    requires Sized(n)
  {
    forall k | 0 <= k < MAX_NEIGHBORS && k !in n.order :: n.locked[k] == {}
  }

  /** The pool's used flags mark exactly the listed slots. */
  ghost predicate PoolMatches(n: Nbrs, taken: seq<bool>) {
    |taken| == MAX_NEIGHBORS && forall k | 0 <= k < MAX_NEIGHBORS :: taken[k] <==> k in n.order
  }

  ghost function TakenBlocks(taken: seq<bool>): set<int> {
    set i | 0 <= i < |taken| && taken[i]
  }

  lemma {:induction false} TakenOrFree(taken: seq<bool>)
    ensures |TakenBlocks(taken)| + |FreeBlocks(taken)| == |taken|
  {
    if taken != [] {
      var l := |taken| - 1;
      var r := taken[..l];
      TakenOrFree(r);
      assert TakenBlocks(taken) == if taken[l] then TakenBlocks(r) + {l} else TakenBlocks(r);
      assert FreeBlocks(taken) == if taken[l] then FreeBlocks(r) else FreeBlocks(r) + {l};
      assert l !in TakenBlocks(r) && l !in FreeBlocks(r);
    }
  }

  /** List length plus free slots is the pool size. */
  lemma Conservation(n: Nbrs, taken: seq<bool>)
    requires Inv(n) && PoolMatches(n, taken)
    ensures |n.order| + |FreeBlocks(taken)| == MAX_NEIGHBORS
  {
    DistinctSize(n.order);
    TakenOrFree(taken);
    assert Elements(n.order) == TakenBlocks(taken);
  }

  // ----- lookup -----

  ghost predicate Slots(q: seq<int>) {
    forall i | 0 <= i < |q| :: 0 <= q[i] < MAX_NEIGHBORS
  }

  /** The first listed slot with address a, or NONE. */
  ghost function FindIn(q: seq<int>, addr: seq<Addr>, a: Addr): int
    requires Slots(q) && |addr| == MAX_NEIGHBORS
  {
    if q == [] then NONE else if addr[q[0]] == a then q[0] else FindIn(q[1..], addr, a)
  }

  ghost function IndexOf(n: Nbrs, a: Addr): (k: int)
    requires Sized(n)
    ensures k == NONE || 0 <= k < MAX_NEIGHBORS
  {
    FindInSpec(n.order, n.addr, a);
    FindIn(n.order, n.addr, a)
  }

  lemma {:induction false} FindInSpec(q: seq<int>, addr: seq<Addr>, a: Addr)
    requires Slots(q) && |addr| == MAX_NEIGHBORS
    ensures var r := FindIn(q, addr, a);
            if r == NONE then forall i | 0 <= i < |q| :: addr[q[i]] != a
            else 0 <= r < MAX_NEIGHBORS && r in q && addr[r] == a
  {
    if q != [] {
      FindInSpec(q[1..], addr, a);
      assert forall i | 1 <= i < |q| :: q[i] == q[1..][i - 1];
    }
  }

  /** With distinct addresses, the slot found is the only one. */
  lemma IndexOfExact(n: Nbrs, a: Addr)
    requires Inv(n)
    ensures var k := IndexOf(n, a);
            if k == NONE then forall l | l in n.order :: n.addr[l] != a
            else k in n.order && n.addr[k] == a && forall l | l in n.order && n.addr[l] == a :: l == k
  {
    FindInSpec(n.order, n.addr, a);
    AddressesDistinct(n);
  }

  /** Table t as a partial map from address to item. */
  ghost function Lookup(n: Nbrs, t: nat, data: seq<Item>, a: Addr): Option<Item>
    requires Sized(n) && |data| == MAX_NEIGHBORS
  {
    var k := IndexOf(n, a);
    if k != NONE && t in n.used[k] then Some(data[k]) else None
  }

  // ----- the steps -----

  /** remove_key. */
  ghost function Evict(n: Nbrs, k: int): Nbrs
    requires Sized(n) && 0 <= k < MAX_NEIGHBORS
  {
    n.(order := Without(n.order, {k}), used := n.used[k := {}], locked := n.locked[k := {}])
  }

  /** A fresh slot joins the end of the key list. */
  ghost function Enter(n: Nbrs, k: int, a: Addr): Nbrs
    requires Sized(n) && 0 <= k < MAX_NEIGHBORS
  {
    n.(order := n.order + [k], addr := n.addr[k := a])
  }

  ghost function MarkUsed(n: Nbrs, k: int, t: nat): Nbrs
    requires Sized(n) && 0 <= k < MAX_NEIGHBORS
  {
    n.(used := n.used[k := n.used[k] + {t}])
  }

  /** nbr_table_remove: the slot leaves the table and its lock, not the key list. */
  ghost function Unmark(n: Nbrs, k: int, t: nat): Nbrs
    requires Sized(n) && 0 <= k < MAX_NEIGHBORS
  {
    n.(used := n.used[k := n.used[k] - {t}], locked := n.locked[k := n.locked[k] - {t}])
  }

  lemma EvictInv(n: Nbrs, k: int)
    requires Inv(n) && k in n.order
    ensures 0 <= k < MAX_NEIGHBORS && Inv(Evict(n, k)) && k !in Evict(n, k).order
  {
    WithoutMembers(n.order, {k});
    var i :| 0 <= i < |n.order| && n.order[i] == k;
    WithoutOne(n.order, i);
    RemovedInv(n, i, Evict(n, k));
  }

  lemma RemovedInv(n: Nbrs, i: nat, m: Nbrs)
    requires Inv(n) && i < |n.order|
    requires m.order == n.order[..i] + n.order[i + 1..] && m.addr == n.addr
    requires |m.used| == |m.locked| == MAX_NEIGHBORS
    ensures Sized(m) && Distinct(m.order)
    ensures forall x, y | 0 <= x < y < |m.order| :: m.addr[m.order[x]] != m.addr[m.order[y]]
  {
    AddressesDistinct(n);
    assert forall x | 0 <= x < |m.order| :: m.order[x] == n.order[if x < i then x else x + 1];
  }

  lemma EnterInv(n: Nbrs, k: int, a: Addr)
    requires Inv(n) && 0 <= k < MAX_NEIGHBORS && k !in n.order && IndexOf(n, a) == NONE
    ensures Inv(Enter(n, k, a))
  {
    IndexOfExact(n, a);
    AddressesDistinct(n);
  }

  lemma MarkInv(n: Nbrs, k: int, t: nat)
    requires Inv(n) && k in n.order
    ensures 0 <= k < MAX_NEIGHBORS && Inv(MarkUsed(n, k, t)) && Inv(Unmark(n, k, t))
  {
  }

  lemma UnmarkInv(n: Nbrs, k: int, t: nat)
    requires Inv(n) && 0 <= k < MAX_NEIGHBORS
    ensures Inv(Unmark(n, k, t))
  {
  }

  /** nbr_table_lock: the slot is locked for table t, listed or not. */
  ghost function MarkLocked(n: Nbrs, k: int, t: nat): Nbrs
    requires Sized(n) && 0 <= k < MAX_NEIGHBORS
  {
    n.(locked := n.locked[k := n.locked[k] + {t}])
  }

  /** Locking leaves only listed slots locked exactly if the slot is listed. */
  lemma LockKeepsIff(n: Nbrs, k: int, t: nat)
    requires Inv(n) && LocksListed(n) && 0 <= k < MAX_NEIGHBORS
    ensures Inv(MarkLocked(n, k, t))
    ensures LocksListed(MarkLocked(n, k, t)) <==> k in n.order
  {
    assert t in MarkLocked(n, k, t).locked[k];
  }

  /** Evicting a neighbour takes its address out of every table and changes nothing else. */
  lemma EvictLookup(n: Nbrs, k: int, t: nat, data: seq<Item>, a: Addr)
    requires Inv(n) && k in n.order && |data| == MAX_NEIGHBORS
    ensures 0 <= k < MAX_NEIGHBORS && Inv(Evict(n, k))
    ensures Lookup(Evict(n, k), t, data, a) == if a == n.addr[k] then None else Lookup(n, t, data, a)
    ensures IndexOf(Evict(n, k), a) == if a == n.addr[k] then NONE else IndexOf(n, a)
  {
    EvictInv(n, k);
    WithoutMembers(n.order, {k});
    IndexOfExact(n, a);
    IndexOfExact(Evict(n, k), a);
  }

  /** A new neighbour is in no table yet. */
  lemma EnterLookup(n: Nbrs, k: int, a: Addr, t: nat, data: seq<Item>, b: Addr)
    requires Inv(n) && 0 <= k < MAX_NEIGHBORS && k !in n.order && IndexOf(n, a) == NONE
    requires |data| == MAX_NEIGHBORS
    ensures Inv(Enter(n, k, a))
    ensures IndexOf(Enter(n, k, a), b) == if b == a then k else IndexOf(n, b)
    ensures Lookup(Enter(n, k, a), t, data, b) == Lookup(n, t, data, b)
  {
    EnterInv(n, k, a);
    IndexOfExact(n, b);
    IndexOfExact(n, a);
    var m := Enter(n, k, a);
    IndexOfExact(m, b);
    assert m.order[|n.order|] == k;
    assert k in m.order && m.addr[k] == a;
    assert forall l | l in m.order :: l == k || l in n.order;
    var l := IndexOf(n, b);
    assert l != NONE ==> l in m.order && l != k && m.addr[l] == b;
  }

  /** Marking slot k for table t and setting its item adds its address to that table alone. */
  lemma MarkLookup(n: Nbrs, k: int, t: nat, u: nat, data: seq<Item>, item: Item, a: Addr)
    requires Inv(n) && k in n.order && |data| == MAX_NEIGHBORS
    ensures 0 <= k < MAX_NEIGHBORS && Inv(MarkUsed(n, k, t))
    ensures Lookup(MarkUsed(n, k, t), t, data[k := item], a)
         == if a == n.addr[k] then Some(item) else Lookup(n, t, data, a)
    ensures u != t ==> Lookup(MarkUsed(n, k, t), u, data, a) == Lookup(n, u, data, a)
  {
    MarkInv(n, k, t);
    IndexOfExact(n, a);
  }

  /** Removing slot k from table t removes its address from that table alone. */
  lemma UnmarkLookup(n: Nbrs, k: int, t: nat, u: nat, data: seq<Item>, a: Addr)
    requires Inv(n) && k in n.order && |data| == MAX_NEIGHBORS
    ensures 0 <= k < MAX_NEIGHBORS && Inv(Unmark(n, k, t))
    ensures Lookup(Unmark(n, k, t), u, data, a) == if u == t && a == n.addr[k] then None else Lookup(n, u, data, a)
  {
    MarkInv(n, k, t);
    IndexOfExact(n, a);
  }

  // ----- eviction -----

  ghost predicate Unlocked(n: Nbrs, i: nat)
    requires Sized(n) && i < |n.order|
  {
    n.locked[n.order[i]] == {}
  }

  /** How many tables use the neighbour at list position i. */
  ghost function Uses(n: Nbrs, i: nat): nat
    requires Sized(n) && i < |n.order|
  {
    |n.used[n.order[i]]|
  }

  /** How many tables use the neighbour with address a; an unknown one is used by none. */
  ghost function UsesOf(n: Nbrs, a: Addr): nat
    requires Sized(n)
  {
    var k := IndexOf(n, a);
    if k == NONE then 0 else |n.used[k]|
  }

  lemma UsesOfListed(n: Nbrs, i: nat)
    requires Inv(n) && i < |n.order|
    ensures UsesOf(n, n.addr[n.order[i]]) == Uses(n, i)
  {
    IndexOfExact(n, n.addr[n.order[i]]);
  }

  /** Among the first len listed neighbours, the one at position i is the first of the least used unlocked ones. */
  ghost predicate WorstAt(n: Nbrs, len: nat, i: nat)
    requires Sized(n) && len <= |n.order|
  {
    && i < len && Unlocked(n, i)
    && (forall j | 0 <= j < len && Unlocked(n, j) :: Uses(n, i) <= Uses(n, j))
    && (forall j | 0 <= j < i && Unlocked(n, j) :: Uses(n, i) < Uses(n, j))
  }

  ghost predicate AllLocked(n: Nbrs, len: nat)
    requires Sized(n) && len <= |n.order|
  {
    forall i | 0 <= i < len :: !Unlocked(n, i)
  }

  /** Looking at one more neighbour keeps the candidate unless the new one is unlocked and used by fewer tables. */
  lemma WorstNext(n: Nbrs, i: nat, w: nat)
    requires Sized(n) && i < |n.order| && WorstAt(n, i, w)
    ensures WorstAt(n, i + 1, if Unlocked(n, i) && Uses(n, i) < Uses(n, w) then i else w)
  {
  }

  /** The callbacks that remove_key makes for slot k, in table order; cb are the tables that have one. */
  ghost function Calls(cb: set<nat>, users: set<nat>, k: int, t: nat): seq<(nat, int)> {
    if t == 0 then
      []
    else
      var earlier := Calls(cb, users, k, t - 1);
      if t - 1 in cb && t - 1 in users then earlier + [(t - 1, k)] else earlier
  }

  /** Each table that uses the slot and has a callback is called once, in table order, and no other table is. */
  lemma {:induction false} CallsExact(cb: set<nat>, users: set<nat>, k: int, t: nat)
    ensures var c := Calls(cb, users, k, t);
            && (forall u | u < t && u in cb && u in users :: (u, k) in c)
            && (forall i | 0 <= i < |c| :: c[i].1 == k && c[i].0 < t && c[i].0 in cb && c[i].0 in users)
            && (forall i, j | 0 <= i < j < |c| :: c[i].0 < c[j].0)
  {
    if t > 0 {
      CallsExact(cb, users, k, t - 1);
    }
  }

  /** What adding address a to table t makes of n, k being the slot it gets. */
  ghost function AddResult(n: Nbrs, room: bool, a: Addr, t: nat, k: int): Nbrs
    requires Sized(n) && 0 <= k < MAX_NEIGHBORS
  {
    MarkUsed(Keyed(n, room, a, k), k, t)
  }

  /** The address has slot k, its own or one that was made for it. */
  ghost function Keyed(n: Nbrs, room: bool, a: Addr, k: int): (m: Nbrs)
    requires Sized(n) && 0 <= k < MAX_NEIGHBORS
    ensures Sized(m)
  {
    if IndexOf(n, a) != NONE then n
    else if room then Enter(n, k, a)
    else Enter(EvictedFrom(n, k), k, a)
  }

  ghost function EvictedFrom(n: Nbrs, k: int): (m: Nbrs)
    requires Sized(n) && 0 <= k < MAX_NEIGHBORS
    ensures Sized(m)
  {
    WithoutMembers(n.order, {k});
    var r := Without(n.order, {k});
    assert forall i | 0 <= i < |r| :: r[i] in r;
    Evict(n, k)
  }

  /** Which slot that is. When the pool is full, w is the list position of the neighbour that makes room. */
  ghost predicate AddSlot(n: Nbrs, free: set<int>, a: Addr, k: int, w: nat) {
    && Sized(n) && 0 <= k < MAX_NEIGHBORS
    && if IndexOf(n, a) != NONE then k == IndexOf(n, a)
       else if free != {} then k in free && forall i | 0 <= i < k :: i !in free
       else w < |n.order| && WorstAt(n, |n.order|, w) && k == n.order[w]
  }

  /** The whole effect of adding address a to table t: the new state m and the callbacks made. */
  ghost predicate AddEffect(n: Nbrs, m: Nbrs, free: set<int>, a: Addr, t: nat, k: int, w: nat, cb: set<nat>,
                            made: seq<(nat, int)>) {
    && AddSlot(n, free, a, k, w)
    && m == AddResult(n, free != {}, a, t, k)
    && made == if IndexOf(n, a) == NONE && free == {} then Calls(cb, n.used[k], k, MAX_TABLES) else []
  }

  /** Nothing can be added: the address is new, the pool is full and every neighbour is locked. */
  ghost predicate NoRoom(n: Nbrs, free: set<int>, a: Addr)
    requires Sized(n)
  {
    IndexOf(n, a) == NONE && free == {} && AllLocked(n, |n.order|)
  }

  /** Adding leaves only listed slots locked. */
  lemma AddLocks(n: Nbrs, free: set<int>, a: Addr, t: nat, k: int, w: nat)
    requires Inv(n) && LocksListed(n) && AddSlot(n, free, a, k, w)
    ensures LocksListed(AddResult(n, free != {}, a, t, k))
  {
    var m := AddResult(n, free != {}, a, t, k);
    WithoutMembers(n.order, {k});
    forall l | 0 <= l < MAX_NEIGHBORS && l !in m.order
      ensures m.locked[l] == {}
    {
      assert IndexOf(n, a) == NONE ==> l != k && m.order[|m.order| - 1] == k;
    }
  }

  /** A new neighbour starts out locked for the tables that had locked its slot while that was not listed, and while it
      is, it is not one that can be evicted. In the slot of an evicted neighbour it starts out unlocked. */
  lemma NewcomerLocks(n: Nbrs, free: set<int>, a: Addr, t: nat, k: int, w: nat)
    requires Inv(n) && AddSlot(n, free, a, k, w) && IndexOf(n, a) == NONE
    ensures var m := AddResult(n, free != {}, a, t, k);
            && m.order != [] && m.order[|m.order| - 1] == k && m.addr[k] == a
            && m.locked[k] == (if free != {} then n.locked[k] else {})
            && forall v: nat | WorstAt(m, |m.order|, v) :: m.order[v] == k ==> m.locked[k] == {}
  {
    var m := AddResult(n, free != {}, a, t, k);
    forall v: nat | WorstAt(m, |m.order|, v)
      ensures m.order[v] == k ==> m.locked[k] == {}
    {
      assert Unlocked(m, v);
    }
  }

  /** In terms of the maps: the address gets a cleared item in table t; an evicted address leaves every table;
      nothing else changes in any table. */
  lemma AddLookup(n: Nbrs, taken: seq<bool>, a: Addr, t: nat, k: int, w: nat, data: seq<Item>, zeros: Item, u: nat,
                  b: Addr)
    requires Inv(n) && PoolMatches(n, taken) && AddSlot(n, FreeBlocks(taken), a, k, w) && |data| == MAX_NEIGHBORS
    ensures var m := AddResult(n, FreeBlocks(taken) != {}, a, t, k);
            var gone := IndexOf(n, a) == NONE && FreeBlocks(taken) == {} && b == n.addr[k];
            && Inv(m) && IndexOf(m, a) == k
            && Lookup(m, t, data[k := zeros], b)
               == (if b == a then Some(zeros) else if gone then None else Lookup(n, t, data, b))
            && (u != t ==> Lookup(m, u, data, b) == if gone then None else Lookup(n, u, data, b))
  {
    IndexOfExact(n, a);
    if IndexOf(n, a) != NONE {
      MarkLookup(n, k, t, u, data, zeros, b);
    } else if FreeBlocks(taken) != {} {
      FreshLookup(n, a, t, k, data, zeros, u, b);
    } else {
      EvictLookup(n, k, t, data, b);
      EvictLookup(n, k, u, data, b);
      EvictLookup(n, k, t, data, a);
      EvictInv(n, k);
      FreshLookup(Evict(n, k), a, t, k, data, zeros, u, b);
    }
  }

  lemma FreshLookup(n: Nbrs, a: Addr, t: nat, k: int, data: seq<Item>, zeros: Item, u: nat, b: Addr)
    requires Inv(n) && IndexOf(n, a) == NONE && 0 <= k < MAX_NEIGHBORS && k !in n.order && |data| == MAX_NEIGHBORS
    ensures var m := MarkUsed(Enter(n, k, a), k, t);
            && Inv(m) && IndexOf(m, a) == k
            && Lookup(m, t, data[k := zeros], b) == (if b == a then Some(zeros) else Lookup(n, t, data, b))
            && (u != t ==> Lookup(m, u, data, b) == Lookup(n, u, data, b))
  {
    var e := Enter(n, k, a);
    EnterLookup(n, k, a, t, data, b);
    EnterLookup(n, k, a, u, data, b);
    EnterLookup(n, k, a, t, data, a);
    assert k in e.order && e.addr[k] == a;
    MarkLookup(e, k, t, u, data, zeros, b);
  }

  // ----- enumeration -----

  /** The slots of table t in list order, from list position i on. */
  ghost function SlotsFrom(n: Nbrs, t: nat, i: nat): seq<int>
    requires Sized(n) && i <= |n.order|
    decreases |n.order| - i
  {
    if i == |n.order| then []
    else (if t in n.used[n.order[i]] then [n.order[i]] else []) + SlotsFrom(n, t, i + 1)
  }

  /** The slots that table t does not use. */
  ghost function Unused(n: Nbrs, t: nat): set<int>
    requires Sized(n)
  {
    set k | 0 <= k < MAX_NEIGHBORS && t !in n.used[k]
  }

  /** The enumeration is the key list without the neighbours that the table does not use; it has none twice. */
  lemma SlotsFromExact(n: Nbrs, t: nat)
    requires Inv(n)
    ensures SlotsFrom(n, t, 0) == Without(n.order, Unused(n, t)) && Distinct(SlotsFrom(n, t, 0))
    ensures forall k | 0 <= k < MAX_NEIGHBORS :: k in SlotsFrom(n, t, 0) <==> k in n.order && t in n.used[k]
  {
    SlotsFiltered(n, t, 0);
    assert n.order[0..] == n.order;
    WithoutMembers(n.order, Unused(n, t));
    WithoutDistinct(n.order, Unused(n, t));
  }

  lemma {:induction false} SlotsFiltered(n: Nbrs, t: nat, i: nat)
    requires Sized(n) && i <= |n.order|
    ensures SlotsFrom(n, t, i) == Without(n.order[i..], Unused(n, t))
    decreases |n.order| - i
  {
    if i < |n.order| {
      SlotsFiltered(n, t, i + 1);
      assert n.order[i..][1..] == n.order[i + 1..];
    }
  }

  /** m is n after some of the visited slots were removed from table t. */
  ghost predicate Dropped(n: Nbrs, m: Nbrs, t: nat, drop: set<int>, visited: seq<int>) {
    && Sized(n) && Sized(m) && m.order == n.order && m.addr == n.addr
    && (forall k | 0 <= k < MAX_NEIGHBORS ::
          m.used[k] == if k in visited && k in drop then n.used[k] - {t} else n.used[k])
  }

  /** No neighbour from list position j on has been visited. */
  ghost predicate Ahead(n: Nbrs, visited: seq<int>, j: nat) {
    forall l | j <= l < |n.order| :: n.order[l] !in visited
  }

  lemma DroppedOne(n: Nbrs, m: Nbrs, m': Nbrs, t: nat, drop: set<int>, visited: seq<int>, j: nat)
    requires Dropped(n, m, t, drop, visited) && Ahead(n, visited, j) && j < |n.order| && Distinct(n.order)
    requires m' == if n.order[j] in drop then Unmark(m, n.order[j], t) else m
    ensures Dropped(n, m', t, drop, visited + [n.order[j]])
    ensures Ahead(n, visited + [n.order[j]], j + 1)
    ensures forall i | j + 1 <= i <= |n.order| :: SlotsFrom(m', t, i) == SlotsFrom(n, t, i)
  {
    forall i | j + 1 <= i <= |n.order|
      ensures SlotsFrom(m', t, i) == SlotsFrom(n, t, i)
    {
      SlotsFromFrame(n, m', t, i);
    }
  }

  /** What lies behind list position i does not depend on the tables of earlier neighbours. */
  lemma {:induction false} SlotsFromFrame(n: Nbrs, m: Nbrs, t: nat, i: nat)
    requires Sized(n) && Sized(m) && m.order == n.order && i <= |n.order|
    requires forall j | i <= j < |n.order| :: m.used[n.order[j]] == n.used[n.order[j]]
    ensures SlotsFrom(m, t, i) == SlotsFrom(n, t, i)
    decreases |n.order| - i
  {
    if i < |n.order| {
      SlotsFromFrame(n, m, t, i + 1);
    }
  }

  /** The callbacks of nbr_table_clear. */
  ghost function ClearCalls(q: seq<int>, used: seq<set<nat>>, cb: set<nat>): seq<(nat, int)>
    requires Slots(q) && |used| == MAX_NEIGHBORS
  {
    if q == [] then [] else Calls(cb, used[q[0]], q[0], MAX_TABLES) + ClearCalls(q[1..], used, cb)
  }

  /** Clearing the first neighbour of the list leaves the callbacks for the rest to be made. */
  lemma ClearCallsStep(n: Nbrs, cb: set<nat>)
    requires Inv(n) && n.order != []
    ensures Slots(n.order[1..]) && n.order[0] in n.order
    ensures Evict(n, n.order[0]).order == n.order[1..]
    ensures ClearCalls(n.order, n.used, cb)
         == Calls(cb, n.used[n.order[0]], n.order[0], MAX_TABLES)
            + ClearCalls(n.order[1..], Evict(n, n.order[0]).used, cb)
  {
    WithoutOne(n.order, 0);
    ClearCallsFrame(n.order[1..], n.used, Evict(n, n.order[0]).used, cb);
  }

  lemma {:induction false} ClearCallsFrame(q: seq<int>, used: seq<set<nat>>, used': seq<set<nat>>, cb: set<nat>)
    requires Slots(q) && |used| == |used'| == MAX_NEIGHBORS
    requires forall k | k in q :: used[k] == used'[k]
    ensures ClearCalls(q, used, cb) == ClearCalls(q, used', cb)
  {
    if q != [] {
      assert q[0] in q;
      ClearCallsFrame(q[1..], used, used', cb);
    }
  }
}
