/**
 Whole runs of os/net/nbr-table.c: up to eight tables over one pool behave like one list of neighbour records, each
 holding the items that the tables keep for an address; a table is the map from address to item that it shows.
 */
module NbrClient {
  import opened Bitmap
  import opened NbrState
  import opened NbrTable
  import opened Lists
  import opened ObjectPool
  import opened Options

  // ----- the specification: a list of records -----

  /** A neighbour: its address, the item of each table that uses it, and the tables that lock it. */
  datatype Rec = Rec(addr: Addr, items: map<nat, Item>, locks: set<nat>)

  /** A call; addresses stand for the item pointers that a lookup gives. */
  datatype Request = AddRequest(t: nat, a: Addr) | ChangeRequest(t: nat, a: Addr, change: Change) | ClearRequest

  /** What can be done to an item that a table has. */
  datatype Change = Remove | Lock | Unlock | Write(item: Item)

  function Apply(change: Change, t: nat, r: Rec): Rec {
    match change
    case Remove => Rec(r.addr, r.items - {t}, r.locks - {t})
    case Lock => r.(locks := r.locks + {t})
    case Unlock => r.(locks := r.locks - {t})
    case Write(item) => r.(items := r.items[t := item])
  }

  /** The position of the first record of the address, or the length of the list. */
  function Find(l: seq<Rec>, a: Addr): (i: nat)
    ensures i <= |l|
    ensures i < |l| ==> l[i].addr == a
    ensures forall j | 0 <= j < i :: l[j].addr != a
  {
    if l == [] || l[0].addr == a then 0 else 1 + Find(l[1..], a)
  }

  /** What table t maps the address to. */
  function Get(l: seq<Rec>, t: nat, a: Addr): Option<Item> {
    var i := Find(l, a);
    if i < |l| && t in l[i].items then Some(l[i].items[t]) else None
  }

  /** The record at position w is the first of those that no table locks and fewest tables use. */
  ghost predicate Worst(l: seq<Rec>, w: nat) {
    && w < |l| && l[w].locks == {}
    && (forall j | 0 <= j < |l| && l[j].locks == {} :: |l[w].items| <= |l[j].items|)
    && (forall j | 0 <= j < w && l[j].locks == {} :: |l[w].items| < |l[j].items|)
  }

  ghost predicate Locked(l: seq<Rec>) {
    forall i | 0 <= i < |l| :: l[i].locks != {}
  }

  /** Adding address a to table t: a known neighbour gets a cleared item; a new one is appended, in place of the worst
      unlocked neighbour if the list is full; it fails if the list is full and every neighbour is locked. */
  ghost predicate AddStep(l: seq<Rec>, t: nat, a: Addr, zeros: Item, ok: bool, l': seq<Rec>) {
    var i := Find(l, a);
    var added := Rec(a, map[t := zeros], {});
    if i < |l| then ok && l' == l[i := l[i].(items := l[i].items[t := zeros])]
    else if |l| < MAX_NEIGHBORS then ok && l' == l + [added]
    else if Locked(l) then !ok && l' == l
    else ok && exists w: nat {:trigger Worst(l, w)} :: Worst(l, w) && l' == l[..w] + l[w + 1..] + [added]
  }

  /** A change of the record of address a, which is refused unless table t uses it. */
  ghost predicate ChangeStep(l: seq<Rec>, t: nat, a: Addr, change: Change, ok: bool, l': seq<Rec>) {
    var i := Find(l, a);
    && (ok <==> i < |l| && t in l[i].items)
    && l' == if ok then l[i := Apply(change, t, l[i])] else l
  }

  ghost predicate Step(l: seq<Rec>, q: Request, zeros: Item, ok: bool, l': seq<Rec>) {
    match q
    case AddRequest(t, a) => AddStep(l, t, a, zeros, ok, l')
    case ChangeRequest(t, a, change) => ChangeStep(l, t, a, change, ok, l')
    case ClearRequest => ok && l' == []
  }

  // ----- what the specification means for the maps -----

  ghost predicate Apart(l: seq<Rec>) {
    forall i, j | 0 <= i < j < |l| :: l[i].addr != l[j].addr
  }

  lemma FindUnique(l: seq<Rec>, i: nat)
    requires Apart(l) && i < |l|
    ensures Find(l, l[i].addr) == i
  {
  }

  /** A record changed in place changes the maps at its address only. */
  lemma GetUpdated(l: seq<Rec>, i: nat, r: Rec, t: nat, b: Addr)
    requires Apart(l) && i < |l| && r.addr == l[i].addr
    ensures Apart(l[i := r])
    ensures Get(l[i := r], t, b)
         == if b == r.addr then (if t in r.items then Some(r.items[t]) else None) else Get(l, t, b)
  {
    var m := l[i := r];
    assert Apart(m);
    FindUnique(l, i);
    FindUnique(m, i);
    if b != r.addr {
      var j := Find(l, b);
      if j < |l| {
        FindUnique(m, j);
      }
    }
  }

  lemma GetAppended(l: seq<Rec>, r: Rec, t: nat, b: Addr)
    requires Apart(l) && Find(l, r.addr) == |l|
    ensures Apart(l + [r])
    ensures Get(l + [r], t, b)
         == if b == r.addr then (if t in r.items then Some(r.items[t]) else None) else Get(l, t, b)
  {
    var m := l + [r];
    assert Apart(m);
    FindUnique(m, |l|);
    if b != r.addr {
      var j := Find(l, b);
      if j < |l| {
        assert m[j] == l[j];
        FindUnique(m, j);
      } else {
        assert forall k | 0 <= k < |m| :: m[k] == if k < |l| then l[k] else r;
      }
    }
  }

  /** m is l without the element at position w. */
  ghost predicate Skips<T>(l: seq<T>, m: seq<T>, w: nat)
  {
    w < |l| && |m| == |l| - 1 && forall i | 0 <= i < |m| :: m[i] == l[if i < w then i else i + 1]
  }

  lemma SkipsSlices<T>(l: seq<T>, w: nat)
    requires w < |l|
    ensures Skips(l, l[..w] + l[w + 1..], w)
  {
  }

  lemma SkipsUnique<T>(l: seq<T>, m: seq<T>, w: nat)
    requires Skips(l, m, w)
    ensures m == l[..w] + l[w + 1..]
  {
  }

  lemma SkipsApart(l: seq<Rec>, m: seq<Rec>, w: nat)
    requires Apart(l) && Skips(l, m, w)
    ensures Apart(m)
  {
  }

  lemma SkipsMissing(l: seq<Rec>, m: seq<Rec>, w: nat, b: Addr)
    requires Apart(l) && Skips(l, m, w) && (Find(l, b) == |l| || b == l[w].addr)
    ensures Find(m, b) == |m|
  {
    forall i | 0 <= i < |m|
      ensures m[i].addr != b
    {
    }
  }

  lemma SkipsFound(l: seq<Rec>, m: seq<Rec>, w: nat, b: Addr)
    requires Apart(l) && Skips(l, m, w) && Find(l, b) < |l| && b != l[w].addr
    ensures Find(m, b) < |m| && m[Find(m, b)] == l[Find(l, b)]
  {
    var j := Find(l, b);
    var i := if j < w then j else j - 1;
    SkipsApart(l, m, w);
    assert m[i] == l[j];
    FindUnique(m, i);
  }

  lemma GetDropped(l: seq<Rec>, w: nat, t: nat, b: Addr)
    requires Apart(l) && w < |l|
    ensures Apart(l[..w] + l[w + 1..])
    ensures Get(l[..w] + l[w + 1..], t, b) == if b == l[w].addr then None else Get(l, t, b)
    ensures Find(l[..w] + l[w + 1..], b) == |l| - 1 <==> b == l[w].addr || Find(l, b) == |l|
  {
    var m := l[..w] + l[w + 1..];
    SkipsSlices(l, w);
    SkipsApart(l, m, w);
    if b == l[w].addr || Find(l, b) == |l| {
      SkipsMissing(l, m, w, b);
    } else {
      SkipsFound(l, m, w, b);
    }
  }

  /** The address that an add evicts: that of the worst neighbour if the list is full and the address new, else none. */
  ghost predicate Evicted(l: seq<Rec>, a: Addr, gone: Option<Addr>) {
    && (gone.Some? <==> |l| >= MAX_NEIGHBORS && Find(l, a) == |l|)
    && (gone.Some? ==> exists w: nat :: Worst(l, w) && gone.value == l[w].addr)
  }

  /** What a request does to the map of table u at address b: an add clears the item of its address in its table and
      takes the address `gone` out of all tables; a removal takes its address out of its table, a store changes its
      item. Nothing else changes, and locks change nothing. */
  ghost function MapAfter(q: Request, zeros: Item, ok: bool, gone: Option<Addr>, u: nat, b: Addr,
                          was: Option<Item>): Option<Item>
  {
    match q
    case AddRequest(t, a) =>
      if !ok then was else if u == t && b == a then Some(zeros) else if Some(b) == gone then None else was
    case ChangeRequest(t, a, change) =>
      if !ok || u != t || b != a then was
      else if change.Remove? then None
      else if change.Write? then Some(change.item)
      else was
    case ClearRequest => None
  }

  /** Each table is a map from address to item: an add gives its address a cleared item in its table and takes an
      evicted address out of every table; no other entry of any table changes. */
  lemma AddMaps(l: seq<Rec>, t: nat, a: Addr, zeros: Item, l': seq<Rec>) returns (gone: Option<Addr>)
    requires Apart(l) && AddStep(l, t, a, zeros, true, l')
    ensures Apart(l') && Evicted(l, a, gone)
    ensures forall u, b :: Get(l', u, b) ==
              if u == t && b == a then Some(zeros) else if Some(b) == gone then None else Get(l, u, b)
  {
    var i := Find(l, a);
    var r := Rec(a, map[t := zeros], {});
    gone := None;
    if i < |l| {
      var r1 := l[i].(items := l[i].items[t := zeros]);
      forall u, b
        ensures Apart(l') && Get(l', u, b) == if u == t && b == a then Some(zeros) else Get(l, u, b)
      {
        GetUpdated(l, i, r1, u, b);
      }
      GetUpdated(l, i, r1, t, a);
    } else if |l| < MAX_NEIGHBORS {
      forall u, b
        ensures Get(l', u, b) == if u == t && b == a then Some(zeros) else Get(l, u, b)
      {
        GetAppended(l, r, u, b);
      }
      GetAppended(l, r, t, a);
    } else {
      var w: nat :| Worst(l, w) && l' == l[..w] + l[w + 1..] + [r];
      gone := Some(l[w].addr);
      GetDropped(l, w, t, a);
      forall u, b
        ensures Get(l', u, b)
             == if u == t && b == a then Some(zeros) else if Some(b) == gone then None else Get(l, u, b)
      {
        GetDropped(l, w, u, b);
        GetAppended(l[..w] + l[w + 1..], r, u, b);
      }
      GetAppended(l[..w] + l[w + 1..], r, t, a);
    }
  }

  /** Removing an item takes its address out of its table, a store changes its item; no other entry of any table
      changes, and locks change none. */
  lemma ChangeMaps(l: seq<Rec>, t: nat, a: Addr, change: Change, ok: bool, l': seq<Rec>, u: nat, b: Addr)
    requires Apart(l) && ChangeStep(l, t, a, change, ok, l')
    ensures Apart(l') && (ok <==> Get(l, t, a).Some?)
    ensures Get(l', u, b) == MapAfter(ChangeRequest(t, a, change), [], ok, None, u, b, Get(l, u, b))
  {
    if ok {
      var i := Find(l, a);
      FindUnique(l, i);
      GetUpdated(l, i, l'[i], u, b);
    }
  }

  // ----- what the specification means for the locks -----

  /** Table t locks the neighbour with the address. */
  ghost predicate LockedFor(l: seq<Rec>, t: nat, a: Addr) {
    var i := Find(l, a);
    i < |l| && t in l[i].locks
  }

  lemma LockUpdated(l: seq<Rec>, i: nat, r: Rec, t: nat, b: Addr)
    requires Apart(l) && i < |l| && r.addr == l[i].addr
    ensures LockedFor(l[i := r], t, b) <==> if b == r.addr then t in r.locks else LockedFor(l, t, b)
  {
    var m := l[i := r];
    assert Apart(m);
    FindUnique(l, i);
    FindUnique(m, i);
    if b != r.addr {
      var j := Find(l, b);
      if j < |l| {
        FindUnique(m, j);
      }
    }
  }

  lemma LockAppended(l: seq<Rec>, r: Rec, t: nat, b: Addr)
    requires Apart(l) && Find(l, r.addr) == |l|
    ensures LockedFor(l + [r], t, b) <==> if b == r.addr then t in r.locks else LockedFor(l, t, b)
  {
    var m := l + [r];
    assert Apart(m);
    FindUnique(m, |l|);
    if b != r.addr {
      var j := Find(l, b);
      if j < |l| {
        assert m[j] == l[j];
        FindUnique(m, j);
      } else {
        assert forall k | 0 <= k < |m| :: m[k] == if k < |l| then l[k] else r;
      }
    }
  }

  lemma LockDropped(l: seq<Rec>, w: nat, t: nat, b: Addr)
    requires Apart(l) && w < |l|
    ensures LockedFor(l[..w] + l[w + 1..], t, b) <==> b != l[w].addr && LockedFor(l, t, b)
  {
    var m := l[..w] + l[w + 1..];
    SkipsSlices(l, w);
    if b == l[w].addr || Find(l, b) == |l| {
      SkipsMissing(l, m, w, b);
    } else {
      SkipsFound(l, m, w, b);
    }
  }

  /** The request puts the lock of table t on the neighbour with the address. */
  predicate Locks(q: Request, ok: bool, t: nat, a: Addr) {
    ok && q == ChangeRequest(t, a, Lock)
  }

  /** The request takes that lock away, if there is one. */
  predicate Unlocks(q: Request, ok: bool, t: nat, a: Addr) {
    q.ClearRequest? || (ok && (q == ChangeRequest(t, a, Unlock) || q == ChangeRequest(t, a, Change.Remove)))
  }

  /** An add changes no lock: the neighbour that it evicts has none. */
  lemma AddKeepsLocks(l: seq<Rec>, t: nat, a: Addr, zeros: Item, ok: bool, l': seq<Rec>, u: nat, b: Addr)
    requires Apart(l) && AddStep(l, t, a, zeros, ok, l')
    ensures LockedFor(l', u, b) <==> LockedFor(l, u, b)
  {
    var i := Find(l, a);
    var added := Rec(a, map[t := zeros], {});
    if i < |l| {
      LockUpdated(l, i, l'[i], u, b);
      FindUnique(l, i);
    } else if |l| < MAX_NEIGHBORS {
      LockAppended(l, added, u, b);
    } else if ok {
      var w: nat :| Worst(l, w) && l' == l[..w] + l[w + 1..] + [added];
      FindUnique(l, w);
      GetDropped(l, w, t, a);
      LockDropped(l, w, u, b);
      LockAppended(l[..w] + l[w + 1..], added, u, b);
    }
  }

  /** A lock, an unlock or a removal changes the lock of its own table on its own address only; a store changes none. */
  lemma ChangeLocks(l: seq<Rec>, t: nat, a: Addr, change: Change, ok: bool, l': seq<Rec>, u: nat, b: Addr)
    requires Apart(l) && ChangeStep(l, t, a, change, ok, l')
    ensures LockedFor(l', u, b)
       <==> var q := ChangeRequest(t, a, change);
            Locks(q, ok, u, b) || (LockedFor(l, u, b) && !Unlocks(q, ok, u, b))
  {
    if ok {
      var i := Find(l, a);
      FindUnique(l, i);
      LockUpdated(l, i, l'[i], u, b);
    }
  }

  lemma StepLocks(l: seq<Rec>, q: Request, zeros: Item, ok: bool, l': seq<Rec>, t: nat, a: Addr)
    requires Apart(l) && Step(l, q, zeros, ok, l')
    ensures LockedFor(l', t, a) <==> Locks(q, ok, t, a) || (LockedFor(l, t, a) && !Unlocks(q, ok, t, a))
  {
    match q
    case AddRequest(u, b) => AddKeepsLocks(l, u, b, zeros, ok, l', t, a);
    case ChangeRequest(u, b, change) => ChangeLocks(l, u, b, change, ok, l', t, a);
    case ClearRequest =>
  }

  // ----- the pool as a list of records -----

  ghost predicate DataSized(data: seq<seq<Item>>) {
    |data| == MAX_TABLES && forall t | 0 <= t < |data| :: |data[t]| == MAX_NEIGHBORS
  }

  /** Only tables that exist use a neighbour. */
  ghost predicate TablesOnly(n: Nbrs) {
    forall k, t | 0 <= k < |n.used| && t in n.used[k] :: t < MAX_TABLES
  }

  ghost function RecAt(n: Nbrs, data: seq<seq<Item>>, k: int): Rec
    requires Sized(n) && DataSized(data) && 0 <= k < MAX_NEIGHBORS
  {
    Rec(n.addr[k], map t | t in n.used[k] && t < MAX_TABLES :: data[t][k], n.locked[k])
  }

  ghost function RecsOf(q: seq<int>, n: Nbrs, data: seq<seq<Item>>): seq<Rec>
    requires Slots(q) && Sized(n) && DataSized(data)
  {
    seq(|q|, i requires 0 <= i < |q| => RecAt(n, data, q[i]))
  }

  ghost function Records(n: Nbrs, data: seq<seq<Item>>): seq<Rec>
    requires Sized(n) && DataSized(data)
  {
    RecsOf(n.order, n, data)
  }

  lemma {:induction false} FindAgrees(q: seq<int>, n: Nbrs, data: seq<seq<Item>>, a: Addr)
    requires Slots(q) && Sized(n) && DataSized(data)
    ensures var i := Find(RecsOf(q, n, data), a);
            FindIn(q, n.addr, a) == if i < |q| then q[i] else NONE
  {
    if q != [] {
      FindAgrees(q[1..], n, data, a);
      assert RecsOf(q, n, data)[1..] == RecsOf(q[1..], n, data);
    }
  }

  lemma SlotAgrees(n: Nbrs, data: seq<seq<Item>>, a: Addr)
    requires Sized(n) && DataSized(data)
    ensures var i := Find(Records(n, data), a);
            IndexOf(n, a) == if i < |n.order| then n.order[i] else NONE
  {
    FindAgrees(n.order, n, data, a);
  }

  lemma RecordsApart(n: Nbrs, data: seq<seq<Item>>)
    requires Inv(n) && DataSized(data)
    ensures Apart(Records(n, data))
  {
    AddressesDistinct(n);
  }

  /** What a lookup in the pool finds is what the list of records shows. */
  lemma LookupAgrees(n: Nbrs, data: seq<seq<Item>>, t: nat, a: Addr)
    requires Sized(n) && DataSized(data) && t < MAX_TABLES
    ensures Lookup(n, t, data[t], a) == Get(Records(n, data), t, a)
  {
    SlotAgrees(n, data, a);
  }

  /** From one pool to the other, only the slot at list position i may have changed. */
  ghost predicate OnlySlot(n: Nbrs, data: seq<seq<Item>>, m: Nbrs, data': seq<seq<Item>>, i: nat) {
    && Inv(n) && Sized(m) && DataSized(data) && DataSized(data') && i < |n.order|
    && m.order == n.order && m.addr == n.addr
    && (forall k | 0 <= k < MAX_NEIGHBORS && k != n.order[i] :: m.used[k] == n.used[k] && m.locked[k] == n.locked[k])
    && (forall t, k | 0 <= t < MAX_TABLES && 0 <= k < MAX_NEIGHBORS && k != n.order[i] :: data'[t][k] == data[t][k])
  }

  lemma SlotChanged(n: Nbrs, data: seq<seq<Item>>, m: Nbrs, data': seq<seq<Item>>, i: nat)
    requires OnlySlot(n, data, m, data', i)
    ensures Records(m, data') == Records(n, data)[i := RecAt(m, data', n.order[i])]
  {
    forall j | 0 <= j < |n.order| && j != i
      ensures RecAt(m, data', n.order[j]) == RecAt(n, data, n.order[j])
    {
      assert n.order[j] != n.order[i];
    }
  }

  lemma Marked(n: Nbrs, data: seq<seq<Item>>, i: nat, t: nat, item: Item)
    requires Inv(n) && DataSized(data) && i < |n.order| && t < MAX_TABLES
    ensures var k := n.order[i];
            var r := Records(n, data)[i];
            Records(MarkUsed(n, k, t), data[t := data[t][k := item]])
              == Records(n, data)[i := r.(items := r.items[t := item])]
  {
    var k := n.order[i];
    var m, data' := MarkUsed(n, k, t), data[t := data[t][k := item]];
    SlotChanged(n, data, m, data', i);
    assert RecAt(m, data', k).items == RecAt(n, data, k).items[t := item];
  }

  lemma Unmarked(n: Nbrs, data: seq<seq<Item>>, i: nat, t: nat)
    requires Inv(n) && DataSized(data) && i < |n.order|
    ensures var r := Records(n, data)[i];
            Records(Unmark(n, n.order[i], t), data) == Records(n, data)[i := Apply(Remove, t, r)]
  {
    var k := n.order[i];
    var m := Unmark(n, k, t);
    SlotChanged(n, data, m, data, i);
    assert RecAt(m, data, k).items == RecAt(n, data, k).items - {t};
  }

  lemma Relocked(n: Nbrs, data: seq<seq<Item>>, i: nat, locks: set<nat>)
    requires Inv(n) && DataSized(data) && i < |n.order|
    ensures var m := n.(locked := n.locked[n.order[i] := locks]);
            Sized(m) && Records(m, data) == Records(n, data)[i := Records(n, data)[i].(locks := locks)]
  {
    var k := n.order[i];
    var m := n.(locked := n.locked[k := locks]);
    SlotChanged(n, data, m, data, i);
  }

  lemma Written(n: Nbrs, data: seq<seq<Item>>, i: nat, t: nat, item: Item)
    requires Inv(n) && DataSized(data) && i < |n.order| && t < MAX_TABLES && t in n.used[n.order[i]]
    ensures var r := Records(n, data)[i];
            Records(n, data[t := data[t][n.order[i] := item]]) == Records(n, data)[i := r.(items := r.items[t := item])]
  {
    var k := n.order[i];
    var data' := data[t := data[t][k := item]];
    SlotChanged(n, data, n, data', i);
    assert RecAt(n, data', k).items == RecAt(n, data, k).items[t := item];
  }

  /** A new neighbour in a slot that is not listed. */
  lemma Entered(n: Nbrs, data: seq<seq<Item>>, k: int, a: Addr)
    requires Inv(n) && LocksListed(n) && DataSized(data)
    requires 0 <= k < MAX_NEIGHBORS && k !in n.order && IndexOf(n, a) == NONE
    ensures Inv(Enter(n, k, a)) && Records(Enter(n, k, a), data) == Records(n, data) + [Rec(a, map[], {})]
  {
    EnterInv(n, k, a);
    var m := Enter(n, k, a);
    assert RecAt(m, data, k) == Rec(a, map[], {});
    forall j | 0 <= j < |n.order|
      ensures RecAt(m, data, n.order[j]) == RecAt(n, data, n.order[j])
    {
      assert n.order[j] in n.order;
    }
  }

  /** The neighbour at list position w evicted. */
  lemma Unlisted(n: Nbrs, data: seq<seq<Item>>, w: nat)
    requires Inv(n) && DataSized(data) && w < |n.order|
    ensures var l := Records(n, data);
            Inv(Evict(n, n.order[w])) && Records(Evict(n, n.order[w]), data) == l[..w] + l[w + 1..]
  {
    var k := n.order[w];
    EvictInv(n, k);
    WithoutOne(n.order, w);
    SkipsSlices(n.order, w);
    OthersStay(n, data, k, Evict(n, k));
    RecordsSkip(n, data, Evict(n, k), w);
    SkipsUnique(Records(n, data), Records(Evict(n, k), data), w);
  }

  lemma RecordsSkip(n: Nbrs, data: seq<seq<Item>>, m: Nbrs, w: nat)
    requires Sized(n) && Sized(m) && DataSized(data) && Skips(n.order, m.order, w)
    requires forall j | 0 <= j < |m.order| :: RecAt(m, data, m.order[j]) == RecAt(n, data, m.order[j])
    ensures Skips(Records(n, data), Records(m, data), w)
  {
  }

  lemma OthersStay(n: Nbrs, data: seq<seq<Item>>, k: int, m: Nbrs)
    requires Sized(n) && Sized(m) && DataSized(data) && 0 <= k < MAX_NEIGHBORS && k !in m.order
    requires m.addr == n.addr && m.used == n.used[k := {}] && m.locked == n.locked[k := {}]
    ensures forall j | 0 <= j < |m.order| :: RecAt(m, data, m.order[j]) == RecAt(n, data, m.order[j])
  {
    forall j | 0 <= j < |m.order|
      ensures RecAt(m, data, m.order[j]) == RecAt(n, data, m.order[j])
    {
      assert m.order[j] in m.order;
    }
  }

  lemma UsesAgrees(n: Nbrs, data: seq<seq<Item>>, i: nat)
    requires Sized(n) && DataSized(data) && TablesOnly(n) && i < |n.order|
    ensures |Records(n, data)[i].items| == Uses(n, i)
  {
    assert Records(n, data)[i].items.Keys == n.used[n.order[i]];
  }

  lemma WorstAgrees(n: Nbrs, data: seq<seq<Item>>, w: nat)
    requires Sized(n) && DataSized(data) && TablesOnly(n) && WorstAt(n, |n.order|, w)
    ensures Worst(Records(n, data), w)
  {
    forall j | 0 <= j < |n.order|
      ensures |Records(n, data)[j].items| == Uses(n, j) && (Records(n, data)[j].locks == {} <==> Unlocked(n, j))
    {
      UsesAgrees(n, data, j);
    }
  }

  /** From n to m, with a cleared item in slot k of table t, is an add to the list of records. */
  ghost predicate AddAgrees(n: Nbrs, m: Nbrs, data: seq<seq<Item>>, a: Addr, t: nat, k: int, zeros: Item) {
    && Sized(n) && Sized(m) && DataSized(data) && t < MAX_TABLES && 0 <= k < MAX_NEIGHBORS
    && AddStep(Records(n, data), t, a, zeros, true, Records(m, data[t := data[t][k := zeros]]))
  }

  /** An add that finds a slot is an add to the list of records. */
  lemma AddRefines(n: Nbrs, taken: seq<bool>, data: seq<seq<Item>>, a: Addr, t: nat, k: int, w: nat, zeros: Item)
    requires Inv(n) && LocksListed(n) && PoolMatches(n, taken) && TablesOnly(n) && DataSized(data) && t < MAX_TABLES
    requires AddSlot(n, FreeBlocks(taken), a, k, w)
    ensures AddAgrees(n, AddResult(n, FreeBlocks(taken) != {}, a, t, k), data, a, t, k, zeros)
  {
    Conservation(n, taken);
    if IndexOf(n, a) != NONE {
      KnownRefines(n, MarkUsed(n, k, t), data, a, t, k, zeros);
    } else if FreeBlocks(taken) != {} {
      NewcomerRefines(n, MarkUsed(Enter(n, k, a), k, t), data, a, t, k, zeros);
    } else {
      EvictInv(n, k);
      EvictionRefines(n, MarkUsed(Enter(Evict(n, k), k, a), k, t), data, a, t, k, w, zeros);
    }
  }

  /** An add of an address that is listed already. */
  lemma KnownRefines(n: Nbrs, m: Nbrs, data: seq<seq<Item>>, a: Addr, t: nat, k: int, zeros: Item)
    requires Inv(n) && DataSized(data) && t < MAX_TABLES && IndexOf(n, a) == k != NONE && m == MarkUsed(n, k, t)
    ensures AddAgrees(n, m, data, a, t, k, zeros)
  {
    SlotAgrees(n, data, a);
    Marked(n, data, Find(Records(n, data), a), t, zeros);
  }

  /** An add of a new address while there is room. */
  lemma NewcomerRefines(n: Nbrs, m: Nbrs, data: seq<seq<Item>>, a: Addr, t: nat, k: int, zeros: Item)
    requires Inv(n) && LocksListed(n) && DataSized(data) && t < MAX_TABLES
    requires 0 <= k < MAX_NEIGHBORS && k !in n.order && IndexOf(n, a) == NONE && |n.order| < MAX_NEIGHBORS
    requires m == MarkUsed(Enter(n, k, a), k, t)
    ensures AddAgrees(n, m, data, a, t, k, zeros)
  {
    SlotAgrees(n, data, a);
    AppendRefines(n, data, a, t, k, zeros);
  }

  /** An add into a full pool that evicts the neighbour at list position w. */
  lemma EvictionRefines(n: Nbrs, m: Nbrs, data: seq<seq<Item>>, a: Addr, t: nat, k: int, w: nat, zeros: Item)
    requires Inv(n) && LocksListed(n) && TablesOnly(n) && DataSized(data) && t < MAX_TABLES
    requires IndexOf(n, a) == NONE && |n.order| >= MAX_NEIGHBORS
    requires w < |n.order| && WorstAt(n, |n.order|, w) && k == n.order[w]
    requires Sized(Evict(n, k)) && m == MarkUsed(Enter(Evict(n, k), k, a), k, t)
    ensures AddAgrees(n, m, data, a, t, k, zeros)
  {
    SlotAgrees(n, data, a);
    WorstAgrees(n, data, w);
    Unlisted(n, data, w);
    EvictInv(n, k);
    GoneStaysGone(n, a, k);
    WithoutMembers(n.order, {k});
    AppendRefines(Evict(n, k), data, a, t, k, zeros);
    AddEvicting(Records(n, data), t, a, zeros, w);
  }

  lemma AddEvicting(l: seq<Rec>, t: nat, a: Addr, zeros: Item, w: nat)
    requires Find(l, a) == |l| >= MAX_NEIGHBORS && Worst(l, w)
    ensures AddStep(l, t, a, zeros, true, l[..w] + l[w + 1..] + [Rec(a, map[t := zeros], {})])
  {
  }

  lemma GoneStaysGone(n: Nbrs, a: Addr, k: int)
    requires Inv(n) && k in n.order && IndexOf(n, a) == NONE
    ensures 0 <= k < MAX_NEIGHBORS && Inv(Evict(n, k)) && IndexOf(Evict(n, k), a) == NONE
  {
    EvictInv(n, k);
    IndexOfExact(n, a);
    EvictLookup(n, k, 0, seq(MAX_NEIGHBORS, _ => []), a);
  }

  lemma AppendRefines(n: Nbrs, data: seq<seq<Item>>, a: Addr, t: nat, k: int, zeros: Item)
    requires Inv(n) && LocksListed(n) && DataSized(data) && t < MAX_TABLES
    requires 0 <= k < MAX_NEIGHBORS && k !in n.order && IndexOf(n, a) == NONE
    ensures Records(MarkUsed(Enter(n, k, a), k, t), data[t := data[t][k := zeros]])
         == Records(n, data) + [Rec(a, map[t := zeros], {})]
  {
    Entered(n, data, k, a);
    var m := Enter(n, k, a);
    Marked(m, data, |n.order|, t, zeros);
    assert Records(m, data)[|n.order|] == Rec(a, map[], {});
  }

  /** An add that fails is one that the list of records has no room for. */
  lemma RefusalRefines(n: Nbrs, taken: seq<bool>, data: seq<seq<Item>>, a: Addr, t: nat, zeros: Item)
    requires Inv(n) && PoolMatches(n, taken) && DataSized(data) && NoRoom(n, FreeBlocks(taken), a)
    ensures AddStep(Records(n, data), t, a, zeros, false, Records(n, data))
  {
    SlotAgrees(n, data, a);
    Conservation(n, taken);
    forall i | 0 <= i < |n.order|
      ensures Records(n, data)[i].locks != {}
    {
      assert !Unlocked(n, i);
    }
  }

  // ----- the code -----

  ghost function Blank(): seq<Item> {
    seq(MAX_NEIGHBORS, _ => [])
  }

  /** The items of a table. */
  ghost function DataOf(table: Table?): seq<Item>
    reads table
  {
    if table != null then table.data else Blank()
  }

  ghost function DataUpTo(tables: seq<Table?>, t: nat): (d: seq<seq<Item>>)
    reads tables
    requires t <= |tables|
    ensures |d| == t && forall u | 0 <= u < t :: d[u] == DataOf(tables[u])
  {
    if t == 0 then [] else DataUpTo(tables, t - 1) + [DataOf(tables[t - 1])]
  }

  ghost function Data(tables: seq<Table?>): seq<seq<Item>>
    reads tables
  {
    DataUpTo(tables, |tables|)
  }

  /** The list of records that the tables stand for. */
  ghost function Now(p: NbrTables): seq<Rec>
    reads p, p.list, p.pool, p.allTables
    requires p.Valid()
  {
    DataValid(p);
    Records(p.View(), Data(p.allTables))
  }

  lemma DataValid(p: NbrTables)
    requires p.TablesValid()
    ensures DataSized(Data(p.allTables))
  {
  }

  lemma UsedByTables(p: NbrTables)
    ensures TablesOnly(p.View())
  {
  }

  lemma OtherTables(p: NbrTables, t: nat)
    requires p.TablesValid() && t < p.numTables
    ensures forall u | 0 <= u < MAX_TABLES && u != t :: p.allTables[u] != p.allTables[t]
  {
  }

  /** Only the items of table t have changed. */
  lemma DataUpdated(p: NbrTables, data: seq<seq<Item>>, t: nat)
    requires |p.allTables| == MAX_TABLES && |data| == MAX_TABLES && t < MAX_TABLES
    requires forall u | 0 <= u < MAX_TABLES && u != t :: DataOf(p.allTables[u]) == data[u]
    ensures Data(p.allTables) == data[t := DataOf(p.allTables[t])]
  {
  }

  /** The tables of clients that lock only what a lookup gives them. */
  ghost predicate Sound(p: NbrTables)
    reads p, p.list, p.pool, p.allTables
  {
    p.Valid() && LocksListed(p.View())
  }

  /** nbr_table_add_lladdr on table number t. */
  method AddTo(p: NbrTables, t: nat, a: Addr) returns (item: int, ghost k: int, ghost w: nat)
    requires Sound(p) && t < p.numTables
    modifies p`usedMap, p`lockedMap, p`lladdr, p`calls, p.list, p.pool, p.allTables
    ensures p.Valid()
    ensures item == NONE ==> NoRoom(old(p.View()), old(FreeBlocks(p.pool.used)), a)
                             && p.View() == old(p.View()) && Data(p.allTables) == old(Data(p.allTables))
    ensures item != NONE ==>
              && AddSlot(old(p.View()), old(FreeBlocks(p.pool.used)), a, k, w)
              && p.View() == AddResult(old(p.View()), old(FreeBlocks(p.pool.used)) != {}, a, t, k)
              && var data := old(Data(p.allTables));
                 Data(p.allTables) == data[t := data[t][k := Zeros(p.allTables[t].itemSize)]]
  {
    var table := p.allTables[t];
    ghost var data := Data(p.allTables);
    OtherTables(p, t);
    item, w := p.AddLladdr(table, Some(a));
    k := IndexFromItem(table, item);
    DataUpdated(p, data, t);
    assert item == NONE ==> data[t := data[t]] == data;
  }

  method Add(p: NbrTables, t: nat, a: Addr) returns (ok: bool)
    requires Sound(p) && t < p.numTables
    modifies p`usedMap, p`lockedMap, p`lladdr, p`calls, p.list, p.pool, p.allTables
    ensures Sound(p)
    ensures AddStep(old(Now(p)), t, a, Zeros(p.allTables[t].itemSize), ok, Now(p))
  {
    ghost var n, taken, data, zeros := p.View(), p.pool.used, Data(p.allTables), Zeros(p.allTables[t].itemSize);
    ghost var l := Now(p);
    UsedByTables(p);
    DataValid(p);
    var item;
    ghost var k, w;
    item, k, w := AddTo(p, t, a);
    ok := item != NONE;
    if ok {
      AddLocks(n, FreeBlocks(taken), a, t, k, w);
      AddRefines(n, taken, data, a, t, k, w, zeros);
    } else {
      RefusalRefines(n, taken, data, a, t, zeros);
    }
    assert AddStep(l, t, a, zeros, ok, Now(p));
  }

  /** nbr_table_get_from_lladdr on table number t; i is the position of the record. */
  method Locate(p: NbrTables, t: nat, a: Addr) returns (item: int, ghost i: nat)
    requires Sound(p) && t < p.numTables
    ensures i == Find(Now(p), a)
    ensures item != NONE <==> i < |Now(p)| && t in Now(p)[i].items
    ensures item != NONE ==> PointsAt(p, t, item, i)
  {
    i := Find(Now(p), a);
    DataValid(p);
    SlotAgrees(p.View(), Data(p.allTables), a);
    item := p.GetFromLladdr(p.allTables[t], Some(a));
  }

  /** Table number t points at the neighbour at list position i, which it uses. */
  ghost predicate PointsAt(p: NbrTables, t: nat, item: int, i: nat)
    reads p, p.list, p.pool, p.allTables
    requires Sound(p)
  {
    && t < p.numTables && item != NONE && p.Points(p.allTables[t], item)
    && i < |p.View().order| && IndexFromItem(p.allTables[t], item) == p.View().order[i]
    && t in p.View().used[p.View().order[i]]
  }

  method RemoveAt(p: NbrTables, t: nat, item: int, ghost i: nat)
    requires Sound(p) && PointsAt(p, t, item, i)
    modifies p`usedMap, p`lockedMap
    ensures Sound(p) && i < |old(Now(p))| && Now(p) == old(Now(p))[i := Apply(Change.Remove, t, old(Now(p))[i])]
  {
    ghost var n, data := p.View(), Data(p.allTables);
    DataValid(p);
    Unmarked(n, data, i, t);
    var _ := p.Remove(p.allTables[t], item);
    assert p.View() == Unmark(n, n.order[i], t) && Data(p.allTables) == data;
  }

  method LockAt(p: NbrTables, t: nat, item: int, ghost i: nat)
    requires Sound(p) && PointsAt(p, t, item, i)
    modifies p`lockedMap
    ensures Sound(p) && i < |old(Now(p))| && Now(p) == old(Now(p))[i := Apply(Change.Lock, t, old(Now(p))[i])]
  {
    DataValid(p);
    Relocked(p.View(), Data(p.allTables), i, p.View().locked[p.View().order[i]] + {t});
    var _ := p.Lock(p.allTables[t], item);
  }

  method UnlockAt(p: NbrTables, t: nat, item: int, ghost i: nat)
    requires Sound(p) && PointsAt(p, t, item, i)
    modifies p`lockedMap
    ensures Sound(p) && i < |old(Now(p))| && Now(p) == old(Now(p))[i := Apply(Change.Unlock, t, old(Now(p))[i])]
  {
    DataValid(p);
    Relocked(p.View(), Data(p.allTables), i, p.View().locked[p.View().order[i]] - {t});
    var _ := p.Unlock(p.allTables[t], item);
  }

  /** The client stores into its item. */
  method StoreAt(p: NbrTables, t: nat, item: int, x: Item, ghost i: nat)
    requires Sound(p) && PointsAt(p, t, item, i)
    modifies p.allTables
    ensures Sound(p) && i < |old(Now(p))| && Now(p) == old(Now(p))[i := Apply(Change.Write(x), t, old(Now(p))[i])]
  {
    DataValid(p);
    Written(p.View(), Data(p.allTables), i, t, x);
    Store(p, t, item, x);
  }

  method Store(p: NbrTables, t: nat, item: int, x: Item)
    requires Sound(p) && t < p.numTables && item != NONE && p.Points(p.allTables[t], item)
    modifies p.allTables
    ensures Sound(p) && p.View() == old(p.View())
    ensures var k := IndexFromItem(p.allTables[t], item);
            && 0 <= k < MAX_NEIGHBORS
            && Data(p.allTables) == old(Data(p.allTables))[t := old(Data(p.allTables))[t][k := x]]
  {
    ghost var data := Data(p.allTables);
    var table := p.allTables[t];
    OtherTables(p, t);
    table.data := table.data[IndexFromItem(table, item) := x];
    DataUpdated(p, data, t);
  }

  /** A lookup and what is done with the item that it finds. */
  method ChangeItem(p: NbrTables, t: nat, a: Addr, change: Change) returns (ok: bool)
    requires Sound(p) && t < p.numTables
    modifies p`usedMap, p`lockedMap, p.allTables
    ensures Sound(p) && ChangeStep(old(Now(p)), t, a, change, ok, Now(p))
  {
    var item;
    ghost var i;
    item, i := Locate(p, t, a);
    ok := item != NONE;
    if ok {
      match change {
        case Remove => RemoveAt(p, t, item, i);
        case Lock => LockAt(p, t, item, i);
        case Unlock => UnlockAt(p, t, item, i);
        case Write(x) => StoreAt(p, t, item, x, i);
      }
    }
  }

  method Clear(p: NbrTables)
    requires Sound(p)
    modifies p`usedMap, p`lockedMap, p`calls, p.list, p.pool
    ensures Sound(p) && Now(p) == []
  {
    p.Clear();
  }

  // ----- runs -----

  /** The request is for a table that is registered, of which there are |zeros|. */
  predicate Registered(q: Request, zeros: seq<Item>) {
    q.ClearRequest? || q.t < |zeros|
  }

  /** A run of the specification: zeros[t] is the cleared item of table t, and lists[i] the list before request i. */
  ghost predicate IsRun(lists: seq<seq<Rec>>, zeros: seq<Item>, script: seq<Request>, replies: seq<bool>) {
    && |lists| == |script| + 1 && |replies| == |script|
    && Apart(lists[0])
    && (forall i {:trigger StepAt(lists, zeros, script, replies, i)} | 0 <= i < |script| ::
          StepAt(lists, zeros, script, replies, i))
  }

  ghost predicate StepAt(lists: seq<seq<Rec>>, zeros: seq<Item>, script: seq<Request>, replies: seq<bool>, i: nat)
    requires |lists| == |script| + 1 && |replies| == |script| && i < |script|
  {
    Registered(script[i], zeros) && Step(lists[i], script[i], ClearedBy(script[i], zeros), replies[i], lists[i + 1])
  }

  function ClearedBy(q: Request, zeros: seq<Item>): Item
    requires Registered(q, zeros)
  {
    if q.ClearRequest? then [] else zeros[q.t]
  }

  /** At each point of a run the addresses are distinct, so that each table is a map. */
  lemma {:induction false} RunApart(lists: seq<seq<Rec>>, zeros: seq<Item>, script: seq<Request>, replies: seq<bool>,
                                    i: nat)
    requires IsRun(lists, zeros, script, replies) && i <= |script|
    ensures Apart(lists[i])
  {
    if i > 0 {
      RunApart(lists, zeros, script, replies, i - 1);
      assert StepAt(lists, zeros, script, replies, i - 1);
      StepApart(lists[i - 1], script[i - 1], ClearedBy(script[i - 1], zeros), replies[i - 1], lists[i]);
    }
  }

  lemma StepApart(l: seq<Rec>, q: Request, zeros: Item, ok: bool, l': seq<Rec>)
    requires Apart(l) && Step(l, q, zeros, ok, l')
    ensures Apart(l')
  {
    match q
    case AddRequest(t, a) =>
      if ok {
        var _ := AddMaps(l, t, a, zeros, l');
      }
    case ChangeRequest(t, a, change) =>
      ChangeMaps(l, t, a, change, ok, l', t, a);
    case ClearRequest =>
  }

  /** Throughout any run, interleaved over the tables in any way, each table behaves as a map: a request changes the map
      of its own table at its own address, and only an add into a full pool takes one more address out of all tables. */
  lemma RunMaps(lists: seq<seq<Rec>>, zeros: seq<Item>, script: seq<Request>, replies: seq<bool>, i: nat)
    returns (gone: Option<Addr>)
    requires IsRun(lists, zeros, script, replies) && i < |script|
    ensures Registered(script[i], zeros)
    ensures if script[i].AddRequest? && replies[i] then Evicted(lists[i], script[i].a, gone) else gone == None
    ensures forall u, b :: Get(lists[i + 1], u, b)
                        == MapAfter(script[i], ClearedBy(script[i], zeros), replies[i], gone, u, b, Get(lists[i], u, b))
  {
    RunApart(lists, zeros, script, replies, i);
    assert StepAt(lists, zeros, script, replies, i);
    gone := StepMaps(lists[i], script[i], ClearedBy(script[i], zeros), replies[i], lists[i + 1]);
  }

  lemma StepMaps(l: seq<Rec>, q: Request, zeros: Item, ok: bool, l': seq<Rec>) returns (gone: Option<Addr>)
    requires Apart(l) && Step(l, q, zeros, ok, l')
    ensures if q.AddRequest? && ok then Evicted(l, q.a, gone) else gone == None
    ensures forall u, b :: Get(l', u, b) == MapAfter(q, zeros, ok, gone, u, b, Get(l, u, b))
  {
    gone := None;
    match q
    case AddRequest(t, a) =>
      if ok {
        gone := AddMaps(l, t, a, zeros, l');
      }
    case ChangeRequest(t, a, change) =>
      forall u, b
        ensures Get(l', u, b) == MapAfter(q, zeros, ok, gone, u, b, Get(l, u, b))
      {
        ChangeMaps(l, t, a, change, ok, l', u, b);
      }
    case ClearRequest =>
  }

  /** None of the requests from lo up to hi takes the lock of table t on the address away. */
  ghost predicate Undisturbed(script: seq<Request>, replies: seq<bool>, lo: nat, hi: nat, t: nat, a: Addr)
    requires hi <= |script| == |replies|
  {
    forall j | lo <= j < hi :: !Unlocks(script[j], replies[j], t, a)
  }

  /** From the requests and replies before i alone: the last of them that concern the lock of table t on the address
      is a lock that was granted; `first` is whether there was one to begin with. */
  ghost predicate Stands(first: bool, script: seq<Request>, replies: seq<bool>, i: nat, t: nat, a: Addr)
    requires i <= |script| == |replies|
  {
    || (first && Undisturbed(script, replies, 0, i, t, a))
    || exists j :: 0 <= j < i && Locks(script[j], replies[j], t, a) && Undisturbed(script, replies, j + 1, i, t, a)
  }

  lemma StandsNext(first: bool, script: seq<Request>, replies: seq<bool>, i: nat, t: nat, a: Addr)
    requires i < |script| == |replies|
    ensures Stands(first, script, replies, i + 1, t, a)
       <==> Locks(script[i], replies[i], t, a)
            || (Stands(first, script, replies, i, t, a) && !Unlocks(script[i], replies[i], t, a))
  {
    if Locks(script[i], replies[i], t, a) {
      assert Undisturbed(script, replies, i + 1, i + 1, t, a);
    } else if Stands(first, script, replies, i, t, a) && !Unlocks(script[i], replies[i], t, a) {
      if !(first && Undisturbed(script, replies, 0, i, t, a)) {
        var j :| 0 <= j < i && Locks(script[j], replies[j], t, a) && Undisturbed(script, replies, j + 1, i, t, a);
        assert Undisturbed(script, replies, j + 1, i + 1, t, a);
      }
    } else if Stands(first, script, replies, i + 1, t, a) {
      if !(first && Undisturbed(script, replies, 0, i + 1, t, a)) {
        var j :| 0 <= j <= i && Locks(script[j], replies[j], t, a) && Undisturbed(script, replies, j + 1, i + 1, t, a);
        assert Undisturbed(script, replies, j + 1, i, t, a);
      }
    }
  }

  /** Throughout any run a table locks a neighbour exactly if the last request that concerns this lock and was granted
      is one for it: no other table's request and no eviction ever takes it away. */
  lemma {:induction false} RunLocks(lists: seq<seq<Rec>>, zeros: seq<Item>, script: seq<Request>, replies: seq<bool>,
                                    i: nat, t: nat, a: Addr)
    requires IsRun(lists, zeros, script, replies) && i <= |script|
    ensures LockedFor(lists[i], t, a) <==> Stands(LockedFor(lists[0], t, a), script, replies, i, t, a)
  {
    if i > 0 {
      RunLocks(lists, zeros, script, replies, i - 1, t, a);
      RunApart(lists, zeros, script, replies, i - 1);
      assert StepAt(lists, zeros, script, replies, i - 1);
      StepLocks(lists[i - 1], script[i - 1], ClearedBy(script[i - 1], zeros), replies[i - 1], lists[i], t, a);
      StandsNext(LockedFor(lists[0], t, a), script, replies, i - 1, t, a);
    } else {
      assert Undisturbed(script, replies, 0, 0, t, a);
    }
  }

  /** Some table locks the neighbour with the address, from what was locked to begin with, the requests and replies. */
  ghost predicate Held(first: seq<Rec>, script: seq<Request>, replies: seq<bool>, i: nat, a: Addr)
    requires i <= |script| == |replies|
  {
    exists t :: Stands(LockedFor(first, t, a), script, replies, i, t, a)
  }

  lemma HeldExact(lists: seq<seq<Rec>>, zeros: seq<Item>, script: seq<Request>, replies: seq<bool>, i: nat, k: nat)
    requires IsRun(lists, zeros, script, replies) && i <= |script| && k < |lists[i]|
    ensures Held(lists[0], script, replies, i, lists[i][k].addr) <==> lists[i][k].locks != {}
  {
    var a := lists[i][k].addr;
    RunApart(lists, zeros, script, replies, i);
    FindUnique(lists[i], k);
    forall t
      ensures t in lists[i][k].locks <==> Stands(LockedFor(lists[0], t, a), script, replies, i, t, a)
    {
      RunLocks(lists, zeros, script, replies, i, t, a);
    }
  }

  /** An add never evicts a neighbour that some table locks. */
  lemma RunEvictsUnlocked(lists: seq<seq<Rec>>, zeros: seq<Item>, script: seq<Request>, replies: seq<bool>, i: nat,
                          gone: Addr)
    requires IsRun(lists, zeros, script, replies) && i < |script| && script[i].AddRequest? && replies[i]
    requires Evicted(lists[i], script[i].a, Some(gone))
    ensures !Held(lists[0], script, replies, i, gone)
  {
    var w: nat :| Worst(lists[i], w) && gone == lists[i][w].addr;
    HeldExact(lists, zeros, script, replies, i, w);
  }

  /** An add is refused exactly if the address is new, the list full and every neighbour on it locked by some table. */
  lemma RunRefusesIff(lists: seq<seq<Rec>>, zeros: seq<Item>, script: seq<Request>, replies: seq<bool>, i: nat)
    requires IsRun(lists, zeros, script, replies) && i < |script| && script[i].AddRequest?
    ensures !replies[i]
       <==> Find(lists[i], script[i].a) == |lists[i]| >= MAX_NEIGHBORS
            && forall k | 0 <= k < |lists[i]| :: Held(lists[0], script, replies, i, lists[i][k].addr)
  {
    assert StepAt(lists, zeros, script, replies, i);
    forall k | 0 <= k < |lists[i]|
      ensures Held(lists[0], script, replies, i, lists[i][k].addr) <==> lists[i][k].locks != {}
    {
      HeldExact(lists, zeros, script, replies, i, k);
    }
  }

  /** What the registered tables clear their items to. */
  ghost predicate ZerosOf(p: NbrTables, zeros: seq<Item>)
    reads p
    requires p.numTables <= |p.allTables|
  {
    && |zeros| == p.numTables
    && forall t | 0 <= t < p.numTables :: p.allTables[t] != null && zeros[t] == Zeros(p.allTables[t].itemSize)
  }

  /** Any sequence of requests for registered tables, served by the code, is a run. */
  method Run(p: NbrTables, script: seq<Request>, ghost zeros: seq<Item>)
    returns (replies: seq<bool>, ghost lists: seq<seq<Rec>>)
    requires Sound(p) && ZerosOf(p, zeros) && forall q | q in script :: Registered(q, zeros)
    modifies p`usedMap, p`lockedMap, p`lladdr, p`calls, p.list, p.pool, p.allTables
    ensures Sound(p) && IsRun(lists, zeros, script, replies) && lists[0] == old(Now(p)) && lists[|script|] == Now(p)
  {
    NowApart(p);
    replies, lists := [], [Now(p)];
    for i := 0 to |script|
      invariant Sound(p) && |replies| == i
      invariant IsRun(lists, zeros, script[..i], replies) && lists[0] == old(Now(p)) && lists[i] == Now(p)
    {
      replies, lists := Turn(p, script, i, zeros, replies, lists);
    }
    assert script[..|script|] == script;
  }

  /** One turn of the loop. */
  method Turn(p: NbrTables, script: seq<Request>, i: nat, ghost zeros: seq<Item>, replies: seq<bool>,
              ghost lists: seq<seq<Rec>>)
    returns (replies': seq<bool>, ghost lists': seq<seq<Rec>>)
    requires Sound(p) && ZerosOf(p, zeros) && i < |script| && Registered(script[i], zeros) && |replies| == i
    requires IsRun(lists, zeros, script[..i], replies) && lists[i] == Now(p)
    modifies p`usedMap, p`lockedMap, p`lladdr, p`calls, p.list, p.pool, p.allTables
    ensures Sound(p) && |replies'| == i + 1
    ensures IsRun(lists', zeros, script[..i + 1], replies') && lists'[0] == lists[0] && lists'[i + 1] == Now(p)
  {
    var ok := Serve(p, script[i], zeros);
    Extended(lists, zeros, script[..i], replies, script[i], ok, Now(p));
    assert script[..i + 1] == script[..i] + [script[i]];
    replies', lists' := replies + [ok], lists + [Now(p)];
  }

  lemma NowApart(p: NbrTables)
    requires Sound(p)
    ensures Apart(Now(p))
  {
    DataValid(p);
    RecordsApart(p.View(), Data(p.allTables));
  }

  lemma Extended(lists: seq<seq<Rec>>, zeros: seq<Item>, script: seq<Request>, replies: seq<bool>, q: Request,
                 ok: bool, l: seq<Rec>)
    requires IsRun(lists, zeros, script, replies) && Registered(q, zeros)
    requires Step(lists[|script|], q, ClearedBy(q, zeros), ok, l)
    ensures IsRun(lists + [l], zeros, script + [q], replies + [ok])
  {
    forall i | 0 <= i < |script + [q]|
      ensures StepAt(lists + [l], zeros, script + [q], replies + [ok], i)
    {
      assert i < |script| ==> StepAt(lists, zeros, script, replies, i);
    }
  }

  method Serve(p: NbrTables, q: Request, ghost zeros: seq<Item>) returns (ok: bool)
    requires Sound(p) && ZerosOf(p, zeros) && Registered(q, zeros)
    modifies p`usedMap, p`lockedMap, p`lladdr, p`calls, p.list, p.pool, p.allTables
    ensures Sound(p) && Step(old(Now(p)), q, ClearedBy(q, zeros), ok, Now(p))
  {
    match q {
      case AddRequest(t, a) => ok := Add(p, t, a);
      case ChangeRequest(t, a, change) => ok := ChangeItem(p, t, a, change);
      case ClearRequest =>
        Clear(p);
        ok := true;
    }
  }
}
