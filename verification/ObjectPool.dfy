/**
 The block allocator of os/lib/memb.c and the singly linked list of os/lib/list.c, over a pool of
 equally sized blocks. A block is named by its number in the pool; -1 stands for NULL.
 */
module ObjectPool {
  import opened Lists

  const NONE: int := -1

  // ----- memb.c -----

  ghost function FreeBlocks(used: seq<bool>): set<int> {
    set i | 0 <= i < |used| && !used[i]
  }

  class Memb {
    var used: seq<bool>

    constructor (num: nat)
      ensures used == seq(num, _ => false)
    {
      used := seq(num, _ => false);
    }

    /** memb_alloc: the first free block, or NULL when there is none. */
    method Alloc() returns (r: int)
      modifies this
      ensures r == NONE <==> old(FreeBlocks(used)) == {}
      ensures r == NONE ==> used == old(used)
      ensures r != NONE ==> r in old(FreeBlocks(used)) && used == old(used)[r := true]
      ensures r != NONE ==> forall i | 0 <= i < r :: old(used)[i]
    {
      for i := 0 to |used|
        invariant used == old(used) && forall j | 0 <= j < i :: used[j]
      {
        if !used[i] {
          assert i in FreeBlocks(used);
          used := used[i := true];
          return i;
        }
      }
      return NONE;
    }

    /** memb_free: -1 for a pointer that is no block of the pool or whose block is free already. */
    method Free(ptr: int) returns (r: int)
      modifies this
      ensures r == if 0 <= ptr < |old(used)| && old(used)[ptr] then 0 else -1
      ensures used == if r == 0 then old(used)[ptr := false] else old(used)
    {
      for i := 0 to |used|
        invariant used == old(used) && !(0 <= ptr < i)
      {
        if i == ptr {
          if !used[i] {
            return -1;
          }
          used := used[i := false];
          return 0;
        }
      }
      return -1;
    }

    /** memb_numfree. */
    method NumFree() returns (n: nat)
      ensures n == |FreeBlocks(used)|
    {
      n := 0;
      ghost var seen: set<int> := {};
      for i := 0 to |used|
        invariant seen == set j | 0 <= j < i && !used[j]
        invariant n == |seen|
      {
        if !used[i] {
          n := n + 1;
          seen := seen + {i};
        }
      }
    }
  }

  // ----- list.c -----

  ghost function ItemAt(q: seq<int>, i: int): int {
    if 0 <= i < |q| then q[i] else NONE
  }

  ghost predicate NextAt(next: seq<int>, q: seq<int>, i: nat)
    requires i < |q| && 0 <= q[i] < |next|
  {
    next[q[i]] == ItemAt(q, i + 1)
  }

  /** Following next from head visits exactly the blocks in q. */
  ghost predicate Chain(next: seq<int>, head: int, q: seq<int>) {
    && Distinct(q)
    && head == ItemAt(q, 0)
    && (forall i | 0 <= i < |q| :: 0 <= q[i] < |next|)
    && (forall i {:trigger NextAt(next, q, i)} | 0 <= i < |q| :: NextAt(next, q, i))
  }

  class List {
    /** The next field of every block of the pool; those off the list hold anything. */
    var next: seq<int>
    var head: int
    ghost var items: seq<int>

    ghost predicate Valid()
      reads this
    {
      Chain(next, head, items)
    }

    constructor (num: nat)
      ensures Valid() && items == [] && |next| == num
    {
      next := seq(num, _ => NONE);
      head := NONE;
      items := [];
    }

    /** list_item_next. */
    method ItemNext(item: int) returns (r: int)
      requires Valid() && (item == NONE || 0 <= item < |next|)
      ensures r == if item == NONE then NONE else next[item]
      ensures forall i | 0 <= i < |items| && items[i] == item :: r == ItemAt(items, i + 1)
    {
      r := if item == NONE then NONE else next[item];
      forall i | 0 <= i < |items| && items[i] == item
        ensures r == ItemAt(items, i + 1)
      {
        assert NextAt(next, items, i);
      }
    }

    /** list_tail. */
    method Tail() returns (l: int)
      requires Valid()
      ensures l == ItemAt(items, |items| - 1)
    {
      if head == NONE {
        return NONE;
      }
      l := head;
      ghost var i := 0;
      assert NextAt(next, items, 0);
      while next[l] != NONE
        invariant i < |items| && l == items[i]
        decreases |items| - i
      {
        assert NextAt(next, items, i);
        l := next[l];
        i := i + 1;
      }
      assert NextAt(next, items, i);
    }

    /** list_remove: no effect when the item is not on the list. */
    method Remove(item: int)
      requires Valid()
      modifies this
      ensures Valid() && items == Without(old(items), {item}) && |next| == |old(next)|
    {
      if head == NONE {
        return;
      }
      var r, l := NONE, head;
      ghost var i := 0;
      while l != NONE
        invariant i <= |items| && l == ItemAt(items, i) && r == ItemAt(items, i - 1)
        invariant item !in items[..i]
        invariant Valid() && items == old(items) && next == old(next)
        decreases |items| - i
      {
        assert NextAt(next, items, i);
        if l == item {
          ghost var q, n0, h0 := items, next, head;
          if r == NONE {
            head := next[l];
          } else {
            next := next[r := next[l]];
          }
          next := next[l := NONE];
          WithoutOne(items, i);
          items := items[..i] + items[i + 1..];
          UnlinkChain(n0, h0, q, i, next);
          return;
        }
        r := l;
        l := next[l];
        i := i + 1;
      }
      assert items[..i] == items;
      WithoutNone(items, {item});
    }

    /** list_add: the item moves to the end of the list, whether it was on it or not. */
    method Add(item: int)
      requires Valid() && 0 <= item < |next|
      modifies this
      ensures Valid() && items == Without(old(items), {item}) + [item] && |next| == |old(next)|
    {
      Remove(item);
      WithoutMembers(old(items), {item});
      ghost var q, n0, h0 := items, next, head;
      next := next[item := NONE];
      SameLinks(n0, h0, q, next);
      var l := Tail();
      if l == NONE {
        head := item;
      } else {
        next := next[l := item];
      }
      items := items + [item];
      AppendChain(n0, h0, q, item, next, head);
    }
  }

  lemma SameLinks(next: seq<int>, head: int, q: seq<int>, next': seq<int>)
    requires Chain(next, head, q) && |next'| == |next|
    requires forall x | x in q :: next'[x] == next[x]
    ensures Chain(next', head, q)
  {
    forall i | 0 <= i < |q|
      ensures NextAt(next', q, i)
    {
      assert NextAt(next, q, i);
    }
  }

  lemma UnlinkChain(next: seq<int>, head: int, q: seq<int>, k: nat, next': seq<int>)
    requires Chain(next, head, q) && k < |q| && |next'| == |next|
    requires k > 0 ==> next' == next[q[k - 1] := next[q[k]]][q[k] := NONE]
    requires k == 0 ==> next' == next[q[k] := NONE]
    ensures Chain(next', if k == 0 then next[q[0]] else head, q[..k] + q[k + 1..])
  {
    var r := q[..k] + q[k + 1..];
    assert NextAt(next, q, k);
    forall i | 0 <= i < |r|
      ensures NextAt(next', r, i)
    {
      var j := if i < k then i else i + 1;
      assert r[i] == q[j] && NextAt(next, q, j);
      assert i + 1 < |r| ==> r[i + 1] == q[if i + 1 < k then i + 1 else i + 2];
    }
  }

  lemma AppendChain(next: seq<int>, head: int, q: seq<int>, x: int, next': seq<int>, head': int)
    requires Chain(next, head, q) && 0 <= x < |next| && x !in q && |next'| == |next|
    requires q == [] ==> head' == x && next' == next[x := NONE]
    requires q != [] ==> head' == head && next' == next[x := NONE][q[|q| - 1] := x]
    ensures Chain(next', head', q + [x])
  {
    var r := q + [x];
    forall i | 0 <= i < |r|
      ensures NextAt(next', r, i)
    {
      if i < |q| {
        assert NextAt(next, q, i);
      }
    }
  }
}
