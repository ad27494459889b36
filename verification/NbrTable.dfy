/**
 The neighbour tables of os/net/nbr-table.c with the default replacement policy: one pool of neighbours,
 shared by up to eight tables, that evicts the least used unlocked neighbour when it is full.
 */
module NbrTable {
  import opened Arithmetic
  import opened Bitmap
  import opened NbrState
  import opened Lists
  import opened ObjectPool
  import opened Options

  /** struct nbr_table. An item pointer is a byte offset into `data`, here kept item by item. */
  class Table {
    var index: int
    var hasCallback: bool
    const itemSize: Pos
    var data: seq<Item>

    /** The static initialiser of the NBR_TABLE macro. */
    constructor (itemSize: Pos)
      ensures index == 0 && !hasCallback && this.itemSize == itemSize
      ensures data == seq(MAX_NEIGHBORS, _ => Zeros(itemSize))
    {
      index := 0;
      hasCallback := false;
      this.itemSize := itemSize;
      data := seq(MAX_NEIGHBORS, _ => Zeros(itemSize));
    }
  }

  /** A cleared item. */
  function Zeros(size: nat): (z: Item)
    ensures |z| == size && forall i | 0 <= i < size :: z[i] == 0
  {
    seq(size, _ => 0)
  }

  // ----- pointers, slots and items -----

  /** item_from_index. */
  function ItemFromIndex(table: Table?, index: int): int {
    if table != null && index != -1 then index * table.itemSize else NONE
  }

  /** index_from_item. */
  function IndexFromItem(table: Table?, item: int): int {
    if table != null && item != NONE then item / table.itemSize else -1
  }

  /** Going from a slot to its item and back. */
  lemma ItemRoundTrip(table: Table, k: nat)
    ensures ItemFromIndex(table, k) >= 0
    ensures IndexFromItem(table, ItemFromIndex(table, k)) == k
  {
    MulGe(if k == 0 then 1 else k, table.itemSize);
    QuotientUnique(k * table.itemSize, table.itemSize, k, 0);
  }

  /** Distinct slots have distinct items. */
  lemma ItemsDistinct(table: Table, k: nat, l: nat)
    requires ItemFromIndex(table, k) == ItemFromIndex(table, l)
    ensures k == l
  {
    ItemRoundTrip(table, k);
    ItemRoundTrip(table, l);
  }

  /** The item, if there is one, has a bit in the maps. */
  ghost predicate Addresses(table: Table?, item: int)
    reads table
  {
    table != null && item != NONE ==>
      0 <= table.index < MAX_TABLES && 0 <= IndexFromItem(table, item) < MAX_NEIGHBORS
  }

  ghost function BitSets(m: seq<bv8>): seq<set<nat>> {
    seq(|m|, i requires 0 <= i < |m| => Bits(m[i]))
  }

  lemma BitSetsUpdate(m: seq<bv8>, k: nat, x: bv8)
    requires k < |m|
    ensures BitSets(m[k := x]) == BitSets(m)[k := Bits(x)]
  {
  }

  /** The tables that have a callback. */
  ghost function CallbacksOf(tables: seq<Table?>): set<nat>
    reads tables
  {
    set t: nat | t < |tables| && tables[t] != null && tables[t].hasCallback
  }

  class NbrTables {
    const list: List
    const pool: Memb
    /** The lladdr field of every key. */
    var lladdr: seq<Addr>
    var usedMap: seq<bv8>
    var lockedMap: seq<bv8>
    var allTables: seq<Table?>
    var numTables: nat
    /** The callbacks made so far: table number and slot. */
    ghost var calls: seq<(nat, int)>

    ghost function View(): Nbrs
      reads this, list
    {
      Nbrs(list.items, lladdr, BitSets(usedMap), BitSets(lockedMap))
    }

    ghost predicate TablesValid()
      reads this, allTables
    {
      && |allTables| == MAX_TABLES && numTables <= MAX_TABLES
      && (forall t | 0 <= t < numTables :: allTables[t] != null)
      && (forall t | numTables <= t < MAX_TABLES :: allTables[t] == null)
      && (forall t | 0 <= t < numTables :: allTables[t].index == t && |allTables[t].data| == MAX_NEIGHBORS)
    }

    ghost predicate Valid()
      reads this, list, pool, allTables
    {
      && list.Valid() && |list.next| == MAX_NEIGHBORS
      && |lladdr| == MAX_NEIGHBORS && |usedMap| == MAX_NEIGHBORS && |lockedMap| == MAX_NEIGHBORS
      && Inv(View()) && PoolMatches(View(), pool.used)
      && TablesValid()
    }

    /** nbr_table_is_registered. */
    predicate IsRegistered(table: Table?)
      reads this, table
    {
      table != null && 0 <= table.index < MAX_TABLES && table.index < |allTables| && allTables[table.index] == table
    }

    ghost function Callbacks(): set<nat>
      reads this, allTables
    {
      CallbacksOf(allTables)
    }

    constructor ()
      ensures Valid() && View().order == [] && numTables == 0 && calls == []
      ensures fresh(list) && fresh(pool)
    {
      list := new List(MAX_NEIGHBORS);
      pool := new Memb(MAX_NEIGHBORS);
      lladdr := seq(MAX_NEIGHBORS, _ => 0);
      usedMap := seq(MAX_NEIGHBORS, _ => 0);
      lockedMap := seq(MAX_NEIGHBORS, _ => 0);
      allTables := seq(MAX_TABLES, _ => null);
      numTables := 0;
      calls := [];
      new;
      NoBits(0);
    }

    /** nbr_table_register: at most eight tables; a table registered again only gets a new callback. */
    method Register(table: Table, callback: bool) returns (ok: int)
      requires Valid() && |table.data| == MAX_NEIGHBORS
      modifies this`allTables, this`numTables, table`index, table`hasCallback
      ensures Valid() && View() == old(View())
      ensures ok == 1 <==> old(IsRegistered(table)) || old(numTables) < MAX_TABLES
      ensures ok == 1 ==> IsRegistered(table) && table.hasCallback == callback
      ensures old(IsRegistered(table)) || ok != 1 ==> allTables == old(allTables) && numTables == old(numTables)
      ensures !old(IsRegistered(table)) && ok == 1 ==>
                allTables == old(allTables)[old(numTables) := table] && numTables == old(numTables) + 1
    {
      if IsRegistered(table) {
        table.hasCallback := callback;
        return 1;
      }
      if numTables < MAX_TABLES {
        assert table !in allTables[..numTables];
        table.index := numTables;
        numTables := numTables + 1;
        table.hasCallback := callback;
        allTables := allTables[table.index := table];
        return 1;
      }
      return 0;
    }

    // ----- the bitmaps -----

    /** nbr_get_bit on the used map. */
    predicate UsedBit(table: Table?, item: int)
      reads this, table
      requires |usedMap| == MAX_NEIGHBORS
      requires Addresses(table, item)
    {
      table != null && item != NONE && Bit(usedMap[IndexFromItem(table, item)], table.index)
    }

    /** nbr_set_bit on the used map. */
    method SetUsed(table: Table?, item: int, value: bool) returns (r: int)
      requires |usedMap| == MAX_NEIGHBORS
      requires Addresses(table, item)
      modifies this`usedMap
      ensures |usedMap| == MAX_NEIGHBORS
      ensures r == if table != null && item != NONE then 1 else 0
      ensures r == 0 ==> usedMap == old(usedMap)
      ensures r == 1 ==> var k := IndexFromItem(table, item); var s := old(BitSets(usedMap));
                         BitSets(usedMap) == s[k := if value then s[k] + {table.index} else s[k] - {table.index}]
    {
      var k := IndexFromItem(table, item);
      if table != null && k != -1 {
        var x := ChangeBit(usedMap[k], table.index, value);
        BitSetsUpdate(usedMap, k, x);
        usedMap := usedMap[k := x];
        return 1;
      }
      return 0;
    }

    /** nbr_set_bit on the locked map. */
    method SetLocked(table: Table?, item: int, value: bool) returns (r: int)
      requires |lockedMap| == MAX_NEIGHBORS
      requires Addresses(table, item)
      modifies this`lockedMap
      ensures |lockedMap| == MAX_NEIGHBORS
      ensures r == if table != null && item != NONE then 1 else 0
      ensures r == 0 ==> lockedMap == old(lockedMap)
      ensures r == 1 ==> var k := IndexFromItem(table, item); var s := old(BitSets(lockedMap));
                         BitSets(lockedMap) == s[k := if value then s[k] + {table.index} else s[k] - {table.index}]
    {
      var k := IndexFromItem(table, item);
      if table != null && k != -1 {
        var x := ChangeBit(lockedMap[k], table.index, value);
        BitSetsUpdate(lockedMap, k, x);
        lockedMap := lockedMap[k := x];
        return 1;
      }
      return 0;
    }

    // ----- lookup -----

    /** index_from_lladdr; None stands for a NULL address. */
    method IndexFromLladdr(address: Option<Addr>) returns (r: int)
      requires Valid()
      ensures r == IndexOf(View(), AddrOrNull(address))
    {
      var a := AddrOrNull(address);
      var key := list.head;
      ghost var i := 0;
      ghost var n := View();
      while key != NONE
        invariant i <= |n.order| && key == ItemAt(n.order, i)
        invariant Slots(n.order[i..]) && FindIn(n.order[i..], lladdr, a) == IndexOf(n, a)
        decreases |n.order| - i
      {
        assert NextAt(list.next, n.order, i);
        if a == lladdr[key] {
          return key;
        }
        assert n.order[i..][1..] == n.order[i + 1..];
        key := list.ItemNext(key);
        i := i + 1;
      }
      return -1;
    }

    /** nbr_table_get_from_lladdr. */
    method GetFromLladdr(table: Table?, address: Option<Addr>) returns (item: int)
      requires Valid() && (table == null || IsRegistered(table))
      ensures table == null ==> item == NONE
      ensures table != null ==>
                var found := Lookup(View(), table.index, table.data, AddrOrNull(address));
                && (item == NONE <==> found == None)
                && (item != NONE ==> IndexFromItem(table, item) == IndexOf(View(), AddrOrNull(address)) >= 0
                                     && found == Some(table.data[IndexFromItem(table, item)]))
    {
      var k := IndexFromLladdr(address);
      item := ItemFromIndex(table, k);
      if table != null && k != -1 {
        ItemRoundTrip(table, k);
      }
      if !UsedBit(table, item) {
        item := NONE;
      }
    }

    // ----- choosing a neighbour to evict -----

    /** used_count. */
    method UsedCount(a: Addr) returns (count: nat)
      requires Valid()
      ensures count == UsesOf(View(), a)
    {
      var k := IndexFromLladdr(Some(a));
      count := 0;
      if k != -1 {
        count := CountBits(usedMap[k]);
      }
    }

    /** nbr_table_gc_get_worst. */
    method GcGetWorst(a: Addr, b: Addr) returns (worst: Addr)
      requires Valid()
      ensures worst == if UsesOf(View(), b) < UsesOf(View(), a) then b else a
    {
      var ub := UsedCount(b);
      var ua := UsedCount(a);
      worst := if ub < ua then b else a;
    }

    /** select_for_removal, with a policy that accepts every newcomer. */
    method SelectForRemoval() returns (worst: Option<Addr>, ghost w: nat)
      requires Valid()
      ensures worst == None <==> AllLocked(View(), |View().order|)
      ensures worst != None ==> w < |View().order| && WorstAt(View(), |View().order|, w)
                                && worst == Some(lladdr[View().order[w]])
    {
      worst, w := None, 0;
      ghost var n := View();
      var key := list.head;
      ghost var i := 0;
      while key != NONE
        invariant i <= |n.order| && key == ItemAt(n.order, i)
        invariant worst == None <==> AllLocked(n, i)
        invariant worst != None ==> w < i && WorstAt(n, i, w) && worst == Some(lladdr[n.order[w]])
        decreases |n.order| - i
      {
        assert NextAt(list.next, n.order, i);
        worst, w := Consider(key, worst, w, i);
        key := list.ItemNext(key);
        i := i + 1;
      }
    }

    /** One turn of the loop of select_for_removal, for the neighbour at list position i. */
    method Consider(key: int, worst: Option<Addr>, ghost w: nat, ghost i: nat)
      returns (worst': Option<Addr>, ghost w': nat)
      requires Valid() && i < |list.items| && key == list.items[i]
      requires worst == None <==> AllLocked(View(), i)
      requires worst != None ==> w < i && WorstAt(View(), i, w) && worst == Some(lladdr[View().order[w]])
      ensures worst' == None <==> AllLocked(View(), i + 1)
      ensures worst' != None ==> w' < i + 1 && WorstAt(View(), i + 1, w') && worst' == Some(lladdr[View().order[w']])
    {
      worst', w' := worst, w;
      NoBits(lockedMap[key]);
      assert Unlocked(View(), i) <==> lockedMap[key] == 0;
      if worst != None {
        WorstNext(View(), i, w);
      }
      if lockedMap[key] == 0 {
        if worst == None {
          worst', w' := Some(lladdr[key]), i;
        } else {
          UsesOfListed(View(), w);
          UsesOfListed(View(), i);
          var chosen := GcGetWorst(worst.value, lladdr[key]);
          worst' := Some(chosen);
          w' := if Uses(View(), i) < Uses(View(), w) then i else w;
        }
      }
    }

    /** entry_is_allowed. The newcomer is allowed, and None names nobody to evict, unless the pool is full. */
    method EntryIsAllowed(table: Table, address: Addr) returns (ok: bool, victim: Option<Addr>, ghost w: nat)
      requires Valid() && IsRegistered(table)
      ensures victim == None || Evicts(View(), address, w, victim.value)
      ensures victim != None <==> IndexOf(View(), address) == NONE && FreeBlocks(pool.used) == {} && ok
      ensures ok <==>
                IndexOf(View(), address) != NONE || FreeBlocks(pool.used) != {} || !AllLocked(View(), |View().order|)
    {
      w := 0;
      var item := GetFromLladdr(table, Some(address));
      if item != NONE {
        return true, None, 0;
      }
      var k := IndexFromLladdr(Some(address));
      var room := pool.NumFree();
      if k != -1 || room > 0 {
        return true, None, 0;
      }
      victim, w := SelectForRemoval();
      ok := victim != None;
    }

    ghost predicate Evicts(n: Nbrs, newcomer: Addr, w: nat, victim: Addr) {
      Sized(n) && w < |n.order| && WorstAt(n, |n.order|, w) && victim == n.addr[n.order[w]]
    }

    // ----- eviction and allocation -----

    /** The callbacks of remove_key. */
    method NotifyTables(key: int)
      requires Valid() && key in list.items
      modifies this`calls
      ensures calls == old(calls) + Calls(old(Callbacks()), old(View()).used[key], key, MAX_TABLES)
    {
      ghost var n, c0, cb := View(), calls, Callbacks();
      for i := 0 to MAX_TABLES
        invariant calls == c0 + Calls(cb, n.used[key], key, i)
      {
        if allTables[i] != null && allTables[i].hasCallback {
          ItemRoundTrip(allTables[i], key);
          var removed := ItemFromIndex(allTables[i], key);
          if UsedBit(allTables[i], removed) {
            calls := calls + [(i, IndexFromItem(allTables[i], removed))];
          }
        }
      }
    }

    /** remove_key: tells every table that uses the neighbour, then forgets it. */
    method RemoveKey(key: int, doFree: bool)
      requires Valid() && key in list.items
      modifies this`usedMap, this`lockedMap, this`calls, list, pool
      ensures 0 <= key < MAX_NEIGHBORS && View() == Evict(old(View()), key)
      ensures calls == old(calls) + Calls(old(Callbacks()), old(View()).used[key], key, MAX_TABLES)
      ensures pool.used == if doFree then old(pool.used)[key := false] else old(pool.used)
      ensures list.Valid() && |list.next| == MAX_NEIGHBORS
      ensures |usedMap| == MAX_NEIGHBORS && |lockedMap| == MAX_NEIGHBORS
    {
      NotifyTables(key);
      BitSetsUpdate(usedMap, key, 0);
      BitSetsUpdate(lockedMap, key, 0);
      NoBits(0);
      usedMap := usedMap[key := 0];
      lockedMap := lockedMap[key := 0];
      list.Remove(key);
      if doFree {
        var _ := pool.Free(key);
      }
    }

    /** nbr_table_allocate: a free slot if there is one, else the slot of the evicted neighbour. */
    method Allocate(victim: Option<Addr>) returns (key: int)
      requires Valid()
      requires FreeBlocks(pool.used) == {} && victim != None ==> IndexOf(View(), victim.value) != NONE
      modifies this`usedMap, this`lockedMap, this`calls, list, pool
      ensures list.Valid() && |list.next| == MAX_NEIGHBORS
      ensures |usedMap| == MAX_NEIGHBORS && |lockedMap| == MAX_NEIGHBORS
      ensures old(FreeBlocks(pool.used)) != {} ==>
                && key in old(FreeBlocks(pool.used)) && pool.used == old(pool.used)[key := true]
                && (forall i | 0 <= i < key :: i !in old(FreeBlocks(pool.used)))
                && View() == old(View()) && calls == old(calls)
      ensures old(FreeBlocks(pool.used)) == {} ==> pool.used == old(pool.used)
      ensures old(FreeBlocks(pool.used)) == {} && victim == None ==>
                key == NONE && View() == old(View()) && calls == old(calls)
      ensures old(FreeBlocks(pool.used)) == {} && victim != None ==>
                && key == IndexOf(old(View()), victim.value) && View() == Evict(old(View()), key)
                && calls == old(calls) + Calls(old(Callbacks()), old(View()).used[key], key, MAX_TABLES)
    {
      key := pool.Alloc();
      if key == NONE {
        if victim == None {
          return;
        }
        key := IndexFromLladdr(victim);
        if key == NONE {
          return;
        }
        IndexOfExact(View(), victim.value);
        RemoveKey(key, false);
      }
    }

    // ----- adding -----

    /** A new key joins the list under address a. */
    method AddKey(key: int, a: Addr)
      requires list.Valid() && |list.next| == MAX_NEIGHBORS && |lladdr| == MAX_NEIGHBORS && Sized(View())
      requires 0 <= key < MAX_NEIGHBORS && key !in list.items
      modifies this`lladdr, list
      ensures list.Valid() && |list.next| == MAX_NEIGHBORS && |lladdr| == MAX_NEIGHBORS
      ensures View() == Enter(old(View()), key, a)
    {
      WithoutNone(list.items, {key});
      list.Add(key);
      lladdr := lladdr[key := a];
    }

    /** The end of nbr_table_add_lladdr: the item is cleared and its used bit set. */
    method UseSlot(table: Table, k: int) returns (item: int)
      requires Valid() && IsRegistered(table) && 0 <= k < MAX_NEIGHBORS && k in list.items
      modifies this`usedMap, table`data
      ensures Valid() && View() == MarkUsed(old(View()), k, table.index)
      ensures table.data == old(table.data)[k := Zeros(table.itemSize)]
      ensures item == ItemFromIndex(table, k) && item != NONE && IndexFromItem(table, item) == k
    {
      ItemRoundTrip(table, k);
      MarkInv(View(), k, table.index);
      item := ItemFromIndex(table, k);
      table.data := table.data[k := Zeros(table.itemSize)];
      var _ := SetUsed(table, item, true);
    }

    /** nbr_table_add_lladdr. The ghost result w is the list position of the evicted neighbour, if any. */
    method AddLladdr(table: Table?, address: Option<Addr>) returns (item: int, ghost w: nat)
      requires Valid() && (table == null || IsRegistered(table))
      modifies this`usedMap, this`lockedMap, this`lladdr, this`calls, list, pool
      modifies if table == null then {} else {table}`data
      ensures Valid()
      ensures item == NONE <==> table == null || NoRoom(old(View()), old(FreeBlocks(pool.used)), AddrOrNull(address))
      ensures item == NONE ==> View() == old(View()) && calls == old(calls) && pool.used == old(pool.used)
      ensures item == NONE && table != null ==> table.data == old(table.data)
      ensures item != NONE ==> 0 <= IndexFromItem(table, item) < |old(table.data)|
      ensures item != NONE ==> table.data == old(table.data)[IndexFromItem(table, item) := Zeros(table.itemSize)]
      ensures item != NONE ==> |calls| >= |old(calls)| && calls[..|old(calls)|] == old(calls)
      ensures item != NONE ==>
                AddEffect(old(View()), View(), old(FreeBlocks(pool.used)), AddrOrNull(address), table.index,
                          IndexFromItem(table, item), w, old(Callbacks()), calls[|old(calls)|..])
    {
      if table == null {
        return NONE, 0;
      }
      item, w := AddTo(table, AddrOrNull(address));
    }

    method AddTo(table: Table, a: Addr) returns (item: int, ghost w: nat)
      requires Valid() && IsRegistered(table)
      modifies this`usedMap, this`lockedMap, this`lladdr, this`calls, list, pool, table`data
      ensures Valid()
      ensures item == NONE <==> NoRoom(old(View()), old(FreeBlocks(pool.used)), a)
      ensures item == NONE ==> View() == old(View()) && calls == old(calls) && pool.used == old(pool.used)
                               && table.data == old(table.data)
      ensures item != NONE ==> 0 <= IndexFromItem(table, item) < |old(table.data)|
      ensures item != NONE ==> table.data == old(table.data)[IndexFromItem(table, item) := Zeros(table.itemSize)]
      ensures item != NONE ==> |calls| >= |old(calls)| && calls[..|old(calls)|] == old(calls)
      ensures item != NONE ==> AddEffect(old(View()), View(), old(FreeBlocks(pool.used)), a, table.index,
                                         IndexFromItem(table, item), w, old(Callbacks()), calls[|old(calls)|..])
    {
      var ok, victim;
      ok, victim, w := EntryIsAllowed(table, a);
      if !ok {
        return NONE, w;
      }
      var k := SlotFor(a, victim, w);
      item := UseSlot(table, k);
    }

    /** The slot of the address, found or made. */
    method SlotFor(a: Addr, victim: Option<Addr>, ghost w: nat) returns (k: int)
      requires Valid()
      requires IndexOf(View(), a) == NONE && FreeBlocks(pool.used) == {} ==>
                 victim != None && Evicts(View(), a, w, victim.value)
      modifies this`usedMap, this`lockedMap, this`lladdr, this`calls, list, pool
      ensures Valid() && AddSlot(old(View()), old(FreeBlocks(pool.used)), a, k, w) && k in list.items
      ensures View() == Keyed(old(View()), old(FreeBlocks(pool.used)) != {}, a, k)
      ensures calls == old(calls) + if IndexOf(old(View()), a) == NONE && old(FreeBlocks(pool.used)) == {}
                                    then Calls(old(Callbacks()), old(View()).used[k], k, MAX_TABLES) else []
    {
      k := IndexFromLladdr(Some(a));
      if k == -1 {
        k := MakeRoom(a, victim, w);
      } else {
        IndexOfExact(View(), a);
      }
    }

    /** The branch of nbr_table_add_lladdr for an address that is not in the pool yet. */
    method MakeRoom(a: Addr, victim: Option<Addr>, ghost w: nat) returns (key: int)
      requires Valid() && IndexOf(View(), a) == NONE
      requires FreeBlocks(pool.used) == {} ==> victim != None && Evicts(View(), a, w, victim.value)
      modifies this`usedMap, this`lockedMap, this`lladdr, this`calls, list, pool
      ensures Valid() && AddSlot(old(View()), old(FreeBlocks(pool.used)), a, key, w) && key in list.items
      ensures var n, room := old(View()), old(FreeBlocks(pool.used)) != {};
              && View() == Enter(if room then n else EvictedFrom(n, key), key, a)
              && calls == old(calls) + if room then [] else Calls(old(Callbacks()), n.used[key], key, MAX_TABLES)
    {
      ghost var n, taken := View(), pool.used;
      if FreeBlocks(taken) == {} {
        IndexOfExact(n, victim.value);
        EvictLookup(n, n.order[w], 0, seq(MAX_NEIGHBORS, _ => []), a);
        EvictInv(n, n.order[w]);
      }
      key := Allocate(victim);
      ghost var m := if FreeBlocks(taken) == {} then EvictedFrom(n, key) else n;
      EnterInv(m, key, a);
      AddKey(key, a);
      StillMatches(n, m, taken, pool.used, key, a);
    }

    lemma StillMatches(n: Nbrs, m: Nbrs, taken: seq<bool>, taken': seq<bool>, k: int, a: Addr)
      requires Inv(n) && PoolMatches(n, taken) && Inv(m) && 0 <= k < MAX_NEIGHBORS && k !in m.order
      requires if FreeBlocks(taken) == {} then m == EvictedFrom(n, k) && k in n.order && taken' == taken
               else m == n && taken' == taken[k := true]
      ensures PoolMatches(Enter(m, k, a), taken')
    {
      WithoutMembers(n.order, {k});
    }

    // ----- removing and locking -----

    /** A pointer to an item of the table, whether or not the neighbour is still listed, or NULL. */
    ghost predicate Points(table: Table?, item: int)
      reads this, table
    {
      table != null && item != NONE ==> IsRegistered(table) && 0 <= IndexFromItem(table, item) < MAX_NEIGHBORS
    }

    /** nbr_table_remove. */
    method Remove(table: Table?, item: int) returns (r: int)
      requires Valid() && Points(table, item)
      modifies this`usedMap, this`lockedMap
      ensures Valid() && r == if table != null && item != NONE then 1 else 0
      ensures View() == if r == 1 then Unmark(old(View()), IndexFromItem(table, item), table.index) else old(View())
      ensures r == 1 ==> var n, k := old(View()), IndexFromItem(table, item);
                         View() == n.(used := n.used[k := n.used[k] - {table.index}],
                                      locked := n.locked[k := n.locked[k] - {table.index}])
    {
      if table != null && item != NONE {
        UnmarkInv(View(), IndexFromItem(table, item), table.index);
      }
      r := SetUsed(table, item, false);
      var _ := SetLocked(table, item, false);
    }

    /** nbr_table_lock. After it, only listed slots are locked exactly if the slot is one (LockKeepsIff). */
    method Lock(table: Table?, item: int) returns (r: int)
      requires Valid() && Points(table, item)
      modifies this`lockedMap
      ensures Valid() && r == if table != null && item != NONE then 1 else 0
      ensures View() == if r == 1 then MarkLocked(old(View()), IndexFromItem(table, item), table.index) else old(View())
      ensures r == 1 ==> var n, k := old(View()), IndexFromItem(table, item);
                         View() == n.(locked := n.locked[k := n.locked[k] + {table.index}])
      ensures r == 1 && old(LocksListed(View())) ==>
                (LocksListed(View()) <==> IndexFromItem(table, item) in list.items)
    {
      if table != null && item != NONE && LocksListed(View()) {
        LockKeepsIff(View(), IndexFromItem(table, item), table.index);
      }
      r := SetLocked(table, item, true);
    }

    /** nbr_table_unlock. */
    method Unlock(table: Table?, item: int) returns (r: int)
      requires Valid() && Points(table, item)
      modifies this`lockedMap
      ensures Valid() && r == if table != null && item != NONE then 1 else 0
      ensures r == 1 ==> var n, k := old(View()), IndexFromItem(table, item);
                         View() == n.(locked := n.locked[k := n.locked[k] - {table.index}])
      ensures r != 1 ==> View() == old(View())
    {
      r := SetLocked(table, item, false);
    }

    /** nbr_table_clear. */
    method Clear()
      requires Valid()
      modifies this`usedMap, this`lockedMap, this`calls, list, pool
      ensures Valid() && View().order == [] && forall k | 0 <= k < |pool.used| :: !pool.used[k]
      ensures forall k | 0 <= k < MAX_NEIGHBORS ::
                View().locked[k] == if k in old(list.items) then {} else old(View()).locked[k]
      ensures calls == old(calls) + ClearCalls(old(View()).order, old(View()).used, old(Callbacks()))
    {
      ghost var cb := Callbacks();
      while list.head != NONE
        invariant Valid() && Callbacks() == cb && forall k | k in list.items :: k in old(list.items)
        invariant forall k | 0 <= k < MAX_NEIGHBORS ::
                    View().locked[k] == if k in old(list.items) && k !in list.items then {} else old(View()).locked[k]
        invariant calls + ClearCalls(View().order, View().used, cb)
               == old(calls) + ClearCalls(old(View()).order, old(View()).used, cb)
        decreases |list.items|
      {
        ClearOne();
      }
    }

    method ClearOne()
      requires Valid() && list.head != NONE
      modifies this`usedMap, this`lockedMap, this`calls, list, pool
      ensures Valid() && |list.items| < |old(list.items)|
      ensures var k := old(list.head); 0 <= k < MAX_NEIGHBORS && View().locked == old(View()).locked[k := {}]
                                       && forall l :: l in list.items <==> l in old(list.items) && l != k
      ensures Callbacks() == old(Callbacks())
      ensures calls + ClearCalls(View().order, View().used, Callbacks())
           == old(calls) + ClearCalls(old(View()).order, old(View()).used, old(Callbacks()))
    {
      ghost var m, k, c0, cb, taken := View(), list.head, calls, Callbacks(), pool.used;
      assert k == m.order[0];
      ClearCallsStep(m, cb);
      EvictInv(m, k);
      WithoutMembers(m.order, {k});
      RemoveKey(list.head, true);
      Associate(c0, Calls(cb, m.used[k], k, MAX_TABLES), ClearCalls(m.order[1..], Evict(m, k).used, cb));
    }

    lemma Associate(a: seq<(nat, int)>, x: seq<(nat, int)>, y: seq<(nat, int)>)
      ensures (a + x) + y == a + (x + y)
    {
    }

    // ----- enumeration -----

    /** nbr_table_next: from the neighbour at list position i to the table's next one, at position j. */
    method Next(table: Table, item: int, ghost i: nat) returns (r: int, ghost j: nat)
      requires Valid() && IsRegistered(table)
      requires item != NONE ==> i < |list.items| && item == ItemFromIndex(table, list.items[i])
      ensures item == NONE ==> r == NONE
      ensures item != NONE && r == NONE ==> SlotsFrom(View(), table.index, i + 1) == []
      ensures r != NONE ==> i < j < |list.items| && r == ItemFromIndex(table, list.items[j])
                            && table.index in View().used[list.items[j]]
                            && SlotsFrom(View(), table.index, i + 1) == SlotsFrom(View(), table.index, j)
    {
      r, j := item, i;
      ghost var n := View();
      if item == NONE {
        var key := list.ItemNext(IndexFromItem(table, r));
        r := ItemFromIndex(table, key);
        return;
      }
      while true
        invariant i <= j < |n.order| && r == ItemFromIndex(table, n.order[j])
        invariant j > i ==> table.index !in n.used[n.order[j]]
        invariant j > i ==> SlotsFrom(n, table.index, i + 1) == SlotsFrom(n, table.index, j)
        decreases |n.order| - j
      {
        ItemRoundTrip(table, n.order[j]);
        assert NextAt(list.next, n.order, j);
        var key := list.ItemNext(IndexFromItem(table, r));
        r := ItemFromIndex(table, key);
        j := j + 1;
        if key == NONE {
          return;
        }
        ItemRoundTrip(table, key);
        if UsedBit(table, r) {
          return;
        }
      }
    }

    /** nbr_table_head. */
    method Head(table: Table) returns (r: int, ghost j: nat)
      requires Valid() && IsRegistered(table)
      ensures r == NONE ==> SlotsFrom(View(), table.index, 0) == []
      ensures r != NONE ==> j < |list.items| && r == ItemFromIndex(table, list.items[j])
                            && table.index in View().used[list.items[j]]
                            && SlotsFrom(View(), table.index, 0) == SlotsFrom(View(), table.index, j)
    {
      var item := ItemFromIndex(table, list.head);
      if list.head != NONE {
        ItemRoundTrip(table, list.head);
      }
      if UsedBit(table, item) {
        r, j := item, 0;
      } else {
        r, j := Next(table, item, 0);
      }
    }

    /** A client that walks a table with head and next, and removes some of the items on the way:
        it sees each item that was in the table once, in list order. */
    method Enumerate(table: Table, drop: set<int>) returns (visited: seq<int>)
      requires Valid() && IsRegistered(table)
      modifies this`usedMap, this`lockedMap
      ensures Valid() && visited == SlotsFrom(old(View()), table.index, 0)
      ensures Dropped(old(View()), View(), table.index, drop, visited)
    {
      visited := [];
      ghost var n, t := View(), table.index;
      var item;
      ghost var j;
      item, j := Head(table);
      while item != NONE
        invariant Valid() && IsRegistered(table) && table.index == t && Dropped(n, View(), t, drop, visited)
        invariant item != NONE ==> j < |n.order| && item == ItemFromIndex(table, n.order[j]) && t in n.used[n.order[j]]
        invariant item != NONE ==> Ahead(n, visited, j) && visited + SlotsFrom(n, t, j) == SlotsFrom(n, t, 0)
        invariant item == NONE ==> visited == SlotsFrom(n, t, 0)
        decreases if item == NONE then 0 else |n.order| - j
      {
        ghost var v0, j0 := visited, j;
        item, j, visited := VisitOne(table, drop, item, j, visited, n);
        assert SlotsFrom(n, t, j0) == [n.order[j0]] + SlotsFrom(n, t, j0 + 1);
        Regroup(v0, n.order[j0], SlotsFrom(n, t, j0 + 1));
      }
    }

    lemma Regroup(v: seq<int>, x: int, rest: seq<int>)
      ensures v + ([x] + rest) == (v + [x]) + rest
      ensures v + [x] + [] == v + [x]
    {
    }

    method VisitOne(table: Table, drop: set<int>, item: int, ghost j: nat, visited: seq<int>, ghost n: Nbrs)
      returns (item': int, ghost j': nat, visited': seq<int>)
      requires Valid() && IsRegistered(table) && Dropped(n, View(), table.index, drop, visited)
      requires item != NONE && j < |n.order| && item == ItemFromIndex(table, n.order[j]) && Ahead(n, visited, j)
      modifies this`usedMap, this`lockedMap
      ensures Valid() && visited' == visited + [n.order[j]]
      ensures Dropped(n, View(), table.index, drop, visited')
      ensures item' == NONE ==> SlotsFrom(n, table.index, j + 1) == []
      ensures item' != NONE ==> j < j' < |n.order|
                                && item' == ItemFromIndex(table, n.order[j']) && table.index in n.used[n.order[j']]
                                && SlotsFrom(n, table.index, j + 1) == SlotsFrom(n, table.index, j')
      ensures item' != NONE ==> Ahead(n, visited', j')
    {
      ghost var m := View();
      ItemRoundTrip(table, n.order[j]);
      var k := IndexFromItem(table, item);
      visited' := visited + [k];
      if k in drop {
        var _ := Remove(table, item);
      }
      DroppedOne(n, m, View(), table.index, drop, visited, j);
      item', j' := Next(table, item, j);
    }
  }

  /** A NULL address means linkaddr_null. */
  function AddrOrNull(address: Option<Addr>): Addr {
    if address == None then LINKADDR_NULL else address.value
  }

  // ----- locks that outlive their neighbour -----

  lemma FirstSlot(n: Nbrs, taken: seq<bool>, a: Addr)
    requires Inv(n) && PoolMatches(n, taken) && n.order == []
    ensures 0 in FreeBlocks(taken) && IndexOf(n, a) == NONE
    ensures forall k, w | AddSlot(n, FreeBlocks(taken), a, k, w) :: k == 0
  {
  }

  /** The first neighbour gets the first slot, and starts out with the locks that the slot has. */
  method AddFirst(tables: NbrTables, table: Table, a: Addr) returns (item: int)
    requires tables.Valid() && tables.IsRegistered(table) && tables.View().order == []
    modifies tables`usedMap, tables`lockedMap, tables`lladdr, tables`calls, tables.list, tables.pool, table`data
    ensures tables.Valid() && tables.View().order == [0] && tables.View().addr[0] == a
    ensures tables.View().locked[0] == old(tables.View()).locked[0]
    ensures item != NONE && IndexFromItem(table, item) == 0
  {
    ghost var n, taken := tables.View(), tables.pool.used;
    FirstSlot(n, taken, a);
    ghost var w;
    item, w := tables.AddLladdr(table, Some(a));
    NewcomerLocks(n, FreeBlocks(taken), a, table.index, 0, w);
  }

  /** A client that locks an item after nbr_table_clear, through the pointer that it still has: the neighbour with
      address b, which nobody has locked, gets the slot and cannot be evicted. */
  method StaleLock(tables: NbrTables, table: Table, a: Addr, b: Addr)
    requires tables.Valid() && tables.IsRegistered(table) && tables.View().order == []
    modifies tables`usedMap, tables`lockedMap, tables`lladdr, tables`calls, tables.list, tables.pool, table`data
    ensures tables.Valid() && tables.View().order == [0] && tables.View().addr[0] == b
    ensures AllLocked(tables.View(), 1)
  {
    var item := AddFirst(tables, table, a);
    tables.Clear();
    var _ := tables.Lock(table, item);
    var _ := AddFirst(tables, table, b);
  }
}
