/** LeastRecentlyUsedCache of lru_cache.h: item pool, free ids and the intrusive list through the pool. */
module LruCache {
  import opened LruList
  import opened LruSpec
  import opened Ids

  /** Every pool id is either free or in the list, and none is free twice. */
  ghost predicate Accounted(n: nat, free: seq<nat>, order: seq<nat>) {
    && Distinct(free)
    && (forall i :: 0 <= i < |free| ==> free[i] < n && free[i] !in order)
    && (forall id: nat :: id < n && id !in order ==> id in free)
  }

  ghost predicate InPool(n: nat, order: seq<nat>) {
    forall i :: 0 <= i < |order| ==> order[i] < n
  }

  lemma LinkedInPool<T>(pool: seq<Item<T>>, first: int, last: int, order: seq<nat>)
    requires Linked(pool, first, last, order)
    ensures InPool(|pool|, order) && first < |pool| && last < |pool|
    ensures first >= 0 <==> order != []
    ensures last >= 0 <==> order != []
  {
    forall i | 0 <= i < |order| ensures order[i] < |pool| {
      assert LinkedAt(pool, order, i);
    }
  }

  /** Two pools that differ in links only. */
  ghost predicate SameContents<T>(p: seq<Item<T>>, q: seq<Item<T>>) {
    && |p| == |q|
    && (forall y :: 0 <= y < |p| ==> p[y].obj == q[y].obj && p[y].tick == q[y].tick)
  }

  lemma ViewSame<T>(p: seq<Item<T>>, q: seq<Item<T>>, order: seq<nat>)
    requires InPool(|p|, order) && SameContents(p, q)
    ensures View(p, order) == View(q, order)
  {
  }

  lemma ViewRemoved<T>(p: seq<Item<T>>, order: seq<nat>, k: nat)
    requires InPool(|p|, order) && Distinct(order) && k < |order|
    ensures InPool(|p|, Removed(order, k)) && View(p, Removed(order, k)) == Without(View(p, order), order[k])
  {
    WithoutAt(View(p, order), k);
  }

  lemma ViewAppended<T>(p: seq<Item<T>>, order: seq<nat>, x: nat)
    requires InPool(|p|, order) && x < |p|
    ensures InPool(|p|, order + [x]) && View(p, order + [x]) == View(p, order) + [Entry(x, p[x].obj, p[x].tick)]
  {
  }

  /** Changing or adding an item outside the list does not show. */
  lemma ViewOutside<T>(p: seq<Item<T>>, q: seq<Item<T>>, order: seq<nat>, x: nat)
    requires InPool(|p|, order) && x !in order && |p| <= |q|
    requires forall y :: 0 <= y < |p| && y != x ==> p[y] == q[y]
    ensures InPool(|q|, order) && View(p, order) == View(q, order)
    ensures forall first, last :: Linked(p, first, last, order) ==> Linked(q, first, last, order)
  {
    forall i | 0 <= i < |order| && LinkedAt(p, order, i) ensures LinkedAt(q, order, i) {
    }
  }

  lemma LiveInOrder<T>(p: seq<Item<T>>, order: seq<nat>, id: nat)
    requires InPool(|p|, order)
    ensures Live(View(p, order), id) <==> id in order
  {
    if id in order {
      var k :| 0 <= k < |order| && order[k] == id;
      assert View(p, order)[k].id == id;
    }
  }

  lemma PositionOf(order: seq<nat>, id: nat) returns (k: nat)
    requires id in order
    ensures k < |order| && order[k] == id
  {
    k :| 0 <= k < |order| && order[k] == id;
  }

  lemma AccountedTaken(n: nat, free: seq<nat>, order: seq<nat>, id: nat)
    requires Accounted(n, [id] + free, order)
    ensures Accounted(n, free, order + [id]) && id !in order && id < n
  {
    var all := [id] + free;
    assert all[0] == id;
    assert forall i :: 0 <= i < |free| ==> all[i + 1] == free[i];
  }

  lemma AccountedFreed(n: nat, free: seq<nat>, order: seq<nat>, k: nat)
    requires Accounted(n, free, order) && Distinct(order) && InPool(n, order) && k < |order|
    ensures Accounted(n, free + [order[k]], Removed(order, k))
  {
    var id, now := order[k], Removed(order, k);
    RemovedDistinct(order, k);
    assert forall i :: 0 <= i < |now| ==> now[i] in order;
    forall x: nat | x < n && x !in now ensures x in free + [id] {
      RemovedKeeps(order, k, x);
    }
  }

  lemma RemovedKeeps(order: seq<nat>, k: nat, x: nat)
    requires k < |order|
    ensures x in order ==> x == order[k] || x in Removed(order, k)
  {
    if x in order && x != order[k] {
      var j := PositionOf(order, x);
      assert Removed(order, k)[if j < k then j else j - 1] == x;
    }
  }

  lemma AccountedGrown(n: nat, order: seq<nat>)
    requires Accounted(n, [], order) && InPool(n, order)
    ensures Accounted(n + 1, [n], order)
  {
  }

  /** The links of a pool item lead to pool items, or nowhere. */
  predicate LinksIn<T>(pool: seq<Item<T>>, x: nat)
    requires x < |pool|
  {
    NIL <= pool[x].prev < |pool| && NIL <= pool[x].next < |pool|
  }

  /** Where the ends of the list are once the item at position `k` is bypassed. */
  lemma EndsMoved<T>(pool: seq<Item<T>>, first: int, last: int, order: seq<nat>, k: nat)
    requires Linked(pool, first, last, order) && k < |order|
    requires order[k] < |pool| && pool[order[k]].prev < |pool| && pool[order[k]].next < |pool|
    ensures LinksIn(pool, order[k])
    ensures At(Removed(order, k), 0) == if order[k] == first then pool[order[k]].next else first
    ensures At(Removed(order, k), |order| - 2) == if order[k] == last then pool[order[k]].prev else last
    ensures order[k] == first && pool[order[k]].next != NIL ==>
      Bypassed(pool, order[k])[pool[order[k]].next].prev == NIL
    ensures order[k] == last && pool[order[k]].prev != NIL ==>
      Bypassed(pool, order[k])[pool[order[k]].prev].next == NIL
  {
    assert LinkedAt(pool, order, k);
    RemovedAt(order, k, 0);
    RemovedAt(order, k, |order| - 2);
    assert order[k] == first <==> k == 0;
    assert order[k] == last <==> k == |order| - 1;
  }

  class Cache<T> {
    var itemPool: seq<Item<T>>
    var freeItems: seq<nat>
    var firstItem: int
    var lastItem: int
    /** The value an item holds before its first use. */
    const blank: T
    ghost var order: seq<nat>

    ghost predicate ListValid() reads this {
      Linked(itemPool, firstItem, lastItem, order) && InPool(|itemPool|, order)
    }

    ghost predicate Valid() reads this {
      ListValid() && Accounted(|itemPool|, freeItems, order)
    }

    ghost function Items(): seq<Entry<T>>
      requires ListValid()
      reads this
    {
      View(itemPool, order)
    }

    constructor (blank: T)
      ensures Valid() && Items() == []
    {
      itemPool, freeItems, order := [], [], [];
      firstItem, lastItem := NIL, NIL;
      this.blank := blank;
    }

    /** Takes the oldest free id, or a new one. */
    method Build() returns (id: nat)
      requires Valid()
      modifies this`itemPool, this`freeItems
      ensures ListValid() && Items() == old(Items())
      ensures id !in order && id < |itemPool| && Accounted(|itemPool|, [id] + freeItems, order)
      ensures itemPool[id].next == NIL && itemPool[id].prev == NIL
      ensures id == if old(freeItems) == [] then |old(itemPool)| else old(freeItems)[0]
    {
      if freeItems == [] {
        id := |itemPool|;
        ViewOutside(itemPool, itemPool + [Item(blank, 0, NIL, NIL)], order, id);
        AccountedGrown(|itemPool|, order);
        itemPool := itemPool + [Item(blank, 0, NIL, NIL)];
      } else {
        id := freeItems[0];
        assert freeItems == [id] + freeItems[1..];
        freeItems := freeItems[1..];
        ViewOutside(itemPool, itemPool[id := itemPool[id].(next := NIL, prev := NIL)], order, id);
        itemPool := itemPool[id := itemPool[id].(next := NIL, prev := NIL)];
      }
    }

    /** Links an item behind the last one. */
    method Attach(id: nat)
      requires ListValid() && id < |itemPool| && id !in order
      requires order == [] ==> itemPool[id].next == NIL && itemPool[id].prev == NIL
      modifies this`itemPool, this`firstItem, this`lastItem, this`order
      ensures ListValid() && order == old(order) + [id] && SameContents(itemPool, old(itemPool))
    {
      LinkedInPool(itemPool, firstItem, lastItem, order);
      AppendedLinked(itemPool, firstItem, lastItem, order, id);
      ghost var target := Appended(itemPool, lastItem, id);
      if firstItem == NIL {
        firstItem := id;
      }
      if lastItem == NIL {
        lastItem := id;
      } else {
        itemPool := itemPool[id := itemPool[id].(prev := lastItem)];
        itemPool := itemPool[lastItem := itemPool[lastItem].(next := id)];
        itemPool := itemPool[id := itemPool[id].(next := NIL)];
        lastItem := id;
      }
      order := order + [id];
      assert itemPool == target;
    }

    /** Links an item's two neighbours to each other. */
    method LinkNeighbours(id: nat)
      requires id < |itemPool| && LinksIn(itemPool, id)
      modifies this`itemPool
      ensures itemPool == Bypassed(old(itemPool), id)
    {
      var item := itemPool[id];
      if item.prev != NIL {
        itemPool := itemPool[item.prev := itemPool[item.prev].(next := item.next)];
      }
      if item.next != NIL {
        itemPool := itemPool[item.next := itemPool[item.next].(prev := item.prev)];
      }
    }

    /** Moves the ends of the list off an item; what it stores in the new end items is there already. */
    method MoveEnds(id: nat, prev: int, next: int)
      requires NIL <= prev < |itemPool| && NIL <= next < |itemPool|
      requires id == firstItem && next != NIL ==> itemPool[next].prev == NIL
      requires id == lastItem && prev != NIL ==> itemPool[prev].next == NIL
      modifies this`itemPool, this`firstItem, this`lastItem
      ensures itemPool == old(itemPool)
      ensures firstItem == if id == old(firstItem) then next else old(firstItem)
      ensures lastItem == if id == old(lastItem) then prev else old(lastItem)
    {
      if id == firstItem {
        firstItem := next;
        if firstItem != NIL {
          itemPool := itemPool[firstItem := itemPool[firstItem].(prev := NIL)];
        }
      }
      if id == lastItem {
        lastItem := prev;
        if lastItem != NIL {
          itemPool := itemPool[lastItem := itemPool[lastItem].(next := NIL)];
        }
      }
    }

    /** Takes an item out of the list. */
    method Detach(id: nat, ghost k: nat)
      requires ListValid() && k < |order| && order[k] == id
      modifies this`itemPool, this`firstItem, this`lastItem, this`order
      ensures ListValid() && order == Removed(old(order), k) && SameContents(itemPool, old(itemPool))
    {
      NeighboursInPool(itemPool, firstItem, lastItem, order, k);
      var item := itemPool[id];
      EndsMoved(itemPool, firstItem, lastItem, order, k);
      BypassedLinked(itemPool, firstItem, lastItem, order, k);
      LinkNeighbours(id);
      MoveEnds(id, item.prev, item.next);
      order := Removed(order, k);
      LinkedInPool(itemPool, firstItem, lastItem, order);
    }

    method Insert(obj: T, tick: nat) returns (id: nat)
      requires Valid()
      modifies this
      ensures Valid() && !Live(old(Items()), id)
      ensures Items() == Inserted(old(Items()), id, obj, tick)
      ensures id == if old(freeItems) == [] then |old(itemPool)| else old(freeItems)[0]
    {
      id := Build();
      LiveInOrder(itemPool, order, id);
      AccountedTaken(|itemPool|, freeItems, order, id);
      ViewOutside(itemPool, itemPool[id := itemPool[id].(obj := obj, tick := tick)], order, id);
      itemPool := itemPool[id := itemPool[id].(obj := obj, tick := tick)];
      ghost var pool := itemPool;
      ViewAppended(pool, order, id);
      Attach(id);
      ViewSame(pool, itemPool, order);
    }

    method Touch(id: nat, tick: nat)
      requires Valid() && Live(Items(), id)
      modifies this`itemPool, this`firstItem, this`lastItem, this`order
      ensures Valid() && Items() == Touched(old(Items()), id, tick)
    {
      LiveInOrder(itemPool, order, id);
      ghost var k := PositionOf(order, id);
      FindAt(Items(), k);
      if itemPool[id].tick >= tick {
        return;
      }
      TouchedView(itemPool, order, k, tick);
      TickOnly(itemPool, firstItem, lastItem, order, id, tick);
      itemPool := itemPool[id := itemPool[id].(tick := tick)];
      if id == lastItem {
        LastPosition(itemPool, firstItem, lastItem, order, k);
        return;
      }
      MoveToEnd(id, k);
    }

    /** Takes a live item that is not the last out of the list and puts it at the end. */
    method MoveToEnd(id: nat, ghost k: nat)
      requires Valid() && k < |order| && order[k] == id && id != lastItem
      modifies this`itemPool, this`firstItem, this`lastItem, this`order
      ensures Valid() && order == Removed(old(order), k) + [id]
      ensures Items() == View(old(itemPool), order)
    {
      ghost var was, before := itemPool, order;
      RemovedDistinct(before, k);
      AccountedMoved(|was|, freeItems, before, k);
      Detach(id, k);
      Attach(id);
      ViewSame(was, itemPool, order);
    }

    method Free(id: nat)
      requires Valid() && Live(Items(), id)
      modifies this
      ensures Valid() && Items() == Without(old(Items()), id)
      ensures freeItems == old(freeItems) + [id] && |itemPool| == |old(itemPool)|
    {
      LiveInOrder(itemPool, order, id);
      ghost var k := PositionOf(order, id);
      ghost var was, before := itemPool, order;
      ViewRemoved(was, order, k);
      AccountedFreed(|itemPool|, freeItems, order, k);
      Detach(id, k);
      RemovedDistinct(before, k);
      ViewSame(was, itemPool, order);
      ViewOutside(itemPool, itemPool[id := itemPool[id].(prev := NIL, next := NIL)], order, id);
      itemPool := itemPool[id := itemPool[id].(prev := NIL, next := NIL)];
      freeItems := freeItems + [id];
    }

    /** Whether the item the walk has come to is later than `tick`. */
    method Later(it: int, tick: nat, ghost spared: seq<Entry<T>>, ghost rest: seq<Entry<T>>) returns (later: bool)
      requires Valid() && rest != [] && Items() == spared + rest && it == rest[0].id
      requires tick < S64_LIMIT && rest[0].tick < S64_LIMIT
      ensures later <==> rest[0].tick > tick
    {
      AtIterator(itemPool, firstItem, lastItem, order, |spared|);
      assert Items()[|spared|] == rest[0];
      later := AsSigned(tick) - AsSigned(itemPool[it].tick) < 0;
    }

    /** One call of the callback: the item's successor is read before the item may be freed. */
    method Visit(it: int, frees: T -> bool, ghost spared: seq<Entry<T>>, ghost rest: seq<Entry<T>>)
      returns (obj: T, next: int)
      requires Valid() && rest != [] && Items() == spared + rest && it == rest[0].id
      modifies this
      ensures Valid() && next == IdAt(rest, 1) && obj == rest[0].obj
      ensures Items() == spared + (if frees(obj) then [] else [rest[0]]) + rest[1..]
    {
      AtIterator(itemPool, firstItem, lastItem, order, |spared|);
      assert Items()[|spared|] == rest[0];
      obj, next := itemPool[it].obj, itemPool[it].next;
      if frees(obj) {
        FreedHere(spared, rest);
        Free(it);
      }
    }

    /** Visits items from the oldest on until one is later than `tick`.  The callback may free the item
        it is given, as the texture cache's clean-up does; it frees the objects `frees` picks. */
    method ForEachItemBelow(tick: nat, frees: T -> bool) returns (visited: seq<T>)
      requires Valid() && tick < S64_LIMIT && NotAfter(Items(), S64_LIMIT - 1)
      modifies this
      ensures Valid()
      ensures visited == Objects(old(Items())[..Reach(old(Items()), tick)])
      ensures Items() ==
        Spared(frees, old(Items())[..Reach(old(Items()), tick)]) + old(Items())[Reach(old(Items()), tick)..]
    {
      ghost var v, n: nat := Items(), 0;
      visited := [];
      var it := firstItem;
      while it != NIL
        invariant Valid() && Walked(frees, v, tick, n, Items(), visited) && it == IdAt(v, n)
        decreases |v| - n
      {
        ghost var spared, rest := Spared(frees, v[..n]), v[n..];
        var later := Later(it, tick, spared, rest);
        if later {
          break;
        }
        var obj;
        obj, it := Visit(it, frees, spared, rest);
        visited := visited + [obj];
        WalkedNext(frees, v, tick, n, Items(), visited);
        n := n + 1;
      }
      ReachAt(v, tick, n);
    }
  }

  /** The state of a walk that has visited the first `n` entries of `v`. */
  ghost predicate Walked<T>(frees: T -> bool, v: seq<Entry<T>>, tick: nat, n: nat, now: seq<Entry<T>>,
                            visited: seq<T>)
  {
    && n <= |v| && NotAfter(v, S64_LIMIT - 1) && NotAfter(v[..n], tick)
    && now == Spared(frees, v[..n]) + v[n..]
    && visited == Objects(v[..n])
  }

  lemma WalkedNext<T>(frees: T -> bool, v: seq<Entry<T>>, tick: nat, n: nat, now: seq<Entry<T>>, visited: seq<T>)
    requires n < |v| && NotAfter(v, S64_LIMIT - 1) && NotAfter(v[..n], tick) && v[n].tick <= tick
    requires now == Spared(frees, v[..n]) + (if frees(v[n].obj) then [] else [v[n]]) + v[n..][1..]
    requires visited == Objects(v[..n]) + [v[n].obj]
    ensures Walked(frees, v, tick, n + 1, now, visited)
  {
    SparedNext(frees, v, n);
    assert v[n..][1..] == v[n + 1..];
    assert forall i :: 0 <= i < n ==> v[..n + 1][i] == v[..n][i];
  }

  lemma {:induction false} ReachAt<T>(v: seq<Entry<T>>, tick: nat, n: nat)
    requires n <= |v| && NotAfter(v[..n], tick) && (n < |v| ==> v[n].tick > tick)
    ensures Reach(v, tick) == n
  {
    assert forall i :: 0 <= i < n ==> v[i] == v[..n][i];
  }

  const S64_LIMIT := 0x8000_0000_0000_0000

  /** A 64-bit tick read as a signed number. */
  function AsSigned(t: nat): int {
    if t < S64_LIMIT then t else t - 2 * S64_LIMIT
  }

  /** What a step of the walk sees at the entry `w[m]` its iterator stands on. */
  lemma AtIterator<T>(pool: seq<Item<T>>, first: int, last: int, order: seq<nat>, m: nat)
    requires Linked(pool, first, last, order) && InPool(|pool|, order) && m < |order|
    ensures order[m] < |pool| && DistinctIds(View(pool, order)) && Live(View(pool, order), order[m])
    ensures View(pool, order)[m] == Entry(order[m], pool[order[m]].obj, pool[order[m]].tick)
    ensures pool[order[m]].next == IdAt(View(pool, order), m + 1)
  {
    assert LinkedAt(pool, order, m);
    LiveInOrder(pool, order, order[m]);
  }

  function IdAt<T>(v: seq<Entry<T>>, i: nat): int {
    if i < |v| then v[i].id else NIL
  }

  function Objects<T>(v: seq<Entry<T>>): seq<T> {
    seq(|v|, i requires 0 <= i < |v| => v[i].obj)
  }

  /** The entries left when the walk's callback frees those with objects that `frees` picks. */
  function Spared<T>(frees: T -> bool, v: seq<Entry<T>>): seq<Entry<T>> {
    Filter((e: Entry<T>) => !frees(e.obj), v)
  }

  lemma SparedNext<T>(frees: T -> bool, v: seq<Entry<T>>, n: nat)
    requires n < |v|
    ensures Spared(frees, v[..n + 1]) == Spared(frees, v[..n]) + (if frees(v[n].obj) then [] else [v[n]])
    ensures Objects(v[..n + 1]) == Objects(v[..n]) + [v[n].obj]
  {
    assert v[..n + 1] == v[..n] + [v[n]];
    FilterAppend((e: Entry<T>) => !frees(e.obj), v[..n], [v[n]]);
  }

  /** Freeing the visited entry leaves the entries spared before it and the ones after it. */
  lemma FreedHere<T>(a: seq<Entry<T>>, b: seq<Entry<T>>)
    requires b != [] && DistinctIds(a + b)
    ensures Without(a + b, b[0].id) == a + b[1..]
  {
    WithoutAt(a + b, |a|);
  }

  /** In a sorted list the walk visits exactly the entries at or below its bound, oldest first, and leaves
      exactly those that are above it or that the callback spares. */
  lemma WalkExact<T>(v: seq<Entry<T>>, tick: nat, frees: T -> bool)
    requires Sorted(v)
    ensures v[..Reach(v, tick)] == Below(v, tick)
    ensures Spared(frees, v[..Reach(v, tick)]) + v[Reach(v, tick)..]
         == Filter((e: Entry<T>) => !(e.tick <= tick && frees(e.obj)), v)
  {
    var n := Reach(v, tick);
    ReachIsBelow(v, tick);
    FilterSplit((e: Entry<T>) => !(e.tick <= tick && frees(e.obj)), (e: Entry<T>) => !frees(e.obj), v[..n], v[n..]);
    assert v == v[..n] + v[n..];
  }

  lemma FilterSplit<T>(f: Entry<T> -> bool, g: Entry<T> -> bool, a: seq<Entry<T>>, b: seq<Entry<T>>)
    requires (forall i :: 0 <= i < |a| ==> f(a[i]) == g(a[i])) && forall i :: 0 <= i < |b| ==> f(b[i])
    ensures Filter(f, a + b) == Filter(g, a) + b
  {
    assert Filter(f, a + b) == Filter(f, a) + Filter(f, b) by { FilterAppend(f, a, b); }
    assert Filter(f, a) == Filter(g, a) by { FilterAgree(f, g, a); }
    assert Filter(f, b) == b by { FilterAll(f, b); }
  }

  lemma {:induction false} FilterAgree<T>(f: Entry<T> -> bool, g: Entry<T> -> bool, v: seq<Entry<T>>)
    requires forall i :: 0 <= i < |v| ==> f(v[i]) == g(v[i])
    ensures Filter(f, v) == Filter(g, v)
  {
    if v != [] {
      FilterAgree(f, g, v[1..]);
    }
  }

  /** A new tick leaves the links alone. */
  lemma TickOnly<T>(p: seq<Item<T>>, first: int, last: int, order: seq<nat>, x: nat, tick: nat)
    requires Linked(p, first, last, order) && x < |p|
    ensures Linked(p[x := p[x].(tick := tick)], first, last, order)
  {
    var q := p[x := p[x].(tick := tick)];
    forall i | 0 <= i < |order| ensures LinkedAt(q, order, i) {
      assert LinkedAt(p, order, i);
    }
  }

  /** The last item is at the last position, so that moving it to the end is leaving it there. */
  lemma LastPosition<T>(p: seq<Item<T>>, first: int, last: int, order: seq<nat>, k: nat)
    requires Linked(p, first, last, order) && k < |order| && order[k] == last
    ensures Removed(order, k) + [order[k]] == order
  {
    assert k == |order| - 1;
  }

  lemma TouchedView<T>(p: seq<Item<T>>, order: seq<nat>, k: nat, tick: nat)
    requires InPool(|p|, order) && Distinct(order) && k < |order| && p[order[k]].tick < tick
    ensures Live(View(p, order), order[k])
    ensures
      var x := order[k];
      var q := p[x := p[x].(tick := tick)];
      InPool(|q|, Removed(order, k) + [x]) && View(q, Removed(order, k) + [x]) == Touched(View(p, order), x, tick)
  {
    var x := order[k];
    var q := p[x := p[x].(tick := tick)];
    LiveInOrder(p, order, x);
    FindAt(View(p, order), k);
    RemovedDistinct(order, k);
    ViewRemoved(p, order, k);
    ViewOutside(p, q, Removed(order, k), x);
    ViewAppended(q, Removed(order, k), x);
  }

  lemma AccountedMoved(n: nat, free: seq<nat>, order: seq<nat>, k: nat)
    requires Accounted(n, free, order) && k < |order|
    ensures Accounted(n, free, Removed(order, k) + [order[k]])
  {
    var now := Removed(order, k) + [order[k]];
    assert forall i :: 0 <= i < |now| ==> now[i] in order;
    forall x: nat | x in order ensures x in now {
      RemovedKeeps(order, k, x);
    }
  }
}
