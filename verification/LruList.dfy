/** The doubly linked list inside lru_cache.h: links between pool items, and the order they stand for. */
module LruList {
  import opened Ids

  const NIL := -1

  /** A pool item; `next` and `prev` name pool items, or NIL. */
  datatype Item<T> = Item(obj: T, tick: nat, next: int, prev: int)

  /** A live item as the list's owner sees it. */
  datatype Entry<T> = Entry(id: nat, obj: T, tick: nat)

  function At(order: seq<nat>, i: int): int {
    if 0 <= i < |order| then order[i] else NIL
  }

  /** Item `order[i]` is linked to its neighbours in the order. */
  predicate LinkedAt<T>(pool: seq<Item<T>>, order: seq<nat>, i: int)
    requires 0 <= i < |order|
  {
    && order[i] < |pool|
    && pool[order[i]].prev == At(order, i - 1)
    && pool[order[i]].next == At(order, i + 1)
  }

  /** The links spell out `order`, from `first` to `last`. */
  ghost predicate Linked<T>(pool: seq<Item<T>>, first: int, last: int, order: seq<nat>) {
    && Distinct(order)
    && first == At(order, 0) && last == At(order, |order| - 1)
    && (forall i :: 0 <= i < |order| ==> LinkedAt(pool, order, i))
  }

  function Removed(order: seq<nat>, k: nat): seq<nat>
    requires k < |order|
  {
    order[..k] + order[k + 1..]
  }

  lemma RemovedAt(order: seq<nat>, k: nat, i: int)
    requires k < |order|
    ensures At(Removed(order, k), i) == (if i < k then At(order, i) else At(order, i + 1))
  {
  }

  lemma RemovedDistinct(order: seq<nat>, k: nat)
    requires k < |order| && Distinct(order)
    ensures Distinct(Removed(order, k)) && order[k] !in Removed(order, k)
  {
  }

  /** The pool after the two neighbours of `x` have been linked to each other. */
  function Bypassed<T>(pool: seq<Item<T>>, x: nat): (r: seq<Item<T>>)
    requires x < |pool| && pool[x].prev < |pool| && pool[x].next < |pool|
    ensures |r| == |pool|
  {
    var p, n := pool[x].prev, pool[x].next;
    var q := if p >= 0 then pool[p := pool[p].(next := n)] else pool;
    if n >= 0 then q[n := q[n].(prev := p)] else q
  }

  lemma NeighboursInPool<T>(pool: seq<Item<T>>, first: int, last: int, order: seq<nat>, k: nat)
    requires Linked(pool, first, last, order) && k < |order|
    ensures order[k] < |pool| && pool[order[k]].prev < |pool| && pool[order[k]].next < |pool|
  {
    assert LinkedAt(pool, order, k);
    assert k > 0 ==> LinkedAt(pool, order, k - 1);
    assert k + 1 < |order| ==> LinkedAt(pool, order, k + 1);
  }

  /** Bypassing one item takes it out of the order and leaves the rest as it was. */
  lemma BypassedLinked<T>(pool: seq<Item<T>>, first: int, last: int, order: seq<nat>, k: nat)
    requires Linked(pool, first, last, order) && k < |order|
    requires order[k] < |pool| && pool[order[k]].prev < |pool| && pool[order[k]].next < |pool|
    ensures
      var rest := Removed(order, k);
      Linked(Bypassed(pool, order[k]), At(rest, 0), At(rest, |order| - 2), rest)
  {
    RemovedDistinct(order, k);
    forall i | 0 <= i < |order| - 1
      ensures LinkedAt(Bypassed(pool, order[k]), Removed(order, k), i)
    {
      BypassedLinkedAt(pool, first, last, order, k, i);
    }
  }

  lemma BypassedLinkedAt<T>(pool: seq<Item<T>>, first: int, last: int, order: seq<nat>, k: nat, i: nat)
    requires Linked(pool, first, last, order) && k < |order| && i < |order| - 1
    requires order[k] < |pool| && pool[order[k]].prev < |pool| && pool[order[k]].next < |pool|
    ensures LinkedAt(Bypassed(pool, order[k]), Removed(order, k), i)
  {
    var j := if i < k then i else i + 1;
    RemovedAt(order, k, i);
    RemovedAt(order, k, i - 1);
    RemovedAt(order, k, i + 1);
    assert LinkedAt(pool, order, j) && LinkedAt(pool, order, k);
    BypassedItem(pool, order, k, j);
  }

  /** What bypassing does to the item at another position. */
  lemma BypassedItem<T>(pool: seq<Item<T>>, order: seq<nat>, k: nat, j: nat)
    requires Distinct(order) && k < |order| && j < |order| && j != k
    requires LinkedAt(pool, order, j) && LinkedAt(pool, order, k)
    requires pool[order[k]].prev < |pool| && pool[order[k]].next < |pool|
    ensures Bypassed(pool, order[k])[order[j]].prev == (if j == k + 1 then At(order, k - 1) else At(order, j - 1))
    ensures Bypassed(pool, order[k])[order[j]].next == (if j == k - 1 then At(order, k + 1) else At(order, j + 1))
  {
  }

  /** The pool after `x` has been linked behind `last`. */
  function Appended<T>(pool: seq<Item<T>>, last: int, x: nat): (r: seq<Item<T>>)
    requires x < |pool| && last < |pool|
    ensures |r| == |pool|
  {
    if last < 0 then pool
    else
      var q := pool[x := pool[x].(prev := last)];
      var r := q[last := q[last].(next := x)];
      r[x := r[x].(next := NIL)]
  }

  lemma AppendedLinked<T>(pool: seq<Item<T>>, first: int, last: int, order: seq<nat>, x: nat)
    requires Linked(pool, first, last, order) && x !in order && x < |pool| && last < |pool|
    requires order == [] ==> pool[x].prev == NIL && pool[x].next == NIL
    ensures Linked(Appended(pool, last, x), At(order + [x], 0), x, order + [x])
  {
    var now := order + [x];
    forall i | 0 <= i < |now| ensures LinkedAt(Appended(pool, last, x), now, i) {
      if i < |order| {
        assert LinkedAt(pool, order, i);
        assert order[i] in order;
      }
      assert i > 0 ==> LinkedAt(pool, order, i - 1);
    }
  }

  /** The live items in list order. */
  ghost function View<T>(pool: seq<Item<T>>, order: seq<nat>): (v: seq<Entry<T>>)
    requires forall i :: 0 <= i < |order| ==> order[i] < |pool|
    ensures |v| == |order|
  {
    seq(|order|, i requires 0 <= i < |order| => Entry(order[i], pool[order[i]].obj, pool[order[i]].tick))
  }
}
