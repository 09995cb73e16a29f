/** SlotVector of slot_vector.h: values at stable ids, a list of free ids and a bit per slot. */
module SlotVector {
  import opened Bits
  import opened Word64
  import opened BitWords
  import BitArray
  import opened Ids

  /** Slot `id` is in use. */
  predicate Stored(bits: seq<Word>, id: nat) {
    id < 64 * |bits| && View(bits)[id]
  }

  /** The free ids are the ids below the capacity that are not in use, each once. */
  ghost predicate FreeIs(free: seq<nat>, capacity: nat, bits: seq<Word>) {
    && Distinct(free)
    && (forall id: nat :: id in free <==> id < capacity && !Stored(bits, id))
  }

  ghost predicate Sized(capacity: nat, bits: seq<Word>) {
    && capacity <= 64 * |bits| < capacity + 64
    && (forall id: nat :: Stored(bits, id) ==> id < capacity)
  }

  /** ReadStorageBit: the word shifted down to the slot's bit. */
  method ReadStorageBit(bits: seq<Word>, id: nat) returns (r: bool)
    requires id < 64 * |bits|
    ensures r == Stored(bits, id)
  {
    var w, i := id / 64, id % 64;
    r := Shr(bits[w], i) % 2 != 0;
    BitShr(bits[w], i, 0);
    ViewAt(bits, w, i);
  }

  /** SetStorageBit and ResetStorageBit. */
  method WriteStorageBit(bits: seq<Word>, id: nat, v: bool) returns (now: seq<Word>)
    requires id < 64 * |bits|
    ensures |now| == |bits| && forall x: nat :: Stored(now, x) == if x == id then v else Stored(bits, x)
  {
    var w, i := id / 64, id % 64;
    now := bits[w := if v then OrWords(bits[w], BitMask(i)) else AndWords(bits[w], Not(BitMask(i)))];
    BitArray.OnePainted(bits, now, w, i, id, v);
  }

  /** Zero words behind the others add no slot in use. */
  lemma {:induction false} ViewGrown(bits: seq<Word>, n: nat)
    ensures forall x: nat :: Stored(bits + seq(n, _ => 0), x) == Stored(bits, x)
  {
    var more: seq<Word> := seq(n, _ => 0);
    var now := bits + more;
    forall x: nat ensures Stored(now, x) == Stored(bits, x) {
      if x < 64 * |now| {
        ViewIndex(now, x);
        if x < 64 * |bits| {
          ViewIndex(bits, x);
        } else {
          ZeroBits(x % 64);
        }
      }
    }
  }

  /** Slots `index` to `index + n` in use have been moved over. */
  ghost predicate Moved<T>(word: nat, index: nat, n: nat, from: seq<T>, to: seq<T>) {
    forall b: nat :: b < n && Bit(word, b) ==>
      index + b < |from| && index + b < |to| && to[index + b] == from[index + b]
  }

  lemma MovedNext<T>(word: nat, index: nat, n: nat, from: seq<T>, was: seq<T>, to: seq<T>)
    requires Moved(word, index, n, from, was) && |to| == |was|
    requires Bit(word, n) ==> index + n < |from| && index + n < |was|
    requires to == if Bit(word, n) then was[index + n := from[index + n]] else was
    ensures Moved(word, index, n + 1, from, to)
  {
  }

  lemma NoBitsLeft(word: Word, bit: nat, i: nat)
    requires Shr(word, bit) == 0 && bit <= i
    ensures !Bit(word, i)
  {
    BitShr(word, bit, i - bit);
    ZeroBits(i - bit);
  }

  lemma ShrNext(word: nat, bit: nat)
    ensures Shr(word, bit + 1) == Shr(word, bit) / 2
    ensures Shr(word, bit) % 2 == 1 <==> Bit(word, bit)
  {
    BitShr(word, bit, 0);
    ShrOnce(word, bit);
  }

  lemma {:induction false} ShrOnce(word: nat, bit: nat)
    ensures Shr(word, bit + 1) == Shr(word, bit) / 2
    decreases bit
  {
    if bit > 0 { ShrOnce(word / 2, bit - 1); }
  }

  /** The inner loop of Reserve, over the bits of one word. */
  method MoveWord<T>(word: Word, index: nat, from: seq<T>, to: array<T>)
    requires |from| <= to.Length && forall b: nat :: Bit(word, b) ==> index + b < |from|
    modifies to
    ensures Moved(word, index, 64, from, to[..])
    ensures forall i :: 0 <= i < to.Length && i < index ==> to[i] == old(to[i])
  {
    var bit, bits: nat := 0, word;
    while bits != 0
      invariant bits == Shr(word, bit) && Moved(word, index, bit, from, to[..])
      invariant forall i :: 0 <= i < to.Length && i < index ==> to[i] == old(to[i])
      decreases bits
    {
      ghost var was := to[..];
      ShrNext(word, bit);
      if bits % 2 == 1 {
        to[index + bit] := from[index + bit];
      }
      assert to[..] == if bits % 2 == 1 then was[index + bit := from[index + bit]] else was;
      MovedNext(word, index, bit, from, was, to[..]);
      bit, bits := bit + 1, bits / 2;
    }
    forall b: nat | b < 64 && Bit(word, b)
      ensures index + b < |from| && index + b < to.Length && to[..][index + b] == from[index + b]
    {
      if b >= bit {
        NoBitsLeft(word, bit, b);
      }
    }
  }

  /** Every slot in use among the first `n` words has been moved over. */
  ghost predicate AllMoved<T>(bits: seq<Word>, n: nat, from: seq<T>, to: seq<T>) {
    forall x: nat :: x < 64 * n && Stored(bits, x) ==> x < |from| && x < |to| && to[x] == from[x]
  }

  lemma MovedWord<T>(bits: seq<Word>, n: nat, from: seq<T>, was: seq<T>, to: seq<T>)
    requires n < |bits| && |was| == |to| && AllMoved(bits, n, from, was) && Moved(bits[n], 64 * n, 64, from, to)
    requires forall i :: 0 <= i < |to| && i < 64 * n ==> to[i] == was[i]
    ensures AllMoved(bits, n + 1, from, to)
  {
    forall x: nat | 64 * n <= x < 64 * n + 64 && Stored(bits, x) ensures x < |from| && x < |to| && to[x] == from[x] {
      ViewAt(bits, n, x - 64 * n);
      assert Bit(bits[n], x - 64 * n);
    }
  }

  /** The outer loop of Reserve. */
  method MoveValues<T>(bits: seq<Word>, from: seq<T>, to: array<T>)
    requires |from| <= to.Length && forall x: nat :: Stored(bits, x) ==> x < |from|
    modifies to
    ensures AllMoved(bits, |bits|, from, to[..])
  {
    var index := 0;
    for n := 0 to |bits|
      invariant index == 64 * n && AllMoved(bits, n, from, to[..])
    {
      ghost var was := to[..];
      forall b: nat | Bit(bits[n], b) ensures index + b < |from| {
        SlotOfBit(bits, n, b);
      }
      MoveWord(bits[n], index, from, to);
      MovedWord(bits, n, from, was, to[..]);
      index := index + 64;
    }
  }

  lemma SlotOfBit(bits: seq<Word>, n: nat, b: nat)
    requires n < |bits| && Bit(bits[n], b)
    ensures Stored(bits, 64 * n + b)
  {
    if b >= 64 {
      BitBeyond(bits[n], b);
    }
    ViewAt(bits, n, b);
  }

  // The free list.

  /** hi - 1, hi - 2, ..., lo: what iota writes from the back. */
  function Descending(lo: nat, hi: nat): (s: seq<nat>)
    requires lo <= hi
    ensures |s| == hi - lo
    ensures forall i :: 0 <= i < |s| ==> s[i] == hi - 1 - i
  {
    seq(hi - lo, i requires 0 <= i < hi - lo => hi - 1 - i)
  }

  /** Growing adds the new ids to the free list. */
  lemma FreeGrown(free: seq<nat>, capacity: nat, bits: seq<Word>, larger: nat, now: seq<Word>)
    requires FreeIs(free, capacity, bits) && capacity <= larger
    requires forall x: nat :: Stored(now, x) == Stored(bits, x)
    requires forall x: nat :: Stored(bits, x) ==> x < capacity
    ensures FreeIs(free + Descending(capacity, larger), larger, now)
  {
    var more := Descending(capacity, larger);
    var all := free + more;
    forall x: nat ensures x in more <==> capacity <= x < larger {
      if capacity <= x < larger {
        assert more[larger - 1 - x] == x;
      }
    }
    forall i, j | 0 <= i < j < |all| ensures all[i] != all[j] {
      if i < |free| <= j {
        assert all[i] in free && all[j] in more;
      }
    }
  }

  /** Taking the last free id. */
  lemma FreeTaken(free: seq<nat>, capacity: nat, bits: seq<Word>, id: nat, now: seq<Word>)
    requires FreeIs(free, capacity, bits) && free != [] && id == free[|free| - 1]
    requires forall x: nat :: Stored(now, x) == if x == id then true else Stored(bits, x)
    ensures id < capacity && !Stored(bits, id) && FreeIs(free[..|free| - 1], capacity, now)
  {
    assert id in free;
    var rest := free[..|free| - 1];
    forall x: nat ensures x in rest <==> x < capacity && !Stored(now, x) {
      if x in free && x != id {
        var k :| 0 <= k < |free| && free[k] == x;
        assert rest[k] == x;
      }
      assert x in rest ==> x in free;
    }
  }

  lemma FreeReturned(free: seq<nat>, capacity: nat, bits: seq<Word>, id: nat, now: seq<Word>)
    requires FreeIs(free, capacity, bits) && Stored(bits, id) && id < capacity
    requires forall x: nat :: Stored(now, x) == if x == id then false else Stored(bits, x)
    ensures FreeIs(free + [id], capacity, now)
  {
    var all := free + [id];
    forall i, j | 0 <= i < j < |all| ensures all[i] != all[j] {
      if j == |free| {
        assert all[i] in free;
      }
    }
  }

  /** The slots in use below `n`, in order. */
  function LiveBelow(bits: seq<Word>, n: nat): seq<nat> {
    if n == 0 then [] else LiveBelow(bits, n - 1) + (if Stored(bits, n - 1) then [n - 1] else [])
  }

  lemma {:induction false} LiveBelowExact(bits: seq<Word>, n: nat)
    ensures forall x: nat :: x in LiveBelow(bits, n) <==> x < n && Stored(bits, x)
    ensures Rising(LiveBelow(bits, n))
  {
    if n > 0 {
      var before := LiveBelow(bits, n - 1);
      LiveBelowExact(bits, n - 1);
      forall i | 0 <= i < |before| ensures before[i] < n - 1 {
        assert before[i] in before;
      }
    }
  }

  predicate Rising(s: seq<nat>) {
    forall i, j :: 0 <= i < j < |s| ==> s[i] < s[j]
  }

  function Elements(s: seq<nat>): set<nat> {
    if s == [] then {} else Elements(s[..|s| - 1]) + {s[|s| - 1]}
  }

  lemma {:induction false} ElementsExact(s: seq<nat>)
    ensures forall x: nat :: x in Elements(s) <==> x in s
    ensures Distinct(s) ==> |Elements(s)| == |s|
  {
    if s != [] {
      var front, last := s[..|s| - 1], s[|s| - 1];
      ElementsExact(front);
      assert s == front + [last];
      if Distinct(s) {
        assert Distinct(front);
        assert last !in front;
      }
    }
  }

  function Below(n: nat): set<nat> {
    if n == 0 then {} else Below(n - 1) + {n - 1}
  }

  lemma {:induction false} BelowExact(n: nat)
    ensures |Below(n)| == n && forall x: nat :: x in Below(n) <==> x < n
  {
    if n > 0 { BelowExact(n - 1); }
  }

  /** Free and used slots together are all slots. */
  lemma Census(free: seq<nat>, capacity: nat, bits: seq<Word>)
    requires FreeIs(free, capacity, bits)
    ensures |free| + |LiveBelow(bits, capacity)| == capacity
    ensures |Elements(LiveBelow(bits, capacity))| == |LiveBelow(bits, capacity)|
  {
    var live := LiveBelow(bits, capacity);
    LiveBelowExact(bits, capacity);
    ElementsExact(free);
    ElementsExact(live);
    BelowExact(capacity);
    var idle, used := Elements(free), Elements(live);
    assert idle + used == Below(capacity) && idle * used == {};
  }

  class Slots<T> {
    var values: array<T>
    var capacity: nat
    var bits: seq<Word>
    var free: seq<nat>
    /** What a slot that was never written holds. */
    const blank: T

    ghost predicate Valid() reads this {
      && values.Length == capacity
      && Sized(capacity, bits)
      && FreeIs(free, capacity, bits)
    }

    /** The values at the ids in use. */
    ghost function Items(): map<nat, T>
      requires Valid()
      reads this, values
    {
      ItemsOf(capacity, bits, values[..])
    }

    constructor (initial: nat, blank: T)
      ensures Valid() && Items() == map[] && fresh(values) && capacity == initial
    {
      this.blank := blank;
      values := new T[0](_ => blank);
      capacity, bits, free := 0, [], [];
      new;
      Reserve(initial);
    }

    /** Larger storage: the values in use are moved, the new ids are free. */
    method Reserve(larger: nat)
      requires Valid() && capacity <= larger
      modifies this
      ensures Valid() && Items() == old(Items()) && capacity == larger && fresh(values)
      ensures free == old(free) + Descending(old(capacity), larger)
    {
      var to := new T[larger](_ => blank);
      MoveValues(bits, values[..], to);
      var more := (larger + 63) / 64 - |bits|;
      var now := bits + seq(more, _ => 0);
      ViewGrown(bits, more);
      FreeGrown(free, capacity, bits, larger, now);
      ItemsMoved(capacity, bits, values[..], larger, now, to[..]);
      free := free + Descending(capacity, larger);
      bits, values, capacity := now, to, larger;
    }

    /** The free id returned last, or, when there is none, the first id of storage twice as large. */
    method FreeValueIndex() returns (id: nat)
      requires Valid()
      modifies this
      ensures values == old(values) || fresh(values)
      ensures values.Length == capacity && Sized(capacity, bits) && id < capacity && !Stored(bits, id)
      ensures FreeIs(free + [id], capacity, bits)
      ensures ItemsOf(capacity, bits, values[..]) == old(Items())
      ensures old(free) != [] ==> capacity == old(capacity) && old(free) == free + [id]
      ensures old(free) == [] ==> id == old(capacity) && capacity == if id == 0 then 1 else 2 * id
      ensures old(free) == [] ==> free == Descending(id + 1, capacity)
    {
      if free == [] {
        Reserve(if capacity != 0 then 2 * capacity else 1);
      }
      id := free[|free| - 1];
      assert id in free;
      assert free == free[..|free| - 1] + [id];
      free := free[..|free| - 1];
    }

    method Insert(x: T) returns (id: nat)
      requires Valid()
      modifies this, values
      ensures Valid() && id !in old(Items()) && Items() == old(Items())[id := x]
      ensures values == old(values) || fresh(values)
      ensures old(free) != [] ==> capacity == old(capacity) && old(free) == free + [id]
      ensures old(free) == [] ==> id == old(capacity) && capacity == if id == 0 then 1 else 2 * id
      ensures old(free) == [] ==> free == Descending(id + 1, capacity)
    {
      id := FreeValueIndex();
      var now := WriteStorageBit(bits, id, true);
      assert (free + [id])[..|free + [id]| - 1] == free;
      FreeTaken(free + [id], capacity, bits, id, now);
      ItemsAdded(capacity, bits, values[..], id, x, now);
      Place(id, x, now);
    }

    /** Stores the value and the bitset. */
    method Place(id: nat, x: T, now: seq<Word>)
      requires id < values.Length
      modifies this`bits, values
      ensures bits == now && values[..] == old(values[..])[id := x]
    {
      values[id] := x;
      bits := now;
    }

    method Erase(id: nat)
      requires Valid() && id in Items()
      modifies this
      ensures Valid() && Items() == old(Items()) - {id} && values == old(values)
      ensures free == old(free) + [id] && capacity == old(capacity)
    {
      var now := WriteStorageBit(bits, id, false);
      FreeReturned(free, capacity, bits, id, now);
      free := free + [id];
      bits := now;
    }

    /** size: the number of values. */
    method Size() returns (n: nat)
      requires Valid()
      ensures n == |Items()|
    {
      Census(free, capacity, bits);
      LiveBelowExact(bits, capacity);
      ElementsExact(LiveBelow(bits, capacity));
      n := capacity - |free|;
      assert Items().Keys == Elements(LiveBelow(bits, capacity));
      assert |Items()| == |Items().Keys|;
    }

    /** begin, ++ and end: the ids in use, in order. */
    method Iterate() returns (ids: seq<nat>)
      requires Valid()
      ensures ids == LiveBelow(bits, capacity) && Rising(ids)
      ensures forall x :: x in ids <==> x in Items()
    {
      ids := LiveIds(bits, capacity);
      LiveBelowExact(bits, capacity);
    }
  }

  /** The walk from begin() to end(). */
  method LiveIds(bits: seq<Word>, capacity: nat) returns (ids: seq<nat>)
    requires capacity <= 64 * |bits|
    ensures ids == LiveBelow(bits, capacity)
  {
    ids := [];
    var slot := AdvanceToValid(bits, capacity, 0);
    while slot < capacity
      invariant slot <= capacity && ids == LiveBelow(bits, slot)
      invariant slot < capacity ==> Stored(bits, slot)
      decreases capacity - slot
    {
      ids := ids + [slot];
      slot := AdvanceToValid(bits, capacity, slot + 1);
    }
  }

  method AdvanceToValid(bits: seq<Word>, capacity: nat, from: nat) returns (slot: nat)
    requires from <= capacity <= 64 * |bits|
    ensures from <= slot <= capacity && (slot < capacity ==> Stored(bits, slot))
    ensures LiveBelow(bits, slot) == LiveBelow(bits, from)
  {
    slot := from;
    while slot < capacity
      invariant from <= slot <= capacity && LiveBelow(bits, slot) == LiveBelow(bits, from)
    {
      var live := ReadStorageBit(bits, slot);
      if live {
        return;
      }
      slot := slot + 1;
    }
  }

  ghost function ItemsOf<T>(capacity: nat, bits: seq<Word>, values: seq<T>): map<nat, T>
    requires |values| == capacity
  {
    map id: nat | 0 <= id < capacity && Stored(bits, id) :: values[id]
  }

  lemma ItemsMoved<T>(capacity: nat, bits: seq<Word>, values: seq<T>, larger: nat, now: seq<Word>, to: seq<T>)
    requires |values| == capacity <= larger == |to| && AllMoved(bits, |bits|, values, to)
    requires forall x: nat :: Stored(now, x) == Stored(bits, x)
    requires forall x: nat :: Stored(bits, x) ==> x < capacity
    ensures ItemsOf(larger, now, to) == ItemsOf(capacity, bits, values)
  {
  }

  lemma ItemsAdded<T>(capacity: nat, bits: seq<Word>, values: seq<T>, id: nat, x: T, now: seq<Word>)
    requires |values| == capacity && id < capacity && !Stored(bits, id) && Sized(capacity, bits) && |now| == |bits|
    requires forall i: nat :: Stored(now, i) == if i == id then true else Stored(bits, i)
    ensures id !in ItemsOf(capacity, bits, values) && Sized(capacity, now)
    ensures ItemsOf(capacity, now, values[id := x]) == ItemsOf(capacity, bits, values)[id := x]
  {
  }
}
