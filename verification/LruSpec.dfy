/** What a least-recently-used list promises: live items in order of their last use. */
module LruSpec {
  import opened LruList

  predicate Live<T>(v: seq<Entry<T>>, id: nat) {
    exists i :: 0 <= i < |v| && v[i].id == id
  }

  predicate DistinctIds<T>(v: seq<Entry<T>>) {
    forall i, j :: 0 <= i < j < |v| ==> v[i].id != v[j].id
  }

  predicate Sorted<T>(v: seq<Entry<T>>) {
    forall i, j :: 0 <= i < j < |v| ==> v[i].tick <= v[j].tick
  }

  /** No tick is later than `now`. */
  predicate NotAfter<T>(v: seq<Entry<T>>, now: nat) {
    forall i :: 0 <= i < |v| ==> v[i].tick <= now
  }

  function Find<T>(v: seq<Entry<T>>, id: nat): (k: nat)
    requires Live(v, id)
    ensures k < |v| && v[k].id == id
  {
    if v[0].id == id then 0
    else
      assert Live(v[1..], id) by {
        var i :| 0 <= i < |v| && v[i].id == id;
        assert v[1..][i - 1].id == id;
      }
      1 + Find(v[1..], id)
  }

  lemma FindAt<T>(v: seq<Entry<T>>, k: nat)
    requires DistinctIds(v) && k < |v|
    ensures Live(v, v[k].id) && Find(v, v[k].id) == k
  {
  }

  /** The entries that `keep` accepts, in order. */
  function Filter<T>(keep: Entry<T> -> bool, v: seq<Entry<T>>): (r: seq<Entry<T>>)
    ensures |r| <= |v|
  {
    if v == [] then []
    else (if keep(v[0]) then [v[0]] else []) + Filter(keep, v[1..])
  }

  lemma {:induction false} FilterAppend<T>(keep: Entry<T> -> bool, a: seq<Entry<T>>, b: seq<Entry<T>>)
    ensures Filter(keep, a + b) == Filter(keep, a) + Filter(keep, b)
  {
    if a == [] {
      assert a + b == b;
    } else {
      var rest := a[1..];
      assert (a + b)[0] == a[0] && (a + b)[1..] == rest + b;
      FilterAppend(keep, rest, b);
      var head: seq<Entry<T>> := if keep(a[0]) then [a[0]] else [];
      AppendAssoc(head, Filter(keep, rest), Filter(keep, b));
    }
  }

  lemma AppendAssoc<T>(a: seq<T>, b: seq<T>, c: seq<T>)
    ensures (a + b) + c == a + (b + c)
  {
  }

  lemma {:induction false} FilterAll<T>(keep: Entry<T> -> bool, v: seq<Entry<T>>)
    requires forall i :: 0 <= i < |v| ==> keep(v[i])
    ensures Filter(keep, v) == v
  {
    if v != [] {
      FilterAll(keep, v[1..]);
    }
  }

  lemma {:induction false} FilterNone<T>(keep: Entry<T> -> bool, v: seq<Entry<T>>)
    requires forall i :: 0 <= i < |v| ==> !keep(v[i])
    ensures Filter(keep, v) == []
  {
    if v != [] {
      FilterNone(keep, v[1..]);
    }
  }

  lemma FilterCut<T>(keep: Entry<T> -> bool, a: seq<Entry<T>>, b: seq<Entry<T>>)
    requires (forall i :: 0 <= i < |a| ==> keep(a[i])) && (forall i :: 0 <= i < |b| ==> !keep(b[i]))
    ensures Filter(keep, a + b) == a
  {
    FilterAppend(keep, a, b);
    FilterAll(keep, a);
    FilterNone(keep, b);
  }

  function Without<T>(v: seq<Entry<T>>, id: nat): seq<Entry<T>> {
    Filter((e: Entry<T>) => e.id != id, v)
  }

  lemma FilterDrop<T>(keep: Entry<T> -> bool, a: seq<Entry<T>>, x: Entry<T>, b: seq<Entry<T>>)
    requires !keep(x) && (forall i :: 0 <= i < |a| ==> keep(a[i])) && (forall i :: 0 <= i < |b| ==> keep(b[i]))
    ensures Filter(keep, a + [x] + b) == a + b
  {
    assert Filter(keep, a + [x] + b) == Filter(keep, a + [x]) + Filter(keep, b) by { FilterAppend(keep, a + [x], b); }
    assert Filter(keep, a + [x]) == a by { FilterCut(keep, a, [x]); }
    assert Filter(keep, b) == b by { FilterAll(keep, b); }
  }

  lemma WithoutAt<T>(v: seq<Entry<T>>, k: nat)
    requires DistinctIds(v) && k < |v|
    ensures Without(v, v[k].id) == v[..k] + v[k + 1..]
  {
    var id := v[k].id;
    FilterDrop((e: Entry<T>) => e.id != id, v[..k], v[k], v[k + 1..]);
    assert v == v[..k] + [v[k]] + v[k + 1..];
  }

  function Inserted<T>(v: seq<Entry<T>>, id: nat, obj: T, tick: nat): seq<Entry<T>> {
    v + [Entry(id, obj, tick)]
  }

  /** A later use moves an entry to the end; an earlier or equal one changes nothing. */
  function Touched<T>(v: seq<Entry<T>>, id: nat, tick: nat): seq<Entry<T>>
    requires Live(v, id)
  {
    var e := v[Find(v, id)];
    if e.tick >= tick then v else Without(v, id) + [e.(tick := tick)]
  }

  /** What a touch does, place by place. */
  lemma TouchMeans<T>(v: seq<Entry<T>>, k: nat, tick: nat)
    requires DistinctIds(v) && k < |v|
    ensures Live(v, v[k].id)
    ensures Touched(v, v[k].id, tick) ==
      if tick <= v[k].tick then v else v[..k] + v[k + 1..] + [Entry(v[k].id, v[k].obj, tick)]
  {
    FindAt(v, k);
    WithoutAt(v, k);
  }

  /** An insertion keeps the list sorted exactly when no tick is later than the new one. */
  lemma InsertSorted<T>(v: seq<Entry<T>>, id: nat, obj: T, tick: nat)
    requires Sorted(v)
    ensures Sorted(Inserted(v, id, obj, tick)) <==> NotAfter(v, tick)
  {
    var w := Inserted(v, id, obj, tick);
    assert forall i :: 0 <= i < |v| ==> w[i] == v[i];
    if Sorted(w) {
      forall i | 0 <= i < |v| ensures v[i].tick <= tick {
        assert w[i].tick <= w[|v|].tick;
      }
    }
  }

  lemma WithoutSorted<T>(v: seq<Entry<T>>, id: nat)
    requires Sorted(v) && DistinctIds(v)
    ensures Sorted(Without(v, id)) && DistinctIds(Without(v, id)) && !Live(Without(v, id), id)
  {
    WithoutDistinct(v, id);
    if Live(v, id) {
      WithoutAt(v, Find(v, id));
    } else {
      FilterAll((e: Entry<T>) => e.id != id, v);
    }
  }

  lemma WithoutDistinct<T>(v: seq<Entry<T>>, id: nat)
    requires DistinctIds(v)
    ensures DistinctIds(Without(v, id)) && !Live(Without(v, id), id)
  {
    if Live(v, id) {
      WithoutAt(v, Find(v, id));
    } else {
      FilterAll((e: Entry<T>) => e.id != id, v);
    }
  }

  /** A touch keeps the list sorted exactly when it is no news or no other entry is later. */
  lemma TouchSorted<T>(v: seq<Entry<T>>, id: nat, tick: nat)
    requires Sorted(v) && DistinctIds(v) && Live(v, id)
    ensures Sorted(Touched(v, id, tick)) <==> v[Find(v, id)].tick >= tick || NotAfter(Without(v, id), tick)
  {
    var e := v[Find(v, id)];
    WithoutSorted(v, id);
    if e.tick < tick {
      InsertSorted(Without(v, id), id, e.obj, tick);
    }
  }

  /** A list that a touch leaves out of order: the clock was turned back past the other entry's use. */
  lemma TouchCanUnsort<T>(v: seq<Entry<T>>)
    requires |v| == 2 && v[0].id != v[1].id && v[0].tick == 5 && v[1].tick == 9
    ensures Sorted(v) && Live(v, v[0].id) && !Sorted(Touched(v, v[0].id, 7))
  {
    FindAt(v, 0);
    WithoutAt(v, 0);
    TouchSorted(v, v[0].id, 7);
    assert Without(v, v[0].id)[0].tick == 9;
  }

  /** How many entries from the front are no later than `tick`. */
  function Reach<T>(v: seq<Entry<T>>, tick: nat): (n: nat)
    ensures n <= |v|
    ensures forall i :: 0 <= i < n ==> v[i].tick <= tick
    ensures n < |v| ==> v[n].tick > tick
  {
    if v == [] || v[0].tick > tick then 0 else 1 + Reach(v[1..], tick)
  }

  function Below<T>(v: seq<Entry<T>>, tick: nat): seq<Entry<T>> {
    Filter((e: Entry<T>) => e.tick <= tick, v)
  }

  /** In a sorted list the entries at or below a tick are those reached from the front. */
  lemma ReachIsBelow<T>(v: seq<Entry<T>>, tick: nat)
    requires Sorted(v)
    ensures v[..Reach(v, tick)] == Below(v, tick)
  {
    var n := Reach(v, tick);
    FilterCut((e: Entry<T>) => e.tick <= tick, v[..n], v[n..]);
    assert v == v[..n] + v[n..];
  }

  datatype Op<T> =
    | Insert(id: nat, obj: T, tick: nat)
    | Touch(id: nat, tick: nat)
    | Free(id: nat)

  /** The owner uses ids the cache gave it, and never turns the clock back. */
  ghost predicate Allowed<T>(v: seq<Entry<T>>, now: nat, op: Op<T>) {
    match op
    case Insert(id, _, tick) => !Live(v, id) && now <= tick
    case Touch(id, tick) => Live(v, id) && now <= tick
    case Free(id) => Live(v, id)
  }

  function Apply<T>(v: seq<Entry<T>>, op: Op<T>): seq<Entry<T>> {
    match op
    case Insert(id, obj, tick) => Inserted(v, id, obj, tick)
    case Touch(id, tick) => if Live(v, id) then Touched(v, id, tick) else v
    case Free(id) => Without(v, id)
  }

  function Clock<T>(now: nat, op: Op<T>): nat {
    if op.Free? then now else op.tick
  }

  /** The list after a run from the empty list. */
  function After<T>(ops: seq<Op<T>>): seq<Entry<T>> {
    if ops == [] then [] else Apply(After(ops[..|ops| - 1]), ops[|ops| - 1])
  }

  /** The time after a run. */
  function Time<T>(ops: seq<Op<T>>): nat {
    if ops == [] then 0 else Clock(Time(ops[..|ops| - 1]), ops[|ops| - 1])
  }

  ghost predicate AllowedRun<T>(ops: seq<Op<T>>) {
    forall n :: 0 <= n < |ops| ==> Allowed(After(ops[..n]), Time(ops[..n]), ops[n])
  }

  /** The tick an entry was last inserted or touched with. */
  function LastUse<T>(ops: seq<Op<T>>, id: nat): nat {
    if ops == [] then 0
    else
      var op := ops[|ops| - 1];
      if !op.Free? && op.id == id then op.tick else LastUse(ops[..|ops| - 1], id)
  }

  ghost predicate Recorded<T>(ops: seq<Op<T>>, v: seq<Entry<T>>) {
    forall i :: 0 <= i < |v| ==> v[i].tick == LastUse(ops, v[i].id)
  }

  lemma ApplyKeeps<T>(v: seq<Entry<T>>, now: nat, op: Op<T>)
    requires Allowed(v, now, op) && Sorted(v) && DistinctIds(v) && NotAfter(v, now)
    ensures Sorted(Apply(v, op)) && DistinctIds(Apply(v, op)) && NotAfter(Apply(v, op), Clock(now, op))
  {
    match op
    case Insert(id, obj, tick) => InsertKeeps(v, now, id, obj, tick);
    case Touch(id, tick) => TouchKeeps(v, now, id, tick);
    case Free(id) => FreeKeeps(v, now, id);
  }

  lemma InsertKeeps<T>(v: seq<Entry<T>>, now: nat, id: nat, obj: T, tick: nat)
    requires Sorted(v) && DistinctIds(v) && NotAfter(v, now) && !Live(v, id) && now <= tick
    ensures Sorted(Inserted(v, id, obj, tick)) && DistinctIds(Inserted(v, id, obj, tick))
    ensures NotAfter(Inserted(v, id, obj, tick), tick)
  {
    InsertSorted(v, id, obj, tick);
  }

  lemma FreeKeeps<T>(v: seq<Entry<T>>, now: nat, id: nat)
    requires Sorted(v) && DistinctIds(v) && NotAfter(v, now) && Live(v, id)
    ensures Sorted(Without(v, id)) && DistinctIds(Without(v, id)) && NotAfter(Without(v, id), now)
    ensures !Live(Without(v, id), id)
  {
    WithoutSorted(v, id);
    WithoutAt(v, Find(v, id));
  }

  lemma TouchKeeps<T>(v: seq<Entry<T>>, now: nat, id: nat, tick: nat)
    requires Sorted(v) && DistinctIds(v) && NotAfter(v, now) && Live(v, id) && now <= tick
    ensures Sorted(Touched(v, id, tick)) && DistinctIds(Touched(v, id, tick)) && NotAfter(Touched(v, id, tick), tick)
  {
    var e := v[Find(v, id)];
    if e.tick < tick {
      FreeKeeps(v, now, id);
      InsertKeeps(Without(v, id), now, id, e.obj, tick);
    }
  }

  lemma LastUseNext<T>(ops: seq<Op<T>>, op: Op<T>, id: nat)
    ensures LastUse(ops + [op], id) == if !op.Free? && op.id == id then op.tick else LastUse(ops, id)
  {
    assert (ops + [op])[..|ops|] == ops;
  }

  /** The entry was recorded before and is not the one the operation names, or it carries the operation's tick. */
  ghost predicate StillRecorded<T>(v: seq<Entry<T>>, op: Op<T>, e: Entry<T>) {
    if !op.Free? && op.id == e.id then e.tick == op.tick else e in v
  }

  lemma ApplyRecords<T>(ops: seq<Op<T>>, v: seq<Entry<T>>, now: nat, op: Op<T>)
    requires Allowed(v, now, op) && DistinctIds(v) && NotAfter(v, now) && Recorded(ops, v)
    ensures Recorded(ops + [op], Apply(v, op))
  {
    var w := Apply(v, op);
    forall i | 0 <= i < |w| ensures w[i].tick == LastUse(ops + [op], w[i].id) {
      ApplyEntry(v, now, op, i);
      LastUseNext(ops, op, w[i].id);
    }
  }

  /** What an operation leaves in the list. */
  lemma ApplyEntry<T>(v: seq<Entry<T>>, now: nat, op: Op<T>, i: nat)
    requires Allowed(v, now, op) && DistinctIds(v) && NotAfter(v, now) && i < |Apply(v, op)|
    ensures StillRecorded(v, op, Apply(v, op)[i])
  {
    match op
    case Insert(id, _, _) =>
      if i < |v| {
        assert v[i].id != id;
      }
    case Touch(id, tick) => TouchEntry(v, now, id, tick, i);
    case Free(id) => WithoutAt(v, Find(v, id));
  }

  lemma TouchEntry<T>(v: seq<Entry<T>>, now: nat, id: nat, tick: nat, i: nat)
    requires Live(v, id) && now <= tick && DistinctIds(v) && NotAfter(v, now) && i < |Touched(v, id, tick)|
    ensures
      var e := Touched(v, id, tick)[i];
      if e.id == id then e.tick == tick else e in v
  {
    var k, w := Find(v, id), Touched(v, id, tick);
    if v[k].tick < tick {
      WithoutAt(v, k);
      assert w == (v[..k] + v[k + 1..]) + [v[k].(tick := tick)];
      if i < |v| - 1 {
        assert w[i] == v[if i < k then i else i + 1];
      }
    } else {
      assert w[i] == v[i] && (v[i].id == id ==> i == k);
    }
  }

  /** In every run on live ids with a clock that is never turned back, the list is sorted, and every live
      entry carries the tick it was last used with. */
  lemma {:induction false} RunSorted<T>(ops: seq<Op<T>>)
    requires AllowedRun(ops)
    ensures Sorted(After(ops)) && DistinctIds(After(ops))
    ensures NotAfter(After(ops), Time(ops)) && Recorded(ops, After(ops))
  {
    if ops != [] {
      var n := |ops| - 1;
      var op, front := ops[n], ops[..n];
      assert Allowed(After(front), Time(front), op);
      FrontAllowed(ops);
      RunSorted(front);
      ApplyKeeps(After(front), Time(front), op);
      ApplyRecords(front, After(front), Time(front), op);
      assert front + [op] == ops;
    }
  }

  lemma FrontAllowed<T>(ops: seq<Op<T>>)
    requires AllowedRun(ops) && ops != []
    ensures AllowedRun(ops[..|ops| - 1])
  {
    var front := ops[..|ops| - 1];
    forall n | 0 <= n < |front| ensures Allowed(After(front[..n]), Time(front[..n]), front[n]) {
      assert front[..n] == ops[..n];
    }
  }
}
