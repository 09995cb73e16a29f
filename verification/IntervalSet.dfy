/** Sets of addresses kept as ascending ranges that do not touch, as boost::icl::interval_set keeps them. */
module IntervalSet {

  /** The addresses from `lo` up to, not including, `hi`. */
  datatype Range = Range(lo: nat, hi: nat)

  predicate Within(r: Range, x: int) { r.lo <= x < r.hi }

  ghost predicate In(s: seq<Range>, x: int) {
    exists i :: 0 <= i < |s| && Within(s[i], x)
  }

  /** Non-empty and ascending, without overlap. */
  predicate Ascending(s: seq<Range>) {
    && (forall i :: 0 <= i < |s| ==> s[i].lo < s[i].hi)
    && (forall i, j :: 0 <= i < j < |s| ==> s[i].hi <= s[j].lo)
  }

  /** Ascending, with a gap between any two. */
  predicate Canonical(s: seq<Range>) {
    && (forall i :: 0 <= i < |s| ==> s[i].lo < s[i].hi)
    && (forall i, j :: 0 <= i < j < |s| ==> s[i].hi < s[j].lo)
  }

  predicate AllAbove(s: seq<Range>, x: int) {
    forall i :: 0 <= i < |s| ==> s[i].lo > x
  }

  lemma InCons(r: Range, s: seq<Range>, x: int)
    ensures In([r] + s, x) <==> Within(r, x) || In(s, x)
  {
    var t := [r] + s;
    if Within(r, x) {
      assert Within(t[0], x);
    }
    if In(s, x) {
      var i :| 0 <= i < |s| && Within(s[i], x);
      assert Within(t[i + 1], x);
    }
  }

  lemma InSplit(s: seq<Range>, x: int)
    requires s != []
    ensures In(s, x) <==> Within(s[0], x) || In(s[1..], x)
  {
    InCons(s[0], s[1..], x);
    assert [s[0]] + s[1..] == s;
  }

  lemma CanonicalCons(r: Range, s: seq<Range>)
    requires r.lo < r.hi && Canonical(s) && AllAbove(s, r.hi)
    ensures Canonical([r] + s)
  {
  }

  lemma CanonicalTail(s: seq<Range>)
    requires Canonical(s) && s != []
    ensures Canonical(s[1..]) && AllAbove(s[1..], s[0].hi)
  {
  }

  /** insert: ranges that overlap or touch the new one are joined with it. */
  function Insert(s: seq<Range>, r: Range): seq<Range> {
    if r.lo >= r.hi then s
    else if s == [] then [r]
    else if s[0].hi < r.lo then [s[0]] + Insert(s[1..], r)
    else if r.hi < s[0].lo then [r] + s
    else Insert(s[1..], Range(Min(r.lo, s[0].lo), Max(r.hi, s[0].hi)))
  }

  function Min(a: nat, b: nat): nat { if a < b then a else b }

  function Max(a: nat, b: nat): nat { if a < b then b else a }

  lemma {:induction false} InsertAbove(s: seq<Range>, r: Range, y: int)
    requires AllAbove(s, y) && r.lo > y
    ensures AllAbove(Insert(s, r), y)
    decreases |s|
  {
    if r.lo < r.hi && s != [] {
      assert AllAbove(s[1..], y) && s[0].lo > y;
      if s[0].hi < r.lo {
        InsertAbove(s[1..], r, y);
      } else if s[0].lo <= r.hi {
        InsertAbove(s[1..], Range(Min(r.lo, s[0].lo), Max(r.hi, s[0].hi)), y);
      }
    }
  }

  lemma {:induction false} InsertCanonical(s: seq<Range>, r: Range)
    requires Canonical(s)
    ensures Canonical(Insert(s, r))
    decreases |s|
  {
    if r.lo < r.hi && s != [] {
      CanonicalTail(s);
      if s[0].hi < r.lo {
        InsertCanonical(s[1..], r);
        InsertAbove(s[1..], r, s[0].hi);
        CanonicalCons(s[0], Insert(s[1..], r));
      } else if r.hi < s[0].lo {
        CanonicalCons(r, s);
      } else {
        InsertCanonical(s[1..], Range(Min(r.lo, s[0].lo), Max(r.hi, s[0].hi)));
      }
    }
  }

  lemma {:induction false} InsertIn(s: seq<Range>, r: Range, x: int)
    requires Canonical(s)
    ensures In(Insert(s, r), x) <==> In(s, x) || Within(r, x)
    decreases |s|
  {
    if r.lo < r.hi {
      if s == [] {
        InCons(r, [], x);
        assert [r] + [] == [r];
      } else {
        CanonicalTail(s);
        InSplit(s, x);
        if s[0].hi < r.lo {
          InsertIn(s[1..], r, x);
          InCons(s[0], Insert(s[1..], r), x);
        } else if r.hi < s[0].lo {
          InCons(r, s, x);
        } else {
          InsertIn(s[1..], Range(Min(r.lo, s[0].lo), Max(r.hi, s[0].hi)), x);
        }
      }
    }
  }

  /** subtract: what is left of each range on either side of the one taken out. */
  function Subtract(s: seq<Range>, r: Range): seq<Range> {
    if s == [] then [] else Remains(s[0], r) + Subtract(s[1..], r)
  }

  function Remains(a: Range, r: Range): seq<Range> {
    if r.lo >= r.hi then [a]
    else
      (if a.lo < Min(a.hi, r.lo) then [Range(a.lo, Min(a.hi, r.lo))] else []) +
      (if Max(a.lo, r.hi) < a.hi then [Range(Max(a.lo, r.hi), a.hi)] else [])
  }

  lemma InConcat(a: seq<Range>, b: seq<Range>, x: int)
    ensures In(a + b, x) <==> In(a, x) || In(b, x)
  {
    if In(a, x) {
      var i :| 0 <= i < |a| && Within(a[i], x);
      assert Within((a + b)[i], x);
    }
    if In(b, x) {
      var i :| 0 <= i < |b| && Within(b[i], x);
      assert Within((a + b)[|a| + i], x);
    }
  }

  lemma InOne(r: Range, x: int)
    ensures In([r], x) <==> Within(r, x)
  {
    assert [r][0] == r;
  }

  lemma RemainsIn(a: Range, r: Range, x: int)
    ensures In(Remains(a, r), x) <==> Within(a, x) && !Within(r, x)
  {
    var p, q := Range(a.lo, Min(a.hi, r.lo)), Range(Max(a.lo, r.hi), a.hi);
    InOne(a, x);
    InOne(p, x);
    InOne(q, x);
    if r.lo < r.hi {
      InConcat(if p.lo < p.hi then [p] else [], if q.lo < q.hi then [q] else [], x);
    }
  }

  lemma {:induction false} SubtractIn(s: seq<Range>, r: Range, x: int)
    ensures In(Subtract(s, r), x) <==> In(s, x) && !Within(r, x)
  {
    if s != [] {
      InSplit(s, x);
      RemainsIn(s[0], r, x);
      SubtractIn(s[1..], r, x);
      InConcat(Remains(s[0], r), Subtract(s[1..], r), x);
    }
  }

  predicate Inside(s: seq<Range>, lo: int, hi: int) {
    forall i :: 0 <= i < |s| ==> lo <= s[i].lo && s[i].hi <= hi
  }

  lemma RemainsCanonical(a: Range, r: Range)
    requires a.lo < a.hi
    ensures Canonical(Remains(a, r)) && Inside(Remains(a, r), a.lo, a.hi)
  {
  }

  lemma CanonicalConcat(a: seq<Range>, b: seq<Range>, hi: int)
    requires Canonical(a) && Canonical(b) && (forall i :: 0 <= i < |a| ==> a[i].hi <= hi) && AllAbove(b, hi)
    ensures Canonical(a + b)
  {
  }

  lemma {:induction false} SubtractCanonical(s: seq<Range>, r: Range)
    requires Canonical(s)
    ensures Canonical(Subtract(s, r))
    ensures forall y :: AllAbove(s, y) ==> AllAbove(Subtract(s, r), y)
  {
    if s != [] {
      CanonicalTail(s);
      RemainsCanonical(s[0], r);
      SubtractCanonical(s[1..], r);
      assert AllAbove(Subtract(s[1..], r), s[0].hi);
      CanonicalConcat(Remains(s[0], r), Subtract(s[1..], r), s[0].hi);
      forall y | AllAbove(s, y) ensures AllAbove(Subtract(s, r), y) {
        assert AllAbove(s[1..], y) && s[0].lo > y;
      }
    }
  }

  /** find: the first range that overlaps the one asked for. */
  function Find(s: seq<Range>, r: Range): (i: nat)
    ensures i <= |s|
    ensures i < |s| ==> s[i].lo < r.hi && r.lo < s[i].hi
    ensures forall k :: 0 <= k < i ==> !(s[k].lo < r.hi && r.lo < s[k].hi)
  {
    if s == [] then 0 else if s[0].lo < r.hi && r.lo < s[0].hi then 0 else 1 + Find(s[1..], r)
  }

  /** A set of addresses has one canonical list only. */
  lemma {:induction false} CanonicalUnique(a: seq<Range>, b: seq<Range>)
    requires Canonical(a) && Canonical(b) && forall x: int :: In(a, x) <==> In(b, x)
    ensures a == b
    decreases |a|
  {
    if a == [] {
      if b != [] {
        assert Within(b[0], b[0].lo);
        assert In(b, b[0].lo);
      }
    } else {
      FirstAgree(a, b);
      CanonicalTail(a);
      CanonicalTail(b);
      forall x: int ensures In(a[1..], x) <==> In(b[1..], x) {
        InSplit(a, x);
        InSplit(b, x);
        NotInTail(a, x);
        NotInTail(b, x);
      }
      CanonicalUnique(a[1..], b[1..]);
      assert a == [a[0]] + a[1..] && b == [b[0]] + b[1..];
    }
  }

  lemma NotInTail(s: seq<Range>, x: int)
    requires Canonical(s) && s != []
    ensures x <= s[0].hi ==> !In(s[1..], x)
  {
  }

  /** The lowest run of one is the lowest run of the other. */
  lemma FirstAgree(a: seq<Range>, b: seq<Range>)
    requires Canonical(a) && Canonical(b) && a != [] && forall x: int :: In(a, x) <==> In(b, x)
    ensures b != [] && a[0] == b[0]
  {
    assert Within(a[0], a[0].lo);
    assert In(a, a[0].lo);
    assert b != [];
    assert Within(b[0], b[0].lo);
    assert In(b, b[0].lo);
    LowestIn(a, b[0].lo);
    LowestIn(b, a[0].lo);
    EndOfFirst(a);
    EndOfFirst(b);
    var endA, endB := a[0].hi, b[0].hi;
    assert Within(b[0], endA) ==> In(b, endA);
    assert Within(a[0], endB) ==> In(a, endB);
  }

  lemma LowestIn(s: seq<Range>, x: int)
    requires Canonical(s) && s != [] && In(s, x)
    ensures s[0].lo <= x
  {
  }

  lemma EndOfFirst(s: seq<Range>)
    requires Canonical(s) && s != []
    ensures !In(s, s[0].hi)
  {
  }
}
