/** Runs of true in a plain sequence of booleans, with no words or masks. */
module BitRuns {

  type Range = (nat, nat)

  /** Every element from `a` up to `b` is `v`. */
  predicate Const(s: seq<bool>, v: bool, a: int, b: int) {
    forall x :: a <= x < b && 0 <= x < |s| ==> s[x] == v
  }

  /** The first position from `i` on that holds `want`, or the length. */
  function Scan(s: seq<bool>, want: bool, i: nat): (r: nat)
    requires i <= |s|
    ensures i <= r <= |s| && Const(s, !want, i, r)
    ensures r < |s| ==> s[r] == want
    decreases |s| - i
  {
    if i == |s| || s[i] == want then i else Scan(s, want, i + 1)
  }

  /** One past the last position before `i` that holds `want`, or 0. */
  function ScanBack(s: seq<bool>, want: bool, i: nat): (r: nat)
    requires i <= |s|
    ensures r <= i && Const(s, !want, r, i)
    ensures r > 0 ==> s[r - 1] == want
  {
    if i == 0 || s[i - 1] == want then i else ScanBack(s, want, i - 1)
  }

  lemma ScanIs(s: seq<bool>, want: bool, i: nat, r: nat)
    requires i <= r <= |s| && Const(s, !want, i, r) && (r < |s| ==> s[r] == want)
    ensures Scan(s, want, i) == r
  {
  }

  lemma ScanBackIs(s: seq<bool>, want: bool, i: nat, r: nat)
    requires r <= i <= |s| && Const(s, !want, r, i) && (r > 0 ==> s[r - 1] == want)
    ensures ScanBack(s, want, i) == r
  {
  }

  /** The first run of true at or after `start`; (|s|, |s|) when there is none. */
  function NextRun(s: seq<bool>, start: nat): (r: Range)
    requires start <= |s|
    ensures start <= r.0 <= r.1 <= |s|
    ensures r.0 < r.1 <==> r.0 < |s|
  {
    var a := Scan(s, true, start);
    (a, Scan(s, false, a))
  }

  /** The last run of true before `end`; (0, 0) when there is none. */
  function PreviousRun(s: seq<bool>, end: nat): (r: Range)
    requires end <= |s|
    ensures r.0 <= r.1 <= end
    ensures r.0 < r.1 <==> r.1 > 0
  {
    var b := ScanBack(s, true, end);
    (ScanBack(s, false, b), b)
  }

  lemma PreviousRunIs(s: seq<bool>, end: nat, a: nat, b: nat)
    requires end <= |s| && ScanBack(s, true, end) == b && ScanBack(s, false, b) == a
    ensures PreviousRun(s, end) == (a, b)
  {
  }

  /** A run of true that cannot be extended. */
  predicate MaximalRun(s: seq<bool>, a: nat, b: nat) {
    && a < b <= |s| && Const(s, true, a, b)
    && (a > 0 ==> !s[a - 1])
    && (b < |s| ==> !s[b])
  }

  /** What iteration from `start` visits before it reaches the end position. */
  function Runs(s: seq<bool>, start: nat): (rs: seq<Range>)
    requires start <= |s|
    decreases |s| - start
  {
    var r := NextRun(s, start);
    if r == (|s|, |s|) then [] else [r] + Runs(s, r.1)
  }

  /** One run of the iteration. */
  lemma RunsStep(s: seq<bool>, start: nat, r: Range)
    requires start <= |s| && r == NextRun(s, start) && r != (|s|, |s|)
    ensures start < r.1 <= |s| && Runs(s, start) == [r] + Runs(s, r.1)
  {
  }

  /** No run has begun before `start` and reaches it. */
  predicate Fresh(s: seq<bool>, start: nat) {
    start <= |s| && (0 < start < |s| ==> !s[start] || !s[start - 1])
  }

  /** Iteration visits a range exactly when it is a maximal run, from the starting point on. */
  lemma {:induction false} RunsExact(s: seq<bool>, start: nat, a: nat, b: nat)
    requires Fresh(s, start)
    ensures (a, b) in Runs(s, start) <==> MaximalRun(s, a, b) && start <= a
    decreases |s| - start
  {
    var r := NextRun(s, start);
    if r != (|s|, |s|) {
      RunsExact(s, r.1, a, b);
      FirstIsMaximal(s, start);
      if MaximalRun(s, a, b) && start <= a {
        FirstOrLater(s, start, a, b);
      }
    } else {
      NothingLeft(s, start, a, b);
    }
  }

  lemma FirstIsMaximal(s: seq<bool>, start: nat)
    requires Fresh(s, start) && NextRun(s, start).0 < |s|
    ensures MaximalRun(s, NextRun(s, start).0, NextRun(s, start).1)
  {
    var a := NextRun(s, start).0;
    assert a > start ==> s[a - 1] == false;
  }

  lemma FirstOrLater(s: seq<bool>, start: nat, a: nat, b: nat)
    requires start <= |s| && MaximalRun(s, a, b) && start <= a
    ensures (a, b) == NextRun(s, start) || NextRun(s, start).1 <= a
  {
    var r := NextRun(s, start);
    assert s[a];
    assert r.0 <= a;
    if a < r.1 {
      ScanIs(s, false, a, b);
    }
  }

  lemma NothingLeft(s: seq<bool>, start: nat, a: nat, b: nat)
    requires start <= |s| && NextRun(s, start).0 == |s|
    ensures !(MaximalRun(s, a, b) && start <= a)
  {
    assert start <= a < |s| ==> !s[a];
  }

  /** Iteration goes upwards, and leaves a gap between one run and the next. */
  lemma {:induction false} RunsAscend(s: seq<bool>, start: nat)
    requires start <= |s|
    ensures forall i :: 0 <= i < |Runs(s, start)| ==> start <= Runs(s, start)[i].0 < Runs(s, start)[i].1
    ensures forall i, j :: 0 <= i < j < |Runs(s, start)| ==> Runs(s, start)[i].1 < Runs(s, start)[j].0
    decreases |s| - start
  {
    var r := NextRun(s, start);
    if r != (|s|, |s|) {
      RunsAscend(s, r.1);
      var rest := Runs(s, r.1);
      assert Runs(s, start) == [r] + rest;
      NextAfterEnd(s, start);
      forall j | 0 <= j < |rest| ensures r.1 < rest[j].0 {
        assert j > 0 ==> rest[0].1 < rest[j].0;
      }
    }
  }

  /** What an iteration from the beginning visits: the maximal runs, ascending. */
  lemma AllRuns(s: seq<bool>, rs: seq<Range>)
    requires rs == Runs(s, 0)
    ensures forall a: nat, b: nat :: (a, b) in rs <==> MaximalRun(s, a, b)
    ensures forall i, j :: 0 <= i < j < |rs| ==> rs[i].1 < rs[j].0
  {
    RunsAscend(s, 0);
    forall a: nat, b: nat ensures (a, b) in rs <==> MaximalRun(s, a, b) {
      RunsExact(s, 0, a, b);
    }
  }

  lemma NextAfterEnd(s: seq<bool>, start: nat)
    requires start <= |s| && NextRun(s, start).0 < |s|
    ensures var end := NextRun(s, start).1; end < |s| ==> NextRun(s, end).0 > end
  {
  }

  /** A part of the sequence overwritten with `v`; an empty or overlong part changes nothing. */
  function Painted(s: seq<bool>, start: nat, end: nat, v: bool): (r: seq<bool>)
    ensures |r| == |s|
  {
    if start >= end || end > |s| then s
    else seq(|s|, x requires 0 <= x < |s| => if start <= x < end then v else s[x])
  }
}
