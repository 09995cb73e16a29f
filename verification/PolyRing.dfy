/** Multiplication by shifting and adding, in any field whose doubling is one step of the shift. */
module PolyRing {

  import opened GaloisMix

  lemma StepZero<V(!new)>(s: Field<V>)
    requires Laws(s)
    ensures s.dbl(s.zero) == s.zero
  {
    Own(s, s.zero);
    Linear(s, s.zero, s.zero);
    Own(s, s.dbl(s.zero));
  }

  /** `n` steps. */
  function Power<V>(s: Field<V>, n: nat, v: V): V {
    if n == 0 then v else s.dbl(Power(s, n - 1, v))
  }

  /** v, or nothing. */
  function If<V>(s: Field<V>, b: bool, v: V): V { if b then v else s.zero }

  /** The sum of the vectors `i` steps from v, over the set bits `i` among the first `n`. */
  function Times<V>(s: Field<V>, x: seq<bool>, n: nat, v: V): V
    requires n <= |x|
  {
    if n == 0 then s.zero else s.plus(Times(s, x, n - 1, v), If(s, x[n - 1], Power(s, n - 1, v)))
  }

  lemma {:induction false} PowerSum<V(!new)>(s: Field<V>, n: nat, a: V, b: V)
    requires Laws(s)
    ensures Power(s, n, s.plus(a, b)) == s.plus(Power(s, n, a), Power(s, n, b))
  {
    if n > 0 {
      PowerSum(s, n - 1, a, b);
      Linear(s, Power(s, n - 1, a), Power(s, n - 1, b));
    }
  }

  lemma {:induction false} PowerZero<V(!new)>(s: Field<V>, n: nat)
    requires Laws(s)
    ensures Power(s, n, s.zero) == s.zero
  {
    if n > 0 {
      PowerZero(s, n - 1);
      StepZero(s);
    }
  }

  lemma {:induction false} PowerStep<V>(s: Field<V>, n: nat, v: V)
    ensures Power(s, n, s.dbl(v)) == s.dbl(Power(s, n, v))
  {
    if n > 0 { PowerStep(s, n - 1, v); }
  }

  lemma IfSum<V(!new)>(s: Field<V>, b: bool, x: V, y: V)
    requires Laws(s)
    ensures If(s, b, s.plus(x, y)) == s.plus(If(s, b, x), If(s, b, y))
  {
    Own(s, s.zero);
  }

  lemma IfStep<V(!new)>(s: Field<V>, b: bool, v: V)
    requires Laws(s)
    ensures If(s, b, s.dbl(v)) == s.dbl(If(s, b, v))
  {
    StepZero(s);
  }

  /** Products are additive on the right. */
  lemma {:induction false} TimesSum<V(!new)>(s: Field<V>, x: seq<bool>, n: nat, a: V, b: V)
    requires Laws(s) && n <= |x|
    ensures Times(s, x, n, s.plus(a, b)) == s.plus(Times(s, x, n, a), Times(s, x, n, b))
  {
    if n == 0 {
      Own(s, s.zero);
    } else {
      var k, c := n - 1, x[n - 1];
      TimesSum(s, x, k, a, b);
      PowerSum(s, k, a, b);
      IfSum(s, c, Power(s, k, a), Power(s, k, b));
      Swap(s, Times(s, x, k, a), Times(s, x, k, b), If(s, c, Power(s, k, a)), If(s, c, Power(s, k, b)));
    }
  }

  lemma {:induction false} TimesZero<V(!new)>(s: Field<V>, x: seq<bool>, n: nat)
    requires Laws(s) && n <= |x|
    ensures Times(s, x, n, s.zero) == s.zero
  {
    if n > 0 {
      TimesZero(s, x, n - 1);
      PowerZero(s, n - 1);
      Own(s, s.zero);
    }
  }

  /** Products commute with the step. */
  lemma {:induction false} TimesStep<V(!new)>(s: Field<V>, x: seq<bool>, n: nat, v: V)
    requires Laws(s) && n <= |x|
    ensures Times(s, x, n, s.dbl(v)) == s.dbl(Times(s, x, n, v))
  {
    if n == 0 {
      StepZero(s);
    } else {
      var k, c := n - 1, x[n - 1];
      TimesStep(s, x, k, v);
      PowerStep(s, k, v);
      IfStep(s, c, Power(s, k, v));
      Linear(s, Times(s, x, k, v), If(s, c, Power(s, k, v)));
    }
  }

  lemma {:induction false} TimesPower<V(!new)>(s: Field<V>, x: seq<bool>, n: nat, m: nat, v: V)
    requires Laws(s) && n <= |x|
    ensures Times(s, x, n, Power(s, m, v)) == Power(s, m, Times(s, x, n, v))
    decreases m
  {
    if m > 0 {
      TimesPower(s, x, n, m - 1, v);
      TimesStep(s, x, n, Power(s, m - 1, v));
    }
  }

  lemma TimesIf<V(!new)>(s: Field<V>, x: seq<bool>, n: nat, c: bool, v: V)
    requires Laws(s) && n <= |x|
    ensures Times(s, x, n, If(s, c, v)) == If(s, c, Times(s, x, n, v))
  {
    TimesZero(s, x, n);
  }

  /** Two products applied one after the other may change places. */
  lemma {:induction false} TimesCommute<V(!new)>(s: Field<V>, x: seq<bool>, m: nat, y: seq<bool>, n: nat, v: V)
    requires Laws(s) && m <= |x| && n <= |y|
    ensures Times(s, x, m, Times(s, y, n, v)) == Times(s, y, n, Times(s, x, m, v))
    decreases m
  {
    if m == 0 {
      TimesZero(s, y, n);
    } else {
      var k, c := m - 1, x[m - 1];
      TimesCommute(s, x, k, y, n, v);
      TimesSum(s, y, n, Times(s, x, k, v), If(s, c, Power(s, k, v)));
      TimesIf(s, y, n, c, Power(s, k, v));
      TimesPower(s, y, n, k, v);
    }
  }

  /** A multiplier with one bit set has one term. */
  lemma {:induction false} OneTerm<V(!new)>(s: Field<V>, x: seq<bool>, j: nat, n: nat, v: V)
    requires Laws(s) && n <= |x| && forall i :: 0 <= i < |x| ==> (x[i] <==> i == j)
    ensures Times(s, x, n, v) == If(s, j < n, Power(s, j, v))
  {
    if n > 0 {
      OneTerm(s, x, j, n - 1, v);
      Own(s, Power(s, n - 1, v));
      Own(s, If(s, j < n - 1, Power(s, j, v)));
    }
  }

  /** Bitwise difference. */
  function XorBits(x: seq<bool>, y: seq<bool>): (r: seq<bool>)
    requires |x| == |y|
    ensures |r| == |x|
  {
    seq(|x|, i requires 0 <= i < |x| => x[i] != y[i])
  }

  lemma IfXor<V(!new)>(s: Field<V>, b: bool, c: bool, v: V)
    requires Laws(s)
    ensures If(s, b != c, v) == s.plus(If(s, b, v), If(s, c, v))
  {
    Own(s, v);
    Own(s, s.zero);
  }

  /** Products are additive on the left. */
  lemma {:induction false} TimesXor<V(!new)>(s: Field<V>, x: seq<bool>, y: seq<bool>, n: nat, v: V)
    requires Laws(s) && |x| == |y| && n <= |x|
    ensures Times(s, XorBits(x, y), n, v) == s.plus(Times(s, x, n, v), Times(s, y, n, v))
  {
    if n == 0 {
      Own(s, s.zero);
    } else {
      var k, p := n - 1, Power(s, n - 1, v);
      TimesXor(s, x, y, k, v);
      IfXor(s, x[k], y[k], p);
      Swap(s, Times(s, x, k, v), Times(s, y, k, v), If(s, x[k], p), If(s, y[k], p));
    }
  }
}
