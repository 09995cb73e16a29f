/** GHASH of aes.h: the block product of GCM and the hash built on it. */
module Ghash {
  import opened GaloisMix
  import opened PolyRing

  /** 128 bits, first bit first. */
  type Block = s: seq<bool> | |s| == 128 witness Clear(128)

  function Clear(n: nat): (s: seq<bool>)
    ensures |s| == n
  {
    seq(n, _ => false)
  }

  const ZERO: Block := Clear(128)

  function Xor(a: Block, b: Block): Block { XorBits(a, b) }

  function Shift(v: Block): Block { [false] + v[..127] }

  const REDUCTION: Block := [true, true, true, false, false, false, false, true] + Clear(120)

  /** Multiplication by the generator: a shift, reduced when a bit falls out. */
  function Step(v: Block): Block { if v[127] then Xor(Shift(v), REDUCTION) else Shift(v) }

  /** One step moves each bit one place on; the bit that falls out comes back at places 0, 1, 2 and 7, since
      x^128 = x^7 + x^2 + x + 1. */
  lemma StepBit(v: Block, i: nat)
    requires i < 128
    ensures Step(v)[i] <==> ((i > 0 && v[i - 1]) != (v[127] && (i == 0 || i == 1 || i == 2 || i == 7)))
  {
  }

  const SPACE := Field(ZERO, Xor, Step)

  lemma XorComm(a: Block, b: Block)
    ensures Xor(a, b) == Xor(b, a)
  {
  }

  lemma XorAssoc(a: Block, b: Block, c: Block)
    ensures Xor(Xor(a, b), c) == Xor(a, Xor(b, c))
  {
  }

  lemma XorOwn(a: Block)
    ensures Xor(a, a) == ZERO && Xor(a, ZERO) == a
  {
  }

  lemma ShiftXor(a: Block, b: Block)
    ensures Shift(Xor(a, b)) == Xor(Shift(a), Shift(b))
  {
  }

  lemma XorFour(a: Block, b: Block, r: Block)
    ensures Xor(Xor(a, r), Xor(b, r)) == Xor(a, b)
    ensures Xor(Xor(a, r), b) == Xor(Xor(a, b), r)
    ensures Xor(a, Xor(b, r)) == Xor(Xor(a, b), r)
  {
  }

  lemma StepXor(a: Block, b: Block)
    ensures Step(Xor(a, b)) == Xor(Step(a), Step(b))
  {
    ShiftXor(a, b);
    XorFour(Shift(a), Shift(b), REDUCTION);
    assert Xor(a, b)[127] == (a[127] != b[127]);
  }

  lemma SpaceLaws()
    ensures Laws(SPACE)
  {
    forall a: Block, b: Block ensures SPACE.plus(a, b) == SPACE.plus(b, a) {
      XorComm(a, b);
    }
    forall a: Block, b: Block, c: Block ensures SPACE.plus(SPACE.plus(a, b), c) == SPACE.plus(a, SPACE.plus(b, c)) {
      XorAssoc(a, b, c);
    }
    forall a: Block ensures SPACE.plus(a, a) == SPACE.zero && SPACE.plus(a, SPACE.zero) == a {
      XorOwn(a);
    }
    forall a: Block, b: Block ensures SPACE.dbl(SPACE.plus(a, b)) == SPACE.plus(SPACE.dbl(a), SPACE.dbl(b)) {
      StepXor(a, b);
    }
  }

  /** Section 6.3 of SP 800-38D: the product of two blocks. */
  function Mul(x: Block, y: Block): Block { Times(SPACE, x, |x|, y) }

  /** mul_blocks: the sum and the shifted factor, bit by bit. */
  method MulBlocks(x: Block, y: Block) returns (z: Block)
    ensures z == Mul(x, y)
  {
    z := ZERO;
    var v := y;
    for i := 0 to |x|
      invariant z == Times(SPACE, x, i, y) && v == Power(SPACE, i, y)
    {
      if x[i] {
        z := Xor(z, v);
      } else {
        XorOwn(z);
      }
      v := Step(v);
    }
  }

  /** The block with one bit set. */
  function Unit(j: nat): Block { seq(128, i => i == j) }

  lemma UnitStep(j: nat)
    requires j < 127
    ensures Step(Unit(j)) == Unit(j + 1)
  {
  }

  /** Below the width, steps from the first unit do not meet the reduction. */
  lemma {:induction false} UnitPower(j: nat)
    requires j < 128
    ensures Power(SPACE, j, Unit(0)) == Unit(j)
  {
    if j > 0 {
      UnitPower(j - 1);
      UnitStep(j - 1);
    }
  }

  /** The first `n` bits of a block. */
  function Front(x: Block, n: nat): Block { seq(128, i requires 0 <= i < 128 => i < n && x[i]) }

  lemma FrontNext(x: Block, n: nat)
    requires n < 128
    ensures Front(x, n + 1) == Xor(Front(x, n), If(SPACE, x[n], Unit(n)))
  {
  }

  /** A block is the sum of its units. */
  lemma {:induction false} TimesUnit(x: Block, n: nat)
    requires n <= 128
    ensures Times(SPACE, x, n, Unit(0)) == Front(x, n)
  {
    if n == 0 {
      assert Front(x, 0) == ZERO;
    } else {
      TimesUnit(x, n - 1);
      UnitPower(n - 1);
      FrontNext(x, n - 1);
    }
  }

  lemma MulOne(x: Block)
    ensures Mul(x, Unit(0)) == x
  {
    TimesUnit(x, |x|);
    assert Front(x, 128) == x;
  }

  /** The step is the product with x. */
  lemma StepIsTimesX(v: Block)
    ensures Mul(Unit(1), v) == Step(v)
  {
    SpaceLaws();
    OneTerm(SPACE, Unit(1), 1, |Unit(1)|, v);
    assert Power(SPACE, 1, v) == Step(Power(SPACE, 0, v));
  }

  /** The block product is commutative: the multiplier and the multiplicand play different parts in
      mul_blocks, but the result does not tell which was which. */
  lemma MulCommutes(x: Block, y: Block)
    ensures Mul(x, y) == Mul(y, x)
  {
    SpaceLaws();
    MulOne(x);
    MulOne(y);
    TimesCommute(SPACE, x, |x|, y, |y|, Unit(0));
  }

  lemma MulAssociates(x: Block, y: Block, z: Block)
    ensures Mul(Mul(x, y), z) == Mul(x, Mul(y, z))
  {
    SpaceLaws();
    MulCommutes(Mul(x, y), z);
    TimesCommute(SPACE, z, |z|, x, |x|, y);
    MulCommutes(z, y);
  }

  lemma MulDistributes(x: Block, y: Block, z: Block)
    ensures Mul(Xor(x, y), z) == Xor(Mul(x, z), Mul(y, z))
  {
    SpaceLaws();
    TimesXor(SPACE, x, y, |x|, z);
  }

  // The hash.

  /** h to the power n. */
  function Exp(h: Block, n: nat): Block { if n == 0 then Unit(0) else Mul(Exp(h, n - 1), h) }

  /** The sum of the first `n` blocks, block i times h to the power m - i. */
  function Weighted(h: Block, xs: seq<Block>, n: nat, m: nat): Block
    requires n <= |xs| && n <= m
  {
    if n == 0 then ZERO else Xor(Weighted(h, xs, n - 1, m), Mul(xs[n - 1], Exp(h, m - (n - 1))))
  }

  lemma ZeroTimes(h: Block)
    ensures Mul(ZERO, h) == ZERO
  {
    SpaceLaws();
    MulCommutes(ZERO, h);
    TimesZero(SPACE, h, |h|);
  }

  lemma TermTimes(w: Block, x: Block, e: Block, h: Block)
    ensures Mul(Xor(w, Mul(x, e)), h) == Xor(Mul(w, h), Mul(x, Mul(e, h)))
  {
    MulDistributes(w, Mul(x, e), h);
    MulAssociates(x, e, h);
  }

  lemma ExpNext(h: Block, n: nat, next: nat)
    requires next == n + 1
    ensures Exp(h, next) == Mul(Exp(h, n), h)
  {
  }

  lemma WeightedNext(h: Block, xs: seq<Block>, n: nat, m: nat, e: Block)
    requires 0 < n <= |xs| && n <= m && e == Exp(h, m - (n - 1))
    ensures Weighted(h, xs, n, m) == Xor(Weighted(h, xs, n - 1, m), Mul(xs[n - 1], e))
  {
  }

  /** Multiplying the sum by h raises every exponent by one. */
  lemma {:induction false} WeightedTimes(h: Block, xs: seq<Block>, n: nat, m: nat)
    requires n <= |xs| && n <= m
    ensures Mul(Weighted(h, xs, n, m), h) == Weighted(h, xs, n, m + 1)
  {
    if n == 0 {
      ZeroTimes(h);
    } else {
      WeightedTimes(h, xs, n - 1, m);
      OneMoreTimes(h, xs, n, m, Weighted(h, xs, n - 1, m), Exp(h, m - (n - 1)));
    }
  }

  lemma OneMoreTimes(h: Block, xs: seq<Block>, n: nat, m: nat, w: Block, e: Block)
    requires 0 < n <= |xs| && n <= m && w == Weighted(h, xs, n - 1, m) && e == Exp(h, m - (n - 1))
    requires Mul(w, h) == Weighted(h, xs, n - 1, m + 1)
    ensures Mul(Weighted(h, xs, n, m), h) == Weighted(h, xs, n, m + 1)
  {
    ExpNext(h, m - (n - 1), m + 1 - (n - 1));
    WeightedNext(h, xs, n, m, e);
    WeightedNext(h, xs, n, m + 1, Mul(e, h));
    TermTimes(w, xs[n - 1], e, h);
  }

  /** Section 6.4 of SP 800-38D: X1 H^m + X2 H^(m-1) + ... + Xm H. */
  function Polynomial(h: Block, xs: seq<Block>): Block { Weighted(h, xs, |xs|, |xs|) }

  lemma {:induction false} WeightedPrefix(h: Block, xs: seq<Block>, ys: seq<Block>, n: nat, m: nat)
    requires n <= |xs| && n <= |ys| && n <= m && xs[..n] == ys[..n]
    ensures Weighted(h, xs, n, m) == Weighted(h, ys, n, m)
  {
    if n > 0 {
      assert xs[..n][n - 1] == ys[..n][n - 1];
      assert xs[..n - 1] == xs[..n][..n - 1] && ys[..n - 1] == ys[..n][..n - 1];
      WeightedPrefix(h, xs, ys, n - 1, m);
    }
  }

  lemma HornerStep(h: Block, xs: seq<Block>, x: Block)
    ensures Polynomial(h, xs + [x]) == Mul(Xor(Polynomial(h, xs), x), h)
  {
    var n := |xs|;
    var ys := xs + [x];
    WeightedTimes(h, xs, n, n);
    assert ys[..n] == xs[..n];
    WeightedPrefix(h, xs, ys, n, n + 1);
    ExpOne(h);
    MulDistributes(Polynomial(h, xs), x, h);
  }

  lemma ExpOne(h: Block)
    ensures Exp(h, 1) == h
  {
    assert Exp(h, 1) == Mul(Unit(0), h);
    MulCommutes(Unit(0), h);
    MulOne(h);
  }
}
