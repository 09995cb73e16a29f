/** 128-bit arithmetic of uint128.h and the fixed-point clock of native_clock.cpp. */
module FixedPoint {
  import opened Bits

  const U32 := 0x1_0000_0000

  type Word = n: nat | n < WORD64

  function Wrap(n: nat): Word { n % WORD64 }

  lemma WrapSmall(n: nat)
    requires n < WORD64
    ensures Wrap(n) == n
  {
  }

  // MultiplyHigh.

  /** The high word of the whole product, as a 128-bit multiplication gives it. */
  function MultiplyHigh(a: Word, b: Word): Word {
    ProductBound(a, b);
    (a * b) / WORD64
  }

  lemma ProductBound(a: Word, b: Word)
    ensures 0 <= (a * b) / WORD64 < WORD64
  {
    WordProduct(a, b);
    HighOf(a * b);
  }

  lemma ProductLe(a: nat, b: nat, m: nat)
    requires a <= m && b <= m
    ensures 0 <= a * b <= m * m
  {
    MulMonotone(a, m, b);
    MulMonotone(b, m, m);
    assert m * b == b * m;
  }

  lemma WordProduct(a: Word, b: Word)
    ensures 0 <= a * b <= (WORD64 - 1) * (WORD64 - 1)
  {
    ProductLe(a, b, WORD64 - 1);
  }

  lemma HighOf(p: nat)
    requires p <= (WORD64 - 1) * (WORD64 - 1)
    ensures p / WORD64 < WORD64
  {
  }

  const LIMB_MAX := (U32 - 1) * (U32 - 1)

  lemma LimbProduct(x: nat, y: nat)
    requires x < U32 && y < U32
    ensures 0 <= x * y <= LIMB_MAX
  {
    ProductLe(x, y, U32 - 1);
  }

  /** Multiplying out two-limb numbers. */
  lemma LimbExpand(aHi: nat, aLo: nat, bHi: nat, bLo: nat)
    ensures (aHi * U32 + aLo) * (bHi * U32 + bLo) ==
      (aHi * bHi) * WORD64 + (aHi * bLo) * U32 + (bHi * aLo) * U32 + aLo * bLo
  {
    var p := bHi * U32 + bLo;
    assert (aHi * U32 + aLo) * p == (aHi * U32) * p + aLo * p;
    assert (aHi * U32) * p == (aHi * U32) * (bHi * U32) + (aHi * U32) * bLo;
    assert aLo * p == aLo * (bHi * U32) + aLo * bLo;
    assert (aHi * U32) * (bHi * U32) == (aHi * bHi) * WORD64 by {
      assert (aHi * U32) * (bHi * U32) == aHi * (U32 * (bHi * U32));
      assert U32 * (bHi * U32) == bHi * WORD64;
      MulAssociates(aHi, bHi, WORD64);
    }
    assert (aHi * U32) * bLo == (aHi * bLo) * U32;
    assert aLo * (bHi * U32) == (bHi * aLo) * U32;
  }

  /** A word's halves. */
  method Halves(n: Word) returns (hi: nat, lo: nat)
    ensures n == hi * U32 + lo && hi < U32 && lo < U32
  {
    hi, lo := n / U32, n % U32;
  }

  /** A 64-bit product of two 32-bit numbers. */
  method Times(x: nat, y: nat) returns (p: Word)
    requires x < U32 && y < U32
    ensures p == x * y && p <= LIMB_MAX
  {
    LimbProduct(x, y);
    WrapSmall(x * y);
    p := Wrap(x * y);
  }

  /** A 64-bit sum that fits. */
  method Plus(x: nat, y: nat) returns (s: Word)
    requires x + y < WORD64
    ensures s == x + y
  {
    WrapSmall(x + y);
    s := Wrap(x + y);
  }

  /** The generic fallback of MultiplyHigh: four products of limbs, added up in their columns. */
  method MultiplyHighLimbs(a: Word, b: Word) returns (r: Word)
    ensures r == MultiplyHigh(a, b)
  {
    var aHi, aLo := Halves(a);
    var bHi, bLo := Halves(b);
    var hi := Times(aHi, bHi);
    var mid1 := Times(aHi, bLo);
    var mid2 := Times(bHi, aLo);
    var lo := Times(aLo, bLo);
    LimbExpand(aHi, aLo, bHi, bLo);
    r := AddColumns(a * b, hi, mid1, mid2, lo);
  }

  method AddColumns(ghost product: nat, hi: Word, mid1: Word, mid2: Word, lo: Word) returns (r: Word)
    requires hi <= LIMB_MAX && mid1 <= LIMB_MAX && mid2 <= LIMB_MAX
    requires product == hi * WORD64 + mid1 * U32 + mid2 * U32 + lo
    ensures r == product / WORD64
  {
    var x, xLow := Halves(mid1);
    var y, yLow := Halves(mid2);
    var z, zLow := Halves(lo);
    var low := Plus(xLow, yLow);
    low := Plus(low, z);
    var carry, column := Halves(low);
    assert product == (hi + x + y + carry) * WORD64 + column * U32 + zLow;
    r := Plus(hi, x);
    r := Plus(r, y);
    r := Plus(r, carry);
    DivUnique(product, WORD64, r, column * U32 + zLow);
  }

  // Dividing a 128-bit number by a 32-bit one.

  lemma QuotientBelow(n: nat, d: nat)
    requires d > 0
    ensures n / d <= n
  {
    AtLeastItself(n / d, d);
    Quotient(n, d);
  }

  lemma AtLeastItself(q: nat, d: nat)
    requires d > 0
    ensures q <= q * d
  {
    MulMonotone(1, d, q);
    assert d * q == q * d;
  }

  function Quot(n: Word, d: nat): Word
    requires d > 0
  {
    QuotientBelow(n, d);
    n / d
  }

  /** Divide128On32: dividend hi * 2^64 + lo. */
  function Divide128On32(lo: Word, hi: Word, divisor: nat): (Word, nat)
    requires 0 < divisor < U32
  {
    var accum, remainder := Quot(lo, divisor), lo % divisor;
    if hi == 0 then (accum, remainder)
    else
      var first := Wrap((hi % divisor) * U32);
      var second := Wrap((first % divisor) * U32);
      Finished(accum, Quot(first, divisor), Quot(second, divisor), remainder, second % divisor, divisor)
  }

  /** The sums of the quotient's parts and of the remainders. */
  function Finished(accum: Word, q1: Word, q2: Word, remainder: nat, r2: nat, divisor: nat): (Word, nat) {
    var total := Wrap(Wrap(accum + Wrap(q1 * U32)) + q2);
    var sum := remainder + r2;
    if sum >= divisor then (Wrap(total + 1), sum - divisor) else (total, sum)
  }

  /** The quotient and remainder of x * base, from those of x. */
  lemma DivideStep(x: nat, d: nat, r: nat, q: nat, base: nat)
    requires x == q * d + r && r < d && base > 0
    ensures 0 <= (r * base) / d < base
    ensures x * base == (q * base + (r * base) / d) * d + (r * base) % d
  {
    var s := r * base;
    MulMonotone(r + 1, d, base);
    MulSum(r, 1, base);
    assert d * base == base * d;
    AboveQuotient(base, s, d);
    assert s == (s / d) * d + s % d;
    Shifted(x, d, r, q, base);
    MulSum(q * base, s / d, d);
  }

  lemma Shifted(x: nat, d: nat, r: nat, q: nat, base: nat)
    requires x == q * d + r
    ensures x * base == (q * base) * d + r * base
  {
    MulSum(q * d, r, base);
    assert (q * d) * base == (q * base) * d;
  }

  /** Long division by limbs: the parts of the quotient before they are added up. */
  lemma DivideParts(lo: nat, hi: nat, d: nat, q1: int, r1: int, q2: int, r2: int)
    requires 0 < d < U32
    requires q1 == ((hi % d) * U32) / d && r1 == ((hi % d) * U32) % d
    requires q2 == (r1 * U32) / d && r2 == (r1 * U32) % d
    ensures (hi % d) * U32 < WORD64 && 0 <= q1 < U32 && 0 <= r1 * U32 < WORD64 && 0 <= q2 < U32
    ensures 0 <= r1 && 0 <= r2 < d
    ensures hi * WORD64 + lo == ((hi / d) * WORD64 + q1 * U32 + q2 + lo / d) * d + r2 + lo % d
  {
    assert hi == (hi / d) * d + hi % d;
    DivideStep(hi, d, hi % d, hi / d, U32);
    var q := (hi / d) * U32 + q1;
    DivideStep(hi * U32, d, r1, q, U32);
    assert lo == (lo / d) * d + lo % d;
    MulSum(q * U32 + q2, lo / d, d);
    assert q * U32 == (hi / d) * WORD64 + q1 * U32;
  }

  /** Divide128On32 returns the remainder, and the quotient modulo 2^64. */
  lemma Divide128Exact(lo: Word, hi: Word, d: nat)
    requires 0 < d < U32
    ensures Divide128On32(lo, hi, d) == (((hi * WORD64 + lo) / d) % WORD64, (hi * WORD64 + lo) % d)
  {
    if hi == 0 {
      QuotientBelow(lo, d);
      WrapSmall(lo / d);
    } else {
      Divide128Long(lo, hi, d);
    }
  }

  lemma Divide128Long(lo: Word, hi: Word, d: nat)
    requires 0 < d < U32 && hi != 0
    ensures Divide128On32(lo, hi, d) == (((hi * WORD64 + lo) / d) % WORD64, (hi * WORD64 + lo) % d)
  {
    var first := (hi % d) * U32;
    var q1, r1 := first / d, first % d;
    var second := r1 * U32;
    var q2, r2 := second / d, second % d;
    DivideParts(lo, hi, d, q1, r1, q2, r2);
    WrapSmall(first);
    WrapSmall(second);
    Unfolded(lo, hi, d, first, second);
    FinishedExact(hi * WORD64 + lo, Quot(hi, d), Quot(lo, d), q1, q2, lo % d, r2, d);
  }

  lemma Unfolded(lo: Word, hi: Word, d: nat, first: Word, second: Word)
    requires 0 < d < U32 && hi != 0 && first == Wrap((hi % d) * U32) && second == Wrap((first % d) * U32)
    ensures Divide128On32(lo, hi, d) == Finished(Quot(lo, d), Quot(first, d), Quot(second, d), lo % d, second % d, d)
  {
  }

  lemma FinishedExact(n: nat, top: nat, ql: Word, q1: nat, q2: nat, rl: nat, r2: nat, d: nat)
    requires 0 < d && rl < d && r2 < d && q1 < U32 && q2 < U32
    requires n == (top * WORD64 + q1 * U32 + q2 + ql) * d + r2 + rl
    ensures Finished(ql, q1, q2, rl, r2, d) == ((n / d) % WORD64, n % d)
  {
    var q, sum := top * WORD64 + q1 * U32 + q2 + ql, r2 + rl;
    if sum >= d {
      MulSum(q, 1, d);
      DivUnique(n, d, q + 1, sum - d);
    } else {
      DivUnique(n, d, q, sum);
    }
    WrapSum(top, ql, q1 * U32, q2);
  }

  lemma WrapAdd(a: nat, b: nat)
    ensures Wrap(Wrap(a) + b) == Wrap(a + b)
  {
  }

  lemma WrapTop(top: nat, n: nat)
    ensures Wrap(top * WORD64 + n) == Wrap(n)
  {
  }

  /** Wrapping at each addition is wrapping at the end. */
  lemma WrapSum(top: nat, a: nat, b: nat, c: nat)
    requires b < WORD64
    ensures Wrap(Wrap(a + Wrap(b)) + c) == (top * WORD64 + b + c + a) % WORD64
    ensures Wrap(Wrap(Wrap(a + Wrap(b)) + c) + 1) == (top * WORD64 + b + c + a + 1) % WORD64
  {
    WrapSmall(b);
    WrapAdd(a + b, c);
    WrapAdd(a + b + c, 1);
    WrapTop(top, a + b + c);
    WrapTop(top, a + b + c + 1);
  }

  // MultiplyAndDivide64.

  /** The product, cut to 64 bits. */
  function Cut(x: nat, y: nat): Word {
    ProductNat(x, y);
    Wrap(x * y)
  }

  lemma ProductNat(x: nat, y: nat)
    ensures x * y >= 0
  {
  }

  /** The portable form, each operation cut to 64 bits. */
  function MultiplyAndDivide64(a: Word, b: Word, d: Word): Word
    requires d > 0
  {
    SumOfParts(Cut(Quot(a, d), b), Cut(a % d, Quot(b, d)), Cut(a % d, b % d), d)
  }

  function SumOfParts(p: Word, q: Word, x: Word, d: Word): Word
    requires d > 0
  {
    Wrap(Wrap(p + q) + Quot(x, d))
  }

  /** It is the quotient of the whole product, cut to 64 bits, exactly when the product of the remainders fits. */
  lemma MultiplyAndDivideExactIff(a: Word, b: Word, d: Word)
    requires d > 0
    ensures MultiplyAndDivide64(a, b, d) == Wrap((a * b) / d) <==> (a % d) * (b % d) < WORD64
  {
    var qa, ra, qb, rb := Quot(a, d), a % d, Quot(b, d), b % d;
    MulDivParts(a, b, d, qa, ra, qb, rb);
    ExactIff((a * b) / d, d, qa, b, ra, qb, rb);
  }

  lemma MulDivParts(a: nat, b: nat, d: nat, qa: nat, ra: nat, qb: nat, rb: nat)
    requires d > 0 && qa == a / d && ra == a % d && qb == b / d && rb == b % d
    ensures (a * b) / d == qa * b + ra * qb + (ra * rb) / d && (ra * rb) / d < d
  {
    DivMod(a, d);
    DivMod(b, d);
    ProductQuotient(qa, ra, qb, rb, d, a, b);
    RemaindersProduct(ra, rb, d);
  }

  lemma ExactIff(whole: nat, d: Word, qa: nat, b: nat, ra: nat, qb: nat, rb: nat)
    requires d > 0 && whole == qa * b + ra * qb + (ra * rb) / d && (ra * rb) / d < d
    ensures SumOfParts(Cut(qa, b), Cut(ra, qb), Cut(ra, rb), d) == Wrap(whole) <==> ra * rb < WORD64
  {
    ProductNat(qa, b);
    ProductNat(ra, qb);
    ProductNat(ra, rb);
    CutQuotient(ra * rb, d);
    PartsExactIff(qa * b, ra * qb, Quot(Cut(ra, rb), d), (ra * rb) / d);
  }

  lemma PartsExactIff(p: nat, q: nat, m: nat, n: nat)
    requires m <= n < WORD64
    ensures Wrap(Wrap(Wrap(p) + Wrap(q)) + m) == Wrap(p + q + n) <==> m == n
  {
    WrapOfThree(p, q, m);
    if m < n {
      WrapsDiffer(p + q + m, p + q + n);
    }
  }

  lemma WrapOfThree(p: nat, q: nat, m: nat)
    ensures Wrap(Wrap(Wrap(p) + Wrap(q)) + m) == Wrap(p + q + m)
  {
    WrapSumOfTwo(p, q);
    WrapAdd(p + q, m);
  }

  lemma WrapSumOfTwo(a: nat, b: nat)
    ensures Wrap(Wrap(a) + Wrap(b)) == Wrap(a + b)
  {
    WrapAdd(a, Wrap(b));
    WrapAdd(b, a);
  }

  /** The quotient of a product, from the quotients and remainders of its factors. */
  lemma ProductQuotient(qa: nat, ra: nat, qb: nat, rb: nat, d: nat, a: nat, b: nat)
    requires d > 0 && a == qa * d + ra && b == qb * d + rb
    ensures (a * b) / d == qa * b + ra * qb + (ra * rb) / d
  {
    ProductParts(qa, ra, qb, rb, d, b);
    QuotientPlus(ra * rb, d, qa * b + ra * qb);
  }

  lemma ProductParts(qa: nat, ra: nat, qb: nat, rb: nat, d: nat, b: nat)
    requires b == qb * d + rb
    ensures (qa * d + ra) * b == ra * rb + (qa * b + ra * qb) * d
  {
    MulSum(qa * d, ra, b);
    MulSum(qa * b, ra * qb, d);
    assert (qa * d) * b == (qa * b) * d;
    assert ra * b == ra * (qb * d) + ra * rb;
    assert ra * (qb * d) == (ra * qb) * d;
  }

  lemma RemaindersProduct(x: nat, y: nat, d: nat)
    requires x < d && y < d
    ensures 0 <= x * y && (x * y) / d < d
  {
    ProductLe(x, y, d - 1);
    MulSum(d - 1, 1, d - 1);
    MulSum(d - 1, 1, d);
    AboveQuotient(d, x * y, d);
  }

  /** Cutting the dividend to 64 bits shows in the quotient exactly when something is cut. */
  lemma CutQuotient(x: nat, d: Word)
    requires d > 0
    ensures if x < WORD64 then Wrap(x) / d == x / d else Wrap(x) / d < x / d
  {
    var w := Wrap(x);
    if x < WORD64 {
      WrapSmall(x);
    } else {
      Quotient(w, d);
      MulSum(w / d, 1, d);
      WrapFar(x);
      BelowQuotient(w / d + 1, x, d);
    }
  }

  lemma WrapFar(x: nat)
    requires x >= WORD64
    ensures Wrap(x) + WORD64 <= x
  {
  }

  lemma WrapsDiffer(m: nat, n: nat)
    requires m < n < m + WORD64
    ensures Wrap(m) != Wrap(n)
  {
  }

  /** 2^32 times 2^32 over 2^33 is 2^31; the portable form loses all of it. */
  lemma CutOccurs()
    ensures (U32 * U32) / (2 * U32) == 0x8000_0000 && MultiplyAndDivide64(U32, U32, 2 * U32) == 0
  {
  }

  // The clock.

  /** GetFixedPoint64Factor: numerator / divisor as a 64-bit fraction, cut to 64 bits. */
  function Factor(numerator: nat, divisor: nat): Word
    requires divisor > 0
  {
    Wrap((numerator * WORD64) / divisor)
  }

  /** GetTimeNS, GetTimeUS and GetTimeMS, for the unit's count per second. */
  function ClockTime(ticks: Word, unit: nat, freq: nat): Word
    requires freq > 0
  {
    MultiplyHigh(ticks, Factor(unit, freq))
  }

  /** What the clock should show. */
  function TrueTime(ticks: nat, unit: nat, freq: nat): int
    requires freq > 0
  {
    (ticks * unit) / freq
  }

  /** The product of ticks and factor never overtakes the true time. */
  lemma NotAhead(t: nat, f: nat, u: nat, q: nat, a: nat)
    requires q > 0 && f * q <= u * WORD64 && a * WORD64 <= t * f
    ensures a * q <= t * u
  {
    MulMonotone(a * WORD64, t * f, q);
    assert (a * q) * WORD64 == (a * WORD64) * q;
    assert (t * f) * q == t * (f * q);
    MulMonotone(f * q, u * WORD64, t);
    assert t * (f * q) == (f * q) * t && t * (u * WORD64) == (u * WORD64) * t;
    assert t * (u * WORD64) == (t * u) * WORD64;
    assert (a * q) * WORD64 <= (t * u) * WORD64;
  }

  /** Nor does it fall back by two. */
  lemma NotTwoBehind(t: nat, f: nat, u: nat, q: nat, r: nat, a: nat)
    requires q > 0 && t < WORD64 && r < q && u * WORD64 == f * q + r && t * f < (a + 1) * WORD64
    ensures t * u < (a + 2) * q
  {
    assert (t * u) * WORD64 == t * (f * q + r);
    assert t * (f * q + r) == (t * f) * q + t * r;
    MulMonotone(t * f + 1, (a + 1) * WORD64, q);
    MulSum(t * f, 1, q);
    assert ((a + 1) * WORD64) * q == ((a + 1) * q) * WORD64;
    MulMonotone(t, WORD64, r);
    MulMonotone(r, q - 1, WORD64);
    assert WORD64 * r == r * WORD64;
    assert ((a + 1) * q + q) * WORD64 == ((a + 1) * q) * WORD64 + q * WORD64;
    assert (a + 2) * q == (a + 1) * q + q by { MulSum(a + 1, 1, q); }
  }

  lemma BelowQuotient(a: nat, n: nat, q: nat)
    requires q > 0 && a * q <= n
    ensures a <= n / q
  {
    Quotient(n, q);
    if n / q < a {
      MulMonotone(n / q + 1, a, q);
    }
  }

  lemma AboveQuotient(a: nat, n: nat, q: nat)
    requires q > 0 && n < a * q
    ensures n / q < a
  {
    Quotient(n, q);
    if a <= n / q {
      MulMonotone(a, n / q, q);
    }
  }

  /** The clock shows the true time rounded down, or one less. */
  ghost predicate Close(ticks: Word, unit: nat, freq: nat)
    requires freq > 0
  {
    TrueTime(ticks, unit, freq) - 1 <= ClockTime(ticks, unit, freq) <= TrueTime(ticks, unit, freq)
  }

  lemma FactorWhole(u: nat, q: nat)
    requires u < q
    ensures Factor(u, q) == (u * WORD64) / q && Factor(u, q) * q + (u * WORD64) % q == u * WORD64
  {
    MulMonotone(u + 1, q, WORD64);
    assert WORD64 * q == q * WORD64;
    AboveQuotient(WORD64, u * WORD64, q);
    WrapSmall((u * WORD64) / q);
  }

  lemma Upper(t: nat, f: nat, u: nat, q: nat, a: nat)
    requires q > 0 && f * q <= u * WORD64 && a == (t * f) / WORD64
    ensures a <= (t * u) / q
  {
    Quotient(t * f, WORD64);
    NotAhead(t, f, u, q, a);
    BelowQuotient(a, t * u, q);
  }

  lemma Lower(t: nat, f: nat, u: nat, q: nat, r: nat, a: nat)
    requires q > 0 && t < WORD64 && r < q && u * WORD64 == f * q + r && a == (t * f) / WORD64
    ensures (t * u) / q < a + 2
  {
    Quotient(t * f, WORD64);
    NotTwoBehind(t, f, u, q, r, a);
    AboveQuotient(a + 2, t * u, q);
  }

  lemma ClockIsClose(t: Word, u: nat, q: nat)
    requires u < q
    ensures Close(t, u, q)
  {
    var f := Factor(u, q);
    FactorWhole(u, q);
    var a, r := ClockTime(t, u, q), (u * WORD64) % q;
    Upper(t, f, u, q, a);
    Lower(t, f, u, q, r, a);
  }

  /** With a unit at or above the frequency the factor is cut, and the clock loses a tick per tick. */
  lemma CutFactorLoses(t: Word, u: nat, q: nat)
    requires 0 < q <= u
    ensures ClockTime(t, u, q) + t <= TrueTime(t, u, q)
  {
    var f := Factor(u, q);
    CutFactor(u - q, u, q);
    Upper(t, f, u - q, q, ClockTime(t, u, q));
    WholeTicks(t, u - q, u, q);
  }

  lemma WholeTicks(t: nat, v: nat, u: nat, q: nat)
    requires q > 0 && u == v + q
    ensures (t * v) / q + t <= (t * u) / q
  {
    var k := (t * v) / q;
    Quotient(t * v, q);
    MulSum(k, t, q);
    assert t * u == t * v + t * q;
    BelowQuotient(k + t, t * u, q);
  }

  lemma CutFactor(v: nat, u: nat, q: nat)
    requires 0 < q && u == v + q
    ensures Factor(u, q) * q <= v * WORD64
  {
    var n := v * WORD64;
    assert u * WORD64 == n + WORD64 * q;
    QuotientPlus(n, q, WORD64);
    Quotient(n, q);
    WrapBelow(n / q);
    MulMonotone(Factor(u, q), n / q, q);
  }

  lemma QuotientPlus(n: nat, q: nat, k: nat)
    requires q > 0
    ensures (n + k * q) / q == n / q + k
  {
    MulSum(n / q, k, q);
    DivUnique(n + k * q, q, n / q + k, n % q);
  }

  lemma WrapBelow(n: nat)
    ensures Wrap(n + WORD64) <= n
  {
  }

  /** The clock is right to within one unit for every tick count exactly when its unit is below the frequency. */
  lemma CloseIffUnitBelowFrequency(u: nat, q: nat)
    requires q > 0
    ensures (forall t: Word :: Close(t, u, q)) <==> u < q
  {
    if u < q {
      forall t: Word ensures Close(t, u, q) {
        ClockIsClose(t, u, q);
      }
    } else {
      CutFactorLoses(2, u, q);
      assert !Close(2, u, q);
    }
  }

  /** The clock never goes back. */
  lemma ClockMonotone(t: Word, later: Word, u: nat, q: nat)
    requires q > 0 && t <= later
    ensures ClockTime(t, u, q) <= ClockTime(later, u, q)
  {
    var f := Factor(u, q);
    MulMonotone(t, later, f);
  }

  /** One less does occur: three ticks of a counter at 3 Hz are a second, and the clock shows 0. */
  lemma OneLessOccurs()
    ensures TrueTime(3, 1, 3) == 1 && ClockTime(3, 1, 3) == 0
  {
  }
}
