/** Powers of two, bit reversal and bitwise or on natural numbers. */
module Bits {

  function Pow2(n: nat): (r: nat)
    ensures r > 0
  {
    if n == 0 then 1 else 2 * Pow2(n - 1)
  }

  lemma MulMonotone(a: int, b: int, p: int)
    requires a <= b && p >= 0
    ensures a * p <= b * p
  {
  }

  lemma MulMonotoneIff(a: int, b: int, p: int)
    requires p > 0
    ensures a <= b <==> a * p <= b * p
  {
    if a <= b {
      MulMonotone(a, b, p);
    } else {
      MulMonotone(b + 1, a, p);
      MulSum(b, 1, p);
    }
  }

  lemma MulSum(a: int, b: int, p: int)
    ensures (a + b) * p == a * p + b * p
  {
  }

  lemma MulAssociates(a: int, b: int, c: int)
    ensures (a * b) * c == a * (b * c)
  {
  }

  /** The quotient says between which multiples a number lies. */
  lemma Quotient(k: nat, p: nat)
    requires p > 0
    ensures (k / p) * p <= k < (k / p + 1) * p
  {
    MulSum(k / p, 1, p);
    assert k == (k / p) * p + k % p;
  }

  lemma Pow2Add(m: nat, n: nat)
    ensures Pow2(m + n) == Pow2(m) * Pow2(n)
  {
    if m > 0 {
      Pow2Add(m - 1, n);
      assert 2 * (Pow2(m - 1) * Pow2(n)) == (2 * Pow2(m - 1)) * Pow2(n);
    }
  }

  lemma Pow2Monotone(m: nat, n: nat)
    requires m <= n
    ensures Pow2(m) <= Pow2(n)
  {
    if m < n { Pow2Monotone(m, n - 1); }
  }

  /** Left shift. */
  function Shl(n: nat, m: nat): nat
    decreases m
  {
    if m == 0 then n else Shl(2 * n, m - 1)
  }

  lemma {:induction false} ShlIsMul(n: nat, m: nat)
    ensures Shl(n, m) == n * Pow2(m)
    decreases m
  {
    if m > 0 {
      ShlIsMul(2 * n, m - 1);
      MulAssociates(n, 2, Pow2(m - 1));
    }
  }

  lemma {:induction false} ShlMonotone(a: nat, b: nat, m: nat)
    requires a <= b
    ensures Shl(a, m) <= Shl(b, m)
    decreases m
  {
    if m > 0 { ShlMonotone(2 * a, 2 * b, m - 1); }
  }

  lemma {:induction false} ShlSum(a: nat, b: nat, m: nat)
    ensures Shl(a + b, m) == Shl(a, m) + Shl(b, m)
    decreases m
  {
    if m > 0 { ShlSum(2 * a, 2 * b, m - 1); }
  }

  lemma {:induction false} ShlZero(m: nat)
    ensures Shl(0, m) == 0
  {
    if m > 0 { ShlZero(m - 1); }
  }

  lemma ShlUnfold(n: nat, m: nat, n': nat, m': nat)
    requires n' == 2 * n && m' + 1 == m
    ensures Shl(n, m) == Shl(n', m')
  {
  }

  lemma ShlStep(n: nat, m: nat)
    requires m > 0
    ensures Shl(n, m) == Shl(2 * n, m - 1) == 2 * Shl(n, m - 1)
  {
    ShlSum(n, n, m - 1);
  }

  /** Right shift. */
  function Shr(k: nat, m: nat): nat
    decreases m
  {
    if m == 0 then k else Shr(k / 2, m - 1)
  }

  /** A number lies between its shifted-down part and the next, shifted up again. */
  lemma {:induction false} ShrBounds(k: nat, m: nat)
    ensures Shl(Shr(k, m), m) <= k < Shl(Shr(k, m) + 1, m)
    decreases m
  {
    if m > 0 {
      ShrBounds(k / 2, m - 1);
      ShlStep(Shr(k, m), m);
      ShlStep(Shr(k, m) + 1, m);
    }
  }

  /** A number lies between two shifted-up bounds exactly when its shifted-down part lies between them. */
  lemma ShrBetween(k: nat, m: nat, a: nat, b: nat)
    ensures Shl(a, m) <= k < Shl(b, m) <==> a <= Shr(k, m) < b
  {
    ShrAtLeast(k, m, a);
    ShrAtLeast(k, m, b);
  }

  lemma ShrAtLeast(k: nat, m: nat, a: nat)
    ensures Shl(a, m) <= k <==> a <= Shr(k, m)
  {
    var c := Shr(k, m);
    ShrBounds(k, m);
    if a <= c {
      ShlMonotone(a, c, m);
    } else {
      ShlMonotone(c + 1, a, m);
    }
  }

  /** Shifting down what was shifted up by less. */
  lemma {:induction false} ShrShl(c: nat, m: nat, n: nat)
    ensures Shr(Shl(c, m), m + n) == Shr(c, n)
    decreases m
  {
    if m > 0 {
      ShlStep(c, m);
      ShrShl(c, m - 1, n);
    }
  }

  /** Euclid's division theorem, read backwards. */
  lemma DivUnique(a: int, d: int, q: int, r: int)
    requires d > 0 && a == q * d + r && 0 <= r < d
    ensures a / d == q && a % d == r
  {
    var q', r' := a / d, a % d;
    assert a == q' * d + r';
    assert (q - q') * d == r' - r;
    assert q - q' >= 1 ==> (q - q') * d >= d;
    assert q - q' <= -1 ==> (q - q') * d <= -d;
  }

  /** From one number with residue `start`, the next one comes `p` later. */
  lemma NextResidue(k: nat, j: nat, p: nat, start: nat)
    requires p > 0 && j % p == start && j <= k <= j + p
    ensures k % p == start <==> k == j || k == j + p
  {
    var q := j / p;
    assert j == q * p + start;
    MulSum(q, 1, p);
    if k < (q + 1) * p {
      DivUnique(k, p, q, k - q * p);
    } else {
      DivUnique(k, p, q + 1, k - (q + 1) * p);
    }
  }

  lemma DivSum(b: nat, p: nat, d: nat, rest: nat)
    requires d > 0
    ensures (b * (p * d) + rest) / d == b * p + rest / d
  {
    assert b * (p * d) == (b * p) * d;
    var q := b * p + rest / d;
    assert q * d == (b * p) * d + (rest / d) * d;
    DivUnique(b * (p * d) + rest, d, q, rest % d);
  }

  lemma DivDiv(a: nat, c: nat, d: nat)
    requires c > 0 && d > 0
    ensures c * d > 0 && (a / c) / d == a / (c * d)
  {
    var q, r := (a / c) / d, (a / c) % d;
    assert c * d >= 1;
    assert a == (q * d + r) * c + a % c;
    assert (q * d + r) * c == q * (c * d) + r * c;
    assert r * c + a % c < c * d by { assert r + 1 <= d; assert (r + 1) * c <= d * c; }
    assert r * c >= 0;
    DivUnique(a, c * d, q, r * c + a % c);
  }

  lemma Pow2Of16()
    ensures Pow2(16) == 0x10000
  {
    assert Pow2(4) == 16;
    Pow2Add(4, 4);
    Pow2Add(8, 8);
  }

  const WORD64 := 0x1_0000_0000_0000_0000

  lemma Pow2Of64(n: nat)
    requires n == 64
    ensures Pow2(n) == WORD64
  {
    var k := n - 48;
    Pow2Of16();
    Pow2Add(k, k);
    Pow2Add(k + k, k + k);
  }

  /** A number has at most `l` bits exactly when it stays within 2^16 after filling up with zeros. */
  lemma FitsIffShiftFits(n: nat, l: nat)
    requires l <= 16
    ensures n <= Pow2(l) <==> Shl(n, 16 - l) <= 0x10000
  {
    Pow2Add(l, 16 - l);
    Pow2Of16();
    ShlIsMul(n, 16 - l);
    MulMonotoneIff(n, Pow2(l), Pow2(16 - l));
  }

  lemma {:induction false} ShrIsDiv(k: nat, m: nat)
    ensures Shr(k, m) == k / Pow2(m)
    decreases m
  {
    if m > 0 {
      ShrIsDiv(k / 2, m - 1);
      DivDiv(k, 2, Pow2(m - 1));
    }
  }

  /** The low `n` bits of `v` in the opposite order. */
  function Rev(n: nat, v: nat): (r: nat)
    ensures r < Pow2(n)
  {
    if n == 0 then 0 else (v % 2) * Pow2(n - 1) + Rev(n - 1, v / 2)
  }

  /** The leading bits of a reversal are the reversal of the trailing bits. */
  lemma {:induction false} RevPrefix(n: nat, s: nat, v: nat)
    requires s <= n
    ensures Shr(Rev(n, v), n - s) == Rev(s, v)
  {
    ShrIsDiv(Rev(n, v), n - s);
    if s == 0 {
      DivUnique(Rev(n, v), Pow2(n), 0, Rev(n, v));
    } else {
      var low, r := v % 2, Rev(n - 1, v / 2);
      RevPrefix(n - 1, s - 1, v / 2);
      RevNext(n, v, low);
      RevNext(s, v, low);
      ShrIsDiv(r, n - s);
      Pow2Add(s - 1, n - s);
      PrefixStep(Rev(n, v), low, Pow2(s - 1), Pow2(n - s), r, Rev(s - 1, v / 2));
    }
  }

  lemma PrefixStep(n: nat, low: nat, a: nat, d: nat, r: nat, q: nat)
    requires d > 0 && n == low * (a * d) + r && q == r / d
    ensures n / d == low * a + q
  {
    DivSum(low, a, d, r);
  }

  lemma {:induction false} RevMod(n: nat, v: nat)
    ensures Rev(n, v % Pow2(n)) == Rev(n, v)
  {
    if n > 0 {
      var d := Pow2(n - 1);
      var w := v % Pow2(n);
      LowParts(v, 2, d);
      RevMod(n - 1, v / 2);
    }
  }

  lemma DivMod(n: nat, d: nat)
    requires d > 0
    ensures n == (n / d) * d + n % d
  {
  }

  /** The low part of a number, cut in two at a lower place. */
  lemma LowParts(n: nat, b: nat, p: nat)
    requires b > 0 && p > 0
    ensures b * p > 0 && (n % (b * p)) % b == n % b && (n % (b * p)) / b == (n / b) % p
  {
    DivMod(n, b);
    DivMod(n / b, p);
    LowPart(n, b, p, n / b, (n / b) / p, (n / b) % p, n % b);
  }

  lemma LowPart(n: nat, b: nat, p: nat, h: nat, q: nat, r: nat, low: nat)
    requires n == h * b + low && low < b && h == q * p + r && r < p
    ensures b * p > 0 && (n % (b * p)) % b == low && (n % (b * p)) / b == r
  {
    MulSum(q * p, r, b);
    MulAssociates(q, p, b);
    MulMonotone(r + 1, p, b);
    MulSum(r, 1, b);
    assert b * p == p * b && r * b >= 0;
    DivUnique(n, p * b, q, r * b + low);
    DivUnique(r * b + low, b, r, low);
  }

  /** The highest bit of the argument becomes the lowest of the reversal. */
  lemma {:induction false} RevTop(n: nat, v: nat)
    requires v < Pow2(n + 1)
    ensures Rev(n + 1, v) == 2 * Rev(n, v % Pow2(n)) + v / Pow2(n)
  {
    RevMod(n, v);
    if n == 0 {
      assert Rev(1, v) == v % 2;
    } else {
      var low, p := v % 2, Pow2(n - 1);
      RevTop(n - 1, v / 2);
      RevMod(n - 1, v / 2);
      DivDiv(v, 2, p);
      RevNext(n + 1, v, low);
      RevNext(n, v, low);
      TwiceSum(Rev(n + 1, v), Rev(n, v), Rev(n, v / 2), Rev(n - 1, v / 2), low, p, v / Pow2(n));
    }
  }

  lemma TwiceSum(a: int, b: int, c: int, d: int, low: int, p: int, q: int)
    requires a == low * (2 * p) + c && b == low * p + d && c == 2 * d + q
    ensures a == 2 * b + q
  {
    assert low * (2 * p) == 2 * (low * p);
  }

  lemma RevNext(n: nat, v: nat, low: nat)
    requires n > 0 && low == v % 2
    ensures Rev(n, v) == low * Pow2(n - 1) + Rev(n - 1, v / 2)
  {
  }

  lemma {:induction false} RevInvolutive(n: nat, v: nat)
    requires v < Pow2(n)
    ensures Rev(n, Rev(n, v)) == v
  {
    if n > 0 {
      var r, d := Rev(n - 1, v / 2), Pow2(n - 1);
      RevInvolutive(n - 1, v / 2);
      DivUnique(Rev(n, v), d, v % 2, r);
      RevTop(n - 1, Rev(n, v));
    }
  }

  lemma {:induction false} ShlTwice(x: nat, m: nat, n: nat)
    ensures Shl(x, m + n) == Shl(Shl(x, m), n)
    decreases m
  {
    if m > 0 { ShlTwice(2 * x, m - 1, n); }
  }

  lemma {:induction false} ShlOne(m: nat)
    ensures Shl(1, m) == Pow2(m)
  {
    if m > 0 {
      ShlStep(1, m);
      ShlOne(m - 1);
    }
  }

  /** Bits placed above the low `n` leave the lowest `m <= n` alone. */
  lemma LowBits(low: nat, high: nat, n: nat, m: nat)
    requires m <= n
    ensures (low + Shl(high, n)) % Pow2(m) == low % Pow2(m)
  {
    ShlTwice(high, n - m, m);
    ShlIsMul(Shl(high, n - m), m);
    AddMultiple(low, Shl(high, n - m), Pow2(m));
  }

  lemma AddMultiple(a: nat, q: nat, d: nat)
    requires d > 0
    ensures (a + q * d) % d == a % d
  {
    MulSum(a / d, q, d);
    DivUnique(a + q * d, d, a / d + q, a % d);
  }

  /** Shifting down takes bits off the low part first. */
  lemma {:induction false} ShrParts(low: nat, high: nat, n: nat, m: nat)
    requires m <= n
    ensures Shr(low + Shl(high, n), m) == Shr(low, m) + Shl(high, n - m)
    decreases m
  {
    if m > 0 {
      ShlStep(high, n);
      ShrParts(low / 2, high, n - 1, m - 1);
    }
  }

  lemma {:induction false} ShrFits(k: nat, n: nat, m: nat)
    requires m <= n && k < Pow2(n)
    ensures Shr(k, m) < Pow2(n - m)
    decreases m
  {
    if m > 0 { ShrFits(k / 2, n - 1, m - 1); }
  }

  /** Or-ing a byte in above `n` bits. */
  lemma ByteAbove(low: nat, b: nat, rest: nat, n: nat)
    requires low < Pow2(n) && b < 256
    ensures BitOr(low, Shl(b, n)) == low + Shl(b, n) < Pow2(n + 8)
    ensures low + Shl(b + 256 * rest, n) == (low + Shl(b, n)) + Shl(rest, n + 8)
  {
    ShlIsMul(b, n);
    OrIsSum(n, low, b);
    ShlOne(n);
    ShlOne(n + 8);
    ShlMonotone(b, 255, n);
    ShlSum(1, 255, n);
    Shl8(1);
    ShlTwice(1, 8, n);
    ShlSum(b, 256 * rest, n);
    Shl8(rest);
    ShlTwice(rest, 8, n);
  }

  lemma Shl8(x: nat)
    ensures Shl(x, 8) == 256 * x
  {
    ShlIsMul(x, 8);
    assert Pow2(8) == 256;
  }

  /** Bitwise or. */
  function BitOr(a: nat, b: nat): nat
    decreases a + b
  {
    if a == 0 && b == 0 then 0
    else (if a % 2 == 1 || b % 2 == 1 then 1 else 0) + 2 * BitOr(a / 2, b / 2)
  }

  /** Or-ing in bits above all bits of `a` adds them. */
  lemma {:induction false} OrIsSum(n: nat, a: nat, b: nat)
    requires a < Pow2(n)
    ensures BitOr(a, b * Pow2(n)) == a + b * Pow2(n)
  {
    if n == 0 {
      OrZero(b);
      assert b * Pow2(n) == b;
    } else if a != 0 || b != 0 {
      assert b * Pow2(n) == 2 * (b * Pow2(n - 1));
      OrIsSum(n - 1, a / 2, b);
    }
  }

  lemma {:induction false} OrZero(b: nat)
    ensures BitOr(0, b) == b
  {
    if b > 0 { OrZero(b / 2); }
  }
}
