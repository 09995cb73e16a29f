/** The number a 32-bit word stands for, read off its bits, and what addition and packing do to it. */
module WordNumbers {
  import opened CipherModes
  import opened Bits
  import opened Counter
  import AesModes

  type Word = bv32

  function Half(x: Word): Word { x >> 1 }

  function Low(x: Word): (r: nat)
    ensures r <= 1
  {
    if x & 1 != 0 then 1 else 0
  }

  /** The number of the lowest `n` bits; of the word, when `n` is its width. */
  function Num(x: Word, n: nat): nat
    decreases n
  {
    if n == 0 then 0 else Low(x) + 2 * Num(Half(x), n - 1)
  }

  /** The lowest `n` bits are set. */
  predicate Ones(m: Word, n: nat)
    decreases n
  {
    n == 0 || (Low(m) == 1 && Ones(Half(m), n - 1))
  }

  lemma AndParts(x: Word, m: Word)
    ensures Half(x & m) == Half(x) & Half(m) && (Low(m) == 1 ==> Low(x & m) == Low(x))
  {
  }

  /** A mask of ones leaves the bits below it. */
  lemma {:induction false} NumMasked(x: Word, m: Word, n: nat)
    requires Ones(m, n)
    ensures Num(x & m, n) == Num(x, n)
    decreases n
  {
    if n > 0 {
      AndParts(x, m);
      NumMasked(Half(x), Half(m), n - 1);
    }
  }

  lemma {:induction false} FewerOnes(m: Word, n: nat, k: nat)
    requires Ones(m, n) && k <= n
    ensures Ones(m, k)
    decreases n
  {
    if k > 0 { FewerOnes(Half(m), n - 1, k - 1); }
  }

  lemma EvenNext(x: Word)
    requires x & 1 == 0
    ensures Half(x + 1) == Half(x) && Low(x + 1) == 1
  {
  }

  lemma OddNext(x: Word)
    requires x & 1 != 0
    ensures Half(x + 1) == (Half(x) + 1) & 0x7FFF_FFFF && Low(x + 1) == 0
  {
  }

  lemma {:induction false} NumBound(x: Word, n: nat)
    ensures Num(x, n) < Pow2(n)
    decreases n
  {
    if n > 0 { NumBound(Half(x), n - 1); }
  }

  lemma OnesStep(m: Word, h: Word, n: nat, n': nat)
    requires Half(m) == h && Low(m) == 1 && Ones(h, n) && n' == n + 1
    ensures Ones(m, n')
  {
  }

  /** Eight ones more. */
  lemma EightMore(m: Word, h: Word, n: nat)
    requires h == m >> 8 && m & 0xFF == 0xFF && Ones(h, n)
    ensures Ones(m, n + 8)
  {
    OnesStep(m >> 7, h, n, n + 1);
    OnesStep(m >> 6, m >> 7, n + 1, n + 2);
    OnesStep(m >> 5, m >> 6, n + 2, n + 3);
    OnesStep(m >> 4, m >> 5, n + 3, n + 4);
    OnesStep(m >> 3, m >> 4, n + 4, n + 5);
    OnesStep(m >> 2, m >> 3, n + 5, n + 6);
    OnesStep(m >> 1, m >> 2, n + 6, n + 7);
    OnesStep(m, m >> 1, n + 7, n + 8);
  }

  lemma SevenOnes()
    ensures Ones(0x7F, 7)
  {
  }

  lemma EightOnes()
    ensures Ones(0xFF, 8)
  {
  }

  lemma AllButTop(n: nat)
    requires n == 7
    ensures Ones(0x7FFF_FFFF, n + 24)
  {
    SevenOnes();
    EightMore(0x7FFF, 0x7F, n);
    EightMore(0x7F_FFFF, 0x7FFF, n + 8);
    EightMore(0x7FFF_FFFF, 0x7F_FFFF, n + 16);
  }

  lemma NextWraps(a: nat, p: nat, low: nat, next: nat)
    requires a < p && (low == 0 ==> next == a) && (low == 1 ==> next == (a + 1) % p) && low <= 1
    ensures (1 - low) + 2 * next == (low + 2 * a + 1) % (2 * p)
  {
    if low == 1 && a + 1 == p {
      Bits.DivUnique(2 * p, 2 * p, 1, 0);
      Bits.DivUnique(p, p, 1, 0);
    } else {
      Bits.DivUnique(low + 2 * a + 1, 2 * p, 0, low + 2 * a + 1);
      if low == 1 { Bits.DivUnique(a + 1, p, 0, a + 1); }
    }
  }

  /** Adding one, on the lowest `n` bits. */
  lemma {:induction false} NextNum(x: Word, n: nat)
    requires n <= 32
    ensures Num(x + 1, n) == (Num(x, n) + 1) % Pow2(n)
    decreases n
  {
    if n > 0 {
      if x & 1 == 0 {
        EvenNextNum(x, n);
      } else {
        NextNum(Half(x), n - 1);
        OddNextNum(x, n);
      }
    }
  }

  lemma NumBelowTop(x: Word, n: nat)
    requires n <= 31
    ensures Num(x & 0x7FFF_FFFF, n) == Num(x, n)
  {
    AllButTop(7);
    FewerOnes(0x7FFF_FFFF, 31, n);
    NumMasked(x, 0x7FFF_FFFF, n);
  }

  lemma EvenNextNum(x: Word, n: nat)
    requires 0 < n && x & 1 == 0
    ensures Num(x + 1, n) == (Num(x, n) + 1) % Pow2(n)
  {
    EvenNext(x);
    NumBound(Half(x), n - 1);
    NextWraps(Num(Half(x), n - 1), Pow2(n - 1), 0, Num(Half(x), n - 1));
  }

  lemma OddNextNum(x: Word, n: nat)
    requires 0 < n <= 32 && x & 1 != 0
    requires Num(Half(x) + 1, n - 1) == (Num(Half(x), n - 1) + 1) % Pow2(n - 1)
    ensures Num(x + 1, n) == (Num(x, n) + 1) % Pow2(n)
  {
    OddNext(x);
    NumBound(Half(x), n - 1);
    NumBelowTop(Half(x) + 1, n - 1);
    NextWraps(Num(Half(x), n - 1), Pow2(n - 1), 1, Num(Half(x) + 1, n - 1));
  }

  lemma WrapTwice(a: nat, b: nat, c: nat, p: nat)
    requires p > 0 && b == (c + 1) % p
    ensures ((a + c) % p + 1) % p == (a + b) % p
  {
    Bits.DivMod(a + c, p);
    Bits.DivMod(c + 1, p);
    Bits.AddMultiple((a + c) % p + 1, (a + c) / p, p);
    Bits.AddMultiple(a + b, (c + 1) / p, p);
  }

  /** The number behind another. */
  ghost predicate Follows(a: nat, b: nat, p: nat)
    requires p > 0
  {
    b == (a + 1) % p
  }

  lemma NextFollows(w: Word, z: Word, n: nat)
    requires n <= 32 && z == w + 1
    ensures Follows(Num(w, n), Num(z, n), Pow2(n))
  {
    NextNum(w, n);
  }

  /** `c` is the sum of `a` and `b`. */
  ghost predicate Sums(a: nat, b: nat, c: nat, p: nat)
    requires p > 0
  {
    c == (a + b) % p
  }

  lemma SumFollows(a: nat, b: nat, c: nat, b': nat, c': nat, p: nat)
    requires p > 0 && Sums(a, b, c, p) && Follows(b, b', p) && Follows(c, c', p)
    ensures Sums(a, b', c', p)
  {
    WrapTwice(a, b', b, p);
  }

  lemma {:induction false} ZeroNum(n: nat)
    ensures Num(0, n) == 0
  {
    if n > 0 {
      assert Half(0) == 0;
      ZeroNum(n - 1);
    }
  }

  /** The sum of two words has the sum of their numbers. */
  ghost predicate Adds(x: Word, y: Word, n: nat) { Sums(Num(x, n), Num(y, n), Num(x + y, n), Pow2(n)) }

  lemma AddsZero(x: Word, n: nat)
    ensures Adds(x, 0, n)
  {
    ZeroNum(n);
    NumBound(x, n);
    Bits.DivUnique(Num(x, n), Pow2(n), 0, Num(x, n));
  }

  lemma AddsNext(x: Word, w: Word, n: nat)
    requires n <= 32 && Adds(x, w, n)
    ensures Adds(x, w + 1, n)
  {
    NextFollows(w, w + 1, n);
    NextFollows(x + w, x + (w + 1), n);
    SumFollows(Num(x, n), Num(w, n), Num(x + w, n), Num(w + 1, n), Num(x + (w + 1), n), Pow2(n));
  }

  lemma {:induction false} AddsAll(x: Word, y: Word, n: nat)
    requires n <= 32
    ensures Adds(x, y, n)
    decreases y
  {
    if y == 0 {
      AddsZero(x, n);
    } else {
      var w := y - 1;
      AddsAll(x, w, n);
      AddsBefore(x, w, y, n);
    }
  }

  lemma AddsBefore(x: Word, w: Word, y: Word, n: nat)
    requires n <= 32 && w + 1 == y && Adds(x, w, n)
    ensures Adds(x, y, n)
  {
    AddsNext(x, w, n);
  }

  /** Addition of words is addition of their numbers modulo 2^32, and so on fewer bits. */
  lemma SumNum(x: Word, y: Word, n: nat)
    requires n <= 32
    ensures Num(x + y, n) == (Num(x, n) + Num(y, n)) % Pow2(n)
  {
    AddsAll(x, y, n);
  }

  // Packing.

  function Halved(x: Word, m: nat): Word
    decreases m
  {
    if m == 0 then x else Halved(Half(x), m - 1)
  }

  lemma {:induction false} NumSplit(x: Word, m: nat, k: nat)
    ensures Num(x, m + k) == Num(x, m) + Pow2(m) * Num(Halved(x, m), k)
    decreases m
  {
    if m > 0 {
      NumSplit(Half(x), m - 1, k);
      Bits.MulAssociates(2, Pow2(m - 1), Num(Halved(x, m), k));
    }
  }

  lemma FourHalves(x: Word, m: nat)
    requires m == 4
    ensures Halved(x, m) == x >> 4
  {
  }

  lemma {:induction false} HalvedTwice(x: Word, m: nat, k: nat)
    ensures Halved(x, m + k) == Halved(Halved(x, m), k)
    decreases m
  {
    if m > 0 { HalvedTwice(Half(x), m - 1, k); }
  }

  lemma EightHalves(x: Word, m: nat)
    requires m == 4
    ensures Halved(x, m + m) == x >> 8
  {
    HalvedTwice(x, m, m);
    FourHalves(x, m);
    FourHalves(x >> 4, m);
  }

  /** A byte as a word. */
  function Wide(d: Byte): Word { AesModes.ToBits(d) as bv32 }

  lemma NibbleNum(d: nat, m: nat)
    requires d < 16 && m == 4
    ensures Num(AesModes.Nibble(d) as bv32, m) == d
  {
  }

  lemma FourOnes()
    ensures Ones(0xF, 4)
  {
  }

  lemma WideHalves(d: Byte)
    ensures Wide(d) >> 4 == AesModes.Nibble(d / 16) as bv32 && Wide(d) & 0xF == AesModes.Nibble(d % 16) as bv32
  {
    AesModes.NibbleSmall(d / 16);
    AesModes.NibbleSmall(d % 16);
    WideParts(AesModes.Nibble(d / 16), AesModes.Nibble(d % 16));
  }

  lemma WideParts(hi: bv8, lo: bv8)
    requires hi & 0xF0 == 0 && lo & 0xF0 == 0
    ensures (AesModes.Join(hi, lo) as bv32) >> 4 == hi as bv32 && (AesModes.Join(hi, lo) as bv32) & 0xF == lo as bv32
  {
  }

  lemma WideLow(d: Byte, m: nat)
    requires m == 4
    ensures Num(Wide(d), m) == d % 16
  {
    WideHalves(d);
    FourOnes();
    NumMasked(Wide(d), 0xF, m);
    NibbleNum(d % 16, m);
  }

  lemma WideHigh(d: Byte, m: nat)
    requires m == 4
    ensures Num(Halved(Wide(d), m), m) == d / 16
  {
    FourHalves(Wide(d), m);
    WideHalves(d);
    NibbleNum(d / 16, m);
  }

  lemma Sixteen(m: nat)
    requires m == 4
    ensures Pow2(m) == 16 && Pow2(m + m) == 256
  {
    Bits.Pow2Add(m, m);
  }

  /** The number of a byte is the byte. */
  lemma WideNum(d: Byte, m: nat)
    requires m == 4
    ensures Num(Wide(d), m + m) == d
  {
    NumSplit(Wide(d), m, m);
    WideLow(d, m);
    WideHigh(d, m);
    Sixteen(m);
  }

  /** The last byte of a word, and the word without it. */
  function Last8(w: Word): Word { w & 0xFF }
  function Shr8(w: Word): Word { w >> 8 }

  lemma LastByteNum(w: Word, d: Byte, m: nat)
    requires m == 4 && Last8(w) == Wide(d)
    ensures Num(w, m + m) == d
  {
    EightOnes();
    NumMasked(w, 0xFF, m + m);
    WideNum(d, m);
  }

  lemma LastByte(w: Word, d: Byte, k: nat, n: nat, m: nat)
    requires m == 4 && Last8(w) == Wide(d) && n == m + m + k
    ensures Num(w, n) == d + 256 * Num(Shr8(w), k)
  {
    NumSplit(w, m + m, k);
    EightHalves(w, m);
    LastByteNum(w, d, m);
    Sixteen(m);
  }

  function Packed(a: Byte, b: Byte, c: Byte, d: Byte): Word {
    (Wide(a) << 24) | (Wide(b) << 16) | (Wide(c) << 8) | Wide(d)
  }

  lemma WideSmall(d: Byte)
    ensures Wide(d) & 0xFFFF_FF00 == 0
  {
  }

  lemma PackedParts(a: Word, b: Word, c: Word, d: Word, w: Word)
    requires (a | b | c | d) & 0xFFFF_FF00 == 0 && w == (a << 24) | (b << 16) | (c << 8) | d
    ensures Last8(w) == d && Last8(Shr8(w)) == c && Last8(Shr8(Shr8(w))) == b && Shr8(Shr8(Shr8(w))) == a
  {
  }

  lemma TwoBytes(w: Word, c: Byte, d: Byte, k: nat, n: nat, m: nat)
    requires m == 4 && Last8(w) == Wide(d) && Last8(Shr8(w)) == Wide(c) && n == 4 * m + k
    ensures Num(w, n) == d + 256 * (c + 256 * Num(Shr8(Shr8(w)), k))
  {
    LastByte(w, d, m + m + k, n, m);
    LastByte(Shr8(w), c, k, m + m + k, m);
  }

  lemma FirstBytes(w: Word, a: Byte, b: Byte, n: nat, m: nat)
    requires m == 4 && Last8(w) == Wide(b) && Shr8(w) == Wide(a) && n == 4 * m
    ensures Num(w, n) == b + 256 * a
  {
    LastByte(w, b, m + m, n, m);
    WideNum(a, m);
  }

  lemma FourBytes(w: Word, a: Byte, b: Byte, c: Byte, d: Byte, m: nat)
    requires m == 4 && Last8(w) == Wide(d) && Last8(Shr8(w)) == Wide(c) && Last8(Shr8(Shr8(w))) == Wide(b)
    requires Shr8(Shr8(Shr8(w))) == Wide(a)
    ensures Num(w, 8 * m) == d + 256 * (c + 256 * (b + 256 * a))
  {
    TwoBytes(w, c, d, 4 * m, 8 * m, m);
    FirstBytes(Shr8(Shr8(w)), a, b, 4 * m, m);
  }

  lemma AllSmall(a: Byte, b: Byte, c: Byte, d: Byte)
    ensures (Wide(a) | Wide(b) | Wide(c) | Wide(d)) & 0xFFFF_FF00 == 0
  {
    WideSmall(a);
    WideSmall(b);
    WideSmall(c);
    WideSmall(d);
  }

  /** The number of four bytes packed into a word, first byte highest, is that of the bytes. */
  lemma PackedNum(a: Byte, b: Byte, c: Byte, d: Byte, m: nat)
    requires m == 4
    ensures Num(Packed(a, b, c, d), 8 * m) == Value([a, b, c, d])
  {
    AllSmall(a, b, c, d);
    PackedParts(Wide(a), Wide(b), Wide(c), Wide(d), Packed(a, b, c, d));
    FourBytes(Packed(a, b, c, d), a, b, c, d, m);
    FourValue(a, b, c, d);
  }

  lemma FourValue(a: Byte, b: Byte, c: Byte, d: Byte)
    ensures Value([a, b, c, d]) == d + 256 * (c + 256 * (b + 256 * a))
  {
    assert [a, b, c, d][..3] == [a, b, c] && [a, b, c][..2] == [a, b] && [a, b][..1] == [a] && [a][..0] == [];
    assert Value([]) == 0 && Value([a]) == a;
    assert Value([a, b]) == 256 * Value([a]) + b;
    assert Value([a, b, c]) == 256 * Value([a, b]) + c;
  }
}
