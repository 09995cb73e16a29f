/** SHA-1 as FIPS 180-4 defines it, written out on its own. */
module Fips180 {
  import opened CipherModes
  import opened Bits
  import opened Counter
  import opened WordNumbers

  // Sections 2.2.2, 3.2 and 4.1.1: operations on words.

  function Rotl1(x: Word): Word { (x << 1) | (x >> 31) }
  function Rotl5(x: Word): Word { (x << 5) | (x >> 27) }
  function Rotl30(x: Word): Word { (x << 30) | (x >> 2) }

  function Ch(x: Word, y: Word, z: Word): Word { (x & y) ^ (!x & z) }
  function Parity(x: Word, y: Word, z: Word): Word { x ^ y ^ z }
  function Maj(x: Word, y: Word, z: Word): Word { (x & y) ^ (x & z) ^ (y & z) }

  function F(t: nat, x: Word, y: Word, z: Word): Word {
    if t < 20 then Ch(x, y, z) else if 40 <= t < 60 then Maj(x, y, z) else Parity(x, y, z)
  }

  // Section 4.2.1: constants.

  function K(t: nat): Word {
    if t < 20 then 0x5A827999 else if t < 40 then 0x6ED9EBA1 else if t < 60 then 0x8F1BBCDC else 0xCA62C1D6
  }

  // Section 6.1.2: the hash of one block.

  datatype Working = Working(a: Word, b: Word, c: Word, d: Word, e: Word)

  /** Word `t` of the message schedule. */
  function W(block: Bytes, t: nat): Word
    requires |block| == 64
  {
    if t < 16 then Packed(block[4 * t], block[4 * t + 1], block[4 * t + 2], block[4 * t + 3])
    else Mixed(W(block, t - 3), W(block, t - 8), W(block, t - 14), W(block, t - 16))
  }

  function Mixed(x: Word, y: Word, z: Word, u: Word): Word { Rotl1(x ^ y ^ z ^ u) }

  function Sum(x: Word, y: Word): Word { x + y }

  function Total(a: Word, f: Word, e: Word, k: Word, w: Word): Word { a + f + e + k + w }

  /** The working variables after `n` rounds. */
  function After(block: Bytes, h: Working, n: nat): Working
    requires |block| == 64
  {
    if n == 0 then h
    else
      var t, v := n - 1, After(block, h, n - 1);
      Working(Total(Rotl5(v.a), F(t, v.b, v.c, v.d), v.e, K(t), W(block, t)), v.a, Rotl30(v.b), v.c, v.d)
  }

  function Rounds(): nat { 80 }

  function HashBlock(h: Working, block: Bytes): Working
    requires |block| == 64
  {
    var v := After(block, h, Rounds());
    Working(Sum(h.a, v.a), Sum(h.b, v.b), Sum(h.c, v.c), Sum(h.d, v.d), Sum(h.e, v.e))
  }

  // Section 5.3.1: the initial hash value.

  const INITIAL := Working(0x67452301, 0xEFCDAB89, 0x98BADCFE, 0x10325476, 0xC3D2E1F0)

  /** The hash after the first `n` blocks. */
  function HashOf(p: Bytes, n: nat): Working
    requires 64 * n <= |p|
  {
    if n == 0 then INITIAL else HashBlock(HashOf(p, n - 1), p[64 * (n - 1)..64 * n])
  }

  lemma HashOfNext(p: Bytes, n: nat)
    requires 0 < n && 64 * n <= |p|
    ensures HashOf(p, n) == HashBlock(HashOf(p, n - 1), p[64 * (n - 1)..64 * n])
  {
  }

  /** Section 5.1.1: a padded message is the message, 0x80, as few zeros as make whole blocks, and the number of
      bits of the message in eight bytes. */
  ghost predicate IsPadded(m: Bytes, p: Bytes) {
    && |p| % 64 == 0 && |m| + 9 <= |p| < |m| + 73
    && p[..|m|] == m && p[|m|] == 0x80
    && (forall i :: |m| < i < |p| - 8 ==> p[i] == 0)
    && Value(p[|p| - 8..]) == 8 * |m|
  }

  /** The hash of a padded message. */
  function Digest(p: Bytes): Working
    requires |p| % 64 == 0
  {
    HashOf(p, |p| / 64)
  }

  // What the operations and constants are.

  function Test(x: Word, i: bv5): bool { (x >> i) & 1 != 0 }

  /** Where x is set the bit is that of y, elsewhere that of z. */
  lemma ChBit(x: Word, y: Word, z: Word, i: bv5)
    ensures Test(Ch(x, y, z), i) <==> if Test(x, i) then Test(y, i) else Test(z, i)
  {
    ChooseBit(x, y, z, i);
  }

  lemma ChooseBit(x: Word, y: Word, z: Word, i: bv5)
    ensures Test((x & y) ^ (!x & z), i) <==> if Test(x, i) then Test(y, i) else Test(z, i)
  {
  }

  /** Set where an odd number of the three is. */
  lemma ParityBit(x: Word, y: Word, z: Word, i: bv5)
    ensures Test(Parity(x, y, z), i) <==> (Test(x, i) != (Test(y, i) != Test(z, i)))
  {
    XorBit(x, y, z, i);
  }

  lemma XorBit(x: Word, y: Word, z: Word, i: bv5)
    ensures Test(x ^ y ^ z, i) <==> (Test(x, i) != (Test(y, i) != Test(z, i)))
  {
  }

  /** Set where at least two of the three are. */
  lemma MajBit(x: Word, y: Word, z: Word, i: bv5)
    ensures Test(Maj(x, y, z), i) <==>
      (Test(x, i) && Test(y, i)) || (Test(x, i) && Test(z, i)) || (Test(y, i) && Test(z, i))
  {
    TwoBit(x, y, z, i);
  }

  lemma TwoBit(x: Word, y: Word, z: Word, i: bv5)
    ensures Test((x & y) ^ (x & z) ^ (y & z), i) <==>
      (Test(x, i) && Test(y, i)) || (Test(x, i) && Test(z, i)) || (Test(y, i) && Test(z, i))
  {
  }

  /** Rotation moves bit i to bit i + n modulo 32. */
  lemma RotlBit(x: Word, i: bv5)
    ensures Test(Rotl1(x), i + 1) <==> Test(x, i)
    ensures Test(Rotl5(x), i + 5) <==> Test(x, i)
    ensures Test(Rotl30(x), i + 30) <==> Test(x, i)
  {
  }

  /** The square root of 2, 3, 5 or 10, in quarters of 2^32. */
  ghost predicate RootOf(k: nat, n: nat) {
    k * k <= n * 0x1000_0000_0000_0000 < (k + 1) * (k + 1)
  }

  lemma ConstantsAreRoots(t: nat)
    requires t < 80
    ensures RootOf(K(t) as nat, if t < 20 then 2 else if t < 40 then 3 else if t < 60 then 5 else 10)
  {
  }

  /** Words are added modulo 2^32. */
  lemma SumIsModular(x: Word, y: Word, n: nat)
    requires n <= 32
    ensures Num(Sum(x, y), n) == (Num(x, n) + Num(y, n)) % Pow2(n)
  {
    SumNum(x, y, n);
  }

  /** A mixed word is set, one place on, where an odd number of the four words is. */
  lemma MixedBit(x: Word, y: Word, z: Word, u: Word, i: bv5)
    ensures Test(Mixed(x, y, z, u), i + 1) <==> ((Test(x, i) != Test(y, i)) != (Test(z, i) != Test(u, i)))
  {
    RotlBit(x ^ y ^ z ^ u, i);
    FourXorBit(x, y, z, u, i);
  }

  lemma FourXorBit(x: Word, y: Word, z: Word, u: Word, i: bv5)
    ensures Test(x ^ y ^ z ^ u, i) <==> ((Test(x, i) != Test(y, i)) != (Test(z, i) != Test(u, i)))
  {
  }

  /** The sum of a round is the sum of the numbers, modulo 2^32. */
  lemma TotalNum(a: Word, f: Word, e: Word, k: Word, w: Word, n: nat)
    requires n <= 32
    ensures Num(Total(a, f, e, k, w), n) == (Num(a, n) + Num(f, n) + Num(e, n) + Num(k, n) + Num(w, n)) % Pow2(n)
  {
    AddsAll(a, f, n);
    AddsAll(a + f, e, n);
    assert Adds(a + f, e, n);
    AddsAll(a + f + e, k, n);
    assert Adds(a + f + e, k, n);
    AddsAll(a + f + e + k, w, n);
    assert Adds(a + f + e + k, w, n);
    ChainNum(Num(a, n), Num(f, n), Num(e, n), Num(k, n), Num(w, n), Num(a + f, n), Num(a + f + e, n),
             Num(a + f + e + k, n), Num(a + f + e + k + w, n), Pow2(n));
  }

  lemma ChainNum(a: nat, f: nat, e: nat, k: nat, w: nat, s: nat, t: nat, u: nat, v: nat, p: nat)
    requires p > 0 && Sums(a, f, s, p) && Sums(s, e, t, p) && Sums(t, k, u, p) && Sums(u, w, v, p)
    ensures v == (a + f + e + k + w) % p
  {
    SumsMore(a + f, s, e, t, p);
    SumsMore(a + f + e, t, k, u, p);
    SumsMore(a + f + e + k, u, w, v, p);
  }

  lemma SumsMore(x: nat, s: nat, e: nat, t: nat, p: nat)
    requires p > 0 && s == x % p && Sums(s, e, t, p)
    ensures t == (x + e) % p
  {
    DivMod(x, p);
    AddMultiple(s + e, x / p, p);
  }

  function LowestFirst(x: Word): seq<Word> { [x & 0xFF, (x >> 8) & 0xFF, (x >> 16) & 0xFF, x >> 24] }

  lemma InitialBytes()
    ensures LowestFirst(INITIAL.a) == [0x01, 0x23, 0x45, 0x67] && LowestFirst(INITIAL.b) == [0x89, 0xAB, 0xCD, 0xEF]
    ensures LowestFirst(INITIAL.c) == [0xFE, 0xDC, 0xBA, 0x98] && LowestFirst(INITIAL.d) == [0x76, 0x54, 0x32, 0x10]
    ensures LowestFirst(INITIAL.e) == [0xF0, 0xE1, 0xD2, 0xC3]
  {
  }
}
