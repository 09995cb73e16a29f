/** The word operations of sha1.h, and its digest beside that of FIPS 180-4. */
module Sha1 {
  import opened CipherModes
  import opened Counter
  import opened Sha1Stream
  import opened Sha1Block
  import AesModes
  import Fips180
  import WordNumbers

  type Word = bv32

  function PackWord(a: Byte, b: Byte, c: Byte, d: Byte): Word {
    ((AesModes.ToBits(a) as bv32) << 24) | ((AesModes.ToBits(b) as bv32) << 16) |
    ((AesModes.ToBits(c) as bv32) << 8) | (AesModes.ToBits(d) as bv32)
  }

  function Add(x: Word, y: Word): Word { x + y }

  /** The constant of round t. */
  function K(t: nat): Word {
    if t < 20 then 0x5A827999 else if t < 40 then 0x6ED9EBA1 else if t < 60 then 0x8F1BBCDC else 0xCA62C1D6
  }

  function Parity(x: Word, y: Word, z: Word): Word { x ^ y ^ z }

  function Xor4(x: Word, y: Word, z: Word, u: Word): Word { x ^ y ^ z ^ u }

  function Sum5(a: Word, f: Word, e: Word, k: Word, w: Word): Word { a + f + e + k + w }

  // As the source has them.

  function Rotate1(x: Word): Word { (x << 1) ^ (x >> 31) }
  function Rotate5(x: Word): Word { (x << 5) ^ (x >> 27) }
  function Rotate30(x: Word): Word { (x << 30) ^ (x >> 2) }

  function Choose(b: Word, c: Word, d: Word): Word { (b & c) | (!b & d) }
  function Majority(b: Word, c: Word, d: Word): Word { (b & c) | (b & d) | (c & d) }

  function F(t: nat, v: Vars<Word>): Word {
    if t < 20 then Choose(v.b, v.c, v.d)
    else if t < 40 then Parity(v.b, v.c, v.d)
    else if t < 60 then Majority(v.b, v.c, v.d)
    else Parity(v.b, v.c, v.d)
  }

  function Mix(x: Word, y: Word, z: Word, u: Word): Word { Rotate1(Xor4(x, y, z, u)) }

  function Temp(t: nat, v: Vars<Word>, w: Word): Word { Sum5(Rotate5(v.a), F(t, v), v.e, K(t), w) }

  const CODE := Ops(0 as bv32, PackWord, Mix, Temp, Rotate30, Add, 80)

  // Beside FIPS 180-4.

  lemma Rotate1Same(x: Word) ensures Rotate1(x) == Fips180.Rotl1(x) { }
  lemma Rotate5Same(x: Word) ensures Rotate5(x) == Fips180.Rotl5(x) { }
  lemma Rotate30Same(x: Word) ensures Rotate30(x) == Fips180.Rotl30(x) { }

  lemma DisjointXor(p: Word, q: Word)
    requires p & q == 0
    ensures p | q == p ^ q
  {
  }

  lemma ChooseSame(x: Word, y: Word, z: Word)
    ensures Choose(x, y, z) == Fips180.Ch(x, y, z)
  {
    NeverBoth(x, y, z);
    DisjointXor(x & y, !x & z);
  }

  lemma NeverBoth(x: Word, y: Word, z: Word)
    ensures (x & y) & (!x & z) == 0
  {
  }

  /** Where y and z differ, x decides; elsewhere they do. */
  lemma MajoritySame(x: Word, y: Word, z: Word)
    ensures Majority(x, y, z) == Fips180.Maj(x, y, z)
  {
    MajFactored(x, y, z);
    MajorityFactored(x, y, z);
  }

  lemma MajFactored(x: Word, y: Word, z: Word)
    ensures (x & y) ^ (x & z) ^ (y & z) == (x & (y ^ z)) ^ (y & z)
  {
  }

  lemma MajorityFactored(x: Word, y: Word, z: Word)
    ensures (x & (y ^ z)) ^ (y & z) == (x & y) | (x & z) | (y & z)
  {
  }

  lemma FSame(t: nat, v: Vars<Word>)
    ensures F(t, v) == Fips180.F(t, v.b, v.c, v.d)
  {
    ChooseSame(v.b, v.c, v.d);
    MajoritySame(v.b, v.c, v.d);
  }

  lemma TempSame(t: nat, v: Vars<Word>, w: Word)
    ensures Temp(t, v, w) == Fips180.Total(Fips180.Rotl5(v.a), Fips180.F(t, v.b, v.c, v.d), v.e, Fips180.K(t), w)
  {
    FSame(t, v);
    Rotate5Same(v.a);
    ConstantSame(t);
    Sum5Same(Rotate5(v.a), F(t, v), v.e, K(t), w);
  }

  lemma ConstantSame(t: nat)
    ensures K(t) == Fips180.K(t)
  {
  }

  lemma Sum5Same(a: Word, f: Word, e: Word, k: Word, w: Word)
    ensures Sum5(a, f, e, k, w) == Fips180.Total(a, f, e, k, w)
  {
  }

  lemma AddSame(x: Word, y: Word)
    ensures Add(x, y) == Fips180.Sum(x, y)
  {
  }

  lemma PackSame(a: Byte, b: Byte, c: Byte, d: Byte)
    ensures PackWord(a, b, c, d) == WordNumbers.Packed(a, b, c, d)
  {
  }

  lemma MixSame(x: Word, y: Word, z: Word, u: Word)
    ensures Mix(x, y, z, u) == Fips180.Mixed(x, y, z, u)
  {
    Rotate1Same(Xor4(x, y, z, u));
  }

  ghost predicate WordsAre(block: Bytes, w: seq<Word>)
    requires |block| == 64
  {
    forall t :: 0 <= t < |w| ==> w[t] == Fips180.W(block, t)
  }

  lemma PackedIs(block: Bytes, t: nat)
    requires |block| == 64 && t < 16
    ensures PackWord(block[4 * t], block[4 * t + 1], block[4 * t + 2], block[4 * t + 3]) == Fips180.W(block, t)
  {
    PackSame(block[4 * t], block[4 * t + 1], block[4 * t + 2], block[4 * t + 3]);
  }

  lemma MixedIs(block: Bytes, w: seq<Word>, t: nat)
    requires |block| == 64 && WordsAre(block, w) && 16 <= t <= |w|
    ensures Mix(w[t - 3], w[t - 8], w[t - 14], w[t - 16]) == Fips180.W(block, t)
  {
    MixSame(w[t - 3], w[t - 8], w[t - 14], w[t - 16]);
  }

  lemma OneMoreWord(block: Bytes, w: seq<Word>, x: Word)
    requires |block| == 64 && WordsAre(block, w) && x == Fips180.W(block, |w|)
    ensures WordsAre(block, w + [x])
  {
  }

  lemma PackedNext(block: Bytes, t: nat)
    requires |block| == 64 && t < 16
    ensures Schedule(CODE, block, t + 1) == Schedule(CODE, block, t) +
      [PackWord(block[4 * t], block[4 * t + 1], block[4 * t + 2], block[4 * t + 3])]
  {
  }

  lemma MixedNext(block: Bytes, w: seq<Word>, t: nat)
    requires |block| == 64 && 16 <= t == |w| && w == Schedule(CODE, block, t)
    ensures Schedule(CODE, block, t + 1) == w + [Mix(w[t - 3], w[t - 8], w[t - 14], w[t - 16])]
  {
  }

  lemma {:induction false} ScheduleIs(block: Bytes, n: nat)
    requires |block| == 64
    ensures WordsAre(block, Schedule(CODE, block, n))
  {
    if n > 0 {
      var t, w := n - 1, Schedule(CODE, block, n - 1);
      ScheduleIs(block, t);
      if t < 16 {
        PackedIs(block, t);
        PackedNext(block, t);
      } else {
        MixedIs(block, w, t);
        MixedNext(block, w, t);
      }
      OneMoreWord(block, w, Fips180.W(block, t));
    }
  }

  /** The digest of the source, as that of the standard. */
  function AsWorking(v: Vars<Word>): Fips180.Working { Fips180.Working(v.a, v.b, v.c, v.d, v.e) }

  lemma {:induction false} RoundsAre(block: Bytes, w: seq<Word>, h: Vars<Word>, n: nat)
    requires |block| == 64 && n <= |w| && WordsAre(block, w)
    ensures AsWorking(Rounds(CODE, w, h, n)) == Fips180.After(block, AsWorking(h), n)
  {
    if n > 0 {
      RoundsAre(block, w, h, n - 1);
      var v := Rounds(CODE, w, h, n - 1);
      TempSame(n - 1, v, w[n - 1]);
      Rotate30Same(v.b);
    }
  }

  /** The source's block function is the one of section 6.1.2 of FIPS 180-4. */
  lemma CompressIs(h: Vars<Word>, block: Bytes)
    requires |block| == 64
    ensures AsWorking(Compress(CODE, h, block)) == Fips180.HashBlock(AsWorking(h), block)
  {
    var w := Schedule(CODE, block, CODE.rounds);
    assert CODE.rounds == Fips180.Rounds();
    ScheduleIs(block, CODE.rounds);
    RoundsAre(block, w, h, CODE.rounds);
    var v := Rounds(CODE, w, h, CODE.rounds);
    AddSame(h.a, v.a);
    AddSame(h.b, v.b);
    AddSame(h.c, v.c);
    AddSame(h.d, v.d);
    AddSame(h.e, v.e);
  }

  /** SHA-1 as the source computes it. */
  function CodeHash(start: Vars<Word>): Hash<Vars<Word>> {
    Hash((h, block) => if |block| == 64 then Compress(CODE, h, block) else h, start)
  }

  const INITIAL := Vars(0x67452301 as bv32, 0xEFCDAB89, 0x98BADCFE, 0x10325476, 0xC3D2E1F0)

  lemma CodeHashIs(h: Vars<Word>, block: Bytes)
    requires |block| == 64
    ensures AsWorking(CodeHash(INITIAL).compress(h, block)) == Fips180.HashBlock(AsWorking(h), block)
  {
    CompressIs(h, block);
  }

  /** A hash that begins and goes on as the standard says. */
  ghost predicate Standard(h: Hash<Vars<Word>>) {
    && AsWorking(h.start) == Fips180.INITIAL
    && forall s: Vars<Word>, b: Bytes :: |b| == 64 ==>
         AsWorking(h.compress(s, b)) == Fips180.HashBlock(AsWorking(s), b)
  }

  lemma CodeIsStandard()
    ensures Standard(CodeHash(INITIAL))
  {
    forall s: Vars<Word>, b: Bytes | |b| == 64
      ensures AsWorking(CodeHash(INITIAL).compress(s, b)) == Fips180.HashBlock(AsWorking(s), b)
    {
      CodeHashIs(s, b);
    }
  }

  lemma {:induction false} FoldedIs(h: Hash<Vars<Word>>, p: Bytes, n: nat)
    requires Standard(h) && 64 * n <= |p|
    ensures AsWorking(Folded(h, p, n)) == Fips180.HashOf(p, n)
  {
    if n == 0 {
      FirstIs(h, p);
    } else {
      FoldedIs(h, p, n - 1);
      NextIs(h, p, n, Folded(h, p, n - 1), Fips180.HashOf(p, n - 1));
    }
  }

  lemma FirstIs(h: Hash<Vars<Word>>, p: Bytes)
    requires Standard(h)
    ensures AsWorking(Folded(h, p, 0)) == Fips180.HashOf(p, 0)
  {
  }

  lemma NextIs(h: Hash<Vars<Word>>, p: Bytes, n: nat, s: Vars<Word>, w: Fips180.Working)
    requires Standard(h) && 0 < n && 64 * n <= |p|
    requires s == Folded(h, p, n - 1) && w == Fips180.HashOf(p, n - 1) && AsWorking(s) == w
    ensures AsWorking(Folded(h, p, n)) == Fips180.HashOf(p, n)
  {
    FoldedNext(h, p, n);
    Fips180.HashOfNext(p, n);
  }

  lemma FoldedNext<S>(h: Hash<S>, p: Bytes, n: nat)
    requires 0 < n && 64 * n <= |p|
    ensures Folded(h, p, n) == h.compress(Folded(h, p, n - 1), p[64 * (n - 1)..64 * n])
  {
  }

  /** The padding of section 5.1.1 is one and the same, built or described. */
  lemma PaddedIs(m: Bytes, p: Bytes)
    requires |m| < 0x2000_0000_0000_0000
    ensures Fips180.IsPadded(m, p) <==> p == FipsPadded(m)
  {
    if Fips180.IsPadded(m, p) {
      OnePadding(m, p);
    } else if p == FipsPadded(m) {
      BuiltIsPadded(m, |Zeros(4)|);
    }
  }

  lemma OnePadding(m: Bytes, p: Bytes)
    requires Fips180.IsPadded(m, p)
    ensures p == FipsPadded(m)
  {
    var s := p[..|p| - 8];
    var k := |p| - 8 - |m| - 1;
    assert s == m + [0x80] + Zeros(k);
    ZeroCountIs(|m|, k, |p| / 64 - 1);
    BytesOfValue(p[|p| - 8..]);
    assert p == s + p[|p| - 8..];
  }

  lemma BuiltIsPadded(m: Bytes, k: nat)
    requires |m| < 0x2000_0000_0000_0000 && k == 4
    ensures Fips180.IsPadded(m, FipsPadded(m))
  {
    var p, s, n := FipsPadded(m), Stem(m), 8 * |m|;
    Pow256Of4(k);
    Pow256Add(k, k);
    ValueOfBytes(n, k + k);
    assert p == s + ToBytes(n, k + k) && p[|s|..] == ToBytes(n, k + k);
    StemSize(|m|);
  }

  lemma StemSize(n: nat)
    ensures (n + 1 + ZeroCount(n) + 8) % 64 == 0
  {
  }

  /** The digest of a message shorter than 2^29 bytes, however it was cut into calls, is the one FIPS 180-4
      defines. */
  method Digest(parts: seq<Bytes>) returns (d: Vars<Word>)
    ensures |Joined(parts)| < 0x2000_0000 ==>
      forall p: Bytes :: Fips180.IsPadded(Joined(parts), p) ==> AsWorking(d) == Fips180.Digest(p)
  {
    d := HashParts(CodeHash(INITIAL), parts);
    var m := Joined(parts);
    if |m| < 0x2000_0000 {
      PaddedIffShort(m);
      CodeIsStandard();
      FoldedIs(CodeHash(INITIAL), Padded(m), |Padded(m)| / 64);
      forall p: Bytes | Fips180.IsPadded(m, p) ensures AsWorking(d) == Fips180.Digest(p) {
        PaddedIs(m, p);
      }
    }
  }
}
