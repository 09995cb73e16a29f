/** Blocks of aes.h as bytes and as bits: Block::to_bits, the constructor from a bitset, and exclusive or on both. */
module BlockBits {
  import opened CipherModes
  import opened Counter
  import opened Bits
  import opened Ghash
  import PolyRing
  import Aes
  import AesModes

  /** The lowest `k` binary digits of a number, highest first. */
  function Digits(n: nat, k: nat): (s: seq<bool>)
    ensures |s| == k
  {
    if k == 0 then [] else Digits(n / 2, k - 1) + [n % 2 == 1]
  }

  function Number(s: seq<bool>): nat {
    if s == [] then 0 else 2 * Number(s[..|s| - 1]) + (if s[|s| - 1] then 1 else 0)
  }

  lemma {:induction false} NumberOfDigits(n: nat, k: nat)
    requires n < Pow2(k)
    ensures Number(Digits(n, k)) == n
  {
    if k > 0 {
      NumberOfDigits(n / 2, k - 1);
      assert Digits(n, k)[..k - 1] == Digits(n / 2, k - 1);
    }
  }

  lemma {:induction false} DigitsOfNumber(s: seq<bool>)
    ensures Digits(Number(s), |s|) == s && Number(s) < Pow2(|s|)
  {
    if s != [] {
      DigitsOfNumber(s[..|s| - 1]);
      assert s == s[..|s| - 1] + [s[|s| - 1]];
    }
  }

  lemma {:induction false} BytesAreBits(k: nat)
    ensures Pow256(k) == Pow2(8 * k)
  {
    if k > 0 {
      BytesAreBits(k - 1);
      Pow2Add(8, 8 * (k - 1));
      assert Pow2(8) == 256;
    }
  }

  /** Block::to_bits. */
  function BlockOf(b: Bytes): Block
    requires |b| == 16
  {
    Digits(Value(b), 8 * |b|)
  }

  /** The block of a bit string, as bytes. */
  function BytesOf(x: Block, k: nat): (b: Bytes)
    ensures |b| == k
  {
    ToBytes(Number(x), k)
  }

  lemma BlockBytes(b: Bytes)
    requires |b| == 16
    ensures BytesOf(BlockOf(b), |b|) == b
  {
    ValueBound(b);
    BytesAreBits(|b|);
    NumberOfDigits(Value(b), 8 * |b|);
    BytesOfValue(b);
  }

  lemma BytesBlock(x: Block, k: nat)
    requires k == 16
    ensures BlockOf(BytesOf(x, k)) == x
  {
    DigitsOfNumber(x);
    BytesAreBits(k);
    ValueOfBytes(Number(x), k);
  }

  /** Digit r of a byte, highest first. */
  lemma {:induction false} DigitAt(n: nat, k: nat, r: nat)
    requires r < k
    ensures Digits(n, k)[r] <==> n / Pow2(k - 1 - r) % 2 == 1
    decreases k
  {
    if r < k - 1 {
      DigitAt(n / 2, k - 1, r);
      DivDiv(n, 2, Pow2(k - 2 - r));
    }
  }

  /** The bits of a block are those of its bytes in order, each from its highest bit to its lowest. */
  lemma {:induction false} BitOfBytes(b: Bytes, i: nat, r: nat, k: nat)
    requires i < |b| && r < 8 && k == 4
    ensures Digits(Value(b), 8 * |b|)[8 * i + r] <==> b[i] / Pow2(7 - r) % 2 == 1
  {
    var n := |b| - 1;
    assert b == b[..n] + [b[n]];
    ValueDigits(b[..n], b[n], k);
    if i < n {
      BitOfBytes(b[..n], i, r, k);
    } else {
      DigitAt(b[n], k + k, r);
    }
  }

  lemma BlockBit(b: Bytes, i: nat, r: nat)
    requires |b| == 16 && i < 16 && r < 8
    ensures BlockOf(b)[8 * i + r] <==> b[i] / Pow2(7 - r) % 2 == 1
  {
    BitOfBytes(b, i, r, 4);
  }

  // Exclusive or.

  /** Digits of a number in two parts. */
  lemma {:induction false} DigitsJoin(v: nat, x: nat, m: nat, k: nat)
    requires x < Pow2(k)
    ensures Digits(Shl(v, k) + x, m + k) == Digits(v, m) + Digits(x, k)
  {
    if k > 0 {
      DigitsJoin(v, x / 2, m, k - 1);
      ShlStep(v, k);
      HalfJoin(Shl(v, k - 1), x);
      DigitsStep(2 * Shl(v, k - 1) + x, m + k, m + k - 1);
    }
  }

  lemma DigitsStep(n: nat, k: nat, k': nat)
    requires k == k' + 1
    ensures Digits(n, k) == Digits(n / 2, k') + [n % 2 == 1]
  {
  }

  lemma HalfJoin(u: nat, x: nat)
    ensures (2 * u + x) / 2 == u + x / 2 && (2 * u + x) % 2 == x % 2
  {
  }

  /** Four places to the left. */
  lemma ShlFour(n: nat, k: nat)
    requires k == 4
    ensures Shl(n, k) == 16 * n && Pow2(k) == 16
  {
    ShlStep(n, k);
    ShlStep(n, k - 1);
    ShlStep(n, k - 2);
    ShlStep(n, k - 3);
  }

  function XorBytes(a: Bytes, b: Bytes): (r: Bytes)
    requires |a| == |b|
    ensures |r| == |a|
  {
    seq<Byte>(|a|, i requires 0 <= i < |a| => AesModes.XorNumbers(a[i], b[i]))
  }

  function Test(b: bv8, m: bv8): bool { b & m != 0 }

  /** The four low bits of a bit vector, highest first. */
  function LowBits(b: bv8): (s: seq<bool>)
    ensures |s| == 4
  {
    [Test(b, 8), Test(b, 4), Test(b, 2), Test(b, 1)]
  }

  lemma NibbleDigits(n: nat, k: nat)
    requires n < 16 && k == 4
    ensures Digits(n, k) == LowBits(AesModes.Nibble(n))
  {
    assert Digits(n, k) == [n / 2 / 2 / 2 % 2 == 1, n / 2 / 2 % 2 == 1, n / 2 % 2 == 1, n % 2 == 1];
  }

  /** All eight bits of a byte, highest first. */
  function ByteBits(b: bv8): (s: seq<bool>)
    ensures |s| == 8
  {
    LowBits(AesModes.High(b)) + LowBits(AesModes.Low(b))
  }

  lemma Halves(n: Byte)
    ensures AesModes.High(AesModes.ToBits(n)) == AesModes.Nibble(n / 16)
    ensures AesModes.Low(AesModes.ToBits(n)) == AesModes.Nibble(n % 16)
  {
    AesModes.NibbleSmall(n / 16);
    AesModes.NibbleSmall(n % 16);
    AesModes.JoinSplit(AesModes.Nibble(n / 16), AesModes.Nibble(n % 16));
  }

  lemma HalfDigits(n: Byte, k: nat)
    requires k == 4
    ensures Digits(n, k + k) == Digits(n / 16, k) + Digits(n % 16, k)
  {
    ShlFour(n / 16, k);
    DigitsJoin(n / 16, n % 16, k, k);
  }

  lemma ByteDigits(n: Byte, k: nat)
    requires k == 4
    ensures Digits(n, k + k) == ByteBits(AesModes.ToBits(n))
  {
    HalfDigits(n, k);
    NibbleDigits(n / 16, k);
    NibbleDigits(n % 16, k);
    Halves(n);
  }

  lemma XorSplit(a: bv8, b: bv8)
    ensures AesModes.High(Aes.XorByte(a, b)) == Aes.XorByte(AesModes.High(a), AesModes.High(b))
    ensures AesModes.Low(Aes.XorByte(a, b)) == Aes.XorByte(AesModes.Low(a), AesModes.Low(b))
  {
  }

  lemma XorTest(a: bv8, b: bv8, m: bv8)
    requires m == 8 || m == 4 || m == 2 || m == 1
    ensures Test(Aes.XorByte(a, b), m) <==> Test(a, m) != Test(b, m)
  {
  }

  lemma XorLowBits(a: bv8, b: bv8)
    ensures LowBits(Aes.XorByte(a, b)) == PolyRing.XorBits(LowBits(a), LowBits(b))
  {
    XorTest(a, b, 8);
    XorTest(a, b, 4);
    XorTest(a, b, 2);
    XorTest(a, b, 1);
  }

  lemma XorConcat(a: seq<bool>, b: seq<bool>, c: seq<bool>, d: seq<bool>)
    requires |a| == |c| && |b| == |d|
    ensures PolyRing.XorBits(a + b, c + d) == PolyRing.XorBits(a, c) + PolyRing.XorBits(b, d)
  {
  }

  /** Exclusive or of two bytes is exclusive or of their digits. */
  lemma XorDigits(x: Byte, y: Byte, k: nat)
    requires k == 4
    ensures Digits(AesModes.XorNumbers(x, y), k + k) == PolyRing.XorBits(Digits(x, k + k), Digits(y, k + k))
  {
    var a, b := AesModes.ToBits(x), AesModes.ToBits(y);
    ByteDigits(x, k);
    ByteDigits(y, k);
    ByteDigits(AesModes.XorNumbers(x, y), k);
    AesModes.BitsOfNumber(Aes.XorByte(a, b));
    XorSplit(a, b);
    XorLowBits(AesModes.High(a), AesModes.High(b));
    XorLowBits(AesModes.Low(a), AesModes.Low(b));
    XorConcat(LowBits(AesModes.High(a)), LowBits(AesModes.Low(a)),
              LowBits(AesModes.High(b)), LowBits(AesModes.Low(b)));
  }

  /** Eight places to the left. */
  lemma ShlEight(n: nat, k: nat)
    requires k == 4
    ensures Shl(n, k + k) == 256 * n && Pow2(k + k) == 256
  {
    ShlFour(n, k);
    ShlFour(16 * n, k);
    ShlTwice(n, k, k);
    Pow2Add(k, k);
  }

  lemma ValueNext(b: Bytes, x: Byte)
    ensures Value(b + [x]) == 256 * Value(b) + x
  {
    assert (b + [x])[..|b|] == b;
  }

  lemma ValueDigits(b: Bytes, x: Byte, k: nat)
    requires k == 4
    ensures Digits(Value(b + [x]), 8 * (|b| + 1)) == Digits(Value(b), 8 * |b|) + Digits(x, k + k)
  {
    ValueNext(b, x);
    DigitsNext(Value(b), x, 8 * |b|, 8 * (|b| + 1), k);
  }

  lemma DigitsNext(v: nat, x: Byte, m: nat, n: nat, k: nat)
    requires k == 4 && n == m + (k + k)
    ensures Digits(256 * v + x, n) == Digits(v, m) + Digits(x, k + k)
  {
    ShlEight(v, k);
    DigitsJoin(v, x, m, k + k);
  }

  /** Exclusive or of byte strings is exclusive or of their bits. */
  lemma {:induction false} XorIsBitwise(a: Bytes, b: Bytes, k: nat)
    requires |a| == |b| && k == 4
    ensures Digits(Value(XorBytes(a, b)), 8 * |a|) ==
      PolyRing.XorBits(Digits(Value(a), 8 * |a|), Digits(Value(b), 8 * |b|))
  {
    if a != [] {
      var n := |a| - 1;
      var x, y := a[..n], b[..n];
      XorIsBitwise(x, y, k);
      assert a == x + [a[n]] && b == y + [b[n]];
      XorOneMore(x, y, a[n], b[n], k);
    }
  }

  lemma XorOneMore(a: Bytes, b: Bytes, x: Byte, y: Byte, k: nat)
    requires |a| == |b| && k == 4
    requires Digits(Value(XorBytes(a, b)), 8 * |a|) ==
      PolyRing.XorBits(Digits(Value(a), 8 * |a|), Digits(Value(b), 8 * |b|))
    ensures Digits(Value(XorBytes(a + [x], b + [y])), 8 * (|a| + 1)) ==
      PolyRing.XorBits(Digits(Value(a + [x]), 8 * (|a| + 1)), Digits(Value(b + [y]), 8 * (|b| + 1)))
  {
    var z := AesModes.XorNumbers(x, y);
    assert XorBytes(a + [x], b + [y]) == XorBytes(a, b) + [z];
    ValueDigits(a, x, k);
    ValueDigits(b, y, k);
    ValueDigits(XorBytes(a, b), z, k);
    XorDigits(x, y, k);
    XorConcat(Digits(Value(a), 8 * |a|), Digits(x, k + k), Digits(Value(b), 8 * |b|), Digits(y, k + k));
  }

  lemma BlockXor(a: Bytes, b: Bytes)
    requires |a| == |b| == 16
    ensures BlockOf(XorBytes(a, b)) == Ghash.Xor(BlockOf(a), BlockOf(b))
  {
    XorIsBitwise(a, b, 4);
  }

  lemma BlockZero(k: nat)
    requires k == 16
    ensures BlockOf(Zeros(k)) == ZERO
  {
    ZeroValue(k);
    ZeroDigits(8 * k);
  }

  lemma {:induction false} ZeroValue(k: nat)
    ensures Value(Zeros(k)) == 0
  {
    if k > 0 {
      ZeroValue(k - 1);
      assert Zeros(k)[..k - 1] == Zeros(k - 1);
    }
  }

  lemma {:induction false} ZeroDigits(k: nat)
    ensures Digits(0, k) == Clear(k)
  {
    if k > 0 { ZeroDigits(k - 1); }
  }
}
