/** What GCM makes of a text, position by position, as sections 6 and 7 of SP 800-38D say. */
module Sp80038d {
  import opened CipherModes
  import opened Counter
  import opened CounterMode
  import opened Gcm
  import Bits

  /** The least multiple of 16 from `n` on. */
  function Up(n: nat): nat { (n + 15) / 16 * 16 }

  /** Eight bytes that hold the number of bits in `n` bytes, highest byte first. */
  ghost predicate HoldsBits(b: Bytes, n: nat) {
    |b| == 8 && Value(b) == 8 * n % Bits.WORD64
  }

  /** The bytes authenticated: the additional data and the ciphertext, each filled up with zeros, and both lengths. */
  ghost predicate IsAuthInput(aad: Bytes, ct: Bytes, s: Bytes) {
    var a, e := Up(|aad|), Up(|aad|) + Up(|ct|);
    && |s| == e + 16
    && s[..|aad|] == aad && (forall i :: |aad| <= i < a ==> s[i] == 0)
    && s[a..a + |ct|] == ct && (forall i :: a + |ct| <= i < e ==> s[i] == 0)
    && HoldsBits(s[e..e + 8], |aad|) && HoldsBits(s[e + 8..], |ct|)
  }

  /** The bytes hashed for a vector that does not have 12 bytes: the vector, filled up, and its length in a block. */
  ghost predicate IsVectorInput(iv: Bytes, s: Bytes) {
    && |s| == Up(|iv|) + 16
    && s[..|iv|] == iv && (forall i :: |iv| <= i < |s| - 8 ==> s[i] == 0)
    && HoldsBits(s[|s| - 8..], |iv|)
  }

  /** Section 7.1, step 2: the block the counter starts from. */
  ghost predicate IsStart(g: Suite, iv: Bytes, j: Bytes) {
    if |iv| == 12 then |j| == 16 && j[..12] == iv && j[12..] == [0, 0, 0, 1]
    else exists s :: IsVectorInput(iv, s) && j == g.ghash(g.cipher.enc(Zeros(16)), s)
  }

  /** `b` is `j` with its last 32 bits advanced by `n`. */
  ghost predicate IsAdvanced(j: Bytes, n: nat, b: Bytes) {
    |j| == |b| == 16 && b[..12] == j[..12] && Value(b[12..]) == (Value(j[12..]) + n) % WORD32
  }

  lemma BitCountHolds(n: nat, k: nat)
    requires k == 4
    ensures HoldsBits(BitCount(n), n)
  {
    Pow256Of4(k);
    Pow256Add(k, k);
    ValueOfBytes(8 * n % Bits.WORD64, k + k);
  }

  lemma PadFills(n: nat)
    ensures n + |Pad(n)| == Up(n)
  {
  }

  lemma TagInputIs(aad: Bytes, ct: Bytes)
    ensures IsAuthInput(aad, ct, TagInput(aad, ct))
  {
    PadFills(|aad|);
    PadFills(|ct|);
    BitCountHolds(|aad|, 4);
    BitCountHolds(|ct|, 4);
    LaidOut(aad, Pad(|aad|), ct, Pad(|ct|), BitCount(|aad|), BitCount(|ct|), TagInput(aad, ct));
  }

  /** Where the parts of a list of six lie. */
  lemma LaidOut(p: Bytes, q: Bytes, r: Bytes, t: Bytes, u: Bytes, v: Bytes, s: Bytes)
    requires s == p + q + r + t + u + v
    ensures var a, e := |p| + |q|, |p| + |q| + |r| + |t|;
      && s[..|p|] == p && s[|p|..a] == q && s[a..a + |r|] == r && s[a + |r|..e] == t
      && s[e..e + |u|] == u && s[e + |u|..] == v
  {
  }

  lemma VectorInputIs(iv: Bytes)
    ensures IsVectorInput(iv, iv + Pad(|iv|) + Zeros(8) + BitCount(|iv|))
  {
    var s := iv + Pad(|iv|) + Zeros(8) + BitCount(|iv|);
    PadFills(|iv|);
    BitCountHolds(|iv|, 4);
    assert s[|s| - 8..] == BitCount(|iv|);
    assert s[..|iv|] == iv;
  }

  lemma StartIs(g: Suite, iv: Bytes)
    requires Usable(g)
    ensures IsStart(g, iv, J0(g, iv))
  {
    VectorInputIs(iv);
  }

  lemma AdvancedIs(j: Bytes, n: nat, b: Bytes)
    requires IsAdvanced(j, n, b)
    ensures b == Advanced(j, n)
  {
    AdvancedLowValue(j[12..], n);
    BytesOfValue(b[12..]);
    BytesOfValue(AdvancedLow(j[12..], n));
    assert b == b[..12] + b[12..];
  }

  /** GCTR masks byte p with byte p % 16 of the encryption of counter block p / 16. */
  lemma GctrByte(c: Cipher, icb: Bytes, x: Bytes, p: nat)
    requires Sound(c) && |icb| == 16 && p < |x|
    ensures Gctr(c, icb, x)[p] == c.xor(x[p], c.enc(Advanced(icb, p / 16))[p % 16])
  {
    MaskedByte(c, i => Advanced(icb, i), 0, x, p / 16, p % 16, p);
  }

  /** Stepping once and then n times is stepping n + 1 times. */
  lemma IncThenAdvance(j: Bytes, n: nat)
    requires |j| == 16
    ensures Advanced(Inc32(j), n) == Advanced(j, n + 1)
  {
    var low := j[12..];
    AdvancedLowValue(low, 1);
    assert Inc32(j)[12..] == AdvancedLow(low, 1) && Inc32(j)[..12] == j[..12];
    WrapsLater(Value(low), n);
  }

  lemma WrapsLater(v: nat, n: nat)
    ensures ((v + 1) % WORD32 + n) % WORD32 == (v + (n + 1)) % WORD32
  {
    Bits.DivMod(v + 1, WORD32);
    Bits.AddMultiple((v + 1) % WORD32 + n, (v + 1) / WORD32, WORD32);
  }

  /** Byte p of the ciphertext: masked by the encryption of the start advanced by p / 16 + 1. */
  lemma CryptByte(g: Suite, iv: Bytes, data: Bytes, p: nat, b: Bytes)
    requires Usable(g) && p < |data| && IsAdvanced(J0(g, iv), p / 16 + 1, b)
    ensures Crypt(g, iv, data)[p] == g.cipher.xor(data[p], g.cipher.enc(b)[p % 16])
  {
    GctrByte(g.cipher, Inc32(J0(g, iv)), data, p);
    IncThenAdvance(J0(g, iv), p / 16);
    AdvancedIs(J0(g, iv), p / 16 + 1, b);
  }

  /** Byte q of the tag: the hash of the bytes authenticated, masked by the encryption of the start. */
  lemma TagByte(g: Suite, iv: Bytes, aad: Bytes, ct: Bytes, q: nat)
    requires Usable(g) && q < 16
    ensures FullTag(g, iv, aad, ct)[q] ==
      g.cipher.xor(g.ghash(g.cipher.enc(Zeros(16)), TagInput(aad, ct))[q], g.cipher.enc(J0(g, iv))[q])
  {
    GctrByte(g.cipher, J0(g, iv), g.ghash(g.cipher.enc(Zeros(16)), TagInput(aad, ct)), q);
    AdvancedZero(J0(g, iv));
  }

  /** Every byte of the ciphertext and of the tag, from the start `j` and the bytes authenticated `s`. */
  ghost predicate Sealed(g: Suite, j: Bytes, s: Bytes, data: Bytes, ct: Bytes, tag: Bytes)
    requires Usable(g)
  {
    && |j| == 16 && |ct| == |data| && |tag| <= 16
    && (forall p, b :: 0 <= p < |data| && IsAdvanced(j, p / 16 + 1, b) ==>
          ct[p] == g.cipher.xor(data[p], g.cipher.enc(b)[p % 16]))
    && (forall q :: 0 <= q < |tag| ==>
          tag[q] == g.cipher.xor(g.ghash(g.cipher.enc(Zeros(16)), s)[q], g.cipher.enc(j)[q]))
  }

  /** What encryption makes is what section 7.1 of SP 800-38D describes. */
  lemma SealMeans(g: Suite, iv: Bytes, aad: Bytes, data: Bytes, tagSize: nat) returns (j: Bytes, s: Bytes)
    requires Usable(g) && tagSize <= 16
    ensures var r := Seal(g, iv, aad, data, tagSize);
      IsStart(g, iv, j) && IsAuthInput(aad, r.0, s) && Sealed(g, j, s, data, r.0, r.1) && |r.1| == tagSize
  {
    var ct := Crypt(g, iv, data);
    j, s := J0(g, iv), TagInput(aad, ct);
    StartIs(g, iv);
    TagInputIs(aad, ct);
    forall p, b | 0 <= p < |data| && IsAdvanced(j, p / 16 + 1, b)
      ensures ct[p] == g.cipher.xor(data[p], g.cipher.enc(b)[p % 16])
    {
      CryptByte(g, iv, data, p, b);
    }
    forall q | 0 <= q < tagSize
      ensures FullTag(g, iv, aad, ct)[q] ==
        g.cipher.xor(g.ghash(g.cipher.enc(Zeros(16)), s)[q], g.cipher.enc(j)[q])
    {
      TagByte(g, iv, aad, ct, q);
    }
  }

  /** Every 16 bytes are some counter block's: the description leaves no byte open. */
  lemma CounterExists(j: Bytes, n: nat)
    requires |j| == 16
    ensures IsAdvanced(j, n, Advanced(j, n))
  {
    AdvancedLowValue(j[12..], n);
    assert Advanced(j, n)[12..] == AdvancedLow(j[12..], n);
  }

  lemma SameCount(b: Bytes, m: nat, n: nat)
    requires HoldsBits(b, m) && HoldsBits(b, n) && m < 0x2000_0000_0000_0000 && n < 0x2000_0000_0000_0000
    ensures m == n
  {
  }

  /** Different additional data or ciphertexts give different bytes to authenticate. */
  lemma AuthInputTells(aad: Bytes, ct: Bytes, other: Bytes, text: Bytes, s: Bytes)
    requires |aad| < 0x2000_0000_0000_0000 && |ct| < 0x2000_0000_0000_0000
    requires |other| < 0x2000_0000_0000_0000 && |text| < 0x2000_0000_0000_0000
    requires IsAuthInput(aad, ct, s) && IsAuthInput(other, text, s)
    ensures aad == other && ct == text
  {
    var e := |s| - 16;
    SameCount(s[e..e + 8], |aad|, |other|);
    SameCount(s[e + 8..], |ct|, |text|);
  }
}
