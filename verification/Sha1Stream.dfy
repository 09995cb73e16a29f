/** The streaming part of sha1.h: bytes gathered into blocks, and the padding of getDigest. */
module Sha1Stream {
  import opened CipherModes
  import opened Counter
  import Bits

  /** A block function and the digest it starts from. */
  datatype Hash<!S> = Hash(compress: (S, Bytes) -> S, start: S)

  /** The digest after the first `n` blocks of a message. */
  function Folded<S>(h: Hash<S>, m: Bytes, n: nat): S
    requires 64 * n <= |m|
  {
    if n == 0 then h.start else h.compress(Folded(h, m, n - 1), m[64 * (n - 1)..64 * n])
  }

  lemma {:induction false} FoldedPrefix<S>(h: Hash<S>, m: Bytes, more: Bytes, n: nat)
    requires 64 * n <= |m|
    ensures Folded(h, m + more, n) == Folded(h, m, n)
  {
    if n > 0 {
      FoldedPrefix(h, m, more, n - 1);
      assert (m + more)[64 * (n - 1)..64 * n] == m[64 * (n - 1)..64 * n];
    }
  }

  /** How many zero bytes follow the 0x80. */
  function ZeroCount(n: nat): (k: nat)
    ensures k < 64
  {
    (119 - n % 64) % 64
  }

  lemma ZeroCountIs(n: nat, k: nat, b: nat)
    requires n + 1 + k == 64 * b + 56 && k < 64
    ensures ZeroCount(n) == k
  {
  }

  /** The bytes up to the length. */
  function Stem(m: Bytes): Bytes {
    m + [0x80] + Zeros(ZeroCount(|m|))
  }

  /** What getDigest feeds: four zero bytes and the low 32 bits of the bit count. */
  function Padded(m: Bytes): Bytes {
    Stem(m) + Zeros(4) + ToBytes(8 * |m| % WORD32, |Zeros(4)|)
  }

  /** Section 5.1.1 of FIPS 180-4: the bit count in 64 bits. */
  function FipsPadded(m: Bytes): Bytes {
    Stem(m) + ToBytes(8 * |m|, |Zeros(8)|)
  }

  /** The bytes of a number are those of its high part before those of its low part. */
  lemma {:induction false} ToBytesSplit(n: nat, high: nat, a: nat, b: nat)
    requires high == n / Pow256(b)
    ensures ToBytes(n, a + b) == ToBytes(high, a) + ToBytes(n, b)
    decreases b
  {
    if b > 0 {
      Bits.DivDiv(n, 256, Pow256(b - 1));
      ToBytesSplit(n / 256, high, a, b - 1);
      LastByte(n, a + b);
      LastByte(n, b);
      var x, y := ToBytes(high, a), ToBytes(n / 256, b - 1);
      assert x + (y + [n % 256]) == (x + y) + [n % 256];
    }
  }

  lemma LastByte(n: nat, k: nat)
    requires k > 0
    ensures ToBytes(n, k) == ToBytes(n / 256, k - 1) + [n % 256]
  {
  }

  lemma {:induction false} ToBytesLow(n: nat, b: nat)
    ensures ToBytes(n % Pow256(b), b) == ToBytes(n, b)
  {
    if b > 0 {
      var p := Pow256(b - 1);
      ToBytesLow(n / 256, b - 1);
      Bits.LowParts(n, 256, p);
    }
  }

  lemma {:induction false} ZeroBytes(k: nat)
    ensures ToBytes(0, k) == Zeros(k) && Value(Zeros(k)) == 0
  {
    if k > 0 {
      ZeroBytes(k - 1);
      assert Zeros(k) == Zeros(k - 1) + [0];
      assert Zeros(k)[..k - 1] == Zeros(k - 1);
    }
  }

  /** High bytes are zero exactly when the number fits the low ones. */
  lemma HighBytesZero(n: nat, k: nat)
    requires n < Pow256(k)
    ensures ToBytes(n, k) == Zeros(k) <==> n == 0
  {
    ZeroBytes(k);
    ValueOfBytes(n, k);
  }

  lemma LengthBytes(n: nat, k: nat)
    requires k == 4 && n / Pow256(k) < Pow256(k)
    ensures ToBytes(n, k + k) == Zeros(k) + ToBytes(n % Pow256(k), k) <==> n < Pow256(k)
  {
    ToBytesSplit(n, n / Pow256(k), k, k);
    ToBytesLow(n, k);
    HighBytesZero(n / Pow256(k), k);
    var high, low := ToBytes(n / Pow256(k), k), ToBytes(n, k);
    assert (high + low)[..k] == high && (Zeros(k) + low)[..k] == Zeros(k);
    Bits.Quotient(n, Pow256(k));
  }

  /** getDigest pads as FIPS 180-4 says exactly when the message is shorter than 2^29 bytes. */
  lemma PaddedIffShort(m: Bytes)
    requires |m| < 0x2000_0000_0000_0000
    ensures Padded(m) == FipsPadded(m) <==> |m| < 0x2000_0000
  {
    var n, k := 8 * |m|, |Zeros(4)|;
    Pow256Of4(k);
    LengthBytes(n, k);
    var s := Stem(m);
    var code, fips := Zeros(k) + ToBytes(n % WORD32, k), ToBytes(n, k + k);
    assert Padded(m) == s + code && FipsPadded(m) == s + fips;
    assert (s + code)[|s|..] == code && (s + fips)[|s|..] == fips;
  }

  /** A message for which getDigest and FIPS 180-4 pad differently: the bit count needs a 33rd bit. */
  lemma LongMessageDiffers()
    ensures Padded(Zeros(0x2000_0000)) != FipsPadded(Zeros(0x2000_0000))
  {
    PaddedIffShort(Zeros(0x2000_0000));
  }

  /** How many bytes bring the block index from `index` to `stop`. */
  function Gap(index: nat, stop: nat): int {
    if index <= stop then stop - index else stop + 64 - index
  }

  lemma MoreZeros(m: Bytes, n: nat)
    ensures (m + Zeros(n)) + [0] == m + Zeros(n + 1)
  {
  }

  /** The SHA1 object: its digest, its block and how far the block is filled. */
  class Hasher<S> {
    const h: Hash<S>
    var digest: S
    const block: array<Byte>
    var index: nat
    var count: nat
    /** Everything fed so far, and how many whole blocks of it there are. */
    ghost var fed: Bytes
    ghost var blocks: nat

    /** Digest and block stand for everything fed; the block may be full. */
    ghost predicate Gathered() reads this, block {
      && block.Length == 64 && index <= 64 && count == |fed|
      && |fed| == 64 * blocks + index
      && digest == Folded(h, fed, blocks)
      && block[..index] == fed[64 * blocks..]
    }

    ghost predicate Valid() reads this, block {
      Gathered() && index < 64
    }

    constructor (h: Hash<S>)
      ensures Valid() && fed == [] && fresh(block) && this.h == h
    {
      this.h := h;
      digest := h.start;
      block := new Byte[64](_ => 0);
      index, count, fed, blocks := 0, 0, [], 0;
    }

    method ProcessByte(octet: Byte)
      requires Valid()
      modifies this, block
      ensures Valid() && fed == old(fed) + [octet]
      ensures index == if old(index) == 63 then 0 else old(index) + 1
    {
      Store(octet);
      if index == 64 {
        ProcessBlock();
      }
    }

    /** Puts a byte into the block. */
    method Store(octet: Byte)
      requires Valid()
      modifies this, block
      ensures Gathered() && fed == old(fed) + [octet] && index == old(index) + 1
    {
      FoldedPrefix(h, fed, [octet], blocks);
      assert (fed + [octet])[64 * blocks..] == fed[64 * blocks..] + [octet];
      block[index] := octet;
      index, count, fed := index + 1, count + 1, fed + [octet];
    }

    /** The block function applied to the full block. */
    method ProcessBlock()
      requires Gathered() && index == 64
      modifies this
      ensures Valid() && fed == old(fed) && index == 0
    {
      assert block[..] == block[..index];
      index := 0;
      digest := h.compress(digest, block[..]);
      blocks := blocks + 1;
      assert fed[64 * (blocks - 1)..64 * blocks] == fed[64 * (blocks - 1)..];
    }

    /** processBytes: however a message is cut into calls, what counts is what was fed. */
    method ProcessBytes(data: Bytes)
      requires Valid()
      modifies this, block
      ensures Valid() && fed == old(fed) + data
    {
      for i := 0 to |data|
        invariant Valid() && fed == old(fed) + data[..i]
      {
        ProcessByte(data[i]);
        assert data[..i] + [data[i]] == data[..i + 1];
      }
      assert data[..|data|] == data;
    }

    /** Feeds zero bytes until the block index is `stop`. */
    method FeedZeros(stop: nat, ghost m: Bytes, ghost k: nat) returns (ghost n: nat)
      requires Valid() && stop < 64 && fed == m + Zeros(k)
      modifies this, block
      ensures Valid() && fed == m + Zeros(n) && index == stop
      ensures n == k + Gap(old(index), stop)
    {
      n := k;
      while index != stop
        invariant Valid() && fed == m + Zeros(n)
        invariant n + Gap(index, stop) == k + Gap(old(index), stop)
        decreases Gap(index, stop)
      {
        MoreZeros(m, n);
        ProcessByte(0);
        n := n + 1;
      }
    }

    /** getDigest. */
    method GetDigest() returns (d: S)
      requires Valid()
      modifies this, block
      ensures Valid() && fed == Padded(old(fed)) && index == 0
      ensures d == digest && |fed| == 64 * blocks && d == Folded(h, Padded(old(fed)), blocks)
    {
      ghost var m := fed;
      ghost var n: nat := 0;
      var bits := 8 * count;
      ProcessByte(0x80);
      ghost var marked := fed;
      assert fed == marked + Zeros(0);
      if index > 56 {
        n := FeedZeros(0, marked, 0);
      }
      n := FeedZeros(56, marked, n);
      ZeroCountIs(|m|, n, blocks);
      assert fed == Stem(m);
      FeedLength(bits, m);
      d := digest;
    }

    /** Four processByte calls in a row. */
    method FeedFour(a: Byte, b: Byte, c: Byte, d: Byte)
      requires Valid() && index <= 60
      modifies this, block
      ensures Valid() && fed == old(fed) + [a, b, c, d]
      ensures index == if old(index) == 60 then 0 else old(index) + 4
    {
      ProcessBytes([a, b, c, d]);
    }

    /** The last eight bytes: four zeros and the low 32 bits of the bit count. */
    method FeedLength(bits: nat, ghost m: Bytes)
      requires Valid() && fed == Stem(m) && index == 56 && bits == 8 * |m|
      modifies this, block
      ensures Valid() && fed == Padded(m) && index == 0
    {
      FourBytes(bits, |Zeros(4)|);
      FeedFour(0, 0, 0, 0);
      FeedFour(bits / 0x1000000 % 256, bits / 0x10000 % 256, bits / 0x100 % 256, bits % 256);
      assert Zeros(4) == [0, 0, 0, 0];
    }
  }

  lemma FourBytes(n: nat, k: nat)
    requires k == 4
    ensures ToBytes(n % WORD32, k) == [n / 0x1000000 % 256, n / 0x10000 % 256, n / 0x100 % 256, n % 256]
  {
    Pow256Of4(k);
    ToBytesLow(n, k);
    var n1, n2, n3 := n / 256, n / 256 / 256, n / 256 / 256 / 256;
    LastByte(n, k);
    LastByte(n1, k - 1);
    LastByte(n2, k - 2);
    LastByte(n3, k - 3);
    assert n2 == n / 0x10000 && n3 == n / 0x1000000;
  }

  function Joined(parts: seq<Bytes>): Bytes {
    if parts == [] then [] else Joined(parts[..|parts| - 1]) + parts[|parts| - 1]
  }

  /** Feeds a message in parts. */
  method FeedParts<S>(sha: Hasher<S>, parts: seq<Bytes>)
    requires sha.Valid() && sha.fed == []
    modifies sha, sha.block
    ensures sha.Valid() && sha.fed == Joined(parts)
  {
    for i := 0 to |parts|
      invariant sha.Valid() && sha.fed == Joined(parts[..i])
    {
      sha.ProcessBytes(parts[i]);
      assert parts[..i + 1][..i] == parts[..i];
    }
    assert parts[..|parts|] == parts;
  }

  /** The digest of a message of whole blocks. */
  function Whole<S>(h: Hash<S>, m: Bytes): S
    requires |m| % 64 == 0
  {
    Folded(h, m, |m| / 64)
  }

  lemma WholeIs<S>(h: Hash<S>, m: Bytes, n: nat)
    requires |m| == 64 * n
    ensures |m| % 64 == 0 && Whole(h, m) == Folded(h, m, n)
  {
  }

  /** Feeds a message in parts and asks for the digest. */
  method HashParts<S>(h: Hash<S>, parts: seq<Bytes>) returns (d: S)
    ensures |Padded(Joined(parts))| % 64 == 0 && d == Whole(h, Padded(Joined(parts)))
  {
    var sha := new Hasher(h);
    FeedParts(sha, parts);
    d := sha.GetDigest();
    WholeIs(h, sha.fed, sha.blocks);
  }
}
