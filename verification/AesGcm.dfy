/** AES-GCM as a whole: AES for the cipher and GHASH for the hash. */
module AesGcm {
  import opened CipherModes
  import opened BlockBits
  import opened Ghash
  import AesBlock
  import AesCipher
  import AesModes
  import Gcm

  function BlocksOf(x: Bytes): seq<Block> {
    seq<Block>(|x| / 16, i requires 0 <= i < |x| / 16 => BlockOf(Blk(x, i)))
  }

  /** GHASH on bytes. */
  function Hash(h: Bytes, x: Bytes): (r: Bytes)
    ensures |r| == 16
  {
    if |h| != 16 then Zeros(16) else BytesOf(Polynomial(BlockOf(h), BlocksOf(x)), |h|)
  }

  /** mul_blocks, on blocks of bytes. */
  method MulBytes(a: Bytes, b: Bytes) returns (r: Bytes)
    requires |a| == |b| == 16
    ensures |r| == 16 && BlockOf(r) == Mul(BlockOf(a), BlockOf(b))
  {
    var z := MulBlocks(BlockOf(a), BlockOf(b));
    r := BytesOf(z, 16);
    BytesBlock(z, 16);
  }

  /** The loop's body on bytes is the step of Horner's rule on bits. */
  method HashStep(y: Bytes, xi: Bytes, h: Bytes) returns (r: Bytes)
    requires |y| == |xi| == |h| == 16
    ensures |r| == 16 && BlockOf(r) == Mul(Ghash.Xor(BlockOf(y), BlockOf(xi)), BlockOf(h))
  {
    BlockXor(y, xi);
    r := MulBytes(XorBytes(y, xi), h);
  }

  lemma PolynomialNext(h: Block, xs: seq<Block>, i: nat)
    requires i < |xs|
    ensures Polynomial(h, xs[..i + 1]) == Mul(Ghash.Xor(Polynomial(h, xs[..i]), xs[i]), h)
  {
    HornerStep(h, xs[..i], xs[i]);
    assert xs[..i + 1] == xs[..i] + [xs[i]];
  }

  /** ghash: the sum so far is kept as bytes. */
  method RunHash(h: Bytes, x: Bytes) returns (y: Bytes)
    requires |h| == 16
    ensures y == Hash(h, x) && BlockOf(y) == Polynomial(BlockOf(h), BlocksOf(x))
  {
    ghost var xs, bits := BlocksOf(x), BlockOf(h);
    y := Zeros(|h|);
    BlockZero(|h|);
    for i := 0 to |x| / 16
      invariant |y| == 16 && BlockOf(y) == Polynomial(bits, xs[..i])
    {
      PolynomialNext(bits, xs, i);
      y := HashStep(y, Blk(x, i), h);
    }
    assert xs[..|xs|] == xs;
    BlockBytes(y);
  }

  /** AES-GCM under a list of round keys. */
  function SuiteUnder(keys: seq<AesBlock.State>): Gcm.Suite
    requires AesCipher.IsSchedule(keys)
  {
    Gcm.Suite(AesModes.AesUnder(keys), Hash)
  }

  /** So everything said of usable suites holds of AES with GHASH, under every key list. */
  lemma SuiteUsable(keys: seq<AesBlock.State>)
    requires AesCipher.IsSchedule(keys)
    ensures Gcm.Usable(SuiteUnder(keys))
  {
    AesModes.AesSound(keys);
  }
}
