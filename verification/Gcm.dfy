/** GCM mode: encrypt_gcm and decrypt_gcm of aes.h, over the cipher and the GHASH function. */
module Gcm {
  import opened Options
  import opened CipherModes
  import opened Counter
  import opened CounterMode
  import Bits

  /** A block cipher and GHASH: hash key and whole blocks to a block. */
  datatype Suite = Suite(cipher: Cipher, ghash: (Bytes, Bytes) -> Bytes)

  ghost predicate Usable(g: Suite) {
    && Sound(g.cipher)
    && (forall h: Bytes, x: Bytes :: |g.ghash(h, x)| == 16)
  }

  /** inc32: adds one to the low 32 bits, modulo 2^32. */
  function Inc32(b: Bytes): (r: Bytes)
    requires |b| == 16
    ensures |r| == 16
  {
    b[..12] + AdvancedLow(b[12..], 1)
  }

  /** Section 6.5 of SP 800-38D: counter block `i`, the low 32 bits advanced by `i`. */
  function Advanced(b: Bytes, i: nat): (r: Bytes)
    requires |b| == 16
    ensures |r| == 16
  {
    b[..12] + AdvancedLow(b[12..], i)
  }

  /** The low bytes advanced by `i`. */
  function AdvancedLow(low: Bytes, i: nat): (r: Bytes)
    ensures |r| == |low|
  {
    ToBytes((Value(low) + i) % WORD32, |low|)
  }

  lemma AdvancedLowZero(low: Bytes)
    requires |low| == 4
    ensures AdvancedLow(low, 0) == low
  {
    Pow256Of4(|low|);
    ValueBound(low);
    BytesOfValue(low);
  }

  lemma AdvancedLowValue(low: Bytes, i: nat)
    requires |low| == 4
    ensures Value(AdvancedLow(low, i)) == (Value(low) + i) % WORD32
  {
    Pow256Of4(|low|);
    ValueOfBytes((Value(low) + i) % WORD32, |low|);
  }

  lemma ModNext32(a: nat)
    ensures (a % WORD32 + 1) % WORD32 == (a + 1) % WORD32
  {
  }

  lemma AdvancedLowNext(low: Bytes, i: nat)
    requires |low| == 4
    ensures AdvancedLow(AdvancedLow(low, i), 1) == AdvancedLow(low, i + 1)
  {
    AdvancedLowValue(low, i);
    ModNext32(Value(low) + i);
  }

  lemma AdvancedZero(b: Bytes)
    requires |b| == 16
    ensures Advanced(b, 0) == b
  {
    AdvancedLowZero(b[12..]);
    assert b == b[..12] + b[12..];
  }

  /** inc32 steps from one counter block to the next. */
  lemma AdvancedNext(b: Bytes, i: nat)
    requires |b| == 16
    ensures Inc32(Advanced(b, i)) == Advanced(b, i + 1)
  {
    AdvancedLowNext(b[12..], i);
    assert Advanced(b, i)[..12] == b[..12] && Advanced(b, i)[12..] == AdvancedLow(b[12..], i);
  }

  /** GCTR: the data masked by the encryptions of the counter blocks from `icb` on. */
  function Gctr(c: Cipher, icb: Bytes, x: Bytes): (y: Bytes)
    requires Sound(c) && |icb| == 16
    ensures |y| == |x|
  {
    Masked(c, i => Advanced(icb, i), 0, x)
  }

  lemma GctrTwice(c: Cipher, icb: Bytes, x: Bytes)
    requires Sound(c) && |icb| == 16
    ensures Gctr(c, icb, Gctr(c, icb, x)) == x
  {
    MaskedTwice(c, i => Advanced(icb, i), 0, x);
  }

  /** The exclusive or of a block padded with zeros, cut back to its own length. */
  function PaddedXor(c: Cipher, x: Bytes, mask: Bytes): (r: Bytes)
    requires |x| <= 16 && |mask| == 16
    ensures |r| == |x|
  {
    Xor(c, x + Zeros(16 - |x|), mask)[..|x|]
  }

  lemma PaddedXorMasks(c: Cipher, x: Bytes, mask: Bytes)
    requires |x| <= 16 && |mask| == 16
    ensures PaddedXor(c, x, mask) == MaskBlock(c, x, mask)
  {
  }

  /** gctr: block by block, stepping the counter block with inc32. */
  method RunGctr(c: Cipher, icb: Bytes, x: Bytes) returns (y: Bytes)
    requires Sound(c) && |icb| == 16
    ensures y == Gctr(c, icb, x)
  {
    var n := (|x| + 15) / 16;
    MaskedIsMaskedBy(c, i => Advanced(icb, i), x);
    AdvancedZero(icb);
    var buf := new Byte[|x|](_ => 0);
    GctrBlocks(c, icb, x, n, buf, i => Advanced(icb, i), Gctr(c, icb, x));
    y := buf[..];
  }

  /** `blocks` lists the counter blocks from `icb` on. */
  ghost predicate Advances(blocks: nat -> Bytes, icb: Bytes) {
    |icb| == 16 && blocks(0) == icb && forall n {:trigger Wanted(n)} :: Wanted(n) ==> blocks(n) == Advanced(icb, n)
  }

  method GctrBlocks(c: Cipher, icb: Bytes, x: Bytes, n: nat, buf: array<Byte>,
                    ghost blocks: nat -> Bytes, ghost want: Bytes)
    requires Sound(c) && Advances(blocks, icb) && MaskedBy(c, blocks, x, want)
    requires 16 * n < |x| + 16 && |x| <= 16 * n && buf.Length == |x|
    modifies buf
    ensures buf[..] == want
  {
    var cb, done := icb, 0;
    for i := 0 to n
      invariant InStep(blocks, want, n, i, cb, done, buf[..])
    {
      cb, done := GctrStep(c, icb, x, n, i, cb, done, buf, blocks, want);
    }
    AllSteps(blocks, want, n, cb, done, buf[..]);
  }

  lemma AllSteps(blocks: nat -> Bytes, want: Bytes, n: nat, cb: Bytes, done: nat, got: Bytes)
    requires InStep(blocks, want, n, n, cb, done, got)
    ensures got == want
  {
    assert got[..done] == got && want[..done] == want;
  }

  /** How far the loop has come before block `i`: the counter block last used, and the bytes done. */
  ghost predicate InStep(blocks: nat -> Bytes, want: Bytes, n: nat, i: nat, cb: Bytes, done: nat, got: Bytes) {
    && |got| == |want| && done == (if i < n then 16 * i else |want|)
    && cb == blocks(if i == 0 then 0 else i - 1)
    && done <= |want| && got[..done] == want[..done]
  }

  /** The loop's body: steps the counter block and puts block `i`. */
  method GctrStep(c: Cipher, icb: Bytes, x: Bytes, n: nat, i: nat, cb: Bytes, done: nat, buf: array<Byte>,
                  ghost blocks: nat -> Bytes, ghost want: Bytes) returns (cb': Bytes, done': nat)
    requires Sound(c) && Advances(blocks, icb) && MaskedBy(c, blocks, x, want)
    requires 16 * n < |x| + 16 && |x| <= 16 * n && i < n
    requires InStep(blocks, want, n, i, cb, done, buf[..])
    modifies buf
    ensures InStep(blocks, want, n, i + 1, cb', done', buf[..])
  {
    assert buf[..][..done] == buf[..done];
    cb' := StepBlock(icb, cb, i, blocks);
    var size := if i < n - 1 then 16 else |x| - 16 * i;
    done' := GctrPut(c, cb', x, i, done, size, buf, blocks, want);
    assert buf[..][..done'] == buf[..done'];
  }

  /** The counter block of block `i`, from that of the block before. */
  method StepBlock(icb: Bytes, cb: Bytes, i: nat, ghost blocks: nat -> Bytes) returns (r: Bytes)
    requires Advances(blocks, icb) && cb == blocks(if i == 0 then 0 else i - 1)
    ensures r == blocks(i) && |r| == 16
  {
    if i == 0 {
      r := cb;
    } else {
      assert Wanted(i - 1) && Wanted(i);
      AdvancedNext(icb, i - 1);
      r := Inc32(cb);
    }
  }

  /** Block `i` of the result. */
  method GctrOne(c: Cipher, cb: Bytes, x: Bytes, i: nat, done: nat, size: nat,
                 ghost blocks: nat -> Bytes, ghost want: Bytes) returns (yi: Bytes)
    requires Sound(c) && MaskedBy(c, blocks, x, want) && cb == blocks(i) && |cb| == 16
    requires size <= 16 && done == 16 * i && done + size <= |x|
    ensures |yi| == size && yi == want[done..done + size]
  {
    var part, mask := x[done..done + size], c.enc(cb);
    yi := PaddedXor(c, part, mask);
    PaddedXorMasks(c, part, mask);
    assert forall k: nat :: k < size ==> want[16 * i + k] == c.xor(x[16 * i + k], c.enc(blocks(i))[k]);
  }

  /** Block `i` of the result, put behind the blocks before it. */
  method GctrPut(c: Cipher, cb: Bytes, x: Bytes, i: nat, done: nat, size: nat, buf: array<Byte>,
                 ghost blocks: nat -> Bytes, ghost want: Bytes) returns (next: nat)
    requires Sound(c) && MaskedBy(c, blocks, x, want) && cb == blocks(i) && |cb| == 16
    requires size <= 16 && done == 16 * i && done + size <= |x| == buf.Length
    requires buf[..done] == want[..done]
    modifies buf
    ensures next == done + size && buf[..next] == want[..next]
  {
    var yi := GctrOne(c, cb, x, i, done, size, blocks, want);
    next := PutText(want, done, yi, buf);
  }

  /** Zero bytes up to the next whole block. */
  function Pad(n: nat): (z: Bytes)
    ensures (n + |z|) % 16 == 0 && |z| < 16
  {
    Zeros((16 - n % 16) % 16)
  }

  /** The bit count of `n` bytes as eight big-endian bytes. */
  function BitCount(n: nat): (b: Bytes) {
    ToBytes(8 * n % Bits.WORD64, 8)
  }

  function HashKey(g: Suite): (h: Bytes)
    requires Usable(g)
    ensures |h| == 16
  {
    g.cipher.enc(Zeros(16))
  }

  /** calc_J0: the block the counter starts from. */
  function J0(g: Suite, iv: Bytes): (j: Bytes)
    requires Usable(g)
    ensures |j| == 16
  {
    if |iv| == 12 then iv + [0, 0, 0, 1]
    else g.ghash(HashKey(g), iv + Pad(|iv|) + Zeros(8) + BitCount(|iv|))
  }

  /** The bytes GHASH authenticates. */
  function TagInput(aad: Bytes, ct: Bytes): (b: Bytes) {
    aad + Pad(|aad|) + ct + Pad(|ct|) + BitCount(|aad|) + BitCount(|ct|)
  }

  /** calc_gcm_tag: the whole tag of a ciphertext. */
  function FullTag(g: Suite, iv: Bytes, aad: Bytes, ct: Bytes): (t: Bytes)
    requires Usable(g)
    ensures |t| == 16
  {
    Gctr(g.cipher, J0(g, iv), g.ghash(HashKey(g), TagInput(aad, ct)))
  }

  /** crypt_gcm. */
  function Crypt(g: Suite, iv: Bytes, data: Bytes): (r: Bytes)
    requires Usable(g)
    ensures |r| == |data|
  {
    Gctr(g.cipher, Inc32(J0(g, iv)), data)
  }

  /** Algorithm 4 of SP 800-38D: ciphertext and tag. */
  function Seal(g: Suite, iv: Bytes, aad: Bytes, data: Bytes, tagSize: nat): (r: (Bytes, Bytes))
    requires Usable(g) && tagSize <= 16
    ensures |r.0| == |data| && |r.1| == tagSize
  {
    var ct := Crypt(g, iv, data);
    (ct, FullTag(g, iv, aad, ct)[..tagSize])
  }

  /** Algorithm 5 of SP 800-38D: the plaintext, when the tag is the one the ciphertext calls for. */
  function Open(g: Suite, iv: Bytes, aad: Bytes, ct: Bytes, tag: Bytes): (r: Option<Bytes>)
    requires Usable(g) && |tag| <= 16
  {
    if tag == FullTag(g, iv, aad, ct)[..|tag|] then Some(Crypt(g, iv, ct)) else None
  }

  /** Decryption gives `data` for exactly one ciphertext and tag: the ones encryption of `data` makes. */
  lemma OpensExactlySealed(g: Suite, iv: Bytes, aad: Bytes, ct: Bytes, tag: Bytes, data: Bytes)
    requires Usable(g) && |tag| <= 16
    ensures Open(g, iv, aad, ct, tag) == Some(data) <==> Seal(g, iv, aad, data, |tag|) == (ct, tag)
  {
    GctrTwice(g.cipher, Inc32(J0(g, iv)), data);
    GctrTwice(g.cipher, Inc32(J0(g, iv)), ct);
  }

  /** check_gcm_cond. */
  function CheckGcm(keySize: nat, ivSize: nat, tagSize: nat): (e: Error)
    ensures e == Ok ==> tagSize <= 16
  {
    if !ValidKeySize(keySize) then InvalidKeySize
    else if ivSize < 1 then InvalidIvSize
    else if (tagSize < 12 || 16 < tagSize) && tagSize != 8 && tagSize != 4 then InvalidTagSize
    else Ok
  }

  /** crypt_gcm on a buffer. */
  method CryptGcm(g: Suite, iv: Bytes, data: array<Byte>)
    requires Usable(g)
    modifies data
    ensures data[..] == Crypt(g, iv, old(data[..]))
  {
    var text := RunGctr(g.cipher, Inc32(J0(g, iv)), data[..]);
    CopyInto(data, 0, text);
  }

  /** calc_gcm_tag. */
  method CalcGcmTag(g: Suite, iv: Bytes, aad: Bytes, data: array<Byte>, tagSize: nat) returns (tag: Bytes)
    requires Usable(g) && tagSize <= 16
    ensures tag == FullTag(g, iv, aad, data[..])[..tagSize]
  {
    var s := g.ghash(HashKey(g), TagInput(aad, data[..]));
    var t := RunGctr(g.cipher, J0(g, iv), s);
    tag := t[..tagSize];
  }

  /** encrypt_gcm, in place. */
  method EncryptGcm(g: Suite, keySize: nat, iv: Bytes, aad: Bytes, data: array<Byte>, tagSize: nat)
    returns (e: Error, tag: Bytes)
    requires Usable(g) && data.Length > 0
    modifies data
    ensures e == CheckGcm(keySize, |iv|, tagSize)
    ensures e == Ok ==> (data[..], tag) == Seal(g, iv, aad, old(data[..]), tagSize)
    ensures e != Ok ==> data[..] == old(data[..])
  {
    e, tag := CheckGcm(keySize, |iv|, tagSize), [];
    if e == Ok {
      CryptGcm(g, iv, data);
      tag := CalcGcmTag(g, iv, aad, data, tagSize);
    }
  }

  /** decrypt_gcm, in place. */
  method DecryptGcm(g: Suite, keySize: nat, iv: Bytes, aad: Bytes, data: array<Byte>, tag: Bytes) returns (e: Error)
    requires Usable(g) && data.Length > 0
    modifies data
    ensures CheckGcm(keySize, |iv|, |tag|) != Ok ==> e == CheckGcm(keySize, |iv|, |tag|)
    ensures CheckGcm(keySize, |iv|, |tag|) == Ok ==> e == Ok || e == InvalidTag
    ensures e == Ok ==> Open(g, iv, aad, old(data[..]), tag) == Some(data[..])
    ensures e == InvalidTag ==> |tag| <= 16 && Open(g, iv, aad, old(data[..]), tag) == None
    ensures e != Ok ==> data[..] == old(data[..])
  {
    e := CheckGcm(keySize, |iv|, |tag|);
    if e == Ok {
      var tagd := CalcGcmTag(g, iv, aad, data, 16);
      if tag != tagd[..|tag|] {
        return InvalidTag;
      }
      CryptGcm(g, iv, data);
    }
  }

  /** A text encrypted and decrypted again in place, under the same vector and additional data. */
  method EncryptDecrypt(g: Suite, keySize: nat, iv: Bytes, aad: Bytes, text: Bytes, tagSize: nat)
    returns (e: Error, back: Bytes)
    requires Usable(g) && text != []
    ensures e == CheckGcm(keySize, |iv|, tagSize)
    ensures e == Ok ==> back == text
  {
    var data := new Byte[|text|](i requires 0 <= i < |text| => text[i]);
    assert data[..] == text;
    var tag;
    e, tag := EncryptGcm(g, keySize, iv, aad, data, tagSize);
    back := [];
    if e == Ok {
      OpensExactlySealed(g, iv, aad, data[..], tag, text);
      e := DecryptGcm(g, keySize, iv, aad, data, tag);
      back := data[..];
    }
  }
}
