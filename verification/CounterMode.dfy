/** CTR mode: crypt_ctr of aes.h, over the 128-bit counter. */
module CounterMode {
  import opened CipherModes
  import opened Counter

  /** The first bytes of a mask applied to at most one block of data. */
  function MaskBlock(c: Cipher, data: Bytes, mask: Bytes): (r: Bytes)
    requires |data| <= |mask|
    ensures |r| == |data|
  {
    seq<Byte>(|data|, k requires 0 <= k < |data| => c.xor(data[k], mask[k]))
  }

  /** Block after block of the data masked by the encryptions of counter blocks `n`, `n + 1`, and so on. */
  function Masked(c: Cipher, blocks: nat -> Bytes, n: nat, data: Bytes): (r: Bytes)
    requires Sound(c) && forall i :: |blocks(i)| == 16
    ensures |r| == |data|
    decreases |data|
  {
    if |data| <= 16 then MaskBlock(c, data, c.enc(blocks(n)))
    else MaskBlock(c, data[..16], c.enc(blocks(n))) + Masked(c, blocks, n + 1, data[16..])
  }

  /** Masking twice with the same blocks restores the data. */
  lemma {:induction false} MaskedTwice(c: Cipher, blocks: nat -> Bytes, n: nat, data: Bytes)
    requires Sound(c) && forall i :: |blocks(i)| == 16
    ensures Masked(c, blocks, n, Masked(c, blocks, n, data)) == data
    decreases |data|
  {
    MaskBlockTwice(c, if |data| <= 16 then data else data[..16], c.enc(blocks(n)));
    if |data| > 16 {
      var m := Masked(c, blocks, n, data);
      assert m[..16] == MaskBlock(c, data[..16], c.enc(blocks(n)));
      assert m[16..] == Masked(c, blocks, n + 1, data[16..]);
      MaskedTwice(c, blocks, n + 1, data[16..]);
      assert data == data[..16] + data[16..];
    }
  }

  lemma MaskBlockTwice(c: Cipher, data: Bytes, mask: Bytes)
    requires Sound(c) && |data| <= |mask|
    ensures MaskBlock(c, MaskBlock(c, data, mask), mask) == data
  {
  }

  /** Byte `k` of block `m` of the masked data, the first block being block `n`. */
  lemma {:induction false} MaskedByte(c: Cipher, blocks: nat -> Bytes, n: nat, data: Bytes, m: nat, k: nat, pos: nat)
    requires Sound(c) && forall i :: |blocks(i)| == 16
    requires n <= m && k < 16 && pos == 16 * (m - n) + k < |data|
    ensures |c.enc(blocks(m))| == 16 && Masked(c, blocks, n, data)[pos] == c.xor(data[pos], c.enc(blocks(m))[k])
    decreases m - n
  {
    if n == m {
      MaskedHead(c, blocks, n, data, k);
    } else {
      MaskedTail(c, blocks, n, data, pos);
      MaskedByte(c, blocks, n + 1, data[16..], m, k, pos - 16);
    }
  }

  lemma MaskedHead(c: Cipher, blocks: nat -> Bytes, n: nat, data: Bytes, k: nat)
    requires Sound(c) && forall i :: |blocks(i)| == 16
    requires k < 16 && k < |data|
    ensures Masked(c, blocks, n, data)[k] == c.xor(data[k], c.enc(blocks(n))[k])
  {
  }

  lemma MaskedTail(c: Cipher, blocks: nat -> Bytes, n: nat, data: Bytes, pos: nat)
    requires Sound(c) && forall i :: |blocks(i)| == 16
    requires 16 <= pos < |data|
    ensures Masked(c, blocks, n, data)[pos] == Masked(c, blocks, n + 1, data[16..])[pos - 16]
    ensures data[16..][pos - 16] == data[pos]
  {
    BehindHead(MaskBlock(c, data[..16], c.enc(blocks(n))), Masked(c, blocks, n + 1, data[16..]), pos);
  }

  lemma BehindHead(a: Bytes, b: Bytes, pos: nat)
    requires |a| == 16 <= pos < |a| + |b|
    ensures (a + b)[pos] == b[pos - 16]
  {
  }

  /** Section 6.5 of SP 800-38A: block `i` is masked by the encryption of nonce + i. */
  function Ctr(c: Cipher, nonce: Bytes, data: Bytes): (r: Bytes)
    requires Sound(c) && |nonce| == 16
    ensures |r| == |data|
  {
    Masked(c, i => CounterBlock(nonce, i), 0, data)
  }

  /** `b` is the nonce advanced by `n`, as a number of 128 bits. */
  ghost predicate IsCounter(nonce: Bytes, n: nat, b: Bytes) {
    |nonce| == |b| == 16 && Value(b) == (Value(nonce) + n) % WORD128
  }

  /** Byte p is masked by byte p % 16 of the encryption of the nonce advanced by p / 16. */
  lemma CtrMeans(c: Cipher, nonce: Bytes, data: Bytes, p: nat, b: Bytes)
    requires Sound(c) && p < |data| && IsCounter(nonce, p / 16, b)
    ensures Ctr(c, nonce, data)[p] == c.xor(data[p], c.enc(b)[p % 16])
  {
    CtrByte(c, nonce, data, p);
    CounterIs(nonce, p / 16, b);
  }

  lemma CtrByte(c: Cipher, nonce: Bytes, data: Bytes, p: nat)
    requires Sound(c) && |nonce| == 16 && p < |data|
    ensures Ctr(c, nonce, data)[p] == c.xor(data[p], c.enc(CounterBlock(nonce, p / 16))[p % 16])
  {
    MaskedByte(c, i => CounterBlock(nonce, i), 0, data, p / 16, p % 16, p);
  }

  lemma CounterIs(nonce: Bytes, n: nat, b: Bytes)
    requires IsCounter(nonce, n, b)
    ensures b == CounterBlock(nonce, n)
  {
    CounterValue(nonce, n);
    SameValue(b, CounterBlock(nonce, n));
  }

  lemma CtrTwice(c: Cipher, nonce: Bytes, data: Bytes)
    requires Sound(c) && |nonce| == 16
    ensures Ctr(c, nonce, Ctr(c, nonce, data)) == data
  {
    MaskedTwice(c, i => CounterBlock(nonce, i), 0, data);
  }

  /** What masking does to byte `k` of block `n`, for every byte. */
  ghost predicate MaskedBy(c: Cipher, blocks: nat -> Bytes, was: Bytes, want: Bytes) {
    && |was| == |want|
    && (forall n: nat, k: nat :: k < 16 && 16 * n + k < |was| && |c.enc(blocks(n))| == 16 ==>
      want[16 * n + k] == c.xor(was[16 * n + k], c.enc(blocks(n))[k]))
  }

  lemma MaskedIsMaskedBy(c: Cipher, blocks: nat -> Bytes, data: Bytes)
    requires Sound(c) && forall i :: |blocks(i)| == 16
    ensures MaskedBy(c, blocks, data, Masked(c, blocks, 0, data))
  {
    forall n: nat, k: nat | k < 16 && 16 * n + k < |data| && |c.enc(blocks(n))| == 16
      ensures Masked(c, blocks, 0, data)[16 * n + k] == c.xor(data[16 * n + k], c.enc(blocks(n))[k])
    {
      MaskedByte(c, blocks, 0, data, n, k, 16 * n + k);
    }
  }

  /** Names a block whose counter is wanted. */
  predicate Wanted(n: nat) { true }

  /** `blocks` lists the counter blocks of a nonce; each is looked at only where it is wanted. */
  ghost predicate Counts(blocks: nat -> Bytes, nonce: Bytes) {
    |nonce| == 16 && forall n {:trigger Wanted(n)} :: Wanted(n) ==> blocks(n) == CounterBlock(nonce, n)
  }

  /** Encrypts the counter and steps it. */
  method NextMask(c: Cipher, counter: array<Byte>, nonce: Bytes, ghost blocks: nat -> Bytes, ghost n: nat)
    returns (blk: Bytes)
    requires Sound(c) && Counts(blocks, nonce) && counter[..] == blocks(n)
    modifies counter
    ensures blk == c.enc(blocks(n)) && |blk| == 16
    ensures counter[..] == blocks(n + 1)
  {
    assert Wanted(n) && Wanted(n + 1);
    blk := c.enc(counter[..]);
    IncrCounter(counter);
    NextCounter(nonce, n, counter[..]);
  }

  /** The block in use is the encryption of counter block `n - 1`; before the first one it counts as used up. */
  ghost predicate Masking(c: Cipher, blocks: nat -> Bytes, n: nat, blk: Bytes, blkpos: nat) {
    if n == 0 then blkpos == 16 else |blk| == 16 && blk == c.enc(blocks(n - 1))
  }

  /** The next block when the one in use is used up. */
  method Refill(c: Cipher, counter: array<Byte>, blk: Bytes, blkpos: nat, nonce: Bytes, ghost blocks: nat -> Bytes,
                ghost n: nat)
    returns (blk': Bytes, blkpos': nat, ghost n': nat)
    requires Sound(c) && Counts(blocks, nonce) && counter[..] == blocks(n)
    requires blkpos <= 16 && Masking(c, blocks, n, blk, blkpos)
    modifies counter
    ensures n' > 0 && counter[..] == blocks(n') && Masking(c, blocks, n', blk', blkpos')
    ensures blkpos' < 16 && 16 * n' + blkpos' == 16 * n + blkpos
  {
    if blkpos == 16 {
      blk' := NextMask(c, counter, nonce, blocks, n);
      n', blkpos' := n + 1, 0;
      MaskingNext(c, blocks, n, blk');
    } else {
      blk', blkpos', n' := blk, blkpos, n;
    }
  }

  lemma MaskingNext(c: Cipher, blocks: nat -> Bytes, n: nat, blk: Bytes)
    requires |blk| == 16 && blk == c.enc(blocks(n))
    ensures Masking(c, blocks, n + 1, blk, 0)
  {
  }

  /** The data with its first `pos` bytes done. */
  ghost function Partly(was: Bytes, want: Bytes, pos: nat): Bytes {
    if pos <= |was| && pos <= |want| then want[..pos] + was[pos..] else want
  }

  /** Masks byte `k` of the block in use, the bytes before it being done. */
  method MaskAt(c: Cipher, data: array<Byte>, pos: nat, blk: Bytes, k: nat,
                ghost blocks: nat -> Bytes, ghost n: nat, ghost was: Bytes, ghost want: Bytes)
    requires MaskedBy(c, blocks, was, want) && |was| == data.Length
    requires n > 0 && Masking(c, blocks, n, blk, k) && k < 16 && pos == 16 * n + k - 16 < |was|
    requires data[..] == Partly(was, want, pos)
    modifies data
    ensures data[..] == Partly(was, want, pos + 1)
  {
    assert data[pos] == data[..][pos];
    ghost var i: nat := n - 1;
    assert want[16 * i + k] == c.xor(was[16 * i + k], c.enc(blocks(i))[k]);
    data[pos] := c.xor(data[pos], blk[k]);
    assert data[..] == (want[..pos] + was[pos..])[pos := want[pos]];
  }

  /** The loop of crypt_ctr. */
  method MaskData(c: Cipher, data: array<Byte>, counter: array<Byte>, nonce: Bytes, ghost blocks: nat -> Bytes,
                  ghost want: Bytes)
    requires Sound(c) && Counts(blocks, nonce) && counter[..] == blocks(0) && counter != data
    requires MaskedBy(c, blocks, data[..], want)
    modifies data, counter
    ensures data[..] == want
  {
    ghost var was := data[..];
    var blk: Bytes, pos: nat, blkpos: nat := [], 0, 16;
    ghost var n: nat := 0;
    while pos < data.Length
      invariant pos <= data.Length && blkpos <= 16 && pos == 16 * n + blkpos - 16
      invariant counter[..] == blocks(n) && Masking(c, blocks, n, blk, blkpos)
      invariant data[..] == Partly(was, want, pos)
    {
      blk, blkpos, n := Refill(c, counter, blk, blkpos, nonce, blocks, n);
      MaskAt(c, data, pos, blk, blkpos, blocks, n, was, want);
      pos, blkpos := pos + 1, blkpos + 1;
    }
  }

  /** crypt_ctr, in place. */
  method CryptCtr(c: Cipher, keySize: nat, data: array<Byte>, nonce: Bytes) returns (e: Error)
    requires Sound(c) && |nonce| == 16
    modifies data
    ensures e == if ValidKeySize(keySize) then Ok else InvalidKeySize
    ensures data[..] == if e == Ok then Ctr(c, nonce, old(data[..])) else old(data[..])
  {
    if !ValidKeySize(keySize) {
      return InvalidKeySize;
    }
    var counter := new Byte[|nonce|](i requires 0 <= i < |nonce| => nonce[i]);
    assert counter[..] == nonce;
    FirstCounter(nonce);
    assert Wanted(0);
    MaskedIsMaskedBy(c, i => CounterBlock(nonce, i), data[..]);
    MaskData(c, data, counter, nonce, i => CounterBlock(nonce, i), Ctr(c, nonce, data[..]));
    e := Ok;
  }
}
