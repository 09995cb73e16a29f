/** CBC mode with and without padding: encrypt_cbc and decrypt_cbc of aes.h. */
module Cbc {
  import opened Options
  import opened CipherModes

  /** What block `i` is chained to. */
  function Prev(iv: Bytes, ct: Bytes, i: nat): (b: Bytes)
    requires |iv| == 16 && 16 * i <= |ct|
    ensures |b| == 16
  {
    if i == 0 then iv else Blk(ct, i - 1)
  }

  /** Section 6.2 of SP 800-38A: block `i` of `ct` is the encryption of block `i` of `m`. */
  ghost predicate EncryptsAt(c: Cipher, iv: Bytes, m: Bytes, ct: Bytes, i: nat) {
    && |iv| == 16 && 16 * i + 16 <= |m| && 16 * i + 16 <= |ct|
    && Blk(ct, i) == c.enc(Xor(c, Blk(m, i), Prev(iv, ct, i)))
  }

  ghost predicate Encrypts(c: Cipher, iv: Bytes, m: Bytes, ct: Bytes) {
    && |iv| == 16 && |m| % 16 == 0 && |ct| == |m|
    && forall i :: 0 <= i < |m| / 16 ==> EncryptsAt(c, iv, m, ct, i)
  }

  /** Block `i` of the decryption. */
  function PlainBlock(c: Cipher, iv: Bytes, ct: Bytes, i: nat): Bytes
    requires |iv| == 16 && 16 * i + 16 <= |ct| && |c.dec(Blk(ct, i))| == 16
  {
    Xor(c, c.dec(Blk(ct, i)), Prev(iv, ct, i))
  }

  /** `m` is the decryption of `ct`. */
  ghost predicate Decrypts(c: Cipher, iv: Bytes, ct: Bytes, m: Bytes)
    requires Sound(c)
  {
    && |iv| == 16 && |ct| % 16 == 0 && |m| == |ct|
    && forall i :: 0 <= i < |ct| / 16 ==> Blk(m, i) == PlainBlock(c, iv, ct, i)
  }

  /** PKCS padding: between 1 and 16 bytes, each holding their number. */
  function PadCount(n: nat): (r: nat)
    ensures 1 <= r <= 16 && (n + r) % 16 == 0
  {
    16 - n % 16
  }

  function Padding(n: nat): (r: Bytes)
    ensures |r| == PadCount(n)
  {
    seq<Byte>(PadCount(n), _ => PadCount(n))
  }

  function Pad(m: Bytes): (r: Bytes)
    ensures |r| == |m| + PadCount(|m|)
  {
    m + Padding(|m|)
  }

  /** The vector used for chaining the first block; without one, nothing is added. */
  function Vector(iv: Option<Bytes>): Bytes {
    match iv
    case None => Zeros(16)
    case Some(v) => v
  }

  predicate ValidVector(iv: Option<Bytes>) {
    iv.Some? ==> |iv.value| == 16
  }

  /** Byte `k` of what block `i` is chained to: of the vector, or of the ciphertext block before. */
  function ChainByte(iv: Bytes, ct: Bytes, i: nat, k: nat): Byte
    requires |iv| == 16 && k < 16 && 16 * i <= |ct|
  {
    if i == 0 then iv[k] else ct[16 * i - 16 + k]
  }

  /** Each block is the encryption of its bytes, each added to the byte 16 places before in the ciphertext. */
  lemma EncryptsMeans(c: Cipher, iv: Bytes, m: Bytes, ct: Bytes, i: nat, x: Bytes)
    requires Encrypts(c, iv, m, ct) && 16 * i + 16 <= |m| && |x| == 16
    requires forall k :: 0 <= k < 16 ==> x[k] == c.xor(m[16 * i + k], ChainByte(iv, ct, i, k))
    ensures ct[16 * i..16 * i + 16] == c.enc(x)
  {
    assert EncryptsAt(c, iv, m, ct, i);
    assert x == Xor(c, Blk(m, i), Prev(iv, ct, i));
  }

  /** Each byte is one of the decryption of its block, added to the byte 16 places before in the ciphertext. */
  lemma DecryptsMeans(c: Cipher, iv: Bytes, ct: Bytes, m: Bytes, i: nat, k: nat)
    requires Sound(c) && Decrypts(c, iv, ct, m) && 16 * i + 16 <= |ct| && k < 16
    ensures |c.dec(ct[16 * i..16 * i + 16])| == 16
    ensures m[16 * i + k] == c.xor(c.dec(ct[16 * i..16 * i + 16])[k], ChainByte(iv, ct, i, k))
  {
    assert Blk(m, i) == PlainBlock(c, iv, ct, i);
    assert m[16 * i + k] == Blk(m, i)[k];
  }

  /** The padding: as few bytes as make whole blocks, at least one, each their number. */
  lemma PadMeans(m: Bytes, p: Bytes)
    requires p == Pad(m)
    ensures |p| % 16 == 0 && |m| < |p| <= |m| + 16 && p[..|m|] == m
    ensures forall i :: |m| <= i < |p| ==> p[i] == |p| - |m|
  {
  }

  /** A message is recovered block by block from its encryption. */
  lemma DecryptsEncrypted(c: Cipher, iv: Bytes, m: Bytes, ct: Bytes)
    requires Sound(c) && Encrypts(c, iv, m, ct)
    ensures Decrypts(c, iv, ct, m)
  {
    forall i | 0 <= i < |ct| / 16 ensures Blk(m, i) == PlainBlock(c, iv, ct, i) {
      assert EncryptsAt(c, iv, m, ct, i);
      var x := Xor(c, Blk(m, i), Prev(iv, ct, i));
      assert c.dec(c.enc(x)) == x;
      XorTwice(c, Blk(m, i), Prev(iv, ct, i));
    }
  }

  lemma SameBlocks(a: Bytes, b: Bytes)
    requires |a| == |b| && |a| % 16 == 0
    requires forall i :: 0 <= i < |a| / 16 ==> Blk(a, i) == Blk(b, i)
    ensures a == b
  {
    forall k | 0 <= k < |a| ensures a[k] == b[k] {
      BlockByte(a, k, k / 16, k % 16);
      BlockByte(b, k, k / 16, k % 16);
      assert Blk(a, k / 16) == Blk(b, k / 16);
    }
  }

  lemma BlockByte(a: Bytes, k: nat, i: nat, r: nat)
    requires k < |a| && |a| % 16 == 0 && i == k / 16 && r == k % 16
    ensures 16 * i + 16 <= |a| && a[k] == Blk(a, i)[r]
  {
    assert k == 16 * i + r;
  }

  /** A ciphertext has one decryption. */
  lemma DecryptsUnique(c: Cipher, iv: Bytes, ct: Bytes, m: Bytes, m': Bytes)
    requires Sound(c) && Decrypts(c, iv, ct, m) && Decrypts(c, iv, ct, m')
    ensures m == m'
  {
    SameBlocks(m, m');
  }

  function CheckEncrypt(dataSize: nat, keySize: nat, bufferSize: nat, pads: bool): Error {
    if !pads && dataSize % 16 != 0 then InvalidDataSize
    else if !ValidKeySize(keySize) then InvalidKeySize
    else if pads && bufferSize < dataSize + PadCount(dataSize) then InvalidBufferSize
    else if !pads && bufferSize < dataSize then InvalidBufferSize
    else Ok
  }

  function Message(data: Bytes, pads: bool): Bytes {
    if pads then Pad(data) else data
  }

  /** Encrypts one block into the buffer. */
  method PutBlock(c: Cipher, ghost iv: Bytes, ghost m: Bytes, i: nat, block: Bytes, prev: Bytes, buf: array<Byte>)
    requires Sound(c) && |iv| == 16 && 16 * i + 16 <= |m| && 16 * i + 16 <= buf.Length
    requires block == Blk(m, i) && prev == Prev(iv, buf[..], i)
    requires forall k :: 0 <= k < i ==> EncryptsAt(c, iv, m, buf[..], k)
    modifies buf
    ensures forall k :: 0 <= k < i + 1 ==> EncryptsAt(c, iv, m, buf[..], k)
    ensures forall k :: 16 * i + 16 <= k < buf.Length ==> buf[k] == old(buf[k])
  {
    ghost var was := buf[..];
    CopyInto(buf, 16 * i, c.enc(Xor(c, block, prev)));
    assert buf[..][16 * i..16 * i + 16] == buf[16 * i..16 * i + 16];
    NewBlock(c, iv, m, was, buf[..], i);
  }

  lemma NewBlock(c: Cipher, iv: Bytes, m: Bytes, was: Bytes, now: Bytes, i: nat)
    requires |iv| == 16 && 16 * i + 16 <= |m| && 16 * i + 16 <= |now| && |was| == |now|
    requires forall k :: 0 <= k < 16 * i ==> now[k] == was[k]
    requires now[16 * i..16 * i + 16] == c.enc(Xor(c, Blk(m, i), Prev(iv, was, i)))
    requires forall k :: 0 <= k < i ==> EncryptsAt(c, iv, m, was, k)
    ensures forall k :: 0 <= k < i + 1 ==> EncryptsAt(c, iv, m, now, k)
  {
    forall k | 0 <= k < i ensures EncryptsAt(c, iv, m, now, k) {
      assert EncryptsAt(c, iv, m, was, k);
      SamePrefix(c, iv, m, was, now, k);
    }
    assert Prev(iv, now, i) == Prev(iv, was, i);
  }

  lemma SamePrefix(c: Cipher, iv: Bytes, m: Bytes, was: Bytes, now: Bytes, k: nat)
    requires EncryptsAt(c, iv, m, was, k) && |was| == |now|
    requires forall j :: 0 <= j < 16 * k + 16 ==> now[j] == was[j]
    ensures EncryptsAt(c, iv, m, now, k)
  {
    assert Blk(now, k) == Blk(was, k);
    assert Prev(iv, now, k) == Prev(iv, was, k);
  }

  /** encrypt_cbc.  With padding any message is accepted; without, one of a positive multiple of 16 bytes. */
  method EncryptCbc(c: Cipher, keySize: nat, data: Bytes, iv: Option<Bytes>, encrypted: array<Byte>, pads: bool)
    returns (e: Error)
    requires Sound(c) && ValidVector(iv) && (pads || |data| > 0)
    modifies encrypted
    ensures e == CheckEncrypt(|data|, keySize, encrypted.Length, pads)
    ensures e == Ok ==> var m := Message(data, pads);
      |m| <= encrypted.Length && Encrypts(c, Vector(iv), m, encrypted[..|m|])
    ensures e != Ok ==> encrypted[..] == old(encrypted[..])
  {
    e := CheckEncrypt(|data|, keySize, encrypted.Length, pads);
    if e == Ok {
      MessageFits(data, keySize, encrypted.Length, pads);
      EncryptBlocks(c, data, iv, encrypted, pads);
    }
  }

  lemma MessageFits(data: Bytes, keySize: nat, bufferSize: nat, pads: bool)
    requires CheckEncrypt(|data|, keySize, bufferSize, pads) == Ok
    ensures |Message(data, pads)| <= bufferSize && (!pads ==> |data| % 16 == 0)
  {
  }

  /** The blocks of the message, the last one padded. */
  method EncryptBlocks(c: Cipher, data: Bytes, iv: Option<Bytes>, encrypted: array<Byte>, pads: bool)
    requires Sound(c) && ValidVector(iv) && (pads || (|data| % 16 == 0 && |data| > 0))
    requires |Message(data, pads)| <= encrypted.Length
    modifies encrypted
    ensures Encrypts(c, Vector(iv), Message(data, pads), encrypted[..|Message(data, pads)|])
  {
    FirstBlock(data, pads);
    FirstPut(c, data, iv, pads, encrypted, if |data| >= 16 then data[..16] else data + Padding(|data|));
    MiddlePuts(c, Vector(iv), data, pads, encrypted);
    LastPut(c, Vector(iv), data, pads, encrypted);
    BlockCount(data, pads);
    BlocksOfPrefix(c, Vector(iv), Message(data, pads), encrypted[..]);
  }

  /** Encrypts the padded rest of the data, unless it went into the first block. */
  method LastPut(c: Cipher, ghost v: Bytes, data: Bytes, pads: bool, encrypted: array<Byte>)
    requires Sound(c) && |v| == 16 && |Message(data, pads)| <= encrypted.Length
    requires EncryptsAt(c, v, Message(data, pads), encrypted[..], 0)
    requires forall k :: 0 <= k < |data| / 16 ==> EncryptsAt(c, v, Message(data, pads), encrypted[..], k)
    modifies encrypted
    ensures forall k :: 0 <= k < |data| / 16 + (if pads then 1 else 0) ==>
      EncryptsAt(c, v, Message(data, pads), encrypted[..], k)
  {
    if pads && |data| >= 16 {
      var rem, bc := |data| % 16, |data| / 16;
      LastBlock(data);
      var block, prev := data[|data| - rem..] + Padding(|data|), encrypted[16 * bc - 16..16 * bc];
      PutBlock(c, v, Pad(data), bc, block, prev, encrypted);
    }
  }

  /** Encrypts the other full blocks of the data, each chained to the one before. */
  method MiddlePuts(c: Cipher, ghost v: Bytes, data: Bytes, ghost pads: bool, encrypted: array<Byte>)
    requires Sound(c) && |v| == 16 && |Message(data, pads)| <= encrypted.Length
    requires EncryptsAt(c, v, Message(data, pads), encrypted[..], 0)
    modifies encrypted
    ensures EncryptsAt(c, v, Message(data, pads), encrypted[..], 0)
    ensures forall k :: 0 <= k < |data| / 16 ==> EncryptsAt(c, v, Message(data, pads), encrypted[..], k)
  {
    var i := 1;
    while i < |data| / 16
      invariant 1 <= i && (|data| / 16 >= 1 ==> i <= |data| / 16)
      invariant forall k :: 0 <= k < i ==> EncryptsAt(c, v, Message(data, pads), encrypted[..], k)
    {
      MiddleBlock(data, pads, i);
      PutBlock(c, v, Message(data, pads), i, data[16 * i..16 * i + 16], encrypted[16 * i - 16..16 * i], encrypted);
      i := i + 1;
    }
  }

  /** Encrypts the first block, chained to the vector if there is one. */
  method FirstPut(c: Cipher, ghost data: Bytes, iv: Option<Bytes>, ghost pads: bool, encrypted: array<Byte>,
                  block: Bytes)
    requires Sound(c) && ValidVector(iv) && 16 <= |Message(data, pads)| <= encrypted.Length
    requires block == Blk(Message(data, pads), 0)
    modifies encrypted
    ensures EncryptsAt(c, Vector(iv), Message(data, pads), encrypted[..], 0)
  {
    var s := block;
    if iv.Some? {
      s := Xor(c, s, iv.value);
    } else {
      XorZeros(c, s);
    }
    CopyInto(encrypted, 0, c.enc(s));
  }

  lemma BlockCount(data: Bytes, pads: bool)
    requires pads || (|data| % 16 == 0 && |data| > 0)
    ensures var m := Message(data, pads);
      |m| % 16 == 0 && |m| / 16 == |data| / 16 + (if pads then 1 else 0) && |m| >= 16
  {
  }

  lemma FirstBlock(data: Bytes, pads: bool)
    requires pads || (|data| % 16 == 0 && |data| > 0)
    ensures 16 <= |Message(data, pads)|
    ensures Blk(Message(data, pads), 0)
         == if |data| >= 16 then data[..16] else data + Padding(|data|)
  {
    BlockCount(data, pads);
    if |data| < 16 {
      assert |data| % 16 == |data|;
    }
  }

  lemma MiddleBlock(data: Bytes, pads: bool, i: nat)
    requires 16 * i + 16 <= |data|
    ensures 16 * i + 16 <= |Message(data, pads)| && Blk(Message(data, pads), i) == data[16 * i..16 * i + 16]
  {
  }

  lemma LastBlock(data: Bytes)
    ensures var n, rem := |data| / 16, |data| % 16;
      && 16 * n + 16 == |Pad(data)|
      && Blk(Pad(data), n) == data[|data| - rem..] + Padding(|data|)
  {
    var n, rem := |data| / 16, |data| % 16;
    assert |data| == 16 * n + rem;
  }

  /** What holds of the blocks of a buffer holds of its used part. */
  lemma BlocksOfPrefix(c: Cipher, iv: Bytes, m: Bytes, buf: Bytes)
    requires |iv| == 16 && |m| % 16 == 0 && |m| <= |buf|
    requires forall i :: 0 <= i < |m| / 16 ==> EncryptsAt(c, iv, m, buf, i)
    ensures Encrypts(c, iv, m, buf[..|m|])
  {
    forall i | 0 <= i < |m| / 16 ensures EncryptsAt(c, iv, m, buf[..|m|], i) {
      assert EncryptsAt(c, iv, m, buf, i);
      assert Blk(buf[..|m|], i) == Blk(buf, i);
      assert Prev(iv, buf[..|m|], i) == Prev(iv, buf, i);
    }
  }

  /** The first `n` of a row of blocks, one after another. */
  function Concat(blocks: nat -> Bytes, n: nat): (m: Bytes)
    requires forall i :: |blocks(i)| == 16
    ensures |m| == 16 * n
  {
    if n == 0 then [] else Concat(blocks, n - 1) + blocks(n - 1)
  }

  lemma {:induction false} ConcatBlk(blocks: nat -> Bytes, n: nat, i: nat)
    requires (forall i :: |blocks(i)| == 16) && i < n
    ensures Blk(Concat(blocks, n), i) == blocks(i)
  {
    BlkAppended(Concat(blocks, n - 1), blocks(n - 1), n - 1, i);
    if i < n - 1 {
      ConcatBlk(blocks, n - 1, i);
    }
  }

  lemma BlkAppended(a: Bytes, b: Bytes, n: nat, i: nat)
    requires |a| == 16 * n && |b| == 16 && i <= n
    ensures Blk(a + b, i) == if i < n then Blk(a, i) else b
  {
  }

  function PlainBlockOrZeros(c: Cipher, iv: Bytes, ct: Bytes, i: nat): (b: Bytes)
    requires Sound(c) && |iv| == 16
    ensures |b| == 16
  {
    if 16 * i + 16 <= |ct| then PlainBlock(c, iv, ct, i) else Zeros(16)
  }

  /** The decryption of a ciphertext of `n` blocks, padding included. */
  function Plain(c: Cipher, iv: Bytes, ct: Bytes, n: nat): (m: Bytes)
    requires Sound(c) && |iv| == 16
    ensures |m| == 16 * n
  {
    Concat(i => PlainBlockOrZeros(c, iv, ct, i), n)
  }

  /** Every ciphertext has a decryption. */
  lemma PlainBlocks(c: Cipher, iv: Bytes, ct: Bytes, n: nat)
    requires Sound(c) && |iv| == 16 && |ct| == 16 * n
    ensures Decrypts(c, iv, ct, Plain(c, iv, ct, n))
  {
    var m := Plain(c, iv, ct, n);
    forall i | 0 <= i < |ct| / 16 ensures Blk(m, i) == PlainBlock(c, iv, ct, i) {
      PlainBlockAt(c, iv, ct, n, i);
    }
  }

  lemma PlainBlockAt(c: Cipher, iv: Bytes, ct: Bytes, n: nat, i: nat)
    requires Sound(c) && |iv| == 16 && |ct| == 16 * n && i < n
    ensures Blk(Plain(c, iv, ct, n), i) == PlainBlock(c, iv, ct, i)
  {
    ConcatBlk(i => PlainBlockOrZeros(c, iv, ct, i), n, i);
  }

  /** check_padding: the last `padding` bytes of the block all hold that number. */
  predicate PaddingOk(padding: nat, last: Bytes)
    requires |last| == 16
  {
    padding <= 16 && forall j :: 16 - padding <= j < 16 ==> last[j] == padding
  }

  method CheckPadding(padding: nat, last: Bytes) returns (ok: bool)
    requires |last| == 16
    ensures ok == PaddingOk(padding, last)
  {
    if padding > 16 {
      return false;
    }
    for i := 0 to padding
      invariant forall j :: 16 - i <= j < 16 ==> last[j] == padding
    {
      if last[15 - i] != padding {
        return false;
      }
    }
    ok := true;
  }

  function CheckDecrypt(dataSize: nat, keySize: nat, bufferSize: nat, unpads: bool): Error {
    if dataSize % 16 != 0 then InvalidDataSize
    else if !ValidKeySize(keySize) then InvalidKeySize
    else if bufferSize < (if unpads then dataSize - 16 else dataSize) then InvalidBufferSize
    else Ok
  }

  /** What decryption reports: the sizes are checked first, then the padding, then the room for the text. */
  ghost function Outcome(keySize: nat, dataSize: nat, p: Bytes, bufferSize: nat, unpads: bool): Error
    requires dataSize > 0 && (dataSize % 16 == 0 ==> |p| == dataSize)
  {
    var e := CheckDecrypt(dataSize, keySize, bufferSize, unpads);
    if e != Ok || !unpads then e else Delivery(p, bufferSize)
  }

  /** What is reported for the text `p` once its padding is to be taken off. */
  ghost function Delivery(p: Bytes, bufferSize: nat): Error
    requires |p| >= 16
  {
    if !PaddingOk(p[|p| - 1], p[|p| - 16..]) then InvalidKey
    else if bufferSize < |p| - p[|p| - 1] then InvalidBufferSize
    else Ok
  }

  /** Adds the last block of the text to the buffer, without its padding if that is to be taken off. */
  method Deliver(ghost p: Bytes, n: nat, last: Bytes, decrypted: array<Byte>, unpads: bool)
    returns (e: Error, padding: nat)
    requires |p| == n + 16 && |last| == 16 && last == p[n..]
    requires n <= decrypted.Length && decrypted[..n] == p[..n] && (!unpads ==> n + 16 <= decrypted.Length)
    modifies decrypted
    ensures e == if unpads then Delivery(p, decrypted.Length) else Ok
    ensures padding == if unpads then p[|p| - 1] else 0
    ensures e == Ok ==> |p| - padding <= decrypted.Length && decrypted[..|p| - padding] == p[..|p| - padding]
  {
    if !unpads {
      var _ := PutText(p, n, last, decrypted);
      return Ok, 0;
    }
    padding := last[15];
    var ok := CheckPadding(padding, last);
    if !ok {
      return InvalidKey, padding;
    }
    var cs := 16 - padding;
    if decrypted.Length < n + cs {
      return InvalidBufferSize, padding;
    }
    var _ := PutText(p, n, last[..cs], decrypted);
    e := Ok;
  }

  /** One block of the text `p`. */
  method DecryptBlock(c: Cipher, data: Bytes, ghost iv: Bytes, i: nat, prev: Bytes, ghost p: Bytes)
    returns (block: Bytes)
    requires Sound(c) && Decrypts(c, iv, data, p) && 16 * i + 16 <= |data| && prev == Prev(iv, data, i)
    ensures |block| == 16 && block == p[16 * i..16 * i + 16]
  {
    block := Xor(c, c.dec(data[16 * i..16 * i + 16]), prev);
    assert Blk(p, i) == PlainBlock(c, iv, data, i);
  }

  method DecryptFirst(c: Cipher, data: Bytes, iv: Option<Bytes>, ghost p: Bytes) returns (block: Bytes)
    requires Sound(c) && ValidVector(iv) && |data| > 0 && Decrypts(c, Vector(iv), data, p)
    ensures |block| == 16 && block == p[..16]
  {
    assert Blk(p, 0) == PlainBlock(c, Vector(iv), data, 0);
    block := c.dec(data[..16]);
    if iv.Some? {
      block := Xor(c, block, iv.value);
    } else {
      XorZeros(c, block);
    }
  }

  /** Decrypts the blocks after the first and before the last, block `bc`, into the buffer. */
  method DecryptMiddle(c: Cipher, data: Bytes, bc: nat, ghost iv: Bytes, decrypted: array<Byte>, ghost p: Bytes)
    requires Sound(c) && bc >= 1 && |data| == 16 * bc + 16 && Decrypts(c, iv, data, p)
    requires decrypted.Length >= 16 * bc && decrypted[..16] == p[..16]
    modifies decrypted
    ensures decrypted[..16 * bc] == p[..16 * bc]
  {
    var i := 1;
    while i < bc
      invariant 1 <= i <= bc
      invariant decrypted[..16 * i] == p[..16 * i]
    {
      DecryptNext(c, data, i, iv, decrypted, p);
      i := i + 1;
    }
  }

  /** Block `i`, put behind the blocks before it. */
  method DecryptNext(c: Cipher, data: Bytes, i: nat, ghost iv: Bytes, decrypted: array<Byte>, ghost p: Bytes)
    requires Sound(c) && i >= 1 && 16 * i + 16 <= |data| && Decrypts(c, iv, data, p)
    requires 16 * i + 16 <= decrypted.Length && decrypted[..16 * i] == p[..16 * i]
    modifies decrypted
    ensures decrypted[..16 * (i + 1)] == p[..16 * (i + 1)]
  {
    var block := DecryptBlock(c, data, iv, i, data[16 * i - 16..16 * i], p);
    var next := PutText(p, 16 * i, block, decrypted);
    assert next == 16 * (i + 1);
  }

  /** Decrypts all blocks but the last into the buffer, and returns the last. */
  method DecryptBlocks(c: Cipher, data: Bytes, bc: nat, iv: Option<Bytes>, decrypted: array<Byte>, ghost p: Bytes)
    returns (last: Bytes)
    requires Sound(c) && ValidVector(iv) && |data| == 16 * bc + 16 && Decrypts(c, Vector(iv), data, p)
    requires decrypted.Length >= 16 && decrypted.Length >= 16 * bc
    modifies decrypted
    ensures |last| == 16 && last == p[16 * bc..16 * bc + 16]
    ensures decrypted[..16 * bc] == p[..16 * bc]
  {
    var first := DecryptFirst(c, data, iv, p);
    var _ := PutText(p, 0, first, decrypted);
    if bc > 0 {
      last := DecryptRest(c, data, bc, Vector(iv), decrypted, p);
    } else {
      last := decrypted[..16];
      CopyInto(decrypted, 0, Zeros(decrypted.Length));
    }
  }

  /** The blocks behind the first, the last of which is not put into the buffer. */
  method DecryptRest(c: Cipher, data: Bytes, bc: nat, ghost iv: Bytes, decrypted: array<Byte>, ghost p: Bytes)
    returns (last: Bytes)
    requires Sound(c) && bc > 0 && |data| == 16 * bc + 16 && |iv| == 16 && Decrypts(c, iv, data, p)
    requires decrypted.Length >= 16 * bc && decrypted[..16] == p[..16]
    modifies decrypted
    ensures |last| == 16 && last == p[16 * bc..16 * bc + 16]
    ensures decrypted[..16 * bc] == p[..16 * bc]
  {
    DecryptMiddle(c, data, bc, iv, decrypted, p);
    last := DecryptBlock(c, data, iv, bc, data[16 * bc - 16..16 * bc], p);
  }

  /** decrypt_cbc, where `p` is the decryption of the data.  The buffer must hold a block, since the first
      one is decrypted in place. */
  method DecryptCbc(c: Cipher, keySize: nat, data: Bytes, iv: Option<Bytes>, decrypted: array<Byte>, unpads: bool,
                    ghost p: Bytes)
    returns (e: Error, padding: nat)
    requires Sound(c) && ValidVector(iv) && |data| > 0 && decrypted.Length >= 16
    requires |data| % 16 == 0 ==> Decrypts(c, Vector(iv), data, p)
    modifies decrypted
    ensures e == Outcome(keySize, |data|, p, decrypted.Length, unpads)
    ensures CheckDecrypt(|data|, keySize, decrypted.Length, unpads) == Ok ==>
      |p| == |data| && padding == if unpads then p[|p| - 1] else 0
    ensures e == Ok ==> |p| - padding <= decrypted.Length && decrypted[..|p| - padding] == p[..|p| - padding]
  {
    padding := 0;
    e := CheckDecrypt(|data|, keySize, decrypted.Length, unpads);
    if e == Ok {
      e, padding := DecryptText(c, data, |data| / 16 - 1, iv, decrypted, unpads, p);
    }
  }

  /** Decrypts all blocks and delivers the text. */
  method DecryptText(c: Cipher, data: Bytes, bc: nat, iv: Option<Bytes>, decrypted: array<Byte>, unpads: bool,
                     ghost p: Bytes)
    returns (e: Error, padding: nat)
    requires Sound(c) && ValidVector(iv) && |data| == 16 * bc + 16 && Decrypts(c, Vector(iv), data, p)
    requires decrypted.Length >= 16 && decrypted.Length >= (if unpads then 16 * bc else 16 * bc + 16)
    modifies decrypted
    ensures e == if unpads then Delivery(p, decrypted.Length) else Ok
    ensures padding == if unpads then p[|p| - 1] else 0
    ensures e == Ok ==> |p| - padding <= decrypted.Length && decrypted[..|p| - padding] == p[..|p| - padding]
  {
    var last := DecryptBlocks(c, data, bc, iv, decrypted, p);
    e, padding := Deliver(p, 16 * bc, last, decrypted, unpads);
  }

  /** check_padding lets through PKCS padding and, since it then has nothing to compare, a last byte of 0. */
  lemma AcceptedPadding(p: Bytes, bufferSize: nat)
    requires |p| >= 16 && |p| % 16 == 0
    ensures Delivery(p, bufferSize) != InvalidKey <==> (exists m :: p == Pad(m)) || p[|p| - 1] == 0
  {
    var k := p[|p| - 1];
    if PaddingOk(k, p[|p| - 16..]) && k != 0 {
      StripPadding(p, k);
      assert p == Pad(p[..|p| - k]);
    } else if exists m :: p == Pad(m) {
      var m :| p == Pad(m);
      PadIsOk(m);
    }
  }

  lemma StripPadding(p: Bytes, k: nat)
    requires |p| >= 16 && |p| % 16 == 0 && k > 0 && PaddingOk(k, p[|p| - 16..])
    ensures p == Pad(p[..|p| - k])
  {
    PadCountOf(|p|, k);
    forall j | |p| - k <= j < |p| ensures p[j] == k {
      assert p[j] == p[|p| - 16..][j - (|p| - 16)];
    }
  }

  lemma PadCountOf(n: nat, k: nat)
    requires n % 16 == 0 && 0 < k <= 16 <= n
    ensures PadCount(n - k) == k
  {
  }

  /** A text of zeros is let through as it is, although no message has it as its padded form. */
  lemma ZeroPaddingAccepted()
    ensures Delivery(Zeros(16), 16) == Ok && forall m :: Zeros(16) != Pad(m)
  {
    forall m ensures Zeros(16) != Pad(m) {
      PadIsOk(m);
    }
  }

  /** A message of any length, padded, encrypted and decrypted again, comes back whole, with the number of
      padding bytes it was given, into a buffer exactly if that holds the message. */
  lemma CbcRestores(c: Cipher, keySize: nat, m: Bytes, iv: Bytes, ct: Bytes, p: Bytes, bufferSize: nat)
    requires Sound(c) && ValidKeySize(keySize)
    requires Encrypts(c, iv, Pad(m), ct) && Decrypts(c, iv, ct, p)
    ensures Outcome(keySize, |ct|, p, bufferSize, true) == if bufferSize < |m| then InvalidBufferSize else Ok
    ensures p[|p| - 1] == PadCount(|m|) && p[..|p| - PadCount(|m|)] == m
  {
    DecryptsEncrypted(c, iv, Pad(m), ct);
    DecryptsUnique(c, iv, ct, p, Pad(m));
    PadIsOk(m);
  }

  lemma PadIsOk(m: Bytes)
    ensures var p := Pad(m);
      && p[|p| - 1] == PadCount(|m|) && PaddingOk(PadCount(|m|), p[|p| - 16..])
      && p[..|p| - PadCount(|m|)] == m
  {
  }

  /** Without padding, data of a multiple of 16 bytes comes back as it was. */
  lemma CbcRestoresUnpadded(c: Cipher, keySize: nat, m: Bytes, iv: Bytes, ct: Bytes, p: Bytes, bufferSize: nat)
    requires Sound(c) && ValidKeySize(keySize) && |m| > 0 && bufferSize >= |m|
    requires Encrypts(c, iv, m, ct) && Decrypts(c, iv, ct, p)
    ensures Outcome(keySize, |ct|, p, bufferSize, false) == Ok && p == m
  {
    DecryptsEncrypted(c, iv, m, ct);
    DecryptsUnique(c, iv, ct, p, m);
  }

  /** A message encrypted with padding and decrypted again, through the buffers of encrypt_cbc and decrypt_cbc: it
      comes back exactly when the first holds the padded message and the second the message. */
  method PadEncryptDecrypt(c: Cipher, keySize: nat, m: Bytes, iv: Option<Bytes>, encrypted: array<Byte>,
                           decrypted: array<Byte>)
    returns (e: Error, padding: nat)
    requires Sound(c) && ValidVector(iv) && encrypted != decrypted && decrypted.Length >= 16
    modifies encrypted, decrypted
    ensures e == RoundTripOutcome(|m|, keySize, encrypted.Length, decrypted.Length)
    ensures e == Ok ==> padding == PadCount(|m|) && decrypted[..|m|] == m
  {
    padding := 0;
    e := EncryptCbc(c, keySize, m, iv, encrypted, true);
    if e == Ok {
      LastBlock(m);
      var n := |m| / 16 + 1;
      e, padding := PadDecrypt(c, keySize, m, iv, n, encrypted[..16 * n], decrypted);
    }
  }

  /** What encryption with padding and decryption together report. */
  function RoundTripOutcome(dataSize: nat, keySize: nat, encryptedSize: nat, decryptedSize: nat): Error {
    var e := CheckEncrypt(dataSize, keySize, encryptedSize, true);
    if e == Ok && decryptedSize < dataSize then InvalidBufferSize else e
  }

  method PadDecrypt(c: Cipher, keySize: nat, ghost m: Bytes, iv: Option<Bytes>, n: nat, ct: Bytes,
                    decrypted: array<Byte>)
    returns (e: Error, padding: nat)
    requires Sound(c) && ValidKeySize(keySize) && ValidVector(iv) && decrypted.Length >= 16
    requires n > 0 && |ct| == 16 * n && Encrypts(c, Vector(iv), Pad(m), ct)
    modifies decrypted
    ensures e == if decrypted.Length < |m| then InvalidBufferSize else Ok
    ensures e == Ok ==> padding == PadCount(|m|) && decrypted[..|m|] == m
  {
    ghost var p := PaddedPlain(c, keySize, m, Vector(iv), n, ct, decrypted.Length);
    e, padding := DecryptCbc(c, keySize, ct, iv, decrypted, true, p);
  }

  lemma PaddedPlain(c: Cipher, keySize: nat, m: Bytes, iv: Bytes, n: nat, ct: Bytes, bufferSize: nat) returns (p: Bytes)
    requires Sound(c) && ValidKeySize(keySize) && |iv| == 16
    requires n > 0 && |ct| == 16 * n && Encrypts(c, iv, Pad(m), ct)
    ensures |p| == |ct| && Decrypts(c, iv, ct, p)
    ensures Outcome(keySize, |ct|, p, bufferSize, true) == if bufferSize < |m| then InvalidBufferSize else Ok
    ensures p[|p| - 1] == PadCount(|m|) && p[..|p| - PadCount(|m|)] == m
  {
    PlainBlocks(c, iv, ct, n);
    p := Plain(c, iv, ct, n);
    CbcRestores(c, keySize, m, iv, ct, p, bufferSize);
  }
}
