/** Bytes, blocks and block ciphers, as the modes of operation see them. */
module CipherModes {

  type Byte = n: nat | n < 256

  type Bytes = seq<Byte>

  datatype Error =
    | Ok
    | InvalidDataSize | InvalidKeySize | InvalidBufferSize | InvalidKey
    | InvalidIvSize | InvalidTagSize | InvalidTag

  /** A block cipher under a fixed key, and exclusive or on bytes. */
  datatype Cipher = Cipher(enc: Bytes -> Bytes, dec: Bytes -> Bytes, xor: (Byte, Byte) -> Byte)

  ghost predicate Sound(c: Cipher) {
    && (forall b: Bytes :: |b| == 16 ==> |c.enc(b)| == 16)
    && (forall b: Bytes :: |b| == 16 ==> |c.dec(b)| == 16)
    && (forall b: Bytes :: |b| == 16 ==> c.dec(c.enc(b)) == b)
    && (forall x: Byte, y: Byte :: c.xor(c.xor(x, y), y) == x)
    && (forall x: Byte :: c.xor(x, 0) == x)
  }

  predicate ValidKeySize(n: nat) { n == 16 || n == 24 || n == 32 }

  /** xor_data. */
  function Xor(c: Cipher, a: Bytes, b: Bytes): (r: Bytes)
    requires |a| == |b|
    ensures |r| == |a|
  {
    seq<Byte>(|a|, i requires 0 <= i < |a| => c.xor(a[i], b[i]))
  }

  lemma XorTwice(c: Cipher, a: Bytes, b: Bytes)
    requires Sound(c) && |a| == |b|
    ensures Xor(c, Xor(c, a, b), b) == a
  {
  }

  function Zeros(n: nat): (r: Bytes)
    ensures |r| == n
  {
    seq(n, _ => 0)
  }

  lemma XorZeros(c: Cipher, a: Bytes)
    requires Sound(c)
    ensures Xor(c, a, Zeros(|a|)) == a
  {
  }

  /** Block `i` of a byte string. */
  function Blk(s: Bytes, i: nat): (b: Bytes)
    requires 16 * i + 16 <= |s|
    ensures |b| == 16
  {
    s[16 * i..16 * i + 16]
  }

  /** memcpy into a buffer. */
  method CopyInto(buf: array<Byte>, off: nat, bytes: Bytes)
    requires off + |bytes| <= buf.Length
    modifies buf
    ensures buf[off..off + |bytes|] == bytes
    ensures forall i :: 0 <= i < buf.Length && !(off <= i < off + |bytes|) ==> buf[i] == old(buf[i])
  {
    for k := 0 to |bytes|
      invariant forall i :: 0 <= i < k ==> buf[off + i] == bytes[i]
      invariant forall i :: 0 <= i < buf.Length && !(off <= i < off + k) ==> buf[i] == old(buf[i])
    {
      buf[off + k] := bytes[k];
    }
  }

  /** Extends the text at the front of the buffer, `p[..n]`, by the bytes that come next. */
  method PutText(ghost p: Bytes, n: nat, bytes: Bytes, buf: array<Byte>) returns (next: nat)
    requires n + |bytes| <= |p| && n + |bytes| <= buf.Length
    requires buf[..n] == p[..n] && bytes == p[n..n + |bytes|]
    modifies buf
    ensures next == n + |bytes| && buf[..next] == p[..next]
  {
    ghost var front := buf[..n];
    CopyInto(buf, n, bytes);
    assert buf[..n] == front;
    next := n + |bytes|;
    assert buf[..next] == buf[..n] + buf[n..next];
  }
}
