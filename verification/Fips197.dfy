/** AES as FIPS 197 defines it, on the bytes of a block: byte r + 4c is row r of column c. */
module Fips197 {
  import opened AesTables
  import AesSbox

  type Bytes = seq<bv8>

  function ZeroBytes(n: nat): (b: Bytes)
    ensures |b| == n
  {
    seq(n, _ => 0)
  }

  type Block = b: Bytes | |b| == 16 witness ZeroBytes(16)

  function Xor(a: bv8, b: bv8): bv8 { a ^ b }

  function XorAll(a: Bytes, b: Bytes): (r: Bytes)
    requires |a| == |b|
    ensures |r| == |a|
  {
    seq(|a|, i requires 0 <= i < |a| => Xor(a[i], b[i]))
  }

  function Each(f: bv8 -> bv8, b: Bytes): (r: Bytes)
    ensures |r| == |b|
  {
    seq(|b|, i requires 0 <= i < |b| => f(b[i]))
  }

  /** Section 5.1.1. */
  function SubBytes(b: Block): Block { Each(Sbox, b) }

  /** Section 5.1.2: row r is shifted by r places. */
  function ShiftRows(b: Block): Block {
    seq(16, i requires 0 <= i < 16 => b[4 * ((i / 4 + i % 4) % 4) + i % 4])
  }

  /** 2a + 3b + c + d, in GF(2^8). */
  function MixByte(a: bv8, b: bv8, c: bv8, d: bv8): bv8 {
    Xor(Xor(Xor(AesSbox.Product(2, a), AesSbox.Product(3, b)), c), d)
  }

  /** A column with each byte made from all four, beginning with itself. */
  function Turned(f: (bv8, bv8, bv8, bv8) -> bv8, c: Bytes): (r: Bytes)
    requires |c| == 4
    ensures |r| == 4
  {
    [f(c[0], c[1], c[2], c[3]), f(c[1], c[2], c[3], c[0]), f(c[2], c[3], c[0], c[1]), f(c[3], c[0], c[1], c[2])]
  }

  /** Section 5.1.3, column by column. */
  function MixColumns(b: Block): Block {
    Turned(MixByte, b[..4]) + Turned(MixByte, b[4..8]) + Turned(MixByte, b[8..12]) + Turned(MixByte, b[12..])
  }

  /** Section 5.1.4. */
  function AddRoundKey(k: Block, b: Block): Block { XorAll(b, k) }

  function Round(k: Block, b: Block): Block { AddRoundKey(k, MixColumns(ShiftRows(SubBytes(b)))) }

  /** The last round does not mix. */
  function LastRound(k: Block, b: Block): Block { AddRoundKey(k, ShiftRows(SubBytes(b))) }

  /** What a key does to a block. */
  type Step = (Block, Block) -> Block

  /** Rounds 1 to `n`. */
  function Rounds(round: Step, keys: seq<Block>, b: Block, n: nat): Block
    requires n < |keys|
  {
    if n == 0 then b else round(keys[n], Rounds(round, keys, b, n - 1))
  }

  /** Key addition, rounds, and a last round. */
  function CipherBy(add: Step, round: Step, last: Step, keys: seq<Block>, b: Block): Block
    requires |keys| >= 2
  {
    last(keys[|keys| - 1], Rounds(round, keys, add(keys[0], b), |keys| - 2))
  }

  /** Section 5.1: the cipher. */
  function Cipher(keys: seq<Block>, b: Block): Block
    requires |keys| >= 2
  {
    CipherBy(AddRoundKey, Round, LastRound, keys, b)
  }

  /** Rounds look at their own keys only. */
  lemma {:induction false} RoundsPrefix(round: Step, keys: seq<Block>, others: seq<Block>, b: Block, n: nat)
    requires n < |keys| && n < |others| && forall i :: 0 <= i <= n ==> keys[i] == others[i]
    ensures Rounds(round, keys, b, n) == Rounds(round, others, b, n)
  {
    if n > 0 { RoundsPrefix(round, keys, others, b, n - 1); }
  }

  lemma XorInjective(x: bv8, a: bv8, b: bv8)
    requires Xor(x, a) == Xor(x, b)
    ensures a == b
  {
  }

  lemma KeysShow(b: Block, k: Block, l: Block)
    requires AddRoundKey(k, b) == AddRoundKey(l, b)
    ensures k == l
  {
    forall i | 0 <= i < 16 ensures k[i] == l[i] {
      assert XorAll(b, k)[i] == XorAll(b, l)[i];
      XorInjective(b[i], k[i], l[i]);
    }
  }

  /** Different keys do different things to every block. */
  ghost predicate Telling(last: Step) {
    forall k: Block, l: Block, b: Block :: last(k, b) == last(l, b) ==> k == l
  }

  lemma LastRoundTells()
    ensures Telling(LastRound)
  {
    forall k: Block, l: Block, b: Block | LastRound(k, b) == LastRound(l, b) ensures k == l {
      KeysShow(ShiftRows(SubBytes(b)), k, l);
    }
  }

  lemma LastStepShows(add: Step, round: Step, last: Step, keys: seq<Block>, k: Block, b: Block)
    requires Telling(last) && |keys| >= 2 && k != keys[|keys| - 1]
    ensures CipherBy(add, round, last, keys[|keys| - 1 := k], b) != CipherBy(add, round, last, keys, b)
  {
    var n := |keys| - 1;
    RoundsPrefix(round, keys, keys[n := k], add(keys[0], b), n - 1);
  }

  /** Two lists of round keys that differ in the last key only encrypt every block differently. */
  lemma LastKeyShows(keys: seq<Block>, k: Block, b: Block)
    requires |keys| >= 2 && k != keys[|keys| - 1]
    ensures Cipher(keys[|keys| - 1 := k], b) != Cipher(keys, b)
  {
    LastRoundTells();
    LastStepShows(AddRoundKey, Round, LastRound, keys, k, b);
  }

  // Section 5.2: the key schedule, on words of four bytes.

  function RotWord(w: Bytes): (r: Bytes)
    requires |w| == 4
    ensures |r| == 4
  {
    [w[1], w[2], w[3], w[0]]
  }

  /** The first byte of round constant `i`: 2 to the power i - 1 in GF(2^8). */
  function Power(i: nat): bv8 {
    if i <= 1 then 1 else AesSbox.Product(2, Power(i - 1))
  }

  function Rcon(i: nat): Bytes { [Power(i), 0, 0, 0] }

  function Temp(nk: nat, i: nat, w: Bytes): (r: Bytes)
    requires nk > 0 && |w| == 4
    ensures |r| == 4
  {
    if i % nk == 0 then XorAll(Each(Sbox, RotWord(w)), Rcon(i / nk))
    else if nk > 6 && i % nk == 4 then Each(Sbox, w)
    else w
  }

  ghost predicate IsKeyExpansion(key: Bytes, w: seq<Bytes>) {
    var nk := |key| / 4;
    && |key| == 4 * nk > 0 && |w| == 4 * (nk + 7)
    && (forall i :: 0 <= i < |w| ==> |w[i]| == 4)
    && (forall i :: 0 <= i < nk ==> w[i] == key[4 * i..4 * i + 4])
    && (forall i :: nk <= i < |w| ==> w[i] == XorAll(Temp(nk, i, w[i - 1]), w[i - nk]))
  }

  /** Four words for each round. */
  function RoundKeys(w: seq<Bytes>): (r: seq<Block>)
    requires forall i :: 0 <= i < |w| ==> |w[i]| == 4
    ensures |r| == |w| / 4
  {
    seq<Block>(|w| / 4, i requires 0 <= i < |w| / 4 => w[4 * i] + w[4 * i + 1] + w[4 * i + 2] + w[4 * i + 3])
  }
}
