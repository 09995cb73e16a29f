/** encrypt_state and decrypt_state of aes.h, for any list of at least two round keys. */
module AesCipher {
  import opened AesBlock
  import opened RoundCipher

  type Bytes = seq<bv8>

  predicate IsBlock(b: Bytes) { |b| == 16 }

  predicate IsSchedule(keys: seq<State>) { |keys| >= 2 }

  function FromBytes(b: Bytes): State
    requires IsBlock(b)
  {
    State(Pack(b[0], b[1], b[2], b[3]), Pack(b[4], b[5], b[6], b[7]),
          Pack(b[8], b[9], b[10], b[11]), Pack(b[12], b[13], b[14], b[15]))
  }

  function WordBytes(w: bv32): Bytes { [B0(w), B1(w), B2(w), B3(w)] }

  function ToBytes(s: State): (b: Bytes)
    ensures IsBlock(b)
  {
    WordBytes(s.w0) + WordBytes(s.w1) + WordBytes(s.w2) + WordBytes(s.w3)
  }

  lemma StateBytes(s: State)
    ensures FromBytes(ToBytes(s)) == s
  {
    BytesPack(s.w0);
    BytesPack(s.w1);
    BytesPack(s.w2);
    BytesPack(s.w3);
  }

  lemma BytesState(b: Bytes)
    requires IsBlock(b)
    ensures ToBytes(FromBytes(b)) == b
  {
    PackBytes(b[0], b[1], b[2], b[3]);
    PackBytes(b[4], b[5], b[6], b[7]);
    PackBytes(b[8], b[9], b[10], b[11]);
    PackBytes(b[12], b[13], b[14], b[15]);
  }

  function Round(p: Primitives, k: State, s: State): State {
    AddRoundKey(p, k, MixColumns(p.gf, ShiftRows(SubBytes(p.sbox, s))))
  }

  function InvRound(p: Primitives, k: State, s: State): State {
    SubBytes(p.inv, InvShiftRows(InvMixColumns(p.gf, AddRoundKey(p, k, s))))
  }

  function LastRound(p: Primitives, k: State, s: State): State {
    AddRoundKey(p, k, ShiftRows(SubBytes(p.sbox, s)))
  }

  function InvLastRound(p: Primitives, k: State, s: State): State {
    SubBytes(p.inv, InvShiftRows(AddRoundKey(p, k, s)))
  }

  lemma RoundInverse(p: Primitives, k: State, s: State)
    requires Lawful(p)
    ensures InvRound(p, k, Round(p, k, s)) == s
  {
    var t := SubBytes(p.sbox, s);
    SubBytesInverse(p, s);
    ShiftRowsInverse(t);
    MixColumnsInverse(p.gf, ShiftRows(t));
    AddRoundKeyTwice(p, k, MixColumns(p.gf, ShiftRows(t)));
  }

  lemma LastRoundInverse(p: Primitives, k: State, s: State)
    requires Lawful(p)
    ensures InvLastRound(p, k, LastRound(p, k, s)) == s
  {
    var t := SubBytes(p.sbox, s);
    SubBytesInverse(p, s);
    ShiftRowsInverse(t);
    AddRoundKeyTwice(p, k, ShiftRows(t));
  }

  /** The steps of AES as rounds of a cipher. */
  function AesSteps(p: Primitives): Steps<State, State> {
    Steps((k, s) => AddRoundKey(p, k, s),
          (k, s) => Round(p, k, s), (k, s) => InvRound(p, k, s),
          (k, s) => LastRound(p, k, s), (k, s) => InvLastRound(p, k, s))
  }

  lemma StepsInvertible(p: Primitives)
    requires Lawful(p)
    ensures Invertible(AesSteps(p))
  {
    var c := AesSteps(p);
    forall k, s ensures c.add(k, c.add(k, s)) == s {
      AddRoundKeyTwice(p, k, s);
    }
    forall k, s ensures c.invRound(k, c.round(k, s)) == s {
      RoundInverse(p, k, s);
    }
    forall k, s ensures c.invLast(k, c.last(k, s)) == s {
      LastRoundInverse(p, k, s);
    }
  }

  function Encrypt(p: Primitives, keys: seq<State>, block: Bytes): (r: Bytes)
    requires IsSchedule(keys) && IsBlock(block)
    ensures IsBlock(r)
  {
    ToBytes(RoundCipher.Encrypt(AesSteps(p), keys, FromBytes(block)))
  }

  function Decrypt(p: Primitives, keys: seq<State>, block: Bytes): (r: Bytes)
    requires IsSchedule(keys) && IsBlock(block)
    ensures IsBlock(r)
  {
    ToBytes(RoundCipher.Decrypt(AesSteps(p), keys, FromBytes(block)))
  }

  /** Decryption undoes encryption, for every block and every list of at least two round keys. */
  lemma DecryptInvertsEncrypt(p: Primitives, keys: seq<State>, block: Bytes)
    requires Lawful(p) && IsSchedule(keys) && IsBlock(block)
    ensures Decrypt(p, keys, Encrypt(p, keys, block)) == block
  {
    var s := FromBytes(block);
    StepsInvertible(p);
    StateBytes(RoundCipher.Encrypt(AesSteps(p), keys, s));
    RoundCipher.DecryptUndoesEncrypt(AesSteps(p), keys, s);
    BytesState(block);
  }

  /** encrypt_state. */
  method EncryptState(p: Primitives, keys: seq<State>, data: Bytes) returns (encrypted: Bytes)
    requires IsSchedule(keys) && IsBlock(data)
    ensures encrypted == Encrypt(p, keys, data)
  {
    var c := AesSteps(p);
    var s := c.add(keys[0], FromBytes(data));
    s := RunRounds(c, keys, s);
    s := c.last(keys[|keys| - 1], s);
    encrypted := ToBytes(s);
  }

  /** decrypt_state. */
  method DecryptState(p: Primitives, keys: seq<State>, data: Bytes) returns (decrypted: Bytes)
    requires IsSchedule(keys) && IsBlock(data)
    ensures decrypted == Decrypt(p, keys, data)
  {
    var c := AesSteps(p);
    var s := c.invLast(keys[|keys| - 1], FromBytes(data));
    s := RunInvRounds(c, keys, s);
    s := c.add(keys[0], s);
    decrypted := ToBytes(s);
  }
}
