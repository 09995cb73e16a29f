/** The key schedule with the words of AES. */
module AesSchedule {
  import opened AesBlock
  import opened AesKeys
  import AesTables
  import Aes
  import AesCipher

  /** rot_word, on words with the lowest byte first. */
  function RotWord(v: bv32): bv32 { ((v >> 8) & 0x00FF_FFFF) | ((v & 0xFF) << 24) }

  function Rcon(i: nat): bv32 {
    match i
    case 1 => 0x01 case 2 => 0x02 case 3 => 0x04 case 4 => 0x08 case 5 => 0x10
    case 6 => 0x20 case 7 => 0x40 case 8 => 0x80 case 9 => 0x1b case 10 => 0x36
    case _ => 0
  }

  function Turn(t: bv32, i: nat): bv32 { Aes.XorWord(SubWord(AesTables.Sbox, RotWord(t)), Rcon(i)) }

  function Sub(t: bv32): bv32 { SubWord(AesTables.Sbox, t) }

  const OPS := WordOps(0 as bv32, Turn, Sub, Aes.XorWord)

  lemma XorCancels(a: bv32, b: bv32)
    ensures Aes.XorWord(a, Aes.XorWord(a, b)) == b
  {
  }

  lemma OpsCancel()
    ensures Cancels(OPS)
  {
    forall a: bv32, b: bv32 ensures OPS.xor(a, OPS.xor(a, b)) == b {
      XorCancels(a, b);
    }
  }

  /** The key's bytes as words. */
  function KeyWords(key: seq<bv8>): (w: seq<bv32>)
    requires |key| % 4 == 0
    ensures |w| == |key| / 4
  {
    seq(|key| / 4, i requires 0 <= i < |key| / 4 => Pack(key[4 * i], key[4 * i + 1], key[4 * i + 2], key[4 * i + 3]))
  }

  function StateOf(k: Four<bv32>): State { State(k.w0, k.w1, k.w2, k.w3) }

  /** expand_key on a key of 16, 24 or 32 bytes: the round keys are the key's schedule, and enough for the cipher. */
  method RoundKeys(key: seq<bv8>) returns (keys: seq<State>, w: seq<bv32>)
    requires |key| == 16 || |key| == 24 || |key| == 32
    ensures AesCipher.IsSchedule(keys) && |keys| == RoundCount(|key|) + 1
    ensures IsExpansion(OPS, KeyWords(key), w) && |w| == 4 * |keys|
    ensures forall i :: 0 <= i < |keys| ==> keys[i] == State(w[4 * i], w[4 * i + 1], w[4 * i + 2], w[4 * i + 3])
  {
    var fours;
    fours, w := ExpandKey(OPS, KeyWords(key));
    keys := seq(|fours|, i requires 0 <= i < |fours| => StateOf(fours[i]));
  }

  /** Two AES schedules share a stretch of a key's length, anywhere, exactly when they come from the same key. */
  lemma StretchIffKey(key: seq<bv32>, other: seq<bv32>, w: seq<bv32>, v: seq<bv32>, j: nat)
    requires |key| == |other| > 1 && |w| == |v| && j + |key| <= |w|
    requires IsExpansion(OPS, key, w) && IsExpansion(OPS, other, v)
    ensures w[j..j + |key|] == v[j..j + |key|] <==> key == other
  {
    OpsCancel();
    WindowIffKey(OPS, key, other, w, v, j);
  }
}
