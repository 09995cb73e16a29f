/** From the bytes of a key to a text encrypted and decrypted again. */
module AesRoundTrips {
  import opened Options
  import opened CipherModes
  import AesSchedule
  import AesBlock
  import AesCipher
  import AesModes
  import AesGcm
  import Aes
  import AesFips
  import Fips197
  import Cbc
  import Gcm

  /** AES under the schedule of a key. */
  method CipherOf(key: seq<bv8>) returns (c: Cipher, ghost keys: seq<AesBlock.State>)
    requires ValidKeySize(|key|)
    ensures AesCipher.IsSchedule(keys) && c == AesModes.AesUnder(keys) && Sound(c)
  {
    var schedule, _ := AesSchedule.RoundKeys(key);
    AesModes.AesSound(schedule);
    c, keys := AesModes.AesUnder(schedule), schedule;
  }

  /** The same, seen only as a cipher that the modes can use. */
  method ModeCipher(key: seq<bv8>) returns (c: Cipher)
    requires ValidKeySize(|key|)
    ensures Sound(c)
  {
    ghost var keys;
    c, keys := CipherOf(key);
  }

  /** CBC with padding: every message comes back, with the number of padding bytes it was given, exactly when key and
      buffers have sizes that do. */
  method CbcRoundTrip(key: seq<bv8>, m: Bytes, iv: Option<Bytes>, encrypted: array<Byte>, decrypted: array<Byte>)
    returns (e: Error, padding: nat)
    requires Cbc.ValidVector(iv) && encrypted != decrypted && decrypted.Length >= 16
    modifies encrypted, decrypted
    ensures e == Cbc.RoundTripOutcome(|m|, |key|, encrypted.Length, decrypted.Length)
    ensures e == Ok ==> padding == Cbc.PadCount(|m|) && decrypted[..|m|] == m
  {
    if !ValidKeySize(|key|) {
      return InvalidKeySize, 0;
    }
    var c := ModeCipher(key);
    e, padding := Cbc.PadEncryptDecrypt(c, |key|, m, iv, encrypted, decrypted);
  }

  /** GCM: every text comes back, under any key, vector, additional data and tag size that are accepted. */
  method GcmRoundTrip(key: seq<bv8>, iv: Bytes, aad: Bytes, text: Bytes, tagSize: nat) returns (e: Error, back: Bytes)
    requires text != []
    ensures e == Gcm.CheckGcm(|key|, |iv|, tagSize)
    ensures e == Ok ==> back == text
  {
    if !ValidKeySize(|key|) {
      return InvalidKeySize, [];
    }
    var keys, _ := AesSchedule.RoundKeys(key);
    AesGcm.SuiteUsable(keys);
    e, back := Gcm.EncryptDecrypt(AesGcm.SuiteUnder(keys), |key|, iv, aad, text, tagSize);
  }

  /** The cipher that the modes use is the one of FIPS 197, on the bytes as bits. */
  lemma ModeCipherIs(keys: seq<AesBlock.State>, b: Bytes)
    requires AesCipher.IsSchedule(keys) && |b| == 16
    ensures AesModes.Bits(AesModes.AesUnder(keys).enc(b)) ==
      Fips197.Cipher(AesFips.KeyBytes(keys), AesModes.Bits(b))
  {
    AesFips.EncryptIsCipher(keys, AesModes.Bits(b));
    AesModes.BitsOfNumbers(AesCipher.Encrypt(Aes.AES, keys, AesModes.Bits(b)));
  }
}
