/** AES as a cipher the modes of operation can use: bytes as numbers and as bit vectors. */
module AesModes {
  import CM = CipherModes
  import AesBlock
  import AesCipher
  import Aes

  /** The low half of a byte, from its number. */
  function Nibble(n: nat): bv8
    requires n < 16
  {
    match n
    case 0 => 0 case 1 => 1 case 2 => 2 case 3 => 3
    case 4 => 4 case 5 => 5 case 6 => 6 case 7 => 7
    case 8 => 8 case 9 => 9 case 10 => 10 case 11 => 11
    case 12 => 12 case 13 => 13 case 14 => 14 case _ => 15
  }

  /** The number of a low half. */
  function NibbleValue(b: bv8): (n: nat)
    ensures n < 16
  {
    if b == 0 then 0 else if b == 1 then 1 else if b == 2 then 2 else if b == 3 then 3
    else if b == 4 then 4 else if b == 5 then 5 else if b == 6 then 6 else if b == 7 then 7
    else if b == 8 then 8 else if b == 9 then 9 else if b == 10 then 10 else if b == 11 then 11
    else if b == 12 then 12 else if b == 13 then 13 else if b == 14 then 14 else 15
  }

  lemma NibbleRoundTrip(n: nat)
    requires n < 16
    ensures NibbleValue(Nibble(n)) == n
  {
  }

  lemma ValueRoundTrip(b: bv8)
    requires b & 0xF0 == 0
    ensures Nibble(NibbleValue(b)) == b
  {
  }

  lemma NibbleSmall(n: nat)
    requires n < 16
    ensures Nibble(n) & 0xF0 == 0
  {
  }

  function Join(hi: bv8, lo: bv8): bv8 { (hi << 4) | lo }

  function High(b: bv8): bv8 { b >> 4 }

  function Low(b: bv8): bv8 { b & 0x0F }

  lemma JoinSplit(hi: bv8, lo: bv8)
    requires hi & 0xF0 == 0 && lo & 0xF0 == 0
    ensures High(Join(hi, lo)) == hi && Low(Join(hi, lo)) == lo
  {
  }

  lemma SplitJoin(b: bv8)
    ensures Join(High(b), Low(b)) == b && High(b) & 0xF0 == 0 && Low(b) & 0xF0 == 0
  {
  }

  function ToBits(n: CM.Byte): bv8 { Join(Nibble(n / 16), Nibble(n % 16)) }

  function ToNumber(b: bv8): CM.Byte { 16 * NibbleValue(High(b)) + NibbleValue(Low(b)) }

  lemma NumberOfBits(n: CM.Byte)
    ensures ToNumber(ToBits(n)) == n
  {
    var hi, lo := n / 16, n % 16;
    NibbleSmall(hi);
    NibbleSmall(lo);
    JoinSplit(Nibble(hi), Nibble(lo));
    NibbleRoundTrip(hi);
    NibbleRoundTrip(lo);
  }

  lemma BitsOfNumber(b: bv8)
    ensures ToBits(ToNumber(b)) == b
  {
    SplitJoin(b);
    ValueRoundTrip(High(b));
    ValueRoundTrip(Low(b));
    TwoDigits(NibbleValue(High(b)), NibbleValue(Low(b)));
  }

  lemma TwoDigits(hi: nat, lo: nat)
    requires lo < 16
    ensures (16 * hi + lo) / 16 == hi && (16 * hi + lo) % 16 == lo
  {
  }

  function Bits(s: CM.Bytes): (r: seq<bv8>)
    ensures |r| == |s|
  {
    seq(|s|, i requires 0 <= i < |s| => ToBits(s[i]))
  }

  function Numbers(s: seq<bv8>): (r: CM.Bytes)
    ensures |r| == |s|
  {
    seq<CM.Byte>(|s|, i requires 0 <= i < |s| => ToNumber(s[i]))
  }

  lemma NumbersOfBits(s: CM.Bytes)
    ensures Numbers(Bits(s)) == s
  {
    forall i | 0 <= i < |s| ensures Numbers(Bits(s))[i] == s[i] {
      NumberOfBits(s[i]);
    }
  }

  lemma BitsOfNumbers(s: seq<bv8>)
    ensures Bits(Numbers(s)) == s
  {
    forall i | 0 <= i < |s| ensures Bits(Numbers(s))[i] == s[i] {
      BitsOfNumber(s[i]);
    }
  }

  function Enc(keys: seq<AesBlock.State>, b: CM.Bytes): CM.Bytes
    requires AesCipher.IsSchedule(keys)
  {
    if |b| == 16 then Numbers(AesCipher.Encrypt(Aes.AES, keys, Bits(b))) else b
  }

  function Dec(keys: seq<AesBlock.State>, b: CM.Bytes): CM.Bytes
    requires AesCipher.IsSchedule(keys)
  {
    if |b| == 16 then Numbers(AesCipher.Decrypt(Aes.AES, keys, Bits(b))) else b
  }

  function XorNumbers(x: CM.Byte, y: CM.Byte): CM.Byte {
    ToNumber(Aes.XorByte(ToBits(x), ToBits(y)))
  }

  /** AES under a list of round keys. */
  function AesUnder(keys: seq<AesBlock.State>): CM.Cipher
    requires AesCipher.IsSchedule(keys)
  {
    CM.Cipher(b => Enc(keys, b), b => Dec(keys, b), XorNumbers)
  }

  lemma DecOfEnc(keys: seq<AesBlock.State>, b: CM.Bytes)
    requires AesCipher.IsSchedule(keys) && |b| == 16
    ensures |Enc(keys, b)| == 16 && |Dec(keys, b)| == 16 && Dec(keys, Enc(keys, b)) == b
  {
    Aes.AesLawful();
    AesCipher.DecryptInvertsEncrypt(Aes.AES, keys, Bits(b));
    BitsOfNumbers(AesCipher.Encrypt(Aes.AES, keys, Bits(b)));
    NumbersOfBits(b);
  }

  lemma XorTwice(a: bv8, b: bv8)
    ensures Aes.XorByte(Aes.XorByte(a, b), b) == a
  {
  }

  lemma XorNumbersTwice(x: CM.Byte, y: CM.Byte)
    ensures XorNumbers(XorNumbers(x, y), y) == x
  {
    BitsOfNumber(Aes.XorByte(ToBits(x), ToBits(y)));
    XorTwice(ToBits(x), ToBits(y));
    NumberOfBits(x);
  }

  lemma XorNumbersZero(x: CM.Byte)
    ensures XorNumbers(x, 0) == x
  {
    ZeroBits();
    Aes.XorByteOwn(ToBits(x));
    NumberOfBits(x);
  }

  lemma ZeroBits()
    ensures ToBits(0) == 0
  {
  }

  /** So everything said of sound ciphers in CBC, CTR and GCM mode holds of AES under every key list. */
  lemma AesSound(keys: seq<AesBlock.State>)
    requires AesCipher.IsSchedule(keys)
    ensures CM.Sound(AesUnder(keys))
  {
    var c := AesUnder(keys);
    forall b: CM.Bytes | |b| == 16 ensures |c.enc(b)| == 16 && |c.dec(b)| == 16 && c.dec(c.enc(b)) == b {
      DecOfEnc(keys, b);
    }
    forall x: CM.Byte, y: CM.Byte ensures c.xor(c.xor(x, y), y) == x {
      XorNumbersTwice(x, y);
    }
    forall x: CM.Byte ensures c.xor(x, 0) == x {
      XorNumbersZero(x);
    }
  }
}
