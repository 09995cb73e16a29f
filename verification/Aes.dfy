/** The real primitives of aes.h, and the laws the cipher's proofs rest on. */
module Aes {
  import opened GaloisMix
  import opened AesBlock
  import AesTables

  function XorByte(a: bv8, b: bv8): bv8 { a ^ b }

  function XorWord(a: bv32, b: bv32): bv32 { a ^ b }

  function Shifted(b: bv8): bv8 { b << 1 }

  /** What doubling takes off when the highest bit is shifted out. */
  function Reduction(b: bv8): bv8 { if b & 0x80 != 0 then 0x1B else 0 }

  /** mul2: doubling in GF(2^8). */
  function Mul2(b: bv8): bv8 { XorByte(Shifted(b), Reduction(b)) }

  const AES := Primitives(AesTables.Sbox, AesTables.InvSbox, GF, XorWord)

  lemma XorByteComm(a: bv8, b: bv8)
    ensures XorByte(a, b) == XorByte(b, a)
  {
  }

  lemma XorByteAssoc(a: bv8, b: bv8, c: bv8)
    ensures XorByte(XorByte(a, b), c) == XorByte(a, XorByte(b, c))
  {
  }

  lemma XorByteOwn(a: bv8)
    ensures XorByte(a, a) == 0 && XorByte(a, 0) == a
  {
  }

  lemma XorWordTwice(a: bv32, b: bv32)
    ensures XorWord(XorWord(a, b), b) == a
  {
  }

  lemma ShiftedLinear(a: bv8, b: bv8)
    ensures Shifted(XorByte(a, b)) == XorByte(Shifted(a), Shifted(b))
  {
  }

  lemma ReductionLinear(a: bv8, b: bv8)
    ensures Reduction(XorByte(a, b)) == XorByte(Reduction(a), Reduction(b))
  {
  }

  lemma XorByteSwap(a: bv8, b: bv8, c: bv8, d: bv8)
    ensures XorByte(XorByte(a, b), XorByte(c, d)) == XorByte(XorByte(a, c), XorByte(b, d))
  {
    XorByteAssoc(a, b, XorByte(c, d));
    XorByteAssoc(b, c, d);
    XorByteComm(b, c);
    XorByteAssoc(c, b, d);
    XorByteAssoc(a, c, XorByte(b, d));
  }

  lemma Mul2Linear(a: bv8, b: bv8)
    ensures Mul2(XorByte(a, b)) == XorByte(Mul2(a), Mul2(b))
  {
    ShiftedLinear(a, b);
    ReductionLinear(a, b);
    XorByteSwap(Shifted(a), Reduction(a), Shifted(b), Reduction(b));
  }

  const GF := Field(0 as bv8, XorByte, Mul2)

  lemma GfComm()
    ensures CommLaw(GF)
  {
    forall a: bv8, b: bv8 ensures GF.plus(a, b) == GF.plus(b, a) {
      XorByteComm(a, b);
    }
  }

  lemma GfAssoc()
    ensures AssocLaw(GF)
  {
    forall a: bv8, b: bv8, c: bv8 ensures GF.plus(GF.plus(a, b), c) == GF.plus(a, GF.plus(b, c)) {
      XorByteAssoc(a, b, c);
    }
  }

  lemma GfOwn()
    ensures OwnLaw(GF)
  {
    forall a: bv8 ensures GF.plus(a, a) == GF.zero && GF.plus(a, GF.zero) == a {
      XorByteOwn(a);
    }
  }

  lemma GfLinear()
    ensures LinearLaw(GF)
  {
    forall a: bv8, b: bv8 ensures GF.dbl(GF.plus(a, b)) == GF.plus(GF.dbl(a), GF.dbl(b)) {
      Mul2Linear(a, b);
    }
  }

  lemma AesLawful()
    ensures Lawful(AES)
  {
    GfComm();
    GfAssoc();
    GfOwn();
    GfLinear();
    forall b: bv8 ensures AES.inv(AES.sbox(b)) == b {
      AesTables.TablesInverse(b);
    }
    forall a: bv32, k: bv32 ensures AES.xor32(AES.xor32(a, k), k) == a {
      XorWordTwice(a, k);
    }
  }
}
