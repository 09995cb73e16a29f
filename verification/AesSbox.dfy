/** The substitution table of aes.h against section 5.1.1 of FIPS 197: inversion in GF(2^8), then an affine map. */
module AesSbox {
  import opened GaloisMix
  import opened PolyRing
  import opened AesTables
  import opened Aes

  function Test(b: bv8, m: bv8): bool { b & m != 0 }

  /** The bits of a byte, lowest first. */
  function BitsUp(b: bv8): (s: seq<bool>)
    ensures |s| == 8
  {
    [Test(b, 1), Test(b, 2), Test(b, 4), Test(b, 8), Test(b, 0x10), Test(b, 0x20), Test(b, 0x40), Test(b, 0x80)]
  }

  /** The product in GF(2^8), by doubling and adding. */
  function Product(b: bv8, x: bv8): bv8 { Times(GF, BitsUp(b), |BitsUp(b)|, x) }

  /** The eight doublings of a byte. */
  function Doublings(x0: bv8): (x: seq<bv8>)
    ensures |x| == 8
  {
    var x1 := Mul2(x0);
    var x2 := Mul2(x1);
    var x3 := Mul2(x2);
    var x4 := Mul2(x3);
    var x5 := Mul2(x4);
    var x6 := Mul2(x5);
    [x0, x1, x2, x3, x4, x5, x6, Mul2(x6)]
  }

  function Added(s: seq<bool>, x: seq<bv8>): bv8
    requires |s| == |x| == 8
  {
    Only(s[0], x[0]) ^ Only(s[1], x[1]) ^ Only(s[2], x[2]) ^ Only(s[3], x[3])
    ^ Only(s[4], x[4]) ^ Only(s[5], x[5]) ^ Only(s[6], x[6]) ^ Only(s[7], x[7])
  }

  /** The same, written out. */
  function Written(b: bv8, x: bv8): bv8 { Added(BitsUp(b), Doublings(x)) }

  function Only(c: bool, x: bv8): bv8 { if c then x else 0 }

  function Rotated(x: bv8, k: nat): bv8
    requires k < 8
  {
    (x << k) | (x >> (8 - k))
  }

  /** The affine map: each bit is the sum of five bits and a bit of 0x63. */
  function Affine(x: bv8): bv8 { x ^ Rotated(x, 1) ^ Rotated(x, 2) ^ Rotated(x, 3) ^ Rotated(x, 4) ^ 0x63 }

  function Unaffine(y: bv8): bv8 { Rotated(y, 1) ^ Rotated(y, 3) ^ Rotated(y, 6) ^ 0x05 }

  lemma AffineOfUnaffine(y: bv8)
    ensures Affine(Unaffine(y)) == y
  {
  }

  /** Row by row, what the affine map makes into an entry inverts the byte looked up. */
  lemma EntryInverts1(b: bv8)
    requires b != 0 && b & 0xC0 == 0
    ensures Written(Unaffine(Sbox(b)), b) == 1
  {
  }

  lemma EntryInverts2(b: bv8)
    requires b & 0xC0 == 0x40
    ensures Written(Unaffine(Sbox(b)), b) == 1
  {
  }

  lemma EntryInverts3(b: bv8)
    requires b & 0xC0 == 0x80
    ensures Written(Unaffine(Sbox(b)), b) == 1
  {
  }

  lemma EntryInverts4(b: bv8)
    requires b & 0xC0 == 0xC0
    ensures Written(Unaffine(Sbox(b)), b) == 1
  {
  }

  lemma TimesNext<V>(f: Field<V>, s: seq<bool>, n: nat, n': nat, x: V)
    requires n' == n + 1 <= |s|
    ensures Times(f, s, n', x) == f.plus(Times(f, s, n, x), If(f, s[n], Power(f, n, x)))
    ensures Power(f, n', x) == f.dbl(Power(f, n, x))
  {
    var p := Power(f, n, x);
    var t := If(f, s[n' - 1], Power(f, n' - 1, x));
    assert t == If(f, s[n], p);
    assert Times(f, s, n', x) == f.plus(Times(f, s, n' - 1, x), t);
  }

  /** Times over eight bits, with the powers `x` and the terms `t` named. */
  lemma EightTerms<V>(f: Field<V>, s: seq<bool>, x: seq<V>, t: seq<V>, n: nat)
    requires |s| == |x| == |t| == n == 8
    requires forall i :: 0 <= i < 7 ==> x[i + 1] == f.dbl(x[i])
    requires forall i :: 0 <= i < 8 ==> t[i] == If(f, s[i], x[i])
    ensures Times(f, s, n, x[0]) == f.plus(f.plus(f.plus(f.plus(f.plus(f.plus(f.plus(f.plus(
      f.zero, t[0]), t[1]), t[2]), t[3]), t[4]), t[5]), t[6]), t[7])
  {
    TimesNext(f, s, n - 8, n - 7, x[0]);
    TimesNext(f, s, n - 7, n - 6, x[0]);
    TimesNext(f, s, n - 6, n - 5, x[0]);
    TimesNext(f, s, n - 5, n - 4, x[0]);
    TimesNext(f, s, n - 4, n - 3, x[0]);
    TimesNext(f, s, n - 3, n - 2, x[0]);
    TimesNext(f, s, n - 2, n - 1, x[0]);
    TimesNext(f, s, n - 1, n, x[0]);
  }

  lemma XorFour(r: bv8, v: bv8, a: bv8, b: bv8, c: bv8, d: bv8)
    requires r == GF.plus(GF.plus(GF.plus(GF.plus(v, a), b), c), d)
    ensures r == v ^ a ^ b ^ c ^ d
  {
  }

  lemma XorEight(r: bv8, a: bv8, b: bv8, c: bv8, d: bv8, e: bv8, g: bv8, h: bv8, i: bv8)
    requires r == GF.plus(GF.plus(GF.plus(GF.plus(GF.plus(GF.plus(GF.plus(GF.plus(
      GF.zero, a), b), c), d), e), g), h), i)
    ensures r == a ^ b ^ c ^ d ^ e ^ g ^ h ^ i
  {
    var low := GF.plus(GF.plus(GF.plus(GF.plus(GF.zero, a), b), c), d);
    XorFour(low, 0, a, b, c, d);
    XorFour(r, low, e, g, h, i);
  }

  lemma AddedIs(s: seq<bool>, x: seq<bv8>, n: nat, r: bv8)
    requires |s| == |x| == n == 8 && (forall i :: 0 <= i < 7 ==> x[i + 1] == Mul2(x[i])) && r == Times(GF, s, n, x[0])
    ensures r == Added(s, x)
  {
    var t := seq(8, i requires 0 <= i < 8 => Only(s[i], x[i]));
    EightTerms(GF, s, x, t, n);
    XorEight(r, t[0], t[1], t[2], t[3], t[4], t[5], t[6], t[7]);
  }

  lemma WrittenIs(b: bv8, x: bv8)
    ensures Product(b, x) == Written(b, x)
  {
    var xs := Doublings(x);
    assert forall i :: 0 <= i < 7 ==> xs[i + 1] == Mul2(xs[i]);
    AddedIs(BitsUp(b), xs, 8, Product(b, x));
  }

  // Inverses.

  /** What section 5.1.1 of FIPS 197 calls the inverse: 0 for 0. */
  ghost predicate IsInverse(b: bv8, x: bv8) {
    if b == 0 then x == 0 else Product(x, b) == 1
  }

  lemma EntryInverts(b: bv8)
    requires b != 0
    ensures Written(Unaffine(Sbox(b)), b) == 1
  {
    var row := b & 0xC0;
    if row == 0 {
      EntryInverts1(b);
    } else if row == 0x40 {
      EntryInverts2(b);
    } else if row == 0x80 {
      EntryInverts3(b);
    } else {
      EntryInverts4(b);
    }
  }

  lemma GfLaws()
    ensures Laws(GF)
  {
    GfComm();
    GfAssoc();
    GfOwn();
    GfLinear();
  }

  lemma TimesOne(x: bv8)
    ensures Product(x, 1) == x
  {
    WrittenIs(x, 1);
    WrittenOne(x);
  }

  lemma WrittenOne(x: bv8)
    ensures Written(x, 1) == x
  {
  }

  /** A byte has one inverse only. */
  lemma InverseUnique(b: bv8, x: bv8, y: bv8)
    requires IsInverse(b, x) && IsInverse(b, y)
    ensures x == y
  {
    if b != 0 {
      GfLaws();
      // x = x (y b) = y (x b) = y
      TimesCommute(GF, BitsUp(x), 8, BitsUp(y), 8, b);
      TimesOne(x);
      TimesOne(y);
    }
  }

  /** The table is inversion in GF(2^8) followed by the affine map, for every byte and its only inverse. */
  lemma SboxIsAffineInverse(b: bv8, x: bv8)
    ensures IsInverse(b, x) ==> Sbox(b) == Affine(x)
    ensures IsInverse(b, Unaffine(Sbox(b)))
  {
    var inverse := Unaffine(Sbox(b));
    AffineOfUnaffine(Sbox(b));
    if b != 0 {
      EntryInverts(b);
      WrittenIs(inverse, b);
    }
    if IsInverse(b, x) {
      InverseUnique(b, x, inverse);
    }
  }
}
