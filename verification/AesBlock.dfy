/** The AES block cipher of aes.h: its round steps, each with its inverse, and the two block functions.

    The four columns of a state are 32-bit words, lowest byte first, as memcpy leaves them on a
    little-endian host.  The substitution tables and the exclusive or are a parameter, so that the
    proofs see only the laws they need; `Aes` supplies the real ones. */
module AesBlock {
  import opened GaloisMix

  datatype Primitives = Primitives(sbox: bv8 -> bv8, inv: bv8 -> bv8, gf: Field<bv8>, xor32: (bv32, bv32) -> bv32)

  ghost predicate Lawful(p: Primitives) {
    && (forall b: bv8 :: p.inv(p.sbox(b)) == b)
    && (forall a: bv32, k: bv32 :: p.xor32(p.xor32(a, k), k) == a)
    && Laws(p.gf)
  }

  datatype State = State(w0: bv32, w1: bv32, w2: bv32, w3: bv32)

  function B0(w: bv32): bv8 { (w & 0xFF) as bv8 }
  function B1(w: bv32): bv8 { ((w >> 8) & 0xFF) as bv8 }
  function B2(w: bv32): bv8 { ((w >> 16) & 0xFF) as bv8 }
  function B3(w: bv32): bv8 { ((w >> 24) & 0xFF) as bv8 }

  function Pack(b0: bv8, b1: bv8, b2: bv8, b3: bv8): bv32 {
    ((b0 as bv32) << 0) | ((b1 as bv32) << 8) | ((b2 as bv32) << 16) | ((b3 as bv32) << 24)
  }

  lemma PackBytes(b0: bv8, b1: bv8, b2: bv8, b3: bv8)
    ensures B0(Pack(b0, b1, b2, b3)) == b0 && B1(Pack(b0, b1, b2, b3)) == b1
    ensures B2(Pack(b0, b1, b2, b3)) == b2 && B3(Pack(b0, b1, b2, b3)) == b3
  {
  }

  lemma BytesPack(w: bv32)
    ensures Pack(B0(w), B1(w), B2(w), B3(w)) == w
  {
  }

  function AddRoundKey(p: Primitives, k: State, s: State): State {
    State(p.xor32(s.w0, k.w0), p.xor32(s.w1, k.w1), p.xor32(s.w2, k.w2), p.xor32(s.w3, k.w3))
  }

  lemma AddRoundKeyTwice(p: Primitives, k: State, s: State)
    requires Lawful(p)
    ensures AddRoundKey(p, k, AddRoundKey(p, k, s)) == s
  {
  }

  function SubWord(box: bv8 -> bv8, w: bv32): bv32 {
    Pack(box(B0(w)), box(B1(w)), box(B2(w)), box(B3(w)))
  }

  function SubBytes(box: bv8 -> bv8, s: State): State {
    State(SubWord(box, s.w0), SubWord(box, s.w1), SubWord(box, s.w2), SubWord(box, s.w3))
  }

  lemma SubWordInverse(p: Primitives, w: bv32)
    requires Lawful(p)
    ensures SubWord(p.inv, SubWord(p.sbox, w)) == w
  {
    PackBytes(p.sbox(B0(w)), p.sbox(B1(w)), p.sbox(B2(w)), p.sbox(B3(w)));
    BytesPack(w);
  }

  lemma SubBytesInverse(p: Primitives, s: State)
    requires Lawful(p)
    ensures SubBytes(p.inv, SubBytes(p.sbox, s)) == s
  {
    SubWordInverse(p, s.w0);
    SubWordInverse(p, s.w1);
    SubWordInverse(p, s.w2);
    SubWordInverse(p, s.w3);
  }

  /** A column with one row from each of four columns. */
  function Lanes(r0: bv32, r1: bv32, r2: bv32, r3: bv32): bv32 {
    (r0 & 0xFF) | (r1 & 0xFF00) | (r2 & 0xFF0000) | (r3 & 0xFF000000)
  }

  /** Row `r` of column `c` comes from column `c + r`. */
  function ShiftRows(s: State): State {
    State(Lanes(s.w0, s.w1, s.w2, s.w3), Lanes(s.w1, s.w2, s.w3, s.w0),
          Lanes(s.w2, s.w3, s.w0, s.w1), Lanes(s.w3, s.w0, s.w1, s.w2))
  }

  /** Row `r` of column `c` comes from column `c - r`. */
  function InvShiftRows(s: State): State {
    State(Lanes(s.w0, s.w3, s.w2, s.w1), Lanes(s.w1, s.w0, s.w3, s.w2),
          Lanes(s.w2, s.w1, s.w0, s.w3), Lanes(s.w3, s.w2, s.w1, s.w0))
  }

  lemma LanesInverse(a: bv32, b: bv32, c: bv32, d: bv32)
    ensures Lanes(Lanes(a, b, c, d), Lanes(d, a, b, c), Lanes(c, d, a, b), Lanes(b, c, d, a)) == a
  {
  }

  lemma ShiftRowsInverse(s: State)
    ensures InvShiftRows(ShiftRows(s)) == s
  {
    LanesInverse(s.w0, s.w1, s.w2, s.w3);
    LanesInverse(s.w1, s.w2, s.w3, s.w0);
    LanesInverse(s.w2, s.w3, s.w0, s.w1);
    LanesInverse(s.w3, s.w0, s.w1, s.w2);
  }

  /** One turn of the loop in the source's mul: adds `t` if the bit is set. */
  function Turn(f: Field<bv8>, bit: bool, v: bv8, t: bv8): bv8 {
    if bit then f.plus(v, t) else v
  }

  /** Multiplication in GF(2^8), one bit of `m` after the other. */
  function Mul(f: Field<bv8>, b: bv8, m: bv8): bv8 {
    var t1 := f.dbl(b);
    var t2 := f.dbl(t1);
    var t3 := f.dbl(t2);
    var t4 := f.dbl(t3);
    var t5 := f.dbl(t4);
    var t6 := f.dbl(t5);
    var t7 := f.dbl(t6);
    var v0 := Turn(f, m & 0x01 != 0, f.zero, b);
    var v1 := Turn(f, m & 0x02 != 0, v0, t1);
    var v2 := Turn(f, m & 0x04 != 0, v1, t2);
    var v3 := Turn(f, m & 0x08 != 0, v2, t3);
    var v4 := Turn(f, m & 0x10 != 0, v3, t4);
    var v5 := Turn(f, m & 0x20 != 0, v4, t5);
    var v6 := Turn(f, m & 0x40 != 0, v5, t6);
    Turn(f, m & 0x80 != 0, v6, t7)
  }

  lemma MulConstants(f: Field<bv8>, v: bv8)
    ensures Mul(f, v, 0x0E) == Times14(f, v) && Mul(f, v, 0x0B) == Times11(f, v)
    ensures Mul(f, v, 0x0D) == Times13(f, v) && Mul(f, v, 0x09) == Times9(f, v)
  {
  }

  function MixColumn(f: Field<bv8>, w: bv32): bv32 {
    var v0, v1, v2, v3 := B0(w), B1(w), B2(w), B3(w);
    Pack(Row0(f, v0, v1, v2, v3), Row1(f, v0, v1, v2, v3), Row2(f, v0, v1, v2, v3), Row3(f, v0, v1, v2, v3))
  }

  function InvMixColumn(f: Field<bv8>, w: bv32): bv32 {
    var v0, v1, v2, v3 := B0(w), B1(w), B2(w), B3(w);
    Pack(Sum4(f, Mul(f, v0, 0x0E), Mul(f, v1, 0x0B), Mul(f, v2, 0x0D), Mul(f, v3, 0x09)),
         Sum4(f, Mul(f, v0, 0x09), Mul(f, v1, 0x0E), Mul(f, v2, 0x0B), Mul(f, v3, 0x0D)),
         Sum4(f, Mul(f, v0, 0x0D), Mul(f, v1, 0x09), Mul(f, v2, 0x0E), Mul(f, v3, 0x0B)),
         Sum4(f, Mul(f, v0, 0x0B), Mul(f, v1, 0x0D), Mul(f, v2, 0x09), Mul(f, v3, 0x0E)))
  }

  lemma InverseRows(f: Field<bv8>, a: bv8, b: bv8, c: bv8, d: bv8, p: bv8, q: bv8, r: bv8, s: bv8)
    requires Laws(f)
    requires p == Row0(f, a, b, c, d) && q == Row1(f, a, b, c, d) && r == Row2(f, a, b, c, d)
    requires s == Row3(f, a, b, c, d)
    ensures Sum4(f, Mul(f, p, 0x0E), Mul(f, q, 0x0B), Mul(f, r, 0x0D), Mul(f, s, 0x09)) == a
    ensures Sum4(f, Mul(f, p, 0x09), Mul(f, q, 0x0E), Mul(f, r, 0x0B), Mul(f, s, 0x0D)) == b
    ensures Sum4(f, Mul(f, p, 0x0D), Mul(f, q, 0x09), Mul(f, r, 0x0E), Mul(f, s, 0x0B)) == c
    ensures Sum4(f, Mul(f, p, 0x0B), Mul(f, q, 0x0D), Mul(f, r, 0x09), Mul(f, s, 0x0E)) == d
  {
    MulConstants(f, p);
    MulConstants(f, q);
    MulConstants(f, r);
    MulConstants(f, s);
    Row0IsMix(f, a, b, c, d);
    Row1IsMix(f, a, b, c, d);
    Row2IsMix(f, a, b, c, d);
    Row3IsMix(f, a, b, c, d);
    var t := Total(f, a, b, c, d);
    TotalRotates(f, a, b, c, d);
    TotalRotates(f, b, c, d, a);
    TotalRotates(f, c, d, a, b);
    InverseRow(f, a, b, c, d, t);
    InverseRow(f, b, c, d, a, t);
    InverseRow(f, c, d, a, b, t);
    InverseRow(f, d, a, b, c, t);
    Rotate(f, Times9(f, p), Times14(f, q), Times11(f, r), Times13(f, s));
    Rotate(f, Times13(f, p), Times9(f, q), Times14(f, r), Times11(f, s));
    Rotate(f, Times9(f, q), Times14(f, r), Times11(f, s), Times13(f, p));
    Rotate(f, Times11(f, p), Times13(f, q), Times9(f, r), Times14(f, s));
    Rotate(f, Times13(f, q), Times9(f, r), Times14(f, s), Times11(f, p));
    Rotate(f, Times9(f, r), Times14(f, s), Times11(f, p), Times13(f, q));
  }

  lemma MixColumnInverse(f: Field<bv8>, w: bv32)
    requires Laws(f)
    ensures InvMixColumn(f, MixColumn(f, w)) == w
  {
    var a, b, c, d := B0(w), B1(w), B2(w), B3(w);
    var p, q, r, s := Row0(f, a, b, c, d), Row1(f, a, b, c, d), Row2(f, a, b, c, d), Row3(f, a, b, c, d);
    PackBytes(p, q, r, s);
    InverseRows(f, a, b, c, d, p, q, r, s);
    BytesPack(w);
  }

  function MixColumns(f: Field<bv8>, s: State): State {
    State(MixColumn(f, s.w0), MixColumn(f, s.w1), MixColumn(f, s.w2), MixColumn(f, s.w3))
  }

  function InvMixColumns(f: Field<bv8>, s: State): State {
    State(InvMixColumn(f, s.w0), InvMixColumn(f, s.w1), InvMixColumn(f, s.w2), InvMixColumn(f, s.w3))
  }

  lemma MixColumnsInverse(f: Field<bv8>, s: State)
    requires Laws(f)
    ensures InvMixColumns(f, MixColumns(f, s)) == s
  {
    MixColumnInverse(f, s.w0);
    MixColumnInverse(f, s.w1);
    MixColumnInverse(f, s.w2);
    MixColumnInverse(f, s.w3);
  }
}
