/** The cipher and the key schedule of aes.h are those of FIPS 197, byte by byte. */
module AesFips {
  import opened AesBlock
  import opened AesCipher
  import GaloisMix
  import Aes
  import AesSbox
  import AesTables
  import AesKeys
  import AesSchedule
  import Fips197
  import RoundCipher

  // Key addition.

  lemma XorB0(a: bv32, b: bv32) ensures B0(a ^ b) == B0(a) ^ B0(b) { }
  lemma XorB1(a: bv32, b: bv32) ensures B1(a ^ b) == B1(a) ^ B1(b) { }
  lemma XorB2(a: bv32, b: bv32) ensures B2(a ^ b) == B2(a) ^ B2(b) { }
  lemma XorB3(a: bv32, b: bv32) ensures B3(a ^ b) == B3(a) ^ B3(b) { }

  lemma XorLane(w: bv32, a: bv32, b: bv32)
    requires w == a ^ b
    ensures B0(w) == Fips197.Xor(B0(a), B0(b)) && B1(w) == Fips197.Xor(B1(a), B1(b))
    ensures B2(w) == Fips197.Xor(B2(a), B2(b)) && B3(w) == Fips197.Xor(B3(a), B3(b))
  {
    XorB0(a, b);
    XorB1(a, b);
    XorB2(a, b);
    XorB3(a, b);
  }

  lemma XorAt(p: Bytes, q: Bytes, i: nat)
    requires i < |p| == |q|
    ensures Fips197.XorAll(p, q)[i] == Fips197.Xor(p[i], q[i])
  {
  }

  lemma FourAre(s: Bytes, r0: bv8, r1: bv8, r2: bv8, r3: bv8)
    requires |s| == 4 && s[0] == r0 && s[1] == r1 && s[2] == r2 && s[3] == r3
    ensures s == [r0, r1, r2, r3]
  {
  }

  lemma XorList(p0: bv8, p1: bv8, p2: bv8, p3: bv8, q0: bv8, q1: bv8, q2: bv8, q3: bv8,
                r0: bv8, r1: bv8, r2: bv8, r3: bv8)
    requires r0 == Fips197.Xor(p0, q0) && r1 == Fips197.Xor(p1, q1)
    requires r2 == Fips197.Xor(p2, q2) && r3 == Fips197.Xor(p3, q3)
    ensures [r0, r1, r2, r3] == Fips197.XorAll([p0, p1, p2, p3], [q0, q1, q2, q3])
  {
    var p, q := [p0, p1, p2, p3], [q0, q1, q2, q3];
    XorAt(p, q, 0);
    XorAt(p, q, 1);
    XorAt(p, q, 2);
    XorAt(p, q, 3);
    FourAre(Fips197.XorAll(p, q), r0, r1, r2, r3);
  }

  lemma WordXor(w: bv32, a: bv32, b: bv32)
    requires w == a ^ b
    ensures [B0(w), B1(w), B2(w), B3(w)] ==
      Fips197.XorAll([B0(a), B1(a), B2(a), B3(a)], [B0(b), B1(b), B2(b), B3(b)])
  {
    XorLane(w, a, b);
    XorList(B0(a), B1(a), B2(a), B3(a), B0(b), B1(b), B2(b), B3(b), B0(w), B1(w), B2(w), B3(w));
  }

  lemma XorBytes(a: bv32, b: bv32)
    ensures WordBytes(Aes.XorWord(a, b)) == Fips197.XorAll(WordBytes(a), WordBytes(b))
  {
    WordXor(Aes.XorWord(a, b), a, b);
  }

  lemma AddParts(a: Bytes, b: Bytes, c: Bytes, d: Bytes, p: Bytes, q: Bytes, r: Bytes, s: Bytes)
    requires |a| == |b| == |c| == |d| == |p| == |q| == |r| == |s| == 4
    ensures Fips197.XorAll(a + b + c + d, p + q + r + s) == Fips197.XorAll(a, p) +
      Fips197.XorAll(b, q) + Fips197.XorAll(c, r) + Fips197.XorAll(d, s)
  {
  }

  /** Byte i of the state after key addition is the exclusive or of bytes i of state and key. */
  lemma AddRoundKeyIs(k: State, s: State)
    ensures ToBytes(AddRoundKey(Aes.AES, k, s)) == Fips197.AddRoundKey(ToBytes(k), ToBytes(s))
  {
    XorBytes(s.w0, k.w0);
    XorBytes(s.w1, k.w1);
    XorBytes(s.w2, k.w2);
    XorBytes(s.w3, k.w3);
    AddParts(WordBytes(s.w0), WordBytes(s.w1), WordBytes(s.w2), WordBytes(s.w3),
             WordBytes(k.w0), WordBytes(k.w1), WordBytes(k.w2), WordBytes(k.w3));
  }

  // Substitution.

  lemma EachOfFour(f: bv8 -> bv8, a: bv8, b: bv8, c: bv8, d: bv8)
    ensures Fips197.Each(f, [a, b, c, d]) == [f(a), f(b), f(c), f(d)]
  {
  }

  lemma EachOfParts(f: bv8 -> bv8, a: Bytes, b: Bytes, c: Bytes, d: Bytes)
    ensures Fips197.Each(f, a + b + c + d) ==
      Fips197.Each(f, a) + Fips197.Each(f, b) + Fips197.Each(f, c) + Fips197.Each(f, d)
  {
    EachOfTwo(f, a, b);
    EachOfTwo(f, a + b, c);
    EachOfTwo(f, a + b + c, d);
  }

  lemma EachOfTwo(f: bv8 -> bv8, a: Bytes, b: Bytes)
    ensures Fips197.Each(f, a + b) == Fips197.Each(f, a) + Fips197.Each(f, b)
  {
  }

  lemma SubWordIs(box: bv8 -> bv8, w: bv32)
    ensures WordBytes(SubWord(box, w)) == Fips197.Each(box, WordBytes(w))
  {
    PackBytes(box(B0(w)), box(B1(w)), box(B2(w)), box(B3(w)));
    EachOfFour(box, B0(w), B1(w), B2(w), B3(w));
  }

  /** Each byte is replaced by its entry in the table. */
  lemma SubBytesIs(box: bv8 -> bv8, s: State)
    ensures ToBytes(SubBytes(box, s)) == Fips197.Each(box, ToBytes(s))
  {
    SubWordIs(box, s.w0);
    SubWordIs(box, s.w1);
    SubWordIs(box, s.w2);
    SubWordIs(box, s.w3);
    EachOfParts(box, WordBytes(s.w0), WordBytes(s.w1), WordBytes(s.w2), WordBytes(s.w3));
  }

  // Shifting.

  lemma LaneBytes(a: bv32, b: bv32, c: bv32, d: bv32)
    ensures B0(Lanes(a, b, c, d)) == B0(a) && B1(Lanes(a, b, c, d)) == B1(b)
    ensures B2(Lanes(a, b, c, d)) == B2(c) && B3(Lanes(a, b, c, d)) == B3(d)
  {
  }

  /** A list with one byte from each of four. */
  function Diagonal(a: Bytes, b: Bytes, c: Bytes, d: Bytes): (r: Bytes)
    requires |a| == |b| == |c| == |d| == 4
    ensures |r| == 4
  {
    [a[0], b[1], c[2], d[3]]
  }

  lemma LanesAre(a: bv32, b: bv32, c: bv32, d: bv32)
    ensures WordBytes(Lanes(a, b, c, d)) == Diagonal(WordBytes(a), WordBytes(b), WordBytes(c), WordBytes(d))
  {
    LaneBytes(a, b, c, d);
  }

  lemma ShiftOfParts(a: Bytes, b: Bytes, c: Bytes, d: Bytes)
    requires |a| == |b| == |c| == |d| == 4
    ensures Fips197.ShiftRows(a + b + c + d) ==
      Diagonal(a, b, c, d) + Diagonal(b, c, d, a) + Diagonal(c, d, a, b) + Diagonal(d, a, b, c)
  {
  }

  /** Byte 4c + r after shifting comes from column c + r modulo 4. */
  lemma ShiftRowsIs(s: State)
    ensures ToBytes(ShiftRows(s)) == Fips197.ShiftRows(ToBytes(s))
  {
    LanesAre(s.w0, s.w1, s.w2, s.w3);
    LanesAre(s.w1, s.w2, s.w3, s.w0);
    LanesAre(s.w2, s.w3, s.w0, s.w1);
    LanesAre(s.w3, s.w0, s.w1, s.w2);
    ShiftOfParts(WordBytes(s.w0), WordBytes(s.w1), WordBytes(s.w2), WordBytes(s.w3));
  }

  // Mixing.

  lemma TimesTwo(a: bv8)
    ensures AesSbox.Product(2, a) == Aes.Mul2(a)
  {
    AesSbox.WrittenIs(2, a);
    WrittenTwo(a, Aes.Mul2(a));
  }

  lemma WrittenTwo(a: bv8, b: bv8)
    requires b == Aes.Mul2(a)
    ensures AesSbox.Written(2, a) == b && AesSbox.Written(3, a) == Aes.XorByte(b, a)
  {
  }

  lemma TimesThree(a: bv8)
    ensures AesSbox.Product(3, a) == Aes.XorByte(Aes.Mul2(a), a)
  {
    AesSbox.WrittenIs(3, a);
    WrittenTwo(a, Aes.Mul2(a));
  }

  lemma SameXor(a: bv8, b: bv8)
    ensures Fips197.Xor(a, b) == Aes.GF.plus(a, b)
  {
  }

  lemma RowIs(a: bv8, b: bv8, c: bv8, d: bv8)
    ensures Fips197.MixByte(a, b, c, d) == GaloisMix.Row0(Aes.GF, a, b, c, d)
  {
    TimesTwo(a);
    TimesThree(b);
    var x, y := Aes.Mul2(a), Aes.XorByte(Aes.Mul2(b), b);
    SameXor(x, y);
    SameXor(Fips197.Xor(x, y), c);
    SameXor(Fips197.Xor(Fips197.Xor(x, y), c), d);
  }

  /** The four rows are one, begun at different bytes. */
  lemma RowsTurn<B(!new)>(f: GaloisMix.Field<B>, a: B, b: B, c: B, d: B)
    requires GaloisMix.Laws(f)
    ensures GaloisMix.Row1(f, a, b, c, d) == GaloisMix.Row0(f, b, c, d, a)
    ensures GaloisMix.Row2(f, a, b, c, d) == GaloisMix.Row0(f, c, d, a, b)
    ensures GaloisMix.Row3(f, a, b, c, d) == GaloisMix.Row0(f, d, a, b, c)
  {
    var a2, b2, c2, d2 := f.dbl(a), f.dbl(b), f.dbl(c), f.dbl(d);
    var a3, c3, d3 := f.plus(a2, a), f.plus(c2, c), f.plus(d2, d);
    GaloisMix.Rotate(f, a, b2, c3, d);
    GaloisMix.Rotate(f, a, b, c2, d3);
    GaloisMix.Rotate(f, b, c2, d3, a);
    GaloisMix.Rotate(f, d2, a3, b, c);
  }

  lemma ColumnsOf(a: Bytes, b: Bytes, c: Bytes, d: Bytes, s: Bytes)
    requires |a| == |b| == |c| == |d| == 4 && s == a + b + c + d
    ensures s[..4] == a && s[4..8] == b && s[8..12] == c && s[12..] == d
  {
  }

  lemma RowsAre(a: bv8, b: bv8, c: bv8, d: bv8)
    ensures GaloisMix.Row0(Aes.GF, a, b, c, d) == Fips197.MixByte(a, b, c, d)
    ensures GaloisMix.Row1(Aes.GF, a, b, c, d) == Fips197.MixByte(b, c, d, a)
    ensures GaloisMix.Row2(Aes.GF, a, b, c, d) == Fips197.MixByte(c, d, a, b)
    ensures GaloisMix.Row3(Aes.GF, a, b, c, d) == Fips197.MixByte(d, a, b, c)
  {
    AesSbox.GfLaws();
    RowsTurn(Aes.GF, a, b, c, d);
    RowIs(a, b, c, d);
    RowIs(b, c, d, a);
    RowIs(c, d, a, b);
    RowIs(d, a, b, c);
  }

  lemma MixColumnIs(w: bv32)
    ensures WordBytes(MixColumn(Aes.GF, w)) == Fips197.Turned(Fips197.MixByte, WordBytes(w))
  {
    var a, b, c, d := B0(w), B1(w), B2(w), B3(w);
    PackBytes(GaloisMix.Row0(Aes.GF, a, b, c, d), GaloisMix.Row1(Aes.GF, a, b, c, d),
              GaloisMix.Row2(Aes.GF, a, b, c, d), GaloisMix.Row3(Aes.GF, a, b, c, d));
    RowsAre(a, b, c, d);
  }

  /** Each mixed byte is twice itself, three times the next and the other two, in GF(2^8). */
  lemma MixColumnsIs(s: State)
    ensures ToBytes(MixColumns(Aes.GF, s)) == Fips197.MixColumns(ToBytes(s))
  {
    MixColumnIs(s.w0);
    MixColumnIs(s.w1);
    MixColumnIs(s.w2);
    MixColumnIs(s.w3);
    ColumnsOf(WordBytes(s.w0), WordBytes(s.w1), WordBytes(s.w2), WordBytes(s.w3), ToBytes(s));
  }

  // The cipher.

  /** A state as the bytes of a block. */
  function BlockOf(s: State): Fips197.Block { ToBytes(s) }

  function KeyBytes(keys: seq<State>): (r: seq<Fips197.Block>)
    ensures |r| == |keys|
  {
    seq<Fips197.Block>(|keys|, i requires 0 <= i < |keys| => BlockOf(keys[i]))
  }

  lemma RoundIs(k: State, s: State)
    ensures ToBytes(Round(Aes.AES, k, s)) == Fips197.Round(ToBytes(k), ToBytes(s))
  {
    var t := SubBytes(AesTables.Sbox, s);
    SubBytesIs(AesTables.Sbox, s);
    ShiftRowsIs(t);
    MixColumnsIs(ShiftRows(t));
    AddRoundKeyIs(k, MixColumns(Aes.GF, ShiftRows(t)));
  }

  lemma LastRoundIs(k: State, s: State)
    ensures ToBytes(LastRound(Aes.AES, k, s)) == Fips197.LastRound(ToBytes(k), ToBytes(s))
  {
    var t := SubBytes(AesTables.Sbox, s);
    SubBytesIs(AesTables.Sbox, s);
    ShiftRowsIs(t);
    AddRoundKeyIs(k, ShiftRows(t));
  }

  type OnStates = (State, State) -> State

  /** A keyed step on states and one on blocks agree, by a way to read states as blocks. */
  ghost predicate Agree(f: OnStates, g: Fips197.Step, tb: State -> Fips197.Block) {
    forall k: State, s: State :: tb(f(k, s)) == g(tb(k), tb(s))
  }

  lemma AddAgrees()
    ensures Agree(AesSteps(Aes.AES).add, Fips197.AddRoundKey, BlockOf)
  {
    forall k: State, s: State
      ensures BlockOf(AddRoundKey(Aes.AES, k, s)) == Fips197.AddRoundKey(BlockOf(k), BlockOf(s))
    {
      AddRoundKeyIs(k, s);
    }
  }

  lemma RoundAgrees()
    ensures Agree(AesSteps(Aes.AES).round, Fips197.Round, BlockOf)
  {
    forall k: State, s: State ensures BlockOf(Round(Aes.AES, k, s)) == Fips197.Round(BlockOf(k), BlockOf(s)) {
      RoundIs(k, s);
    }
  }

  lemma LastAgrees()
    ensures Agree(AesSteps(Aes.AES).last, Fips197.LastRound, BlockOf)
  {
    forall k: State, s: State ensures BlockOf(LastRound(Aes.AES, k, s)) == Fips197.LastRound(BlockOf(k), BlockOf(s)) {
      LastRoundIs(k, s);
    }
  }

  ghost predicate ReadAs(keys: seq<State>, ks: seq<Fips197.Block>, tb: State -> Fips197.Block) {
    |keys| == |ks| && forall i :: 0 <= i < |keys| ==> ks[i] == tb(keys[i])
  }

  lemma {:induction false} RoundsAre(c: RoundCipher.Steps<State, State>, tb: State -> Fips197.Block,
                                     round: Fips197.Step, keys: seq<State>, ks: seq<Fips197.Block>, s: State, n: nat)
    requires Agree(c.round, round, tb) && ReadAs(keys, ks, tb) && n < |keys|
    ensures tb(RoundCipher.Rounds(c, keys, n, s)) == Fips197.Rounds(round, ks, tb(s), n)
  {
    if n > 0 {
      RoundsAre(c, tb, round, keys, ks, s, n - 1);
    }
  }

  lemma CipherIs(c: RoundCipher.Steps<State, State>, tb: State -> Fips197.Block, add: Fips197.Step, round: Fips197.Step,
                 last: Fips197.Step, keys: seq<State>, ks: seq<Fips197.Block>, s: State)
    requires Agree(c.add, add, tb) && Agree(c.round, round, tb) && Agree(c.last, last, tb)
    requires ReadAs(keys, ks, tb) && |keys| >= 2
    ensures tb(RoundCipher.Encrypt(c, keys, s)) == Fips197.CipherBy(add, round, last, ks, tb(s))
  {
    RoundsAre(c, tb, round, keys, ks, c.add(keys[0], s), |keys| - 2);
  }

  /** Encryption of a block is the cipher of section 5.1 of FIPS 197, for every block and list of round keys. */
  lemma EncryptIsCipher(keys: seq<State>, block: Bytes)
    requires IsSchedule(keys) && IsBlock(block)
    ensures Encrypt(Aes.AES, keys, block) == Fips197.Cipher(KeyBytes(keys), block)
  {
    AddAgrees();
    RoundAgrees();
    LastAgrees();
    BytesState(block);
    CipherIs(AesSteps(Aes.AES), BlockOf, Fips197.AddRoundKey, Fips197.Round, Fips197.LastRound, keys, KeyBytes(keys),
             FromBytes(block));
  }

  /** Decryption of a block undoes that cipher. */
  lemma DecryptUndoesCipher(keys: seq<State>, block: Bytes)
    requires IsSchedule(keys) && IsBlock(block)
    ensures Decrypt(Aes.AES, keys, Fips197.Cipher(KeyBytes(keys), block)) == block
  {
    EncryptIsCipher(keys, block);
    Aes.AesLawful();
    DecryptInvertsEncrypt(Aes.AES, keys, block);
  }

  // The key schedule.

  lemma PackedWord(a: bv8, b: bv8, c: bv8, d: bv8)
    ensures WordBytes(Pack(a, b, c, d)) == [a, b, c, d]
  {
    PackBytes(a, b, c, d);
  }

  lemma RotatedBytes(v: bv32, w: bv32)
    requires w == AesSchedule.RotWord(v)
    ensures B0(w) == B1(v) && B1(w) == B2(v) && B2(w) == B3(v) && B3(w) == B0(v)
  {
  }

  lemma RotWordIs(v: bv32)
    ensures WordBytes(AesSchedule.RotWord(v)) == Fips197.RotWord(WordBytes(v))
  {
    RotatedBytes(v, AesSchedule.RotWord(v));
  }

  /** What 2 to the power i - 1 is. */
  lemma PowerNext(i: nat, p: bv8, q: bv8)
    requires i > 0 && Fips197.Power(i) == p && q == Aes.Mul2(p)
    ensures Fips197.Power(i + 1) == q
  {
    TimesTwo(p);
  }

  lemma Powers(i: nat)
    requires i == 1
    ensures Fips197.Power(i) == 0x01 && Fips197.Power(i + 1) == 0x02 && Fips197.Power(i + 2) == 0x04
    ensures Fips197.Power(i + 3) == 0x08 && Fips197.Power(i + 4) == 0x10 && Fips197.Power(i + 5) == 0x20
    ensures Fips197.Power(i + 6) == 0x40 && Fips197.Power(i + 7) == 0x80 && Fips197.Power(i + 8) == 0x1B
    ensures Fips197.Power(i + 9) == 0x36
  {
    PowerNext(i, 0x01, 0x02);
    PowerNext(i + 1, 0x02, 0x04);
    PowerNext(i + 2, 0x04, 0x08);
    PowerNext(i + 3, 0x08, 0x10);
    PowerNext(i + 4, 0x10, 0x20);
    PowerNext(i + 5, 0x20, 0x40);
    PowerNext(i + 6, 0x40, 0x80);
    PowerNext(i + 7, 0x80, 0x1B);
    PowerNext(i + 8, 0x1B, 0x36);
  }

  lemma SmallWord(b: bv8, w: bv32)
    requires w == b as bv32
    ensures WordBytes(w) == [b, 0, 0, 0]
  {
  }

  /** The constants are the powers of 2. */
  lemma RconIs(i: nat)
    requires 1 <= i <= 10
    ensures WordBytes(AesSchedule.Rcon(i)) == Fips197.Rcon(i)
  {
    Powers(1);
    SmallWord(Fips197.Power(i), AesSchedule.Rcon(i));
  }

  lemma TurnIs(t: bv32, i: nat)
    requires 1 <= i <= 10
    ensures WordBytes(AesSchedule.Turn(t, i)) ==
      Fips197.XorAll(Fips197.Each(AesTables.Sbox, Fips197.RotWord(WordBytes(t))), Fips197.Rcon(i))
  {
    var r := AesSchedule.RotWord(t);
    RotWordIs(t);
    SubWordIs(AesTables.Sbox, r);
    RconIs(i);
    XorBytes(SubWord(AesTables.Sbox, r), AesSchedule.Rcon(i));
  }

  function WordsBytes(w: seq<bv32>): (r: seq<Bytes>)
    ensures |r| == |w|
  {
    seq(|w|, i requires 0 <= i < |w| => WordBytes(w[i]))
  }

  lemma MaskIs(nk: nat, i: nat, before: bv32)
    requires nk > 0 && (i % nk == 0 ==> 1 <= i / nk <= 10)
    ensures WordBytes(AesKeys.Mask(AesSchedule.OPS, nk, i, before)) == Fips197.Temp(nk, i, WordBytes(before))
  {
    if i % nk == 0 {
      TurnIs(before, i / nk);
    } else if nk > 6 && i % nk == 4 {
      SubWordIs(AesTables.Sbox, before);
    }
  }

  lemma ConstantsSuffice(nk: nat, i: nat)
    requires (nk == 4 || nk == 6 || nk == 8) && nk <= i < 4 * (nk + 7)
    ensures 1 <= i / nk <= 10
  {
  }

  lemma WordIs(nk: nat, w: seq<bv32>, i: nat)
    requires (nk == 4 || nk == 6 || nk == 8) && i < 4 * (nk + 7) && AesKeys.Expands(AesSchedule.OPS, nk, w, i)
    ensures WordBytes(w[i]) == Fips197.XorAll(Fips197.Temp(nk, i, WordBytes(w[i - 1])), WordBytes(w[i - nk]))
  {
    ConstantsSuffice(nk, i);
    MaskIs(nk, i, w[i - 1]);
    XorBytes(AesKeys.Mask(AesSchedule.OPS, nk, i, w[i - 1]), w[i - nk]);
  }

  /** The words made from a key are those of section 5.2 of FIPS 197. */
  lemma ExpansionIs(key: Bytes, w: seq<bv32>)
    requires |key| == 16 || |key| == 24 || |key| == 32
    requires AesKeys.IsExpansion(AesSchedule.OPS, AesSchedule.KeyWords(key), w) && |w| == 4 * (|key| / 4 + 7)
    ensures Fips197.IsKeyExpansion(key, WordsBytes(w))
  {
    var nk := |key| / 4;
    forall i | 0 <= i < nk ensures WordBytes(w[i]) == key[4 * i..4 * i + 4] {
      KeyWordIs(key, w, i);
    }
    forall i | nk <= i < |w|
      ensures WordBytes(w[i]) == Fips197.XorAll(Fips197.Temp(nk, i, WordBytes(w[i - 1])), WordBytes(w[i - nk]))
    {
      assert AesKeys.Expands(AesSchedule.OPS, nk, w, i);
      WordIs(nk, w, i);
    }
    FromWords(key, w);
  }

  lemma KeyWordIs(key: Bytes, w: seq<bv32>, i: nat)
    requires |key| % 4 == 0 && |key| / 4 <= |w| && w[..|key| / 4] == AesSchedule.KeyWords(key) && i < |key| / 4
    ensures WordBytes(w[i]) == key[4 * i..4 * i + 4]
  {
    assert w[i] == w[..|key| / 4][i];
    PackedWord(key[4 * i], key[4 * i + 1], key[4 * i + 2], key[4 * i + 3]);
  }

  lemma FromWords(key: Bytes, w: seq<bv32>)
    requires |key| % 4 == 0 && |key| > 0 && |w| == 4 * (|key| / 4 + 7)
    requires forall i :: 0 <= i < |key| / 4 ==> WordBytes(w[i]) == key[4 * i..4 * i + 4]
    requires forall i :: |key| / 4 <= i < |w| ==>
      WordBytes(w[i]) == Fips197.XorAll(Fips197.Temp(|key| / 4, i, WordBytes(w[i - 1])), WordBytes(w[i - |key| / 4]))
    ensures Fips197.IsKeyExpansion(key, WordsBytes(w))
  {
  }

  lemma RoundKeysAre(keys: seq<State>, w: seq<bv32>)
    requires |w| == 4 * |keys|
    requires forall i :: 0 <= i < |keys| ==> keys[i] == State(w[4 * i], w[4 * i + 1], w[4 * i + 2], w[4 * i + 3])
    ensures KeyBytes(keys) == Fips197.RoundKeys(WordsBytes(w))
  {
  }

  /** expand_key makes the key expansion of FIPS 197. */
  method KeysOf(key: Bytes) returns (keys: seq<State>, ghost w: seq<Bytes>)
    requires |key| == 16 || |key| == 24 || |key| == 32
    ensures IsSchedule(keys) && Fips197.IsKeyExpansion(key, w) && KeyBytes(keys) == Fips197.RoundKeys(w)
  {
    ghost var words;
    keys, words := AesSchedule.RoundKeys(key);
    w := WordsBytes(words);
    ExpansionIs(key, words);
    RoundKeysAre(keys, words);
  }

  /** encrypt_state is the cipher of FIPS 197. */
  method EncryptUnder(keys: seq<State>, block: Bytes) returns (r: Bytes)
    requires IsSchedule(keys) && IsBlock(block)
    ensures r == Fips197.Cipher(KeyBytes(keys), block)
  {
    r := EncryptState(Aes.AES, keys, block);
    EncryptIsCipher(keys, block);
  }

  /** A block encrypted under the bytes of a key, through expand_key and encrypt_state, is the cipher of FIPS 197 under
      that key's expansion. */
  method EncryptUnderKey(key: Bytes, block: Bytes) returns (r: Bytes, ghost w: seq<Bytes>)
    requires (|key| == 16 || |key| == 24 || |key| == 32) && IsBlock(block)
    ensures Fips197.IsKeyExpansion(key, w) && r == Fips197.Cipher(Fips197.RoundKeys(w), block)
  {
    var keys;
    keys, w := KeysOf(key);
    r := EncryptUnder(keys, block);
  }
}
