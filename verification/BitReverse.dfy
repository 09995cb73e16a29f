/** stb's 16-bit reversal by masking and shifting is bit reversal. */
module BitReverse {
  import opened Bits

  /** Swaps neighbouring bits, then pairs, nibbles and bytes. */
  function SwapBits(n: bv16): bv16 {
    var n := ((n & 0xAAAA) >> 1) | ((n & 0x5555) << 1);
    var n := ((n & 0xCCCC) >> 2) | ((n & 0x3333) << 2);
    var n := ((n & 0xF0F0) >> 4) | ((n & 0x0F0F) << 4);
    ((n & 0xFF00) >> 8) | ((n & 0x00FF) << 8)
  }

  /** A number below sixteen as the low four bits of a machine word, and back. */
  function Nibble(n: nat): bv16
    requires n < 16
  {
    match n
    case 0 => 0 case 1 => 1 case 2 => 2 case 3 => 3
    case 4 => 4 case 5 => 5 case 6 => 6 case 7 => 7
    case 8 => 8 case 9 => 9 case 10 => 10 case 11 => 11
    case 12 => 12 case 13 => 13 case 14 => 14 case 15 => 15
  }

  function FromNibble(w: bv16): nat {
    (if w & 1 != 0 then 1 else 0) + (if w & 2 != 0 then 2 else 0) +
    (if w & 4 != 0 then 4 else 0) + (if w & 8 != 0 then 8 else 0)
  }

  /** The low sixteen bits of a number as a machine word. */
  function ToWord(v: nat): bv16 {
    Join(Nibble(v % 16), Nibble(v / 0x10 % 16), Nibble(v / 0x100 % 16), Nibble(v / 0x1000 % 16))
  }

  function Join(a: bv16, b: bv16, c: bv16, d: bv16): bv16 {
    a | (b << 4) | (c << 8) | (d << 12)
  }

  /** The number a machine word stands for. */
  function FromWord(w: bv16): nat {
    FromNibble(w & 0xF) + 0x10 * FromNibble((w >> 4) & 0xF) +
    0x100 * FromNibble((w >> 8) & 0xF) + 0x1000 * FromNibble(w >> 12)
  }

  function SwapNibble(w: bv16): bv16 {
    ((w & 1) << 3) | ((w & 2) << 1) | ((w & 4) >> 1) | ((w & 8) >> 3)
  }

  lemma SwapJoined(a: bv16, b: bv16, c: bv16, d: bv16)
    requires a & 0xF == a && b & 0xF == b && c & 0xF == c && d & 0xF == d
    ensures SwapBits(Join(a, b, c, d)) == Join(SwapNibble(d), SwapNibble(c), SwapNibble(b), SwapNibble(a))
  {
  }

  lemma FromJoined(a: bv16, b: bv16, c: bv16, d: bv16)
    requires a & 0xF == a && b & 0xF == b && c & 0xF == c && d & 0xF == d
    ensures FromWord(Join(a, b, c, d)) ==
            FromNibble(a) + 0x10 * FromNibble(b) + 0x100 * FromNibble(c) + 0x1000 * FromNibble(d)
  {
    var w := Join(a, b, c, d);
    assert w & 0xF == a && (w >> 4) & 0xF == b && (w >> 8) & 0xF == c && w >> 12 == d;
  }

  lemma NibbleSmall(n: nat)
    requires n < 16
    ensures Nibble(n) & 0xF == Nibble(n)
  {
  }

  lemma NibbleReversed(n: nat)
    requires n < 16
    ensures FromNibble(SwapNibble(Nibble(n))) == Rev(4, n)
  {
    Rev4(n);
    NibbleDigits(n);
  }

  lemma NibbleDigits(n: nat)
    requires n < 16
    ensures FromNibble(SwapNibble(Nibble(n))) == 8 * (n % 2) + 4 * (n / 2 % 2) + 2 * (n / 4 % 2) + n / 8
  {
    match n
    case 0 => case 1 => case 2 => case 3 =>
    case 4 => case 5 => case 6 => case 7 =>
    case 8 => case 9 => case 10 => case 11 =>
    case 12 => case 13 => case 14 => case 15 =>
  }

  lemma Rev2(v: nat)
    ensures Rev(2, v) == 2 * (v % 2) + v / 2 % 2
  {
    assert Rev(1, v / 2) == v / 2 % 2;
    assert Pow2(1) == 2;
  }

  lemma Rev3(v: nat)
    ensures Rev(3, v) == 4 * (v % 2) + 2 * (v / 2 % 2) + v / 4 % 2
  {
    Rev2(v / 2);
    assert Pow2(2) == 4;
    assert v / 2 / 2 == v / 4;
  }

  lemma Rev4(n: nat)
    requires n < 16
    ensures Rev(4, n) == 8 * (n % 2) + 4 * (n / 2 % 2) + 2 * (n / 4 % 2) + n / 8
  {
    Rev3(n / 2);
    assert Pow2(3) == 8;
    assert n / 2 / 2 == n / 4 && n / 2 / 4 == n / 8;
  }

  /** Reversal of `m + n` bits, low bits first. */
  lemma {:induction false} RevSplit(m: nat, n: nat, v: nat)
    ensures Rev(m + n, v) == Shl(Rev(m, v), n) + Rev(n, Shr(v, m))
  {
    if m == 0 {
      ShlZero(n);
    } else {
      RevSplit(m - 1, n, v / 2);
      ShlIsMul(Rev(m, v), n);
      ShlIsMul(Rev(m - 1, v / 2), n);
      Pow2Add(m - 1, n);
      Regroup(v % 2, Pow2(m - 1), Pow2(n), Rev(m - 1, v / 2));
    }
  }

  lemma Regroup(b: nat, p: nat, q: nat, r: nat)
    ensures b * (p * q) + r * q == (b * p + r) * q
  {
    MulSum(b * p, r, q);
    MulAssociates(b, p, q);
  }

  lemma RevFour(n: nat, v: nat, p: nat)
    requires p == Pow2(n)
    ensures Rev(4 + n, v) == Rev(4, v % 16) * p + Rev(n, v / 16)
  {
    assert Pow2(4) == 16;
    RevSplit(4, n, v);
    ShlIsMul(Rev(4, v), n);
    ShrIsDiv(v, 4);
    RevMod(4, v);
  }

  lemma RevByNibbles(v: nat)
    ensures Rev(16, v) == Rev(4, v / 0x1000 % 16) + 0x10 * Rev(4, v / 0x100 % 16)
                        + 0x100 * Rev(4, v / 0x10 % 16) + 0x1000 * Rev(4, v % 16)
  {
    NibblePowers();
    var v1, v2, v3 := v / 0x10, v / 0x100, v / 0x1000;
    assert Rev(16, v) == Rev(4, v % 16) * 0x1000 + Rev(12, v1) by { RevFour(12, v, 0x1000); }
    assert Rev(12, v1) == Rev(4, v1 % 16) * 0x100 + Rev(8, v2) by { RevFour(8, v1, 0x100); DivDiv(v, 16, 16); }
    assert Rev(8, v2) == Rev(4, v2 % 16) * 0x10 + Rev(4, v3) by { RevFour(4, v2, 0x10); DivDiv(v, 256, 16); }
    assert Rev(4, v3) == Rev(4, v3 % 16) by { RevMod(4, v3); }
  }

  lemma NibblePowers()
    ensures Pow2(4) == 0x10 && Pow2(8) == 0x100 && Pow2(12) == 0x1000
  {
    assert Pow2(4) == 0x10;
    Pow2Add(4, 4);
    Pow2Add(8, 4);
  }

  /** Reversing the word joined from four nibbles. */
  lemma ReverseJoined(a: bv16, b: bv16, c: bv16, d: bv16)
    requires a & 0xF == a && b & 0xF == b && c & 0xF == c && d & 0xF == d
    ensures FromWord(SwapBits(Join(a, b, c, d))) ==
            FromNibble(SwapNibble(d)) + 0x10 * FromNibble(SwapNibble(c)) +
            0x100 * FromNibble(SwapNibble(b)) + 0x1000 * FromNibble(SwapNibble(a))
  {
    SwapJoined(a, b, c, d);
    FromJoined(SwapNibble(d), SwapNibble(c), SwapNibble(b), SwapNibble(a));
  }

  /** stbi__bitreverse16 of the low sixteen bits. */
  method Reverse16(v: nat) returns (r: nat)
    ensures r == Rev(16, v) && r < 0x10000
  {
    Pow2Of16();
    r := FromWord(SwapBits(ToWord(v)));
    var a, b, c, d := v % 16, v / 0x10 % 16, v / 0x100 % 16, v / 0x1000 % 16;
    NibbleSmall(a);
    NibbleSmall(b);
    NibbleSmall(c);
    NibbleSmall(d);
    ReverseJoined(Nibble(a), Nibble(b), Nibble(c), Nibble(d));
    NibbleReversed(a);
    NibbleReversed(b);
    NibbleReversed(c);
    NibbleReversed(d);
    RevByNibbles(v);
  }

  /** stbi__bit_reverse: reversing sixteen bits and shifting reverses fewer. */
  method Reverse(v: nat, bits: nat) returns (r: nat)
    requires bits <= 16
    ensures r == Rev(bits, v)
    ensures bits == 16 ==> r < 0x10000
  {
    var n := Reverse16(v);
    r := Shr(n, 16 - bits);
    RevPrefix(16, bits, v);
  }
}
