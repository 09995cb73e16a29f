/** Big-endian numbers in bytes, and the 128-bit counter of CTR mode. */
module Counter {
  import opened CipherModes
  import Bits

  function Pow256(n: nat): (r: nat)
    ensures r > 0
  {
    if n == 0 then 1 else 256 * Pow256(n - 1)
  }

  const WORD32 := 0x1_0000_0000

  const WORD128 := 0x1_00000000_00000000_00000000_00000000

  lemma Pow256Of16()
    ensures Pow256(16) == WORD128
  {
    assert Pow256(4) == 0x1_0000_0000;
    Pow256Add(4, 4);
    Pow256Add(8, 8);
  }

  lemma Pow256Of4(k: nat)
    requires k == 4
    ensures Pow256(k) == WORD32
  {
    assert Pow256(1) == 256;
    Pow256Add(1, 1);
    Pow256Add(k - 2, k - 2);
  }

  lemma {:induction false} Pow256Add(m: nat, n: nat)
    ensures Pow256(m + n) == Pow256(m) * Pow256(n)
  {
    if m > 0 {
      Pow256Add(m - 1, n);
      Bits.MulAssociates(256, Pow256(m - 1), Pow256(n));
    }
  }

  /** The number whose big-endian bytes are `b`. */
  function Value(b: Bytes): nat {
    if b == [] then 0 else 256 * Value(b[..|b| - 1]) + b[|b| - 1]
  }

  /** The last `k` big-endian bytes of a number. */
  function ToBytes(n: nat, k: nat): (b: Bytes)
    ensures |b| == k
  {
    if k == 0 then [] else ToBytes(n / 256, k - 1) + [n % 256]
  }

  lemma {:induction false} ValueBound(b: Bytes)
    ensures Value(b) < Pow256(|b|)
  {
    if b != [] { ValueBound(b[..|b| - 1]); }
  }

  lemma {:induction false} ValueOfBytes(n: nat, k: nat)
    requires n < Pow256(k)
    ensures Value(ToBytes(n, k)) == n
  {
    if k > 0 {
      assert ToBytes(n, k)[..k - 1] == ToBytes(n / 256, k - 1);
      ValueOfBytes(n / 256, k - 1);
    }
  }

  lemma {:induction false} BytesOfValue(b: Bytes)
    ensures ToBytes(Value(b), |b|) == b
  {
    if b != [] {
      BytesOfValue(b[..|b| - 1]);
      assert b == b[..|b| - 1] + [b[|b| - 1]];
    }
  }

  /** Changing one byte changes the value by as much, at that byte's weight. */
  lemma {:induction false} ValueUpdate(b: Bytes, i: nat, y: Byte)
    requires i < |b|
    ensures Value(b[i := y]) == Value(b) + (y - b[i]) * Pow256(|b| - 1 - i)
  {
    var n := |b| - 1;
    if i == n {
      assert b[i := y][..n] == b[..n];
    } else {
      assert b[i := y][..n] == b[..n][i := y];
      ValueUpdate(b[..n], i, y);
      var d, p := y - b[i], Pow256(n - 1 - i);
      assert 256 * (d * p) == d * (256 * p);
    }
  }

  /** One step of the carry: byte plus carry, split at 256. */
  lemma CarryStep(x: int, carry: int, low: int, high: int, p: int)
    requires x + carry == 256 * high + low
    ensures (low - x) * p + high * (256 * p) == carry * p
  {
    Bits.MulSum(low - x, 256 * high, p);
    assert high * (256 * p) == (256 * high) * p;
  }

  /** Adding a carry at byte `i` and carrying on what does not fit keeps the sum. */
  lemma CarryOn(b: Bytes, i: nat, carry: nat, low: Byte, high: nat)
    requires i < |b| && b[i] + carry == 256 * high + low
    ensures Value(b[i := low]) + high * Pow256(|b| - i) == Value(b) + carry * Pow256(|b| - 1 - i)
  {
    ValueUpdate(b, i, low);
    CarryStep(b[i], carry, low, high, Pow256(|b| - 1 - i));
  }

  /** incr_counter: adds one to the 128-bit number, modulo 2^128. */
  method IncrCounter(counter: array<Byte>)
    requires counter.Length == 16
    modifies counter
    ensures Value(counter[..]) == (Value(old(counter[..])) + 1) % WORD128
  {
    var n, carry := 16, 1;
    while n > 0
      invariant 0 <= n <= 16 && 0 <= carry <= 1
      invariant Value(counter[..]) + carry * Pow256(16 - n) == Value(old(counter[..])) + 1
    {
      n := n - 1;
      carry := AddCarry(counter, n, carry);
    }
    ValueBound(counter[..]);
    Pow256Of16();
  }

  /** Adds a carry to byte `n` and returns the carry out of it. */
  method AddCarry(counter: array<Byte>, n: nat, carry: nat) returns (out: nat)
    requires n < counter.Length && carry <= 1
    modifies counter
    ensures out <= 1
    ensures Value(counter[..]) + out * Pow256(counter.Length - n) ==
      Value(old(counter[..])) + carry * Pow256(counter.Length - 1 - n)
  {
    var sum := carry + counter[n];
    ghost var was := counter[..];
    var low: Byte := sum % 256;
    CarryOn(was, n, carry, low, sum / 256);
    counter[n] := low;
    assert counter[..] == was[n := low];
    out := sum / 256;
  }

  /** The counter block for block `i`: nonce plus `i`, modulo 2^128. */
  function CounterBlock(nonce: Bytes, i: nat): (b: Bytes)
    ensures |b| == |nonce|
  {
    ToBytes((Value(nonce) + i) % WORD128, |nonce|)
  }

  lemma NextCounter(nonce: Bytes, i: nat, b: Bytes)
    requires |nonce| == |b| == 16 && Value(b) == (Value(CounterBlock(nonce, i)) + 1) % WORD128
    ensures b == CounterBlock(nonce, i + 1)
  {
    CounterValue(nonce, i);
    CounterValue(nonce, i + 1);
    ModNext(Value(nonce) + i);
    SameValue(b, CounterBlock(nonce, i + 1));
  }

  lemma ModNext(a: nat)
    ensures (a % WORD128 + 1) % WORD128 == (a + 1) % WORD128
  {
  }

  /** Equally many bytes with the same value are the same bytes. */
  lemma SameValue(a: Bytes, b: Bytes)
    requires |a| == |b| && Value(a) == Value(b)
    ensures a == b
  {
    BytesOfValue(a);
    BytesOfValue(b);
  }

  lemma CounterValue(nonce: Bytes, i: nat)
    requires |nonce| == 16
    ensures Value(CounterBlock(nonce, i)) == (Value(nonce) + i) % WORD128
  {
    Pow256Of16();
    ValueOfBytes((Value(nonce) + i) % WORD128, |nonce|);
  }

  lemma FirstCounter(nonce: Bytes)
    requires |nonce| == 16
    ensures CounterBlock(nonce, 0) == nonce
  {
    Pow256Of16();
    ValueBound(nonce);
    CounterValue(nonce, 0);
    SameValue(nonce, CounterBlock(nonce, 0));
  }
}
