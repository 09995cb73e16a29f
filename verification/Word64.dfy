/** Unsigned words, written as numbers, and the bit operations bit_array.h performs on them. */
module Word64 {
  import opened Bits

  /** ~0ULL. */
  const FULL: nat := 0xFFFF_FFFF_FFFF_FFFF

  type Word = w: nat | w <= FULL

  /** Binary digit `i` of a number. */
  predicate Bit(w: nat, i: nat)
    decreases i
  {
    if i == 0 then w % 2 == 1 else Bit(w / 2, i - 1)
  }

  function And(a: nat, b: nat): (r: nat)
    ensures r <= a && r <= b
  {
    if a == 0 || b == 0 then 0
    else 2 * And(a / 2, b / 2) + (if a % 2 == 1 && b % 2 == 1 then 1 else 0)
  }

  /** ~w. */
  function Not(w: Word): Word { FULL - w }

  /** (1 << k) - 1. */
  function LowMask(k: nat): nat { Pow2(k) - 1 }

  /** w << 1, dropping what does not fit in n bits. */
  function Double(n: nat, w: nat): nat {
    if 2 * w >= Pow2(n) then 2 * w - Pow2(n) else 2 * w
  }

  /** w << k in n bits. */
  function ShiftUp(n: nat, w: nat, k: nat): nat
    decreases k
  {
    if k == 0 then w else Double(n, ShiftUp(n, w, k - 1))
  }

  lemma {:induction false} ZeroBits(i: nat)
    ensures !Bit(0, i)
  {
    if i > 0 { ZeroBits(i - 1); }
  }

  lemma {:induction false} DigitAnd(a: nat, b: nat, i: nat)
    ensures Bit(And(a, b), i) <==> Bit(a, i) && Bit(b, i)
    decreases i
  {
    if a == 0 || b == 0 {
      ZeroBits(i);
    } else if i > 0 {
      DigitAnd(a / 2, b / 2, i - 1);
      assert And(a, b) / 2 == And(a / 2, b / 2);
    }
  }

  lemma {:induction false} DigitOr(a: nat, b: nat, i: nat)
    ensures Bit(BitOr(a, b), i) <==> Bit(a, i) || Bit(b, i)
    decreases i
  {
    if a == 0 && b == 0 {
      ZeroBits(i);
    } else {
      OrParts(a, b);
      BitParts(BitOr(a, b), i);
      BitParts(a, i);
      BitParts(b, i);
      if i > 0 { DigitOr(a / 2, b / 2, i - 1); }
    }
  }

  lemma BitParts(w: nat, i: nat)
    ensures if i == 0 then Bit(w, i) <==> w % 2 == 1 else Bit(w, i) <==> Bit(w / 2, i - 1)
  {
  }

  lemma OrParts(a: nat, b: nat)
    ensures BitOr(a, b) / 2 == BitOr(a / 2, b / 2)
    ensures BitOr(a, b) % 2 == 1 <==> a % 2 == 1 || b % 2 == 1
  {
    if a != 0 || b != 0 {
      var low := if a % 2 == 1 || b % 2 == 1 then 1 else 0;
      assert BitOr(a, b) == low + 2 * BitOr(a / 2, b / 2);
    }
  }

  lemma {:induction false} OrBound(a: nat, b: nat, n: nat)
    requires a < Pow2(n) && b < Pow2(n)
    ensures BitOr(a, b) < Pow2(n)
    decreases n
  {
    if a != 0 || b != 0 {
      OrBound(a / 2, b / 2, n - 1);
    }
  }

  lemma {:induction false} BitComplement(n: nat, w: nat, i: nat)
    requires w < Pow2(n) && i < n
    ensures Bit(Pow2(n) - 1 - w, i) <==> !Bit(w, i)
    decreases i
  {
    if i > 0 {
      BitComplement(n - 1, w / 2, i - 1);
      assert (Pow2(n) - 1 - w) / 2 == Pow2(n - 1) - 1 - w / 2;
    }
  }

  lemma {:induction false} BitLowMask(k: nat, i: nat)
    ensures Bit(LowMask(k), i) <==> i < k
  {
    if k == 0 {
      ZeroBits(i);
    } else if i > 0 {
      BitLowMask(k - 1, i - 1);
      assert LowMask(k) / 2 == LowMask(k - 1);
    }
  }

  lemma {:induction false} BitPow2(k: nat, i: nat)
    ensures Bit(Pow2(k), i) <==> i == k
  {
    if k == 0 {
      if i > 0 { ZeroBits(i - 1); }
    } else if i > 0 {
      BitPow2(k - 1, i - 1);
    }
  }

  lemma {:induction false} BitShr(w: nat, k: nat, i: nat)
    ensures Bit(Shr(w, k), i) <==> Bit(w, i + k)
    decreases k
  {
    if k > 0 { BitShr(w / 2, k - 1, i); }
  }

  /** Taking off the highest digit leaves the others. */
  lemma {:induction false} BitBelowTop(w: nat, m: nat, i: nat)
    requires w >= Pow2(m) && i < m
    ensures Bit(w - Pow2(m), i) <==> Bit(w, i)
    decreases i
  {
    if i > 0 {
      BitBelowTop(w / 2, m - 1, i - 1);
      assert (w - Pow2(m)) / 2 == w / 2 - Pow2(m - 1);
    }
  }

  lemma BitDouble(n: nat, w: nat, i: nat)
    requires i < n
    ensures Bit(Double(n, w), i) <==> i > 0 && Bit(w, i - 1)
  {
    assert Pow2(n) == 2 * Pow2(n - 1);
    if i > 0 && 2 * w >= Pow2(n) {
      BitBelowTop(w, n - 1, i - 1);
    }
  }

  lemma {:induction false} BitShiftUp(n: nat, w: nat, k: nat, i: nat)
    requires i < n
    ensures Bit(ShiftUp(n, w, k), i) <==> i >= k && Bit(w, i - k)
    decreases k
  {
    if k > 0 {
      BitDouble(n, ShiftUp(n, w, k - 1), i);
      if i > 0 { BitShiftUp(n, w, k - 1, i - 1); }
    }
  }

  lemma {:induction false} NoBits(n: nat, w: nat)
    requires w < Pow2(n) && forall i: nat :: i < n ==> !Bit(w, i)
    ensures w == 0
  {
    if n > 0 {
      forall i: nat | i < n - 1 ensures !Bit(w / 2, i) {
        assert !Bit(w, i + 1);
      }
      NoBits(n - 1, w / 2);
      assert !Bit(w, 0);
    }
  }

  lemma {:induction false} BeyondBits(n: nat, w: nat, i: nat)
    requires w < Pow2(n) && i >= n
    ensures !Bit(w, i)
  {
    if n == 0 {
      ZeroBits(i);
    } else {
      BeyondBits(n - 1, w / 2, i - 1);
    }
  }

  // The width of the source's words.

  /** The bits of a word and of its complement, up to the width and beyond it. */
  lemma BitNot(w: Word, i: nat)
    requires i < 64
    ensures Bit(Not(w), i) <==> !Bit(w, i)
  {
    var n := 64;
    Pow2Of64(n);
    BitComplement(n, w, i);
  }

  lemma BitFull(i: nat)
    requires i < 64
    ensures Bit(FULL, i) && !Bit(0, i)
  {
    ZeroBits(i);
    BitNot(0, i);
  }

  lemma BitBeyond(w: Word, i: nat)
    requires i >= 64
    ensures !Bit(w, i)
  {
    var n := 64;
    Pow2Of64(n);
    BeyondBits(n, w, i);
  }

  lemma OrWord(a: Word, b: Word)
    ensures BitOr(a, b) <= FULL
  {
    var n := 64;
    Pow2Of64(n);
    OrBound(a, b, n);
  }

  lemma MaskWord(k: nat)
    requires k < 64
    ensures Pow2(k) <= FULL && LowMask(k) <= FULL
  {
    var n := 64;
    Pow2Of64(n);
    Pow2Monotone(k + 1, n);
  }

  ghost predicate NoneSet(w: nat) { forall i: nat :: i < 64 ==> !Bit(w, i) }

  ghost predicate AllSet(w: nat) { forall i: nat :: i < 64 ==> Bit(w, i) }

  lemma IsZero(w: Word)
    ensures w == 0 <==> NoneSet(w)
  {
    if w == 0 {
      forall i: nat | i < 64 ensures !Bit(w, i) {
        ZeroBits(i);
      }
    } else if NoneSet(w) {
      var n := 64;
      Pow2Of64(n);
      NoBits(n, w);
    }
  }

  lemma IsFull(w: Word)
    ensures w == FULL <==> AllSet(w)
  {
    forall i: nat | i < 64 ensures Bit(Not(w), i) <==> !Bit(w, i) {
      BitNot(w, i);
    }
    IsZero(Not(w));
    if w == FULL {
      forall i: nat | i < 64 ensures Bit(w, i) {
        assert !Bit(Not(w), i);
      }
    }
  }
}
