/** The canonical Huffman code of section 3.2.2 of RFC 1951, for code lengths up to 15.

    A decoder sees the next sixteen stream bits, first bit highest, as a number `k` below 2^16.  The
    symbols with code length `s` own the band of numbers from `Bound(s)` up to `Bound(s + 1)`. */
module HuffmanCode {
  import opened Bits

  const MAX_LENGTH := 15

  ghost predicate ValidLengths(ls: seq<nat>) {
    forall i :: 0 <= i < |ls| ==> ls[i] <= MAX_LENGTH
  }

  /** How many symbols have code length `l`. */
  function Count(ls: seq<nat>, l: nat): nat {
    if ls == [] then 0
    else Count(ls[..|ls| - 1], l) + if ls[|ls| - 1] == l then 1 else 0
  }

  /** How many earlier symbols have the code length of symbol `i`. */
  function Rank(ls: seq<nat>, i: nat): nat
    requires i < |ls|
  {
    Count(ls[..i], ls[i])
  }

  /** The smallest code of length `s`, as the RFC computes it from the counts. */
  function First(ls: seq<nat>, s: nat): nat {
    if s <= 1 then 0 else 2 * (First(ls, s - 1) + Count(ls, s - 1))
  }

  /** The code of symbol `i`. */
  function Code(ls: seq<nat>, i: nat): nat
    requires i < |ls|
  {
    First(ls, ls[i]) + Rank(ls, i)
  }

  /** How many symbols have a shorter code than `s`, and some code. */
  function FirstSymbol(ls: seq<nat>, s: nat): nat {
    if s <= 1 then 0 else FirstSymbol(ls, s - 1) + Count(ls, s - 1)
  }

  /** Where the band of length `s` begins: after the bands of all shorter lengths. */
  function Bound(ls: seq<nat>, s: nat): nat
    requires s <= 16
  {
    if s <= 1 then 0 else Bound(ls, s - 1) + Shl(Count(ls, s - 1), 17 - s)
  }

  /** The code of symbol `i` comes next in the bit stream `v`.  Stream bits are counted from the lowest
      bit of `v`; codes are packed most significant bit first. */
  predicate Matches(ls: seq<nat>, i: nat, v: nat)
    requires i < |ls|
  {
    ls[i] > 0 && v % Pow2(ls[i]) == Rev(ls[i], Code(ls, i))
  }

  /** Sixteen bits' worth of Kraft's sum: 2^(16 - length) over the coded symbols shorter than `s`. */
  function KraftBelow(ls: seq<nat>, s: nat): nat {
    if ls == [] then 0
    else KraftBelow(ls[..|ls| - 1], s) + Weight(ls[|ls| - 1], s)
  }

  /** The sum over all coded symbols. */
  function KraftSum(ls: seq<nat>): nat { KraftBelow(ls, MAX_LENGTH + 1) }

  function Weight(l: nat, below: nat): nat {
    if 1 <= l < below && l <= 16 then Shl(1, 16 - l) else 0
  }

  /** The codes of length `l` fit that length. */
  ghost predicate Fits(ls: seq<nat>, l: nat) {
    First(ls, l) + Count(ls, l) <= Pow2(l)
  }

  /** Every code fits its length. */
  ghost predicate Accepted(ls: seq<nat>) {
    forall l :: 1 <= l <= MAX_LENGTH ==> Fits(ls, l)
  }

  /** A band begins at the first code of its length. */
  lemma {:induction false} BoundIsFirst(ls: seq<nat>, s: nat)
    requires 1 <= s <= 16
    ensures Bound(ls, s) == Shl(First(ls, s), 16 - s)
  {
    if s == 1 {
      ShlZero(15);
    } else {
      BoundIsFirst(ls, s - 1);
      ShlSum(First(ls, s - 1), Count(ls, s - 1), 17 - s);
      ShlUnfold(First(ls, s - 1) + Count(ls, s - 1), 17 - s, First(ls, s), 16 - s);
    }
  }

  /** A band ends after the last code of its length. */
  lemma BoundEnd(ls: seq<nat>, s: nat)
    requires 1 <= s <= 15
    ensures Bound(ls, s) == Shl(First(ls, s), 16 - s)
    ensures Bound(ls, s + 1) == Shl(First(ls, s) + Count(ls, s), 16 - s)
  {
    BoundIsFirst(ls, s);
    ShlSum(First(ls, s), Count(ls, s), 16 - s);
  }

  lemma BoundMonotone(ls: seq<nat>, s: nat, t: nat)
    requires 1 <= s <= t <= 16
    ensures Bound(ls, s) <= Bound(ls, t)
  {
    if s < t {
      BoundMonotone(ls, s, t - 1);
    }
  }

  lemma {:induction false} KraftBelowStep(ls: seq<nat>, s: nat)
    requires 1 <= s <= 15
    ensures KraftBelow(ls, s + 1) == KraftBelow(ls, s) + Shl(Count(ls, s), 16 - s)
  {
    if ls == [] {
      ShlZero(16 - s);
    } else {
      var n := |ls| - 1;
      KraftBelowStep(ls[..n], s);
      ShlSum(Count(ls[..n], s), if ls[n] == s then 1 else 0, 16 - s);
      ShlZero(16 - s);
    }
  }

  lemma {:induction false} KraftBelowIsBound(ls: seq<nat>, s: nat)
    requires 1 <= s <= 16
    ensures KraftBelow(ls, s) == Bound(ls, s)
  {
    if s == 1 {
      KraftBelowOne(ls);
    } else {
      KraftBelowIsBound(ls, s - 1);
      KraftBelowStep(ls, s - 1);
    }
  }

  lemma {:induction false} KraftBelowOne(ls: seq<nat>)
    ensures KraftBelow(ls, 1) == 0
  {
    if ls != [] { KraftBelowOne(ls[..|ls| - 1]); }
  }

  /** Kraft's sum is the end of the last band. */
  lemma KraftIsBound(ls: seq<nat>)
    ensures KraftSum(ls) == Bound(ls, 16)
  {
    KraftBelowIsBound(ls, 16);
  }

  /** The codes of one length fit exactly when the band they end at lies within 2^16. */
  lemma FitsIffBound(ls: seq<nat>, l: nat)
    requires 1 <= l <= 15
    ensures Fits(ls, l) <==> Bound(ls, l + 1) <= 0x10000
  {
    BoundEnd(ls, l);
    FitsIffShiftFits(First(ls, l) + Count(ls, l), l);
  }

  /** Kraft's inequality: all codes fit exactly when the sum is at most one. */
  lemma AcceptedIffKraft(ls: seq<nat>)
    ensures Accepted(ls) <==> KraftSum(ls) <= 0x10000
  {
    KraftIsBound(ls);
    forall l | 1 <= l <= 15 ensures Fits(ls, l) <==> Bound(ls, l + 1) <= 0x10000 {
      FitsIffBound(ls, l);
    }
    assert Accepted(ls) ==> Fits(ls, 15);
    if KraftSum(ls) <= 0x10000 {
      forall l | 1 <= l <= 15 ensures Fits(ls, l) {
        BoundMonotone(ls, l + 1, 16);
      }
    }
  }

  lemma {:induction false} CountPrefix(ls: seq<nat>, i: nat, l: nat)
    requires i <= |ls|
    ensures Count(ls[..i], l) <= Count(ls, l)
    ensures i < |ls| && ls[i] == l ==> Count(ls[..i], l) < Count(ls, l)
  {
    if i == |ls| {
      assert ls[..i] == ls;
    } else {
      var shorter := ls[..|ls| - 1];
      assert shorter[..i] == ls[..i];
      CountPrefix(shorter, i, l);
    }
  }

  lemma {:induction false} RankIncreases(ls: seq<nat>, i: nat, j: nat)
    requires i < j < |ls| && ls[i] == ls[j]
    ensures Rank(ls, i) < Rank(ls, j)
  {
    assert ls[..j][..i] == ls[..i];
    CountPrefix(ls[..j], i, ls[i]);
  }

  /** Every rank below the count belongs to a symbol. */
  lemma {:induction false} SymbolOfRank(ls: seq<nat>, s: nat, r: nat) returns (i: nat)
    requires r < Count(ls, s)
    ensures i < |ls| && ls[i] == s && Rank(ls, i) == r
  {
    var n := |ls| - 1;
    if ls[n] == s && r == Count(ls[..n], s) {
      i := n;
    } else {
      i := SymbolOfRank(ls[..n], s, r);
      assert ls[..n][..i] == ls[..i];
    }
  }

  lemma CodeFits(ls: seq<nat>, i: nat)
    requires Accepted(ls) && i < |ls| && 1 <= ls[i] <= 15
    ensures First(ls, ls[i]) <= Code(ls, i) < First(ls, ls[i]) + Count(ls, ls[i])
    ensures Code(ls, i) < Pow2(ls[i])
  {
    CountPrefix(ls, i, ls[i]);
    assert Fits(ls, ls[i]);
  }

  /** A code is next in the stream exactly when it leads the sixteen reversed bits. */
  lemma MatchesIffLeads(ls: seq<nat>, i: nat, v: nat)
    requires Accepted(ls) && i < |ls| && 1 <= ls[i] <= 15
    ensures Matches(ls, i, v) <==> Shr(Rev(16, v), 16 - ls[i]) == Code(ls, i)
  {
    var s, c := ls[i], Code(ls, i);
    CodeFits(ls, i);
    RevPrefix(16, s, v);
    RevMod(s, v);
    RevInvolutive(s, v % Pow2(s));
    RevInvolutive(s, c);
  }

  /** A symbol's code leads `k` only inside the band of its length. */
  lemma LeadsInBand(ls: seq<nat>, i: nat, k: nat)
    requires Accepted(ls) && i < |ls| && 1 <= ls[i] <= 15
    requires Shr(k, 16 - ls[i]) == Code(ls, i)
    ensures Bound(ls, ls[i]) <= k < Bound(ls, ls[i] + 1)
  {
    var s := ls[i];
    assert First(ls, s) <= Shr(k, 16 - s) < First(ls, s) + Count(ls, s) by { CodeFits(ls, i); }
    ShrBetween(k, 16 - s, First(ls, s), First(ls, s) + Count(ls, s));
    BoundEnd(ls, s);
  }

  /** Inside a band, some symbol of that length leads. */
  lemma BandHasSymbol(ls: seq<nat>, s: nat, k: nat) returns (i: nat)
    requires 1 <= s <= 15 && Bound(ls, s) <= k < Bound(ls, s + 1)
    ensures i < |ls| && ls[i] == s && Shr(k, 16 - s) == Code(ls, i)
    ensures Rank(ls, i) == Shr(k, 16 - s) - First(ls, s)
  {
    BoundEnd(ls, s);
    ShrBetween(k, 16 - s, First(ls, s), First(ls, s) + Count(ls, s));
    i := SymbolOfRank(ls, s, Shr(k, 16 - s) - First(ls, s));
  }

  /** At most one code leads. */
  lemma LeadsUnique(ls: seq<nat>, i: nat, j: nat, k: nat)
    requires Accepted(ls) && i < |ls| && j < |ls| && 1 <= ls[i] <= 15 && 1 <= ls[j] <= 15
    requires Shr(k, 16 - ls[i]) == Code(ls, i) && Shr(k, 16 - ls[j]) == Code(ls, j)
    ensures i == j
  {
    LeadsInBand(ls, i, k);
    LeadsInBand(ls, j, k);
    if ls[i] < ls[j] { BoundMonotone(ls, ls[i] + 1, ls[j]); }
    if ls[j] < ls[i] { BoundMonotone(ls, ls[j] + 1, ls[i]); }
    if i < j { RankIncreases(ls, i, j); }
    if j < i { RankIncreases(ls, j, i); }
  }

  /** At most one symbol's code comes next in any stream. */
  lemma MatchUnique(ls: seq<nat>, i: nat, j: nat, v: nat)
    requires Accepted(ls) && ValidLengths(ls) && i < |ls| && j < |ls|
    requires Matches(ls, i, v) && Matches(ls, j, v)
    ensures i == j
  {
    MatchesIffLeads(ls, i, v);
    MatchesIffLeads(ls, j, v);
    LeadsUnique(ls, i, j, Rev(16, v));
  }

  /** No code is a prefix of another. */
  lemma PrefixFree(ls: seq<nat>, i: nat, j: nat)
    requires Accepted(ls) && i < |ls| && j < |ls| && i != j && 1 <= ls[i] <= ls[j] <= 15
    ensures Shr(Code(ls, j), ls[j] - ls[i]) != Code(ls, i)
  {
    var k := Shl(Code(ls, j), 16 - ls[j]);
    ShrShl(Code(ls, j), 16 - ls[j], ls[j] - ls[i]);
    ShrShl(Code(ls, j), 16 - ls[j], 0);
    if Shr(Code(ls, j), ls[j] - ls[i]) == Code(ls, i) {
      LeadsUnique(ls, i, j, k);
    }
  }

  /** A stream starts with no code exactly when its bits lie beyond the last band. */
  lemma NoMatchIffBeyond(ls: seq<nat>, v: nat)
    requires Accepted(ls) && ValidLengths(ls)
    ensures (exists i :: 0 <= i < |ls| && Matches(ls, i, v)) <==> Rev(16, v) < Bound(ls, 16)
  {
    var k := Rev(16, v);
    if i :| 0 <= i < |ls| && Matches(ls, i, v) {
      MatchesIffLeads(ls, i, v);
      LeadsInBand(ls, i, k);
      BoundMonotone(ls, ls[i] + 1, 16);
    }
    if k < Bound(ls, 16) {
      var s := BandOf(ls, k, 15);
      var i := BandHasSymbol(ls, s, k);
      MatchesIffLeads(ls, i, v);
    }
  }

  lemma {:induction false} BandOf(ls: seq<nat>, k: nat, t: nat) returns (s: nat)
    requires 1 <= t <= 15 && k < Bound(ls, t + 1)
    ensures 1 <= s <= t && Bound(ls, s) <= k < Bound(ls, s + 1)
  {
    if Bound(ls, t) <= k {
      s := t;
    } else {
      s := BandOf(ls, k, t - 1);
    }
  }
}
