/** stbi__zbuild_huffman: decoding tables from a list of code lengths. */
module HuffmanTables {
  import opened Bits
  import opened HuffmanCode
  import BitReverse

  const FAST_BITS := 9
  const FAST_SIZE := 512
  const SYMBOLS := 288

  datatype Tables = Tables(fast: seq<nat>, firstcode: seq<nat>, maxcode: seq<nat>, firstsymbol: seq<nat>,
                           size: seq<nat>, value: seq<nat>)

  /** The slot of symbol `i` in the list of symbols sorted by length and then by number. */
  function Slot(ls: seq<nat>, i: nat): nat
    requires i < |ls|
  {
    FirstSymbol(ls, ls[i]) + Rank(ls, i)
  }

  ghost predicate Short(ls: seq<nat>, i: nat) {
    i < |ls| && 1 <= ls[i] <= FAST_BITS
  }

  /** The fast table answers exactly for the symbols below `n` whose code has at most nine bits. */
  ghost predicate FastFor(ls: seq<nat>, n: nat, fast: seq<nat>) {
    && |fast| == FAST_SIZE && n <= |ls|
    && (forall i, k :: 0 <= i < n && Short(ls, i) && 0 <= k < FAST_SIZE && Matches(ls, i, k) ==>
          fast[k] == ls[i] * 512 + i)
    && (forall k :: 0 <= k < FAST_SIZE && fast[k] != 0 ==> exists i :: 0 <= i < n && Short(ls, i) && Matches(ls, i, k))
  }

  ghost predicate SlotsFor(ls: seq<nat>, n: nat, size: seq<nat>, value: seq<nat>) {
    && |size| == |value| == SYMBOLS && n <= |ls|
    && forall i :: 0 <= i < n && ls[i] > 0 ==>
         Slot(ls, i) < SYMBOLS && size[Slot(ls, i)] == ls[i] && value[Slot(ls, i)] == i
  }

  /** What the tables hold for code length `s`. */
  ghost predicate Entry(ls: seq<nat>, s: nat, firstcode: nat, maxcode: nat, firstsymbol: nat) {
    s <= 15 && firstcode == First(ls, s) && firstsymbol == FirstSymbol(ls, s) && maxcode == Bound(ls, s + 1)
  }

  ghost predicate FirstsFor(ls: seq<nat>, firstcode: seq<nat>, maxcode: seq<nat>, firstsymbol: seq<nat>) {
    && |firstcode| == |firstsymbol| == 16 && |maxcode| == 17
    && (forall s :: 1 <= s <= 15 ==> Entry(ls, s, firstcode[s], maxcode[s], firstsymbol[s]))
    && maxcode[16] == 0x10000
  }

  /** The tables describe the code of `ls`. */
  ghost predicate Built(ls: seq<nat>, t: Tables) {
    && ValidLengths(ls) && Accepted(ls) && |ls| <= SYMBOLS
    && FirstsFor(ls, t.firstcode, t.maxcode, t.firstsymbol)
    && FastFor(ls, |ls|, t.fast)
    && SlotsFor(ls, |ls|, t.size, t.value)
  }

  lemma {:induction false} FirstSymbolBound(ls: seq<nat>, s: nat)
    ensures FirstSymbol(ls, s) <= |ls|
    decreases |ls|
  {
    if ls == [] {
      NoSymbols(s);
    } else {
      var n := |ls| - 1;
      FirstSymbolBound(ls[..n], s);
      FirstSymbolLast(ls, s);
    }
  }

  lemma {:induction false} NoSymbols(s: nat)
    ensures FirstSymbol([], s) == 0
  {
    if s > 1 { NoSymbols(s - 1); }
  }

  lemma {:induction false} FirstSymbolLast(ls: seq<nat>, s: nat)
    requires ls != []
    ensures FirstSymbol(ls, s) == FirstSymbol(ls[..|ls| - 1], s) + if 1 <= ls[|ls| - 1] < s then 1 else 0
  {
    if s > 1 { FirstSymbolLast(ls, s - 1); }
  }

  lemma FirstSymbolMonotone(ls: seq<nat>, s: nat, t: nat)
    requires s <= t
    ensures FirstSymbol(ls, s) <= FirstSymbol(ls, t)
  {
    if s < t { FirstSymbolMonotone(ls, s, t - 1); }
  }

  lemma SlotInRange(ls: seq<nat>, i: nat)
    requires i < |ls| && ls[i] > 0
    ensures FirstSymbol(ls, ls[i]) <= Slot(ls, i) < FirstSymbol(ls, ls[i] + 1) <= |ls|
  {
    CountPrefix(ls, i, ls[i]);
    FirstSymbolBound(ls, ls[i] + 1);
  }

  /** Different symbols have different slots. */
  lemma SlotsDiffer(ls: seq<nat>, i: nat, j: nat)
    requires i < j < |ls| && ls[i] > 0 && ls[j] > 0
    ensures Slot(ls, i) != Slot(ls, j)
  {
    SlotInRange(ls, i);
    SlotInRange(ls, j);
    if ls[i] < ls[j] { FirstSymbolMonotone(ls, ls[i] + 1, ls[j]); }
    if ls[j] < ls[i] { FirstSymbolMonotone(ls, ls[j] + 1, ls[i]); }
    if ls[i] == ls[j] { RankIncreases(ls, i, j); }
  }

  method CountLengths(ls: seq<nat>) returns (sizes: seq<nat>)
    requires ValidLengths(ls)
    ensures |sizes| == 17
    ensures forall l :: 1 <= l <= 16 ==> sizes[l] == Count(ls, l)
  {
    sizes := seq(17, _ => 0);
    for i := 0 to |ls|
      invariant |sizes| == 17
      invariant forall l :: 0 <= l <= 16 ==> sizes[l] == Count(ls[..i], l)
    {
      assert ls[..i + 1][..i] == ls[..i];
      sizes := sizes[ls[i] := sizes[ls[i]] + 1];
    }
    assert ls[..|ls|] == ls;
    sizes := sizes[0 := 0];
  }

  /** The first code, the first slot and the end of the band of every length; fails exactly when some
      codes do not fit their length. */
  method FirstCodes(ls: seq<nat>, sizes: seq<nat>)
    returns (ok: bool, firstcode: seq<nat>, maxcode: seq<nat>, firstsymbol: seq<nat>)
    requires |sizes| == 17 && forall l :: 1 <= l <= 16 ==> sizes[l] == Count(ls, l)
    ensures ok <==> Accepted(ls)
    ensures ok ==> FirstsFor(ls, firstcode, maxcode, firstsymbol)
  {
    firstcode, maxcode, firstsymbol := seq(16, _ => 0), seq(17, _ => 0), seq(16, _ => 0);
    ok := SizesPossible(ls, sizes);
    if !ok {
      return;
    }
    var code, k := 0, 0;
    for i := 1 to 16
      invariant code == First(ls, i) <= Pow2(i) && k == FirstSymbol(ls, i)
      invariant Filled(ls, i, firstcode, maxcode, firstsymbol)
    {
      ok, code, k, firstcode, maxcode, firstsymbol :=
        EnterLength(ls, i, sizes[i], code, k, firstcode, maxcode, firstsymbol);
      if !ok {
        return;
      }
    }
    maxcode := maxcode[16 := 0x10000];
  }

  /** The loop's body: the entries of one length, unless its codes do not fit. */
  method EnterLength(ghost ls: seq<nat>, i: nat, size: nat, code: nat, k: nat,
                     firstcode: seq<nat>, maxcode: seq<nat>, firstsymbol: seq<nat>)
    returns (ok: bool, code': nat, k': nat, firstcode': seq<nat>, maxcode': seq<nat>, firstsymbol': seq<nat>)
    requires 1 <= i <= 15 && size == Count(ls, i) && code == First(ls, i) <= Pow2(i) && k == FirstSymbol(ls, i)
    requires Filled(ls, i, firstcode, maxcode, firstsymbol)
    ensures ok <==> Fits(ls, i)
    ensures ok ==> code' == First(ls, i + 1) <= Pow2(i + 1) && k' == FirstSymbol(ls, i + 1)
    ensures ok ==> Filled(ls, i + 1, firstcode', maxcode', firstsymbol')
  {
    code', k', firstcode', maxcode', firstsymbol' := code, k, firstcode, maxcode, firstsymbol;
    FitsTest(ls, i, code, size);
    ok := !(size != 0 && code + size - 1 >= Pow2(i));
    if ok {
      FilledNext(ls, i, code, size, k, firstcode, maxcode, firstsymbol);
      firstcode' := firstcode[i := code];
      firstsymbol' := firstsymbol[i := k];
      maxcode' := maxcode[i := Shl(code + size, 16 - i)];
      code' := 2 * (code + size);
      k' := k + size;
    }
  }

  /** The lengths below `i` fit, and their entries are made. */
  ghost predicate Filled(ls: seq<nat>, i: nat, firstcode: seq<nat>, maxcode: seq<nat>, firstsymbol: seq<nat>) {
    && |firstcode| == |firstsymbol| == 16 && |maxcode| == 17 && i <= 16
    && (forall l :: 1 <= l < i ==> Fits(ls, l))
    && (forall l :: 1 <= l < i ==> Entry(ls, l, firstcode[l], maxcode[l], firstsymbol[l]))
  }

  lemma FilledNext(ls: seq<nat>, i: nat, code: nat, size: nat, k: nat,
                   firstcode: seq<nat>, maxcode: seq<nat>, firstsymbol: seq<nat>)
    requires 1 <= i <= 15 && Filled(ls, i, firstcode, maxcode, firstsymbol) && Fits(ls, i)
    requires code == First(ls, i) && size == Count(ls, i) && k == FirstSymbol(ls, i)
    ensures Filled(ls, i + 1, firstcode[i := code], maxcode[i := Shl(code + size, 16 - i)], firstsymbol[i := k])
  {
    EntryMade(ls, i, code, Shl(code + size, 16 - i), k);
  }

  /** The test on the last code of a length decides whether the codes fit. */
  lemma FitsTest(ls: seq<nat>, i: nat, code: nat, size: nat)
    requires 1 <= i <= 15 && code == First(ls, i) <= Pow2(i) && size == Count(ls, i)
    ensures Fits(ls, i) <==> !(size != 0 && code + size - 1 >= Pow2(i))
    ensures First(ls, i + 1) == 2 * (code + size) && (Fits(ls, i) ==> First(ls, i + 1) <= Pow2(i + 1))
  {
  }

  lemma EntryMade(ls: seq<nat>, i: nat, first: nat, end: nat, symbol: nat)
    requires 1 <= i <= 15 && first == First(ls, i) && symbol == FirstSymbol(ls, i)
    requires end == Shl(First(ls, i) + Count(ls, i), 16 - i)
    ensures Entry(ls, i, first, end, symbol)
  {
    BoundEnd(ls, i);
  }

  /** No length has more codes than there are numbers of that length. */
  method SizesPossible(ls: seq<nat>, sizes: seq<nat>) returns (ok: bool)
    requires |sizes| == 17 && forall l :: 1 <= l <= 16 ==> sizes[l] == Count(ls, l)
    ensures Accepted(ls) ==> ok
  {
    for i := 1 to 16 {
      if sizes[i] > Pow2(i) {
        assert !Fits(ls, i);
        return false;
      }
    }
    ok := true;
  }

  /** Writes `fastv` at every index that ends in the given `s` bits. */
  method FillFast(fast: seq<nat>, s: nat, start: nat, fastv: nat) returns (r: seq<nat>)
    requires |fast| == FAST_SIZE && start < Pow2(s)
    ensures |r| == FAST_SIZE
    ensures forall k :: 0 <= k < FAST_SIZE ==> r[k] == if k % Pow2(s) == start then fastv else fast[k]
  {
    r := fast;
    var j, p := start, Pow2(s);
    DivUnique(start, p, 0, start);
    forall k | 0 <= k < start ensures k % p != start {
      DivUnique(k, p, 0, k);
    }
    while j < FAST_SIZE
      invariant |r| == FAST_SIZE && j % p == start
      invariant forall k :: 0 <= k < FAST_SIZE ==> r[k] == if k < j && k % p == start then fastv else fast[k]
      invariant forall k :: 0 <= k < FAST_SIZE && k < start ==> k % p != start
    {
      forall k | j <= k <= j + p ensures k % p == start <==> k == j || k == j + p {
        NextResidue(k, j, p, start);
      }
      r := r[j := fastv];
      j := j + p;
    }
  }

  lemma FastStep(ls: seq<nat>, i: nat, fast: seq<nat>, r: seq<nat>)
    requires ValidLengths(ls) && Accepted(ls) && i < |ls| && Short(ls, i) && FastFor(ls, i, fast)
    requires |r| == FAST_SIZE
    requires forall k :: 0 <= k < FAST_SIZE ==>
      r[k] == if k % Pow2(ls[i]) == Rev(ls[i], Code(ls, i)) then ls[i] * 512 + i else fast[k]
    ensures FastFor(ls, i + 1, r)
  {
    forall k | 0 <= k < FAST_SIZE ensures r[k] == if Matches(ls, i, k) then ls[i] * 512 + i else fast[k] {
    }
    forall j, k | 0 <= j < i + 1 && Short(ls, j) && 0 <= k < FAST_SIZE && Matches(ls, j, k)
      ensures r[k] == ls[j] * 512 + j
    {
      if Matches(ls, i, k) { MatchUnique(ls, i, j, k); }
    }
    forall k | 0 <= k < FAST_SIZE && r[k] != 0
      ensures exists j :: 0 <= j < i + 1 && Short(ls, j) && Matches(ls, j, k)
    {
      if !Matches(ls, i, k) {
        var j :| 0 <= j < i && Short(ls, j) && Matches(ls, j, k);
      }
    }
  }

  lemma FastSkip(ls: seq<nat>, i: nat, fast: seq<nat>)
    requires i < |ls| && !Short(ls, i) && FastFor(ls, i, fast)
    ensures FastFor(ls, i + 1, fast)
  {
    forall k | 0 <= k < FAST_SIZE && fast[k] != 0
      ensures exists j :: 0 <= j < i + 1 && Short(ls, j) && Matches(ls, j, k)
    {
      var j :| 0 <= j < i && Short(ls, j) && Matches(ls, j, k);
    }
  }

  lemma SlotsStep(ls: seq<nat>, i: nat, size: seq<nat>, value: seq<nat>)
    requires i < |ls| <= SYMBOLS && ls[i] > 0 && SlotsFor(ls, i, size, value)
    ensures Slot(ls, i) < SYMBOLS
    ensures SlotsFor(ls, i + 1, size[Slot(ls, i) := ls[i]], value[Slot(ls, i) := i])
  {
    SlotInRange(ls, i);
    forall j | 0 <= j < i && ls[j] > 0 ensures Slot(ls, j) != Slot(ls, i) {
      SlotsDiffer(ls, j, i);
    }
  }

  lemma SlotsSkip(ls: seq<nat>, i: nat, size: seq<nat>, value: seq<nat>)
    requires i < |ls| && ls[i] == 0 && SlotsFor(ls, i, size, value)
    ensures SlotsFor(ls, i + 1, size, value)
  {
  }

  lemma CountStep(ls: seq<nat>, i: nat, l: nat)
    requires i < |ls|
    ensures Count(ls[..i + 1], l) == Count(ls[..i], l) + if ls[i] == l then 1 else 0
  {
    assert ls[..i + 1][..i] == ls[..i];
  }

  /** The next unused code of every length, once the symbols below `i` have theirs. */
  ghost predicate NextCodes(ls: seq<nat>, i: nat, next: seq<nat>) {
    |next| == 16 && i <= |ls| && forall s :: 1 <= s <= 15 ==> next[s] == First(ls, s) + Count(ls[..i], s)
  }

  lemma NextCodesStep(ls: seq<nat>, i: nat, next: seq<nat>)
    requires ValidLengths(ls) && i < |ls| && NextCodes(ls, i, next)
    ensures ls[i] > 0 ==> next[ls[i]] == Code(ls, i)
    ensures NextCodes(ls, i + 1, if ls[i] > 0 then next[ls[i] := next[ls[i]] + 1] else next)
  {
    forall s | 1 <= s <= 15 ensures Count(ls[..i + 1], s) == Count(ls[..i], s) + if ls[i] == s then 1 else 0 {
      CountStep(ls, i, s);
    }
  }

  /** Enters symbol `i` with code `code` into the fast table when the code is short enough. */
  method EnterFast(ls: seq<nat>, i: nat, code: nat, fast: seq<nat>) returns (r: seq<nat>)
    requires ValidLengths(ls) && Accepted(ls) && i < |ls| && ls[i] > 0 && code == Code(ls, i)
    requires FastFor(ls, i, fast)
    ensures FastFor(ls, i + 1, r)
  {
    r := fast;
    if ls[i] <= FAST_BITS {
      var start := BitReverse.Reverse(code, ls[i]);
      r := FillFast(fast, ls[i], start, ls[i] * 512 + i);
      FastStep(ls, i, fast, r);
    } else {
      FastSkip(ls, i, fast);
    }
  }

  /** Builds the tables; succeeds exactly when the lengths satisfy Kraft's inequality.  What the size and
      value tables held before does not matter. */
  method Build(ls: seq<nat>, size0: seq<nat>, value0: seq<nat>) returns (ok: bool, t: Tables)
    requires ValidLengths(ls) && |ls| <= SYMBOLS && |size0| == |value0| == SYMBOLS
    ensures ok <==> KraftSum(ls) <= 0x10000
    ensures ok ==> Built(ls, t)
  {
    var sizes := CountLengths(ls);
    var firstcode, maxcode, firstsymbol;
    ok, firstcode, maxcode, firstsymbol := FirstCodes(ls, sizes);
    AcceptedIffKraft(ls);
    t := Tables(seq(FAST_SIZE, _ => 0), firstcode, maxcode, firstsymbol, size0, value0);
    if !ok {
      return;
    }
    t := EnterAll(ls, t);
  }

  /** Gives every symbol its code, in the order of symbol numbers. */
  method EnterAll(ls: seq<nat>, t0: Tables) returns (t: Tables)
    requires ValidLengths(ls) && Accepted(ls) && |ls| <= SYMBOLS
    requires FirstsFor(ls, t0.firstcode, t0.maxcode, t0.firstsymbol)
    requires FastFor(ls, 0, t0.fast) && SlotsFor(ls, 0, t0.size, t0.value)
    ensures Built(ls, t)
  {
    var fast, next := t0.fast, t0.firstcode;
    var size, value := t0.size, t0.value;
    FirstNextCodes(ls, t0.firstcode, t0.maxcode, t0.firstsymbol);
    for i := 0 to |ls|
      invariant NextCodes(ls, i, next)
      invariant FastFor(ls, i, fast)
      invariant SlotsFor(ls, i, size, value)
    {
      NextCodesStep(ls, i, next);
      var s := ls[i];
      if s != 0 {
        fast := EnterFast(ls, i, next[s], fast);
        size, value := EnterSlot(ls, i, next[s], t0, size, value);
        next := next[s := next[s] + 1];
      } else {
        FastSkip(ls, i, fast);
        SlotsSkip(ls, i, size, value);
      }
    }
    t := Tables(fast, t0.firstcode, t0.maxcode, t0.firstsymbol, size, value);
  }

  lemma FirstNextCodes(ls: seq<nat>, firstcode: seq<nat>, maxcode: seq<nat>, firstsymbol: seq<nat>)
    requires FirstsFor(ls, firstcode, maxcode, firstsymbol)
    ensures NextCodes(ls, 0, firstcode)
  {
    forall s | 1 <= s <= 15 ensures firstcode[s] == First(ls, s) + Count(ls[..0], s) {
      assert Entry(ls, s, firstcode[s], maxcode[s], firstsymbol[s]);
    }
  }

  /** Enters symbol `i` with code `code` into the sorted list of symbols. */
  method EnterSlot(ls: seq<nat>, i: nat, code: nat, t: Tables, size: seq<nat>, value: seq<nat>)
    returns (size': seq<nat>, value': seq<nat>)
    requires ValidLengths(ls) && i < |ls| <= SYMBOLS && ls[i] > 0 && code == Code(ls, i)
    requires FirstsFor(ls, t.firstcode, t.maxcode, t.firstsymbol) && SlotsFor(ls, i, size, value)
    ensures SlotsFor(ls, i + 1, size', value')
  {
    var s := ls[i];
    assert Entry(ls, s, t.firstcode[s], t.maxcode[s], t.firstsymbol[s]);
    var c := code - t.firstcode[s] + t.firstsymbol[s];
    assert c == Slot(ls, i);
    SlotsStep(ls, i, size, value);
    size' := size[c := s];
    value' := value[c := i];
  }
}
