/** BitArray of bit_array.h, in its scalar form: range updates by masks, range queries by word scans. */
module BitArray {
  import opened Bits
  import opened Word64
  import opened BitRuns
  import opened BitWords

  // Runs inside one word.

  /** `x` is word `w` with only the bits from `lo` up to `hi` left. */
  ghost predicate Masked(d: seq<Word>, w: nat, x: Word, lo: nat, hi: nat) {
    w < |d| && lo <= hi <= 64 && forall i: nat :: i < 64 ==> (Bit(x, i) <==> lo <= i < hi && Bit(d[w], i))
  }

  lemma MaskedFrom(d: seq<Word>, w: nat, sb: nat)
    requires w < |d| && sb < 64
    ensures Masked(d, w, AndWords(d[w], Not(BelowMask(sb))), sb, 64)
  {
    var x := AndWords(d[w], Not(BelowMask(sb)));
    forall i: nat | i < 64 ensures Bit(x, i) <==> sb <= i < 64 && Bit(d[w], i) {
      DigitAnd(d[w], Not(BelowMask(sb)), i);
      BitBelow(sb, i);
    }
  }

  lemma MaskedUpTo(d: seq<Word>, w: nat, eb: nat)
    requires w < |d| && eb < 63
    ensures Masked(d, w, AndWords(d[w], BelowMask(eb + 1)), 0, eb + 1)
  {
    var x := AndWords(d[w], BelowMask(eb + 1));
    forall i: nat | i < 64 ensures Bit(x, i) <==> 0 <= i < eb + 1 && Bit(d[w], i) {
      DigitAnd(d[w], BelowMask(eb + 1), i);
      BitBelow(eb + 1, i);
    }
  }

  /** What holds of a part of a word holds of that part of the view. */
  lemma ConstInView(d: seq<Word>, w: nat, v: bool, p: nat, q: nat)
    requires w < |d| && q <= 64 && Const(WordView(d[w]), v, p, q)
    ensures Const(View(d), v, 64 * w + p, 64 * w + q)
  {
    forall x | 64 * w + p <= x < 64 * w + q ensures View(d)[x] == v {
      var i := x - 64 * w;
      ViewAt(d, w, i);
      assert WordView(d[w])[i] == v;
    }
  }

  lemma ZeroWord(x: Word)
    ensures x == 0 <==> Const(WordView(x), false, 0, 64)
  {
    IsZero(x);
    if Const(WordView(x), false, 0, 64) {
      forall i: nat | i < 64 ensures !Bit(x, i) {
        assert !WordView(x)[i];
      }
    }
  }

  lemma WholeWord(x: Word)
    ensures x == FULL <==> Const(WordView(x), true, 0, 64)
  {
    IsFull(x);
    if Const(WordView(x), true, 0, 64) {
      forall i: nat | i < 64 ensures Bit(x, i) {
        assert WordView(x)[i];
      }
    }
  }

  /** A masked word shows the view of the word it was masked from. */
  lemma MaskedView(d: seq<Word>, w: nat, x: Word, lo: nat, hi: nat)
    requires Masked(d, w, x, lo, hi)
    ensures forall i :: 0 <= i < 64 ==> (WordView(x)[i] <==> lo <= i < hi && WordView(d[w])[i])
  {
  }

  /** A masked word with no bit left: the range it covers is clear. */
  lemma EmptyMasked(d: seq<Word>, w: nat, x: Word, lo: nat, hi: nat)
    requires Masked(d, w, x, lo, hi) && x == 0
    ensures Const(View(d), false, 64 * w + lo, 64 * w + hi)
  {
    ZeroWord(x);
    MaskedView(d, w, x, lo, hi);
    ConstInView(d, w, false, lo, hi);
  }

  lemma FullWord(d: seq<Word>, w: nat)
    requires w < |d| && d[w] == FULL
    ensures Const(View(d), true, 64 * w, 64 * w + 64)
  {
    WholeWord(d[w]);
    ConstInView(d, w, true, 0, 64);
  }

  lemma Consts(s: seq<bool>, v: bool, a: int, b: int, c: int)
    requires Const(s, v, a, b) && Const(s, v, b, c)
    ensures Const(s, v, a, c)
  {
  }

  // Upward scans.

  /** Where the run of ones at the bottom of a word that is not full ends. */
  lemma EndInWord(d: seq<Word>, w: nat, from: nat)
    requires w < |d| && d[w] != FULL && from <= 64 * w && Const(View(d), true, from, 64 * w)
    ensures CountrOne(d[w]) < 64 && Scan(View(d), false, from) == 64 * w + CountrOne(d[w])
  {
    var r := CountrOne(d[w]);
    WholeWord(d[w]);
    ConstInView(d, w, true, 0, r);
    Consts(View(d), true, from, 64 * w, 64 * w + r);
    ViewAt(d, w, r);
    ScanIs(View(d), false, from, 64 * w + r);
  }

  /** The first bit set in a masked word that has one. */
  lemma StartInWord(d: seq<Word>, w: nat, x: Word, lo: nat, from: nat)
    requires Masked(d, w, x, lo, 64) && x != 0 && from <= 64 * w + lo && Const(View(d), false, from, 64 * w + lo)
    ensures lo <= CountrZero(x) < 64 && Scan(View(d), true, from) == 64 * w + CountrZero(x)
  {
    var r := CountrZero(x);
    ZeroWord(x);
    MaskedView(d, w, x, lo, 64);
    assert WordView(x)[r];
    ConstInView(d, w, false, lo, r);
    Consts(View(d), false, from, 64 * w + lo, 64 * w + r);
    ViewAt(d, w, r);
    ScanIs(View(d), true, from, 64 * w + r);
  }

  lemma ShiftedDownView(x: Word, k: nat, i: nat)
    requires k < 64 && i < 64
    ensures WordView(Shr(x, k))[i] <==> i + k < 64 && WordView(x)[i + k]
  {
    BitShr(x, k, i);
    if i + k >= 64 {
      BitBeyond(x, i + k);
    }
  }

  /** The ones from bit `empty` on, counted in the word shifted down by `empty`. */
  lemma OnesFrom(x: Word, empty: nat, ones: nat)
    requires empty < 64 && ones == CountrOne(Shr(x, empty))
    ensures empty + ones <= 64 && Const(WordView(x), true, empty, empty + ones)
    ensures empty + ones < 64 ==> !WordView(x)[empty + ones]
  {
    var y := WordView(Shr(x, empty));
    forall i: nat | i < 64 ensures y[i] <==> i + empty < 64 && WordView(x)[i + empty] {
      ShiftedDownView(x, empty, i);
    }
    assert empty > 0 ==> !y[64 - empty];
    forall i | empty <= i < empty + ones ensures WordView(x)[i] {
      assert y[i - empty];
    }
  }

  /** The run of ones that starts at the first bit set, as far as the word goes. */
  lemma OnesInWord(d: seq<Word>, w: nat, x: Word, lo: nat, empty: nat, ones: nat)
    requires Masked(d, w, x, lo, 64) && lo <= empty < 64 && ones == CountrOne(Shr(x, empty))
    ensures empty + ones <= 64 && Const(View(d), true, 64 * w + empty, 64 * w + empty + ones)
    ensures empty + ones < 64 ==> View(d)[64 * w + empty + ones] == false
  {
    OnesFrom(x, empty, ones);
    MaskedView(d, w, x, lo, 64);
    ConstInView(d, w, true, empty, empty + ones);
    if empty + ones < 64 {
      ViewAt(d, w, empty + ones);
    }
  }

  /** The first run from `from` on begins in word `w`; it ends there too, unless it fills the word. */
  lemma RunInWord(d: seq<Word>, w: nat, x: Word, lo: nat, from: nat, empty: nat, ones: nat)
    requires Masked(d, w, x, lo, 64) && x != 0 && from <= 64 * w + lo && Const(View(d), false, from, 64 * w + lo)
    requires empty == CountrZero(x) && ones == CountrOne(Shr(x, empty))
    ensures empty < 64 && empty + ones <= 64 && Scan(View(d), true, from) == 64 * w + empty
    ensures empty + ones < 64 ==> Scan(View(d), false, 64 * w + empty) == 64 * w + empty + ones
    ensures empty + ones == 64 ==> Const(View(d), true, 64 * w + empty, 64 * w + 64)
  {
    StartInWord(d, w, x, lo, from);
    OnesInWord(d, w, x, lo, empty, ones);
    if empty + ones < 64 {
      ScanIs(View(d), false, 64 * w + empty, 64 * w + empty + ones);
    }
  }

  // Downward scans.

  lemma StartBelowWord(d: seq<Word>, w: nat, from: nat)
    requires w < |d| && d[w] != FULL && 64 * w + 64 <= from <= 64 * |d| && Const(View(d), true, 64 * w + 64, from)
    ensures CountlOne(d[w]) < 64 && ScanBack(View(d), false, from) == 64 * w + 64 - CountlOne(d[w])
  {
    var r := ScanBack(WordView(d[w]), false, 64);
    WholeWord(d[w]);
    ConstInView(d, w, true, r, 64);
    Consts(View(d), true, 64 * w + r, 64 * w + 64, from);
    ViewAt(d, w, r - 1);
    ScanBackIs(View(d), false, from, 64 * w + r);
  }

  lemma EndBelowWord(d: seq<Word>, w: nat, x: Word, hi: nat, from: nat)
    requires Masked(d, w, x, 0, hi) && x != 0 && 64 * w + hi <= from <= 64 * |d|
    requires Const(View(d), false, 64 * w + hi, from)
    ensures 64 - CountlZero(x) <= hi && CountlZero(x) < 64
    ensures ScanBack(View(d), true, from) == 64 * w + 64 - CountlZero(x)
  {
    var r := ScanBack(WordView(x), true, 64);
    ZeroWord(x);
    MaskedView(d, w, x, 0, hi);
    assert WordView(x)[r - 1];
    ConstInView(d, w, false, r, hi);
    Consts(View(d), false, 64 * w + r, 64 * w + hi, from);
    ViewAt(d, w, r - 1);
    ScanBackIs(View(d), true, from, 64 * w + r);
  }

  /** `y` is `x` shifted up by `k` in 64 bits. */
  ghost predicate ShiftedUp(x: nat, k: nat, y: nat) {
    forall i :: 0 <= i < 64 ==> (WordView(y)[i] <==> i >= k && WordView(x)[i - k])
  }

  method ShiftLeft(x: Word, k: nat) returns (y: nat)
    ensures ShiftedUp(x, k, y)
  {
    var n := 64;
    y := ShiftUp(n, x, k);
    forall i: nat | i < 64 ensures WordView(y)[i] <==> i >= k && WordView(x)[i - k] {
      BitShiftUp(n, x, k, i);
    }
  }

  /** The ones below bit `64 - empty`, counted in the word shifted up by `empty`. */
  lemma OnesBelow(x: Word, empty: nat, y: nat, ones: nat)
    requires empty < 64 && ShiftedUp(x, empty, y) && ones == CountlOne(y)
    ensures empty + ones <= 64 && Const(WordView(x), true, 64 - empty - ones, 64 - empty)
    ensures empty + ones < 64 ==> !WordView(x)[63 - empty - ones]
  {
    var v, r := WordView(y), 64 - ones;
    assert empty > 0 ==> !v[empty - 1];
    forall i | r - empty <= i < 64 - empty ensures WordView(x)[i] {
      assert v[i + empty];
    }
    assert r > empty ==> !v[r - 1];
  }

  /** The run of ones that ends at the last bit set, as far down as the word goes. */
  lemma OnesBelowWord(d: seq<Word>, w: nat, x: Word, hi: nat, empty: nat, y: nat, ones: nat)
    requires Masked(d, w, x, 0, hi) && 64 - hi <= empty < 64 && ShiftedUp(x, empty, y) && ones == CountlOne(y)
    ensures empty + ones <= 64 && Const(View(d), true, 64 * w + 64 - empty - ones, 64 * w + 64 - empty)
    ensures empty + ones < 64 ==> View(d)[64 * w + 63 - empty - ones] == false
  {
    OnesBelow(x, empty, y, ones);
    MaskedView(d, w, x, 0, hi);
    ConstInView(d, w, true, 64 - empty - ones, 64 - empty);
    if empty + ones < 64 {
      ViewAt(d, w, 63 - empty - ones);
    }
  }

  /** The last run before `from` ends in word `w`; it begins there too, unless it fills the word. */
  lemma RunBelowWord(d: seq<Word>, w: nat, x: Word, hi: nat, from: nat, empty: nat, y: nat, ones: nat)
    requires Masked(d, w, x, 0, hi) && x != 0
    requires 64 * w + hi <= from <= 64 * |d| && Const(View(d), false, 64 * w + hi, from)
    requires empty == CountlZero(x) && ShiftedUp(x, empty, y) && ones == CountlOne(y)
    ensures empty < 64 && empty + ones <= 64 && ScanBack(View(d), true, from) == 64 * w + 64 - empty
    ensures empty + ones < 64 ==> ScanBack(View(d), false, 64 * w + 64 - empty) == 64 * w + 64 - empty - ones
    ensures empty + ones == 64 ==> Const(View(d), true, 64 * w, 64 * w + 64 - empty)
  {
    EndBelowWord(d, w, x, hi, from);
    OnesBelowWord(d, w, x, hi, empty, y, ones);
    if empty + ones < 64 {
      ScanBackIs(View(d), false, 64 * w + 64 - empty, 64 * w + 64 - empty - ones);
    }
  }

  /** One bit set or cleared. */
  lemma OnePainted(was: seq<Word>, now: seq<Word>, w: nat, i: nat, idx: nat, v: bool)
    requires w < |was| && i < 64 && idx == 64 * w + i
    requires now == was[w := if v then OrWords(was[w], BitMask(i)) else AndWords(was[w], Not(BitMask(i)))]
    ensures View(now) == View(was)[idx := v]
  {
    forall k: nat | k < 64 ensures Bit(now[w], k) <==> if k == i then v else Bit(was[w], k) {
      BitPow2(i, k);
      BitNot(BitMask(i), k);
      DigitOr(was[w], BitMask(i), k);
      DigitAnd(was[w], Not(BitMask(i)), k);
    }
    forall u: nat, k: nat | u < |was| && k < 64 ensures Bit(now[u], k) == View(was)[idx := v][64 * u + k] {
      ViewAt(was, u, k);
    }
    ViewIs(now, View(was)[idx := v]);
  }

  class Bitmap {
    const data: array<Word>

    /** The plain view of the bits. */
    ghost function Flags(): (s: seq<bool>)
      reads data
      ensures |s| == 64 * data.Length
    {
      View(data[..])
    }

    constructor (words: nat)
      ensures fresh(data) && data.Length == words && Const(Flags(), false, 0, 64 * words)
    {
      data := new Word[words](_ => 0);
      new;
      forall w: nat, i: nat | w < words && i < 64
        ensures Bit(data[..][w], i) == seq(64 * words, _ => false)[64 * w + i]
      {
        ZeroBits(i);
      }
      ViewIs(data[..], seq(64 * words, _ => false));
    }

    /** The sub-range of another array. */
    constructor Slice(other: Bitmap, start: nat, end: nat)
      ensures fresh(data) && data.Length == other.data.Length && Flags() == Sliced(other.Flags(), start, end)
    {
      data := new Word[other.data.Length](_ => 0);
      new;
      CopyRange(other, start, end);
    }

    /** The body of that constructor, on words all zero. */
    method CopyRange(other: Bitmap, start: nat, end: nat)
      requires other.data != data && other.data.Length == data.Length
      requires forall w :: 0 <= w < data.Length ==> data[w] == 0
      modifies data
      ensures Flags() == Sliced(old(other.Flags()), start, end)
    {
      if start >= end || end > 64 * data.Length {
        NoneKept(other.data[..], data[..], start, end);
        return;
      }
      var first, last, sb, eb := start / 64, (end - 1) / 64, start % 64, (end - 1) % 64;
      if first == last {
        data[first] := AndWords(other.data[first], AndWords(Not(BelowMask(sb)), UpToMask(eb)));
        MaskWithin(first, sb, eb, start, end);
        KeptThrough(other.data[first], AndWords(Not(BelowMask(sb)), UpToMask(eb)), first, start, end);
      } else {
        data[first] := AndWords(other.data[first], Not(BelowMask(sb)));
        MaskFrom(first, sb, start, end);
        KeptThrough(other.data[first], Not(BelowMask(sb)), first, start, end);
        CopyWords(other, first + 1, last);
        data[last] := AndWords(other.data[last], UpToMask(eb));
        MaskUpTo(last, eb, start, end);
        KeptThrough(other.data[last], UpToMask(eb), last, start, end);
      }
      AllKept(other.data[..], data[..], first, last, start, end);
    }

    method CopyWords(other: Bitmap, from: nat, to: nat)
      requires from <= to <= data.Length == other.data.Length && other.data != data
      modifies data
      ensures forall w :: from <= w < to ==> data[w] == other.data[w]
      ensures forall w :: 0 <= w < data.Length && !(from <= w < to) ==> data[w] == old(data[w])
    {
      for i := from to to
        invariant forall w :: from <= w < i ==> data[w] == other.data[w]
        invariant forall w :: 0 <= w < data.Length && !(from <= w < i) ==> data[w] == old(data[w])
      {
        data[i] := other.data[i];
      }
    }

    method Set(idx: nat)
      requires idx < 64 * data.Length
      modifies data
      ensures Flags() == old(Flags())[idx := true]
    {
      var w, i := idx / 64, idx % 64;
      ghost var was := data[..];
      data[w] := OrWords(data[w], BitMask(i));
      OnePainted(was, data[..], w, i, idx, true);
    }

    method Unset(idx: nat)
      requires idx < 64 * data.Length
      modifies data
      ensures Flags() == old(Flags())[idx := false]
    {
      var w, i := idx / 64, idx % 64;
      ghost var was := data[..];
      data[w] := AndWords(data[w], Not(BitMask(i)));
      OnePainted(was, data[..], w, i, idx, false);
    }

    method Get(idx: nat) returns (r: bool)
      requires idx < 64 * data.Length
      ensures r == Flags()[idx]
    {
      var w, i := idx / 64, idx % 64;
      r := AndWords(data[w], BitMask(i)) != 0;
      SingleTest(data[w], i);
      ViewAt(data[..], w, i);
    }

    method SetRange(start: nat, end: nat)
      modifies data
      ensures Flags() == Painted(old(Flags()), start, end, true)
    {
      if start >= end || end > 64 * data.Length {
        return;
      }
      var first, last, sb, eb := start / 64, (end - 1) / 64, start % 64, (end - 1) % 64;
      ghost var was := data[..];
      if first == last {
        data[first] := OrWords(data[first], AndWords(Not(BelowMask(sb)), UpToMask(eb)));
        MaskWithin(first, sb, eb, start, end);
        SetThrough(was[first], AndWords(Not(BelowMask(sb)), UpToMask(eb)), first, start, end);
      } else {
        data[first] := OrWords(data[first], Not(BelowMask(sb)));
        MaskFrom(first, sb, start, end);
        SetThrough(was[first], Not(BelowMask(sb)), first, start, end);
        FillWords(first + 1, last, FULL);
        data[last] := OrWords(data[last], UpToMask(eb));
        MaskUpTo(last, eb, start, end);
        SetThrough(was[last], UpToMask(eb), last, start, end);
      }
      AllPainted(was, data[..], first, last, start, end, true);
    }

    method UnsetRange(start: nat, end: nat)
      modifies data
      ensures Flags() == Painted(old(Flags()), start, end, false)
    {
      if start >= end || end > 64 * data.Length {
        return;
      }
      var first, last, sb, eb := start / 64, (end - 1) / 64, start % 64, (end - 1) % 64;
      ghost var was := data[..];
      if first == last {
        data[first] := AndWords(data[first], OrWords(BelowMask(sb), Not(UpToMask(eb))));
        ClearWithin(was[first], first, sb, eb, start, end);
      } else {
        data[first] := AndWords(data[first], BelowMask(sb));
        ClearFrom(was[first], first, sb, start, end);
        FillWords(first + 1, last, 0);
        data[last] := AndWords(data[last], Not(UpToMask(eb)));
        ClearUpTo(was[last], last, eb, start, end);
      }
      AllPainted(was, data[..], first, last, start, end, false);
    }

    /** The loop over the whole words of a range. */
    method FillWords(from: nat, to: nat, x: Word)
      requires from <= to <= data.Length
      modifies data
      ensures forall w :: from <= w < to ==> data[w] == x
      ensures forall w :: 0 <= w < data.Length && !(from <= w < to) ==> data[w] == old(data[w])
    {
      var i := from;
      while i < to
        invariant from <= i <= to
        invariant forall w :: from <= w < i ==> data[w] == x
        invariant forall w :: 0 <= w < data.Length && !(from <= w < i) ==> data[w] == old(data[w])
      {
        data[i] := x;
        i := i + 1;
      }
    }

    /** find_end_bit: where the run of ones known to reach word `word` ends. */
    method FindEndBit(word: nat, ghost from: nat) returns (r: nat)
      requires word <= data.Length && from <= 64 * word && Const(Flags(), true, from, 64 * word)
      ensures r == Scan(Flags(), false, from)
    {
      var w := word;
      while w < data.Length
        invariant word <= w <= data.Length && Const(Flags(), true, from, 64 * w)
      {
        if data[w] != FULL {
          EndInWord(data[..], w, from);
          return 64 * w + CountrOne(data[w]);
        }
        FullWord(data[..], w);
        Consts(Flags(), true, from, 64 * w, 64 * w + 64);
        w := w + 1;
      }
      ScanIs(Flags(), false, from, 64 * data.Length);
      r := 64 * data.Length;
    }

    /** word_bits of FirstRangeFrom. */
    method RunUp(index: nat, x: Word, ghost lo: nat, ghost from: nat) returns (r: Range)
      requires Masked(data[..], index, x, lo, 64) && x != 0
      requires from <= 64 * index + lo && Const(Flags(), false, from, 64 * index + lo)
      ensures r == NextRun(Flags(), from)
    {
      var empty := CountrZero(x);
      var ones := CountrOne(Shr(x, empty));
      RunInWord(data[..], index, x, lo, from, empty, ones);
      r := RunFrom(index, empty, ones, from);
    }

    /** The run that begins at bit `empty` of a word and has `ones` bits of it. */
    method RunFrom(index: nat, empty: nat, ones: nat, ghost from: nat) returns (r: Range)
      requires index < data.Length && empty < 64 && empty + ones <= 64 && from <= 64 * data.Length
      requires Scan(Flags(), true, from) == 64 * index + empty
      requires empty + ones < 64 ==> Scan(Flags(), false, 64 * index + empty) == 64 * index + empty + ones
      requires empty + ones == 64 ==> Const(Flags(), true, 64 * index + empty, 64 * index + 64)
      ensures r == NextRun(Flags(), from)
    {
      var start := 64 * index + empty;
      var end;
      if ones + empty < 64 {
        end := start + ones;
      } else {
        end := FindEndBit(index + 1, start);
      }
      r := (start, end);
    }

    method FirstRangeFrom(start: nat) returns (r: Range)
      ensures r == if start >= |Flags()| then (|Flags()|, |Flags()|) else NextRun(Flags(), start)
    {
      if start >= 64 * data.Length {
        return (64 * data.Length, 64 * data.Length);
      }
      var w, sb := start / 64, start % 64;
      var masked := AndWords(data[w], Not(BelowMask(sb)));
      MaskedFrom(data[..], w, sb);
      if masked != 0 {
        r := RunUp(w, masked, sb, start);
        return;
      }
      EmptyMasked(data[..], w, masked, sb, 64);
      w := w + 1;
      while w < data.Length
        invariant start <= 64 * w && w <= data.Length && Const(Flags(), false, start, 64 * w)
      {
        if data[w] != 0 {
          r := RunUp(w, data[w], 0, start);
          return;
        }
        EmptyMasked(data[..], w, data[w], 0, 64);
        Consts(Flags(), false, start, 64 * w, 64 * w + 64);
        w := w + 1;
      }
      ScanIs(Flags(), true, start, 64 * data.Length);
      r := (64 * data.Length, 64 * data.Length);
    }

    /** find_start_bit: where the run of ones known to reach down to word `word` starts. */
    method FindStartBit(word: nat, ghost from: nat) returns (r: nat)
      requires word <= data.Length && 64 * word <= from <= 64 * data.Length && Const(Flags(), true, 64 * word, from)
      ensures r == ScanBack(Flags(), false, from)
    {
      var w := word;
      while w > 0
        invariant 0 <= w <= word && Const(Flags(), true, 64 * w, from)
      {
        if data[w - 1] != FULL {
          StartBelowWord(data[..], w - 1, from);
          return 64 * w - CountlOne(data[w - 1]);
        }
        FullWord(data[..], w - 1);
        Consts(Flags(), true, 64 * (w - 1), 64 * w, from);
        w := w - 1;
      }
      ScanBackIs(Flags(), false, from, 0);
      r := 0;
    }

    /** word_bits of LastRangeFrom; `index` is one more than the word's number. */
    method RunDown(index: nat, x: Word, ghost hi: nat, ghost from: nat) returns (r: Range)
      requires index > 0 && Masked(data[..], index - 1, x, 0, hi) && x != 0
      requires 64 * (index - 1) + hi <= from <= 64 * data.Length && Const(Flags(), false, 64 * (index - 1) + hi, from)
      ensures r == PreviousRun(Flags(), from)
    {
      var empty := CountlZero(x);
      var y := ShiftLeft(x, empty);
      var ones := CountlOne(y);
      RunBelowWord(data[..], index - 1, x, hi, from, empty, y, ones);
      var end := 64 * index - empty;
      var start;
      if empty + ones < 64 {
        start := end - ones;
      } else {
        start := FindStartBit(index - 1, end);
      }
      PreviousRunIs(Flags(), from, start, end);
      r := (start, end);
    }

    method LastRangeFrom(bound: nat) returns (r: Range)
      ensures r == PreviousRun(Flags(), if bound > |Flags()| then |Flags()| else bound)
    {
      var end := if bound > 64 * data.Length then 64 * data.Length else bound;
      if end == 0 {
        return (0, 0);
      }
      var w, eb := (end - 1) / 64 + 1, (end - 1) % 64;
      var masked := data[w - 1];
      if eb < 63 {
        masked := AndWords(masked, BelowMask(eb + 1));
        MaskedUpTo(data[..], w - 1, eb);
      }
      if masked != 0 {
        r := RunDown(w, masked, eb + 1, end);
        return;
      }
      EmptyMasked(data[..], w - 1, masked, 0, eb + 1);
      r := ScanDown(w - 1, end);
    }

    /** The loop over the words below, all clear from there to `end`. */
    method ScanDown(from: nat, ghost end: nat) returns (r: Range)
      requires 64 * from <= end <= 64 * data.Length && Const(Flags(), false, 64 * from, end)
      ensures r == PreviousRun(Flags(), end)
    {
      var w := from;
      while w > 0
        invariant 0 <= 64 * w <= end && Const(Flags(), false, 64 * w, end)
      {
        if data[w - 1] != 0 {
          r := RunDown(w, data[w - 1], 64, end);
          return;
        }
        EmptyMasked(data[..], w - 1, data[w - 1], 0, 64);
        Consts(Flags(), false, 64 * (w - 1), 64 * w, end);
        w := w - 1;
      }
      ScanBackIs(Flags(), true, end, 0);
      r := (0, 0);
    }

    /** Iteration by ++ from begin() until it equals end(). */
    method Iterate() returns (rs: seq<Range>)
      ensures rs == Runs(Flags(), 0)
      ensures forall a: nat, b: nat :: (a, b) in rs <==> MaximalRun(Flags(), a, b)
      ensures forall i, j :: 0 <= i < j < |rs| ==> rs[i].1 < rs[j].0
    {
      ghost var s := Flags();
      rs := [];
      ghost var from := 0;
      var it := FirstRangeFrom(0);
      var end := FirstRangeFrom(64 * data.Length);
      while it != end
        invariant from <= |s| && end == (|s|, |s|) && it == NextRun(s, from)
        invariant rs + Runs(s, from) == Runs(s, 0)
        decreases |s| - from
      {
        RunsStep(s, from, it);
        rs := rs + [it];
        from := it.1;
        it := FirstRangeFrom(it.1);
      }
      AllRuns(s, rs);
    }
  }

  lemma SingleTest(x: Word, i: nat)
    requires i < 64
    ensures AndWords(x, BitMask(i)) != 0 <==> Bit(x, i)
  {
    var y := AndWords(x, BitMask(i));
    forall k: nat | k < 64 ensures Bit(y, k) <==> k == i && Bit(x, i) {
      DigitAnd(x, BitMask(i), k);
      BitPow2(i, k);
    }
    IsZero(y);
    assert Bit(y, i) ==> !NoneSet(y);
  }

  /** The words before, inside and after a range, put together. */
  lemma AllPainted(was: seq<Word>, now: seq<Word>, first: nat, last: nat, start: nat, end: nat, v: bool)
    requires |was| == |now| && start < end <= 64 * |was|
    requires 64 * first <= start < 64 * first + 64 && 64 * last < end <= 64 * last + 64
    requires WordPainted(was[first], now[first], first, start, end, v)
    requires WordPainted(was[last], now[last], last, start, end, v)
    requires forall w :: first < w < last ==> now[w] == if v then FULL else 0
    requires forall w :: 0 <= w < |was| && !(first <= w <= last) ==> now[w] == was[w]
    ensures View(now) == Painted(View(was), start, end, v)
  {
    forall w: nat | w < |was| ensures WordPainted(was[w], now[w], w, start, end, v) {
      if first < w < last {
        Filled(was[w], w, start, end);
      } else if w < first || last < w {
        Untouched(was[w], w, start, end, v);
      }
    }
    ViewPainted(was, now, start, end, v);
  }

  lemma AllKept(was: seq<Word>, now: seq<Word>, first: nat, last: nat, start: nat, end: nat)
    requires |was| == |now| && start < end <= 64 * |was|
    requires 64 * first <= start < 64 * first + 64 && 64 * last < end <= 64 * last + 64
    requires WordKept(was[first], now[first], first, start, end)
    requires WordKept(was[last], now[last], last, start, end)
    requires forall w :: first < w < last ==> now[w] == was[w]
    requires forall w :: 0 <= w < |was| && !(first <= w <= last) ==> now[w] == 0
    ensures View(now) == Sliced(View(was), start, end)
  {
    forall w: nat | w < |was| ensures WordKept(was[w], now[w], w, start, end) {
      if first < w < last || w < first || last < w {
        KeptAside(was[w], now[w], w, start, end);
      }
    }
    ViewKept(was, now, start, end);
  }

  lemma NoneKept(was: seq<Word>, now: seq<Word>, start: nat, end: nat)
    requires |was| == |now| && (start >= end || end > 64 * |was|)
    requires forall w :: 0 <= w < |now| ==> now[w] == 0
    ensures View(now) == Sliced(View(was), start, end)
  {
    var s := Sliced(View(was), start, end);
    forall w: nat, i: nat | w < |now| && i < 64 ensures Bit(now[w], i) == s[64 * w + i] {
      ZeroBits(i);
    }
    ViewIs(now, s);
  }
}
