/** Bits packed into 64-bit words, and the plain sequence of booleans they stand for. */
module BitWords {
  import opened Bits
  import opened Word64
  import opened BitRuns

  /** The bits of one word, lowest first. */
  function WordView(w: nat): (s: seq<bool>)
    ensures |s| == 64
  {
    seq(64, i requires 0 <= i < 64 => Bit(w, i))
  }

  /** std::countr_zero, countr_one, countl_zero and countl_one. */
  function CountrZero(w: nat): nat { Scan(WordView(w), true, 0) }
  function CountrOne(w: nat): nat { Scan(WordView(w), false, 0) }
  function CountlZero(w: nat): nat { 64 - ScanBack(WordView(w), true, 64) }
  function CountlOne(w: nat): nat { 64 - ScanBack(WordView(w), false, 64) }

  /** The plain view: the bits of word after word. */
  function View(d: seq<Word>): (s: seq<bool>)
    ensures |s| == 64 * |d|
  {
    if d == [] then [] else View(d[..|d| - 1]) + WordView(d[|d| - 1])
  }

  lemma {:induction false} ViewAt(d: seq<Word>, w: nat, i: nat)
    requires w < |d| && i < 64
    ensures View(d)[64 * w + i] == Bit(d[w], i)
  {
    var front := d[..|d| - 1];
    if w < |front| {
      ViewAt(front, w, i);
    } else {
      assert View(d)[64 * w + i] == WordView(d[w])[i];
    }
  }

  /** Get reads the view at its index: bit idx % 64 of word idx / 64. */
  lemma ViewIndex(d: seq<Word>, idx: nat)
    requires idx < 64 * |d|
    ensures View(d)[idx] == Bit(d[idx / 64], idx % 64)
  {
    ViewAt(d, idx / 64, idx % 64);
  }

  /** Words with the bits of a sequence are packed from it. */
  lemma ViewIs(d: seq<Word>, s: seq<bool>)
    requires |s| == 64 * |d|
    requires forall w: nat, i: nat :: w < |d| && i < 64 ==> Bit(d[w], i) == s[64 * w + i]
    ensures View(d) == s
  {
    forall x | 0 <= x < |s| ensures View(d)[x] == s[x] {
      ViewIndex(d, x);
      assert Bit(d[x / 64], x % 64) == s[64 * (x / 64) + x % 64];
    }
  }

  function OrWords(a: Word, b: Word): Word {
    OrWord(a, b);
    BitOr(a, b)
  }

  function AndWords(a: Word, b: Word): Word { And(a, b) }

  /** 1 << b. */
  function BitMask(b: nat): Word
    requires b < 64
  {
    MaskWord(b);
    Pow2(b)
  }

  /** The bits below `b`. */
  function BelowMask(b: nat): Word
    requires b < 64
  {
    MaskWord(b);
    LowMask(b)
  }

  /** The bits up to and including `b`, with the source's special case for the whole word. */
  function UpToMask(b: nat): Word
    requires b < 64
  {
    if b == 63 then FULL else BelowMask(b + 1)
  }

  lemma BitBelow(b: nat, i: nat)
    requires b < 64 && i < 64
    ensures Bit(BelowMask(b), i) <==> i < b
    ensures Bit(Not(BelowMask(b)), i) <==> b <= i
  {
    BitLowMask(b, i);
    BitNot(BelowMask(b), i);
  }

  lemma BitUpTo(b: nat, i: nat)
    requires b < 64 && i < 64
    ensures Bit(UpToMask(b), i) <==> i <= b
    ensures Bit(Not(UpToMask(b)), i) <==> b < i
  {
    BitNot(UpToMask(b), i);
    if b == 63 {
      BitFull(i);
    } else {
      BitBelow(b + 1, i);
    }
  }

  /** Word `w` has the bits of the range overwritten with `v` and the others kept. */
  ghost predicate WordPainted(was: Word, now: Word, w: nat, start: nat, end: nat, v: bool) {
    forall i: nat :: i < 64 ==> (Bit(now, i) <==> if start <= 64 * w + i < end then v else Bit(was, i))
  }

  lemma Untouched(x: Word, w: nat, start: nat, end: nat, v: bool)
    requires 64 * w + 64 <= start || end <= 64 * w
    ensures WordPainted(x, x, w, start, end, v)
  {
  }

  lemma Filled(x: Word, w: nat, start: nat, end: nat)
    requires start <= 64 * w && 64 * w + 64 <= end
    ensures WordPainted(x, FULL, w, start, end, true) && WordPainted(x, 0, w, start, end, false)
  {
    forall i: nat | i < 64 ensures Bit(FULL, i) && !Bit(0, i) {
      BitFull(i);
    }
  }

  /** The mask has the bits of the range in word `w`, and no others. */
  ghost predicate MaskOf(mask: Word, w: nat, start: nat, end: nat) {
    forall i: nat :: i < 64 ==> (Bit(mask, i) <==> start <= 64 * w + i < end)
  }

  /** Setting through a mask whose bits are those of the range. */
  lemma SetThrough(x: Word, mask: Word, w: nat, start: nat, end: nat)
    requires MaskOf(mask, w, start, end)
    ensures WordPainted(x, OrWords(x, mask), w, start, end, true)
  {
    forall i: nat | i < 64 ensures Bit(OrWords(x, mask), i) <==> Bit(x, i) || Bit(mask, i) {
      DigitOr(x, mask, i);
    }
  }

  /** Clearing through a mask whose bits are those outside the range. */
  lemma ClearThrough(x: Word, mask: Word, w: nat, start: nat, end: nat)
    requires forall i: nat :: i < 64 ==> (Bit(mask, i) <==> !(start <= 64 * w + i < end))
    ensures WordPainted(x, AndWords(x, mask), w, start, end, false)
  {
    forall i: nat | i < 64 ensures Bit(AndWords(x, mask), i) <==> Bit(x, i) && Bit(mask, i) {
      DigitAnd(x, mask, i);
    }
  }

  lemma MaskWithin(w: nat, sb: nat, eb: nat, start: nat, end: nat)
    requires sb < 64 && eb < 64 && start == 64 * w + sb && end == 64 * w + eb + 1
    ensures MaskOf(AndWords(Not(BelowMask(sb)), UpToMask(eb)), w, start, end)
  {
    var mask := AndWords(Not(BelowMask(sb)), UpToMask(eb));
    forall i: nat | i < 64 ensures Bit(mask, i) <==> start <= 64 * w + i < end {
      BitBelow(sb, i);
      BitUpTo(eb, i);
      DigitAnd(Not(BelowMask(sb)), UpToMask(eb), i);
    }
  }

  lemma MaskFrom(w: nat, sb: nat, start: nat, end: nat)
    requires sb < 64 && start == 64 * w + sb && 64 * w + 64 <= end
    ensures MaskOf(Not(BelowMask(sb)), w, start, end)
  {
    forall i: nat | i < 64 ensures Bit(Not(BelowMask(sb)), i) <==> start <= 64 * w + i < end {
      BitBelow(sb, i);
    }
  }

  lemma MaskUpTo(w: nat, eb: nat, start: nat, end: nat)
    requires eb < 64 && start <= 64 * w && end == 64 * w + eb + 1
    ensures MaskOf(UpToMask(eb), w, start, end)
  {
    forall i: nat | i < 64 ensures Bit(UpToMask(eb), i) <==> start <= 64 * w + i < end {
      BitUpTo(eb, i);
    }
  }

  lemma ClearWithin(x: Word, w: nat, sb: nat, eb: nat, start: nat, end: nat)
    requires sb < 64 && eb < 64 && start == 64 * w + sb && end == 64 * w + eb + 1
    ensures WordPainted(x, AndWords(x, OrWords(BelowMask(sb), Not(UpToMask(eb)))), w, start, end, false)
  {
    var mask := OrWords(BelowMask(sb), Not(UpToMask(eb)));
    forall i: nat | i < 64 ensures Bit(mask, i) <==> !(start <= 64 * w + i < end) {
      BitBelow(sb, i);
      BitUpTo(eb, i);
      DigitOr(BelowMask(sb), Not(UpToMask(eb)), i);
    }
    ClearThrough(x, mask, w, start, end);
  }

  lemma ClearFrom(x: Word, w: nat, sb: nat, start: nat, end: nat)
    requires sb < 64 && start == 64 * w + sb && 64 * w + 64 <= end
    ensures WordPainted(x, AndWords(x, BelowMask(sb)), w, start, end, false)
  {
    forall i: nat | i < 64 ensures Bit(BelowMask(sb), i) <==> !(start <= 64 * w + i < end) {
      BitBelow(sb, i);
    }
    ClearThrough(x, BelowMask(sb), w, start, end);
  }

  lemma ClearUpTo(x: Word, w: nat, eb: nat, start: nat, end: nat)
    requires eb < 64 && start <= 64 * w && end == 64 * w + eb + 1
    ensures WordPainted(x, AndWords(x, Not(UpToMask(eb))), w, start, end, false)
  {
    forall i: nat | i < 64 ensures Bit(Not(UpToMask(eb)), i) <==> !(start <= 64 * w + i < end) {
      BitUpTo(eb, i);
    }
    ClearThrough(x, Not(UpToMask(eb)), w, start, end);
  }

  /** Words painted one by one are the view painted. */
  lemma ViewPainted(was: seq<Word>, now: seq<Word>, start: nat, end: nat, v: bool)
    requires |was| == |now| && start < end <= 64 * |was|
    requires forall w: nat :: w < |was| ==> WordPainted(was[w], now[w], w, start, end, v)
    ensures View(now) == Painted(View(was), start, end, v)
  {
    var s := Painted(View(was), start, end, v);
    forall w: nat, i: nat | w < |was| && i < 64 ensures Bit(now[w], i) == s[64 * w + i] {
      ViewAt(was, w, i);
      PaintedAt(was[w], now[w], w, start, end, v, i);
      PaintedFlag(View(was), start, end, v, 64 * w + i);
    }
    ViewIs(now, s);
  }

  lemma PaintedFlag(s: seq<bool>, start: nat, end: nat, v: bool, x: nat)
    requires start < end <= |s| && x < |s|
    ensures Painted(s, start, end, v)[x] == if start <= x < end then v else s[x]
  {
  }

  lemma PaintedAt(was: Word, now: Word, w: nat, start: nat, end: nat, v: bool, i: nat)
    requires WordPainted(was, now, w, start, end, v) && i < 64
    ensures Bit(now, i) <==> if start <= 64 * w + i < end then v else Bit(was, i)
  {
  }

  /** Word `w` has the bits of the range and no others. */
  ghost predicate WordKept(was: Word, now: Word, w: nat, start: nat, end: nat) {
    forall i: nat :: i < 64 ==> (Bit(now, i) <==> start <= 64 * w + i < end && Bit(was, i))
  }

  lemma KeptThrough(x: Word, mask: Word, w: nat, start: nat, end: nat)
    requires MaskOf(mask, w, start, end)
    ensures WordKept(x, AndWords(x, mask), w, start, end)
  {
    forall i: nat | i < 64 ensures Bit(AndWords(x, mask), i) <==> Bit(x, i) && Bit(mask, i) {
      DigitAnd(x, mask, i);
    }
  }

  /** Words outside the range are left empty and words inside it kept whole. */
  lemma KeptAside(x: Word, y: Word, w: nat, start: nat, end: nat)
    requires if start <= 64 * w && 64 * w + 64 <= end then y == x else y == 0 && (64 * w + 64 <= start || end <= 64 * w)
    ensures WordKept(x, y, w, start, end)
  {
    forall i: nat | i < 64 ensures !Bit(0, i) {
      ZeroBits(i);
    }
  }

  /** The flags of a range, the others clear; all clear for an empty or overlong range. */
  function Sliced(s: seq<bool>, start: nat, end: nat): (r: seq<bool>)
    ensures |r| == |s|
  {
    seq(|s|, x requires 0 <= x < |s| => end <= |s| && start <= x < end && s[x])
  }

  /** Words kept one by one are the view cut down to the range. */
  lemma ViewKept(was: seq<Word>, now: seq<Word>, start: nat, end: nat)
    requires |was| == |now| && start < end <= 64 * |was|
    requires forall w: nat :: w < |was| ==> WordKept(was[w], now[w], w, start, end)
    ensures View(now) == Sliced(View(was), start, end)
  {
    var s := Sliced(View(was), start, end);
    forall w: nat, i: nat | w < |was| && i < 64 ensures Bit(now[w], i) == s[64 * w + i] {
      ViewAt(was, w, i);
      KeptAt(was[w], now[w], w, start, end, i);
      SlicedAt(View(was), start, end, 64 * w + i);
    }
    ViewIs(now, s);
  }

  lemma KeptAt(was: Word, now: Word, w: nat, start: nat, end: nat, i: nat)
    requires WordKept(was, now, w, start, end) && i < 64
    ensures Bit(now, i) <==> start <= 64 * w + i < end && Bit(was, i)
  {
  }

  lemma SlicedAt(s: seq<bool>, start: nat, end: nat, x: nat)
    requires x < |s|
    ensures Sliced(s, start, end)[x] <==> end <= |s| && start <= x < end && s[x]
  {
  }
}
