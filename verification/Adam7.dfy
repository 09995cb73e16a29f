/** Adam7 de-interlacing: the seven passes of stbi__create_png_image. */
module Adam7 {
  import opened Bits

  function XOrig(p: nat): nat {
    match p
    case 0 => 0 case 1 => 4 case 2 => 0 case 3 => 2
    case 4 => 0 case 5 => 1 case _ => 0
  }

  function YOrig(p: nat): nat {
    match p
    case 0 => 0 case 1 => 0 case 2 => 4 case 3 => 0
    case 4 => 2 case 5 => 0 case _ => 1
  }

  function XSpc(p: nat): nat {
    match p
    case 0 => 8 case 1 => 8 case 2 => 4 case 3 => 4
    case 4 => 2 case 5 => 2 case _ => 1
  }

  function YSpc(p: nat): nat {
    match p
    case 0 => 8 case 1 => 8 case 2 => 8 case 3 => 4
    case 4 => 4 case 5 => 2 case _ => 2
  }

  /** How many positions `orig`, `orig + spc`, ... lie below `n`. */
  function Steps(n: nat, orig: nat, spc: nat): nat
    requires spc > orig
  {
    (n - orig + spc - 1) / spc
  }

  function PassWidth(w: nat, p: nat): nat
    requires p < 7
  {
    Steps(w, XOrig(p), XSpc(p))
  }

  function PassHeight(h: nat, p: nat): nat
    requires p < 7
  {
    Steps(h, YOrig(p), YSpc(p))
  }

  /** The 8 by 8 pattern of section 8.2 of the PNG Specification, with passes counted from 0. */
  const PATTERN: seq<seq<nat>> := [
    [0, 5, 3, 5, 1, 5, 3, 5],
    [6, 6, 6, 6, 6, 6, 6, 6],
    [4, 5, 4, 5, 4, 5, 4, 5],
    [6, 6, 6, 6, 6, 6, 6, 6],
    [2, 5, 3, 5, 2, 5, 3, 5],
    [6, 6, 6, 6, 6, 6, 6, 6],
    [4, 5, 4, 5, 4, 5, 4, 5],
    [6, 6, 6, 6, 6, 6, 6, 6]
  ]

  function PassOf(x: nat, y: nat): nat { PATTERN[y % 8][x % 8] }

  /** The first pixel of each pass after the first: column 4, row 4, column 2, row 2, column 1, row 1. */
  lemma PatternStarts()
    ensures PassOf(0, 0) == 0 && PassOf(4, 0) == 1 && PassOf(0, 4) == 2 && PassOf(2, 0) == 3
    ensures PassOf(0, 2) == 4 && PassOf(1, 0) == 5 && PassOf(0, 1) == 6
  {
  }

  predicate OnGrid(x: nat, orig: nat, spc: nat)
    requires spc > 0
  {
    x % spc == orig
  }

  /** Cell `a` of row `b` of the pattern belongs to the pass on whose grid it lies. */
  ghost predicate CellOnGrid(a: nat, b: nat, p: nat)
    requires a < 8 && b < 8
  {
    && PATTERN[b][a] < 7
    && (PATTERN[b][a] == p <==> OnGrid(a, XOrig(p), XSpc(p)) && OnGrid(b, YOrig(p), YSpc(p)))
  }

  lemma OddRows(a: nat, b: nat, p: nat)
    requires a < 8 && p < 7 && (b == 1 || b == 3 || b == 5 || b == 7)
    ensures CellOnGrid(a, b, p)
  {
    assert PATTERN[b][a] == 6;
  }

  lemma TwoRows(a: nat, b: nat, p: nat)
    requires a < 8 && p < 7 && (b == 2 || b == 6)
    ensures CellOnGrid(a, b, p)
  {
    assert PATTERN[b][a] == if a % 2 == 0 then 4 else 5;
  }

  lemma FourRows(a: nat, b: nat, p: nat)
    requires a < 8 && p < 7 && (b == 0 || b == 4)
    ensures CellOnGrid(a, b, p)
  {
  }

  lemma CellIsGrid(a: nat, b: nat, p: nat)
    requires a < 8 && b < 8 && p < 7
    ensures CellOnGrid(a, b, p)
  {
    if b % 2 == 1 {
      OddRows(a, b, p);
    } else if b % 4 == 2 {
      TwoRows(a, b, p);
    } else {
      FourRows(a, b, p);
    }
  }

  lemma SameResidue(x: nat, spc: nat)
    requires spc == 1 || spc == 2 || spc == 4 || spc == 8
    ensures x % spc == (x % 8) % spc
  {
  }

  /** The pattern assigns a pixel to the pass on whose grid it lies. */
  lemma PassIsGrid(x: nat, y: nat, p: nat)
    requires p < 7
    ensures PassOf(x, y) < 7
    ensures PassOf(x, y) == p <==> OnGrid(x, XOrig(p), XSpc(p)) && OnGrid(y, YOrig(p), YSpc(p))
  {
    CellIsGrid(x % 8, y % 8, p);
    SameResidue(x, XSpc(p));
    SameResidue(y, YSpc(p));
  }

  /** Position number `i` of a grid. */
  function Step(i: nat, orig: nat, spc: nat): nat { i * spc + orig }

  /** A grid position below `n` is one of those counted. */
  lemma StepIndex(n: nat, orig: nat, spc: nat, x: nat)
    requires orig < spc && x < n && OnGrid(x, orig, spc)
    ensures x / spc < Steps(n, orig, spc) && x == Step(x / spc, orig, spc)
  {
    var k, a := x / spc, n - orig + spc - 1;
    assert x == k * spc + orig;
    Quotient(a, spc);
    MulSum(k, 1, spc);
    if a / spc <= k {
      MulMonotone(a / spc + 1, k + 1, spc);
    }
  }

  /** Those counted are grid positions below `n`, one for each number. */
  lemma StepInside(n: nat, orig: nat, spc: nat, i: nat)
    requires orig < spc && i < Steps(n, orig, spc)
    ensures Step(i, orig, spc) < n && OnGrid(Step(i, orig, spc), orig, spc) && Step(i, orig, spc) / spc == i
  {
    var a := n - orig + spc - 1;
    Quotient(a, spc);
    MulSum(i, 1, spc);
    MulMonotone(i + 1, a / spc, spc);
    DivUnique(Step(i, orig, spc), spc, i, orig);
  }

  /** Place `(i, j)` of pass `p` exists and is pixel `(x, y)` of the image. */
  ghost predicate Lands(w: nat, h: nat, p: nat, i: nat, j: nat, x: nat, y: nat) {
    && p < 7 && i < PassWidth(w, p) && j < PassHeight(h, p)
    && x == Step(i, XOrig(p), XSpc(p)) && y == Step(j, YOrig(p), YSpc(p))
  }

  /** The passes' places land on distinct pixels of the image, and on every pixel: (x, y) is written by
      place (x / xspc, y / yspc) of its pattern's pass, and by no other place of any pass. */
  lemma EachPixelOnce(w: nat, h: nat, x: nat, y: nat, p: nat, i: nat, j: nat)
    ensures Lands(w, h, p, i, j, x, y) <==>
      x < w && y < h && p == PassOf(x, y) && i == x / XSpc(p) && j == y / YSpc(p)
  {
    if p < 7 {
      PassIsGrid(x, y, p);
      if Lands(w, h, p, i, j, x, y) {
        StepInside(w, XOrig(p), XSpc(p), i);
        StepInside(h, YOrig(p), YSpc(p), j);
      } else if x < w && y < h && p == PassOf(x, y) {
        StepIndex(w, XOrig(p), XSpc(p), x);
        StepIndex(h, YOrig(p), YSpc(p), y);
      }
    } else {
      PassIsGrid(x, y, 0);
    }
  }

  // Pixels in row order.

  function Flat(w: nat, x: nat, y: nat): nat { y * w + x }

  lemma FlatBound(w: nat, h: nat, x: nat, y: nat)
    requires x < w && y < h
    ensures Flat(w, x, y) < w * h
  {
    MulMonotone(y + 1, h, w);
    MulSum(y, 1, w);
  }

  lemma FlatInverse(w: nat, h: nat, n: nat)
    requires n < w * h
    ensures w > 0 && n % w < w && n / w < h && Flat(w, n % w, n / w) == n
  {
    assert w > 0;
    assert n == (n / w) * w + n % w;
    if n / w >= h {
      MulMonotone(h, n / w, w);
    }
  }

  lemma FlatParts(w: nat, x: nat, y: nat)
    requires x < w
    ensures Flat(w, x, y) % w == x && Flat(w, x, y) / w == y
  {
    DivUnique(Flat(w, x, y), w, y, x);
  }

  /** The seven reduced images have the sizes of their passes. */
  ghost predicate Sized<T>(w: nat, h: nat, passes: seq<seq<T>>) {
    |passes| == 7 && forall p :: 0 <= p < 7 ==> |passes[p]| == PassWidth(w, p) * PassHeight(h, p)
  }

  lemma PlaceExists(w: nat, h: nat, x: nat, y: nat)
    requires x < w && y < h
    ensures
      var p := PassOf(x, y);
      p < 7 && x / XSpc(p) < PassWidth(w, p) && y / YSpc(p) < PassHeight(h, p) &&
      Flat(PassWidth(w, p), x / XSpc(p), y / YSpc(p)) < PassWidth(w, p) * PassHeight(h, p)
  {
    var p := PassOf(x, y);
    PassIsGrid(x, y, 0);
    EachPixelOnce(w, h, x, y, p, x / XSpc(p), y / YSpc(p));
    FlatBound(PassWidth(w, p), PassHeight(h, p), x / XSpc(p), y / YSpc(p));
  }

  /** The pixel the passes hold for (x, y). */
  ghost function PixelAt<T>(w: nat, h: nat, passes: seq<seq<T>>, x: nat, y: nat): T
    requires Sized(w, h, passes) && x < w && y < h
  {
    PlaceExists(w, h, x, y);
    var p := PassOf(x, y);
    passes[p][Flat(PassWidth(w, p), x / XSpc(p), y / YSpc(p))]
  }

  /** The image the passes stand for. */
  ghost function Assembled<T>(w: nat, h: nat, passes: seq<seq<T>>): (r: seq<T>)
    requires Sized(w, h, passes)
    ensures |r| == w * h
  {
    seq(w * h, n requires 0 <= n < w * h =>
      FlatInverse(w, h, n);
      PixelAt(w, h, passes, n % w, n / w))
  }

  lemma AssembledAt<T>(w: nat, h: nat, passes: seq<seq<T>>, x: nat, y: nat)
    requires Sized(w, h, passes) && x < w && y < h
    ensures Flat(w, x, y) < w * h && Assembled(w, h, passes)[Flat(w, x, y)] == PixelAt(w, h, passes, x, y)
  {
    FlatBound(w, h, x, y);
    FlatParts(w, x, y);
  }

  /** Where place (i, j) of pass `p` is in the image. */
  function PlaceIndex(w: nat, p: nat, i: nat, j: nat): nat {
    Flat(w, Step(i, XOrig(p), XSpc(p)), Step(j, YOrig(p), YSpc(p)))
  }

  /** The image holds at each pass's places what that pass holds. */
  lemma AssembledPlace<T>(w: nat, h: nat, passes: seq<seq<T>>, p: nat, i: nat, j: nat)
    requires Sized(w, h, passes) && p < 7 && i < PassWidth(w, p) && j < PassHeight(h, p)
    ensures PlaceIndex(w, p, i, j) < w * h && Flat(PassWidth(w, p), i, j) < |passes[p]|
    ensures Assembled(w, h, passes)[PlaceIndex(w, p, i, j)] == passes[p][Flat(PassWidth(w, p), i, j)]
  {
    var x, y := Step(i, XOrig(p), XSpc(p)), Step(j, YOrig(p), YSpc(p));
    EachPixelOnce(w, h, x, y, p, i, j);
    assert Lands(w, h, p, i, j, x, y);
    AssembledAt(w, h, passes, x, y);
    FlatBound(PassWidth(w, p), PassHeight(h, p), i, j);
  }

  /** Every pixel is some pass's place. */
  lemma EveryIndex(w: nat, h: nat, n: nat) returns (p: nat, i: nat, j: nat)
    requires n < w * h
    ensures p < 7 && i < PassWidth(w, p) && j < PassHeight(h, p) && PlaceIndex(w, p, i, j) == n
  {
    FlatInverse(w, h, n);
    var x, y := n % w, n / w;
    PlaceExists(w, h, x, y);
    p := PassOf(x, y);
    i, j := x / XSpc(p), y / YSpc(p);
    EachPixelOnce(w, h, x, y, p, i, j);
    assert Lands(w, h, p, i, j, x, y);
  }

  /** The pixels in `done` have their final values. */
  ghost predicate Agrees<T>(got: seq<T>, want: seq<T>, done: set<nat>) {
    |got| == |want| && forall n :: n in done ==> n < |want| && got[n] == want[n]
  }

  /** A pass's pixels, `x` to a row, are those the image is to have at the pass's places in row `j`. */
  ghost predicate RowFits<T>(w: nat, p: nat, x: nat, j: nat, pass: seq<T>, want: seq<T>) {
    forall i: nat :: i < x ==>
      PlaceIndex(w, p, i, j) < |want| && Flat(x, i, j) < |pass| && want[PlaceIndex(w, p, i, j)] == pass[Flat(x, i, j)]
  }

  /** The first `i` places of row `j` of a pass are among those done. */
  ghost predicate RowDone(w: nat, p: nat, i: nat, j: nat, done: set<nat>) {
    forall k: nat :: k < i ==> PlaceIndex(w, p, k, j) in done
  }

  lemma RowStaysDone(w: nat, p: nat, i: nat, j: nat, done: set<nat>, all: set<nat>)
    requires RowDone(w, p, i, j, done) && done <= all
    ensures RowDone(w, p, i, j, all)
  {
  }

  /** The inner loop, for one row of one pass. */
  method CopyRow<T>(w: nat, p: nat, x: nat, j: nat, pass: seq<T>, final: array<T>, ghost want: seq<T>,
                    ghost done: set<nat>)
    returns (ghost all: set<nat>)
    requires RowFits(w, p, x, j, pass, want) && Agrees(final[..], want, done)
    modifies final
    ensures Agrees(final[..], want, all) && done <= all && RowDone(w, p, x, j, all)
  {
    all := done;
    for i := 0 to x
      invariant Agrees(final[..], want, all) && done <= all && RowDone(w, p, i, j, all)
    {
      var outY, outX := j * YSpc(p) + YOrig(p), i * XSpc(p) + XOrig(p);
      var n := outY * w + outX;
      assert n == PlaceIndex(w, p, i, j);
      all := PutPixel(final, n, pass[Flat(x, i, j)], want, all);
    }
  }

  /** Every row of a pass is done. */
  ghost predicate RowsDone(w: nat, p: nat, x: nat, y: nat, done: set<nat>) {
    forall j: nat :: j < y ==> RowDone(w, p, x, j, done)
  }

  lemma RowsStayDone(w: nat, p: nat, x: nat, y: nat, done: set<nat>, all: set<nat>)
    requires RowsDone(w, p, x, y, done) && done <= all
    ensures RowsDone(w, p, x, y, all)
  {
    forall j: nat | j < y ensures RowDone(w, p, x, j, all) {
      RowStaysDone(w, p, x, j, done, all);
    }
  }

  /** The two inner loops, for one pass of `x` by `y` pixels. */
  method CopyPass<T>(w: nat, p: nat, x: nat, y: nat, pass: seq<T>, final: array<T>, ghost want: seq<T>,
                     ghost done: set<nat>)
    returns (ghost all: set<nat>)
    requires (forall j: nat :: j < y ==> RowFits(w, p, x, j, pass, want)) && Agrees(final[..], want, done)
    modifies final
    ensures Agrees(final[..], want, all) && done <= all && RowsDone(w, p, x, y, all)
  {
    all := done;
    for j := 0 to y
      invariant Agrees(final[..], want, all) && done <= all && RowsDone(w, p, x, j, all)
    {
      ghost var before := all;
      all := CopyRow(w, p, x, j, pass, final, want, all);
      RowsStayDone(w, p, x, j, before, all);
    }
  }

  method PutPixel<T>(final: array<T>, n: nat, v: T, ghost want: seq<T>, ghost done: set<nat>)
    returns (ghost all: set<nat>)
    requires Agrees(final[..], want, done) && n < |want| && v == want[n]
    modifies final
    ensures all == done + {n} && Agrees(final[..], want, all)
  {
    ghost var was := final[..];
    final[n] := v;
    assert final[..] == was[n := v];
    all := done + {n};
  }

  lemma PassFits<T>(w: nat, h: nat, passes: seq<seq<T>>, p: nat, x: nat, j: nat, pass: seq<T>, want: seq<T>)
    requires Sized(w, h, passes) && p < 7 && x == PassWidth(w, p) && j < PassHeight(h, p)
    requires pass == passes[p] && want == Assembled(w, h, passes)
    ensures RowFits(w, p, x, j, pass, want)
  {
    forall i: nat | i < x
      ensures PlaceIndex(w, p, i, j) < |want| && Flat(x, i, j) < |pass|
      ensures want[PlaceIndex(w, p, i, j)] == pass[Flat(x, i, j)]
    {
      AssembledPlace(w, h, passes, p, i, j);
    }
  }

  /** Every place of pass `p` is done. */
  ghost predicate PassDone(w: nat, h: nat, p: nat, done: set<nat>)
    requires p < 7
  {
    RowsDone(w, p, PassWidth(w, p), PassHeight(h, p), done)
  }

  lemma PassStaysDone(w: nat, h: nat, p: nat, done: set<nat>, all: set<nat>)
    requires p < 7 && PassDone(w, h, p, done) && done <= all
    ensures PassDone(w, h, p, all)
  {
    RowsStayDone(w, p, PassWidth(w, p), PassHeight(h, p), done, all);
  }

  /** One round of the pass loop. */
  method RunPass<T>(w: nat, h: nat, passes: seq<seq<T>>, p: nat, final: array<T>, ghost want: seq<T>,
                    ghost done: set<nat>)
    returns (ghost all: set<nat>)
    requires Sized(w, h, passes) && p < 7 && want == Assembled(w, h, passes) && Agrees(final[..], want, done)
    modifies final
    ensures Agrees(final[..], want, all) && done <= all && PassDone(w, h, p, all)
  {
    var x, y := PassWidth(w, p), PassHeight(h, p);
    all := done;
    if x != 0 && y != 0 {
      forall j: nat | j < y ensures RowFits(w, p, x, j, passes[p], want) {
        PassFits(w, h, passes, p, x, j, passes[p], want);
      }
      all := CopyPass(w, p, x, y, passes[p], final, want, done);
    }
  }

  /** When every pass is done, every pixel is. */
  lemma AllDone(w: nat, h: nat, done: set<nat>, n: nat)
    requires n < w * h && forall p: nat :: p < 7 ==> PassDone(w, h, p, done)
    ensures n in done
  {
    var p, i, j := EveryIndex(w, h, n);
    assert PassDone(w, h, p, done);
    assert RowDone(w, p, PassWidth(w, p), j, done);
  }

  /** The pass loop. */
  method Deinterlace<T>(w: nat, h: nat, passes: seq<seq<T>>, final: array<T>)
    requires Sized(w, h, passes) && final.Length == w * h
    modifies final
    ensures final[..] == Assembled(w, h, passes)
  {
    ghost var want := Assembled(w, h, passes);
    ghost var done: set<nat> := {};
    for p := 0 to 7
      invariant Agrees(final[..], want, done)
      invariant forall q: nat :: q < p ==> PassDone(w, h, q, done)
    {
      ghost var before := done;
      done := RunPass(w, h, passes, p, final, want, done);
      forall q: nat | q < p ensures PassDone(w, h, q, done) {
        assert PassDone(w, h, q, before);
        PassStaysDone(w, h, q, before, done);
      }
    }
    forall n: nat | n < w * h ensures n in done {
      AllDone(w, h, done, n);
    }
  }

  /** The passes of an image, as an encoder takes them. */
  function PassPixels<T>(w: nat, h: nat, image: seq<T>, p: nat): (r: seq<T>)
    requires |image| == w * h && p < 7
    ensures |r| == PassWidth(w, p) * PassHeight(h, p)
  {
    seq(PassWidth(w, p) * PassHeight(h, p), n requires 0 <= n < PassWidth(w, p) * PassHeight(h, p) =>
      PlaceOfIndex(w, h, p, n);
      image[PlaceIndex(w, p, n % PassWidth(w, p), n / PassWidth(w, p))])
  }

  lemma PlaceOfIndex(w: nat, h: nat, p: nat, n: nat)
    requires p < 7 && n < PassWidth(w, p) * PassHeight(h, p)
    ensures PassWidth(w, p) > 0 && n % PassWidth(w, p) < PassWidth(w, p) && n / PassWidth(w, p) < PassHeight(h, p)
    ensures PlaceIndex(w, p, n % PassWidth(w, p), n / PassWidth(w, p)) < w * h
  {
    FlatInverse(PassWidth(w, p), PassHeight(h, p), n);
    var i, j := n % PassWidth(w, p), n / PassWidth(w, p);
    var x, y := Step(i, XOrig(p), XSpc(p)), Step(j, YOrig(p), YSpc(p));
    EachPixelOnce(w, h, x, y, p, i, j);
    assert Lands(w, h, p, i, j, x, y);
    FlatBound(w, h, x, y);
  }

  /** De-interlacing the passes of an image gives the image back. */
  lemma AssembledOfPasses<T>(w: nat, h: nat, image: seq<T>, passes: seq<seq<T>>)
    requires |image| == w * h && |passes| == 7
    requires forall p :: 0 <= p < 7 ==> passes[p] == PassPixels(w, h, image, p)
    ensures Sized(w, h, passes) && Assembled(w, h, passes) == image
  {
    forall n: nat | n < w * h ensures Assembled(w, h, passes)[n] == image[n] {
      var p, i, j := EveryIndex(w, h, n);
      AssembledPlace(w, h, passes, p, i, j);
      FlatParts(PassWidth(w, p), i, j);
      assert passes[p] == PassPixels(w, h, image, p);
    }
  }
}
