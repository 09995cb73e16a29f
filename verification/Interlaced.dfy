/** An interlaced image of stbi__create_png_image as a whole: seven slices of filtered data, unfiltered one after
    another and put together.  Samples have 8 bits, and a pixel is its `fb` bytes. */
module Interlaced {
  import opened Bits
  import opened PngFilter
  import opened Adam7

  // The slices.

  function RowSize(w: nat, fb: nat, p: nat): nat
    requires p < 7
  {
    fb * PassWidth(w, p)
  }

  /** A pass without pixels has no data. */
  predicate Skipped(w: nat, h: nat, p: nat)
    requires p < 7
  {
    PassWidth(w, p) == 0 || PassHeight(h, p) == 0
  }

  function RowCount(w: nat, h: nat, p: nat): nat
    requires p < 7
  {
    if Skipped(w, h, p) then 0 else PassHeight(h, p)
  }

  /** Where the data of pass `p` begin: img_len for each pass before. */
  function SliceStart(w: nat, h: nat, fb: nat, p: nat): nat
    requires p <= 7
  {
    if p == 0 then 0
    else SliceStart(w, h, fb, p - 1) + Offset(RowSize(w, fb, p - 1), RowCount(w, h, p - 1))
  }

  /** The data of pass `p` suffice and their filter bytes are known. */
  ghost predicate SliceOk(raw: Row, w: nat, h: nat, fb: nat, p: nat)
    requires p < 7
  {
    && SliceStart(w, h, fb, p + 1) <= |raw|
    && AllFilters(raw[SliceStart(w, h, fb, p)..], RowSize(w, fb, p), RowCount(w, h, p))
  }

  ghost predicate SlicesOk(raw: Row, w: nat, h: nat, fb: nat, n: nat)
    requires n <= 7
  {
    forall p :: 0 <= p < n ==> SliceOk(raw, w, h, fb, p)
  }

  /** The rows of pass `p` are what its data stand for. */
  ghost predicate SliceHolds(raw: Row, w: nat, h: nat, fb: nat, p: nat, rows: seq<Row>)
    requires p < 7
  {
    && SliceStart(w, h, fb, p) <= |raw| && |rows| == RowCount(w, h, p)
    && ImageReconstructed(raw[SliceStart(w, h, fb, p)..], RowSize(w, fb, p), fb, rows)
  }

  /** The data determine the rows. */
  lemma SliceUnique(raw: Row, w: nat, h: nat, fb: nat, p: nat, rows: seq<Row>, others: seq<Row>)
    requires fb > 0 && p < 7 && SliceHolds(raw, w, h, fb, p, rows) && SliceHolds(raw, w, h, fb, p, others)
    ensures rows == others
  {
    ImageUnique(raw[SliceStart(w, h, fb, p)..], RowSize(w, fb, p), fb, rows, others, |rows|);
    assert rows == rows[..|rows|] && others == others[..|rows|];
  }

  // Pixels and rows of bytes.

  ghost predicate RowsSized(rows: seq<Row>, nk: nat) {
    forall j :: 0 <= j < |rows| ==> |rows[j]| == nk
  }

  lemma ReconstructedSized(raw: Row, nk: nat, fb: nat, rows: seq<Row>)
    requires ImageReconstructed(raw, nk, fb, rows)
    ensures RowsSized(rows, nk)
  {
    forall j | 0 <= j < |rows| ensures |rows[j]| == nk {
      assert RowReconstructed(raw, nk, fb, rows, j);
    }
  }

  /** Pixel `i` of a row of bytes. */
  function PixelOf(row: Row, fb: nat, x: nat, i: nat): Row
    requires |row| == fb * x && i < x
  {
    PixelInside(fb, x, i);
    row[fb * i..fb * i + fb]
  }

  lemma PixelInside(fb: nat, x: nat, i: nat)
    requires i < x
    ensures 0 <= fb * i && fb * i + fb <= fb * x
  {
    MulMonotone(i + 1, x, fb);
    MulSum(i, 1, fb);
    assert fb * i == i * fb && fb * x == x * fb;
  }

  /** The pixels of some rows, in row order. */
  function PixelsOf(rows: seq<Row>, fb: nat, x: nat): (r: seq<Row>)
    requires RowsSized(rows, fb * x)
    ensures |r| == x * |rows|
  {
    seq<Row>(x * |rows|, n requires 0 <= n < x * |rows| =>
      FlatInverse(x, |rows|, n);
      PixelOf(rows[n / x], fb, x, n % x))
  }

  ghost predicate PixelsSized(pixels: seq<Row>, fb: nat) {
    forall n :: 0 <= n < |pixels| ==> |pixels[n]| == fb
  }

  /** The bytes of some pixels, one after another. */
  function BytesOf(pixels: seq<Row>, fb: nat): (r: Row)
    requires PixelsSized(pixels, fb)
    ensures |r| == fb * |pixels|
  {
    seq<Sample>(fb * |pixels|, k requires 0 <= k < fb * |pixels| =>
      FlatInverse(fb, |pixels|, k);
      pixels[k / fb][k % fb])
  }

  lemma PixelOfBytes(pixels: seq<Row>, fb: nat, i: nat)
    requires PixelsSized(pixels, fb) && i < |pixels|
    ensures PixelOf(BytesOf(pixels, fb), fb, |pixels|, i) == pixels[i]
  {
    PixelInside(fb, |pixels|, i);
    var r := PixelOf(BytesOf(pixels, fb), fb, |pixels|, i);
    forall t | 0 <= t < fb ensures r[t] == pixels[i][t] {
      DivUnique(fb * i + t, fb, i, t);
    }
  }

  /** Row `j` of pixels that stand in rows of `x`. */
  function RowAt(pixels: seq<Row>, x: nat, y: nat, j: nat): (r: seq<Row>)
    requires |pixels| == x * y && j < y
    ensures |r| == x
  {
    PixelInside(x, y, j);
    pixels[x * j..x * j + x]
  }

  lemma RowAtSized(pixels: seq<Row>, fb: nat, x: nat, y: nat, j: nat)
    requires |pixels| == x * y && j < y && PixelsSized(pixels, fb)
    ensures PixelsSized(RowAt(pixels, x, y, j), fb)
  {
    PixelInside(x, y, j);
  }

  /** The bytes of row `j` of some pixels. */
  function RowBytesOf(pixels: seq<Row>, fb: nat, x: nat, y: nat, j: nat): (r: Row)
    requires |pixels| == x * y && j < y && PixelsSized(pixels, fb)
    ensures |r| == fb * x
  {
    RowAtSized(pixels, fb, x, y, j);
    BytesOf(RowAt(pixels, x, y, j), fb)
  }

  /** The rows of bytes of some pixels. */
  function RowsOf(pixels: seq<Row>, fb: nat, x: nat, y: nat): (r: seq<Row>)
    requires |pixels| == x * y && PixelsSized(pixels, fb)
    ensures |r| == y && RowsSized(r, fb * x)
  {
    seq<Row>(y, j requires 0 <= j < y => RowBytesOf(pixels, fb, x, y, j))
  }

  lemma PixelOfRow(pixels: seq<Row>, fb: nat, x: nat, y: nat, i: nat, j: nat)
    requires |pixels| == x * y && PixelsSized(pixels, fb) && i < x && j < y
    ensures Flat(x, i, j) < |pixels| && PixelOf(RowBytesOf(pixels, fb, x, y, j), fb, x, i) == pixels[Flat(x, i, j)]
  {
    RowAtSized(pixels, fb, x, y, j);
    PixelOfBytes(RowAt(pixels, x, y, j), fb, i);
    FlatBound(x, y, i, j);
    PixelInside(x, y, j);
    assert x * j == j * x;
  }

  /** Cutting the rows into pixels gives the pixels back. */
  lemma PixelsOfRows(pixels: seq<Row>, fb: nat, x: nat, y: nat)
    requires |pixels| == x * y && PixelsSized(pixels, fb)
    ensures PixelsOf(RowsOf(pixels, fb, x, y), fb, x) == pixels
  {
    var again := PixelsOf(RowsOf(pixels, fb, x, y), fb, x);
    forall n | 0 <= n < |pixels| ensures again[n] == pixels[n] {
      PixelNumber(pixels, fb, x, y, n);
    }
  }

  lemma PixelNumber(pixels: seq<Row>, fb: nat, x: nat, y: nat, n: nat)
    requires |pixels| == x * y && PixelsSized(pixels, fb) && n < x * y
    ensures PixelsOf(RowsOf(pixels, fb, x, y), fb, x)[n] == pixels[n]
  {
    FlatInverse(x, y, n);
    PixelOfRow(pixels, fb, x, y, n % x, n / x);
  }

  // The data of an image.

  /** One filter for each row of each pass. */
  ghost predicate FiltersFor(w: nat, h: nat, filters: seq<seq<Filter>>) {
    |filters| == 7 && forall p :: 0 <= p < 7 ==> |filters[p]| == RowCount(w, h, p)
  }

  ghost predicate ImageSized(w: nat, h: nat, fb: nat, image: seq<Row>) { |image| == w * h && PixelsSized(image, fb) }

  lemma PassPixelsSized(w: nat, h: nat, fb: nat, image: seq<Row>, p: nat)
    requires ImageSized(w, h, fb, image) && p < 7
    ensures PixelsSized(PassPixels(w, h, image, p), fb)
  {
    var pixels := PassPixels(w, h, image, p);
    forall n | 0 <= n < |pixels| ensures |pixels[n]| == fb {
      PlaceOfIndex(w, h, p, n);
    }
  }

  /** The rows of bytes of a pass. */
  function PassRows(w: nat, h: nat, fb: nat, image: seq<Row>, p: nat): (r: seq<Row>)
    requires ImageSized(w, h, fb, image) && p < 7
    ensures |r| == RowCount(w, h, p) && RowsSized(r, RowSize(w, fb, p))
  {
    PassPixelsSized(w, h, fb, image, p);
    if Skipped(w, h, p) then []
    else RowsOf(PassPixels(w, h, image, p), fb, PassWidth(w, p), PassHeight(h, p))
  }

  lemma PassRowsPixels(w: nat, h: nat, fb: nat, image: seq<Row>, p: nat)
    requires ImageSized(w, h, fb, image) && p < 7
    ensures PixelsOf(PassRows(w, h, fb, image, p), fb, PassWidth(w, p)) == PassPixels(w, h, image, p)
  {
    PassPixelsSized(w, h, fb, image, p);
    if Skipped(w, h, p) {
      assert PassWidth(w, p) * PassHeight(h, p) == 0;
    } else {
      PixelsOfRows(PassPixels(w, h, image, p), fb, PassWidth(w, p), PassHeight(h, p));
    }
  }

  function PassData(w: nat, h: nat, fb: nat, image: seq<Row>, filters: seq<seq<Filter>>, p: nat): Row
    requires ImageSized(w, h, fb, image) && FiltersFor(w, h, filters) && p < 7
  {
    FilteredImage(filters[p], fb, PassRows(w, h, fb, image, p))
  }

  /** The data of each pass. */
  function Slices(w: nat, h: nat, fb: nat, image: seq<Row>, filters: seq<seq<Filter>>): (r: seq<Row>)
    requires ImageSized(w, h, fb, image) && FiltersFor(w, h, filters)
    ensures |r| == 7
  {
    seq<Row>(7, p requires 0 <= p < 7 => PassData(w, h, fb, image, filters, p))
  }

  /** The first `n` of some slices, one after another. */
  function Concat(slices: seq<Row>, n: nat): Row
    requires n <= |slices|
  {
    if n == 0 then [] else Concat(slices, n - 1) + slices[n - 1]
  }

  /** The data of an image. */
  function Encoded(w: nat, h: nat, fb: nat, image: seq<Row>, filters: seq<seq<Filter>>): Row
    requires ImageSized(w, h, fb, image) && FiltersFor(w, h, filters)
  {
    Concat(Slices(w, h, fb, image, filters), 7)
  }

  lemma PassDataSize(w: nat, h: nat, fb: nat, image: seq<Row>, filters: seq<seq<Filter>>, p: nat)
    requires ImageSized(w, h, fb, image) && FiltersFor(w, h, filters) && p < 7
    ensures |Slices(w, h, fb, image, filters)[p]| == Offset(RowSize(w, fb, p), RowCount(w, h, p))
  {
    ImageRoundTrip(filters[p], RowSize(w, fb, p), fb, PassRows(w, h, fb, image, p), []);
  }

  lemma {:induction false} EncodedSize(w: nat, h: nat, fb: nat, image: seq<Row>, filters: seq<seq<Filter>>, n: nat)
    requires ImageSized(w, h, fb, image) && FiltersFor(w, h, filters) && n <= 7
    ensures |Concat(Slices(w, h, fb, image, filters), n)| == SliceStart(w, h, fb, n)
  {
    if n > 0 {
      EncodedSize(w, h, fb, image, filters, n - 1);
      PassDataSize(w, h, fb, image, filters, n - 1);
    }
  }

  /** Behind the slices before it stands slice `p`, and then the rest. */
  lemma {:induction false} ConcatFrom(slices: seq<Row>, n: nat, tail: Row, p: nat) returns (rest: Row)
    requires p < n <= |slices|
    ensures Concat(slices, n) + tail == Concat(slices, p) + (slices[p] + rest)
    decreases n
  {
    var front, last := Concat(slices, n - 1), slices[n - 1];
    assert front + last + tail == front + (last + tail);
    if p == n - 1 {
      rest := tail;
    } else {
      rest := ConcatFrom(slices, n - 1, last + tail, p);
    }
  }

  lemma KnownFilters(raw: Row, nk: nat, fb: nat, rows: seq<Row>)
    requires ImageReconstructed(raw, nk, fb, rows)
    ensures AllFilters(raw, nk, |rows|)
  {
    forall j | 0 <= j < |rows| && Offset(nk, j) < |raw| ensures FilterByte(raw, nk, j) <= 4 {
      assert RowReconstructed(raw, nk, fb, rows, j);
    }
  }

  /** Each slice of the data of an image is in order and holds that pass's rows. */
  lemma EncodedHolds(w: nat, h: nat, fb: nat, image: seq<Row>, filters: seq<seq<Filter>>, tail: Row, p: nat, raw: Row)
    requires ImageSized(w, h, fb, image) && FiltersFor(w, h, filters) && p < 7
    requires raw == Encoded(w, h, fb, image, filters) + tail
    ensures SliceOk(raw, w, h, fb, p) && SliceHolds(raw, w, h, fb, p, PassRows(w, h, fb, image, p))
  {
    var slices := Slices(w, h, fb, image, filters);
    var rest := ConcatFrom(slices, 7, tail, p);
    var rows, nk, data := PassRows(w, h, fb, image, p), RowSize(w, fb, p), slices[p] + rest;
    EncodedSize(w, h, fb, image, filters, p);
    PassDataSize(w, h, fb, image, filters, p);
    assert raw[SliceStart(w, h, fb, p)..] == data;
    ImageRoundTrip(filters[p], nk, fb, rows, rest);
    KnownFilters(data, nk, fb, rows);
  }

  // Decoding.

  /** The data of pass `p`, unfiltered and cut into pixels. */
  method DecodePass(raw: Row, pos: nat, w: nat, h: nat, fb: nat, p: nat)
    returns (ok: bool, pixels: seq<Row>, ghost rows: seq<Row>)
    requires fb > 0 && p < 7 && pos == SliceStart(w, h, fb, p) <= |raw|
    ensures ok <==> SliceOk(raw, w, h, fb, p)
    ensures ok ==> FoundPass(raw, w, h, fb, p, rows, pixels)
  {
    var x, y := PassWidth(w, p), PassHeight(h, p);
    ok, pixels, rows := true, [], [];
    if x == 0 || y == 0 {
      assert x * y == 0;
      return;
    }
    var nk := fb * x;
    AtLeastOne(fb, x);
    var buf := new Sample[2 * nk](_ => 0);
    var found;
    ok, found := Unfilter(raw[pos..], y, nk, fb, buf);
    if ok {
      ReconstructedSized(raw[pos..], nk, fb, found);
      pixels, rows := PixelsOf(found, fb, x), found;
    }
  }

  lemma AtLeastOne(fb: nat, x: nat)
    requires x > 0
    ensures fb <= fb * x
  {
    MulMonotone(1, x, fb);
  }

  /** What decoding finds: the rows and the pixels of each of the first `n` passes. */
  ghost predicate Found(raw: Row, w: nat, h: nat, fb: nat, rows: seq<seq<Row>>, passes: seq<seq<Row>>, n: nat) {
    && |rows| == |passes| == n <= 7
    && forall p :: 0 <= p < n ==> FoundPass(raw, w, h, fb, p, rows[p], passes[p])
  }

  ghost predicate FoundPass(raw: Row, w: nat, h: nat, fb: nat, p: nat, rows: seq<Row>, pixels: seq<Row>)
    requires p < 7
  {
    && SliceHolds(raw, w, h, fb, p, rows) && RowsSized(rows, RowSize(w, fb, p))
    && pixels == PixelsOf(rows, fb, PassWidth(w, p)) && |pixels| == PassWidth(w, p) * PassHeight(h, p)
  }

  /** The seven passes, decoded one after another from their slices and then put together.  It succeeds exactly when
      every slice is in order. */
  method Decode(raw: Row, w: nat, h: nat, fb: nat, final: array<Row>)
    returns (ok: bool, ghost rows: seq<seq<Row>>, ghost passes: seq<seq<Row>>)
    requires fb > 0 && final.Length == w * h
    modifies final
    ensures ok <==> SlicesOk(raw, w, h, fb, 7)
    ensures ok ==> Found(raw, w, h, fb, rows, passes, 7) && Sized(w, h, passes) && final[..] == Assembled(w, h, passes)
  {
    var all;
    ok, all, rows := DecodePasses(raw, w, h, fb);
    passes := all;
    if ok {
      SizedOfFound(raw, w, h, fb, rows, passes);
      Deinterlace(w, h, all, final);
    }
  }

  /** The loop over the slices. */
  method DecodePasses(raw: Row, w: nat, h: nat, fb: nat)
    returns (ok: bool, passes: seq<seq<Row>>, ghost rows: seq<seq<Row>>)
    requires fb > 0
    ensures ok <==> SlicesOk(raw, w, h, fb, 7)
    ensures ok ==> Found(raw, w, h, fb, rows, passes, 7)
  {
    var pos := 0;
    passes, rows := [], [];
    for p := 0 to 7
      invariant pos == SliceStart(w, h, fb, p) <= |raw| && Found(raw, w, h, fb, rows, passes, p)
      invariant SlicesOk(raw, w, h, fb, p)
    {
      var done, pixels;
      ghost var found;
      done, pixels, found := DecodePass(raw, pos, w, h, fb, p);
      if !done {
        return false, passes, rows;
      }
      FoundNext(raw, w, h, fb, rows, passes, p, found, pixels);
      pos := pos + Offset(fb * PassWidth(w, p), RowCount(w, h, p));
      passes, rows := passes + [pixels], rows + [found];
    }
    ok := true;
  }

  lemma FoundNext(raw: Row, w: nat, h: nat, fb: nat, rows: seq<seq<Row>>, passes: seq<seq<Row>>, n: nat,
                  found: seq<Row>, pixels: seq<Row>)
    requires n < 7 && Found(raw, w, h, fb, rows, passes, n) && FoundPass(raw, w, h, fb, n, found, pixels)
    ensures Found(raw, w, h, fb, rows + [found], passes + [pixels], n + 1)
  {
  }

  lemma SizedOfFound(raw: Row, w: nat, h: nat, fb: nat, rows: seq<seq<Row>>, passes: seq<seq<Row>>)
    requires Found(raw, w, h, fb, rows, passes, 7)
    ensures Sized(w, h, passes)
  {
    forall p | 0 <= p < 7 ensures |passes[p]| == PassWidth(w, p) * PassHeight(h, p) {
      assert FoundPass(raw, w, h, fb, p, rows[p], passes[p]);
    }
  }

  /** Whatever the data of an image are decoded to, it is the image. */
  lemma FoundIsImage(w: nat, h: nat, fb: nat, image: seq<Row>, filters: seq<seq<Filter>>, tail: Row, raw: Row,
                     rows: seq<seq<Row>>, passes: seq<seq<Row>>)
    requires fb > 0 && ImageSized(w, h, fb, image) && FiltersFor(w, h, filters)
    requires raw == Encoded(w, h, fb, image, filters) + tail && Found(raw, w, h, fb, rows, passes, 7)
    ensures Sized(w, h, passes) && Assembled(w, h, passes) == image
  {
    forall p | 0 <= p < 7 ensures passes[p] == PassPixels(w, h, image, p) {
      assert FoundPass(raw, w, h, fb, p, rows[p], passes[p]);
      EncodedHolds(w, h, fb, image, filters, tail, p, raw);
      SliceUnique(raw, w, h, fb, p, rows[p], PassRows(w, h, fb, image, p));
      PassRowsPixels(w, h, fb, image, p);
    }
    AssembledOfPasses(w, h, image, passes);
  }

  /** Interlacing, filtering with any filter for each row of each pass, and decoding again gives the image back. */
  method EncodeDecode(w: nat, h: nat, fb: nat, image: seq<Row>, filters: seq<seq<Filter>>, tail: Row, final: array<Row>)
    returns (ok: bool)
    requires fb > 0 && ImageSized(w, h, fb, image) && FiltersFor(w, h, filters) && final.Length == w * h
    modifies final
    ensures ok && final[..] == image
  {
    var raw := Encoded(w, h, fb, image, filters) + tail;
    forall p | 0 <= p < 7 ensures SliceOk(raw, w, h, fb, p) {
      EncodedHolds(w, h, fb, image, filters, tail, p, raw);
    }
    ghost var rows, passes;
    ok, rows, passes := Decode(raw, w, h, fb, final);
    FoundIsImage(w, h, fb, image, filters, tail, raw, rows, passes);
  }

  /** Byte `t` of pixel `i` of row `j` is byte fb * i + t of that row. */
  lemma PixelMeans(rows: seq<Row>, fb: nat, x: nat, i: nat, j: nat, t: nat)
    requires RowsSized(rows, fb * x) && i < x && j < |rows| && t < fb
    ensures fb * i + t < |rows[j]| && Flat(x, i, j) < x * |rows|
    ensures |PixelsOf(rows, fb, x)[Flat(x, i, j)]| == fb
    ensures PixelsOf(rows, fb, x)[Flat(x, i, j)][t] == rows[j][fb * i + t]
  {
    PixelInside(fb, x, i);
    FlatBound(x, |rows|, i, j);
    FlatParts(x, i, j);
  }

  /** Every byte of the pixels found for a pass: byte `t` of place (i, j) is byte fb * i + t of row j. */
  lemma PassPixelMeans(raw: Row, w: nat, h: nat, fb: nat, p: nat, rows: seq<Row>, pixels: seq<Row>, i: nat, j: nat,
                       t: nat)
    requires p < 7 && FoundPass(raw, w, h, fb, p, rows, pixels)
    requires i < PassWidth(w, p) && j < PassHeight(h, p) && t < fb
    ensures j < |rows| && fb * i + t < |rows[j]| && Flat(PassWidth(w, p), i, j) < |pixels|
    ensures |pixels[Flat(PassWidth(w, p), i, j)]| == fb
    ensures pixels[Flat(PassWidth(w, p), i, j)][t] == rows[j][fb * i + t]
  {
    PixelMeans(rows, fb, PassWidth(w, p), i, j, t);
  }
}
