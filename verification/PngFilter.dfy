/** Row reconstruction of stb_image.h: the unfilter loop of stbi__create_png_image_raw and its kernels. */
module PngFilter {

  type Sample = n: nat | n < 256

  type Row = seq<Sample>

  type Filter = n: nat | n <= 4

  function Abs(x: int): int { if x < 0 then -x else x }

  /** The Paeth predictor of section 9.4 of the PNG Specification. */
  function PaethPredictor(a: int, b: int, c: int): int {
    var p := a + b - c;
    var pa, pb, pc := Abs(p - a), Abs(p - b), Abs(p - c);
    if pa <= pb && pa <= pc then a else if pb <= pc then b else c
  }

  /** stbi__paeth. */
  function Paeth(a: int, b: int, c: int): int {
    var thresh := c * 3 - (a + b);
    var lo, hi := if a < b then a else b, if a < b then b else a;
    var t0 := if hi <= thresh then lo else c;
    if thresh <= lo then hi else t0
  }

  /** The branch-free form is the predictor of the specification, for all integers. */
  lemma PaethIsPredictor(a: int, b: int, c: int)
    ensures Paeth(a, b, c) == PaethPredictor(a, b, c)
  {
  }

  /** What section 9.2 adds to a byte: from the byte to the left, above, and above to the left. */
  function Prediction(filter: nat, a: Sample, b: Sample, c: Sample): int {
    match filter
    case 0 => 0
    case 1 => a
    case 2 => b
    case 3 => (a + b) / 2
    case _ => PaethPredictor(a, b, c)
  }

  /** The byte `fb` places back, or 0 before the row. */
  function Back(row: Row, fb: nat, k: nat): Sample {
    if fb <= k < fb + |row| then row[k - fb] else 0
  }

  function Above(prior: Row, k: nat): Sample {
    if k < |prior| then prior[k] else 0
  }

  /** How a byte of a row is made from its filtered byte and its three neighbours. */
  type Rule = (Sample, Sample, Sample, Sample) -> Sample

  /** The first `n` bytes of `cur` follow the rule, below the row `prior`. */
  ghost predicate Follows(rule: Rule, fb: nat, raw: Row, prior: Row, cur: Row, n: nat) {
    && n <= |raw| == |cur|
    && (forall k :: 0 <= k < n ==> cur[k] == rule(raw[k], Back(cur, fb, k), Above(prior, k), Back(prior, fb, k)))
  }

  /** Section 9.2: the filtered byte plus the prediction, modulo 256. */
  function Recon(filter: nat): Rule {
    (x, a, b, c) => (x + Prediction(filter, a, b, c)) % 256
  }

  /** `cur` is the reconstruction of the filtered row `raw` below the row `prior`. */
  ghost predicate Reconstructs(filter: nat, fb: nat, raw: Row, prior: Row, cur: Row) {
    Follows(Recon(filter), fb, raw, prior, cur, |raw|)
  }

  /** A row has one reconstruction only. */
  lemma ReconstructionUnique(filter: nat, fb: nat, raw: Row, prior: Row, cur: Row, other: Row)
    requires fb > 0 && Reconstructs(filter, fb, raw, prior, cur) && Reconstructs(filter, fb, raw, prior, other)
    ensures cur == other
  {
    FollowedUnique(Recon(filter), fb, raw, prior, cur, other, |raw|);
  }

  lemma {:induction false} FollowedUnique(rule: Rule, fb: nat, raw: Row, prior: Row, cur: Row, other: Row, n: nat)
    requires fb > 0 && Follows(rule, fb, raw, prior, cur, n) && Follows(rule, fb, raw, prior, other, n)
    ensures cur[..n] == other[..n]
  {
    if n > 0 {
      var k := n - 1;
      FollowedUnique(rule, fb, raw, prior, cur, other, k);
      assert forall i :: 0 <= i < k ==> cur[i] == cur[..k][i] && other[i] == other[..k][i];
      assert Back(cur, fb, k) == Back(other, fb, k);
      assert cur[..n] == cur[..k] + [cur[k]] && other[..n] == other[..k] + [other[k]];
    }
  }

  /** Filtering as section 9.2 has the encoder do it. */
  function Filtered(filter: nat, fb: nat, orig: Row, prior: Row): (r: Row)
    ensures |r| == |orig|
  {
    seq<Sample>(|orig|, k requires 0 <= k < |orig| =>
      (orig[k] - Prediction(filter, Back(orig, fb, k), Above(prior, k), Back(prior, fb, k))) % 256)
  }

  lemma SubtractAdd(x: Sample, p: int)
    ensures ((x - p) % 256 + p) % 256 == x
  {
  }

  /** Reconstruction undoes filtering, for every filter. */
  lemma FilteredReconstructs(filter: nat, fb: nat, orig: Row, prior: Row)
    ensures Reconstructs(filter, fb, Filtered(filter, fb, orig, prior), prior, orig)
  {
    forall k | 0 <= k < |orig|
      ensures orig[k] ==
        Recon(filter)(Filtered(filter, fb, orig, prior)[k], Back(orig, fb, k), Above(prior, k), Back(prior, fb, k))
    {
      SubtractAdd(orig[k], Prediction(filter, Back(orig, fb, k), Above(prior, k), Back(prior, fb, k)));
    }
  }

  // The kernels.  Kernel 5 is the first row's average, which does not look at the row above.

  function KernelOf(filter: nat, first: bool): (k: nat)
    requires filter <= 4
    ensures k <= 5
  {
    if !first then filter
    else match filter case 0 => 0 case 1 => 1 case 2 => 0 case 3 => 5 case _ => 1
  }

  function KernelPrediction(kernel: nat, a: Sample, b: Sample, c: Sample): int {
    match kernel
    case 0 => 0
    case 1 => a
    case 2 => b
    case 3 => (b + a) / 2
    case 4 => Paeth(a, b, c)
    case _ => a / 2
  }

  /** The substitute kernels of the first row see zeros above, whatever the other buffer holds. */
  lemma KernelIsFilter(filter: nat, first: bool, a: Sample, b: Sample, c: Sample)
    requires filter <= 4
    ensures KernelPrediction(KernelOf(filter, first), a, b, c)
         == (if first then Prediction(filter, a, 0, 0) else Prediction(filter, a, b, c))
  {
    PaethIsPredictor(a, b, c);
  }

  /** What a kernel stores. */
  function KernelRule(kernel: nat): Rule {
    (x, a, b, c) => (x + KernelPrediction(kernel, a, b, c)) % 256
  }

  /** A row made by the chosen kernel is the reconstruction: below the row above, or below nothing. */
  lemma KernelReconstructs(filter: nat, first: bool, fb: nat, raw: Row, prior: Row, cur: Row)
    requires filter <= 4 && Follows(KernelRule(KernelOf(filter, first)), fb, raw, prior, cur, |raw|)
    ensures Reconstructs(filter, fb, raw, if first then [] else prior, cur)
  {
    var above := if first then [] else prior;
    forall k | 0 <= k < |raw|
      ensures cur[k] == Recon(filter)(raw[k], Back(cur, fb, k), Above(above, k), Back(above, fb, k))
    {
      KernelIsFilter(filter, first, Back(cur, fb, k), Above(prior, k), Back(prior, fb, k));
    }
  }

  /** One half of the workspace holds the row in progress, the other the row above. */
  ghost predicate InProgress(buf: array<Sample>, c: nat, p: nat, rule: Rule, fb: nat, raw: Row, prior: Row, n: nat)
    reads buf
  {
    && c + |raw| <= buf.Length && p + |raw| <= buf.Length
    && (c + |raw| <= p || p + |raw| <= c)
    && buf[p..p + |raw|] == prior
    && Follows(rule, fb, raw, prior, buf[c..c + |raw|], n)
  }

  lemma NextByte(rule: Rule, fb: nat, raw: Row, prior: Row, was: Row, now: Row, k: nat)
    requires fb > 0 && Follows(rule, fb, raw, prior, was, k) && k < |raw|
    requires now == was[k := rule(raw[k], Back(was, fb, k), Above(prior, k), Back(prior, fb, k))]
    ensures Follows(rule, fb, raw, prior, now, k + 1)
  {
    assert forall i :: 0 <= i <= k ==> Back(now, fb, i) == Back(was, fb, i);
  }

  /** Stores the next byte of the row. */
  method Put(buf: array<Sample>, c: nat, p: nat, k: nat, x: Sample, ghost rule: Rule, ghost fb: nat, ghost raw: Row,
             ghost prior: Row)
    requires fb > 0 && InProgress(buf, c, p, rule, fb, raw, prior, k) && k < |raw|
    requires x == rule(raw[k], if k < fb then 0 else buf[c + k - fb], prior[k], if k < fb then 0 else prior[k - fb])
    modifies buf
    ensures InProgress(buf, c, p, rule, fb, raw, prior, k + 1)
    ensures forall i :: 0 <= i < buf.Length && i != c + k ==> buf[i] == old(buf[i])
  {
    ghost var was := buf[c..c + |raw|];
    buf[c + k] := x;
    assert buf[c..c + |raw|] == was[k := x];
    assert buf[p..p + |raw|] == prior;
    NextByte(rule, fb, raw, prior, was, buf[c..c + |raw|], k);
  }

  /** STBI__BYTECAST of a sum. */
  function ByteCast(x: int, y: int): Sample { (x + y) % 256 }

  function Mean(x: int, y: int): int { (x + y) / 2 }

  /** STBI__F_none. */
  method RowNone(buf: array<Sample>, c: nat, p: nat, fb: nat, raw: Row, ghost prior: Row, ghost rule: Rule)
    requires rule == KernelRule(0)
    requires 0 < fb <= |raw| && InProgress(buf, c, p, rule, fb, raw, prior, 0)
    modifies buf
    ensures InProgress(buf, c, p, rule, fb, raw, prior, |raw|)
    ensures forall i :: 0 <= i < buf.Length && !(c <= i < c + |raw|) ==> buf[i] == old(buf[i])
  {
    for k := 0 to |raw|
      invariant InProgress(buf, c, p, rule, fb, raw, prior, k)
      invariant forall i :: 0 <= i < buf.Length && !(c <= i < c + |raw|) ==> buf[i] == old(buf[i])
    {
      Put(buf, c, p, k, raw[k], rule, fb, raw, prior);
    }
  }

  /** The memcpy with which STBI__F_sub and STBI__F_avg_first begin: the first pixel has nothing to its left. */
  method CopyHead(buf: array<Sample>, c: nat, p: nat, fb: nat, raw: Row, ghost prior: Row, ghost rule: Rule)
    requires rule == KernelRule(1) || rule == KernelRule(5)
    requires 0 < fb <= |raw| && InProgress(buf, c, p, rule, fb, raw, prior, 0)
    modifies buf
    ensures InProgress(buf, c, p, rule, fb, raw, prior, fb)
    ensures forall i :: 0 <= i < buf.Length && !(c <= i < c + |raw|) ==> buf[i] == old(buf[i])
  {
    for k := 0 to fb
      invariant InProgress(buf, c, p, rule, fb, raw, prior, k)
      invariant forall i :: 0 <= i < buf.Length && !(c <= i < c + |raw|) ==> buf[i] == old(buf[i])
    {
      Put(buf, c, p, k, raw[k], rule, fb, raw, prior);
    }
  }

  /** STBI__F_sub. */
  method RowSub(buf: array<Sample>, c: nat, p: nat, fb: nat, raw: Row, ghost prior: Row, ghost rule: Rule)
    requires rule == KernelRule(1)
    requires 0 < fb <= |raw| && InProgress(buf, c, p, rule, fb, raw, prior, 0)
    modifies buf
    ensures InProgress(buf, c, p, rule, fb, raw, prior, |raw|)
    ensures forall i :: 0 <= i < buf.Length && !(c <= i < c + |raw|) ==> buf[i] == old(buf[i])
  {
    CopyHead(buf, c, p, fb, raw, prior, rule);
    for k := fb to |raw|
      invariant InProgress(buf, c, p, rule, fb, raw, prior, k)
      invariant forall i :: 0 <= i < buf.Length && !(c <= i < c + |raw|) ==> buf[i] == old(buf[i])
    {
      Put(buf, c, p, k, ByteCast(raw[k], buf[c + k - fb]), rule, fb, raw, prior);
    }
  }

  /** STBI__F_up. */
  method RowUp(buf: array<Sample>, c: nat, p: nat, fb: nat, raw: Row, ghost prior: Row, ghost rule: Rule)
    requires rule == KernelRule(2)
    requires 0 < fb <= |raw| && InProgress(buf, c, p, rule, fb, raw, prior, 0)
    modifies buf
    ensures InProgress(buf, c, p, rule, fb, raw, prior, |raw|)
    ensures forall i :: 0 <= i < buf.Length && !(c <= i < c + |raw|) ==> buf[i] == old(buf[i])
  {
    for k := 0 to |raw|
      invariant InProgress(buf, c, p, rule, fb, raw, prior, k)
      invariant forall i :: 0 <= i < buf.Length && !(c <= i < c + |raw|) ==> buf[i] == old(buf[i])
    {
      assert buf[p + k] == buf[p..p + |raw|][k];
      Put(buf, c, p, k, ByteCast(raw[k], buf[p + k]), rule, fb, raw, prior);
    }
  }

  /** STBI__F_avg. */
  method RowAverage(buf: array<Sample>, c: nat, p: nat, fb: nat, raw: Row, ghost prior: Row, ghost rule: Rule)
    requires rule == KernelRule(3)
    requires 0 < fb <= |raw| && InProgress(buf, c, p, rule, fb, raw, prior, 0)
    modifies buf
    ensures InProgress(buf, c, p, rule, fb, raw, prior, |raw|)
    ensures forall i :: 0 <= i < buf.Length && !(c <= i < c + |raw|) ==> buf[i] == old(buf[i])
  {
    for k := 0 to fb
      invariant InProgress(buf, c, p, rule, fb, raw, prior, k)
      invariant forall i :: 0 <= i < buf.Length && !(c <= i < c + |raw|) ==> buf[i] == old(buf[i])
    {
      assert buf[p + k] == buf[p..p + |raw|][k];
      Put(buf, c, p, k, ByteCast(raw[k], buf[p + k] / 2), rule, fb, raw, prior);
    }
    RowAverageRest(buf, c, p, fb, raw, prior, rule);
  }

  method RowAverageRest(buf: array<Sample>, c: nat, p: nat, fb: nat, raw: Row, ghost prior: Row, ghost rule: Rule)
    requires rule == KernelRule(3)
    requires 0 < fb <= |raw| && InProgress(buf, c, p, rule, fb, raw, prior, fb)
    modifies buf
    ensures InProgress(buf, c, p, rule, fb, raw, prior, |raw|)
    ensures forall i :: 0 <= i < buf.Length && !(c <= i < c + |raw|) ==> buf[i] == old(buf[i])
  {
    for k := fb to |raw|
      invariant InProgress(buf, c, p, rule, fb, raw, prior, k)
      invariant forall i :: 0 <= i < buf.Length && !(c <= i < c + |raw|) ==> buf[i] == old(buf[i])
    {
      assert buf[p + k] == buf[p..p + |raw|][k];
      Put(buf, c, p, k, ByteCast(raw[k], Mean(buf[p + k], buf[c + k - fb])), rule, fb, raw, prior);
    }
  }

  lemma PaethRule(x: Sample, a: Sample, b: Sample, c: Sample)
    ensures KernelRule(4)(x, a, b, c) == ByteCast(x, Paeth(a, b, c))
    ensures KernelRule(4)(x, 0, b, 0) == ByteCast(x, b)
  {
  }

  /** STBI__F_paeth: the first pixel uses the byte above, which is the prediction when the left is 0. */
  method RowPaeth(buf: array<Sample>, c: nat, p: nat, fb: nat, raw: Row, ghost prior: Row, ghost rule: Rule)
    requires rule == KernelRule(4)
    requires 0 < fb <= |raw| && InProgress(buf, c, p, rule, fb, raw, prior, 0)
    modifies buf
    ensures InProgress(buf, c, p, rule, fb, raw, prior, |raw|)
    ensures forall i :: 0 <= i < buf.Length && !(c <= i < c + |raw|) ==> buf[i] == old(buf[i])
  {
    for k := 0 to fb
      invariant InProgress(buf, c, p, rule, fb, raw, prior, k)
      invariant forall i :: 0 <= i < buf.Length && !(c <= i < c + |raw|) ==> buf[i] == old(buf[i])
    {
      var b := buf[p + k];
      assert b == buf[p..p + |raw|][k];
      PaethRule(raw[k], 0, b, 0);
      Put(buf, c, p, k, ByteCast(raw[k], b), rule, fb, raw, prior);
    }
    RowPaethRest(buf, c, p, fb, raw, prior, rule);
  }

  method RowPaethRest(buf: array<Sample>, c: nat, p: nat, fb: nat, raw: Row, ghost prior: Row, ghost rule: Rule)
    requires rule == KernelRule(4)
    requires 0 < fb <= |raw| && InProgress(buf, c, p, rule, fb, raw, prior, fb)
    modifies buf
    ensures InProgress(buf, c, p, rule, fb, raw, prior, |raw|)
    ensures forall i :: 0 <= i < buf.Length && !(c <= i < c + |raw|) ==> buf[i] == old(buf[i])
  {
    for k := fb to |raw|
      invariant InProgress(buf, c, p, rule, fb, raw, prior, k)
      invariant forall i :: 0 <= i < buf.Length && !(c <= i < c + |raw|) ==> buf[i] == old(buf[i])
    {
      var a, b, d := buf[c + k - fb], buf[p + k], buf[p + k - fb];
      assert b == buf[p..p + |raw|][k] && d == buf[p..p + |raw|][k - fb];
      PaethRule(raw[k], a, b, d);
      Put(buf, c, p, k, ByteCast(raw[k], Paeth(a, b, d)), rule, fb, raw, prior);
    }
  }

  /** STBI__F_avg_first. */
  method RowAverageFirst(buf: array<Sample>, c: nat, p: nat, fb: nat, raw: Row, ghost prior: Row, ghost rule: Rule)
    requires rule == KernelRule(5)
    requires 0 < fb <= |raw| && InProgress(buf, c, p, rule, fb, raw, prior, 0)
    modifies buf
    ensures InProgress(buf, c, p, rule, fb, raw, prior, |raw|)
    ensures forall i :: 0 <= i < buf.Length && !(c <= i < c + |raw|) ==> buf[i] == old(buf[i])
  {
    CopyHead(buf, c, p, fb, raw, prior, rule);
    for k := fb to |raw|
      invariant InProgress(buf, c, p, rule, fb, raw, prior, k)
      invariant forall i :: 0 <= i < buf.Length && !(c <= i < c + |raw|) ==> buf[i] == old(buf[i])
    {
      Put(buf, c, p, k, ByteCast(raw[k], buf[c + k - fb] / 2), rule, fb, raw, prior);
    }
  }

  /** The switch over kernels. */
  method RunKernel(kernel: nat, buf: array<Sample>, c: nat, p: nat, fb: nat, raw: Row, ghost prior: Row)
    requires kernel <= 5 && 0 < fb <= |raw| && InProgress(buf, c, p, KernelRule(kernel), fb, raw, prior, 0)
    modifies buf
    ensures InProgress(buf, c, p, KernelRule(kernel), fb, raw, prior, |raw|)
    ensures forall i :: 0 <= i < buf.Length && !(c <= i < c + |raw|) ==> buf[i] == old(buf[i])
  {
    ghost var rule := KernelRule(kernel);
    match kernel
    case 0 => RowNone(buf, c, p, fb, raw, prior, rule);
    case 1 => RowSub(buf, c, p, fb, raw, prior, rule);
    case 2 => RowUp(buf, c, p, fb, raw, prior, rule);
    case 3 => RowAverage(buf, c, p, fb, raw, prior, rule);
    case 4 => RowPaeth(buf, c, p, fb, raw, prior, rule);
    case _ => RowAverageFirst(buf, c, p, fb, raw, prior, rule);
  }

  // The image.

  /** Where row `j` begins in the filtered data: each row is one filter byte and `nk` bytes. */
  function Offset(nk: nat, j: nat): nat {
    if j == 0 then 0 else Offset(nk, j - 1) + 1 + nk
  }

  lemma {:induction false} OffsetMonotone(nk: nat, i: nat, j: nat)
    requires i <= j
    ensures Offset(nk, i) + (j - i) <= Offset(nk, j)
    ensures i < j ==> Offset(nk, i) + 1 + nk <= Offset(nk, j)
  {
    if i < j { OffsetMonotone(nk, i, j - 1); }
  }

  function FilterByte(raw: Row, nk: nat, j: nat): nat
    requires Offset(nk, j) < |raw|
  {
    raw[Offset(nk, j)]
  }

  function RowBytes(raw: Row, nk: nat, j: nat): (r: Row)
    requires Offset(nk, j) + 1 + nk <= |raw|
    ensures |r| == nk
  {
    raw[Offset(nk, j) + 1..Offset(nk, j) + 1 + nk]
  }

  /** The row above row `j`: nothing above the first. */
  function RowAbove(rows: seq<Row>, j: nat): Row
    requires j <= |rows|
  {
    if j == 0 then [] else rows[j - 1]
  }

  /** Row `j` of the image is the reconstruction of row `j` of the data below row `j - 1`. */
  ghost predicate RowReconstructed(raw: Row, nk: nat, fb: nat, rows: seq<Row>, j: nat) {
    && j < |rows| && Offset(nk, j) + 1 + nk <= |raw|
    && FilterByte(raw, nk, j) <= 4
    && Reconstructs(FilterByte(raw, nk, j), fb, RowBytes(raw, nk, j), RowAbove(rows, j), rows[j])
  }

  ghost predicate ImageReconstructed(raw: Row, nk: nat, fb: nat, rows: seq<Row>) {
    forall j :: 0 <= j < |rows| ==> RowReconstructed(raw, nk, fb, rows, j)
  }

  /** The filtered data determine the image. */
  lemma {:induction false} ImageUnique(raw: Row, nk: nat, fb: nat, rows: seq<Row>, others: seq<Row>, n: nat)
    requires fb > 0 && n <= |rows| && n <= |others|
    requires ImageReconstructed(raw, nk, fb, rows) && ImageReconstructed(raw, nk, fb, others)
    ensures rows[..n] == others[..n]
  {
    if n > 0 {
      var j := n - 1;
      ImageUnique(raw, nk, fb, rows, others, j);
      assert RowReconstructed(raw, nk, fb, rows, j) && RowReconstructed(raw, nk, fb, others, j);
      assert RowAbove(rows[..j], j) == RowAbove(others[..j], j);
      ReconstructionUnique(FilterByte(raw, nk, j), fb, RowBytes(raw, nk, j), RowAbove(rows, j), rows[j], others[j]);
      assert rows[..n] == rows[..j] + [rows[j]] && others[..n] == others[..j] + [others[j]];
    }
  }

  /** The filtered data of an image, for a choice of filter per row. */
  function FilteredImage(filters: seq<Filter>, fb: nat, rows: seq<Row>): Row
    requires |filters| == |rows|
  {
    if rows == [] then []
    else
      var j := |rows| - 1;
      FilteredImage(filters[..j], fb, rows[..j]) + FilteredRow(filters[j], fb, rows[j], RowAbove(rows[..j], j))
  }

  function FilteredRow(filter: Filter, fb: nat, row: Row, above: Row): (r: Row)
    ensures |r| == 1 + |row| && r[0] == filter && r[1..] == Filtered(filter, fb, row, above)
  {
    var f: Sample := filter;
    [f] + Filtered(filter, fb, row, above)
  }

  /** Unfiltering undoes filtering, for every image and every choice of filters. */
  lemma {:induction false} ImageRoundTrip(filters: seq<Filter>, nk: nat, fb: nat, rows: seq<Row>, tail: Row)
    requires |filters| == |rows| && forall i :: 0 <= i < |rows| ==> |rows[i]| == nk
    ensures |FilteredImage(filters, fb, rows)| == Offset(nk, |rows|)
    ensures ImageReconstructed(FilteredImage(filters, fb, rows) + tail, nk, fb, rows)
    decreases |rows|
  {
    if rows != [] {
      var j := |rows| - 1;
      var last := FilteredRow(filters[j], fb, rows[j], RowAbove(rows[..j], j));
      ImageRoundTrip(filters[..j], nk, fb, rows[..j], last + tail);
      FilteredNext(filters, fb, rows, j);
      AddFiltered(FilteredImage(filters[..j], fb, rows[..j]), last, filters[j], nk, fb, rows[..j], rows[j], tail);
      assert rows[..j] + [rows[j]] == rows;
    }
  }

  lemma FilteredNext(filters: seq<Filter>, fb: nat, rows: seq<Row>, j: nat)
    requires |filters| == |rows| == j + 1
    ensures FilteredImage(filters, fb, rows) ==
      FilteredImage(filters[..j], fb, rows[..j]) + FilteredRow(filters[j], fb, rows[j], RowAbove(rows[..j], j))
  {
  }

  /** A filtered row behind the filtered data of the rows before it. */
  lemma AddFiltered(front: Row, last: Row, filter: Filter, nk: nat, fb: nat, rows: seq<Row>, row: Row, tail: Row)
    requires |front| == Offset(nk, |rows|) && |row| == nk
    requires last == FilteredRow(filter, fb, row, RowAbove(rows, |rows|))
    requires ImageReconstructed(front + (last + tail), nk, fb, rows)
    ensures ImageReconstructed((front + last) + tail, nk, fb, rows + [row])
  {
    Placed(front, last, tail, nk, |rows|);
    FilteredReconstructs(filter, fb, row, RowAbove(rows, |rows|));
    ReconstructedNext(front + (last + tail), nk, fb, rows, row, filter, last[1..]);
  }

  /** Where a filtered row lies among the others. */
  lemma Placed(front: Row, last: Row, tail: Row, nk: nat, j: nat)
    requires |front| == Offset(nk, j) && |last| == 1 + nk
    ensures (front + last) + tail == front + (last + tail)
    ensures FilterByte(front + (last + tail), nk, j) == last[0]
    ensures RowBytes(front + (last + tail), nk, j) == last[1..]
  {
  }

  /** The body of the row loop: `c` and `p` are the halves of the workspace for this row and the one above. */
  method UnfilterRow(filter: Filter, bytes: Row, fb: nat, first: bool, buf: array<Sample>, c: nat, p: nat,
                     ghost above: Row)
    returns (row: Row)
    requires 0 < fb <= |bytes| && buf.Length == 2 * |bytes|
    requires (c == 0 && p == |bytes|) || (c == |bytes| && p == 0)
    requires above == if first then [] else buf[p..p + |bytes|]
    modifies buf
    ensures row == buf[c..c + |bytes|]
    ensures Reconstructs(filter, fb, bytes, above, row)
  {
    ghost var prior := buf[p..p + |bytes|];
    RunKernel(KernelOf(filter, first), buf, c, p, fb, bytes, prior);
    row := buf[c..c + |bytes|];
    KernelReconstructs(filter, first, fb, bytes, prior, row);
  }

  lemma ReconstructedNext(raw: Row, nk: nat, fb: nat, rows: seq<Row>, row: Row, filter: Filter, bytes: Row)
    requires ImageReconstructed(raw, nk, fb, rows)
    requires Offset(nk, |rows|) + 1 + nk <= |raw|
    requires filter == FilterByte(raw, nk, |rows|) && bytes == RowBytes(raw, nk, |rows|)
    requires Reconstructs(filter, fb, bytes, RowAbove(rows, |rows|), row)
    ensures ImageReconstructed(raw, nk, fb, rows + [row])
  {
    forall j | 0 <= j < |rows| + 1 ensures RowReconstructed(raw, nk, fb, rows + [row], j) {
      assert RowAbove(rows + [row], j) == RowAbove(rows, j);
      assert j < |rows| ==> RowReconstructed(raw, nk, fb, rows, j);
    }
  }

  /** One pass of the row loop. */
  method AddRow(raw: Row, nk: nat, fb: nat, pos: nat, filter: Filter, buf: array<Sample>, c: nat, rows: seq<Row>)
    returns (more: seq<Row>)
    requires 0 < fb <= nk && buf.Length == 2 * nk && (c == 0 || c == nk)
    requires pos == Offset(nk, |rows|) && pos + 1 + nk <= |raw| && filter == raw[pos]
    requires rows != [] ==> rows[|rows| - 1] == buf[nk - c..nk - c + nk]
    requires ImageReconstructed(raw, nk, fb, rows)
    modifies buf
    ensures ImageReconstructed(raw, nk, fb, more)
    ensures |more| == |rows| + 1 && more[|rows|] == buf[c..c + nk]
  {
    var bytes := raw[pos + 1..pos + 1 + nk];
    var row := UnfilterRow(filter, bytes, fb, rows == [], buf, c, nk - c, RowAbove(rows, |rows|));
    ReconstructedNext(raw, nk, fb, rows, row, filter, bytes);
    more := rows + [row];
  }

  /** The unfilter loop: fails exactly when data are missing or a filter byte is above 4.
      Nothing is known of what the workspace holds at first. */
  method Unfilter(raw: Row, y: nat, nk: nat, fb: nat, buf: array<Sample>) returns (ok: bool, rows: seq<Row>)
    requires 0 < fb <= nk && buf.Length == 2 * nk
    modifies buf
    ensures ok <==> Offset(nk, y) <= |raw| && AllFilters(raw, nk, y)
    ensures ok ==> |rows| == y && ImageReconstructed(raw, nk, fb, rows)
  {
    rows := [];
    if |raw| < Offset(nk, y) {
      return false, rows;
    }
    var pos, c := 0, 0;
    for j := 0 to y
      invariant |rows| == j && pos == Offset(nk, j) && c == (if j % 2 == 0 then 0 else nk)
      invariant AllFilters(raw, nk, j)
      invariant ImageReconstructed(raw, nk, fb, rows)
      invariant j > 0 ==> rows[j - 1] == buf[nk - c..nk - c + nk]
    {
      OffsetMonotone(nk, j + 1, y);
      var filter := raw[pos];
      if filter > 4 {
        UnknownFilter(raw, nk, y, j);
        return false, rows;
      }
      FiltersNext(raw, nk, j);
      rows := AddRow(raw, nk, fb, pos, filter, buf, c, rows);
      pos, c := pos + 1 + nk, nk - c;
    }
    ok := true;
  }

  lemma FiltersNext(raw: Row, nk: nat, j: nat)
    requires AllFilters(raw, nk, j) && Offset(nk, j) < |raw| && raw[Offset(nk, j)] <= 4
    ensures AllFilters(raw, nk, j + 1)
  {
  }

  lemma UnknownFilter(raw: Row, nk: nat, y: nat, j: nat)
    requires j < y && Offset(nk, j) < |raw| && raw[Offset(nk, j)] > 4
    ensures !AllFilters(raw, nk, y)
  {
    assert FilterByte(raw, nk, j) > 4;
  }

  /** The filter bytes of the first `y` rows are all known filters. */
  ghost predicate AllFilters(raw: Row, nk: nat, y: nat) {
    forall j :: 0 <= j < y && Offset(nk, j) < |raw| ==> FilterByte(raw, nk, j) <= 4
  }
}
