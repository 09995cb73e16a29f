/** What the filter types of PNG mean, each by its number and byte by byte. */
module PngMeaning {
  import opened PngFilter

  /** Byte k of a reconstruction: its filtered byte and what is predicted from its neighbours. */
  lemma ReconstructedByte(filter: nat, fb: nat, raw: Row, prior: Row, cur: Row, k: nat)
    requires Reconstructs(filter, fb, raw, prior, cur) && k < |raw|
    ensures cur[k] == (raw[k] + Prediction(filter, Back(cur, fb, k), Above(prior, k), Back(prior, fb, k))) % 256
  {
  }

  /** Type 0, None: the bytes as they are. */
  lemma NoneMeans(filter: nat, fb: nat, raw: Row, prior: Row, cur: Row)
    requires filter == 0 && Reconstructs(filter, fb, raw, prior, cur)
    ensures cur == raw
  {
    forall k | 0 <= k < |raw| ensures cur[k] == raw[k] {
      NoneByte(filter, fb, raw, prior, cur, k);
    }
  }

  lemma NoneByte(filter: nat, fb: nat, raw: Row, prior: Row, cur: Row, k: nat)
    requires filter == 0 && Reconstructs(filter, fb, raw, prior, cur) && k < |raw|
    ensures cur[k] == raw[k]
  {
    ReconstructedByte(filter, fb, raw, prior, cur, k);
    NonePredicted(filter, raw[k], Back(cur, fb, k), Above(prior, k), Back(prior, fb, k));
  }

  lemma NonePredicted(filter: nat, x: Sample, a: Sample, b: Sample, c: Sample)
    requires filter == 0
    ensures (x + Prediction(filter, a, b, c)) % 256 == x
  {
  }

  /** The byte and all those in its place in the pixels to the left. */
  function Trail(raw: Row, fb: nat, k: nat): nat
    requires fb > 0 && k < |raw|
  {
    if k < fb then raw[k] else raw[k] + Trail(raw, fb, k - fb)
  }

  lemma AddedModulo(x: nat, s: nat)
    ensures (x + s % 256) % 256 == (x + s) % 256
  {
  }

  /** Type 1, Sub: each byte is the sum of the filtered bytes in its place, modulo 256. */
  lemma {:induction false} SubMeans(filter: nat, fb: nat, raw: Row, prior: Row, cur: Row, k: nat)
    requires filter == 1 && fb > 0 && Reconstructs(filter, fb, raw, prior, cur) && k < |raw|
    ensures cur[k] == Trail(raw, fb, k) % 256
  {
    ReconstructedByte(filter, fb, raw, prior, cur, k);
    if k >= fb {
      SubMeans(filter, fb, raw, prior, cur, k - fb);
      AddedModulo(raw[k], Trail(raw, fb, k - fb));
    }
  }

  /** Type 2, Up: the byte above is added. */
  lemma UpMeans(filter: nat, fb: nat, raw: Row, prior: Row, cur: Row, k: nat)
    requires filter == 2 && Reconstructs(filter, fb, raw, prior, cur) && k < |raw|
    ensures var above: int := if k < |prior| then prior[k] else 0;
      cur[k] == (above + raw[k]) % 256
  {
    ReconstructedByte(filter, fb, raw, prior, cur, k);
  }

  /** Type 3, Average: half the sum of the byte to the left and the byte above is added. */
  lemma AverageMeans(filter: nat, fb: nat, raw: Row, prior: Row, cur: Row, k: nat)
    requires filter == 3 && fb > 0 && Reconstructs(filter, fb, raw, prior, cur) && k < |raw|
    ensures var left: int, above: int := if k < fb then 0 else cur[k - fb], if k < |prior| then prior[k] else 0;
      cur[k] == ((left + above) / 2 + raw[k]) % 256
  {
    ReconstructedByte(filter, fb, raw, prior, cur, k);
  }

  function Distance(x: int, y: int): int { if x < y then y - x else x - y }

  /** `p` is the one of three bytes nearest to `a + b - c`, the earlier of two that are equally near. */
  predicate Nearest(a: int, b: int, c: int, p: int) {
    var e := a + b - c;
    || (p == a && Distance(e, a) <= Distance(e, b) && Distance(e, a) <= Distance(e, c))
    || (p == b && Distance(e, b) < Distance(e, a) && Distance(e, b) <= Distance(e, c))
    || (p == c && Distance(e, c) < Distance(e, a) && Distance(e, c) < Distance(e, b))
  }

  /** Type 4, Paeth: the byte to the left, above, or above to the left is added, whichever is nearest to left plus
      above less upper left. */
  lemma PaethMeans(filter: nat, fb: nat, raw: Row, prior: Row, cur: Row, k: nat) returns (p: int)
    requires filter == 4 && fb > 0 && Reconstructs(filter, fb, raw, prior, cur) && k < |raw|
    ensures var left: int, above: int := if k < fb then 0 else cur[k - fb], if k < |prior| then prior[k] else 0;
      var corner: int := if fb <= k < fb + |prior| then prior[k - fb] else 0;
      Nearest(left, above, corner, p) && cur[k] == (p + raw[k]) % 256
  {
    ReconstructedByte(filter, fb, raw, prior, cur, k);
    p := PaethPredictor(Back(cur, fb, k), Above(prior, k), Back(prior, fb, k));
  }

  /** Where row `j` begins: each row is one filter byte and `nk` bytes. */
  lemma {:induction false} OffsetMeans(nk: nat, j: nat)
    ensures Offset(nk, j) == j * (1 + nk)
  {
    if j > 0 { OffsetMeans(nk, j - 1); }
  }
}
