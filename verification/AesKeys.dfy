/** expand_key of aes.h: the key schedule, over the word operations. */
module AesKeys {

  /** sub_word of rot_word with the round constant, sub_word alone, and exclusive or. */
  datatype WordOps<!W> = WordOps(zero: W, turn: (W, nat) -> W, sub: W -> W, xor: (W, W) -> W)

  ghost predicate Cancels<W(!new)>(o: WordOps<W>) {
    forall a: W, b: W :: o.xor(a, o.xor(a, b)) == b
  }

  /** What is added to word i - nk to make word i: the word before, changed at the start of each key length
      and, for long keys, half-way through it. */
  function Mask<W>(o: WordOps<W>, nk: nat, i: nat, before: W): W
    requires nk > 0
  {
    if i % nk == 0 then o.turn(before, i / nk)
    else if nk > 6 && i % nk == 4 then o.sub(before)
    else before
  }

  /** Section 5.2 of FIPS 197: word `i` of a schedule. */
  ghost predicate Expands<W>(o: WordOps<W>, nk: nat, w: seq<W>, i: nat) {
    0 < nk <= i < |w| && w[i] == o.xor(Mask(o, nk, i, w[i - 1]), w[i - nk])
  }

  /** A key schedule: the key, and every further word made from the ones before. */
  ghost predicate IsExpansion<W>(o: WordOps<W>, key: seq<W>, w: seq<W>) {
    && 0 < |key| <= |w| && w[..|key|] == key
    && (forall i :: |key| <= i < |w| ==> Expands(o, |key|, w, i))
  }

  /** Round keys of four words. */
  datatype Four<W> = Four(w0: W, w1: W, w2: W, w3: W)

  function Grouped<W>(w: seq<W>): (r: seq<Four<W>>)
    ensures |r| == |w| / 4
  {
    seq(|w| / 4, i requires 0 <= i < |w| / 4 => Four(w[4 * i], w[4 * i + 1], w[4 * i + 2], w[4 * i + 3]))
  }

  /** get_round_count. */
  function RoundCount(keySize: nat): nat
    requires keySize == 16 || keySize == 24 || keySize == 32
  {
    if keySize == 16 then 10 else if keySize == 24 then 12 else 14
  }

  /** expand_key, for a key of 4, 6 or 8 words. */
  method ExpandKey<W>(o: WordOps<W>, key: seq<W>) returns (keys: seq<Four<W>>, w: seq<W>)
    requires |key| == 4 || |key| == 6 || |key| == 8
    ensures IsExpansion(o, key, w) && |w| == 4 * (RoundCount(4 * |key|) + 1)
    ensures keys == Grouped(w) && |keys| == RoundCount(4 * |key|) + 1
  {
    var nk, n := |key|, 4 * (RoundCount(4 * |key|) + 1);
    var a := new W[n](_ => o.zero);
    CopyKey(key, a);
    FillWords(o, key, a);
    w := a[..];
    keys := Grouped(w);
  }

  /** The loop over the words of the key. */
  method CopyKey<W>(key: seq<W>, a: array<W>)
    requires |key| <= a.Length
    modifies a
    ensures a[..|key|] == key
  {
    for i := 0 to |key|
      invariant a[..i] == key[..i]
    {
      a[i] := key[i];
      assert a[..i + 1] == a[..i] + [key[i]] && key[..i + 1] == key[..i] + [key[i]];
    }
    assert key[..|key|] == key;
  }

  /** The loop over the words after the key. */
  method FillWords<W>(o: WordOps<W>, key: seq<W>, a: array<W>)
    requires 0 < |key| <= a.Length && a[..|key|] == key
    modifies a
    ensures IsExpansion(o, key, a[..])
  {
    var nk := |key|;
    for i := nk to a.Length
      invariant a[..nk] == key
      invariant forall k :: nk <= k < i ==> a[k] == o.xor(Mask(o, nk, k, a[k - 1]), a[k - nk])
    {
      ghost var front := a[..nk];
      a[i] := o.xor(Mask(o, nk, i, a[i - 1]), a[i - nk]);
      assert a[..nk] == front;
    }
    assert a[..][..nk] == a[..nk];
  }

  /** A key has one schedule of a given length. */
  lemma {:induction false} ExpansionUnique<W>(o: WordOps<W>, key: seq<W>, w: seq<W>, v: seq<W>, n: nat)
    requires IsExpansion(o, key, w) && IsExpansion(o, key, v) && n <= |w| && n <= |v|
    ensures w[..n] == v[..n]
  {
    if n > 0 {
      var i := n - 1;
      ExpansionUnique(o, key, w, v, i);
      assert forall k :: 0 <= k < i ==> w[k] == w[..i][k] && v[k] == v[..i][k];
      if i < |key| {
        assert w[i] == w[..|key|][i] && v[i] == v[..|key|][i];
      } else {
        assert Expands(o, |key|, w, i) && Expands(o, |key|, v, i);
      }
      assert w[..n] == w[..i] + [w[i]] && v[..n] == v[..i] + [v[i]];
    }
  }

  /** Schedules that agree on `nk` words in a row agree on every word before them. */
  lemma {:induction false} WindowDetermines<W(!new)>(o: WordOps<W>, nk: nat, w: seq<W>, v: seq<W>, j: nat)
    requires Cancels(o) && nk > 1 && |w| == |v| && j + nk <= |w|
    requires forall i :: nk <= i < |w| ==> Expands(o, nk, w, i) && Expands(o, nk, v, i)
    requires w[j..j + nk] == v[j..j + nk]
    ensures w[..j + nk] == v[..j + nk]
    decreases j
  {
    assert forall k :: j <= k < j + nk ==> w[k] == w[j..j + nk][k - j] && v[k] == v[j..j + nk][k - j];
    if j == 0 {
      assert w[..nk] == w[0..nk] && v[..nk] == v[0..nk];
    } else {
      var i := j + nk - 1;
      assert Expands(o, nk, w, i) && Expands(o, nk, v, i);
      var m := Mask(o, nk, i, w[i - 1]);
      assert o.xor(m, o.xor(m, w[j - 1])) == w[j - 1] && o.xor(m, o.xor(m, v[j - 1])) == v[j - 1];
      assert w[j - 1..j - 1 + nk] == v[j - 1..j - 1 + nk];
      WindowDetermines(o, nk, w, v, j - 1);
      assert w[..j + nk] == w[..j - 1 + nk] + [w[i]] && v[..j + nk] == v[..j - 1 + nk] + [v[i]];
    }
  }

  /** So a stretch of a key's length, anywhere in the schedule, is shared by equal keys only. */
  lemma WindowIffKey<W(!new)>(o: WordOps<W>, key: seq<W>, other: seq<W>, w: seq<W>, v: seq<W>, j: nat)
    requires Cancels(o) && |key| == |other| > 1 && |w| == |v| && j + |key| <= |w|
    requires IsExpansion(o, key, w) && IsExpansion(o, other, v)
    ensures w[j..j + |key|] == v[j..j + |key|] <==> key == other
  {
    var nk := |key|;
    assert key == w[..j + nk][..nk] && other == v[..j + nk][..nk];
    if w[j..j + nk] == v[j..j + nk] {
      WindowDetermines(o, nk, w, v, j);
    }
    if key == other {
      ExpansionUnique(o, key, w, v, |w|);
      assert w[..|w|] == w && v[..|v|] == v;
    }
  }
}
