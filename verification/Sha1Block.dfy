/** The block function of sha1.h: the message schedule and the rounds, over the word operations. */
module Sha1Block {
  import opened CipherModes

  /** The word operations of SHA-1 and the number of rounds. */
  datatype Ops<!W> = Ops(
    zero: W,
    pack: (Byte, Byte, Byte, Byte) -> W,      // big-endian
    mix: (W, W, W, W) -> W,                   // the schedule's exclusive or, rotated by one
    temp: (nat, Vars<W>, W) -> W,             // the sum of round t
    rot30: W -> W,
    add: (W, W) -> W,
    rounds: nat)

  datatype Vars<W> = Vars(a: W, b: W, c: W, d: W, e: W)

  /** The first `n` words of the message schedule: section 6.1.2 of FIPS 180-4, step 1. */
  function Schedule<W>(o: Ops<W>, block: Bytes, n: nat): (w: seq<W>)
    requires |block| == 64
    ensures |w| == n
  {
    if n == 0 then []
    else
      var w := Schedule(o, block, n - 1);
      var t := n - 1;
      w + [if t < 16 then o.pack(block[4 * t], block[4 * t + 1], block[4 * t + 2], block[4 * t + 3])
           else o.mix(w[t - 3], w[t - 8], w[t - 14], w[t - 16])]
  }

  /** One round: step 3. */
  function Round<W>(o: Ops<W>, t: nat, v: Vars<W>, w: W): Vars<W> {
    Vars(o.temp(t, v, w), v.a, o.rot30(v.b), v.c, v.d)
  }

  function Rounds<W>(o: Ops<W>, w: seq<W>, h: Vars<W>, n: nat): Vars<W>
    requires n <= |w|
  {
    if n == 0 then h else Round(o, n - 1, Rounds(o, w, h, n - 1), w[n - 1])
  }

  /** Step 4: the rounds' result added to the digest. */
  function Compress<W>(o: Ops<W>, h: Vars<W>, block: Bytes): Vars<W>
    requires |block| == 64
  {
    var v := Rounds(o, Schedule(o, block, o.rounds), h, o.rounds);
    Vars(o.add(h.a, v.a), o.add(h.b, v.b), o.add(h.c, v.c), o.add(h.d, v.d), o.add(h.e, v.e))
  }

  lemma ScheduleNext<W>(o: Ops<W>, block: Bytes, w: seq<W>, x: W)
    requires |block| == 64 && w == Schedule(o, block, |w|)
    requires
      var t := |w|;
      x == if t < 16 then o.pack(block[4 * t], block[4 * t + 1], block[4 * t + 2], block[4 * t + 3])
           else o.mix(w[t - 3], w[t - 8], w[t - 14], w[t - 16])
    ensures w + [x] == Schedule(o, block, |w| + 1)
  {
  }

  /** The loop over the words of the block. */
  method FillPacked<W>(o: Ops<W>, block: Bytes, w: array<W>)
    requires |block| == 64 && w.Length >= 16
    modifies w
    ensures w[..16] == Schedule(o, block, 16)
  {
    for i := 0 to 16
      invariant w[..i] == Schedule(o, block, i)
    {
      var x := o.pack(block[4 * i], block[4 * i + 1], block[4 * i + 2], block[4 * i + 3]);
      ScheduleNext(o, block, w[..i], x);
      w[i] := x;
      assert w[..i + 1] == w[..i] + [x];
    }
  }

  /** The loop over the mixed words. */
  method FillMixed<W>(o: Ops<W>, block: Bytes, w: array<W>)
    requires |block| == 64 && w.Length >= 16 && w[..16] == Schedule(o, block, 16)
    modifies w
    ensures w[..] == Schedule(o, block, w.Length)
  {
    for i := 16 to w.Length
      invariant w[..i] == Schedule(o, block, i)
    {
      ghost var s := w[..i];
      var x := o.mix(w[i - 3], w[i - 8], w[i - 14], w[i - 16]);
      ScheduleNext(o, block, s, x);
      w[i] := x;
      assert w[..i + 1] == s + [x];
    }
    assert w[..] == w[..w.Length];
  }

  /** The loops that fill w. */
  method FillSchedule<W>(o: Ops<W>, block: Bytes) returns (w: array<W>)
    requires |block| == 64 && o.rounds >= 16
    ensures fresh(w) && w[..] == Schedule(o, block, o.rounds)
  {
    w := new W[o.rounds](_ => o.zero);
    FillPacked(o, block, w);
    FillMixed(o, block, w);
  }

  /** processBlock: five variables updated in place, round after round. */
  method ProcessBlock<W>(o: Ops<W>, h: Vars<W>, block: Bytes) returns (r: Vars<W>)
    requires |block| == 64 && o.rounds >= 16
    ensures r == Compress(o, h, block)
  {
    var w := FillSchedule(o, block);
    ghost var words := w[..];
    var a, b, c, d, e := h.a, h.b, h.c, h.d, h.e;
    for i := 0 to o.rounds
      invariant w[..] == words && Vars(a, b, c, d, e) == Rounds(o, words, h, i)
    {
      var temp := o.temp(i, Vars(a, b, c, d, e), w[i]);
      e := d;
      d := c;
      c := o.rot30(b);
      b := a;
      a := temp;
    }
    r := Vars(o.add(h.a, a), o.add(h.b, b), o.add(h.c, c), o.add(h.d, d), o.add(h.e, e));
  }
}
