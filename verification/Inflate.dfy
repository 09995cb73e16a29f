/** The bit buffer of stb's inflate and Huffman decoding from it.

    The input is one long number, first bit lowest, ending in zeros for ever: what the decoder may look
    at beyond the last byte.  Refilling the buffer does not change that number; receiving bits and
    decoding a symbol shift it down. */
module Inflate {
  import opened Bits
  import opened HuffmanCode
  import opened HuffmanTables
  import BitReverse

  function LittleEndian(bytes: seq<nat>): nat {
    if bytes == [] then 0 else bytes[0] + 256 * LittleEndian(bytes[1..])
  }

  class ZBuf {
    const data: seq<nat>
    var pos: nat
    var numBits: nat
    var hitEof: bool
    var codeBuffer: nat

    /** Positions and bytes are in range. */
    ghost predicate Ranges()
      reads this
    {
      pos <= |data| && forall i :: 0 <= i < |data| ==> data[i] < 256
    }

    /** The buffer holds no bits beyond the number it says it has, and no more than its 32. */
    ghost predicate Valid()
      reads this
    {
      Ranges() && numBits <= 32 && codeBuffer < Pow2(numBits)
    }

    /** All input that has not been consumed. */
    ghost function Stream(): nat
      reads this
      requires pos <= |data|
    {
      codeBuffer + Shl(LittleEndian(data[pos..]), numBits)
    }

    constructor (input: seq<nat>)
      requires forall i :: 0 <= i < |input| ==> input[i] < 256
      ensures Valid() && data == input && Stream() == LittleEndian(input)
    {
      data, pos, numBits, hitEof, codeBuffer := input, 0, 0, false, 0;
    }

    predicate AtEof()
      reads this
    {
      pos >= |data|
    }

    method Get8() returns (b: nat)
      requires Ranges()
      modifies this`pos
      ensures Ranges() && b < 256
      ensures LittleEndian(old(data[pos..])) == b + 256 * LittleEndian(data[pos..])
    {
      if AtEof() {
        b := 0;
      } else {
        assert data[pos..][1..] == data[pos + 1..];
        b := data[pos];
        pos := pos + 1;
      }
    }

    /** Refills the buffer to more than 24 bits without changing the stream. */
    method FillBits()
      requires Ranges() && numBits <= 24
      modifies this`pos, this`numBits, this`codeBuffer
      ensures Ranges()
      ensures old(Valid()) ==> Valid() && 24 < numBits && Stream() == old(Stream())
      ensures old(Valid()) ==> codeBuffer < 0x1_0000_0000
    {
      ghost var valid := Valid();
      var more := true;
      while more
        invariant Ranges() && (more ==> numBits <= 24)
        invariant valid ==> Valid() && Stream() == old(Stream())
        invariant valid && !more ==> 24 < numBits <= 32
        decreases more, 32 - numBits
      {
        if codeBuffer >= Pow2(numBits) {
          pos := |data|;
          return;
        }
        LoadByte();
        more := numBits <= 24;
      }
      if valid {
        BufferFitsWord(codeBuffer, numBits);
      }
    }

    /** Puts the next byte above the buffered bits. */
    method LoadByte()
      requires Valid() && numBits <= 24
      modifies this`pos, this`numBits, this`codeBuffer
      ensures Valid() && numBits == old(numBits) + 8 && Stream() == old(Stream())
    {
      ghost var low, n := codeBuffer, numBits;
      var b := Get8();
      ByteAbove(low, b, LittleEndian(data[pos..]), n);
      codeBuffer := BitOr(codeBuffer, Shl(b, numBits));
      numBits := numBits + 8;
    }

    /** Drops the lowest `n` bits. */
    method Consume(n: nat)
      requires Valid() && n <= numBits
      modifies this`numBits, this`codeBuffer
      ensures Valid() && Stream() == Shr(old(Stream()), n)
      ensures numBits == old(numBits) - n
    {
      ShrParts(codeBuffer, LittleEndian(data[pos..]), numBits, n);
      ShrFits(codeBuffer, numBits, n);
      codeBuffer := Shr(codeBuffer, n);
      numBits := numBits - n;
    }

    /** stbi__zreceive: the next `n` bits of the stream. */
    method Receive(n: nat) returns (k: nat)
      requires Valid() && n <= 25
      modifies this
      ensures Valid()
      ensures k == old(Stream()) % Pow2(n)
      ensures Stream() == Shr(old(Stream()), n)
    {
      if numBits < n {
        FillBits();
      }
      k := codeBuffer % Pow2(n);
      LowBits(codeBuffer, LittleEndian(data[pos..]), numBits, n);
      Consume(n);
    }

    /** stbi__zhuffman_decode: the symbol whose code comes next in the stream, or -1 when no code does.
        A stream that ran out before is refused. */
    method Decode(t: Tables, ghost ls: seq<nat>) returns (symbol: int)
      requires Valid() && Built(ls, t)
      modifies this
      ensures Valid()
      ensures if old(numBits < 16 && AtEof() && hitEof)
              then symbol == -1 && Stream() == old(Stream())
              else Decoded(ls, old(Stream()), symbol, Stream())
    {
      if numBits < 16 {
        if AtEof() {
          if hitEof {
            return -1;
          }
          hitEof := true;
          PadZeros(codeBuffer, data[pos..], numBits);
          numBits := numBits + 16;
        } else {
          FillBits();
        }
      }
      symbol := DecodeBuffered(t, ls);
    }

    /** Decoding once there are sixteen bits in the buffer. */
    method DecodeBuffered(t: Tables, ghost ls: seq<nat>) returns (symbol: int)
      requires Valid() && Built(ls, t) && numBits >= 16
      modifies this`numBits, this`codeBuffer
      ensures Valid() && Decoded(ls, old(Stream()), symbol, Stream())
    {
      ghost var low, rest, n := codeBuffer, LittleEndian(data[pos..]), numBits;
      var s;
      symbol, s := LookUp(t, codeBuffer, ls);
      BufferDecides(ls, low, rest, n, symbol);
      if symbol != -1 {
        Consume(s);
      }
    }
  }

  /** The bits of a valid buffer fit the source's 32-bit word, so no shift into it loses any. */
  lemma BufferFitsWord(buffer: nat, n: nat)
    requires n <= 32 && buffer < Pow2(n)
    ensures buffer < 0x1_0000_0000
  {
    Pow2Of16();
    var k := 16;
    Pow2Add(k, k);
    Pow2Monotone(n, k + k);
  }

  /** Which symbol's code, of length `s`, leads the buffer: the fast table first, then the slow path. */
  method LookUp(t: Tables, buffer: nat, ghost ls: seq<nat>) returns (symbol: int, s: nat)
    requires Built(ls, t)
    ensures ValidLengths(ls) && Leading(ls, buffer, symbol)
    ensures symbol != -1 ==> s == ls[symbol] <= 15
  {
    var b := t.fast[buffer % FAST_SIZE];
    if b != 0 {
      FastHit(ls, t.fast, buffer);
      return b % 512, b / 512;
    }
    FastMiss(ls, t.fast, buffer);
    symbol, s := LookUpSlow(t, buffer, ls);
  }

  /** The slow path, for codes of more than nine bits: finds the band the next bits lie in. */
  method LookUpSlow(t: Tables, buffer: nat, ghost ls: seq<nat>) returns (symbol: int, s: nat)
    requires Built(ls, t) && Bound(ls, 10) <= Rev(16, buffer)
    ensures Leading(ls, buffer, symbol)
    ensures symbol != -1 ==> s == ls[symbol] <= 15
  {
    var k := BitReverse.Reverse(buffer, 16);
    s := FindBand(t, k, ls);
    if s >= 16 {
      NoMatchIffBeyond(ls, buffer);
      return -1, s;
    }
    var b := Shr(k, 16 - s) - t.firstcode[s] + t.firstsymbol[s];
    ghost var i := SlotOfBand(ls, t, s, k);
    if b >= SYMBOLS {
      assert false;
    }
    if t.size[b] != s {
      assert false;
    }
    MatchesIffLeads(ls, i, buffer);
    symbol := t.value[b];
  }

  /** The first length from ten on whose band ends after `k`, or 16. */
  method FindBand(t: Tables, k: nat, ghost ls: seq<nat>) returns (s: nat)
    requires Built(ls, t) && Bound(ls, 10) <= k < 0x10000
    ensures 10 <= s <= 16 && Bound(ls, s) <= k
    ensures s < 16 ==> k < Bound(ls, s + 1)
  {
    s := 10;
    while k >= t.maxcode[s]
      invariant 10 <= s <= 16 && Bound(ls, s) <= k
      decreases 16 - s
    {
      assert Entry(ls, s, t.firstcode[s], t.maxcode[s], t.firstsymbol[s]);
      s := s + 1;
    }
    assert s < 16 ==> Entry(ls, s, t.firstcode[s], t.maxcode[s], t.firstsymbol[s]);
  }

  lemma SlotOfBand(ls: seq<nat>, t: Tables, s: nat, k: nat) returns (i: nat)
    requires Built(ls, t) && 1 <= s <= 15 && Bound(ls, s) <= k < Bound(ls, s + 1)
    ensures i < |ls| && ls[i] == s && Shr(k, 16 - s) == Code(ls, i)
    ensures Slot(ls, i) == Shr(k, 16 - s) - t.firstcode[s] + t.firstsymbol[s] < SYMBOLS
    ensures t.size[Slot(ls, i)] == s && t.value[Slot(ls, i)] == i
  {
    assert Entry(ls, s, t.firstcode[s], t.maxcode[s], t.firstsymbol[s]);
    i := BandHasSymbol(ls, s, k);
    assert 0 <= i < |ls| && ls[i] > 0;
  }

  /** Decoding gives the symbol whose code comes first and leaves the stream without that code; or it
      gives -1, when no code comes first, and leaves the stream alone. */
  ghost predicate Decoded(ls: seq<nat>, before: nat, symbol: int, after: nat) {
    && (symbol == -1 || 0 <= symbol < |ls|)
    && (symbol == -1 ==> after == before && forall i :: 0 <= i < |ls| ==> !Matches(ls, i, before))
    && (symbol != -1 ==> Matches(ls, symbol, before) && after == Shr(before, ls[symbol]))
  }

  /** Decoding has one outcome. */
  lemma DecodedUnique(ls: seq<nat>, before: nat, symbol: int, after: nat, symbol': int, after': nat)
    requires ValidLengths(ls) && Accepted(ls)
    requires Decoded(ls, before, symbol, after) && Decoded(ls, before, symbol', after')
    ensures symbol == symbol' && after == after'
  {
    if symbol != -1 && symbol' != -1 {
      MatchUnique(ls, symbol, symbol', before);
    }
  }

  /** `symbol` is the one whose code leads the buffer, or -1 if there is none. */
  ghost predicate Leading(ls: seq<nat>, buffer: nat, symbol: int) {
    if symbol == -1 then forall i :: 0 <= i < |ls| ==> !Matches(ls, i, buffer)
    else 0 <= symbol < |ls| && Matches(ls, symbol, buffer)
  }

  /** Sixteen bits in the buffer decide which code comes next. */
  lemma BufferDecides(ls: seq<nat>, low: nat, rest: nat, n: nat, symbol: int)
    requires ValidLengths(ls) && n >= 16 && Leading(ls, low, symbol)
    ensures var v := low + Shl(rest, n);
      Decoded(ls, v, symbol, if symbol == -1 then v else Shr(v, ls[symbol]))
  {
    var v := low + Shl(rest, n);
    forall i | 0 <= i < |ls| ensures Matches(ls, i, v) <==> Matches(ls, i, low) {
      LowBits(low, rest, n, ls[i]);
    }
  }

  /** At the end of the input, zero bits may be added to the buffer. */
  lemma PadZeros(low: nat, rest: seq<nat>, n: nat)
    requires low < Pow2(n) && rest == []
    ensures low < Pow2(n + 16)
    ensures low + Shl(LittleEndian(rest), n + 16) == low + Shl(LittleEndian(rest), n)
  {
    Pow2Monotone(n, n + 16);
    ShlZero(n);
    ShlZero(n + 16);
  }

  /** Nine bits decide whether a short code comes next. */
  lemma NineBits(ls: seq<nat>, i: nat, v: nat)
    requires Short(ls, i)
    ensures Matches(ls, i, v % 512) <==> Matches(ls, i, v)
  {
    assert Pow2(9) == 512;
    ShlIsMul(v / 512, 9);
    LowBits(v % 512, v / 512, 9, ls[i]);
  }

  /** A fast table entry names the symbol of the short code that comes next. */
  lemma FastHit(ls: seq<nat>, fast: seq<nat>, v: nat)
    requires |ls| <= SYMBOLS && FastFor(ls, |ls|, fast) && fast[v % 512] != 0
    ensures Leading(ls, v, fast[v % 512] % 512)
    ensures fast[v % 512] / 512 == ls[fast[v % 512] % 512] <= 9
  {
    var k := v % 512;
    var i :| 0 <= i < |ls| && Short(ls, i) && Matches(ls, i, k);
    assert Short(ls, i);
    NineBits(ls, i, v);
    DivUnique(fast[k], 512, ls[i], i);
  }

  /** Without an entry, the next bits lie beyond the bands of all short codes. */
  lemma FastMiss(ls: seq<nat>, fast: seq<nat>, v: nat)
    requires ValidLengths(ls) && Accepted(ls) && FastFor(ls, |ls|, fast) && fast[v % 512] == 0
    ensures Bound(ls, 10) <= Rev(16, v)
  {
    if Rev(16, v) < Bound(ls, 10) {
      var s := BandOf(ls, Rev(16, v), 9);
      var i := BandHasSymbol(ls, s, Rev(16, v));
      MatchesIffLeads(ls, i, v);
      NineBits(ls, i, v);
    }
  }
}
