/** Archive, Writer and Reader of serdes.h: values written one after another, and read back. */
module Serdes {
  import opened Options
  import opened CipherModes
  import opened Counter
  import Bits

  /** Plain values of a fixed size, strings, and containers of values. */
  datatype Datum =
    | Scalar(bytes: Bytes)
    | Text(chars: Bytes)
    | List(items: seq<Datum>)

  /** What a reader is told to expect. */
  datatype Type =
    | ScalarType(size: nat)
    | TextType
    | ListType(element: Type)

  predicate HasType(v: Datum, t: Type)
    decreases v
  {
    match v
    case Scalar(bytes) => t.ScalarType? && |bytes| == t.size
    case Text(_) => t.TextType?
    case List(items) => t.ListType? && forall i :: 0 <= i < |items| ==> HasType(items[i], t.element)
  }

  const COUNT_LIMIT := 0x8000_0000

  /** Every count is below 2^31, as the reader's int counter needs. */
  predicate Countable(v: Datum) {
    match v
    case Scalar(_) => true
    case Text(chars) => |chars| < COUNT_LIMIT
    case List(items) => |items| < COUNT_LIMIT && forall i :: 0 <= i < |items| ==> Countable(items[i])
  }

  /** A size_t as the host stores it, lowest byte first. */
  function SizeBytes(n: nat): (b: Bytes)
    ensures |b| == 8
  {
    Reversed(ToBytes(n, |Zeros(8)|))
  }

  function SizeValue(b: Bytes): nat { Value(Reversed(b)) }

  function Reversed(b: Bytes): (r: Bytes)
    ensures |r| == |b|
  {
    seq<Byte>(|b|, i requires 0 <= i < |b| => b[|b| - 1 - i])
  }

  lemma SizeRoundTrip(n: nat)
    requires n < COUNT_LIMIT
    ensures SizeValue(SizeBytes(n)) == n
  {
    var b := ToBytes(n, |Zeros(8)|);
    assert Reversed(Reversed(b)) == b;
    FitsEight(n, |Zeros(8)|);
    ValueOfBytes(n, |Zeros(8)|);
  }

  /** Byte i of a number in k bytes, highest first. */
  lemma {:induction false} ByteAt(n: nat, k: nat, i: nat)
    requires i < k
    ensures ToBytes(n, k)[i] == n / Pow256(k - 1 - i) % 256
    decreases k
  {
    if i < k - 1 {
      ByteAt(n / 256, k - 1, i);
      Bits.DivDiv(n, 256, Pow256(k - 2 - i));
    }
  }

  /** Byte i of a size is its i-th digit to the base 256. */
  lemma SizeByte(n: nat, i: nat)
    requires i < 8
    ensures SizeBytes(n)[i] == n / Pow256(i) % 256
  {
    ByteAt(n, |Zeros(8)|, 7 - i);
  }

  lemma FitsEight(n: nat, k: nat)
    requires n < COUNT_LIMIT && k == 8
    ensures n < Pow256(k)
  {
    assert Pow256(1) == 256;
    Pow256Add(1, 1);
    Pow256Add(k - 6, k - 6);
    Pow256Add(k - 4, k - 4);
  }

  /** What the writer appends. */
  function Encode(v: Datum): Bytes
    decreases v, if v.List? then |v.items| + 1 else 0
  {
    match v
    case Scalar(bytes) => bytes
    case Text(chars) => SizeBytes(|chars|) + chars
    case List(items) => SizeBytes(|items|) + EncodeItems(items, |items|, v)
  }

  /** A string is its size and its characters. */
  lemma TextMeans(chars: Bytes, e: Bytes)
    requires e == Encode(Text(chars))
    ensures |e| == 8 + |chars| && e[8..] == chars && forall i :: 0 <= i < 8 ==> e[i] == |chars| / Pow256(i) % 256
  {
    forall i | 0 <= i < 8 ensures e[i] == |chars| / Pow256(i) % 256 {
      SizeByte(|chars|, i);
    }
  }

  /** A container is its size and then, each behind the ones before, its elements. */
  lemma ListMeans(items: seq<Datum>, e: Bytes, k: nat, off: nat)
    requires e == Encode(List(items)) && k < |items| && off == 8 + |EncodeItems(items, k, List(items))|
    ensures |e| >= 8 && forall i :: 0 <= i < 8 ==> e[i] == |items| / Pow256(i) % 256
    ensures off + |Encode(items[k])| <= |e| && e[off..off + |Encode(items[k])|] == Encode(items[k])
    ensures k == 0 ==> off == 8
    ensures k + 1 < |items| ==> off + |Encode(items[k])| == 8 + |EncodeItems(items, k + 1, List(items))|
    ensures k + 1 == |items| ==> off + |Encode(items[k])| == |e|
  {
    forall i | 0 <= i < 8 ensures e[i] == |items| / Pow256(i) % 256 {
      SizeByte(|items|, i);
    }
    var rest := ItemsFrom(items, k, |items|, List(items));
  }

  /** Behind the elements before it stands element `k`, and then the rest. */
  lemma {:induction false} ItemsFrom(items: seq<Datum>, k: nat, n: nat, whole: Datum) returns (rest: Bytes)
    requires k < n <= |items| && whole == List(items)
    ensures EncodeItems(items, n, whole) == EncodeItems(items, k, whole) + Encode(items[k]) + rest
    ensures n == k + 1 ==> rest == []
    decreases n
  {
    if n == k + 1 {
      rest := [];
    } else {
      var r := ItemsFrom(items, k, n - 1, whole);
      rest := r + Encode(items[n - 1]);
    }
  }

  /** The first `n` items; `whole` is the list they belong to. */
  function EncodeItems(items: seq<Datum>, n: nat, whole: Datum): Bytes
    requires n <= |items| && whole == List(items)
    decreases whole, n
  {
    if n == 0 then [] else EncodeItems(items, n - 1, whole) + Encode(items[n - 1])
  }

  /** What a read comes to: a value and the place behind it, the end of the bytes where the source's assertion
      fails, or more elements than the reader's int counter can count. */
  datatype Outcome<+T> = Read(value: T, end: nat) | RanOut | Overflowed

  /** Reading `n` items one after another, each by `read`.  Counting up behind the item that makes 2^31 overflows. */
  function Repeat(read: nat -> Outcome<Datum>, n: nat, off: nat): (r: Outcome<seq<Datum>>)
    ensures r.Read? ==> |r.value| == n && (n == 0 || n < COUNT_LIMIT)
  {
    if n == 0 then Read([], off)
    else
      var front := Repeat(read, n - 1, off);
      if front.Read? then WithItem(front.value, read(front.end)) else front
  }

  function WithItem(items: seq<Datum>, r: Outcome<Datum>): Outcome<seq<Datum>> {
    match r
    case RanOut => RanOut
    case Overflowed => Overflowed
    case Read(item, end) => if |items| + 1 < COUNT_LIMIT then Read(items + [item], end) else Overflowed
  }

  function AsList(r: Outcome<seq<Datum>>): Outcome<Datum> {
    match r
    case Read(items, end) => Read(List(items), end)
    case RanOut => RanOut
    case Overflowed => Overflowed
  }

  /** What a reader makes of the bytes from `off` on. */
  function Decode(t: Type, b: Bytes, off: nat): Outcome<Datum>
    decreases t, 0
  {
    match t
    case ScalarType(size) =>
      if off + size <= |b| then Read(Scalar(b[off..off + size]), off + size) else RanOut
    case TextType =>
      if off + 8 > |b| then RanOut
      else
        var n := SizeValue(b[off..off + 8]);
        if off + 8 + n <= |b| then Read(Text(b[off + 8..off + 8 + n]), off + 8 + n) else RanOut
    case ListType(element) =>
      if off + 8 > |b| then RanOut
      else AsList(Repeat(Reader(element, b), SizeValue(b[off..off + 8]), off + 8))
  }

  /** Reading values of one type from one archive. */
  function Reader(t: Type, b: Bytes): nat -> Outcome<Datum>
    decreases t, 1
  {
    (off: nat) => Decode(t, b, off)
  }

  lemma ReaderIs(t: Type, b: Bytes, off: nat)
    ensures Reader(t, b)(off) == Decode(t, b, off)
  {
  }

  /** The archive has `e` at `off`. */
  predicate Holds(b: Bytes, off: nat, e: Bytes) {
    off + |e| <= |b| && b[off..off + |e|] == e
  }

  lemma HoldsParts(b: Bytes, off: nat, x: Bytes, y: Bytes)
    requires Holds(b, off, x + y)
    ensures Holds(b, off, x) && Holds(b, off + |x|, y)
  {
    assert (x + y)[..|x|] == x && (x + y)[|x|..] == y;
    assert b[off..off + |x + y|][..|x|] == b[off..off + |x|];
    assert b[off..off + |x + y|][|x|..] == b[off + |x|..off + |x| + |y|];
  }

  /** Reading what was written gives the value back and stops exactly behind it. */
  lemma {:induction false} DecodeEncode(v: Datum, t: Type, b: Bytes, off: nat)
    requires HasType(v, t) && Countable(v) && Holds(b, off, Encode(v))
    ensures Decode(t, b, off) == Read(v, off + |Encode(v)|)
    decreases v, if v.List? then |v.items| + 1 else 0
  {
    match v
    case Scalar(_) =>
    case Text(chars) =>
      HoldsParts(b, off, SizeBytes(|chars|), chars);
      SizeRoundTrip(|chars|);
    case List(items) =>
      HoldsParts(b, off, SizeBytes(|items|), EncodeItems(items, |items|, v));
      SizeRoundTrip(|items|);
      RepeatEncoded(items, |items|, v, t, b, off + 8, off + 8 + |EncodeItems(items, |items|, v)|, Reader(t.element, b));
      assert items[..|items|] == items;
  }

  /** Reading `n` items gives the first `n` of a list. */
  ghost predicate RepeatsBack(read: nat -> Outcome<Datum>, items: seq<Datum>, n: nat, off: nat, end: nat)
    requires n <= |items|
  {
    Repeat(read, n, off) == Read(items[..n], end)
  }

  ghost predicate GivesBack(read: nat -> Outcome<Datum>, v: Datum, mid: nat, end: nat) { read(mid) == Read(v, end) }

  lemma {:induction false} RepeatEncoded(items: seq<Datum>, n: nat, whole: Datum, t: Type, b: Bytes, off: nat, end: nat,
                                         read: nat -> Outcome<Datum>)
    requires n <= |items| && whole == List(items) && HasType(whole, t) && Countable(whole)
    requires Holds(b, off, EncodeItems(items, n, whole)) && end == off + |EncodeItems(items, n, whole)|
    requires read == Reader(t.element, b)
    ensures RepeatsBack(read, items, n, off, end)
    decreases whole, n
  {
    if n > 0 {
      var mid := off + |EncodeItems(items, n - 1, whole)|;
      LastItem(items, n, whole, b, off, mid, end);
      RepeatEncoded(items, n - 1, whole, t, b, off, mid, read);
      ItemDecodes(items, n - 1, whole, t, b, mid, end, read);
      RepeatNext(read, items, n - 1, n, off, mid, end);
    }
  }

  /** The last of `n` items lies behind the others. */
  lemma LastItem(items: seq<Datum>, n: nat, whole: Datum, b: Bytes, off: nat, mid: nat, end: nat)
    requires 0 < n <= |items| && whole == List(items) && Holds(b, off, EncodeItems(items, n, whole))
    requires mid == off + |EncodeItems(items, n - 1, whole)| && end == off + |EncodeItems(items, n, whole)|
    ensures Holds(b, off, EncodeItems(items, n - 1, whole)) && Holds(b, mid, Encode(items[n - 1]))
    ensures end == mid + |Encode(items[n - 1])|
  {
    HoldsParts(b, off, EncodeItems(items, n - 1, whole), Encode(items[n - 1]));
  }

  lemma {:induction false} ItemDecodes(items: seq<Datum>, k: nat, whole: Datum, t: Type, b: Bytes, off: nat, end: nat,
                                       read: nat -> Outcome<Datum>)
    requires k < |items| && whole == List(items) && HasType(whole, t) && Countable(whole)
    requires Holds(b, off, Encode(items[k])) && end == off + |Encode(items[k])| && read == Reader(t.element, b)
    ensures GivesBack(read, items[k], off, end) && k + 1 < COUNT_LIMIT
    decreases whole, 0
  {
    DecodeEncode(items[k], t.element, b, off);
    ReaderIs(t.element, b, off);
  }

  lemma RepeatNext(read: nat -> Outcome<Datum>, items: seq<Datum>, k: nat, n: nat, off: nat, mid: nat, end: nat)
    requires n == k + 1 <= |items| && RepeatsBack(read, items, k, off, mid) && GivesBack(read, items[k], mid, end)
    requires n < COUNT_LIMIT
    ensures RepeatsBack(read, items, n, off, end)
  {
    assert items[..n] == items[..k] + [items[k]];
  }

  /** The first `n` of some values, written one after another. */
  function EncodeAll(vs: seq<Datum>, n: nat): Bytes
    requires n <= |vs|
  {
    if n == 0 then [] else EncodeAll(vs, n - 1) + Encode(vs[n - 1])
  }

  /** The first `n` values read one after another. */
  function DecodeAll(ts: seq<Type>, n: nat, b: Bytes, off: nat): Outcome<seq<Datum>>
    requires n <= |ts|
  {
    if n == 0 then Read([], off)
    else
      match DecodeAll(ts, n - 1, b, off)
      case RanOut => RanOut
      case Overflowed => Overflowed
      case Read(vs, mid) => WithValue(vs, Decode(ts[n - 1], b, mid))
  }

  function WithValue(vs: seq<Datum>, r: Outcome<Datum>): Outcome<seq<Datum>> {
    match r
    case RanOut => RanOut
    case Overflowed => Overflowed
    case Read(v, end) => Read(vs + [v], end)
  }

  /** Reading that has stopped does not go on. */
  lemma {:induction false} DecodeAllStops(ts: seq<Type>, i: nat, b: Bytes, off: nat, n: nat := |ts|)
    requires i <= n <= |ts| && !DecodeAll(ts, i, b, off).Read?
    ensures DecodeAll(ts, n, b, off) == DecodeAll(ts, i, b, off)
    decreases n
  {
    if i < n { DecodeAllStops(ts, i, b, off, n - 1); }
  }

  lemma {:induction false} EncodeAllGrows(vs: seq<Datum>, n: nat)
    requires n <= |vs|
    ensures |EncodeAll(vs, n)| <= |EncodeAll(vs, |vs|)|
    decreases |vs| - n
  {
    if n < |vs| { EncodeAllGrows(vs, n + 1); }
  }

  /** Value `k` can be read back as type `k`, wherever it is found. */
  ghost predicate ReadableAt(v: Datum, t: Type) { HasType(v, t) && Countable(v) }

  ghost predicate Readable(vs: seq<Datum>, ts: seq<Type>) {
    |vs| == |ts| && forall i :: 0 <= i < |vs| ==> ReadableAt(vs[i], ts[i])
  }

  lemma DecodeOne(vs: seq<Datum>, ts: seq<Type>, k: nat, b: Bytes, off: nat, size: nat)
    requires Readable(vs, ts) && k < |vs| && Holds(b, off, Encode(vs[k])) && size == |Encode(vs[k])|
    ensures Decode(ts[k], b, off) == Read(vs[k], off + size)
  {
    assert ReadableAt(vs[k], ts[k]);
    DecodeEncode(vs[k], ts[k], b, off);
  }

  /** What reading `n` values gives is what was written. */
  ghost predicate ReadsBack(vs: seq<Datum>, ts: seq<Type>, n: nat, b: Bytes, off: nat, end: nat)
    requires n <= |vs| == |ts|
  {
    DecodeAll(ts, n, b, off) == Read(vs[..n], end)
  }

  lemma ReadsBackNext(vs: seq<Datum>, ts: seq<Type>, n: nat, b: Bytes, off: nat, mid: nat, end: nat)
    requires n < |vs| == |ts| && ReadsBack(vs, ts, n, b, off, mid) && Decode(ts[n], b, mid) == Read(vs[n], end)
    ensures ReadsBack(vs, ts, n + 1, b, off, end)
  {
    assert vs[..n + 1] == vs[..n] + [vs[n]];
  }

  /** The last of `n` values lies behind the others. */
  lemma LastPart(vs: seq<Datum>, n: nat, b: Bytes, off: nat, mid: nat, end: nat)
    requires 0 < n <= |vs| && Holds(b, off, EncodeAll(vs, n))
    requires mid == off + |EncodeAll(vs, n - 1)| && end == off + |EncodeAll(vs, n)|
    ensures Holds(b, off, EncodeAll(vs, n - 1)) && Holds(b, mid, Encode(vs[n - 1])) && end == mid + |Encode(vs[n - 1])|
  {
    HoldsParts(b, off, EncodeAll(vs, n - 1), Encode(vs[n - 1]));
  }

  /** Values come back in the order they were written. */
  lemma {:induction false} DecodeAllEncodeAll(vs: seq<Datum>, ts: seq<Type>, n: nat, b: Bytes, off: nat, end: nat)
    requires Readable(vs, ts) && n <= |vs| && Holds(b, off, EncodeAll(vs, n)) && end == off + |EncodeAll(vs, n)|
    ensures ReadsBack(vs, ts, n, b, off, end)
    decreases n
  {
    if n > 0 {
      var mid := off + |EncodeAll(vs, n - 1)|;
      LastPart(vs, n, b, off, mid, end);
      DecodeAllEncodeAll(vs, ts, n - 1, b, off, mid);
      DecodeOne(vs, ts, n - 1, b, mid, end - mid);
      ReadsBackNext(vs, ts, n - 1, b, off, mid, end);
    }
  }

  const OFFSET_LIMIT := 0x1_0000_0000

  /** The archive: bytes and a 32-bit position in them. */
  class Archive {
    var container: Bytes
    var offset: nat

    constructor (bytes: Bytes)
      ensures container == bytes && offset == 0
    {
      container, offset := bytes, 0;
    }

    /** Advance: false where the source's assertion fails. */
    method Advance(size: nat) returns (ok: bool)
      modifies this`offset
      ensures ok <==> old(offset) + size <= |container|
      ensures offset == if ok then (old(offset) + size) % OFFSET_LIMIT else old(offset)
    {
      ok := offset + size <= |container|;
      if ok {
        offset := (offset + size) % OFFSET_LIMIT;
      }
    }

    /** Writer::Write of raw bytes: grows by as many bytes as are written when they do not fit or just fit. */
    method WriteBytes(bytes: Bytes)
      requires offset <= |container|
      modifies this
      ensures |container| == |old(container)| + (if old(offset) + |bytes| >= |old(container)| then |bytes| else 0)
      ensures forall i :: 0 <= i < |container| ==> container[i] == Stored(old(container), old(offset), bytes, i)
      ensures offset == (old(offset) + |bytes|) % OFFSET_LIMIT
    {
      if offset + |bytes| >= |container| {
        container := container + Zeros(|bytes|);
      }
      container := container[..offset] + bytes + container[offset + |bytes|..];
      var _ := Advance(|bytes|);
    }

    /** Writing at the end appends. */
    method Append(bytes: Bytes)
      requires offset == |container| && |container| + |bytes| < OFFSET_LIMIT
      modifies this
      ensures container == old(container) + bytes && offset == |container|
    {
      WriteBytes(bytes);
      assert container == old(container) + bytes;
    }

    /** Writer::Write of a value, item by item. */
    method WriteDatum(v: Datum)
      requires offset == |container| && |container| + |Encode(v)| < OFFSET_LIMIT
      modifies this
      ensures container == old(container) + Encode(v) && offset == |container|
      decreases v
    {
      match v
      case Scalar(bytes) =>
        Append(bytes);
      case Text(chars) =>
        Append(SizeBytes(|chars|));
        Append(chars);
      case List(items) =>
        Append(SizeBytes(|items|));
        ghost var start := container;
        for i := 0 to |items|
          invariant container == start + EncodeItems(items, i, v) && offset == |container|
        {
          ItemsGrow(items, i + 1, v);
          WriteDatum(items[i]);
        }
    }

    /** Reader::Read of raw bytes: None where the source's assertion fails. */
    method ReadBytes(size: nat) returns (r: Option<Bytes>)
      requires |container| < OFFSET_LIMIT
      modifies this`offset
      ensures r == if old(offset) + size <= |container| then Some(container[old(offset)..old(offset) + size]) else None
      ensures offset == if r.Some? then old(offset) + size else old(offset)
    {
      if offset + size > |container| {
        return None;
      }
      r := Some(container[offset..offset + size]);
      var _ := Advance(size);
    }

    /** Reads a size. */
    method ReadCount() returns (r: Option<nat>)
      requires |container| < OFFSET_LIMIT && offset <= |container|
      modifies this`offset
      ensures r == if old(offset) + 8 > |container| then None
                   else Some(SizeValue(container[old(offset)..old(offset) + 8]))
      ensures offset == (if r.Some? then old(offset) + 8 else old(offset)) <= |container|
    {
      var b := ReadBytes(8);
      r := if b.Some? then Some(SizeValue(b.value)) else None;
    }

    /** Reader::Read of a value, item by item. */
    method ReadDatum(t: Type) returns (r: Outcome<Datum>)
      requires |container| < OFFSET_LIMIT && offset <= |container|
      modifies this`offset
      ensures r == Decode(t, container, old(offset)) && offset <= |container|
      ensures r.Read? ==> offset == r.end
      decreases t, 0
    {
      if t.ScalarType? {
        var b := ReadBytes(t.size);
        r := if b.Some? then Read(Scalar(b.value), offset) else RanOut;
      } else {
        var n := ReadCount();
        if n == None {
          return RanOut;
        }
        if t.TextType? {
          var b := ReadBytes(n.value);
          r := if b.Some? then Read(Text(b.value), offset) else RanOut;
        } else {
          var items := ReadItems(t.element, n.value, Reader(t.element, container));
          r := AsList(items);
        }
      }
    }

    /** The loop over the items of a container, with its int counter. */
    method ReadItems(t: Type, n: nat, ghost read: nat -> Outcome<Datum>) returns (r: Outcome<seq<Datum>>)
      requires |container| < OFFSET_LIMIT && offset <= |container| && read == Reader(t, container)
      modifies this`offset
      ensures r == Repeat(read, n, old(offset)) && offset <= |container|
      ensures r.Read? ==> offset == r.end
      decreases t, 2
    {
      ghost var start := offset;
      r := Read([], offset);
      for i := 0 to n
        invariant offset <= |container| && r == Repeat(read, i, start) && r.Read? && offset == r.end
      {
        var item := ReadItem(t, read);
        r := WithItem(r.value, item);
        if !r.Read? {
          RepeatStops(read, i + 1, n, start);
          return;
        }
      }
    }

    method ReadItem(t: Type, ghost read: nat -> Outcome<Datum>) returns (r: Outcome<Datum>)
      requires |container| < OFFSET_LIMIT && offset <= |container| && read == Reader(t, container)
      modifies this`offset
      ensures r == read(old(offset)) && offset <= |container|
      ensures r.Read? ==> offset == r.end
      decreases t, 1
    {
      ReaderIs(t, container, offset);
      r := ReadDatum(t);
    }

    /** Several values, written one after another. */
    method WriteAll(vs: seq<Datum>)
      requires offset == |container| && |container| + |EncodeAll(vs, |vs|)| < OFFSET_LIMIT
      modifies this
      ensures container == old(container) + EncodeAll(vs, |vs|) && offset == |container|
    {
      for i := 0 to |vs|
        invariant container == old(container) + EncodeAll(vs, i) && offset == |container|
      {
        EncodeAllGrows(vs, i + 1);
        WriteDatum(vs[i]);
      }
    }

    /** Several values, read one after another. */
    method ReadAll(ts: seq<Type>) returns (r: Outcome<seq<Datum>>)
      requires |container| < OFFSET_LIMIT && offset <= |container|
      modifies this`offset
      ensures r == DecodeAll(ts, |ts|, container, old(offset)) && offset <= |container|
      ensures r.Read? ==> offset == r.end
    {
      ghost var start := offset;
      r := Read([], offset);
      for i := 0 to |ts|
        invariant offset <= |container| && r == DecodeAll(ts, i, container, start) && r.Read? && offset == r.end
      {
        var v := ReadDatum(ts[i]);
        r := WithValue(r.value, v);
        if !r.Read? {
          DecodeAllStops(ts, i + 1, container, start);
          return;
        }
      }
    }
  }

  /** What a write leaves at position `i`: its bytes where it went, what was there elsewhere, and zeros where the
      container grew. */
  function Stored(was: Bytes, off: nat, bytes: Bytes, i: nat): Byte {
    if off <= i < off + |bytes| then bytes[i - off] else if i < |was| then was[i] else 0
  }

  lemma {:induction false} ItemsGrow(items: seq<Datum>, n: nat, whole: Datum)
    requires n <= |items| && whole == List(items)
    ensures |EncodeItems(items, n, whole)| <= |EncodeItems(items, |items|, whole)|
    decreases |items| - n
  {
    if n < |items| { ItemsGrow(items, n + 1, whole); }
  }

  /** Reading that has stopped does not go on. */
  lemma {:induction false} RepeatStops(read: nat -> Outcome<Datum>, i: nat, n: nat, off: nat)
    requires i <= n && !Repeat(read, i, off).Read?
    ensures Repeat(read, n, off) == Repeat(read, i, off)
  {
    if i < n { RepeatStops(read, i, n - 1, off); }
  }

  /** A value written to a fresh archive and read back from its bytes. */
  method WriteThenRead(v: Datum, t: Type) returns (r: Outcome<Datum>)
    requires HasType(v, t) && Countable(v) && |Encode(v)| < OFFSET_LIMIT
    ensures r == Read(v, |Encode(v)|)
  {
    var written := new Archive([]);
    written.WriteDatum(v);
    assert written.container == Encode(v);
    var taken := new Archive(written.container);
    DecodeEncode(v, t, taken.container, 0);
    r := taken.ReadDatum(t);
  }

  /** Values written to a fresh archive and read back from its bytes, in the order they were written. */
  method WriteAllThenReadAll(vs: seq<Datum>, ts: seq<Type>) returns (r: Outcome<seq<Datum>>)
    requires Readable(vs, ts) && |EncodeAll(vs, |vs|)| < OFFSET_LIMIT
    ensures r == Read(vs, |EncodeAll(vs, |vs|)|)
  {
    var written := new Archive([]);
    written.WriteAll(vs);
    assert written.container == EncodeAll(vs, |vs|);
    var taken := new Archive(written.container);
    DecodeAllEncodeAll(vs, ts, |vs|, taken.container, 0, |taken.container|);
    r := taken.ReadAll(ts);
    assert vs[..|vs|] == vs;
  }
}
