/** The column mixing of AES over an abstract addition and doubling.

    Addition is exclusive or and doubling is multiplication by x in GF(2^8); all that matters here is
    that addition is a commutative group in which every element is its own inverse, and that doubling
    distributes over it.  The laws carry triggers that never fire by themselves: each use names its
    instance. */
module GaloisMix {

  datatype Field<!B> = Field(zero: B, plus: (B, B) -> B, dbl: B -> B)

  predicate Two<B>(a: B, b: B) { true }
  predicate Three<B>(a: B, b: B, c: B) { true }

  ghost predicate CommLaw<B(!new)>(f: Field<B>) {
    forall a: B, b: B {:trigger Two(a, b)} :: Two(a, b) ==> f.plus(a, b) == f.plus(b, a)
  }

  ghost predicate AssocLaw<B(!new)>(f: Field<B>) {
    forall a: B, b: B, c: B {:trigger Three(a, b, c)} ::
      Three(a, b, c) ==> f.plus(f.plus(a, b), c) == f.plus(a, f.plus(b, c))
  }

  ghost predicate OwnLaw<B(!new)>(f: Field<B>) {
    forall a: B, b: B {:trigger Two(a, b)} :: Two(a, b) ==> f.plus(a, a) == f.zero && f.plus(a, f.zero) == a
  }

  ghost predicate LinearLaw<B(!new)>(f: Field<B>) {
    forall a: B, b: B {:trigger Two(a, b)} :: Two(a, b) ==> f.dbl(f.plus(a, b)) == f.plus(f.dbl(a), f.dbl(b))
  }

  ghost predicate Laws<B(!new)>(f: Field<B>) {
    CommLaw(f) && AssocLaw(f) && OwnLaw(f) && LinearLaw(f)
  }

  lemma Comm<B(!new)>(f: Field<B>, a: B, b: B)
    requires Laws(f)
    ensures f.plus(a, b) == f.plus(b, a)
  {
    assert Two(a, b);
  }

  lemma Assoc<B(!new)>(f: Field<B>, a: B, b: B, c: B)
    requires Laws(f)
    ensures f.plus(f.plus(a, b), c) == f.plus(a, f.plus(b, c))
  {
    assert Three(a, b, c);
  }

  lemma Own<B(!new)>(f: Field<B>, a: B)
    requires Laws(f)
    ensures f.plus(a, a) == f.zero && f.plus(a, f.zero) == a && f.plus(f.zero, a) == a
  {
    assert Two(a, f.zero);
  }

  lemma Linear<B(!new)>(f: Field<B>, a: B, b: B)
    requires Laws(f)
    ensures f.dbl(f.plus(a, b)) == f.plus(f.dbl(a), f.dbl(b))
  {
    assert Two(a, b);
  }

  /** (a + b) + (c + d) == (a + c) + (b + d) */
  lemma Swap<B(!new)>(f: Field<B>, a: B, b: B, c: B, d: B)
    requires Laws(f)
    ensures f.plus(f.plus(a, b), f.plus(c, d)) == f.plus(f.plus(a, c), f.plus(b, d))
  {
    Assoc(f, a, b, f.plus(c, d));
    Assoc(f, b, c, d);
    Comm(f, b, c);
    Assoc(f, c, b, d);
    Assoc(f, a, c, f.plus(b, d));
  }

  /** (a + b) + b == a and (a + b) + a == b */
  lemma Cancel<B(!new)>(f: Field<B>, a: B, b: B)
    requires Laws(f)
    ensures f.plus(f.plus(a, b), b) == a && f.plus(f.plus(a, b), a) == b
  {
    Assoc(f, a, b, b);
    Own(f, a);
    Own(f, b);
    Comm(f, a, b);
    Assoc(f, b, a, a);
  }

  /** (a + t) + (b + t) == a + b */
  lemma CancelCommon<B(!new)>(f: Field<B>, a: B, b: B, t: B)
    requires Laws(f)
    ensures f.plus(f.plus(a, t), f.plus(b, t)) == f.plus(a, b)
  {
    Swap(f, a, t, b, t);
    Own(f, t);
    Own(f, f.plus(a, b));
  }

  /** The sum of a column. */
  function Total<B>(f: Field<B>, a: B, b: B, c: B, d: B): B {
    f.plus(f.plus(a, b), f.plus(c, d))
  }

  /** 2a + 3b + c + d, written as (a + total) + 2(a + b). */
  function Mix<B>(f: Field<B>, a: B, b: B, total: B): B {
    f.plus(f.plus(a, total), f.dbl(f.plus(a, b)))
  }

  /** a + 4(a + c): what mixing twice does. */
  function Square<B>(f: Field<B>, a: B, c: B): B {
    f.plus(a, f.dbl(f.dbl(f.plus(a, c))))
  }

  lemma MixPair<B(!new)>(f: Field<B>, a: B, b: B, c: B, total: B)
    requires Laws(f)
    ensures f.plus(Mix(f, a, b, total), Mix(f, b, c, total)) == f.plus(f.plus(a, b), f.dbl(f.plus(a, c)))
  {
    var u, v := f.dbl(f.plus(a, b)), f.dbl(f.plus(b, c));
    Swap(f, f.plus(a, total), u, f.plus(b, total), v);
    CancelCommon(f, a, b, total);
    Linear(f, f.plus(a, b), f.plus(b, c));
    Comm(f, b, c);
    CancelCommon(f, a, c, b);
  }

  /** Mixing keeps the sum of a column. */
  lemma MixKeepsTotal<B(!new)>(f: Field<B>, a: B, b: B, c: B, d: B)
    requires Laws(f)
    ensures var t := Total(f, a, b, c, d);
      Total(f, Mix(f, a, b, t), Mix(f, b, c, t), Mix(f, c, d, t), Mix(f, d, a, t)) == t
  {
    var t := Total(f, a, b, c, d);
    MixPair(f, a, b, c, t);
    MixPair(f, c, d, a, t);
    var u := f.dbl(f.plus(a, c));
    Comm(f, a, c);
    Swap(f, f.plus(a, b), u, f.plus(c, d), u);
    Own(f, u);
    Own(f, t);
  }

  lemma MixTwice<B(!new)>(f: Field<B>, a: B, b: B, c: B, total: B)
    requires Laws(f)
    ensures Mix(f, Mix(f, a, b, total), Mix(f, b, c, total), total) == Square(f, a, c)
  {
    var u := f.dbl(f.plus(a, b));
    var q := f.dbl(f.dbl(f.plus(a, c)));
    MixPair(f, a, b, c, total);
    Linear(f, f.plus(a, b), f.dbl(f.plus(a, c)));
    // ((a + total) + u) + total == a + u
    Assoc(f, a, total, u);
    Comm(f, total, u);
    Assoc(f, a, u, total);
    Cancel(f, f.plus(a, u), total);
    // (a + u) + (u + q) == a + q
    Comm(f, u, q);
    CancelCommon(f, a, q, u);
  }

  lemma SquareTwice<B(!new)>(f: Field<B>, a: B, c: B)
    requires Laws(f)
    ensures Square(f, Square(f, a, c), Square(f, c, a)) == a
  {
    var q := f.dbl(f.dbl(f.plus(a, c)));
    Comm(f, a, c);
    CancelCommon(f, a, c, q);
    Cancel(f, a, q);
  }

  /** Three mixings after one undo it. */
  lemma FourMixings<B(!new)>(f: Field<B>, a: B, b: B, c: B, d: B, t: B)
    requires Laws(f)
    ensures Mix(f, Square(f, Mix(f, a, b, t), Mix(f, c, d, t)), Square(f, Mix(f, b, c, t), Mix(f, d, a, t)), t) == a
  {
    var a', b', c', d' := Mix(f, a, b, t), Mix(f, b, c, t), Mix(f, c, d, t), Mix(f, d, a, t);
    var y0, y1, y2 := Square(f, a, c), Square(f, b, d), Square(f, c, a);
    MixTwice(f, a, b, c, t);
    MixTwice(f, b, c, d, t);
    MixTwice(f, c, d, a, t);
    MixTwice(f, a', b', c', t);
    MixTwice(f, b', c', d', t);
    MixTwice(f, y0, y1, y2, t);
    SquareTwice(f, a, c);
  }

  /** Leaving one byte out of the sum of a column. */
  lemma TotalWithout<B(!new)>(f: Field<B>, a: B, b: B, c: B, d: B)
    requires Laws(f)
    ensures var t := Total(f, a, b, c, d);
      && f.plus(a, t) == f.plus(b, f.plus(c, d))
      && f.plus(b, t) == f.plus(a, f.plus(c, d))
      && f.plus(c, t) == f.plus(f.plus(a, b), d)
      && f.plus(d, t) == f.plus(f.plus(a, b), c)
  {
    var p, q := f.plus(a, b), f.plus(c, d);
    Assoc(f, a, p, q);
    Comm(f, a, p);
    Assoc(f, b, p, q);
    Comm(f, b, p);
    Cancel(f, a, b);
    Comm(f, c, f.plus(p, q));
    Assoc(f, p, q, c);
    Comm(f, d, f.plus(p, q));
    Assoc(f, p, q, d);
    Cancel(f, c, d);
  }

  /** The four rows of the source's mix_columns. */
  function Row0<B>(f: Field<B>, a: B, b: B, c: B, d: B): B {
    f.plus(f.plus(f.plus(f.dbl(a), f.plus(f.dbl(b), b)), c), d)
  }

  function Row1<B>(f: Field<B>, a: B, b: B, c: B, d: B): B {
    f.plus(f.plus(f.plus(a, f.dbl(b)), f.plus(f.dbl(c), c)), d)
  }

  function Row2<B>(f: Field<B>, a: B, b: B, c: B, d: B): B {
    f.plus(f.plus(f.plus(a, b), f.dbl(c)), f.plus(f.dbl(d), d))
  }

  function Row3<B>(f: Field<B>, a: B, b: B, c: B, d: B): B {
    f.plus(f.plus(f.plus(f.plus(f.dbl(a), a), b), c), f.dbl(d))
  }

  lemma Row0IsMix<B(!new)>(f: Field<B>, a: B, b: B, c: B, d: B)
    requires Laws(f)
    ensures Row0(f, a, b, c, d) == Mix(f, a, b, Total(f, a, b, c, d))
  {
    var p, q := f.dbl(a), f.dbl(b);
    TotalWithout(f, a, b, c, d);
    Linear(f, a, b);
    Assoc(f, f.plus(p, f.plus(q, b)), c, d);
    Assoc(f, p, q, b);
    Assoc(f, f.plus(p, q), b, f.plus(c, d));
    Comm(f, f.plus(p, q), f.plus(b, f.plus(c, d)));
  }

  lemma Row1IsMix<B(!new)>(f: Field<B>, a: B, b: B, c: B, d: B)
    requires Laws(f)
    ensures Row1(f, a, b, c, d) == Mix(f, b, c, Total(f, a, b, c, d))
  {
    var p, q := f.dbl(b), f.dbl(c);
    TotalWithout(f, a, b, c, d);
    Linear(f, b, c);
    Comm(f, q, c);
    Swap(f, a, p, c, q);
    Assoc(f, f.plus(a, c), f.plus(p, q), d);
    Comm(f, f.plus(p, q), d);
    Assoc(f, f.plus(a, c), d, f.plus(p, q));
    Assoc(f, a, c, d);
  }

  lemma Row2IsMix<B(!new)>(f: Field<B>, a: B, b: B, c: B, d: B)
    requires Laws(f)
    ensures Row2(f, a, b, c, d) == Mix(f, c, d, Total(f, a, b, c, d))
  {
    var p, q := f.dbl(c), f.dbl(d);
    TotalWithout(f, a, b, c, d);
    Linear(f, c, d);
    Comm(f, q, d);
    Swap(f, f.plus(a, b), p, d, q);
  }

  lemma Row3IsMix<B(!new)>(f: Field<B>, a: B, b: B, c: B, d: B)
    requires Laws(f)
    ensures Row3(f, a, b, c, d) == Mix(f, d, a, Total(f, a, b, c, d))
  {
    var p, q := f.dbl(a), f.dbl(d);
    TotalWithout(f, a, b, c, d);
    Linear(f, d, a);
    Assoc(f, p, a, b);
    Assoc(f, p, f.plus(a, b), c);
    Comm(f, p, f.plus(f.plus(a, b), c));
    Assoc(f, f.plus(f.plus(a, b), c), p, q);
    Comm(f, p, q);
  }

  /** Multiplication by 14, 11, 13 and 9, in the order of the source's loop over bits. */
  function Times14<B>(f: Field<B>, v: B): B {
    f.plus(f.plus(f.plus(f.zero, f.dbl(v)), f.dbl(f.dbl(v))), f.dbl(f.dbl(f.dbl(v))))
  }

  function Times11<B>(f: Field<B>, v: B): B {
    f.plus(f.plus(f.plus(f.zero, v), f.dbl(v)), f.dbl(f.dbl(f.dbl(v))))
  }

  function Times13<B>(f: Field<B>, v: B): B {
    f.plus(f.plus(f.plus(f.zero, v), f.dbl(f.dbl(v))), f.dbl(f.dbl(f.dbl(v))))
  }

  function Times9<B>(f: Field<B>, v: B): B {
    f.plus(f.plus(f.zero, v), f.dbl(f.dbl(f.dbl(v))))
  }

  function Sum4<B>(f: Field<B>, a: B, b: B, c: B, d: B): B {
    f.plus(f.plus(f.plus(a, b), c), d)
  }

  lemma Rotate<B(!new)>(f: Field<B>, a: B, b: B, c: B, d: B)
    requires Laws(f)
    ensures Sum4(f, a, b, c, d) == Sum4(f, b, c, d, a)
  {
    Comm(f, a, b);
    Assoc(f, b, a, c);
    Comm(f, a, c);
    Assoc(f, b, c, a);
    Assoc(f, f.plus(b, c), a, d);
    Comm(f, a, d);
    Assoc(f, f.plus(b, c), d, a);
  }

  /** 4(a + c) and the double of (a + 4(a + c)) + (b + 4(b + d)), multiplied out. */
  lemma MultiplyOut<B(!new)>(f: Field<B>, a: B, b: B, c: B, d: B)
    requires Laws(f)
    ensures f.dbl(f.dbl(f.plus(a, c))) == f.plus(f.dbl(f.dbl(a)), f.dbl(f.dbl(c)))
    ensures
      var a8, b8 := f.dbl(f.dbl(f.dbl(a))), f.dbl(f.dbl(f.dbl(b)));
      var c8, d8 := f.dbl(f.dbl(f.dbl(c))), f.dbl(f.dbl(f.dbl(d)));
      f.dbl(f.plus(Square(f, a, c), Square(f, b, d)))
        == f.plus(f.plus(f.dbl(a), f.dbl(b)), f.plus(f.plus(a8, b8), f.plus(c8, d8)))
  {
    var a4, b4, c4, d4 := f.dbl(f.dbl(a)), f.dbl(f.dbl(b)), f.dbl(f.dbl(c)), f.dbl(f.dbl(d));
    Linear(f, a, c);
    Linear(f, f.dbl(a), f.dbl(c));
    Linear(f, b, d);
    Linear(f, f.dbl(b), f.dbl(d));
    var q, r := f.plus(a4, c4), f.plus(b4, d4);
    Swap(f, a, q, b, r);
    Linear(f, f.plus(a, b), f.plus(q, r));
    Linear(f, a, b);
    Linear(f, q, r);
    Linear(f, a4, c4);
    Linear(f, b4, d4);
    Swap(f, f.dbl(a4), f.dbl(c4), f.dbl(b4), f.dbl(d4));
  }

  /** 14a + 11b + 13c + 9d is what three mixings make of a column. */
  lemma InverseIsCube<B(!new)>(f: Field<B>, a: B, b: B, c: B, d: B)
    requires Laws(f)
    ensures Sum4(f, Times14(f, a), Times11(f, b), Times13(f, c), Times9(f, d))
         == Mix(f, Square(f, a, c), Square(f, b, d), Total(f, a, b, c, d))
  {
    var a2, b2 := f.dbl(a), f.dbl(b);
    var a4, c4 := f.dbl(f.dbl(a)), f.dbl(f.dbl(c));
    var a8, b8 := f.dbl(f.dbl(f.dbl(a))), f.dbl(f.dbl(f.dbl(b)));
    var c8, d8 := f.dbl(f.dbl(f.dbl(c))), f.dbl(f.dbl(f.dbl(d)));
    MultiplyOut(f, a, b, c, d);
    var q, k, t := f.plus(a4, c4), f.plus(b, f.plus(c, d)), Total(f, a, b, c, d);
    // Square(a, c) + t == q + k
    Assoc(f, a, b, f.plus(c, d));
    Comm(f, a, q);
    Comm(f, a, k);
    CancelCommon(f, q, k, a);
    // collect what belongs to a and b, and to c and d
    Swap(f, a4, c4, b, f.plus(c, d));
    Assoc(f, f.plus(a2, b2), f.plus(a8, b8), f.plus(c8, d8));
    Swap(f, f.plus(a4, b), f.plus(c4, f.plus(c, d)), f.plus(f.plus(a2, b2), f.plus(a8, b8)), f.plus(c8, d8));
    Swap(f, a2, b2, a8, b8);
    Swap(f, a4, b, f.plus(a2, a8), f.plus(b2, b8));
    Assoc(f, a4, a2, a8);
    Comm(f, a4, a2);
    Assoc(f, b, b2, b8);
    Assoc(f, c4, c, d);
    Swap(f, f.plus(c4, c), d, c8, d8);
    Comm(f, c4, c);
    Own(f, a2);
    Own(f, b);
    Own(f, c);
    Own(f, d);
    Assoc(f, f.plus(Times14(f, a), Times11(f, b)), Times13(f, c), Times9(f, d));
  }

  /** The first row of the inverse mixing, applied to a mixed column, gives back its first byte. */
  lemma InverseRow<B(!new)>(f: Field<B>, a: B, b: B, c: B, d: B, t: B)
    requires Laws(f) && t == Total(f, a, b, c, d)
    ensures Sum4(f, Times14(f, Mix(f, a, b, t)), Times11(f, Mix(f, b, c, t)),
                    Times13(f, Mix(f, c, d, t)), Times9(f, Mix(f, d, a, t))) == a
  {
    InverseIsCube(f, Mix(f, a, b, t), Mix(f, b, c, t), Mix(f, c, d, t), Mix(f, d, a, t));
    MixKeepsTotal(f, a, b, c, d);
    FourMixings(f, a, b, c, d, t);
  }

  lemma TotalRotates<B(!new)>(f: Field<B>, a: B, b: B, c: B, d: B)
    requires Laws(f)
    ensures Total(f, a, b, c, d) == Total(f, b, c, d, a)
  {
    Comm(f, a, b);
    Comm(f, c, d);
    Swap(f, b, a, d, c);
    Comm(f, a, c);
    Swap(f, b, d, c, a);
  }
}
