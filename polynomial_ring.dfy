/**
 * The algebra of coefficient lists that the division loop, gcd and interpolation rely on without
 * ever checking it: the convolution product is linear and associative, and Horner evaluation
 * turns sums and products of lists into sums and products of field elements. Lists are compared
 * by their coefficients at every degree, so leading zeros do not matter.
 *
 * Everything here follows from the field laws of `Fields`: addition is associative and
 * commutative for both kinds of field, multiplication is associative in a field (`IsField`), and
 * distributivity is `RingLaws`, proved for every GF(p) and taken as given for GF(2^n).
 */
module PolynomialRing {
  import opened Fields
  import opened PolynomialCore

  /** Two lists with the same coefficient at every degree. */
  ghost predicate SameCoefficients(s: seq<int>, t: seq<int>)
  {
    forall d :: CoefficientAt(s, d) == CoefficientAt(t, d)
  }

  /** The list without its constant term: the coefficient of x^(d + 1) becomes that of x^d. */
  function Init(s: seq<int>): (r: seq<int>)
    ensures |r| == if s == [] then 0 else |s| - 1
  {
    if s == [] then [] else s[..|s| - 1]
  }

  lemma InitCoefficients(f: Field, s: seq<int>)
    requires ValidCoefficients(f, s)
    ensures ValidCoefficients(f, Init(s))
    ensures forall d :: CoefficientAt(Init(s), d) == if d < 0 then 0 else CoefficientAt(s, d + 1)
  {
  }

  /** s * x: a zero constant term appended. */
  function Shifted(s: seq<int>): (r: seq<int>)
  {
    s + [0]
  }

  lemma ShiftedFacts(f: Field, s: seq<int>)
    requires ValidCoefficients(f, s)
    ensures IsValidElement(f, 0) && ValidCoefficients(f, Shifted(s))
    ensures Init(Shifted(s)) == s && CoefficientAt(Shifted(s), 0) == 0
    ensures forall d :: CoefficientAt(Shifted(s), d) == CoefficientAt(s, d - 1)
  {
    ValidElementRange(f, 0);
  }

  // ---------------------------------------------------------------------------------------------
  // The product, one row at a time
  // ---------------------------------------------------------------------------------------------

  /** Rows of the convolution below m read only the first m entries of a. */
  lemma {:induction false} ConvolutionPrefix(f: Field, a: seq<int>, a': seq<int>, b: seq<int>, k: int, m: nat)
    requires m <= |a| && m <= |a'| && a[..m] == a'[..m]
    requires ValidCoefficients(f, a) && ValidCoefficients(f, a') && ValidCoefficients(f, b)
    ensures Convolution(f, a, b, k, m) == Convolution(f, a', b, k, m)
    decreases m
  {
    if m > 0 {
      assert a[..m - 1] == a'[..m - 1] && a[m - 1] == a'[m - 1] by {
        assert a[..m][m - 1] == a'[..m][m - 1];
        assert a[..m - 1] == a[..m][..m - 1] && a'[..m - 1] == a'[..m][..m - 1];
      }
      ConvolutionPrefix(f, a, a', b, k, m - 1);
    }
  }

  /** Rows that all reach past the end of b contribute nothing. */
  lemma {:induction false} ConvolutionBeyond(f: Field, a: seq<int>, b: seq<int>, k: int, m: nat)
    requires m <= |a| && ValidCoefficients(f, a) && ValidCoefficients(f, b)
    requires k - m + 1 >= |b|
    ensures Convolution(f, a, b, k, m) == 0
    decreases m
  {
    if m > 0 {
      ConvolutionBeyond(f, a, b, k, m - 1);
    }
  }

  /**
   * The product by its lowest row: the coefficient of x^d in a * b is that of x^(d - 1) in
   * Init(a) * b plus a_0 * b_d. This is the recurrence every law below is proved from.
   */
  lemma ProductRecurrence(f: Field, a: seq<int>, b: seq<int>, d: int)
    requires ValidCoefficients(f, a) && ValidCoefficients(f, b)
    ensures ValidCoefficients(f, Init(a))
    ensures IsValidElement(f, CoefficientAt(a, 0)) && IsValidElement(f, CoefficientAt(b, d))
    ensures CoefficientAt(ProductCoefficients(f, a, b), d) ==
      Add(f, CoefficientAt(ProductCoefficients(f, Init(a), b), d - 1), Multiply(f, CoefficientAt(a, 0), CoefficientAt(b, d)))
  {
    InitCoefficients(f, a);
    AllCoefficientsValid(f, a);
    AllCoefficientsValid(f, b);
    if a == [] || b == [] || d < 0 || d > |a| + |b| - 2 {
      AllCoefficientsValid(f, ProductCoefficients(f, Init(a), b));
      AddLaws(f, 0, 0);
    } else {
      RecurrenceInRange(f, a, b, d);
    }
  }

  lemma RecurrenceInRange(f: Field, a: seq<int>, b: seq<int>, d: int)
    requires ValidCoefficients(f, a) && ValidCoefficients(f, b) && ValidCoefficients(f, Init(a))
    requires a != [] && b != [] && 0 <= d <= |a| + |b| - 2
    ensures IsValidElement(f, CoefficientAt(a, 0)) && IsValidElement(f, CoefficientAt(b, d))
    ensures CoefficientAt(ProductCoefficients(f, a, b), d) ==
      Add(f, CoefficientAt(ProductCoefficients(f, Init(a), b), d - 1), Multiply(f, CoefficientAt(a, 0), CoefficientAt(b, d)))
  {
    var n, m := |a|, |b|;
    var k := n + m - 2 - d;
    ProductAt(f, a, b, d);
    ConvolutionLastRow(f, a, b, d, k);
    ConvolutionPrefix(f, a, Init(a), b, k, n - 1);
    InitProductAt(f, a, b, d);
  }

  /** A coefficient of the product is the convolution of its row. */
  lemma ProductAt(f: Field, a: seq<int>, b: seq<int>, d: int)
    requires ValidCoefficients(f, a) && ValidCoefficients(f, b)
    requires a != [] && b != [] && 0 <= d <= |a| + |b| - 2
    ensures CoefficientAt(ProductCoefficients(f, a, b), d) == Convolution(f, a, b, |a| + |b| - 2 - d, |a|)
  {
    assert CoefficientAt(ProductCoefficients(f, a, b), d) == ProductCoefficients(f, a, b)[|a| + |b| - 2 - d];
  }

  /** The last row of the convolution at x^d: a_0 * b_d, where b_d is 0 off the end of b. */
  lemma ConvolutionLastRow(f: Field, a: seq<int>, b: seq<int>, d: int, k: int)
    requires a != [] && ValidCoefficients(f, a) && ValidCoefficients(f, b) && k == |a| + |b| - 2 - d
    ensures IsValidElement(f, CoefficientAt(a, 0)) && IsValidElement(f, CoefficientAt(b, d))
    ensures Convolution(f, a, b, k, |a|) ==
      Add(f, Convolution(f, a, b, k, |a| - 1), Multiply(f, CoefficientAt(a, 0), CoefficientAt(b, d)))
  {
    AllCoefficientsValid(f, a);
    AllCoefficientsValid(f, b);
    var n := |a|;
    var acc := Convolution(f, a, b, k, n - 1);
    assert CoefficientAt(a, 0) == a[n - 1];
    if 0 <= k - (n - 1) < |b| {
      assert CoefficientAt(b, d) == b[k - (n - 1)];
    } else {
      assert CoefficientAt(b, d) == 0;
      AddLaws(f, acc, 0);
    }
  }

  /** The coefficient of x^(d - 1) in Init(a) * b is the first n - 1 rows of the convolution of a * b at x^d. */
  lemma InitProductAt(f: Field, a: seq<int>, b: seq<int>, d: int)
    requires ValidCoefficients(f, a) && ValidCoefficients(f, b) && ValidCoefficients(f, Init(a))
    requires a != [] && b != [] && 0 <= d <= |a| + |b| - 2
    ensures CoefficientAt(ProductCoefficients(f, Init(a), b), d - 1) == Convolution(f, Init(a), b, |a| + |b| - 2 - d, |a| - 1)
  {
    var k := |a| + |b| - 2 - d;
    if |a| == 1 {
    } else if d == 0 {
      ConvolutionBeyond(f, Init(a), b, k, |a| - 1);
    } else {
      assert CoefficientAt(ProductCoefficients(f, Init(a), b), d - 1) == ProductCoefficients(f, Init(a), b)[k];
    }
  }

  /** The product with the zero list on the left is empty. */
  lemma ProductOfEmpty(f: Field, b: seq<int>)
    requires ValidCoefficients(f, b)
    ensures ProductCoefficients(f, [], b) == []
  {
  }

  /**
   * The product distributes over a sum on the left: when w = u + v degree by degree, so is
   * w * b = u * b + v * b.
   */
  lemma {:induction false} ProductAddLeft(f: Field, w: seq<int>, u: seq<int>, v: seq<int>, b: seq<int>)
    requires RingLaws(f)
    requires ValidCoefficients(f, w) && ValidCoefficients(f, u) && ValidCoefficients(f, v) && ValidCoefficients(f, b)
    requires forall d :: CoefficientAt(w, d) == Add(f, CoefficientAt(u, d), CoefficientAt(v, d))
    ensures forall d :: (CoefficientAt(ProductCoefficients(f, w, b), d) ==
      Add(f, CoefficientAt(ProductCoefficients(f, u, b), d), CoefficientAt(ProductCoefficients(f, v, b), d)))
    decreases |w| + |u| + |v|
  {
    if w == [] && u == [] && v == [] {
      AddLaws(f, 0, 0);
    } else {
      InitCoefficients(f, w);
      InitCoefficients(f, u);
      InitCoefficients(f, v);
      AddLaws(f, 0, 0);
      ProductAddLeft(f, Init(w), Init(u), Init(v), b);
      forall d
        ensures CoefficientAt(ProductCoefficients(f, w, b), d) ==
          Add(f, CoefficientAt(ProductCoefficients(f, u, b), d), CoefficientAt(ProductCoefficients(f, v, b), d))
      {
        AddLeftStep(f, w, u, v, b, d);
      }
    }
  }

  /** One degree of ProductAddLeft, once the lists without their constant terms are done. */
  lemma AddLeftStep(f: Field, w: seq<int>, u: seq<int>, v: seq<int>, b: seq<int>, d: int)
    requires RingLaws(f)
    requires ValidCoefficients(f, w) && ValidCoefficients(f, u) && ValidCoefficients(f, v) && ValidCoefficients(f, b)
    requires CoefficientAt(w, 0) == Add(f, CoefficientAt(u, 0), CoefficientAt(v, 0))
    requires ValidCoefficients(f, Init(w)) && ValidCoefficients(f, Init(u)) && ValidCoefficients(f, Init(v))
    requires CoefficientAt(ProductCoefficients(f, Init(w), b), d - 1) ==
      Add(f, CoefficientAt(ProductCoefficients(f, Init(u), b), d - 1), CoefficientAt(ProductCoefficients(f, Init(v), b), d - 1))
    ensures CoefficientAt(ProductCoefficients(f, w, b), d) ==
      Add(f, CoefficientAt(ProductCoefficients(f, u, b), d), CoefficientAt(ProductCoefficients(f, v, b), d))
  {
    ProductRecurrence(f, w, b, d);
    ProductRecurrence(f, u, b, d);
    ProductRecurrence(f, v, b, d);
    AllCoefficientsValid(f, ProductCoefficients(f, Init(u), b));
    AllCoefficientsValid(f, ProductCoefficients(f, Init(v), b));
    var bd := CoefficientAt(b, d);
    var u0, v0 := CoefficientAt(u, 0), CoefficientAt(v, 0);
    Distributes(f, bd, u0, v0);
    AddSwapMiddle(f, CoefficientAt(ProductCoefficients(f, Init(u), b), d - 1), CoefficientAt(ProductCoefficients(f, Init(v), b), d - 1),
      Multiply(f, u0, bd), Multiply(f, v0, bd));
  }

  /** Lists with the same coefficients have products with the same coefficients, on either side. */
  lemma ProductSame(f: Field, a: seq<int>, a': seq<int>, b: seq<int>, b': seq<int>)
    requires RingLaws(f)
    requires ValidCoefficients(f, a) && ValidCoefficients(f, a') && ValidCoefficients(f, b) && ValidCoefficients(f, b')
    requires SameCoefficients(a, a') && SameCoefficients(b, b')
    ensures SameCoefficients(ProductCoefficients(f, a, b), ProductCoefficients(f, a', b'))
  {
    AllCoefficientsValid(f, a');
    forall d
      ensures CoefficientAt(a, d) == Add(f, CoefficientAt(a', d), CoefficientAt([], d))
    {
      AddLaws(f, CoefficientAt(a', d), 0);
    }
    ProductAddLeft(f, a, a', [], b);
    forall d
      ensures CoefficientAt(ProductCoefficients(f, a, b), d) == CoefficientAt(ProductCoefficients(f, a', b), d)
    {
      AllCoefficientsValid(f, ProductCoefficients(f, a', b));
      AddLaws(f, CoefficientAt(ProductCoefficients(f, a', b), d), 0);
    }
    ProductSameRight(f, a', b, b');
  }

  /** Lists with the same coefficients on the right give products with the same coefficients. */
  lemma {:induction false} ProductSameRight(f: Field, a: seq<int>, b: seq<int>, b': seq<int>)
    requires ValidCoefficients(f, a) && ValidCoefficients(f, b) && ValidCoefficients(f, b')
    requires SameCoefficients(b, b')
    ensures SameCoefficients(ProductCoefficients(f, a, b), ProductCoefficients(f, a, b'))
    decreases |a|
  {
    if a != [] {
      InitCoefficients(f, a);
      ProductSameRight(f, Init(a), b, b');
      forall d
        ensures CoefficientAt(ProductCoefficients(f, a, b), d) == CoefficientAt(ProductCoefficients(f, a, b'), d)
      {
        ProductRecurrence(f, a, b, d);
        ProductRecurrence(f, a, b', d);
      }
    }
  }

  /** A scalar on the left factor comes out of the product: (u * c) * b == (u * b) * c. */
  lemma {:induction false} ProductScaleLeft(f: Field, w: seq<int>, u: seq<int>, c: int, b: seq<int>)
    requires IsField(f) && RingLaws(f) && IsValidElement(f, c)
    requires ValidCoefficients(f, w) && ValidCoefficients(f, u) && ValidCoefficients(f, b)
    requires forall d :: CoefficientAt(w, d) == Multiply(f, CoefficientAt(u, d), c)
    ensures forall d :: CoefficientAt(ProductCoefficients(f, w, b), d) == Multiply(f, CoefficientAt(ProductCoefficients(f, u, b), d), c)
    decreases |w| + |u|
  {
    if w == [] && u == [] {
    } else {
      InitCoefficients(f, w);
      InitCoefficients(f, u);
      ProductScaleLeft(f, Init(w), Init(u), c, b);
      forall d
        ensures CoefficientAt(ProductCoefficients(f, w, b), d) == Multiply(f, CoefficientAt(ProductCoefficients(f, u, b), d), c)
      {
        ScaleLeftStep(f, w, u, c, b, d);
      }
    }
  }

  lemma ScaleLeftStep(f: Field, w: seq<int>, u: seq<int>, c: int, b: seq<int>, d: int)
    requires IsField(f) && RingLaws(f) && IsValidElement(f, c)
    requires ValidCoefficients(f, w) && ValidCoefficients(f, u) && ValidCoefficients(f, b)
    requires ValidCoefficients(f, Init(w)) && ValidCoefficients(f, Init(u))
    requires IsValidElement(f, CoefficientAt(u, 0)) && CoefficientAt(w, 0) == Multiply(f, CoefficientAt(u, 0), c)
    requires CoefficientAt(ProductCoefficients(f, Init(w), b), d - 1) == Multiply(f, CoefficientAt(ProductCoefficients(f, Init(u), b), d - 1), c)
    ensures CoefficientAt(ProductCoefficients(f, w, b), d) == Multiply(f, CoefficientAt(ProductCoefficients(f, u, b), d), c)
  {
    ProductRecurrence(f, w, b, d);
    ProductRecurrence(f, u, b, d);
    AllCoefficientsValid(f, ProductCoefficients(f, Init(u), b));
    var bd, u0 := CoefficientAt(b, d), CoefficientAt(u, 0);
    MultiplyRotates(f, u0, c, bd);
    Distributes(f, c, CoefficientAt(ProductCoefficients(f, Init(u), b), d - 1), Multiply(f, u0, bd));
  }

  /** A scalar on the right factor comes out of the product: a * (v * c) == (a * v) * c. */
  lemma {:induction false} ProductScaleRight(f: Field, a: seq<int>, w: seq<int>, v: seq<int>, c: int)
    requires IsField(f) && RingLaws(f) && IsValidElement(f, c)
    requires ValidCoefficients(f, a) && ValidCoefficients(f, w) && ValidCoefficients(f, v)
    requires forall d :: CoefficientAt(w, d) == Multiply(f, CoefficientAt(v, d), c)
    ensures forall d :: CoefficientAt(ProductCoefficients(f, a, w), d) == Multiply(f, CoefficientAt(ProductCoefficients(f, a, v), d), c)
    decreases |a|
  {
    if a != [] {
      InitCoefficients(f, a);
      ProductScaleRight(f, Init(a), w, v, c);
      forall d
        ensures CoefficientAt(ProductCoefficients(f, a, w), d) == Multiply(f, CoefficientAt(ProductCoefficients(f, a, v), d), c)
      {
        ScaleRightStep(f, a, w, v, c, d);
      }
    }
  }

  lemma ScaleRightStep(f: Field, a: seq<int>, w: seq<int>, v: seq<int>, c: int, d: int)
    requires IsField(f) && RingLaws(f) && IsValidElement(f, c)
    requires ValidCoefficients(f, a) && ValidCoefficients(f, w) && ValidCoefficients(f, v) && ValidCoefficients(f, Init(a))
    requires IsValidElement(f, CoefficientAt(v, d)) && CoefficientAt(w, d) == Multiply(f, CoefficientAt(v, d), c)
    requires CoefficientAt(ProductCoefficients(f, Init(a), w), d - 1) == Multiply(f, CoefficientAt(ProductCoefficients(f, Init(a), v), d - 1), c)
    ensures CoefficientAt(ProductCoefficients(f, a, w), d) == Multiply(f, CoefficientAt(ProductCoefficients(f, a, v), d), c)
  {
    ProductRecurrence(f, a, w, d);
    ProductRecurrence(f, a, v, d);
    AllCoefficientsValid(f, ProductCoefficients(f, Init(a), v));
    var a0, vd := CoefficientAt(a, 0), CoefficientAt(v, d);
    MultiplyAssociates(f, a0, vd, c);
    Distributes(f, c, CoefficientAt(ProductCoefficients(f, Init(a), v), d - 1), Multiply(f, a0, vd));
  }

  /** The product is associative: (a * b) * c and a * (b * c) agree at every degree. */
  lemma {:induction false} ProductAssociates(f: Field, a: seq<int>, b: seq<int>, c: seq<int>)
    requires IsField(f) && RingLaws(f)
    requires ValidCoefficients(f, a) && ValidCoefficients(f, b) && ValidCoefficients(f, c)
    ensures SameCoefficients(ProductCoefficients(f, ProductCoefficients(f, a, b), c), ProductCoefficients(f, a, ProductCoefficients(f, b, c)))
    decreases |a|
  {
    if a != [] {
      InitCoefficients(f, a);
      ProductAssociates(f, Init(a), b, c);
      var a0 := CoefficientAt(a, 0);
      var s := Shifted(ProductCoefficients(f, Init(a), b));
      ShiftedFacts(f, ProductCoefficients(f, Init(a), b));
      var v := ScaledCoefficients(f, b, a0);
      forall d
        ensures CoefficientAt(ProductCoefficients(f, a, b), d) == Add(f, CoefficientAt(s, d), CoefficientAt(v, d))
      {
        ProductRecurrence(f, a, b, d);
        ScaledCoefficientAt(f, b, a0, d);
        MultiplyCommutes(f, a0, CoefficientAt(b, d));
      }
      ProductAddLeft(f, ProductCoefficients(f, a, b), s, v, c);
      forall d
        ensures CoefficientAt(v, d) == Multiply(f, CoefficientAt(b, d), a0)
      {
        ScaledCoefficientAt(f, b, a0, d);
      }
      ProductScaleLeft(f, v, b, a0, c);
      forall d
        ensures CoefficientAt(ProductCoefficients(f, ProductCoefficients(f, a, b), c), d) ==
          CoefficientAt(ProductCoefficients(f, a, ProductCoefficients(f, b, c)), d)
      {
        AssociatesStep(f, a, b, c, s, v, d);
      }
    }
  }

  lemma AssociatesStep(f: Field, a: seq<int>, b: seq<int>, c: seq<int>, s: seq<int>, v: seq<int>, d: int)
    requires IsField(f) && RingLaws(f)
    requires ValidCoefficients(f, a) && ValidCoefficients(f, b) && ValidCoefficients(f, c) && ValidCoefficients(f, Init(a))
    requires ValidCoefficients(f, s) && ValidCoefficients(f, v) && s == Shifted(ProductCoefficients(f, Init(a), b))
    requires CoefficientAt(ProductCoefficients(f, ProductCoefficients(f, a, b), c), d) ==
      Add(f, CoefficientAt(ProductCoefficients(f, s, c), d), CoefficientAt(ProductCoefficients(f, v, c), d))
    requires CoefficientAt(ProductCoefficients(f, v, c), d) == Multiply(f, CoefficientAt(ProductCoefficients(f, b, c), d), CoefficientAt(a, 0))
    requires CoefficientAt(ProductCoefficients(f, ProductCoefficients(f, Init(a), b), c), d - 1) ==
      CoefficientAt(ProductCoefficients(f, Init(a), ProductCoefficients(f, b, c)), d - 1)
    ensures CoefficientAt(ProductCoefficients(f, ProductCoefficients(f, a, b), c), d) ==
      CoefficientAt(ProductCoefficients(f, a, ProductCoefficients(f, b, c)), d)
  {
    var ib := ProductCoefficients(f, Init(a), b);
    ShiftedFacts(f, ib);
    ProductRecurrence(f, s, c, d);
    AllCoefficientsValid(f, ProductCoefficients(f, ib, c));
    AddLaws(f, CoefficientAt(ProductCoefficients(f, ib, c), d - 1), 0);
    ProductRecurrence(f, a, ProductCoefficients(f, b, c), d);
    AllCoefficientsValid(f, ProductCoefficients(f, b, c));
    MultiplyCommutes(f, CoefficientAt(a, 0), CoefficientAt(ProductCoefficients(f, b, c), d));
  }

  /** [1] * b == b: the constant 1 on the left. */
  lemma OneTimes(f: Field, b: seq<int>)
    requires IsField(f) && ValidCoefficients(f, b)
    ensures IsValidElement(f, 1) && ValidCoefficients(f, [1])
    ensures SameCoefficients(ProductCoefficients(f, [1], b), b)
  {
    MultiplyOne(f, 0);
    forall d
      ensures CoefficientAt(ProductCoefficients(f, [1], b), d) == CoefficientAt(b, d)
    {
      ProductRecurrence(f, [1], b, d);
      AllCoefficientsValid(f, b);
      MultiplyOne(f, CoefficientAt(b, d));
      MultiplyCommutes(f, 1, CoefficientAt(b, d));
      AddLaws(f, CoefficientAt(b, d), 0);
    }
  }

  /** The product with the empty list on the left is empty, and a zero list multiplies like the empty one. */
  lemma ZeroTimes(f: Field, e: seq<int>, g: seq<int>)
    requires RingLaws(f) && ValidCoefficients(f, e) && ValidCoefficients(f, g)
    requires forall d :: CoefficientAt(e, d) == 0
    ensures forall d :: CoefficientAt(ProductCoefficients(f, e, g), d) == 0
  {
    ProductSame(f, e, [], g, g);
  }

  // ---------------------------------------------------------------------------------------------
  // Division leaves no remainder for a multiple
  // ---------------------------------------------------------------------------------------------

  /**
   * Division by g has one remainder only: when a == q * g and also a == quot * g + rem with rem
   * shorter than the normalised nonzero g, the remainder is zero at every degree.
   */
  lemma RemainderOfMultiple(f: Field, a: seq<int>, q: seq<int>, g: seq<int>, quot: seq<int>, rem: seq<int>)
    requires IsField(f) && RingLaws(f)
    requires ValidCoefficients(f, a) && ValidCoefficients(f, q) && ValidCoefficients(f, g)
    requires ValidCoefficients(f, quot) && ValidCoefficients(f, rem)
    requires IsNormalized(g) && g != [] && |rem| < |g|
    requires SameCoefficients(ProductCoefficients(f, q, g), a)
    requires DivisionIdentity(f, a, quot, g, rem)
    ensures forall d :: CoefficientAt(rem, d) == 0
  {
    var e := DifferenceCoefficients(f, q, quot);
    DifferenceCoefficientsAt(f, q, quot);
    var eg := ProductCoefficients(f, e, g);
    assert SameCoefficients(eg, rem) by {
      DifferenceTimes(f, a, q, g, quot, rem, e);
    }
    var ne := Normalized(e);
    NormalizedValid(f, e);
    assert SameCoefficients(ne, e) by {
      forall d
        ensures CoefficientAt(ne, d) == CoefficientAt(e, d)
      {
        NormalizedCoefficients(e, d);
      }
    }
    ProductSame(f, ne, e, g, g);
    assert SameCoefficients(ProductCoefficients(f, ne, g), rem);
    ShortMultipleIsZero(f, ne, g, rem);
  }

  /** In a field a nonzero multiple of g has degree at least deg g: a shorter one is zero. */
  lemma ShortMultipleIsZero(f: Field, e: seq<int>, g: seq<int>, r: seq<int>)
    requires IsField(f) && ValidCoefficients(f, e) && ValidCoefficients(f, g)
    requires IsNormalized(e) && IsNormalized(g) && g != [] && |r| < |g|
    requires SameCoefficients(ProductCoefficients(f, e, g), r)
    ensures e == []
  {
    if e != [] {
      var p := ProductCoefficients(f, e, g);
      ProductLeading(f, e, g);
      AccessorsAgree(p);
    }
  }

  /** (q - quot) * g == rem at every degree, from a == q * g and a == quot * g + rem. */
  lemma DifferenceTimes(f: Field, a: seq<int>, q: seq<int>, g: seq<int>, quot: seq<int>, rem: seq<int>, e: seq<int>)
    requires RingLaws(f)
    requires ValidCoefficients(f, a) && ValidCoefficients(f, q) && ValidCoefficients(f, g)
    requires ValidCoefficients(f, quot) && ValidCoefficients(f, rem) && ValidCoefficients(f, e)
    requires forall d :: CoefficientAt(e, d) == Subtract(f, CoefficientAt(q, d), CoefficientAt(quot, d))
    requires SameCoefficients(ProductCoefficients(f, q, g), a)
    requires DivisionIdentity(f, a, quot, g, rem)
    ensures SameCoefficients(ProductCoefficients(f, e, g), rem)
  {
    AllCoefficientsValid(f, q);
    AllCoefficientsValid(f, quot);
    ProductAddLeft(f, q, e, quot, g);
    var eg, qg := ProductCoefficients(f, e, g), ProductCoefficients(f, quot, g);
    AllCoefficientsValid(f, eg);
    AllCoefficientsValid(f, qg);
    AllCoefficientsValid(f, rem);
    forall d
      ensures CoefficientAt(eg, d) == CoefficientAt(rem, d)
    {
      CancelCommon(f, CoefficientAt(eg, d), CoefficientAt(rem, d), CoefficientAt(qg, d), CoefficientAt(a, d));
    }
  }

  /** From e + t == a and t + r == a, e == r. */
  lemma CancelCommon(f: Field, e: int, r: int, t: int, a: int)
    requires IsValidElement(f, e) && IsValidElement(f, r) && IsValidElement(f, t)
    requires Add(f, e, t) == a && Add(f, t, r) == a
    ensures e == r
  {
    AddLaws(f, t, r);
    AddCancels(f, e, r, t);
  }

  /**
   * One step of Euclid's algorithm keeps a common divisor: when a == quot * b + r and both b and
   * r are multiples of g, so is a, with cofactor quot * q1 + q2.
   */
  lemma CombinationIsMultiple(f: Field, a: seq<int>, b: seq<int>, quot: seq<int>, r: seq<int>, q1: seq<int>, q2: seq<int>, g: seq<int>)
    returns (qa: seq<int>)
    requires IsField(f) && RingLaws(f)
    requires ValidCoefficients(f, a) && ValidCoefficients(f, b) && ValidCoefficients(f, quot) && ValidCoefficients(f, r)
    requires ValidCoefficients(f, q1) && ValidCoefficients(f, q2) && ValidCoefficients(f, g)
    requires DivisionIdentity(f, a, quot, b, r)
    requires SameCoefficients(ProductCoefficients(f, q1, g), b) && SameCoefficients(ProductCoefficients(f, q2, g), r)
    ensures ValidCoefficients(f, qa) && SameCoefficients(ProductCoefficients(f, qa, g), a)
  {
    var t := ProductCoefficients(f, quot, q1);
    qa := SumCoefficients(f, t, q2);
    SumCoefficientsAt(f, t, q2);
    ProductAddLeft(f, qa, t, q2, g);
    ProductAssociates(f, quot, q1, g);
    ProductSameRight(f, quot, ProductCoefficients(f, q1, g), b);
    assert SameCoefficients(ProductCoefficients(f, t, g), ProductCoefficients(f, quot, b));
  }

  // ---------------------------------------------------------------------------------------------
  // Horner evaluation
  // ---------------------------------------------------------------------------------------------

  /** Horner's rule seen from the constant term: p(x) == Init(p)(x) * x + p_0, the empty list included. */
  lemma HornerUnfold(f: Field, s: seq<int>, x: int)
    requires ValidCoefficients(f, s) && IsValidElement(f, x)
    ensures ValidCoefficients(f, Init(s)) && IsValidElement(f, CoefficientAt(s, 0))
    ensures Horner(f, s, x) == Add(f, Multiply(f, Horner(f, Init(s), x), x), CoefficientAt(s, 0))
  {
    AddLaws(f, 0, 0);
  }

  /** Evaluation is additive: when w = u + v degree by degree, w(x) == u(x) + v(x). */
  lemma {:induction false} HornerAdd(f: Field, w: seq<int>, u: seq<int>, v: seq<int>, x: int)
    requires RingLaws(f) && IsValidElement(f, x)
    requires ValidCoefficients(f, w) && ValidCoefficients(f, u) && ValidCoefficients(f, v)
    requires forall d :: CoefficientAt(w, d) == Add(f, CoefficientAt(u, d), CoefficientAt(v, d))
    ensures Horner(f, w, x) == Add(f, Horner(f, u, x), Horner(f, v, x))
    decreases |w| + |u| + |v|
  {
    if w == [] && u == [] && v == [] {
      AddLaws(f, 0, 0);
    } else {
      InitCoefficients(f, w);
      InitCoefficients(f, u);
      InitCoefficients(f, v);
      AddLaws(f, 0, 0);
      HornerAdd(f, Init(w), Init(u), Init(v), x);
      HornerUnfold(f, w, x);
      HornerUnfold(f, u, x);
      HornerUnfold(f, v, x);
      var hu, hv := Horner(f, Init(u), x), Horner(f, Init(v), x);
      Distributes(f, x, hu, hv);
      AddSwapMiddle(f, Multiply(f, hu, x), Multiply(f, hv, x), CoefficientAt(u, 0), CoefficientAt(v, 0));
    }
  }

  /** Lists with the same coefficients evaluate alike: leading zeros do not change the value. */
  lemma HornerSame(f: Field, s: seq<int>, t: seq<int>, x: int)
    requires RingLaws(f) && IsValidElement(f, x) && ValidCoefficients(f, s) && ValidCoefficients(f, t)
    requires SameCoefficients(s, t)
    ensures Horner(f, s, x) == Horner(f, t, x)
  {
    AllCoefficientsValid(f, t);
    forall d
      ensures CoefficientAt(s, d) == Add(f, CoefficientAt(t, d), CoefficientAt([], d))
    {
      AddLaws(f, CoefficientAt(t, d), 0);
    }
    HornerAdd(f, s, t, [], x);
    AddLaws(f, Horner(f, t, x), 0);
  }

  /** Evaluation commutes with a scalar: when w = v * c degree by degree, w(x) == v(x) * c. */
  lemma {:induction false} HornerScale(f: Field, w: seq<int>, v: seq<int>, c: int, x: int)
    requires IsField(f) && RingLaws(f) && IsValidElement(f, x) && IsValidElement(f, c)
    requires ValidCoefficients(f, w) && ValidCoefficients(f, v)
    requires forall d :: CoefficientAt(w, d) == Multiply(f, CoefficientAt(v, d), c)
    ensures Horner(f, w, x) == Multiply(f, Horner(f, v, x), c)
    decreases |w| + |v|
  {
    if w == [] && v == [] {
    } else {
      InitCoefficients(f, w);
      InitCoefficients(f, v);
      HornerScale(f, Init(w), Init(v), c, x);
      HornerUnfold(f, w, x);
      HornerUnfold(f, v, x);
      var hv := Horner(f, Init(v), x);
      MultiplyRotates(f, hv, c, x);
      Distributes(f, c, Multiply(f, hv, x), CoefficientAt(v, 0));
    }
  }

  /** Evaluation is multiplicative: (a * b)(x) == a(x) * b(x). */
  lemma {:induction false} HornerProduct(f: Field, a: seq<int>, b: seq<int>, x: int)
    requires IsField(f) && RingLaws(f) && IsValidElement(f, x)
    requires ValidCoefficients(f, a) && ValidCoefficients(f, b)
    ensures Horner(f, ProductCoefficients(f, a, b), x) == Multiply(f, Horner(f, a, x), Horner(f, b, x))
    decreases |a|
  {
    if a == [] {
    } else {
      InitCoefficients(f, a);
      HornerProduct(f, Init(a), b, x);
      var a0 := CoefficientAt(a, 0);
      var ib := ProductCoefficients(f, Init(a), b);
      var s := Shifted(ib);
      ShiftedFacts(f, ib);
      var v := ScaledCoefficients(f, b, a0);
      forall d
        ensures CoefficientAt(ProductCoefficients(f, a, b), d) == Add(f, CoefficientAt(s, d), CoefficientAt(v, d))
      {
        ProductRecurrence(f, a, b, d);
        ScaledCoefficientAt(f, b, a0, d);
        MultiplyCommutes(f, a0, CoefficientAt(b, d));
      }
      HornerAdd(f, ProductCoefficients(f, a, b), s, v, x);
      forall d
        ensures CoefficientAt(v, d) == Multiply(f, CoefficientAt(b, d), a0)
      {
        ScaledCoefficientAt(f, b, a0, d);
      }
      HornerScale(f, v, b, a0, x);
      HornerProductStep(f, a, b, s, x);
    }
  }

  lemma HornerProductStep(f: Field, a: seq<int>, b: seq<int>, s: seq<int>, x: int)
    requires IsField(f) && RingLaws(f) && IsValidElement(f, x)
    requires ValidCoefficients(f, a) && ValidCoefficients(f, b) && a != [] && ValidCoefficients(f, Init(a))
    requires s == Shifted(ProductCoefficients(f, Init(a), b)) && ValidCoefficients(f, s)
    requires IsValidElement(f, CoefficientAt(a, 0))
    requires Horner(f, ProductCoefficients(f, Init(a), b), x) == Multiply(f, Horner(f, Init(a), x), Horner(f, b, x))
    requires Horner(f, ProductCoefficients(f, a, b), x) ==
      Add(f, Horner(f, s, x), Multiply(f, Horner(f, b, x), CoefficientAt(a, 0)))
    ensures Horner(f, ProductCoefficients(f, a, b), x) == Multiply(f, Horner(f, a, x), Horner(f, b, x))
  {
    var ib := ProductCoefficients(f, Init(a), b);
    ShiftedFacts(f, ib);
    HornerUnfold(f, s, x);
    AddLaws(f, Multiply(f, Horner(f, ib, x), x), 0);
    HornerUnfold(f, a, x);
    var ha, hb, a0 := Horner(f, Init(a), x), Horner(f, b, x), CoefficientAt(a, 0);
    MultiplyRotates(f, ha, hb, x);
    MultiplyCommutes(f, hb, a0);
    Distributes(f, hb, Multiply(f, ha, x), a0);
  }
}
