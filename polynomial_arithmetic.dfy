/**
 * PolynomialArithmetic: the operations built on top of the polynomials, over the field the
 * service was created with. Every result is an immutable polynomial. An operand enters as its
 * coefficient list (what the service reads through coefficients()), so the caller's polynomial
 * objects, mutable ones included, cannot change.
 */
module PolynomialArithmetic {
  import opened Wrappers
  import opened Fields
  import opened NumberTheory
  import Bits
  import Core = PolynomialCore
  import Imm = ImmutablePolynomials
  import Ring = PolynomialRing

  type Poly = Imm.PolynomialImmutable

  // ---------------------------------------------------------------------------------------------
  // gcd and areCoprime
  // ---------------------------------------------------------------------------------------------

  /** The Euclidean loop: while b is nonzero, (a, b) := (b, a mod b). */
  function GcdLoop(a: Poly, b: Poly): (r: Poly)
    requires IsField(a.field) && b.field == a.field && Imm.Valid(a) && Imm.Valid(b)
    ensures r.field == a.field && Imm.Valid(r)
    decreases |b.coefficients|
  {
    if Imm.IsZero(b) then a
    else GcdLoop(b, Imm.Mod(a, b).value)
  }

  /**
   * The final step of gcd: a nonzero polynomial whose leading coefficient is not 1 is scaled by
   * the inverse of that coefficient. The result is zero exactly when g is, and otherwise monic
   * of the same degree.
   */
  function MakeMonic(g: Poly): (r: Poly)
    requires IsField(g.field) && Imm.Valid(g)
    ensures r.field == g.field && Imm.Valid(r)
    ensures Imm.IsZero(r) <==> Imm.IsZero(g)
    ensures !Imm.IsZero(r) ==> Imm.LeadingCoefficient(r) == 1 && Imm.Degree(r) == Imm.Degree(g)
  {
    if !Imm.IsZero(g) && Imm.LeadingCoefficient(g) != 1 then
      MultiplyByInverse(g.field, Imm.LeadingCoefficient(g));
      var inverse := Inverse(g.field, Imm.LeadingCoefficient(g)).value;
      MonicScaling(g, inverse);
      Imm.ScalarMul(g, inverse)
    else g
  }

  /** Scaling a nonzero polynomial by the inverse of its leading coefficient makes it monic. */
  lemma MonicScaling(g: Poly, inverse: int)
    requires Imm.Valid(g) && !Imm.IsZero(g) && IsValidElement(g.field, inverse)
    requires Multiply(g.field, Imm.LeadingCoefficient(g), inverse) == 1
    ensures !Imm.IsZero(Imm.ScalarMul(g, inverse))
    ensures Imm.LeadingCoefficient(Imm.ScalarMul(g, inverse)) == 1
    ensures Imm.Degree(Imm.ScalarMul(g, inverse)) == Imm.Degree(g)
  {
    var r := Imm.ScalarMul(g, inverse);
    ScaledAtDegree(g, inverse);
    ScaledAboveDegree(g, inverse);
    Imm.DegreeIs(r, Imm.Degree(g));
  }

  lemma ScaledAtDegree(g: Poly, c: int)
    requires Imm.Valid(g) && !Imm.IsZero(g) && IsValidElement(g.field, c)
    ensures Imm.CoefficientAt(Imm.ScalarMul(g, c), Imm.Degree(g)) == Multiply(g.field, Imm.LeadingCoefficient(g), c)
  {
    var r := Imm.ScalarMul(g, c);
    assert Imm.CoefficientAt(r, Imm.Degree(g)) == Multiply(g.field, Imm.CoefficientAt(g, Imm.Degree(g)), c);
    assert Imm.CoefficientAt(g, Imm.Degree(g)) == Imm.LeadingCoefficient(g);
  }

  lemma ScaledAboveDegree(g: Poly, c: int)
    requires Imm.Valid(g) && IsValidElement(g.field, c)
    ensures forall d :: d > Imm.Degree(g) ==> Imm.CoefficientAt(Imm.ScalarMul(g, c), d) == 0
  {
    var r := Imm.ScalarMul(g, c);
    forall d | d > Imm.Degree(g)
      ensures Imm.CoefficientAt(r, d) == 0
    {
      assert Imm.CoefficientAt(r, d) == Multiply(g.field, Imm.CoefficientAt(g, d), c);
    }
  }

  /**
   * gcd(a, b): both lists read over the service's field, the Euclidean loop, then made monic.
   * Where the field laws hold, a nonzero gcd divides both inputs: each leaves the zero remainder.
   */
  function Gcd(f: Field, a: seq<int>, b: seq<int>): (r: Poly)
    requires IsField(f) && Core.ValidCoefficients(f, a) && Core.ValidCoefficients(f, b)
    ensures r.field == f && Imm.Valid(r)
    ensures Imm.IsZero(r) || Imm.LeadingCoefficient(r) == 1
    ensures RingLaws(f) && !Imm.IsZero(r) ==>
      Imm.Mod(Imm.FromCoefficients(f, a), r) == Ok(Imm.Zero(f)) && Imm.Mod(Imm.FromCoefficients(f, b), r) == Ok(Imm.Zero(f))
  {
    var x, y := Imm.FromCoefficients(f, a), Imm.FromCoefficients(f, b);
    DividesBoth(x, y);
    MakeMonic(GcdLoop(x, y))
  }

  /** The Euclidean loop's result divides both of its inputs: each is a cofactor times it. */
  lemma {:induction false} GcdLoopDivides(a: Poly, b: Poly) returns (qa: seq<int>, qb: seq<int>)
    requires IsField(a.field) && RingLaws(a.field) && b.field == a.field && Imm.Valid(a) && Imm.Valid(b)
    ensures Core.ValidCoefficients(a.field, qa) && Core.ValidCoefficients(a.field, qb)
    ensures Ring.SameCoefficients(Core.ProductCoefficients(a.field, qa, GcdLoop(a, b).coefficients), a.coefficients)
    ensures Ring.SameCoefficients(Core.ProductCoefficients(a.field, qb, GcdLoop(a, b).coefficients), b.coefficients)
    decreases |b.coefficients|
  {
    var f := a.field;
    if Imm.IsZero(b) {
      Ring.OneTimes(f, a.coefficients);
      qa, qb := [1], [];
    } else {
      var remainder := Imm.Mod(a, b).value;
      var q1, q2 := GcdLoopDivides(b, remainder);
      var g := GcdLoop(a, b).coefficients;
      var qr := Core.DivisionResult(f, a.coefficients, f, b.coefficients).value;
      assert Ring.SameCoefficients(Core.ProductCoefficients(f, q2, g), qr.1) by {
        assert remainder == Imm.FromCoefficients(f, qr.1);
      }
      qa := Ring.CombinationIsMultiple(f, a.coefficients, b.coefficients, qr.0, qr.1, q1, q2, g);
      qb := q1;
    }
  }

  /** Making g monic keeps it a divisor: the cofactor is scaled by g's leading coefficient. */
  lemma MonicDivides(g: Poly, q: seq<int>, a: seq<int>) returns (q': seq<int>)
    requires IsField(g.field) && RingLaws(g.field) && Imm.Valid(g)
    requires Core.ValidCoefficients(g.field, q) && Core.ValidCoefficients(g.field, a)
    requires Ring.SameCoefficients(Core.ProductCoefficients(g.field, q, g.coefficients), a)
    ensures Core.ValidCoefficients(g.field, q')
    ensures Ring.SameCoefficients(Core.ProductCoefficients(g.field, q', MakeMonic(g).coefficients), a)
  {
    q' := q;
    if !Imm.IsZero(g) && Imm.LeadingCoefficient(g) != 1 {
      var f, lead := g.field, Imm.LeadingCoefficient(g);
      MultiplyByInverse(f, lead);
      var inverse := Inverse(f, lead).value;
      var m := Imm.ScalarMul(g, inverse).coefficients;
      q' := Core.ScaledCoefficients(f, q, lead);
      forall d
        ensures Core.CoefficientAt(q', d) == Multiply(f, Core.CoefficientAt(q, d), lead)
      {
        Core.ScaledCoefficientAt(f, q, lead, d);
      }
      Ring.ProductScaleRight(f, q, m, g.coefficients, inverse);
      Ring.ProductScaleLeft(f, q', q, lead, m);
      forall d
        ensures Core.CoefficientAt(Core.ProductCoefficients(f, q', m), d) == Core.CoefficientAt(a, d)
      {
        Core.AllCoefficientsValid(f, a);
        var x := Core.CoefficientAt(a, d);
        MultiplyAssociates(f, x, inverse, lead);
        MultiplyCommutes(f, inverse, lead);
        MultiplyOne(f, x);
      }
    }
  }

  /** The monic result of the Euclidean loop, when nonzero, leaves no remainder in either input. */
  lemma DividesBoth(x: Poly, y: Poly)
    requires IsField(x.field) && y.field == x.field && Imm.Valid(x) && Imm.Valid(y)
    ensures RingLaws(x.field) && !Imm.IsZero(MakeMonic(GcdLoop(x, y))) ==>
      Imm.Mod(x, MakeMonic(GcdLoop(x, y))) == Ok(Imm.Zero(x.field)) && Imm.Mod(y, MakeMonic(GcdLoop(x, y))) == Ok(Imm.Zero(x.field))
  {
    var g := GcdLoop(x, y);
    if RingLaws(x.field) && !Imm.IsZero(MakeMonic(g)) {
      var qx, qy := GcdLoopDivides(x, y);
      var qx' := MonicDivides(g, qx, x.coefficients);
      var qy' := MonicDivides(g, qy, y.coefficients);
      Imm.ModOfMultiple(x, MakeMonic(g), qx');
      Imm.ModOfMultiple(y, MakeMonic(g), qy');
    }
  }

  /** gcd, the while loop of the source over immutable values. */
  method ComputeGcd(f: Field, a: seq<int>, b: seq<int>) returns (r: Poly)
    requires IsField(f) && Core.ValidCoefficients(f, a) && Core.ValidCoefficients(f, b)
    ensures r == Gcd(f, a, b)
  {
    var x := Imm.FromCoefficients(f, a);
    var y := Imm.FromCoefficients(f, b);
    while !Imm.IsZero(y)
      invariant x.field == f && y.field == f && Imm.Valid(x) && Imm.Valid(y)
      invariant GcdLoop(x, y) == GcdLoop(Imm.FromCoefficients(f, a), Imm.FromCoefficients(f, b))
      decreases |y.coefficients|
    {
      var remainder := Imm.Mod(x, y).value;
      x, y := y, remainder;
    }
    r := x;
    if !Imm.IsZero(r) && Imm.LeadingCoefficient(r) != 1 {
      r := Imm.ScalarMul(r, Inverse(f, Imm.LeadingCoefficient(r)).value);
    }
  }

  /** The loop ends in zero exactly when both polynomials are zero. */
  lemma {:induction false} GcdLoopZero(a: Poly, b: Poly)
    requires IsField(a.field) && b.field == a.field && Imm.Valid(a) && Imm.Valid(b)
    ensures Imm.IsZero(GcdLoop(a, b)) <==> Imm.IsZero(a) && Imm.IsZero(b)
    decreases |b.coefficients|
  {
    if !Imm.IsZero(b) {
      GcdLoopZero(b, Imm.Mod(a, b).value);
    }
  }

  /** Each step's remainder is below the divisor, so the result never exceeds b's degree. */
  lemma {:induction false} GcdLoopDegree(a: Poly, b: Poly)
    requires IsField(a.field) && b.field == a.field && Imm.Valid(a) && Imm.Valid(b) && !Imm.IsZero(b)
    ensures Imm.Degree(GcdLoop(a, b)) <= Imm.Degree(b)
    decreases |b.coefficients|
  {
    var remainder := Imm.Mod(a, b).value;
    if !Imm.IsZero(remainder) {
      GcdLoopDegree(b, remainder);
    }
  }

  /** Nor a's degree: when a is the lower one, the first step only swaps the two. */
  lemma GcdLoopDegreeFirst(a: Poly, b: Poly)
    requires IsField(a.field) && b.field == a.field && Imm.Valid(a) && Imm.Valid(b) && !Imm.IsZero(a)
    ensures Imm.Degree(GcdLoop(a, b)) <= Imm.Degree(a)
  {
    if !Imm.IsZero(b) {
      if Imm.Degree(a) >= Imm.Degree(b) {
        GcdLoopDegree(a, b);
      } else {
        assert Imm.Mod(a, b).value == a;
        GcdLoopDegree(b, a);
      }
    }
  }

  /**
   * gcd is zero only for two zero inputs, and otherwise a monic polynomial whose degree is at
   * most that of each nonzero input.
   */
  lemma GcdBounds(f: Field, a: seq<int>, b: seq<int>)
    requires IsField(f) && Core.ValidCoefficients(f, a) && Core.ValidCoefficients(f, b)
    ensures Imm.IsZero(Gcd(f, a, b)) <==> Core.Normalized(a) == [] && Core.Normalized(b) == []
    ensures Core.Normalized(a) != [] ==> Imm.Degree(Gcd(f, a, b)) <= Core.Degree(Core.Normalized(a))
    ensures Core.Normalized(b) != [] ==> Imm.Degree(Gcd(f, a, b)) <= Core.Degree(Core.Normalized(b))
  {
    var x, y := Imm.FromCoefficients(f, a), Imm.FromCoefficients(f, b);
    GcdLoopZero(x, y);
    if !Imm.IsZero(x) {
      GcdLoopDegreeFirst(x, y);
    }
    if !Imm.IsZero(y) {
      GcdLoopDegree(x, y);
    }
  }

  /** gcd(p, 0) is p made monic. */
  lemma GcdWithZero(f: Field, a: seq<int>)
    requires IsField(f) && Core.ValidCoefficients(f, a)
    ensures Gcd(f, a, []) == MakeMonic(Imm.FromCoefficients(f, a))
  {
    assert Imm.IsZero(Imm.FromCoefficients(f, []));
  }

  /** gcd(p, p) is p made monic: p mod p is zero. */
  lemma GcdWithSelf(f: Field, a: seq<int>)
    requires IsField(f) && Core.ValidCoefficients(f, a)
    ensures Gcd(f, a, a) == MakeMonic(Imm.FromCoefficients(f, a))
  {
    var p := Imm.FromCoefficients(f, a);
    if !Imm.IsZero(p) {
      Core.DivisionBySelf(f, p.coefficients);
      assert Imm.Divmod(p, p) == Ok((Imm.FromCoefficients(f, [1]), Imm.FromCoefficients(f, [])));
      var z := Imm.Mod(p, p).value;
      assert Imm.IsZero(z);
      assert GcdLoop(p, z) == p;
    }
  }

  /** areCoprime(a, b): the gcd has degree 0. */
  function AreCoprime(f: Field, a: seq<int>, b: seq<int>): bool
    requires IsField(f) && Core.ValidCoefficients(f, a) && Core.ValidCoefficients(f, b)
  {
    Imm.Degree(Gcd(f, a, b)) == 0
  }

  /** Coprime means the gcd is exactly the polynomial 1. */
  lemma AreCoprimeMeansGcdOne(f: Field, a: seq<int>, b: seq<int>)
    requires IsField(f) && Core.ValidCoefficients(f, a) && Core.ValidCoefficients(f, b)
    ensures AreCoprime(f, a, b) <==> Gcd(f, a, b) == Imm.One(f)
  {
    MonicDegreeZero(Gcd(f, a, b));
  }

  /** A monic polynomial of degree 0 is the polynomial 1. */
  lemma MonicDegreeZero(g: Poly)
    requires Imm.Valid(g) && (Imm.IsZero(g) || Imm.LeadingCoefficient(g) == 1)
    ensures Imm.Degree(g) == 0 <==> g == Imm.One(g.field)
  {
    assert Imm.One(g.field).coefficients == [1];
    if Imm.Degree(g) == 0 {
      assert g.coefficients == [1];
    }
  }

  /** A nonzero constant is coprime with every polynomial, zero included. */
  lemma ConstantIsCoprime(f: Field, c: int, b: seq<int>)
    requires IsField(f) && IsValidElement(f, c) && c != 0 && Core.ValidCoefficients(f, b)
    ensures AreCoprime(f, [c], b)
  {
    GcdBounds(f, [c], b);
  }

  // ---------------------------------------------------------------------------------------------
  // multiEvaluate
  // ---------------------------------------------------------------------------------------------

  /**
   * multiEvaluate: the points arrive as the source's array, an ordered list of (key, point)
   * entries; the result keeps every key, in the same order, mapped to the polynomial evaluated
   * at its point. The polynomial is evaluated over its own field g, whatever the service's field.
   */
  method MultiEvaluate(g: Field, s: seq<int>, points: seq<(int, int)>) returns (r: seq<(int, int)>)
    requires Core.ValidCoefficients(g, s)
    requires forall k :: 0 <= k < |points| ==> IsValidElement(g, points[k].1)
    ensures |r| == |points|
    ensures forall k :: 0 <= k < |r| ==> r[k].0 == points[k].0 && r[k].1 == Core.Horner(g, s, points[k].1)
  {
    r := [];
    for k := 0 to |points|
      invariant |r| == k
      invariant forall m :: 0 <= m < k ==> r[m].0 == points[m].0 && r[m].1 == Core.Horner(g, s, points[m].1)
    {
      var value := Core.Evaluate(g, s, points[k].1);
      r := r + [(points[k].0, value)];
    }
  }

  // ---------------------------------------------------------------------------------------------
  // interpolate (Lagrange)
  // ---------------------------------------------------------------------------------------------

  /** What interpolate needs of its inputs: a field, and abscissas and ordinates inside it. */
  predicate InterpolationInputs(f: Field, xs: seq<int>, ys: seq<int>)
  {
    Abscissas(f, xs) && Core.ValidCoefficients(f, ys)
  }

  predicate Abscissas(f: Field, xs: seq<int>)
  {
    IsField(f) && Core.ValidCoefficients(f, xs)
  }

  /** count(array_unique(xs)) == count(xs): no abscissa occurs twice. */
  predicate Distinct(xs: seq<int>)
  {
    forall a, b :: 0 <= a < b < |xs| ==> xs[a] != xs[b]
  }

  /** The factor (x - x_j): the list [1, 0 - x_j], monic of degree 1. */
  function LinearFactor(f: Field, x: int): (r: Poly)
    requires IsValidElement(f, x)
    ensures r.field == f && Imm.Valid(r)
    ensures Imm.Degree(r) == 1 && Imm.LeadingCoefficient(r) == 1
    ensures r.coefficients == [1, Subtract(f, 0, x)]
  {
    ValidElementRange(f, 1);
    ValidElementRange(f, 0);
    var r := Imm.FromCoefficients(f, [1, Subtract(f, 0, x)]);
    assert r.coefficients == [1, Subtract(f, 0, x)];
    r
  }

  /** In a field, the factor (x - x_j) vanishes at x_j. */
  lemma LinearFactorRoot(f: Field, x: int)
    requires IsField(f) && IsValidElement(f, x)
    ensures Core.Horner(f, LinearFactor(f, x).coefficients, x) == 0
  {
    FactorAt(f, x, x);
    SubtractZero(f, x, x);
  }

  /** In a field, the factor (x - c) evaluated at x is the field difference x - c. */
  lemma FactorAt(f: Field, c: int, x: int)
    requires IsField(f) && IsValidElement(f, c) && IsValidElement(f, x)
    ensures Core.Horner(f, LinearFactor(f, c).coefficients, x) == Subtract(f, x, c)
  {
    ValidElementRange(f, 0);
    var minus := Subtract(f, 0, c);
    HornerOfFactor(f, c, x);
    AddAssociates(f, x, minus, c);
    AddLaws(f, x, 0);
    AddCancels(f, Add(f, x, minus), Subtract(f, x, c), c);
  }

  /** (x - c) evaluated at x is x + (0 - c). */
  lemma HornerOfFactor(f: Field, c: int, x: int)
    requires IsField(f) && IsValidElement(f, c) && IsValidElement(f, x)
    ensures IsValidElement(f, 0)
    ensures Core.Horner(f, LinearFactor(f, c).coefficients, x) == Add(f, x, Subtract(f, 0, c))
  {
    ValidElementRange(f, 0);
    var minus := Subtract(f, 0, c);
    PairSplit(1, minus);
    HornerOfOne(f, x);
    HornerStep(f, [1], minus, x);
    MultiplyOne(f, x);
    MultiplyCommutes(f, 1, x);
  }

  lemma PairSplit(a: int, b: int)
    ensures [a, b] == [a] + [b]
  {
  }

  /** One step of Horner's rule: appending the constant coefficient c. */
  lemma HornerStep(f: Field, s: seq<int>, c: int, x: int)
    requires Core.ValidCoefficients(f, s) && IsValidElement(f, c) && IsValidElement(f, x)
    ensures Core.ValidCoefficients(f, s + [c])
    ensures Core.Horner(f, s + [c], x) == Add(f, Multiply(f, Core.Horner(f, s, x), x), c)
  {
    assert (s + [c])[..|s|] == s;
  }

  /** The constant list [1] evaluates to 1 everywhere. */
  lemma HornerOfOne(f: Field, x: int)
    requires IsValidElement(f, x)
    ensures IsValidElement(f, 1) && Core.Horner(f, [1], x) == 1
  {
    ValidElementRange(f, 1);
    assert [1][..0] == [];
    AddLaws(f, 1, 0);
  }

  /**
   * The basis numerator after the inner loop has run over j < m: the product of (x - x_j) for
   * every j < m other than i (BasisMonic gives its degree and leading coefficient).
   */
  function Basis(f: Field, xs: seq<int>, i: nat, m: nat): (r: Poly)
    requires Core.ValidCoefficients(f, xs) && i < |xs| && m <= |xs|
    ensures r.field == f && Imm.Valid(r)
    decreases m
  {
    if m == 0 then
      Imm.OneValid(f);
      Imm.One(f)
    else
      var b := Basis(f, xs, i, m - 1);
      if m - 1 == i then b
      else
        Imm.Mul(b, LinearFactor(f, xs[m - 1])).value
  }

  /** The value of the basis after j < m at x: the field product of x - x_j for every j < m other than i. */
  function BasisValue(f: Field, xs: seq<int>, i: nat, m: nat, x: int): (r: int)
    requires Core.ValidCoefficients(f, xs) && i < |xs| && m <= |xs| && IsValidElement(f, x)
    ensures IsValidElement(f, r)
    decreases m
  {
    if m == 0 then
      ValidElementRange(f, 1);
      1
    else
      var v := BasisValue(f, xs, i, m - 1, x);
      if m - 1 == i then v else Multiply(f, v, Subtract(f, x, xs[m - 1]))
  }

  /** In a field the basis is monic, of degree m - 1 once the loop has passed i and m before. */
  lemma {:induction false} BasisMonic(f: Field, xs: seq<int>, i: nat, m: nat)
    requires Abscissas(f, xs) && i < |xs| && m <= |xs|
    ensures MonicOfDegree(Basis(f, xs, i, m), BasisDegree(i, m))
    decreases m, 1
  {
    if m == 0 {
      OneMonic(f);
    } else {
      BasisMonicStep(f, xs, i, m);
    }
  }

  /** The degree of the basis after j < m: one per factor (x - x_j) with j != i. */
  function BasisDegree(i: nat, m: nat): nat
  {
    if i < m then m - 1 else m
  }

  /** A nonzero polynomial with leading coefficient 1 and degree d. */
  predicate MonicOfDegree(p: Poly, d: int)
  {
    !Imm.IsZero(p) && Imm.LeadingCoefficient(p) == 1 && Imm.Degree(p) == d
  }

  /** One step of BasisMonic: multiplying in a monic linear factor keeps the basis monic. */
  lemma {:induction false} BasisMonicStep(f: Field, xs: seq<int>, i: nat, m: nat)
    requires Abscissas(f, xs) && i < |xs| && 0 < m <= |xs|
    ensures MonicOfDegree(Basis(f, xs, i, m), BasisDegree(i, m))
    decreases m, 0
  {
    var k: nat := m - 1;
    BasisMonic(f, xs, i, k);
    var b := Basis(f, xs, i, k);
    var d := BasisDegree(i, k);
    if k == i {
      assert Basis(f, xs, i, m) == b;
      assert BasisDegree(i, m) == d;
    } else {
      var x := xs[k];
      MonicTimesFactor(f, b, x, d);
      BasisUnfold(f, xs, i, k);
      assert BasisDegree(i, m) == d + 1;
    }
  }

  /** One step of the inner loop: the factor (x - x_k) is multiplied in unless k is i. */
  lemma BasisUnfold(f: Field, xs: seq<int>, i: nat, k: nat)
    requires Core.ValidCoefficients(f, xs) && i < |xs| && k < |xs|
    ensures Basis(f, xs, i, k + 1) ==
      if k == i then Basis(f, xs, i, k) else Imm.Mul(Basis(f, xs, i, k), LinearFactor(f, xs[k])).value
  {
  }

  /** A monic polynomial of degree d times (x - x_j) is monic of degree d + 1. */
  lemma MonicTimesFactor(f: Field, b: Poly, x: int, d: int)
    requires IsField(f) && IsValidElement(f, x) && b.field == f && Imm.Valid(b) && MonicOfDegree(b, d)
    ensures Imm.Mul(b, LinearFactor(f, x)).Ok?
    ensures MonicOfDegree(Imm.Mul(b, LinearFactor(f, x)).value, d + 1)
  {
    MonicProduct(b, LinearFactor(f, x));
  }

  /** one() is a nonzero monic constant. */
  lemma OneMonic(f: Field)
    ensures MonicOfDegree(Imm.One(f), 0)
  {
    assert Imm.One(f).coefficients == [1];
  }

  /** In a field, a monic polynomial times a monic factor of degree 1 is monic, one degree higher. */
  lemma MonicProduct(b: Poly, factor: Poly)
    requires IsField(b.field) && Imm.Valid(b) && Imm.Valid(factor) && factor.field == b.field
    requires !Imm.IsZero(b) && Imm.LeadingCoefficient(b) == 1
    requires Imm.Degree(factor) == 1 && Imm.LeadingCoefficient(factor) == 1
    ensures Imm.Mul(b, factor).Ok?
    ensures !Imm.IsZero(Imm.Mul(b, factor).value) && Imm.LeadingCoefficient(Imm.Mul(b, factor).value) == 1
    ensures Imm.Degree(Imm.Mul(b, factor).value) == Imm.Degree(b) + 1
  {
    MultiplyOne(b.field, 1);
  }

  /** The denominator after j < m: the product of (x_i - x_j) for every j < m other than i. */
  function Denominator(f: Field, xs: seq<int>, i: nat, m: nat): (r: int)
    requires Core.ValidCoefficients(f, xs) && i < |xs| && m <= |xs|
    ensures IsValidElement(f, r)
    decreases m
  {
    if m == 0 then
      ValidElementRange(f, 1);
      1
    else
      var d := Denominator(f, xs, i, m - 1);
      if m - 1 == i then d
      else Multiply(f, d, Subtract(f, xs[i], xs[m - 1]))
  }

  /** In a field, distinct abscissas give a nonzero denominator: no factor x_i - x_j vanishes. */
  lemma {:induction false} DenominatorNonzero(f: Field, xs: seq<int>, i: nat, m: nat)
    requires Abscissas(f, xs) && Distinct(xs) && i < |xs| && m <= |xs|
    ensures Denominator(f, xs, i, m) != 0
  {
    if m > 0 {
      DenominatorNonzero(f, xs, i, m - 1);
      if m - 1 != i {
        SubtractZero(f, xs[i], xs[m - 1]);
        NoZeroDivisors(f, Denominator(f, xs, i, m - 1), Subtract(f, xs[i], xs[m - 1]));
      }
    }
  }

  /** The term L_i: the basis scaled by y_i / denominator. */
  function Term(f: Field, xs: seq<int>, ys: seq<int>, i: nat): (r: Poly)
    requires InterpolationInputs(f, xs, ys) && |xs| == |ys| && Distinct(xs) && i < |xs|
    ensures r.field == f && Imm.Valid(r)
    ensures Imm.Degree(r) < |xs|
  {
    var basis := Basis(f, xs, i, |xs|);
    BasisMonic(f, xs, i, |xs|);
    DenominatorNonzero(f, xs, i, |xs|);
    var scale := Multiply(f, ys[i], Inverse(f, Denominator(f, xs, i, |xs|)).value);
    var r := Imm.ScalarMul(basis, scale);
    ScaledAboveDegree(basis, scale);
    Imm.DegreeAtMost(r, |xs| - 1);
    r
  }

  /** The result after the outer loop has handled i < m: the sum of the terms whose y_i is nonzero. */
  function Sum(f: Field, xs: seq<int>, ys: seq<int>, m: nat): (r: Poly)
    requires InterpolationInputs(f, xs, ys) && |xs| == |ys| && Distinct(xs) && m <= |xs|
    ensures r.field == f && Imm.Valid(r)
    ensures Imm.Degree(r) < |xs|
    decreases m
  {
    if m == 0 then Imm.Zero(f)
    else
      var sum := Sum(f, xs, ys, m - 1);
      if ys[m - 1] == 0 then sum
      else
        var term := Term(f, xs, ys, m - 1);
        var r := Imm.Add(sum, term).value;
        SumDegree(sum, term, r, |xs| - 1);
        r
  }

  lemma SumDegree(p: Poly, q: Poly, r: Poly, D: int)
    requires Imm.Valid(p) && Imm.Valid(q) && p.field == q.field && Imm.Add(p, q) == Ok(r)
    requires D >= -1 && Imm.Degree(p) <= D && Imm.Degree(q) <= D
    ensures Imm.Degree(r) <= D
  {
    forall d | d > D
      ensures Imm.CoefficientAt(r, d) == 0
    {
      AddLaws(p.field, 0, 0);
    }
    Imm.DegreeAtMost(r, D);
  }

  /**
   * interpolate(xs, ys): different lengths fail first, then an empty input gives zero, then a
   * repeated abscissa fails; otherwise the Lagrange sum, of degree below the number of points.
   */
  function Interpolation(f: Field, xs: seq<int>, ys: seq<int>): (r: Result<Poly>)
    requires InterpolationInputs(f, xs, ys)
    ensures r.Err? <==> |xs| != |ys| || !Distinct(xs)
    ensures r.Err? ==> r.error == InvalidArgument
    ensures r.Ok? ==> r.value.field == f && Imm.Valid(r.value) && Imm.Degree(r.value) < |xs|
  {
    if |xs| != |ys| then Err(InvalidArgument)
    else if |xs| == 0 then Ok(Imm.Zero(f))
    else if !Distinct(xs) then Err(InvalidArgument)
    else Ok(Sum(f, xs, ys, |xs|))
  }

  /** Ordinates that are all zero skip every term: the sum stays the zero polynomial. */
  lemma {:induction false} SumOfZeros(f: Field, xs: seq<int>, ys: seq<int>, m: nat)
    requires InterpolationInputs(f, xs, ys) && |xs| == |ys| && Distinct(xs) && m <= |xs|
    requires forall k :: 0 <= k < |ys| ==> ys[k] == 0
    ensures Sum(f, xs, ys, m) == Imm.Zero(f)
  {
    if m > 0 {
      var k: nat := m - 1;
      SumOfZeros(f, xs, ys, k);
      SumUnfold(f, xs, ys, k);
    }
  }

  /** One more pass of the outer loop: Sum at k + 1 skips or adds the term L_k. */
  lemma SumUnfold(f: Field, xs: seq<int>, ys: seq<int>, k: nat)
    requires InterpolationInputs(f, xs, ys) && |xs| == |ys| && Distinct(xs) && k < |xs|
    ensures Sum(f, xs, ys, k + 1) == if ys[k] == 0 then Sum(f, xs, ys, k) else Imm.Add(Sum(f, xs, ys, k), Term(f, xs, ys, k)).value
  {
  }

  lemma InterpolationOfZeros(f: Field, xs: seq<int>, ys: seq<int>)
    requires InterpolationInputs(f, xs, ys) && |xs| == |ys| && Distinct(xs)
    requires forall k :: 0 <= k < |ys| ==> ys[k] == 0
    ensures Interpolation(f, xs, ys) == Ok(Imm.Zero(f))
  {
    if |xs| > 0 {
      SumOfZeros(f, xs, ys, |xs|);
    }
  }

  /** Through a single point (x, y) the interpolant is the constant y. */
  lemma InterpolationOfOnePoint(f: Field, x: int, y: int)
    requires IsField(f) && IsValidElement(f, x) && IsValidElement(f, y)
    ensures Interpolation(f, [x], [y]) == Ok(Imm.Constant(f, y))
  {
    var xs, ys := [x], [y];
    assert InterpolationInputs(f, xs, ys) && Distinct(xs);
    OnePointSum(f, xs, ys);
  }

  /** With one point the sum after the outer loop is the constant y_0. */
  lemma OnePointSum(f: Field, xs: seq<int>, ys: seq<int>)
    requires InterpolationInputs(f, xs, ys) && |xs| == 1 && |ys| == 1
    ensures Distinct(xs) && Sum(f, xs, ys, 1) == Imm.Constant(f, ys[0])
  {
    var y := ys[0];
    if y == 0 {
      assert Sum(f, xs, ys, 1) == Sum(f, xs, ys, 0);
      Imm.Extensionality(Imm.Zero(f), Imm.Constant(f, 0));
    } else {
      var term := Term(f, xs, ys, 0);
      OnePointTerm(f, xs, ys);
      Imm.AddZero(term);
      assert Sum(f, xs, ys, 1) == Imm.Add(Sum(f, xs, ys, 0), term).value;
    }
  }

  /** With one point, the term is the constant y_0: the basis is one() and the denominator 1. */
  lemma OnePointTerm(f: Field, xs: seq<int>, ys: seq<int>)
    requires InterpolationInputs(f, xs, ys) && |xs| == 1 && |ys| == 1
    ensures Distinct(xs) && Term(f, xs, ys, 0) == Imm.Constant(f, ys[0])
  {
    OnePointBasis(f, xs);
    TermIs(f, xs, ys, 0, Imm.One(f), 1);
    InverseOfOne(f);
    MultiplyOne(f, ys[0]);
    ScaledOne(f, ys[0]);
  }

  /** With one point both products of the inner loop are empty. */
  lemma OnePointBasis(f: Field, xs: seq<int>)
    requires Core.ValidCoefficients(f, xs) && |xs| == 1
    ensures Basis(f, xs, 0, 1) == Imm.One(f) && Denominator(f, xs, 0, 1) == 1
  {
    assert Basis(f, xs, 0, 1) == Basis(f, xs, 0, 0);
    assert Denominator(f, xs, 0, 1) == Denominator(f, xs, 0, 0);
  }

  /** In a field, 1 is its own inverse. */
  lemma InverseOfOne(f: Field)
    requires IsField(f)
    ensures IsValidElement(f, 1) && Inverse(f, 1) == Ok(1)
  {
    MultiplyOne(f, 1);
    MultiplyByInverse(f, 1);
    var inverse := Inverse(f, 1).value;
    MultiplyCommutes(f, 1, inverse);
    MultiplyOne(f, inverse);
  }

  /** one() scaled by c is the constant c. */
  lemma ScaledOne(f: Field, c: int)
    requires IsField(f) && IsValidElement(f, c)
    ensures Imm.Valid(Imm.One(f)) && Imm.ScalarMul(Imm.One(f), c) == Imm.Constant(f, c)
  {
    Imm.OneValid(f);
    var scaled := Imm.ScalarMul(Imm.One(f), c);
    forall d
      ensures Imm.CoefficientAt(scaled, d) == Imm.CoefficientAt(Imm.Constant(f, c), d)
    {
      MultiplyOne(f, c);
      MultiplyCommutes(f, 1, c);
    }
    Imm.Extensionality(scaled, Imm.Constant(f, c));
  }


  /** interpolate, the source's two nested loops over immutable values. */
  method ComputeInterpolation(f: Field, xs: seq<int>, ys: seq<int>) returns (r: Result<Poly>)
    requires InterpolationInputs(f, xs, ys)
    ensures r == Interpolation(f, xs, ys)
  {
    if |xs| != |ys| {
      return Err(InvalidArgument);
    }
    if |xs| == 0 {
      return Ok(Imm.Zero(f));
    }
    if !Distinct(xs) {
      return Err(InvalidArgument);
    }
    var result := ComputeSum(f, xs, ys);
    return Ok(result);
  }

  /** The outer for loop: add the scaled basis of every point whose ordinate is nonzero. */
  method ComputeSum(f: Field, xs: seq<int>, ys: seq<int>) returns (result: Poly)
    requires InterpolationInputs(f, xs, ys) && |xs| == |ys| && Distinct(xs)
    ensures result == Sum(f, xs, ys, |xs|)
  {
    result := Imm.Zero(f);
    for i := 0 to |xs|
      invariant result == Sum(f, xs, ys, i)
    {
      result := AddTerm(f, xs, ys, i, result);
    }
  }

  /** One pass of the outer loop: skip a zero ordinate, otherwise add y_i * basis / denominator. */
  method AddTerm(f: Field, xs: seq<int>, ys: seq<int>, i: nat, sum: Poly) returns (result: Poly)
    requires InterpolationInputs(f, xs, ys) && |xs| == |ys| && Distinct(xs) && i < |xs|
    requires sum == Sum(f, xs, ys, i)
    ensures result == Sum(f, xs, ys, i + 1)
  {
    result := sum;
    if ys[i] != 0 {
      var basis, denominator := ComputeBasis(f, xs, i);
      TermIs(f, xs, ys, i, basis, denominator);
      var scale := Multiply(f, ys[i], Inverse(f, denominator).value);
      basis := Imm.ScalarMul(basis, scale);
      result := Imm.Add(result, basis).value;
    }
  }

  /** The body of the outer loop: the scaled basis it adds is the term L_i. */
  lemma TermIs(f: Field, xs: seq<int>, ys: seq<int>, i: nat, basis: Poly, denominator: int)
    requires InterpolationInputs(f, xs, ys) && |xs| == |ys| && Distinct(xs) && i < |xs|
    requires basis == Basis(f, xs, i, |xs|) && denominator == Denominator(f, xs, i, |xs|)
    ensures Inverse(f, denominator).Ok?
    ensures Term(f, xs, ys, i) == Imm.ScalarMul(basis, Multiply(f, ys[i], Inverse(f, denominator).value))
    ensures Sum(f, xs, ys, i + 1) == if ys[i] == 0 then Sum(f, xs, ys, i) else Imm.Add(Sum(f, xs, ys, i), Term(f, xs, ys, i)).value
  {
    DenominatorNonzero(f, xs, i, |xs|);
    SumUnfold(f, xs, ys, i);
  }

  /** The inner for loop: multiply in (x - x_j) and (x_i - x_j) for every j other than i. */
  method ComputeBasis(f: Field, xs: seq<int>, i: nat) returns (basis: Poly, denominator: int)
    requires Core.ValidCoefficients(f, xs) && i < |xs|
    ensures basis == Basis(f, xs, i, |xs|) && denominator == Denominator(f, xs, i, |xs|)
  {
    basis, denominator := MultiplyFactors(f, xs, i, Imm.One(f), 1);
  }

  /** The inner loop over every point, from the empty products 1 and 1. */
  method MultiplyFactors(f: Field, xs: seq<int>, i: nat, basis0: Poly, denominator0: int)
    returns (basis: Poly, denominator: int)
    requires Core.ValidCoefficients(f, xs) && i < |xs|
    requires basis0 == Basis(f, xs, i, 0) && denominator0 == Denominator(f, xs, i, 0)
    ensures basis == Basis(f, xs, i, |xs|) && denominator == Denominator(f, xs, i, |xs|)
  {
    basis, denominator := basis0, denominator0;
    for j := 0 to |xs|
      invariant basis == Basis(f, xs, i, j) && denominator == Denominator(f, xs, i, j)
    {
      basis := MultiplyFactor(f, xs, i, j, basis);
      denominator := MultiplyDifference(f, xs, i, j, denominator);
    }
  }

  /** One pass of the inner loop on the numerator: for j != i, multiply in (x - x_j). */
  method MultiplyFactor(f: Field, xs: seq<int>, i: nat, j: nat, basis0: Poly) returns (basis: Poly)
    requires Core.ValidCoefficients(f, xs) && i < |xs| && j < |xs|
    requires basis0 == Basis(f, xs, i, j)
    ensures basis == Basis(f, xs, i, j + 1)
  {
    basis := basis0;
    if i != j {
      var factor := LinearFactor(f, xs[j]);
      basis := Imm.Mul(basis, factor).value;
    }
  }

  /** One pass of the inner loop on the denominator: for j != i, multiply in (x_i - x_j). */
  method MultiplyDifference(f: Field, xs: seq<int>, i: nat, j: nat, denominator0: int) returns (denominator: int)
    requires Core.ValidCoefficients(f, xs) && i < |xs| && j < |xs|
    requires denominator0 == Denominator(f, xs, i, j)
    ensures denominator == Denominator(f, xs, i, j + 1)
  {
    denominator := denominator0;
    if i != j {
      denominator := Multiply(f, denominator, Subtract(f, xs[i], xs[j]));
    }
  }

  // ---------------------------------------------------------------------------------------------
  // derivative
  // ---------------------------------------------------------------------------------------------

  /** n copies of c added together in the field: the inner loop of derivative. */
  function RepeatedSum(f: Field, c: int, n: nat): (r: int)
    requires IsValidElement(f, c)
    ensures IsValidElement(f, r)
  {
    if n == 0 then
      ValidElementRange(f, 0);
      0
    else Add(f, RepeatedSum(f, c, n - 1), c)
  }

  /** In GF(p) the repeated sum is the product n * c reduced modulo p. */
  lemma {:induction false} RepeatedSumPrime(f: Field, c: int, n: nat)
    requires f.kind.PrimeKind? && IsValidElement(f, c)
    ensures RepeatedSum(f, c, n) == (n * c) % f.kind.prime
  {
    if n > 0 {
      RepeatedSumPrime(f, c, n - 1);
      MulStep(n, c);
      AddMod((n - 1) * c, c, f.kind.prime);
    }
  }

  lemma MulStep(n: int, c: int)
    ensures n * c == (n - 1) * c + c
  {
  }

  /** The coefficient of x^(i-1) in the derivative: coefficientAt(i) added (i mod p) times. */
  function DerivedAt(f: Field, s: seq<int>, i: int): (r: int)
    requires Core.ValidCoefficients(f, s)
    ensures IsValidElement(f, r)
  {
    Core.CoefficientAtValid(f, s, i);
    RepeatedSum(f, Core.CoefficientAt(s, i), i % Characteristic(f))
  }

  /** The list the outer loop builds, for i from the degree down to 1, highest degree first. */
  function DerivedCoefficients(f: Field, s: seq<int>): (r: seq<int>)
    requires Core.ValidCoefficients(f, s)
    ensures Core.ValidCoefficients(f, r)
  {
    if Core.Degree(s) <= 0 then []
    else seq(Core.Degree(s), k => DerivedAt(f, s, Core.Degree(s) - k))
  }

  /** derivative: zero for degree 0 or less, otherwise the derived list normalised. */
  function Derivative(f: Field, s: seq<int>): (r: Poly)
    requires Core.ValidCoefficients(f, s)
    ensures r.field == f && Imm.Valid(r)
  {
    if Core.Degree(s) <= 0 then Imm.Zero(f)
    else Imm.FromCoefficients(f, DerivedCoefficients(f, s))
  }

  /** Coefficient d of the derivative: coefficient d + 1 added (d + 1 mod p) times, 0 elsewhere. */
  lemma DerivativeCoefficient(f: Field, s: seq<int>, d: int)
    requires Core.ValidCoefficients(f, s)
    ensures Imm.CoefficientAt(Derivative(f, s), d) == if 0 <= d < Core.Degree(s) then DerivedAt(f, s, d + 1) else 0
  {
    if Core.Degree(s) > 0 {
      var list := DerivedCoefficients(f, s);
      if 0 <= d < Core.Degree(s) {
        assert Core.CoefficientAt(list, d) == list[Core.Degree(s) - 1 - d];
      }
    }
  }

  /** The degree drops by at least one; a polynomial of degree 0 or less has derivative zero. */
  lemma DerivativeDegree(f: Field, s: seq<int>)
    requires Core.ValidCoefficients(f, s)
    ensures Core.Degree(s) > 0 ==> Imm.Degree(Derivative(f, s)) < Core.Degree(s)
    ensures Core.Degree(s) <= 0 ==> Imm.IsZero(Derivative(f, s))
  {
    var r := Derivative(f, s);
    forall d | d > Core.Degree(s) - 1
      ensures Imm.CoefficientAt(r, d) == 0
    {
      DerivativeCoefficient(f, s, d);
    }
    Imm.DegreeAtMost(r, if Core.Degree(s) <= 0 then -1 else Core.Degree(s) - 1);
  }

  /** In GF(p) the derivative is the formal one: coefficient d is (d + 1) * a_(d+1) mod p. */
  lemma DerivativePrime(f: Field, s: seq<int>, d: nat)
    requires f.kind.PrimeKind? && Core.ValidCoefficients(f, s)
    ensures Imm.CoefficientAt(Derivative(f, s), d) == ((d + 1) * Core.CoefficientAt(s, d + 1)) % f.kind.prime
  {
    DerivativeCoefficient(f, s, d);
    if d < Core.Degree(s) {
      DerivedAtPrime(f, s, d + 1);
    } else {
      assert Core.CoefficientAt(s, d + 1) == 0;
    }
  }

  /** The loop's value for x^(i-1) in GF(p): i * a_i mod p. */
  lemma DerivedAtPrime(f: Field, s: seq<int>, i: nat)
    requires f.kind.PrimeKind? && Core.ValidCoefficients(f, s)
    ensures DerivedAt(f, s, i) == (i * Core.CoefficientAt(s, i)) % f.kind.prime
  {
    var p := f.kind.prime;
    var c := Core.CoefficientAt(s, i);
    Core.CoefficientAtValid(f, s, i);
    RepeatedSumPrime(f, c, i % p);
    MulMod(i, c, p);
  }

  /** In GF(2^n) the even powers vanish: coefficient d is a_(d+1) for even d and 0 for odd d. */
  lemma DerivativeBinary(f: Field, s: seq<int>, d: nat)
    requires f.kind.BinaryKind? && Core.ValidCoefficients(f, s)
    ensures Imm.CoefficientAt(Derivative(f, s), d) == if d % 2 == 0 then Core.CoefficientAt(s, d + 1) else 0
  {
    DerivativeCoefficient(f, s, d);
    DerivedAtBinary(f, s, d + 1);
    assert (d + 1) % 2 == 1 <==> d % 2 == 0;
  }

  /** The loop's value for x^(i-1) in GF(2^n): a_i for odd i, 0 for even i. */
  lemma DerivedAtBinary(f: Field, s: seq<int>, i: nat)
    requires f.kind.BinaryKind? && Core.ValidCoefficients(f, s)
    ensures DerivedAt(f, s, i) == if i % 2 == 1 then Core.CoefficientAt(s, i) else 0
  {
    var c := Core.CoefficientAt(s, i);
    Core.CoefficientAtValid(f, s, i);
    assert Characteristic(f) == 2;
    if i % 2 == 1 {
      RepeatedSumOnce(f, c);
    }
  }

  /** Adding c once to 0 gives c. */
  lemma RepeatedSumOnce(f: Field, c: int)
    requires IsValidElement(f, c)
    ensures RepeatedSum(f, c, 1) == c
  {
    ValidElementRange(f, 0);
    AddLaws(f, c, 0);
  }

  /** In GF(7), d/dx (x^2 + 3x + 5) = 2x + 3. */
  lemma DerivativeQuadraticExample(f: Field)
    requires f.kind == PrimeKind(7)
    ensures Core.ValidCoefficients(f, [1, 3, 5]) && Derivative(f, [1, 3, 5]).coefficients == [2, 3]
  {
    var s := [1, 3, 5];
    assert Core.ValidCoefficients(f, s);
    DerivedAtPrime(f, s, 2);
    DerivedAtPrime(f, s, 1);
    assert DerivedAt(f, s, 2) == 2 && DerivedAt(f, s, 1) == 3;
    assert DerivedCoefficients(f, s) == [2, 3];
  }

  /** In GF(2^n), d/dx (x^2 + x + 1) = 1: the x^2 term vanishes. */
  lemma DerivativeBinaryExample(f: Field)
    requires f.kind.BinaryKind?
    ensures Core.ValidCoefficients(f, [1, 1, 1]) && Derivative(f, [1, 1, 1]).coefficients == [1]
  {
    var s := [1, 1, 1];
    ValidElementRange(f, 1);
    assert Core.ValidCoefficients(f, s);
    DerivedAtBinary(f, s, 2);
    DerivedAtBinary(f, s, 1);
    assert DerivedCoefficients(f, s) == [0, 1];
    assert [0, 1][1..] == [1];
  }

  /** The outer loop of derivative; the inner loop is RepeatedAdd. */
  method ComputeDerivative(f: Field, s: seq<int>) returns (r: Poly)
    requires Core.ValidCoefficients(f, s)
    ensures r == Derivative(f, s)
  {
    var degree := Core.Degree(s);
    if degree <= 0 {
      return Imm.Zero(f);
    }
    var coefficients := [];
    var i := degree;
    while i >= 1
      invariant 0 <= i <= degree && |coefficients| == degree - i
      invariant forall k :: 0 <= k < |coefficients| ==> coefficients[k] == DerivedAt(f, s, degree - k)
    {
      var coefficient := Core.CoefficientAt(s, i);
      Core.CoefficientAtValid(f, s, i);
      var derived := RepeatedAdd(f, coefficient, i % Characteristic(f));
      coefficients := coefficients + [derived];
      i := i - 1;
    }
    assert coefficients == DerivedCoefficients(f, s);
    r := Imm.FromCoefficients(f, coefficients);
  }

  /** The inner loop of derivative: start from 0 and add c, n times. */
  method RepeatedAdd(f: Field, c: int, n: nat) returns (sum: int)
    requires IsValidElement(f, c)
    ensures sum == RepeatedSum(f, c, n)
  {
    ValidElementRange(f, 0);
    sum := 0;
    for k := 0 to n
      invariant sum == RepeatedSum(f, c, k)
    {
      sum := Add(f, sum, c);
    }
  }
}
