/**
 * InterpolationValues: the interpolant's values. Where the field laws hold, the Lagrange sum
 * built by interpolate takes the value y_j at every abscissa x_j: each term L_i scales the basis
 * (the product of x - x_j, j != i) by y_i / denominator, so it is y_i at x_i and 0 at the others.
 */
module InterpolationValues {
  import opened Wrappers
  import opened Fields
  import Core = PolynomialCore
  import Imm = ImmutablePolynomials
  import Ring = PolynomialRing
  import opened PolynomialArithmetic


  /** Where the field laws hold, evaluating a product of polynomials multiplies their values. */
  lemma MulAt(b: Poly, c: Poly, x: int)
    requires IsField(b.field) && RingLaws(b.field) && Imm.Valid(b) && Imm.Valid(c) && c.field == b.field
    requires IsValidElement(b.field, x)
    ensures Imm.Mul(b, c).Ok?
    ensures Core.Horner(b.field, Imm.Mul(b, c).value.coefficients, x) ==
      Multiply(b.field, Core.Horner(b.field, b.coefficients, x), Core.Horner(c.field, c.coefficients, x))
  {
    var f := b.field;
    var product := Core.ProductCoefficients(f, b.coefficients, c.coefficients);
    Ring.HornerSame(f, Imm.Mul(b, c).value.coefficients, product, x);
    Ring.HornerProduct(f, b.coefficients, c.coefficients, x);
  }

  /** Where the field laws hold, Horner evaluation of the basis polynomial gives BasisValue. */
  lemma {:induction false} BasisEvaluates(f: Field, xs: seq<int>, i: nat, m: nat, x: int)
    requires Abscissas(f, xs) && RingLaws(f) && i < |xs| && m <= |xs| && IsValidElement(f, x)
    ensures Core.Horner(f, Basis(f, xs, i, m).coefficients, x) == BasisValue(f, xs, i, m, x)
    decreases m
  {
    if m == 0 {
      EmptyBasisAt(f, xs, i, x);
    } else {
      var k: nat := m - 1;
      BasisEvaluates(f, xs, i, k, x);
      BasisStepAt(f, xs, i, k, m, x);
    }
  }

  /** Before the inner loop the basis is the constant 1, whose value is 1 everywhere. */
  lemma EmptyBasisAt(f: Field, xs: seq<int>, i: nat, x: int)
    requires Core.ValidCoefficients(f, xs) && i < |xs| && IsValidElement(f, x)
    ensures Core.Horner(f, Basis(f, xs, i, 0).coefficients, x) == BasisValue(f, xs, i, 0, x) == 1
  {
    Imm.OneValid(f);
    HornerOfOne(f, x);
  }

  /** One pass of the inner loop keeps the basis evaluating to BasisValue. */
  lemma BasisStepAt(f: Field, xs: seq<int>, i: nat, k: nat, m: nat, x: int)
    requires Abscissas(f, xs) && RingLaws(f) && i < |xs| && m == k + 1 <= |xs| && IsValidElement(f, x)
    requires Core.Horner(f, Basis(f, xs, i, k).coefficients, x) == BasisValue(f, xs, i, k, x)
    ensures Core.Horner(f, Basis(f, xs, i, m).coefficients, x) == BasisValue(f, xs, i, m, x)
  {
    BasisUnfold(f, xs, i, k);
    BasisValueUnfold(f, xs, i, k, x);
    if k != i {
      MulAt(Basis(f, xs, i, k), LinearFactor(f, xs[k]), x);
      FactorAt(f, xs[k], x);
    }
  }

  /** BasisValue at k + 1 multiplies in x - x_k unless k is i. */
  lemma BasisValueUnfold(f: Field, xs: seq<int>, i: nat, k: nat, x: int)
    requires Core.ValidCoefficients(f, xs) && i < |xs| && k < |xs| && IsValidElement(f, x)
    ensures BasisValue(f, xs, i, k + 1, x) ==
      if k == i then BasisValue(f, xs, i, k, x) else Multiply(f, BasisValue(f, xs, i, k, x), Subtract(f, x, xs[k]))
  {
  }

  /** The product of the differences vanishes at every abscissa x_j, j < m, other than x_i. */
  lemma {:induction false} BasisValueVanishes(f: Field, xs: seq<int>, i: nat, m: nat, j: nat)
    requires Abscissas(f, xs) && i < |xs| && m <= |xs| && j < m && j != i
    ensures BasisValue(f, xs, i, m, xs[j]) == 0
    decreases m
  {
    if m - 1 == i || j != m - 1 {
      BasisValueVanishes(f, xs, i, m - 1, j);
    } else {
      SubtractZero(f, xs[j], xs[m - 1]);
    }
  }

  /** At x_i the product of the differences is the denominator. */
  lemma {:induction false} BasisValueAtOwn(f: Field, xs: seq<int>, i: nat, m: nat)
    requires Abscissas(f, xs) && i < |xs| && m <= |xs|
    ensures BasisValue(f, xs, i, m, xs[i]) == Denominator(f, xs, i, m)
    decreases m
  {
    if m > 0 {
      BasisValueAtOwn(f, xs, i, m - 1);
    }
  }

  /** The term L_i takes the value y_i at x_i and 0 at every other abscissa. */
  lemma TermAt(f: Field, xs: seq<int>, ys: seq<int>, i: nat, j: nat)
    requires InterpolationInputs(f, xs, ys) && RingLaws(f) && |xs| == |ys| && Distinct(xs)
    requires i < |xs| && j < |xs|
    ensures Core.Horner(f, Term(f, xs, ys, i).coefficients, xs[j]) == if j == i then ys[i] else 0
  {
    var basis, denominator := Basis(f, xs, i, |xs|), Denominator(f, xs, i, |xs|);
    TermIs(f, xs, ys, i, basis, denominator);
    var inverse := Inverse(f, denominator).value;
    var scale := Multiply(f, ys[i], inverse);
    var term := Term(f, xs, ys, i);
    forall d
      ensures Core.CoefficientAt(term.coefficients, d) == Multiply(f, Core.CoefficientAt(basis.coefficients, d), scale)
    {
      assert Imm.CoefficientAt(term, d) == Multiply(f, Imm.CoefficientAt(basis, d), scale);
    }
    Ring.HornerScale(f, term.coefficients, basis.coefficients, scale, xs[j]);
    BasisEvaluates(f, xs, i, |xs|, xs[j]);
    if j == i {
      BasisValueAtOwn(f, xs, i, |xs|);
      DenominatorNonzero(f, xs, i, |xs|);
      MultiplyByInverse(f, denominator);
      MultiplyCommutes(f, denominator, scale);
      MultiplyAssociates(f, ys[i], inverse, denominator);
      MultiplyCommutes(f, inverse, denominator);
      MultiplyOne(f, ys[i]);
    } else {
      BasisValueVanishes(f, xs, i, |xs|, j);
    }
  }

  /** The sum after the terms i < m takes the value y_j at x_j for j < m, and 0 at the later abscissas. */
  lemma {:induction false} SumAt(f: Field, xs: seq<int>, ys: seq<int>, m: nat, j: nat)
    requires InterpolationInputs(f, xs, ys) && RingLaws(f) && |xs| == |ys| && Distinct(xs)
    requires m <= |xs| && j < |xs|
    ensures Core.Horner(f, Sum(f, xs, ys, m).coefficients, xs[j]) == if j < m then ys[j] else 0
    decreases m
  {
    if m > 0 {
      var k: nat := m - 1;
      SumAt(f, xs, ys, k, j);
      SumStepAt(f, xs, ys, k, m, j);
    }
  }

  /** One pass of the outer loop adds the value of L_k, y_k at x_k and 0 elsewhere. */
  lemma SumStepAt(f: Field, xs: seq<int>, ys: seq<int>, k: nat, m: nat, j: nat)
    requires InterpolationInputs(f, xs, ys) && RingLaws(f) && |xs| == |ys| && Distinct(xs)
    requires m == k + 1 <= |xs| && j < |xs|
    requires Core.Horner(f, Sum(f, xs, ys, k).coefficients, xs[j]) == if j < k then ys[j] else 0
    ensures Core.Horner(f, Sum(f, xs, ys, m).coefficients, xs[j]) == if j < m then ys[j] else 0
  {
    SumUnfoldAt(f, xs, ys, k, m);
    if ys[k] != 0 {
      AddedTermAt(f, xs, ys, k, j);
    } else {
      assert j == k ==> ys[j] == 0;
    }
  }

  /** SumUnfold, with the next count m named. */
  lemma SumUnfoldAt(f: Field, xs: seq<int>, ys: seq<int>, k: nat, m: nat)
    requires InterpolationInputs(f, xs, ys) && |xs| == |ys| && Distinct(xs) && m == k + 1 <= |xs|
    ensures Sum(f, xs, ys, m) == if ys[k] == 0 then Sum(f, xs, ys, k) else Imm.Add(Sum(f, xs, ys, k), Term(f, xs, ys, k)).value
  {
    SumUnfold(f, xs, ys, k);
  }

  /** Adding L_k to the sum after the terms i < k adds y_k at x_k and nothing at the other abscissas. */
  lemma AddedTermAt(f: Field, xs: seq<int>, ys: seq<int>, k: nat, j: nat)
    requires InterpolationInputs(f, xs, ys) && RingLaws(f) && |xs| == |ys| && Distinct(xs)
    requires k < |xs| && j < |xs|
    requires Core.Horner(f, Sum(f, xs, ys, k).coefficients, xs[j]) == if j < k then ys[j] else 0
    ensures Imm.Add(Sum(f, xs, ys, k), Term(f, xs, ys, k)).Ok?
    ensures Core.Horner(f, Imm.Add(Sum(f, xs, ys, k), Term(f, xs, ys, k)).value.coefficients, xs[j]) ==
      if j <= k then ys[j] else 0
  {
    var sum, term := Sum(f, xs, ys, k), Term(f, xs, ys, k);
    AddAt(sum, term, xs[j]);
    TermAt(f, xs, ys, k, j);
    if j <= k {
      AddLaws(f, ys[j], 0);
    } else {
      AddLaws(f, 0, 0);
    }
  }

  /** Where the field laws hold, evaluating a sum of polynomials adds their values. */
  lemma AddAt(b: Poly, c: Poly, x: int)
    requires RingLaws(b.field) && Imm.Valid(b) && Imm.Valid(c) && c.field == b.field
    requires IsValidElement(b.field, x)
    ensures Imm.Add(b, c).Ok?
    ensures Core.Horner(b.field, Imm.Add(b, c).value.coefficients, x) ==
      Add(b.field, Core.Horner(b.field, b.coefficients, x), Core.Horner(c.field, c.coefficients, x))
  {
    var f, sum := b.field, Imm.Add(b, c).value;
    forall d
      ensures Core.CoefficientAt(sum.coefficients, d) ==
        Add(f, Core.CoefficientAt(b.coefficients, d), Core.CoefficientAt(c.coefficients, d))
    {
      assert Imm.CoefficientAt(sum, d) == Add(f, Imm.CoefficientAt(b, d), Imm.CoefficientAt(c, d));
    }
    Ring.HornerAdd(f, sum.coefficients, b.coefficients, c.coefficients, x);
  }

  /** Where the field laws hold, the full sum passes through every point (x_j, y_j). */
  lemma SumInterpolates(f: Field, xs: seq<int>, ys: seq<int>)
    requires InterpolationInputs(f, xs, ys) && |xs| == |ys| && Distinct(xs)
    ensures RingLaws(f) ==> forall j :: 0 <= j < |xs| ==> Core.Horner(f, Sum(f, xs, ys, |xs|).coefficients, xs[j]) == ys[j]
  {
    if RingLaws(f) {
      forall j | 0 <= j < |xs|
        ensures Core.Horner(f, Sum(f, xs, ys, |xs|).coefficients, xs[j]) == ys[j]
      {
        SumAt(f, xs, ys, |xs|, j);
      }
    }
  }

  /** Where the field laws hold, the interpolant of distinct abscissas passes through every point. */
  lemma InterpolationPassesThrough(f: Field, xs: seq<int>, ys: seq<int>)
    requires InterpolationInputs(f, xs, ys)
    ensures Interpolation(f, xs, ys).Ok? && RingLaws(f) ==>
      forall j :: 0 <= j < |xs| ==> Core.Horner(f, Interpolation(f, xs, ys).value.coefficients, xs[j]) == ys[j]
  {
    if Interpolation(f, xs, ys).Ok? && |xs| > 0 {
      SumInterpolates(f, xs, ys);
    }
  }
}
