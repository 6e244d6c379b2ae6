/**
 * PolynomialImmutable: a field and a normalised coefficient list, highest degree first. Every
 * operation builds a new value through the constructor, which normalises; nothing is ever
 * updated, so the operands of an operation are unchanged by construction.
 */
module ImmutablePolynomials {
  import opened Wrappers
  import opened Fields
  import Bits
  import Core = PolynomialCore
  import Ring = PolynomialRing

  datatype PolynomialImmutable = PolynomialImmutable(field: Field, coefficients: seq<int>)

  /** What the constructor guarantees (normal form) and what the operations need (field elements). */
  predicate Valid(p: PolynomialImmutable)
  {
    Core.IsNormalized(p.coefficients) && Core.ValidCoefficients(p.field, p.coefficients)
  }

  predicate IsZero(p: PolynomialImmutable)
  {
    Core.IsZero(p.coefficients)
  }

  function Degree(p: PolynomialImmutable): int
  {
    Core.Degree(p.coefficients)
  }

  function LeadingCoefficient(p: PolynomialImmutable): int
  {
    Core.LeadingCoefficient(p.coefficients)
  }

  function CoefficientAt(p: PolynomialImmutable, d: int): int
  {
    Core.CoefficientAt(p.coefficients, d)
  }

  /** Normalising keeps every coefficient and keeps the list inside the field. */
  lemma NormalizedKeeps(f: Field, s: seq<int>)
    ensures forall d :: Core.CoefficientAt(Core.Normalized(s), d) == Core.CoefficientAt(s, d)
    ensures Core.ValidCoefficients(f, s) ==> Core.ValidCoefficients(f, Core.Normalized(s))
  {
    forall d
      ensures Core.CoefficientAt(Core.Normalized(s), d) == Core.CoefficientAt(s, d)
    {
      Core.NormalizedCoefficients(s, d);
    }
    if Core.ValidCoefficients(f, s) {
      Core.NormalizedValid(f, s);
    }
  }

  /** A normalised polynomial whose coefficients vanish above D has degree at most D. */
  lemma DegreeAtMost(p: PolynomialImmutable, D: int)
    requires Core.IsNormalized(p.coefficients) && D >= -1
    requires forall d :: d > D ==> CoefficientAt(p, d) == 0
    ensures Degree(p) <= D
  {
    if p.coefficients != [] {
      assert CoefficientAt(p, Degree(p)) == p.coefficients[0];
    }
  }

  /** The degree of a normalised polynomial is the highest degree with a nonzero coefficient. */
  lemma DegreeIs(p: PolynomialImmutable, D: nat)
    requires Core.IsNormalized(p.coefficients) && CoefficientAt(p, D) != 0
    requires forall d :: d > D ==> CoefficientAt(p, d) == 0
    ensures Degree(p) == D && LeadingCoefficient(p) == CoefficientAt(p, D)
  {
    DegreeAtMost(p, D);
  }

  // ---------------------------------------------------------------------------------------------
  // Factories
  // ---------------------------------------------------------------------------------------------

  /** fromCoefficients (new self): normalised, with the same coefficient at every degree. */
  function FromCoefficients(f: Field, coefficients: seq<int>): (r: PolynomialImmutable)
    ensures r.field == f && Core.IsNormalized(r.coefficients)
    ensures forall d :: CoefficientAt(r, d) == Core.CoefficientAt(coefficients, d)
    ensures Core.ValidCoefficients(f, coefficients) ==> Valid(r)
  {
    NormalizedKeeps(f, coefficients);
    PolynomialImmutable(f, Core.Normalized(coefficients))
  }

  /** one() is a valid polynomial over every field: 1 is an element of each. */
  lemma OneValid(f: Field)
    ensures Valid(One(f)) && One(f).coefficients == [1]
  {
    ValidElementRange(f, 1);
    Core.NormalizedKeepsNormal([1]);
  }

  /** zero(): degree -1, no coefficients. */
  function Zero(f: Field): (r: PolynomialImmutable)
    ensures r.field == f && Valid(r) && IsZero(r) && Degree(r) == -1
    ensures forall d :: CoefficientAt(r, d) == 0
  {
    FromCoefficients(f, [])
  }

  /** one(): degree 0 with leading coefficient 1. */
  function One(f: Field): (r: PolynomialImmutable)
    ensures r.field == f && Core.IsNormalized(r.coefficients)
    ensures Degree(r) == 0 && LeadingCoefficient(r) == 1
    ensures CoefficientAt(r, 0) == 1 && forall d :: d != 0 ==> CoefficientAt(r, d) == 0
  {
    Core.NormalizedKeepsNormal([1]);
    FromCoefficients(f, [1])
  }

  /** constant(v): the zero polynomial for 0, else degree 0 with coefficient v. */
  function Constant(f: Field, v: int): (r: PolynomialImmutable)
    ensures r.field == f && Core.IsNormalized(r.coefficients)
    ensures v == 0 ==> IsZero(r)
    ensures v != 0 ==> Degree(r) == 0 && LeadingCoefficient(r) == v
    ensures forall d :: CoefficientAt(r, d) == if d == 0 then v else 0
  {
    var r := FromCoefficients(f, [v]);
    assert forall d :: Core.CoefficientAt([v], d) == if d == 0 then v else 0;
    assert v == 0 ==> r.coefficients == [] by {
      if v == 0 {
        assert [v][1..] == [];
      }
    }
    r
  }

  /**
   * monomial(degree, c): a negative degree fails; otherwise c at that degree and 0 below it,
   * which for c != 0 has that degree and leading coefficient c.
   */
  function Monomial(f: Field, degree: int, c: int): (r: Result<PolynomialImmutable>)
    ensures r.Err? <==> degree < 0
    ensures r.Err? ==> r.error == InvalidArgument
    ensures r.Ok? ==> r.value.field == f && Core.IsNormalized(r.value.coefficients)
    ensures r.Ok? ==> forall d :: CoefficientAt(r.value, d) == if d == degree then c else 0
    ensures r.Ok? && c != 0 ==> Degree(r.value) == degree && LeadingCoefficient(r.value) == c
    ensures r.Ok? && c == 0 ==> IsZero(r.value)
  {
    if degree < 0 then Err(InvalidArgument)
    else
      var coefficients := Core.Zeros(degree + 1)[0 := c];
      var p := FromCoefficients(f, coefficients);
      assert Core.CoefficientAt(coefficients, degree) == c;
      assert c == 0 ==> Core.Normalized(coefficients) == [] by {
        if c == 0 {
          assert forall i :: 0 <= i < |coefficients| ==> coefficients[i] == 0;
        }
      }
      Ok(p)
  }

  // ---------------------------------------------------------------------------------------------
  // Arithmetic: add, sub, mul, scalarMul
  // ---------------------------------------------------------------------------------------------

  /** add: a different field instance fails; otherwise the field sum at every degree, normalised. */
  function Add(p: PolynomialImmutable, q: PolynomialImmutable): (r: Result<PolynomialImmutable>)
    requires Core.ValidCoefficients(p.field, p.coefficients) && Core.ValidCoefficients(q.field, q.coefficients)
    ensures r.Err? <==> p.field != q.field
    ensures r.Err? ==> r.error == FieldMismatch
    ensures r.Ok? ==> r.value.field == p.field && Valid(r.value)
    ensures r.Ok? ==> forall d :: CoefficientAt(r.value, d) == Fields.Add(p.field, CoefficientAt(p, d), CoefficientAt(q, d))
  {
    var sum :- Core.AddResult(p.field, p.coefficients, q.field, q.coefficients);
    Core.SumCoefficientsAt(p.field, p.coefficients, q.coefficients);
    Ok(FromCoefficients(p.field, sum))
  }

  /** sub: the same field check; the field difference at every degree, normalised. */
  function Sub(p: PolynomialImmutable, q: PolynomialImmutable): (r: Result<PolynomialImmutable>)
    requires Core.ValidCoefficients(p.field, p.coefficients) && Core.ValidCoefficients(q.field, q.coefficients)
    ensures r.Err? <==> p.field != q.field
    ensures r.Err? ==> r.error == FieldMismatch
    ensures r.Ok? ==> r.value.field == p.field && Valid(r.value)
    ensures r.Ok? ==> forall d :: CoefficientAt(r.value, d) == Subtract(p.field, CoefficientAt(p, d), CoefficientAt(q, d))
  {
    var difference :- Core.SubtractResult(p.field, p.coefficients, q.field, q.coefficients);
    Core.DifferenceCoefficientsAt(p.field, p.coefficients, q.coefficients);
    Ok(FromCoefficients(p.field, difference))
  }

  /**
   * mul: the same field check; a zero operand gives zero; the degree never exceeds the sum of
   * the degrees, and in a field it is that sum, with the product of the leading coefficients.
   */
  function Mul(p: PolynomialImmutable, q: PolynomialImmutable): (r: Result<PolynomialImmutable>)
    requires Core.ValidCoefficients(p.field, p.coefficients) && Core.ValidCoefficients(q.field, q.coefficients)
    ensures r.Err? <==> p.field != q.field
    ensures r.Err? ==> r.error == FieldMismatch
    ensures r.Ok? ==> r.value.field == p.field && Valid(r.value)
    ensures r.Ok? && (IsZero(p) || IsZero(q)) ==> IsZero(r.value)
    ensures r.Ok? && !IsZero(r.value) ==> Degree(r.value) <= Degree(p) + Degree(q)
    ensures r.Ok? && IsField(p.field) && Valid(p) && Valid(q) && !IsZero(p) && !IsZero(q) ==>
      Degree(r.value) == Degree(p) + Degree(q)
      && LeadingCoefficient(r.value) == Multiply(p.field, LeadingCoefficient(p), LeadingCoefficient(q))
  {
    var product :- Core.MultiplyResult(p.field, p.coefficients, q.field, q.coefficients);
    var r := FromCoefficients(p.field, product);
    if IsZero(p) || IsZero(q) then Ok(r)
    else
      Core.ProductLeading(p.field, p.coefficients, q.coefficients);
      Ok(r)
  }

  /** scalarMul(c): every coefficient times c, normalised (so 0 gives the zero polynomial). */
  function ScalarMul(p: PolynomialImmutable, c: int): (r: PolynomialImmutable)
    requires Core.ValidCoefficients(p.field, p.coefficients) && IsValidElement(p.field, c)
    ensures r.field == p.field && Valid(r)
    ensures forall d :: CoefficientAt(r, d) == Multiply(p.field, CoefficientAt(p, d), c)
  {
    forall d
      ensures Core.CoefficientAt(Core.ScaledCoefficients(p.field, p.coefficients, c), d)
        == Multiply(p.field, CoefficientAt(p, d), c)
    {
      Core.ScaledCoefficientAt(p.field, p.coefficients, c, d);
    }
    FromCoefficients(p.field, Core.ScaledCoefficients(p.field, p.coefficients, c))
  }

  // ---------------------------------------------------------------------------------------------
  // divmod, div, mod
  // ---------------------------------------------------------------------------------------------

  /**
   * divmod: a different field fails, then a zero divisor; a normalised nonzero divisor always
   * succeeds. The remainder's degree is below the divisor's, the quotient's degree is at most
   * the difference of the degrees, and a dividend of lower degree is its own remainder. Where
   * the field laws hold, quotient * divisor + remainder is the dividend.
   */
  function Divmod(p: PolynomialImmutable, q: PolynomialImmutable): (r: Result<(PolynomialImmutable, PolynomialImmutable)>)
    requires IsField(p.field)
    requires Core.ValidCoefficients(p.field, p.coefficients) && Core.ValidCoefficients(q.field, q.coefficients)
    ensures p.field != q.field ==> r == Err(FieldMismatch)
    ensures p.field == q.field && IsZero(q) ==> r == Err(DivisionByZero)
    ensures p.field == q.field && Valid(q) && !IsZero(q) ==> r.Ok?
    ensures r.Err? ==> r.error in {FieldMismatch, DivisionByZero}
    ensures r.Ok? ==> r.value.0.field == p.field && r.value.1.field == p.field
    ensures r.Ok? ==> Valid(r.value.0) && Valid(r.value.1)
    ensures r.Ok? ==> Degree(r.value.1) < Degree(q)
    ensures r.Ok? && Degree(p) >= Degree(q) ==> Degree(r.value.0) <= Degree(p) - Degree(q)
    ensures r.Ok? && Degree(p) < Degree(q) ==> IsZero(r.value.0) && r.value.1 == FromCoefficients(p.field, p.coefficients)
    ensures r.Ok? && RingLaws(p.field) ==>
      Mul(r.value.0, q).Ok? && Add(Mul(r.value.0, q).value, r.value.1) == Ok(FromCoefficients(p.field, p.coefficients))
  {
    var qr :- Core.DivisionResult(p.field, p.coefficients, q.field, q.coefficients);
    DivisionEquation(p.field, p.coefficients, qr.0, q.coefficients, qr.1);
    Ok((FromCoefficients(p.field, qr.0), FromCoefficients(p.field, qr.1)))
  }

  /** The coefficient-wise division identity, read back as polynomials: quotient * d + remainder == a. */
  lemma DivisionEquation(f: Field, a: seq<int>, quot: seq<int>, d: seq<int>, rem: seq<int>)
    requires Core.ValidCoefficients(f, a) && Core.ValidCoefficients(f, quot)
    requires Core.ValidCoefficients(f, d) && Core.ValidCoefficients(f, rem)
    requires Core.DivisionIdentity(f, a, quot, d, rem)
    ensures RingLaws(f) ==> (Mul(FromCoefficients(f, quot), PolynomialImmutable(f, d)).Ok?
      && Add(Mul(FromCoefficients(f, quot), PolynomialImmutable(f, d)).value, FromCoefficients(f, rem)) == Ok(FromCoefficients(f, a)))
  {
    if RingLaws(f) {
      var quotient := FromCoefficients(f, quot);
      var product := Mul(quotient, PolynomialImmutable(f, d)).value;
      Ring.ProductSame(f, quotient.coefficients, quot, d, d);
      var sum := Add(product, FromCoefficients(f, rem)).value;
      Extensionality(sum, FromCoefficients(f, a));
    }
  }

  /** Where the field laws hold, a multiple q * g of a nonzero g leaves the zero remainder. */
  lemma ModOfMultiple(p: PolynomialImmutable, g: PolynomialImmutable, q: seq<int>)
    requires IsField(p.field) && RingLaws(p.field) && Valid(p) && Valid(g) && g.field == p.field && !IsZero(g)
    requires Core.ValidCoefficients(p.field, q)
    requires Ring.SameCoefficients(Core.ProductCoefficients(p.field, q, g.coefficients), p.coefficients)
    ensures Mod(p, g) == Ok(Zero(p.field))
  {
    var f := p.field;
    var qr := Core.DivisionResult(f, p.coefficients, f, g.coefficients).value;
    Ring.RemainderOfMultiple(f, p.coefficients, q, g.coefficients, qr.0, qr.1);
    Extensionality(Mod(p, g).value, Zero(f));
  }

  /** div: the quotient of divmod, failing as divmod fails. */
  function Div(p: PolynomialImmutable, q: PolynomialImmutable): (r: Result<PolynomialImmutable>)
    requires IsField(p.field)
    requires Core.ValidCoefficients(p.field, p.coefficients) && Core.ValidCoefficients(q.field, q.coefficients)
    ensures r.Ok? <==> Divmod(p, q).Ok?
    ensures r.Ok? ==> r.value == Divmod(p, q).value.0
    ensures r.Err? ==> r.error == Divmod(p, q).error
  {
    var qr :- Divmod(p, q);
    Ok(qr.0)
  }

  /** mod: the remainder of divmod, failing as divmod fails. */
  function Mod(p: PolynomialImmutable, q: PolynomialImmutable): (r: Result<PolynomialImmutable>)
    requires IsField(p.field)
    requires Core.ValidCoefficients(p.field, p.coefficients) && Core.ValidCoefficients(q.field, q.coefficients)
    ensures r.Ok? <==> Divmod(p, q).Ok?
    ensures r.Ok? ==> r.value == Divmod(p, q).value.1
    ensures r.Err? ==> r.error == Divmod(p, q).error
  {
    var qr :- Divmod(p, q);
    Ok(qr.1)
  }

  // ---------------------------------------------------------------------------------------------
  // Identities
  // ---------------------------------------------------------------------------------------------

  /** Two normalised polynomials over the same field with equal coefficients at every degree are equal. */
  lemma Extensionality(p: PolynomialImmutable, q: PolynomialImmutable)
    requires p.field == q.field && Core.IsNormalized(p.coefficients) && Core.IsNormalized(q.coefficients)
    requires forall d :: CoefficientAt(p, d) == CoefficientAt(q, d)
    ensures p == q
  {
    forall d
      ensures Core.CoefficientAt(p.coefficients, d) == Core.CoefficientAt(q.coefficients, d)
    {
      assert CoefficientAt(p, d) == CoefficientAt(q, d);
    }
    Core.CoefficientsDetermine(p.coefficients, q.coefficients);
  }

  /** p + 0 == p and 0 + p == p. */
  lemma AddZero(p: PolynomialImmutable)
    requires Valid(p)
    ensures Add(p, Zero(p.field)) == Ok(p) && Add(Zero(p.field), p) == Ok(p)
  {
    var f := p.field;
    forall d
      ensures Fields.Add(f, CoefficientAt(p, d), 0) == CoefficientAt(p, d)
      ensures Fields.Add(f, 0, CoefficientAt(p, d)) == CoefficientAt(p, d)
    {
      Core.CoefficientAtValid(f, p.coefficients, d);
      AddLaws(f, CoefficientAt(p, d), 0);
    }
    Extensionality(Add(p, Zero(f)).value, p);
    Extensionality(Add(Zero(f), p).value, p);
  }

  /** Addition of polynomials commutes. */
  lemma AddCommutes(p: PolynomialImmutable, q: PolynomialImmutable)
    requires Valid(p) && Valid(q) && p.field == q.field
    ensures Add(p, q) == Add(q, p)
  {
    forall d
      ensures Fields.Add(p.field, CoefficientAt(p, d), CoefficientAt(q, d))
        == Fields.Add(p.field, CoefficientAt(q, d), CoefficientAt(p, d))
    {
      Core.CoefficientAtValid(p.field, p.coefficients, d);
      Core.CoefficientAtValid(q.field, q.coefficients, d);
      AddLaws(p.field, CoefficientAt(p, d), CoefficientAt(q, d));
    }
    Extensionality(Add(p, q).value, Add(q, p).value);
  }

  /** Subtracting and adding back restores the polynomial: (p - q) + q == p. */
  lemma SubThenAdd(p: PolynomialImmutable, q: PolynomialImmutable)
    requires Valid(p) && Valid(q) && p.field == q.field
    ensures Sub(p, q).Ok? && Add(Sub(p, q).value, q) == Ok(p)
  {
    var f := p.field;
    var s := Sub(p, q).value;
    forall d
      ensures Fields.Add(f, CoefficientAt(s, d), CoefficientAt(q, d)) == CoefficientAt(p, d)
    {
      Core.CoefficientAtValid(f, p.coefficients, d);
      Core.CoefficientAtValid(f, q.coefficients, d);
    }
    Extensionality(Add(s, q).value, p);
  }

  /** p - p is the zero polynomial. */
  lemma SubSelf(p: PolynomialImmutable)
    requires Valid(p)
    ensures Sub(p, p) == Ok(Zero(p.field))
  {
    forall d
      ensures Subtract(p.field, CoefficientAt(p, d), CoefficientAt(p, d)) == 0
    {
      Core.CoefficientAtValid(p.field, p.coefficients, d);
      SubtractZero(p.field, CoefficientAt(p, d), CoefficientAt(p, d));
    }
    Extensionality(Sub(p, p).value, Zero(p.field));
  }

  /** In GF(2^n) every polynomial is its own negative: p + p is the zero polynomial. */
  lemma AddSelfBinary(p: PolynomialImmutable)
    requires Valid(p) && IsBinary(p.field)
    ensures Add(p, p) == Ok(Zero(p.field))
  {
    forall d
      ensures Fields.Add(p.field, CoefficientAt(p, d), CoefficientAt(p, d)) == 0
    {
      Core.CoefficientAtValid(p.field, p.coefficients, d);
      Bits.XorSelf(CoefficientAt(p, d));
    }
    Extensionality(Add(p, p).value, Zero(p.field));
  }

  /** p * 0 and 0 * p are the zero polynomial. */
  lemma MulZero(p: PolynomialImmutable)
    requires Core.ValidCoefficients(p.field, p.coefficients)
    ensures Mul(p, Zero(p.field)) == Ok(Zero(p.field)) && Mul(Zero(p.field), p) == Ok(Zero(p.field))
  {
  }

  /** The convolution with [1] picks out a single coefficient: row k contributes a[k] * 1. */
  lemma {:induction false} ConvolutionWithOne(f: Field, a: seq<int>, k: nat, m: nat)
    requires IsField(f) && Core.ValidCoefficients(f, a) && k < |a| && m <= |a|
    ensures IsValidElement(f, 1)
    ensures Core.Convolution(f, a, [1], k, m) == if m <= k then 0 else a[k]
  {
    MultiplyOne(f, a[k]);
    if m > 0 {
      ConvolutionWithOne(f, a, k, m - 1);
      if m - 1 == k {
        AddLaws(f, a[k], 0);
      }
    }
  }

  /** In a field the product list with [1] is the list itself. */
  lemma ProductWithOne(f: Field, a: seq<int>)
    requires IsField(f) && Core.ValidCoefficients(f, a)
    ensures IsValidElement(f, 1) && Core.ProductCoefficients(f, a, [1]) == a
  {
    MultiplyOne(f, 0);
    if a != [] {
      var product := Core.ProductCoefficients(f, a, [1]);
      forall k | 0 <= k < |a|
        ensures product[k] == a[k]
      {
        ConvolutionWithOne(f, a, k, |a|);
      }
    }
  }

  /** In a field, p * 1 == p. */
  lemma MulOne(p: PolynomialImmutable)
    requires Valid(p) && IsField(p.field)
    ensures Core.ValidCoefficients(p.field, One(p.field).coefficients)
    ensures Mul(p, One(p.field)) == Ok(p)
  {
    var f, one := p.field, One(p.field);
    OneValid(f);
    ProductWithOne(f, p.coefficients);
    assert Core.MultiplyResult(f, p.coefficients, one.field, one.coefficients) == Ok(p.coefficients);
    Core.NormalizedKeepsNormal(p.coefficients);
    assert FromCoefficients(f, p.coefficients) == p;
  }

  // ---------------------------------------------------------------------------------------------
  // Examples
  // ---------------------------------------------------------------------------------------------

  /** fromCoefficients([0, 0, 5, 3]) drops the leading zeros: degree 1, leading 5, equal to [5, 3]. */
  lemma LeadingZerosExample(f: Field)
    ensures FromCoefficients(f, [0, 0, 5, 3]) == FromCoefficients(f, [5, 3])
    ensures Degree(FromCoefficients(f, [0, 0, 5, 3])) == 1
    ensures LeadingCoefficient(FromCoefficients(f, [0, 0, 5, 3])) == 5
  {
    var padded := [0, 0, 5, 3];
    assert Core.Normalized(padded) == [5, 3] by {
      assert Core.NonzeroFrom(padded, 2) == 2;
      assert Core.NonzeroFrom(padded, 1) == 2;
      assert Core.LeadingZeros(padded) == 2;
    }
    Core.NormalizedKeepsNormal([5, 3]);
  }

  /** In GF(2^n) with n >= 3, (5x + 3) + (5x + 7) == 4: the leading terms cancel and the result is normalised. */
  lemma BinaryAddExample(f: Field)
    requires IsBinary(f) && Order(f) >= 8
    ensures Add(PolynomialImmutable(f, [5, 3]), PolynomialImmutable(f, [5, 7])) == Ok(PolynomialImmutable(f, [4]))
  {
    var a, b := [5, 3], [5, 7];
    assert Fields.Add(f, 5, 5) == 0 by {
      Bits.XorSelf(5);
    }
    assert Fields.Add(f, 3, 7) == 4 by {
      Bits.XorUnfold(3, 7);
      Bits.XorUnfold(1, 3);
      Bits.XorUnfold(0, 1);
      Bits.XorSelf(0);
    }
    var sum := Core.SumCoefficients(f, a, b);
    assert sum == [0, 4] by {
      assert Core.SumFrom(f, a, b, -1) == [];
      assert Core.SumFrom(f, a, b, 0) == [4];
      assert Core.SumFrom(f, a, b, 1) == [0, 4];
    }
    assert Core.Normalized(sum) == [4] by {
      assert Core.NonzeroFrom(sum, 1) == 1;
      assert Core.LeadingZeros(sum) == 1;
      assert sum[1..] == [4];
    }
  }
}
