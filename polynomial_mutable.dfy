/**
 * Polynomial: the mutable polynomial. The constructor normalises its list once; add, sub, mul,
 * scalarMul, div and mod then store the list computed by the shared logic as it is, without
 * normalising it again, and return the receiver itself so calls can be chained. The operand may
 * be the receiver itself, so the new state is stated in terms of the old state of both.
 */
module MutablePolynomials {
  import opened Wrappers
  import opened Fields
  import Bits
  import Core = PolynomialCore

  /**
   * The list setCoefficientAt(degree, value) builds before normalising: long enough to hold
   * x^degree (the old list with zeros in front when it is shorter), value at x^degree, and the
   * old coefficient at every other degree.
   */
  function Updated(s: seq<int>, degree: nat, value: int): seq<int>
  {
    var n := Core.Max(|s|, degree + 1);
    seq(n, i requires 0 <= i < n => if i == n - 1 - degree then value else Core.CoefficientAt(s, n - 1 - i))
  }

  /** The list setCoefficientAt(degree, value) leaves. */
  function WithCoefficient(s: seq<int>, degree: nat, value: int): seq<int>
  {
    Core.Normalized(Updated(s, degree, value))
  }

  /**
   * setCoefficientAt(degree, value) sets exactly one coefficient: x^degree now has value, every
   * other degree keeps its coefficient, and the list is normalised.
   */
  lemma WithCoefficientAt(s: seq<int>, degree: nat, value: int)
    ensures Core.IsNormalized(WithCoefficient(s, degree, value))
    ensures forall d ::
      Core.CoefficientAt(WithCoefficient(s, degree, value), d) == if d == degree then value else Core.CoefficientAt(s, d)
  {
    var u := Updated(s, degree, value);
    forall d
      ensures Core.CoefficientAt(Core.Normalized(u), d) == if d == degree then value else Core.CoefficientAt(s, d)
    {
      Core.NormalizedCoefficients(u, d);
      UpdatedAt(s, degree, value, d);
    }
  }

  /** Before normalising: value at x^degree, the old coefficient elsewhere. */
  lemma UpdatedAt(s: seq<int>, degree: nat, value: int, d: int)
    ensures Core.CoefficientAt(Updated(s, degree, value), d) == if d == degree then value else Core.CoefficientAt(s, d)
  {
    var n := Core.Max(|s|, degree + 1);
    var u := Updated(s, degree, value);
    if 0 <= d < n {
      assert Core.CoefficientAt(u, d) == u[n - 1 - d];
    }
  }

  /** A value of the field keeps the list inside the field. */
  lemma WithCoefficientValid(f: Field, s: seq<int>, degree: nat, value: int)
    requires Core.ValidCoefficients(f, s) && IsValidElement(f, value)
    ensures Core.ValidCoefficients(f, WithCoefficient(s, degree, value))
  {
    var u := Updated(s, degree, value);
    Core.AllCoefficientsValid(f, s);
    assert Core.ValidCoefficients(f, u);
    Core.NormalizedValid(f, u);
  }

  /**
   * The extension step of setCoefficientAt (zeros in front of the old list, up to degree + 1
   * entries) followed by the assignment at index |e| - 1 - degree builds Updated.
   */
  lemma ExtendThenSet(s: seq<int>, e: seq<int>, degree: nat, value: int)
    requires |e| == Core.Max(|s|, degree + 1)
    requires forall k :: 0 <= k < |e| ==> e[k] == if k < |e| - |s| then 0 else s[k - (|e| - |s|)]
    ensures e[|e| - 1 - degree := value] == Updated(s, degree, value)
  {
    var u := Updated(s, degree, value);
    var n := |e|;
    forall k | 0 <= k < n
      ensures e[n - 1 - degree := value][k] == u[k]
    {
      assert u[k] == if k == n - 1 - degree then value else Core.CoefficientAt(s, n - 1 - k);
    }
  }

  class Polynomial {
    const field: Field
    var coefficients: seq<int>

    /** Every coefficient is an element of the field: what the arithmetic needs of both operands. */
    predicate Valid()
      reads this
    {
      Core.ValidCoefficients(field, coefficients)
    }

    /** new self(field, coefficients): the list is normalised on the way in. */
    constructor (f: Field, c: seq<int>)
      ensures field == f && coefficients == Core.Normalized(c)
    {
      var normalized := Core.Normalize(c);
      field := f;
      coefficients := normalized;
    }

    /** fromCoefficients: a fresh polynomial holding the normalised list. */
    static method FromCoefficients(f: Field, c: seq<int>) returns (p: Polynomial)
      ensures fresh(p) && p.field == f && p.coefficients == Core.Normalized(c)
    {
      p := new Polynomial(f, c);
    }

    /** zero(): no coefficients. */
    static method Zero(f: Field) returns (p: Polynomial)
      ensures fresh(p) && p.field == f && p.coefficients == []
    {
      p := new Polynomial(f, []);
    }

    /** one(): the single coefficient 1. */
    static method One(f: Field) returns (p: Polynomial)
      ensures fresh(p) && p.field == f && p.coefficients == [1]
    {
      p := new Polynomial(f, [1]);
    }

    /** constant(v): the zero polynomial for 0, else the single coefficient v. */
    static method Constant(f: Field, v: int) returns (p: Polynomial)
      ensures fresh(p) && p.field == f
      ensures p.coefficients == if v == 0 then [] else [v]
    {
      p := new Polynomial(f, [v]);
      assert v == 0 ==> [v][1..] == [];
    }

    /** monomial(degree, c): a negative degree fails; otherwise c followed by degree zeros (nothing for c == 0). */
    static method Monomial(f: Field, degree: int, c: int) returns (r: Result<Polynomial>)
      ensures degree < 0 <==> r.Err?
      ensures r.Err? ==> r.error == InvalidArgument
      ensures r.Ok? ==> fresh(r.value) && r.value.field == f
      ensures r.Ok? ==> r.value.coefficients == if c == 0 then [] else [c] + Core.Zeros(degree)
    {
      if degree < 0 {
        return Err(InvalidArgument);
      }
      var coefficients := Core.Zeros(degree + 1);
      coefficients := coefficients[0 := c];
      assert coefficients == [c] + Core.Zeros(degree);
      var p := new Polynomial(f, coefficients);
      if c == 0 {
        assert Core.Normalized(coefficients) == [] by {
          assert forall i :: 0 <= i < |coefficients| ==> coefficients[i] == 0;
        }
      }
      return Ok(p);
    }

    /**
     * add: a different field instance fails and leaves the receiver as it was; otherwise the
     * receiver holds the field sum at every degree (not normalised again) and is returned.
     */
    method Add(other: Polynomial) returns (r: Result<Polynomial>)
      requires Valid() && other.Valid()
      modifies this
      ensures field != other.field ==> r == Err(FieldMismatch) && coefficients == old(coefficients)
      ensures field == other.field ==>
        r == Ok(this) && coefficients == Core.SumCoefficients(field, old(coefficients), old(other.coefficients))
      ensures Valid()
      ensures field == other.field ==> forall d ::
        Core.CoefficientAt(coefficients, d) == Fields.Add(field, Core.CoefficientAt(old(coefficients), d), Core.CoefficientAt(old(other.coefficients), d))
    {
      var sum := Core.ComputeAdd(field, coefficients, other.field, other.coefficients);
      if sum.Err? {
        return Err(sum.error);
      }
      Core.SumCoefficientsAt(field, coefficients, other.coefficients);
      coefficients := sum.value;
      return Ok(this);
    }

    /** sub: as add, with the field difference at every degree. */
    method Sub(other: Polynomial) returns (r: Result<Polynomial>)
      requires Valid() && other.Valid()
      modifies this
      ensures field != other.field ==> r == Err(FieldMismatch) && coefficients == old(coefficients)
      ensures field == other.field ==>
        r == Ok(this) && coefficients == Core.DifferenceCoefficients(field, old(coefficients), old(other.coefficients))
      ensures Valid()
      ensures field == other.field ==> forall d ::
        Core.CoefficientAt(coefficients, d) == Subtract(field, Core.CoefficientAt(old(coefficients), d), Core.CoefficientAt(old(other.coefficients), d))
    {
      var difference := Core.ComputeSubtract(field, coefficients, other.field, other.coefficients);
      if difference.Err? {
        return Err(difference.error);
      }
      Core.DifferenceCoefficientsAt(field, coefficients, other.coefficients);
      coefficients := difference.value;
      return Ok(this);
    }

    /**
     * mul: the field check, then the product list (empty when an operand is zero); over a field
     * with normalised nonzero operands its degree is the sum of the degrees.
     */
    method Mul(other: Polynomial) returns (r: Result<Polynomial>)
      requires Valid() && other.Valid()
      modifies this
      ensures field != other.field ==> r == Err(FieldMismatch) && coefficients == old(coefficients)
      ensures field == other.field ==>
        r == Ok(this) && coefficients == Core.ProductCoefficients(field, old(coefficients), old(other.coefficients))
      ensures Valid()
      ensures (field == other.field && IsField(field) && old(coefficients) != [] && old(other.coefficients) != []
        && Core.IsNormalized(old(coefficients)) && Core.IsNormalized(old(other.coefficients))) ==>
        Core.IsNormalized(coefficients) && Core.Degree(coefficients) == Core.Degree(old(coefficients)) + Core.Degree(old(other.coefficients))
    {
      var product := Core.ComputeMultiply(field, coefficients, other.field, other.coefficients);
      if product.Err? {
        return Err(product.error);
      }
      if coefficients != [] && other.coefficients != [] {
        Core.ProductLeading(field, coefficients, other.coefficients);
      }
      coefficients := product.value;
      return Ok(this);
    }

    /** scalarMul(c): every coefficient times c, the empty list for c == 0; no field check. */
    method ScalarMul(c: int) returns (r: Polynomial)
      requires Valid() && IsValidElement(field, c)
      modifies this
      ensures r == this && coefficients == Core.ScaledCoefficients(field, old(coefficients), c)
      ensures Valid()
      ensures c == 0 ==> coefficients == []
      ensures c != 0 ==> |coefficients| == |old(coefficients)|
      ensures c != 0 ==> forall i :: 0 <= i < |coefficients| ==> coefficients[i] == Multiply(field, old(coefficients)[i], c)
    {
      coefficients := Core.ComputeScalarMultiply(field, coefficients, c);
      r := this;
    }

    /**
     * divmod: the field check, then the zero-divisor check, then long division. The receiver
     * becomes the remainder, of lower degree than the divisor, and is returned second; the
     * quotient is a fresh, normalised polynomial. On failure nothing changes.
     */
    method Divmod(divisor: Polynomial) returns (r: Result<(Polynomial, Polynomial)>)
      requires IsField(field) && Valid() && divisor.Valid()
      modifies this
      ensures var qr := Core.DivisionResult(field, old(coefficients), divisor.field, old(divisor.coefficients));
        && (qr.Err? ==> r == Err(qr.error) && coefficients == old(coefficients))
        && (qr.Ok? ==> r.Ok? && fresh(r.value.0) && r.value.1 == this && coefficients == qr.value.1)
        && (qr.Ok? ==> r.value.0.field == field && r.value.0.coefficients == Core.Normalized(qr.value.0))
      ensures Valid()
      ensures r.Ok? ==> |coefficients| < |old(divisor.coefficients)|
    {
      var qr := Core.ComputeDivmod(field, coefficients, divisor.field, divisor.coefficients);
      if qr.Err? {
        return Err(qr.error);
      }
      var quotient := new Polynomial(field, qr.value.0);
      coefficients := qr.value.1;
      return Ok((quotient, this));
    }

    /** div: the receiver becomes the quotient list as the division loop leaves it. */
    method Div(divisor: Polynomial) returns (r: Result<Polynomial>)
      requires IsField(field) && Valid() && divisor.Valid()
      modifies this
      ensures var qr := Core.DivisionResult(field, old(coefficients), divisor.field, old(divisor.coefficients));
        && (qr.Err? ==> r == Err(qr.error) && coefficients == old(coefficients))
        && (qr.Ok? ==> r == Ok(this) && coefficients == qr.value.0)
      ensures Valid()
    {
      var qr := Core.ComputeDivmod(field, coefficients, divisor.field, divisor.coefficients);
      if qr.Err? {
        return Err(qr.error);
      }
      coefficients := qr.value.0;
      return Ok(this);
    }

    /** mod: the receiver becomes the remainder, of lower degree than the divisor. */
    method Mod(divisor: Polynomial) returns (r: Result<Polynomial>)
      requires IsField(field) && Valid() && divisor.Valid()
      modifies this
      ensures var qr := Core.DivisionResult(field, old(coefficients), divisor.field, old(divisor.coefficients));
        && (qr.Err? ==> r == Err(qr.error) && coefficients == old(coefficients))
        && (qr.Ok? ==> r == Ok(this) && coefficients == qr.value.1)
      ensures Valid()
      ensures r.Ok? ==> |coefficients| < |old(divisor.coefficients)|
    {
      var qr := Core.ComputeDivmod(field, coefficients, divisor.field, divisor.coefficients);
      if qr.Err? {
        return Err(qr.error);
      }
      coefficients := qr.value.1;
      return Ok(this);
    }

    /** setCoefficients: replace the whole list, normalised. */
    method SetCoefficients(c: seq<int>) returns (r: Polynomial)
      modifies this
      ensures r == this && coefficients == Core.Normalized(c)
    {
      coefficients := Core.Normalize(c);
      r := this;
    }

    /**
     * setCoefficientAt(degree, value): a negative degree fails and changes nothing; otherwise the
     * list is first extended with leading zeros up to that degree, then the entry is replaced and
     * the list normalised.
     */
    method SetCoefficientAt(degree: int, value: int) returns (r: Result<Polynomial>)
      modifies this
      ensures degree < 0 ==> r == Err(InvalidArgument) && coefficients == old(coefficients)
      ensures degree >= 0 ==> r == Ok(this) && coefficients == WithCoefficient(old(coefficients), degree, value)
    {
      if degree < 0 {
        return Err(InvalidArgument);
      }
      ghost var target := Updated(coefficients, degree, value);
      if degree > Core.Degree(coefficients) {
        coefficients := Extend(coefficients, degree);
      }
      ExtendThenSet(old(coefficients), coefficients, degree, value);
      coefficients := coefficients[|coefficients| - 1 - degree := value];
      assert coefficients == target;
      coefficients := Core.Normalize(coefficients);
      return Ok(this);
    }
  }

  /**
   * The extension loop of setCoefficientAt: degree + 1 zeros, then the old list copied to the
   * end from offset degree - max(deg, 0) on.
   */
  method Extend(s: seq<int>, degree: nat) returns (e: seq<int>)
    requires degree > Core.Degree(s)
    ensures |e| == Core.Max(|s|, degree + 1)
    ensures forall k :: 0 <= k < |e| ==> e[k] == if k < |e| - |s| then 0 else s[k - (|e| - |s|)]
  {
    e := Core.Zeros(degree + 1);
    var offset := degree - Core.Max(Core.Degree(s), 0);
    var i := 0;
    while i < |s|
      invariant 0 <= i <= |s| && |e| == degree + 1
      invariant s != [] ==> offset == degree + 1 - |s|
      invariant forall k :: 0 <= k < |e| ==> e[k] == if offset <= k < offset + i then s[k - offset] else 0
    {
      e := e[i + offset := s[i]];
      i := i + 1;
    }
  }

  /**
   * In GF(2^n), p.add(p) does not give the zero polynomial's empty list: it leaves one zero per
   * old coefficient, so the result reports the old degree although every coefficient is 0.
   */
  lemma AddSelfBinaryKeepsZeros(f: Field, s: seq<int>)
    requires IsBinary(f) && Core.ValidCoefficients(f, s)
    ensures Core.SumCoefficients(f, s, s) == Core.Zeros(|s|)
    ensures Core.Degree(Core.SumCoefficients(f, s, s)) == Core.Degree(s)
  {
    Core.SumCoefficientsAt(f, s, s);
    var sum := Core.SumCoefficients(f, s, s);
    forall i | 0 <= i < |s|
      ensures sum[i] == 0
    {
      Core.CoefficientAtValid(f, s, |s| - 1 - i);
      assert Core.CoefficientAt(sum, |s| - 1 - i) == sum[i];
      Bits.XorSelf(Core.CoefficientAt(s, |s| - 1 - i));
    }
  }

  /** Over GF(7): (x + 1) * (x + 2) == x^2 + 3x + 2. */
  lemma ProductExample(f: Field)
    requires f.kind == PrimeKind(7)
    ensures Core.ValidCoefficients(f, [1, 1]) && Core.ValidCoefficients(f, [1, 2])
    ensures Core.ProductCoefficients(f, [1, 1], [1, 2]) == [1, 3, 2]
  {
    var a, b := [1, 1], [1, 2];
    assert Multiply(f, 1, 1) == 1 && Multiply(f, 1, 2) == 2;
    assert Fields.Add(f, 0, 1) == 1 && Fields.Add(f, 0, 2) == 2 && Fields.Add(f, 2, 1) == 3;
    assert Core.Convolution(f, a, b, 0, 2) == 1 by {
      assert Core.Convolution(f, a, b, 0, 1) == 1;
    }
    assert Core.Convolution(f, a, b, 1, 2) == 3 by {
      assert Core.Convolution(f, a, b, 1, 1) == 2;
    }
    assert Core.Convolution(f, a, b, 2, 2) == 2 by {
      assert Core.Convolution(f, a, b, 2, 1) == 0;
    }
  }

  /** Over GF(7): 3 * (x^2 + 3x + 2) == 3x^2 + 2x + 6. */
  lemma ScaledExample(f: Field)
    requires f.kind == PrimeKind(7)
    ensures Core.ValidCoefficients(f, [1, 3, 2]) && IsValidElement(f, 3)
    ensures Core.ScaledCoefficients(f, [1, 3, 2], 3) == [3, 2, 6]
  {
    assert Multiply(f, 1, 3) == 3 && Multiply(f, 3, 3) == 2 && Multiply(f, 2, 3) == 6;
  }

  /**
   * The fluent chain (x + 1) * (x + 2) * 3 over GF(7): x^2 + 3x + 2 scaled by 3 is 3x^2 + 2x + 6,
   * held by the polynomial the chain started from.
   */
  method FluentChainExample(f: Field) returns (p: Polynomial)
    requires f.kind == PrimeKind(7)
    ensures p.field == f && p.coefficients == [3, 2, 6]
  {
    ProductExample(f);
    ScaledExample(f);
    Core.NormalizedKeepsNormal([1, 1]);
    Core.NormalizedKeepsNormal([1, 2]);
    p := Polynomial.FromCoefficients(f, [1, 1]);
    var q := Polynomial.FromCoefficients(f, [1, 2]);
    assert p.Valid() && q.Valid() && p.field == q.field;
    var product := p.Mul(q);
    assert p.coefficients == [1, 3, 2];
    var scaled := p.ScalarMul(3);
  }
}
