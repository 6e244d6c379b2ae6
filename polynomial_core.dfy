/**
 * The logic both polynomial classes share: a coefficient list over a field, highest degree
 * first ([a_n, ..., a_0]), and the computations on such lists. Every computation that loops in
 * the source is a method proved to return what a specification function describes; the
 * immutable polynomial and the arithmetic service use those functions.
 */
module PolynomialCore {
  import opened Wrappers
  import opened Fields

  /** Every coefficient is an element of f. */
  predicate ValidCoefficients(f: Field, s: seq<int>)
  {
    forall i :: 0 <= i < |s| ==> IsValidElement(f, s[i])
  }

  /** No leading zero: the form the constructor keeps. */
  predicate IsNormalized(s: seq<int>)
  {
    |s| == 0 || s[0] != 0
  }

  function Max(a: int, b: int): int
  {
    if a < b then b else a
  }

  /** array_fill(0, n, 0). */
  function Zeros(n: nat): (r: seq<int>)
    ensures |r| == n && forall i :: 0 <= i < n ==> r[i] == 0
  {
    seq(n, _ => 0)
  }

  // ---------------------------------------------------------------------------------------------
  // normalize and the read-only accessors
  // ---------------------------------------------------------------------------------------------

  /** The first index at or after k that holds a nonzero entry, or |s| if there is none. */
  function NonzeroFrom(s: seq<int>, k: nat): (n: nat)
    requires k <= |s|
    ensures k <= n <= |s| && (n < |s| ==> s[n] != 0)
    ensures forall i :: k <= i < n ==> s[i] == 0
    decreases |s| - k
  {
    if k == |s| || s[k] != 0 then k else NonzeroFrom(s, k + 1)
  }

  /** The number of zeros at the head of s. */
  function LeadingZeros(s: seq<int>): (n: nat)
    ensures n <= |s| && (n < |s| ==> s[n] != 0)
    ensures forall i :: 0 <= i < n ==> s[i] == 0
  {
    NonzeroFrom(s, 0)
  }

  /** normalize: the longest suffix without a leading zero; only zeros are dropped. */
  function Normalized(s: seq<int>): (r: seq<int>)
    ensures IsNormalized(r)
    ensures |r| <= |s| && forall i :: 0 <= i < |r| ==> r[i] == s[|s| - |r| + i]
    ensures forall i :: 0 <= i < |s| - |r| ==> s[i] == 0
  {
    var n := LeadingZeros(s);
    seq(|s| - n, i requires 0 <= i < |s| - n => s[n + i])
  }

  /** normalize, the array_shift loop of the source. */
  method Normalize(s: seq<int>) returns (r: seq<int>)
    ensures r == Normalized(s)
  {
    r := s;
    ghost var shifted := 0;
    while r != [] && r[0] == 0
      invariant shifted <= |s| && r == s[shifted..]
      invariant NonzeroFrom(s, shifted) == LeadingZeros(s)
      decreases |r|
    {
      r := r[1..];
      shifted := shifted + 1;
    }
  }

  /** A list without a leading zero is already normal: normalize is idempotent. */
  lemma NormalizedKeepsNormal(s: seq<int>)
    requires IsNormalized(s)
    ensures Normalized(s) == s
  {
    assert NonzeroFrom(s, 0) == 0;
  }

  /** Normalized is the only suffix without a leading zero that drops only zeros. */
  lemma NormalizedUnique(s: seq<int>, r: seq<int>)
    requires |r| <= |s| && IsNormalized(r)
    requires forall i :: 0 <= i < |r| ==> r[i] == s[|s| - |r| + i]
    requires forall i :: 0 <= i < |s| - |r| ==> s[i] == 0
    ensures Normalized(s) == r
  {
    var n, m := LeadingZeros(s), |s| - |r|;
    if m < n {
      assert false;
    } else if n < m {
      assert false;
    }
  }

  /** A leading zero is dropped: [0] + t normalises as t does. */
  lemma NormalizedDropsZero(t: seq<int>)
    ensures Normalized([0] + t) == Normalized(t)
  {
    var s, r := [0] + t, Normalized(t);
    forall i | 0 <= i < |r|
      ensures r[i] == s[|s| - |r| + i]
    {
      assert s[|s| - |r| + i] == t[|t| - |r| + i];
    }
    forall i | 0 <= i < |s| - |r|
      ensures s[i] == 0
    {
      if i > 0 {
        assert s[i] == t[i - 1];
      }
    }
    NormalizedUnique(s, r);
  }

  /** degree(): -1 for the empty list, else the index of the constant term. */
  function Degree(s: seq<int>): int
  {
    if |s| == 0 then -1 else |s| - 1
  }

  function IsZero(s: seq<int>): bool
  {
    |s| == 0
  }

  function LeadingCoefficient(s: seq<int>): int
  {
    if IsZero(s) then 0 else s[0]
  }

  /** coefficientAt(d): the coefficient of x^d, 0 outside 0..degree. */
  function CoefficientAt(s: seq<int>, d: int): int
  {
    if d < 0 || d > Degree(s) then 0 else s[Degree(s) - d]
  }

  /** equals: the coefficient lists are identical; the fields are not compared. */
  function Equals(s: seq<int>, t: seq<int>): bool
  {
    s == t
  }

  /**
   * The accessors agree: the degree is -1 exactly for the zero polynomial, a nonzero normalised
   * polynomial has its leading coefficient, nonzero, at its degree, and nothing above it.
   */
  lemma AccessorsAgree(s: seq<int>)
    ensures Degree(s) == -1 <==> IsZero(s)
    ensures IsZero(s) ==> LeadingCoefficient(s) == 0
    ensures !IsZero(s) ==> CoefficientAt(s, Degree(s)) == LeadingCoefficient(s)
    ensures IsNormalized(s) && !IsZero(s) ==> LeadingCoefficient(s) != 0
    ensures forall d :: d > Degree(s) ==> CoefficientAt(s, d) == 0
  {
  }

  /** Normalising does not change any coefficient: it only drops the zeros above the degree. */
  lemma {:induction false} NormalizedCoefficients(s: seq<int>, d: int)
    ensures CoefficientAt(Normalized(s), d) == CoefficientAt(s, d)
  {
    var r := Normalized(s);
    var k := |s| - |r|;
    if 0 <= d < |r| {
      assert r[|r| - 1 - d] == s[k + (|r| - 1 - d)];
      assert CoefficientAt(r, d) == r[|r| - 1 - d];
      assert CoefficientAt(s, d) == s[|s| - 1 - d];
    } else if 0 <= d < |s| {
      assert s[|s| - 1 - d] == 0;
      assert CoefficientAt(s, d) == s[|s| - 1 - d];
    }
  }

  /** Two normalised lists with the same coefficient at every degree are equal: equals is extensional. */
  lemma CoefficientsDetermine(s: seq<int>, t: seq<int>)
    requires IsNormalized(s) && IsNormalized(t)
    requires forall d :: CoefficientAt(s, d) == CoefficientAt(t, d)
    ensures Equals(s, t)
  {
    AccessorsAgree(s);
    AccessorsAgree(t);
    assert |s| == |t|;
    forall i | 0 <= i < |s|
      ensures s[i] == t[i]
    {
      assert CoefficientAt(s, |s| - 1 - i) == CoefficientAt(t, |t| - 1 - i);
    }
  }

  lemma CoefficientAtValid(f: Field, s: seq<int>, d: int)
    requires ValidCoefficients(f, s)
    ensures IsValidElement(f, CoefficientAt(s, d))
  {
  }

  lemma NormalizedValid(f: Field, s: seq<int>)
    requires ValidCoefficients(f, s)
    ensures ValidCoefficients(f, Normalized(s))
  {
    var r := Normalized(s);
    forall i | 0 <= i < |r|
      ensures IsValidElement(f, r[i])
    {
      assert r[i] == s[|s| - |r| + i];
    }
  }

  // ---------------------------------------------------------------------------------------------
  // evaluate
  // ---------------------------------------------------------------------------------------------

  /** Horner's rule over the field, folding the coefficients from the highest degree down. */
  function Horner(f: Field, s: seq<int>, x: int): (r: int)
    requires ValidCoefficients(f, s) && IsValidElement(f, x)
    ensures IsValidElement(f, r)
    decreases |s|
  {
    if |s| == 0 then 0
    else Add(f, Multiply(f, Horner(f, s[..|s| - 1], x), x), s[|s| - 1])
  }

  /** evaluate(x): 0 for the zero polynomial, else the Horner loop of the source. */
  method Evaluate(f: Field, s: seq<int>, x: int) returns (r: int)
    requires ValidCoefficients(f, s) && IsValidElement(f, x)
    ensures r == Horner(f, s, x)
  {
    if IsZero(s) {
      return 0;
    }
    r := 0;
    var i := 0;
    while i < |s|
      invariant 0 <= i <= |s|
      invariant r == Horner(f, s[..i], x)
    {
      assert s[..i + 1][..i] == s[..i];
      r := Add(f, Multiply(f, r, x), s[i]);
      i := i + 1;
    }
    assert s[..|s|] == s;
  }

  /** The value at 0 is the constant term, and the zero polynomial is 0 everywhere. */
  lemma HornerAtZero(f: Field, s: seq<int>, x: int)
    requires ValidCoefficients(f, s) && IsValidElement(f, x)
    ensures Horner(f, s, 0) == CoefficientAt(s, 0)
    ensures s == [] ==> Horner(f, s, x) == 0
  {
    if s != [] {
      AddLaws(f, s[|s| - 1], 0);
    }
  }

  // ---------------------------------------------------------------------------------------------
  // computeAdd and computeSubtract
  // ---------------------------------------------------------------------------------------------

  /** Every coefficient of a valid list, including the zeros outside its range, is an element. */
  lemma AllCoefficientsValid(f: Field, s: seq<int>)
    requires ValidCoefficients(f, s)
    ensures forall d :: IsValidElement(f, CoefficientAt(s, d))
  {
  }

  /** The entries computeAdd appends for the degrees deg, deg - 1, ..., 0. */
  function SumFrom(f: Field, a: seq<int>, b: seq<int>, deg: int): (r: seq<int>)
    requires ValidCoefficients(f, a) && ValidCoefficients(f, b)
    ensures |r| == if deg < 0 then 0 else deg + 1
    decreases deg
  {
    if deg < 0 then []
    else
      AllCoefficientsValid(f, a);
      AllCoefficientsValid(f, b);
      [Add(f, CoefficientAt(a, deg), CoefficientAt(b, deg))] + SumFrom(f, a, b, deg - 1)
  }

  /** The entries computeSubtract appends for the degrees deg, deg - 1, ..., 0. */
  function DifferenceFrom(f: Field, a: seq<int>, b: seq<int>, deg: int): (r: seq<int>)
    requires ValidCoefficients(f, a) && ValidCoefficients(f, b)
    ensures |r| == if deg < 0 then 0 else deg + 1
    decreases deg
  {
    if deg < 0 then []
    else
      AllCoefficientsValid(f, a);
      AllCoefficientsValid(f, b);
      [Subtract(f, CoefficientAt(a, deg), CoefficientAt(b, deg))] + DifferenceFrom(f, a, b, deg - 1)
  }

  /** computeAdd's list: max(deg a, deg b) + 1 entries. */
  function SumCoefficients(f: Field, a: seq<int>, b: seq<int>): (r: seq<int>)
    requires ValidCoefficients(f, a) && ValidCoefficients(f, b)
  {
    SumFrom(f, a, b, Max(Degree(a), Degree(b)))
  }

  /** computeSubtract's list: max(deg a, deg b) + 1 entries. */
  function DifferenceCoefficients(f: Field, a: seq<int>, b: seq<int>): (r: seq<int>)
    requires ValidCoefficients(f, a) && ValidCoefficients(f, b)
  {
    DifferenceFrom(f, a, b, Max(Degree(a), Degree(b)))
  }

  /** Entry i of SumFrom(.., deg) is the sum at degree deg - i. */
  lemma {:induction false} SumFromEntries(f: Field, a: seq<int>, b: seq<int>, deg: int)
    requires ValidCoefficients(f, a) && ValidCoefficients(f, b)
    ensures forall i :: 0 <= i < |SumFrom(f, a, b, deg)| ==>
        SumFrom(f, a, b, deg)[i] == Add(f, CoefficientAt(a, deg - i), CoefficientAt(b, deg - i))
    decreases deg
  {
    AllCoefficientsValid(f, a);
    AllCoefficientsValid(f, b);
    if deg >= 0 {
      SumFromEntries(f, a, b, deg - 1);
    }
  }

  /** Entry i of DifferenceFrom(.., deg) is the difference at degree deg - i. */
  lemma {:induction false} DifferenceFromEntries(f: Field, a: seq<int>, b: seq<int>, deg: int)
    requires ValidCoefficients(f, a) && ValidCoefficients(f, b)
    ensures forall i :: 0 <= i < |DifferenceFrom(f, a, b, deg)| ==>
        DifferenceFrom(f, a, b, deg)[i] == Subtract(f, CoefficientAt(a, deg - i), CoefficientAt(b, deg - i))
    decreases deg
  {
    AllCoefficientsValid(f, a);
    AllCoefficientsValid(f, b);
    if deg >= 0 {
      DifferenceFromEntries(f, a, b, deg - 1);
    }
  }

  /**
   * computeAdd's promise: max(deg a, deg b) + 1 entries, the entry for degree d being the field
   * sum of both coefficients at d, at every degree d.
   */
  lemma SumCoefficientsAt(f: Field, a: seq<int>, b: seq<int>)
    requires ValidCoefficients(f, a) && ValidCoefficients(f, b)
    ensures |SumCoefficients(f, a, b)| == Max(|a|, |b|) && ValidCoefficients(f, SumCoefficients(f, a, b))
    ensures forall d :: CoefficientAt(SumCoefficients(f, a, b), d) == Add(f, CoefficientAt(a, d), CoefficientAt(b, d))
  {
    AllCoefficientsValid(f, a);
    AllCoefficientsValid(f, b);
    var deg := Max(Degree(a), Degree(b));
    var r := SumCoefficients(f, a, b);
    SumFromEntries(f, a, b, deg);
    AddLaws(f, 0, 0);
    forall d
      ensures CoefficientAt(r, d) == Add(f, CoefficientAt(a, d), CoefficientAt(b, d))
    {
      if 0 <= d <= deg {
        assert r[deg - d] == CoefficientAt(r, d);
      }
    }
  }

  /** computeSubtract's promise: the same shape, with the field difference at every degree. */
  lemma DifferenceCoefficientsAt(f: Field, a: seq<int>, b: seq<int>)
    requires ValidCoefficients(f, a) && ValidCoefficients(f, b)
    ensures |DifferenceCoefficients(f, a, b)| == Max(|a|, |b|) && ValidCoefficients(f, DifferenceCoefficients(f, a, b))
    ensures forall d :: CoefficientAt(DifferenceCoefficients(f, a, b), d) == Subtract(f, CoefficientAt(a, d), CoefficientAt(b, d))
  {
    AllCoefficientsValid(f, a);
    AllCoefficientsValid(f, b);
    var deg := Max(Degree(a), Degree(b));
    var r := DifferenceCoefficients(f, a, b);
    DifferenceFromEntries(f, a, b, deg);
    SubtractZero(f, 0, 0);
    forall d
      ensures CoefficientAt(r, d) == Subtract(f, CoefficientAt(a, d), CoefficientAt(b, d))
    {
      if 0 <= d <= deg {
        assert r[deg - d] == CoefficientAt(r, d);
      }
    }
  }

  /** computeAdd: operands over two different field instances fail; otherwise the sums, unnormalised. */
  function AddResult(f: Field, a: seq<int>, g: Field, b: seq<int>): (r: Result<seq<int>>)
    requires ValidCoefficients(f, a) && ValidCoefficients(g, b)
    ensures r.Err? <==> f != g
    ensures r.Err? ==> r.error == FieldMismatch
  {
    if f != g then Err(FieldMismatch) else Ok(SumCoefficients(f, a, b))
  }

  /** computeSubtract: the same field check, then the differences, unnormalised. */
  function SubtractResult(f: Field, a: seq<int>, g: Field, b: seq<int>): (r: Result<seq<int>>)
    requires ValidCoefficients(f, a) && ValidCoefficients(g, b)
    ensures r.Err? <==> f != g
    ensures r.Err? ==> r.error == FieldMismatch
  {
    if f != g then Err(FieldMismatch) else Ok(DifferenceCoefficients(f, a, b))
  }

  /** computeAdd, the descending-degree loop of the source. */
  method ComputeAdd(f: Field, a: seq<int>, g: Field, b: seq<int>) returns (r: Result<seq<int>>)
    requires ValidCoefficients(f, a) && ValidCoefficients(g, b)
    ensures r == AddResult(f, a, g, b)
  {
    if f != g {
      return Err(FieldMismatch);
    }
    var maxDeg := Max(Degree(a), Degree(b));
    var result: seq<int> := [];
    var deg := maxDeg;
    AllCoefficientsValid(f, a);
    AllCoefficientsValid(f, b);
    while deg >= 0
      invariant deg >= -1
      invariant result + SumFrom(f, a, b, deg) == SumFrom(f, a, b, maxDeg)
    {
      result := result + [Add(f, CoefficientAt(a, deg), CoefficientAt(b, deg))];
      deg := deg - 1;
    }
    assert result + SumFrom(f, a, b, deg) == result;
    return Ok(result);
  }

  /** computeSubtract, the same loop with the field difference. */
  method ComputeSubtract(f: Field, a: seq<int>, g: Field, b: seq<int>) returns (r: Result<seq<int>>)
    requires ValidCoefficients(f, a) && ValidCoefficients(g, b)
    ensures r == SubtractResult(f, a, g, b)
  {
    if f != g {
      return Err(FieldMismatch);
    }
    var maxDeg := Max(Degree(a), Degree(b));
    var result: seq<int> := [];
    var deg := maxDeg;
    AllCoefficientsValid(f, a);
    AllCoefficientsValid(f, b);
    while deg >= 0
      invariant deg >= -1
      invariant result + DifferenceFrom(f, a, b, deg) == DifferenceFrom(f, a, b, maxDeg)
    {
      result := result + [Subtract(f, CoefficientAt(a, deg), CoefficientAt(b, deg))];
      deg := deg - 1;
    }
    assert result + DifferenceFrom(f, a, b, deg) == result;
    return Ok(result);
  }

  // ---------------------------------------------------------------------------------------------
  // computeMultiply
  // ---------------------------------------------------------------------------------------------

  /**
   * Entry k of the product after the rows i < m of the source's double loop: the field sum,
   * from 0 and in increasing i, of a[i] * b[k - i] over the i < m for which b[k - i] exists.
   */
  function Convolution(f: Field, a: seq<int>, b: seq<int>, k: int, m: nat): (r: int)
    requires m <= |a| && ValidCoefficients(f, a) && ValidCoefficients(f, b)
    ensures IsValidElement(f, r)
  {
    if m == 0 then 0
    else
      var acc := Convolution(f, a, b, k, m - 1);
      if 0 <= k - (m - 1) < |b| then Add(f, acc, Multiply(f, a[m - 1], b[k - (m - 1)])) else acc
  }

  /** computeMultiply's list: [] for a zero operand, else deg a + deg b + 1 convolution entries. */
  function ProductCoefficients(f: Field, a: seq<int>, b: seq<int>): (r: seq<int>)
    requires ValidCoefficients(f, a) && ValidCoefficients(f, b)
    ensures ValidCoefficients(f, r)
    ensures a == [] || b == [] ==> r == []
    ensures a != [] && b != [] ==> |r| == |a| + |b| - 1
  {
    if a == [] || b == [] then []
    else seq(|a| + |b| - 1, k requires 0 <= k < |a| + |b| - 1 => Convolution(f, a, b, k, |a|))
  }

  /** computeMultiply: the field check, then the product list. */
  function MultiplyResult(f: Field, a: seq<int>, g: Field, b: seq<int>): (r: Result<seq<int>>)
    requires ValidCoefficients(f, a) && ValidCoefficients(g, b)
    ensures r.Err? <==> f != g
    ensures r.Err? ==> r.error == FieldMismatch
  {
    if f != g then Err(FieldMismatch) else Ok(ProductCoefficients(f, a, b))
  }

  /** Entry k of the product once the double loop has done the rows before i and the columns before j of row i. */
  function RowState(f: Field, a: seq<int>, b: seq<int>, i: nat, j: nat, k: int): int
    requires i < |a| && ValidCoefficients(f, a) && ValidCoefficients(f, b)
  {
    Convolution(f, a, b, k, if i <= k < i + j then i + 1 else i)
  }

  /** One inner iteration: entry i + j gains a[i] * b[j], which moves it into the next row's state. */
  lemma RowStep(f: Field, a: seq<int>, b: seq<int>, result: seq<int>, i: nat, j: nat)
    requires i < |a| && j < |b| && ValidCoefficients(f, a) && ValidCoefficients(f, b)
    requires |result| == |a| + |b| - 1
    requires forall k :: 0 <= k < |result| ==> result[k] == RowState(f, a, b, i, j, k)
    ensures IsValidElement(f, result[i + j])
    ensures var next := result[i + j := Add(f, result[i + j], Multiply(f, a[i], b[j]))];
      forall k :: 0 <= k < |next| ==> next[k] == RowState(f, a, b, i, j + 1, k)
  {
    assert result[i + j] == Convolution(f, a, b, i + j, i);
  }

  /** After a full row i, every entry is in the state of the rows before i + 1. */
  lemma RowDone(f: Field, a: seq<int>, b: seq<int>, result: seq<int>, i: nat)
    requires i < |a| && ValidCoefficients(f, a) && ValidCoefficients(f, b)
    requires forall k :: 0 <= k < |result| ==> result[k] == RowState(f, a, b, i, |b|, k)
    ensures forall k :: 0 <= k < |result| ==> result[k] == Convolution(f, a, b, k, i + 1)
  {
  }

  /** computeMultiply, the double loop of the source, updating result[i + j] in place. */
  method ComputeMultiply(f: Field, a: seq<int>, g: Field, b: seq<int>) returns (r: Result<seq<int>>)
    requires ValidCoefficients(f, a) && ValidCoefficients(g, b)
    ensures r == MultiplyResult(f, a, g, b)
  {
    if f != g {
      return Err(FieldMismatch);
    }
    if IsZero(a) || IsZero(b) {
      return Ok([]);
    }
    var resultDegree := Degree(a) + Degree(b);
    var result := Zeros(resultDegree + 1);
    var i := 0;
    while i <= Degree(a)
      invariant 0 <= i <= |a| && |result| == |a| + |b| - 1
      invariant forall k :: 0 <= k < |result| ==> result[k] == Convolution(f, a, b, k, i)
    {
      var j := 0;
      while j <= Degree(b)
        invariant 0 <= j <= |b| && |result| == |a| + |b| - 1
        invariant forall k :: 0 <= k < |result| ==> result[k] == RowState(f, a, b, i, j, k)
      {
        RowStep(f, a, b, result, i, j);
        var product := Multiply(f, CoefficientAt(a, Degree(a) - i), CoefficientAt(b, Degree(b) - j));
        result := result[i + j := Add(f, result[i + j], product)];
        j := j + 1;
      }
      RowDone(f, a, b, result, i);
      i := i + 1;
    }
    assert result == ProductCoefficients(f, a, b);
    return Ok(result);
  }

  /** The first entry of a product is the product of the leading coefficients. */
  lemma {:induction false} ConvolutionFirst(f: Field, a: seq<int>, b: seq<int>, m: nat)
    requires 1 <= m <= |a| && |b| >= 1 && ValidCoefficients(f, a) && ValidCoefficients(f, b)
    ensures Convolution(f, a, b, 0, m) == Multiply(f, a[0], b[0])
  {
    if m == 1 {
      AddLaws(f, Multiply(f, a[0], b[0]), 0);
    } else {
      ConvolutionFirst(f, a, b, m - 1);
    }
  }

  /** The product's leading entry is a[0] * b[0]; in a field a product of normalised lists is normalised. */
  lemma ProductLeading(f: Field, a: seq<int>, b: seq<int>)
    requires ValidCoefficients(f, a) && ValidCoefficients(f, b) && a != [] && b != []
    ensures ProductCoefficients(f, a, b)[0] == Multiply(f, a[0], b[0])
    ensures IsField(f) && IsNormalized(a) && IsNormalized(b) ==>
      IsNormalized(ProductCoefficients(f, a, b)) && Degree(ProductCoefficients(f, a, b)) == Degree(a) + Degree(b)
  {
    ConvolutionFirst(f, a, b, |a|);
    if IsField(f) {
      NoZeroDivisors(f, a[0], b[0]);
    }
  }

  // ---------------------------------------------------------------------------------------------
  // computeScalarMultiply
  // ---------------------------------------------------------------------------------------------

  /** computeScalarMultiply's list: [] for the scalar 0, else every coefficient times the scalar. */
  function ScaledCoefficients(f: Field, s: seq<int>, c: int): (r: seq<int>)
    requires ValidCoefficients(f, s) && IsValidElement(f, c)
    ensures ValidCoefficients(f, r)
  {
    if c == 0 then [] else seq(|s|, i requires 0 <= i < |s| => Multiply(f, s[i], c))
  }

  /** computeScalarMultiply, the foreach loop of the source. */
  method ComputeScalarMultiply(f: Field, s: seq<int>, c: int) returns (r: seq<int>)
    requires ValidCoefficients(f, s) && IsValidElement(f, c)
    ensures r == ScaledCoefficients(f, s, c)
  {
    if c == 0 {
      return [];
    }
    r := [];
    var i := 0;
    while i < |s|
      invariant 0 <= i <= |s|
      invariant r == ScaledCoefficients(f, s, c)[..i]
    {
      r := r + [Multiply(f, s[i], c)];
      i := i + 1;
    }
  }

  /**
   * In a field, a nonzero scalar keeps every coefficient's zeroness, hence the degree and the
   * normal form, and puts leading * c at the top; the scalar 1 changes nothing.
   */
  lemma ScaledLaws(f: Field, s: seq<int>, c: int)
    requires IsField(f) && ValidCoefficients(f, s) && IsValidElement(f, c)
    ensures c != 0 ==> |ScaledCoefficients(f, s, c)| == |s|
    ensures c != 0 && s != [] ==> ScaledCoefficients(f, s, c)[0] == Multiply(f, s[0], c)
    ensures c != 0 && IsNormalized(s) ==> IsNormalized(ScaledCoefficients(f, s, c))
    ensures c == 1 ==> ScaledCoefficients(f, s, c) == s
  {
    if c != 0 && s != [] {
      NoZeroDivisors(f, s[0], c);
    }
    if c == 1 {
      forall i | 0 <= i < |s|
        ensures Multiply(f, s[i], 1) == s[i]
      {
        MultiplyOne(f, s[i]);
      }
    }
  }

  /** A coefficient times a scalar, at every degree including those outside the list. */
  lemma ScaledCoefficientAt(f: Field, s: seq<int>, c: int, d: int)
    requires ValidCoefficients(f, s) && IsValidElement(f, c)
    ensures CoefficientAt(ScaledCoefficients(f, s, c), d) == Multiply(f, CoefficientAt(s, d), c)
  {
    var r := ScaledCoefficients(f, s, c);
    CoefficientAtValid(f, s, d);
    if c == 0 {
      assert r == [];
    } else if 0 <= d < |s| {
      assert CoefficientAt(r, d) == r[|s| - 1 - d];
    } else {
      assert CoefficientAt(s, d) == 0;
    }
  }

  // ---------------------------------------------------------------------------------------------
  // computeDivmod
  // ---------------------------------------------------------------------------------------------

  /** One pass of the division loop before normalising: rem[i] := rem[i] - c * d[i] for i < |d|. */
  function SubtractMultiple(f: Field, rem: seq<int>, c: int, d: seq<int>): (r: seq<int>)
    requires |d| <= |rem| && ValidCoefficients(f, rem) && ValidCoefficients(f, d) && IsValidElement(f, c)
    ensures |r| == |rem| && ValidCoefficients(f, r)
  {
    seq(|rem|, i requires 0 <= i < |rem| => if i < |d| then Subtract(f, rem[i], Multiply(f, c, d[i])) else rem[i])
  }

  /**
   * In a field, with c the quotient of the leading coefficients, the pass cancels the leading
   * coefficient, so normalising drops at least one entry: the loop terminates.
   */
  lemma EliminationShrinks(f: Field, rem: seq<int>, d: seq<int>)
    requires IsField(f) && 1 <= |d| <= |rem| && d[0] != 0
    requires ValidCoefficients(f, rem) && ValidCoefficients(f, d)
    ensures Divide(f, rem[0], d[0]).Ok?
    ensures |Normalized(SubtractMultiple(f, rem, Divide(f, rem[0], d[0]).value, d))| < |rem|
  {
    DivideThenMultiply(f, rem[0], d[0]);
    var c := Divide(f, rem[0], d[0]).value;
    var s := SubtractMultiple(f, rem, c, d);
    SubtractZero(f, rem[0], Multiply(f, c, d[0]));
    assert s[0] == 0;
    assert LeadingZeros(s) != 0;
  }

  /** What holds of the division loop's variables at the head of every iteration. */
  predicate LoopState(f: Field, rem: seq<int>, quot: seq<int>, d: seq<int>, size: nat)
  {
    IsField(f) && ValidCoefficients(f, rem) && ValidCoefficients(f, quot) && ValidCoefficients(f, d)
    && |d| >= 1 && |quot| == size && |rem| <= size + |d| - 1
  }

  /**
   * The while loop of computeDivmod from a remainder and a partial quotient: while the remainder
   * is nonzero and not below the divisor's degree, divide the leading coefficients (failing when
   * the divisor's leading coefficient is 0), record the quotient coefficient at the degree
   * difference, subtract and normalise. The field assumption is what makes the loop end.
   */
  function DivisionLoop(f: Field, rem: seq<int>, quot: seq<int>, d: seq<int>, size: nat): (r: Result<(seq<int>, seq<int>)>)
    requires LoopState(f, rem, quot, d, size)
    ensures r.Err? ==> r.error == DivisionByZero && d[0] == 0
    ensures d[0] != 0 ==> r.Ok?
    ensures r.Ok? ==> |r.value.0| == size && ValidCoefficients(f, r.value.0)
    ensures r.Ok? ==> |r.value.1| < |d| && ValidCoefficients(f, r.value.1)
    ensures r.Ok? && IsNormalized(rem) ==> IsNormalized(r.value.1)
    decreases |rem|
  {
    if rem == [] || Degree(rem) < Degree(d) then Ok((quot, rem))
    else
      var c :- Divide(f, rem[0], d[0]);
      var degreeDiff := Degree(rem) - Degree(d);
      var quot' := quot[size - 1 - degreeDiff := c];
      EliminationShrinks(f, rem, d);
      var rem' := Normalized(SubtractMultiple(f, rem, c, d));
      NormalizedValid(f, SubtractMultiple(f, rem, c, d));
      DivisionLoop(f, rem', quot', d, size)
  }

  /** a == quot * d + rem, compared degree by degree: the identity the division loop keeps. */
  ghost predicate DivisionIdentity(f: Field, a: seq<int>, quot: seq<int>, d: seq<int>, rem: seq<int>)
    requires ValidCoefficients(f, a) && ValidCoefficients(f, quot) && ValidCoefficients(f, d) && ValidCoefficients(f, rem)
  {
    AllCoefficientsValid(f, rem);
    AllCoefficientsValid(f, ProductCoefficients(f, quot, d));
    forall k :: CoefficientAt(a, k) == Add(f, CoefficientAt(ProductCoefficients(f, quot, d), k), CoefficientAt(rem, k))
  }

  /** The quotient entries the loop has still to write, at the degrees up to deg rem - deg d, are 0. */
  ghost predicate QuotientOpen(quot: seq<int>, rem: seq<int>, d: seq<int>)
  {
    forall j :: j <= Degree(rem) - Degree(d) ==> CoefficientAt(quot, j) == 0
  }

  /**
   * Overwriting a zero entry a[idx] with c adds c * b[k - idx] to a convolution whose rows reach
   * past idx, and changes nothing in one that stops before it.
   */
  lemma {:induction false} ConvolutionUpdate(f: Field, a: seq<int>, b: seq<int>, k: int, m: nat, idx: nat, c: int)
    requires m <= |a| && idx < |a| && a[idx] == 0
    requires ValidCoefficients(f, a) && ValidCoefficients(f, b) && IsValidElement(f, c)
    ensures ValidCoefficients(f, a[idx := c])
    ensures Convolution(f, a[idx := c], b, k, m) ==
      if m <= idx then Convolution(f, a, b, k, m)
      else Add(f, Convolution(f, a, b, k, m), if 0 <= k - idx < |b| then Multiply(f, c, b[k - idx]) else 0)
    decreases m
  {
    var a' := a[idx := c];
    assert ValidCoefficients(f, a');
    if m > 0 {
      ConvolutionUpdate(f, a, b, k, m - 1, idx, c);
      var t := if 0 <= k - idx < |b| then Multiply(f, c, b[k - idx]) else 0;
      var x := Convolution(f, a, b, k, m - 1);
      if m - 1 == idx {
        AddLaws(f, x, 0);
        AddLaws(f, Convolution(f, a, b, k, m), 0);
      } else if m - 1 > idx && 0 <= k - (m - 1) < |b| {
        var u := Multiply(f, a[m - 1], b[k - (m - 1)]);
        AddAssociates(f, x, t, u);
        AddLaws(f, t, u);
        AddAssociates(f, x, u, t);
      }
    }
  }

  /**
   * Setting a zero quotient entry, the one of degree e, to c adds c * d_(k - e) to the product's
   * coefficient of every degree k.
   */
  lemma ProductUpdate(f: Field, q: seq<int>, d: seq<int>, idx: nat, c: int, k: int)
    requires idx < |q| && q[idx] == 0 && d != []
    requires ValidCoefficients(f, q) && ValidCoefficients(f, d) && IsValidElement(f, c)
    ensures ValidCoefficients(f, q[idx := c])
    ensures IsValidElement(f, CoefficientAt(d, k - (|q| - 1 - idx)))
    ensures IsValidElement(f, CoefficientAt(ProductCoefficients(f, q, d), k))
    ensures CoefficientAt(ProductCoefficients(f, q[idx := c], d), k) ==
      Add(f, CoefficientAt(ProductCoefficients(f, q, d), k), Multiply(f, c, CoefficientAt(d, k - (|q| - 1 - idx))))
  {
    var q' := q[idx := c];
    assert ValidCoefficients(f, q');
    AllCoefficientsValid(f, d);
    AllCoefficientsValid(f, ProductCoefficients(f, q, d));
    var n := |q| + |d| - 1;
    if 0 <= k < n {
      var j := n - 1 - k;
      ConvolutionUpdate(f, q, d, j, |q|, idx, c);
      assert CoefficientAt(ProductCoefficients(f, q', d), k) == Convolution(f, q', d, j, |q|);
      assert CoefficientAt(ProductCoefficients(f, q, d), k) == Convolution(f, q, d, j, |q|);
      var x := Convolution(f, q, d, j, |q|);
      if !(0 <= j - idx < |d|) {
        AddLaws(f, x, 0);
      }
    } else {
      AddLaws(f, 0, 0);
    }
  }

  /** The pass of the loop takes c * d_(k - e) off the remainder's coefficient of every degree k, e being deg rem - deg d. */
  lemma SubtractMultipleAt(f: Field, rem: seq<int>, c: int, d: seq<int>, k: int)
    requires |d| <= |rem| && ValidCoefficients(f, rem) && ValidCoefficients(f, d) && IsValidElement(f, c)
    ensures IsValidElement(f, CoefficientAt(d, k - (|rem| - |d|)))
    ensures CoefficientAt(SubtractMultiple(f, rem, c, d), k) ==
      Subtract(f, CoefficientAt(rem, k), Multiply(f, c, CoefficientAt(d, k - (|rem| - |d|))))
  {
    AllCoefficientsValid(f, rem);
    AllCoefficientsValid(f, d);
    SubtractLaws(f, CoefficientAt(rem, k), 0);
    var s := SubtractMultiple(f, rem, c, d);
    if 0 <= k < |rem| {
      assert CoefficientAt(s, k) == s[|rem| - 1 - k];
    }
  }

  /** A list of zeros times anything has only zero coefficients. */
  lemma {:induction false} ConvolutionOfZeros(f: Field, a: seq<int>, b: seq<int>, k: int, m: nat)
    requires m <= |a| && ValidCoefficients(f, a) && ValidCoefficients(f, b)
    requires forall i :: 0 <= i < |a| ==> a[i] == 0
    ensures Convolution(f, a, b, k, m) == 0
    decreases m
  {
    if m > 0 {
      ConvolutionOfZeros(f, a, b, k, m - 1);
      AddLaws(f, 0, 0);
    }
  }

  /**
   * One iteration of the division loop keeps a == quot * d + rem: the quotient gains c x^e and
   * the remainder loses c x^e * d.
   */
  lemma DivisionStepKeepsIdentity(f: Field, a: seq<int>, rem: seq<int>, quot: seq<int>, d: seq<int>, idx: nat, c: int)
    requires d != [] && |d| <= |rem| && idx < |quot| && quot[idx] == 0 && |quot| - 1 - idx == |rem| - |d|
    requires ValidCoefficients(f, a) && ValidCoefficients(f, rem) && ValidCoefficients(f, quot) && ValidCoefficients(f, d)
    requires IsValidElement(f, c) && DivisionIdentity(f, a, quot, d, rem)
    ensures ValidCoefficients(f, quot[idx := c]) && ValidCoefficients(f, Normalized(SubtractMultiple(f, rem, c, d)))
    ensures DivisionIdentity(f, a, quot[idx := c], d, Normalized(SubtractMultiple(f, rem, c, d)))
  {
    DivisionStepAt(f, rem, quot, d, idx, c, 0);
    forall k
      ensures CoefficientAt(a, k) == Add(f, CoefficientAt(ProductCoefficients(f, quot[idx := c], d), k), CoefficientAt(Normalized(SubtractMultiple(f, rem, c, d)), k))
    {
      DivisionStepAt(f, rem, quot, d, idx, c, k);
    }
  }

  /** Only the entry at the degree difference e is written, and the new remainder's degree is below the old: the entries below e stay open. */
  lemma DivisionStepKeepsOpen(quot: seq<int>, rem: seq<int>, d: seq<int>, idx: nat, c: int, rem': seq<int>)
    requires QuotientOpen(quot, rem, d) && idx < |quot| && |quot| - 1 - idx == Degree(rem) - Degree(d) && |rem'| < |rem|
    ensures QuotientOpen(quot[idx := c], rem', d)
  {
    var quot' := quot[idx := c];
    forall j | j <= Degree(rem') - Degree(d)
      ensures CoefficientAt(quot', j) == 0
    {
      assert CoefficientAt(quot, j) == 0;
    }
  }

  /** The quotient's gain and the remainder's loss cancel at every degree k. */
  lemma DivisionStepAt(f: Field, rem: seq<int>, quot: seq<int>, d: seq<int>, idx: nat, c: int, k: int)
    requires d != [] && |d| <= |rem| && idx < |quot| && quot[idx] == 0 && |quot| - 1 - idx == |rem| - |d|
    requires ValidCoefficients(f, rem) && ValidCoefficients(f, quot) && ValidCoefficients(f, d) && IsValidElement(f, c)
    ensures ValidCoefficients(f, quot[idx := c]) && ValidCoefficients(f, Normalized(SubtractMultiple(f, rem, c, d)))
    ensures IsValidElement(f, CoefficientAt(ProductCoefficients(f, quot, d), k)) && IsValidElement(f, CoefficientAt(rem, k))
    ensures Add(f, CoefficientAt(ProductCoefficients(f, quot[idx := c], d), k), CoefficientAt(Normalized(SubtractMultiple(f, rem, c, d)), k))
      == Add(f, CoefficientAt(ProductCoefficients(f, quot, d), k), CoefficientAt(rem, k))
  {
    var s := SubtractMultiple(f, rem, c, d);
    NormalizedValid(f, s);
    AllCoefficientsValid(f, rem);
    ProductUpdate(f, quot, d, idx, c, k);
    SubtractMultipleAt(f, rem, c, d, k);
    NormalizedCoefficients(s, k);
    var t := Multiply(f, c, CoefficientAt(d, k - (|rem| - |d|)));
    AddSubtractCancel(f, CoefficientAt(ProductCoefficients(f, quot, d), k), t, CoefficientAt(rem, k));
  }

  /**
   * One iteration of the division loop, seen from the identity it keeps: the loop goes on from a
   * shorter remainder and a quotient that still satisfy a == quot * d + rem.
   */
  lemma DivisionLoopNext(f: Field, a: seq<int>, rem: seq<int>, quot: seq<int>, d: seq<int>, size: nat)
    returns (rem': seq<int>, quot': seq<int>)
    requires LoopState(f, rem, quot, d, size) && ValidCoefficients(f, a)
    requires DivisionIdentity(f, a, quot, d, rem) && QuotientOpen(quot, rem, d)
    requires rem != [] && Degree(rem) >= Degree(d) && Divide(f, rem[0], d[0]).Ok?
    ensures LoopState(f, rem', quot', d, size) && |rem'| < |rem|
    ensures DivisionIdentity(f, a, quot', d, rem') && QuotientOpen(quot', rem', d)
    ensures DivisionLoop(f, rem, quot, d, size) == DivisionLoop(f, rem', quot', d, size)
  {
    var c := Divide(f, rem[0], d[0]).value;
    var idx := size - 1 - (Degree(rem) - Degree(d));
    quot', rem' := quot[idx := c], Normalized(SubtractMultiple(f, rem, c, d));
    assert |d| <= |rem| && 0 <= idx < size && quot[idx] == 0 by {
      assert CoefficientAt(quot, Degree(rem) - Degree(d)) == quot[idx];
    }
    assert LoopState(f, rem', quot', d, size) && |rem'| < |rem|
      && DivisionLoop(f, rem, quot, d, size) == DivisionLoop(f, rem', quot', d, size) by {
      DivisionLoopStep(f, rem, quot, d, size, c, idx, rem', quot');
    }
    assert DivisionIdentity(f, a, quot', d, rem') by {
      DivisionStepKeepsIdentity(f, a, rem, quot, d, idx, c);
    }
    DivisionStepKeepsOpen(quot, rem, d, idx, c, rem');
  }

  /** The whole division loop keeps a == quot * d + rem, so its result satisfies it. */
  lemma {:induction false} DivisionLoopKeepsIdentity(f: Field, a: seq<int>, rem: seq<int>, quot: seq<int>, d: seq<int>, size: nat)
    requires LoopState(f, rem, quot, d, size) && ValidCoefficients(f, a)
    requires DivisionIdentity(f, a, quot, d, rem) && QuotientOpen(quot, rem, d)
    ensures var r := DivisionLoop(f, rem, quot, d, size);
      r.Ok? ==> DivisionIdentity(f, a, r.value.0, d, r.value.1)
    decreases |rem|
  {
    if rem != [] && Degree(rem) >= Degree(d) && Divide(f, rem[0], d[0]).Ok? {
      var rem', quot' := DivisionLoopNext(f, a, rem, quot, d, size);
      DivisionLoopKeepsIdentity(f, a, rem', quot', d, size);
    }
  }

  /**
   * computeDivmod as a value: a different field fails first, then a zero divisor; a dividend of
   * lower degree gives ([], dividend); otherwise the loop from a zero quotient of
   * deg a - deg d + 1 entries.
   */
  function DivisionResult(f: Field, a: seq<int>, g: Field, d: seq<int>): (r: Result<(seq<int>, seq<int>)>)
    requires IsField(f) && ValidCoefficients(f, a) && ValidCoefficients(g, d)
    ensures f != g ==> r == Err(FieldMismatch)
    ensures f == g && d == [] ==> r == Err(DivisionByZero)
    ensures f == g && d != [] && Degree(a) < Degree(d) ==> r == Ok(([], a))
    ensures f == g && IsNormalized(d) && d != [] ==> r.Ok?
    ensures r.Err? ==> r.error in {FieldMismatch, DivisionByZero}
    ensures r.Ok? ==> |r.value.1| < |d| && ValidCoefficients(f, r.value.0) && ValidCoefficients(f, r.value.1)
    ensures r.Ok? && Degree(a) >= Degree(d) ==> |r.value.0| == |a| - |d| + 1
    ensures r.Ok? && IsNormalized(a) ==> IsNormalized(r.value.1)
    ensures r.Ok? ==> DivisionIdentity(f, a, r.value.0, d, r.value.1)
  {
    if f != g then Err(FieldMismatch)
    else if IsZero(d) then Err(DivisionByZero)
    else if Degree(a) < Degree(d) then
      ZeroQuotientIdentity(f, a, [], d);
      Ok(([], a))
    else
      var size := Degree(a) - Degree(d) + 1;
      ZeroQuotientIdentity(f, a, Zeros(size), d);
      DivisionLoopKeepsIdentity(f, a, a, Zeros(size), d, size);
      DivisionLoop(f, a, Zeros(size), d, size)
  }

  /** Before the first iteration: a == 0 * d + a, and every quotient entry is still 0. */
  lemma ZeroQuotientIdentity(f: Field, a: seq<int>, zeros: seq<int>, d: seq<int>)
    requires ValidCoefficients(f, a) && ValidCoefficients(f, zeros) && ValidCoefficients(f, d)
    requires forall i :: 0 <= i < |zeros| ==> zeros[i] == 0
    ensures DivisionIdentity(f, a, zeros, d, a) && QuotientOpen(zeros, a, d)
  {
    var p := ProductCoefficients(f, zeros, d);
    AllCoefficientsValid(f, a);
    forall k
      ensures CoefficientAt(a, k) == Add(f, CoefficientAt(p, k), CoefficientAt(a, k))
    {
      if 0 <= k < |p| {
        ConvolutionOfZeros(f, zeros, d, |p| - 1 - k, |zeros|);
      }
      AddLaws(f, CoefficientAt(a, k), 0);
    }
  }

  /** One iteration of the division loop, read off its definition, for a failing division. */
  lemma DivisionLoopFails(f: Field, rem: seq<int>, quot: seq<int>, d: seq<int>, size: nat)
    requires LoopState(f, rem, quot, d, size)
    requires rem != [] && Degree(rem) >= Degree(d) && Divide(f, rem[0], d[0]).Err?
    ensures DivisionLoop(f, rem, quot, d, size) == Err(Divide(f, rem[0], d[0]).error)
  {
  }

  /**
   * One iteration of the division loop, read off its definition: with c the quotient of the
   * leading coefficients, the loop goes on from the reduced remainder and the quotient with c
   * stored at the position of the degree difference.
   */
  lemma DivisionLoopStep(f: Field, rem: seq<int>, quot: seq<int>, d: seq<int>, size: nat, c: int, index: int, rem': seq<int>, quot': seq<int>)
    requires LoopState(f, rem, quot, d, size)
    requires rem != [] && Degree(rem) >= Degree(d) && Divide(f, rem[0], d[0]) == Ok(c)
    requires index == size - 1 - (Degree(rem) - Degree(d)) && 0 <= index < size && quot' == quot[index := c]
    requires |d| <= |rem| && IsValidElement(f, c) && rem' == Normalized(SubtractMultiple(f, rem, c, d))
    ensures ValidCoefficients(f, rem') && ValidCoefficients(f, quot') && |rem'| < |rem| && |quot'| == size
    ensures DivisionLoop(f, rem, quot, d, size) == DivisionLoop(f, rem', quot', d, size)
  {
    EliminationShrinks(f, rem, d);
    NormalizedValid(f, SubtractMultiple(f, rem, c, d));
    assert ValidCoefficients(f, quot') && |quot'| == size;
    calc {
      DivisionLoop(f, rem, quot, d, size);
      DivisionLoop(f, Normalized(SubtractMultiple(f, rem, c, d)), quot[size - 1 - (Degree(rem) - Degree(d)) := c], d, size);
    }
  }

  /** In a field, a nonzero normalised list divided by itself gives the quotient [1] and no remainder. */
  lemma DivisionBySelf(f: Field, a: seq<int>)
    requires IsField(f) && ValidCoefficients(f, a) && IsNormalized(a) && a != []
    ensures DivisionResult(f, a, f, a) == Ok(([1], []))
  {
    DivideSelf(f, a[0]);
    MultiplyOne(f, 0);
    var s := SubtractMultiple(f, a, 1, a);
    forall i | 0 <= i < |a|
      ensures s[i] == 0
    {
      MultiplyOne(f, a[i]);
      MultiplyCommutes(f, 1, a[i]);
      SubtractZero(f, a[i], a[i]);
    }
    assert Normalized(s) == [];
    DivisionLoopStep(f, a, Zeros(1), a, 1, 1, 0, [], [1]);
  }

  /** The inner for loop of computeDivmod: rem[i] := rem[i] - c * d[i] for every i below |d|. */
  method SubtractMultipleInPlace(f: Field, rem: seq<int>, c: int, d: seq<int>) returns (r: seq<int>)
    requires |d| <= |rem| && ValidCoefficients(f, rem) && ValidCoefficients(f, d) && IsValidElement(f, c)
    ensures r == SubtractMultiple(f, rem, c, d)
  {
    r := rem;
    var i := 0;
    while i < |d|
      invariant 0 <= i <= |d| && |r| == |rem|
      invariant forall k :: 0 <= k < |r| ==> r[k] == (if k < i then Subtract(f, rem[k], Multiply(f, c, d[k])) else rem[k])
    {
      r := r[i := Subtract(f, r[i], Multiply(f, c, d[i]))];
      i := i + 1;
    }
  }

  /**
   * computeDivmod: the checks on the operands, then the elimination loop of ReduceRemainder on a
   * quotient of degree(a) - degree(d) + 1 zeros.
   */
  method ComputeDivmod(f: Field, a: seq<int>, g: Field, d: seq<int>) returns (r: Result<(seq<int>, seq<int>)>)
    requires IsField(f) && ValidCoefficients(f, a) && ValidCoefficients(g, d)
    ensures r == DivisionResult(f, a, g, d)
  {
    if f != g {
      return Err(FieldMismatch);
    }
    if IsZero(d) {
      return Err(DivisionByZero);
    }
    if Degree(a) < Degree(d) {
      return Ok(([], a));
    }
    var quotientSize := Degree(a) - Degree(d) + 1;
    r := ReduceRemainder(f, a, Zeros(quotientSize), d, quotientSize);
  }

  /**
   * The while loop of computeDivmod: while the remainder is nonzero and of degree at least
   * degree(d), store leading(remainder) / leading(d) in the quotient and subtract that multiple
   * of d, aligned at the leading term, from the remainder.
   */
  method ReduceRemainder(f: Field, a: seq<int>, zeros: seq<int>, d: seq<int>, quotientSize: nat)
    returns (r: Result<(seq<int>, seq<int>)>)
    requires LoopState(f, a, zeros, d, quotientSize)
    ensures r == DivisionLoop(f, a, zeros, d, quotientSize)
  {
    var remainder := a;
    var remainderDegree := Degree(a);
    var quotient := zeros;
    while !IsZero(remainder) && remainderDegree >= Degree(d)
      invariant remainderDegree == Degree(remainder)
      invariant LoopState(f, remainder, quotient, d, quotientSize)
      invariant DivisionLoop(f, remainder, quotient, d, quotientSize) == DivisionLoop(f, a, zeros, d, quotientSize)
      decreases |remainder|
    {
      var division := Divide(f, remainder[0], LeadingCoefficient(d));
      if division.Err? {
        DivisionLoopFails(f, remainder, quotient, d, quotientSize);
        return Err(division.error);
      }
      var c := division.value;
      ghost var before, quotientBefore := remainder, quotient;
      var degreeDiff := remainderDegree - Degree(d);
      quotient := quotient[quotientSize - 1 - degreeDiff := c];
      remainder := SubtractMultipleInPlace(f, remainder, c, d);
      remainder := Normalize(remainder);
      remainderDegree := if IsZero(remainder) then -1 else |remainder| - 1;
      DivisionLoopStep(f, before, quotientBefore, d, quotientSize, c, quotientSize - 1 - degreeDiff, remainder, quotient);
    }
    return Ok((quotient, remainder));
  }
}
