/**
 * The binary extension field GF(2^n). Elements are the integers 0 .. 2^n - 1 read as bit
 * patterns; addition is exclusive or, and the other operations go through an exponential table
 * exp (exp[i] = alpha^i) and a logarithm table log built once by a shift-and-reduce loop.
 */
module BinaryField {
  import opened Wrappers
  import opened Bits
  import PrimitivePolynomials
  import opened NumberTheory

  /** One round of the table loop: shift left, and reduce by the polynomial when bit n becomes set. */
  function Step(n: nat, poly: nat, cursor: nat): nat
  {
    var shifted := 2 * cursor;
    if (shifted / Pow2(n)) % 2 == 1 then Xor(shifted, poly) else shifted
  }

  /** The loop's cursor after k rounds, starting from 1: alpha^k. */
  function Alpha(n: nat, poly: nat, k: nat): nat
  {
    if k == 0 then 1 else Step(n, poly, Alpha(n, poly, k - 1))
  }

  /** The exponential table: alpha^0 .. alpha^(order-2), then exp[order-1] copied from exp[0]. */
  function ExpTable(n: nat, poly: nat): seq<int>
  {
    seq(Pow2(n), i requires 0 <= i < Pow2(n) => if i < Pow2(n) - 1 then Alpha(n, poly, i) else Alpha(n, poly, 0))
  }

  /** alpha^0 .. alpha^(k-1), as the loop writes them into exp. */
  function Powers(n: nat, poly: nat, k: nat): (r: seq<int>)
    ensures |r| == k
  {
    if k == 0 then [] else Powers(n, poly, k - 1) + [Alpha(n, poly, k - 1)]
  }

  lemma {:induction false} PowersIndex(n: nat, poly: nat, k: nat)
    ensures forall i :: 0 <= i < k ==> Powers(n, poly, k)[i] == Alpha(n, poly, i)
    decreases k
  {
    if k > 0 {
      PowersIndex(n, poly, k - 1);
    }
  }

  /** The table the loop leaves: the powers below order - 1, then a copy of exp[0]. */
  lemma ExpTableFromPowers(n: nat, poly: nat, s: seq<int>)
    requires n >= 1 && |s| == Pow2(n) && s[..Pow2(n) - 1] == Powers(n, poly, Pow2(n) - 1) && s[Pow2(n) - 1] == s[0]
    ensures s == ExpTable(n, poly)
  {
    assert Pow2(n) == 2 * Pow2(n - 1);
    PowersIndex(n, poly, Pow2(n) - 1);
    forall i | 0 <= i < Pow2(n)
      ensures s[i] == ExpTable(n, poly)[i]
    {
      if i < Pow2(n) - 1 {
        assert s[i] == s[..Pow2(n) - 1][i];
      } else {
        assert s[0] == s[..Pow2(n) - 1][0];
      }
    }
  }

  /** The logarithm table after k rounds: each round writes log[alpha^rank] = rank. */
  function LogAfter(n: nat, poly: nat, k: nat): map<int, int>
  {
    if k == 0 then map[] else LogAfter(n, poly, k - 1)[Alpha(n, poly, k - 1) := k - 1]
  }

  function LogTable(n: nat, poly: nat): map<int, int>
  {
    LogAfter(n, poly, Pow2(n) - 1)
  }

  /** One round of the table loop: the next power is appended, logged, and stepped. */
  lemma TablesStep(n: nat, poly: nat, k: nat)
    ensures Powers(n, poly, k + 1) == Powers(n, poly, k) + [Alpha(n, poly, k)]
    ensures LogAfter(n, poly, k + 1) == LogAfter(n, poly, k)[Alpha(n, poly, k) := k]
    ensures Alpha(n, poly, k + 1) == Step(n, poly, Alpha(n, poly, k))
  {
  }

  /** The reduction keeps the cursor a nonzero element: below 2^n because bit n of the polynomial clears the overflow, odd after a reduction because the polynomial is odd. */
  lemma StepInRange(n: nat, poly: nat, cursor: nat)
    requires PrimitivePolynomials.IsMonicOddPattern(poly, n) && 1 <= cursor < Pow2(n)
    ensures 1 <= Step(n, poly, cursor) < Pow2(n)
  {
    var shifted := 2 * cursor;
    if shifted >= Pow2(n) {
      ModUniqueTwo(shifted, Pow2(n));
      XorClearsTopBit(shifted, poly, n);
      XorUnfold(shifted, poly);
    } else {
      assert shifted / Pow2(n) == 0;
    }
  }

  lemma ModUniqueTwo(s: nat, m: nat)
    requires 1 <= m <= s < 2 * m
    ensures s / m == 1
  {
  }

  lemma DivSmall(s: nat, m: nat)
    requires s < m
    ensures s / m == 0
  {
    NumberTheory.ModUnique(s, m, 0, s);
  }

  lemma {:induction false} AlphaInRange(n: nat, poly: nat, k: nat)
    requires n >= 1 && PrimitivePolynomials.IsMonicOddPattern(poly, n)
    ensures 1 <= Alpha(n, poly, k) < Pow2(n)
    decreases k
  {
    if k == 0 {
      assert Pow2(n) == 2 * Pow2(n - 1);
    } else {
      AlphaInRange(n, poly, k - 1);
      StepInRange(n, poly, Alpha(n, poly, k - 1));
    }
  }

  /**
   * Every logarithm written in the first k rounds is a rank below k whose power is the key,
   * and every power of those rounds has been written: exp[log[e]] == e for every key e.
   */
  lemma {:induction false} LogAfterFacts(n: nat, poly: nat, k: nat)
    ensures forall e :: e in LogAfter(n, poly, k) ==>
      0 <= LogAfter(n, poly, k)[e] < k && Alpha(n, poly, LogAfter(n, poly, k)[e]) == e
    ensures forall i :: 0 <= i < k ==> Alpha(n, poly, i) in LogAfter(n, poly, k)
    decreases k
  {
    if k > 0 {
      LogAfterFacts(n, poly, k - 1);
    }
  }

  /** When the powers are pairwise distinct the log table inverts the exp table. */
  lemma {:induction false} LogOfAlpha(n: nat, poly: nat, k: nat, i: nat)
    requires i < k
    requires forall x, y :: 0 <= x < y < k ==> Alpha(n, poly, x) != Alpha(n, poly, y)
    ensures Alpha(n, poly, i) in LogAfter(n, poly, k) && LogAfter(n, poly, k)[Alpha(n, poly, i)] == i
    decreases k
  {
    if i < k - 1 {
      LogOfAlpha(n, poly, k - 1, i);
    }
  }

  /** Multiplying by alpha is injective on nonzero elements: an unreduced result is even, a reduced one odd, and a reduction is undone by a second exclusive or with the polynomial. */
  lemma StepInjective(n: nat, poly: nat, c1: nat, c2: nat)
    requires n >= 1 && PrimitivePolynomials.IsMonicOddPattern(poly, n)
    requires 1 <= c1 < Pow2(n) && 1 <= c2 < Pow2(n)
    ensures Step(n, poly, c1) == Step(n, poly, c2) ==> c1 == c2
  {
    StepParity(n, poly, c1);
    StepParity(n, poly, c2);
    if 2 * c1 >= Pow2(n) && 2 * c2 >= Pow2(n) {
      XorCancel(2 * c1, poly);
      XorCancel(2 * c2, poly);
    }
  }

  /** A step is odd exactly when it reduced. */
  lemma StepParity(n: nat, poly: nat, c: nat)
    requires n >= 1 && PrimitivePolynomials.IsMonicOddPattern(poly, n) && 1 <= c < Pow2(n)
    ensures Step(n, poly, c) % 2 == (if 2 * c >= Pow2(n) then 1 else 0)
    ensures (2 * c >= Pow2(n)) == ((2 * c / Pow2(n)) % 2 == 1)
  {
    var shifted, m := 2 * c, Pow2(n);
    if shifted >= m {
      assert shifted / m == 1 by { ModUniqueTwo(shifted, m); }
      assert Step(n, poly, c) == Xor(shifted, poly);
      assert Xor(shifted, poly) % 2 == 1 by {
        assert shifted % 2 == 0;
        XorUnfold(shifted, poly);
      }
    } else {
      DivSmall(shifted, m);
      assert Step(n, poly, c) == shifted;
    }
  }

  /** Equal powers stay equal when both exponents drop by the smaller one. */
  lemma {:induction false} AlphaShift(n: nat, poly: nat, x: nat, y: nat)
    requires n >= 1 && PrimitivePolynomials.IsMonicOddPattern(poly, n) && x <= y
    ensures Alpha(n, poly, x) == Alpha(n, poly, y) ==> Alpha(n, poly, 0) == Alpha(n, poly, y - x)
    decreases x
  {
    if x > 0 {
      AlphaInRange(n, poly, x - 1);
      AlphaInRange(n, poly, y - 1);
      StepInjective(n, poly, Alpha(n, poly, x - 1), Alpha(n, poly, y - 1));
      AlphaShift(n, poly, x - 1, y - 1);
    }
  }

  /**
   * The polynomial is primitive when alpha has multiplicative order exactly 2^n - 1:
   * no power alpha^d with 0 < d < 2^n - 1 equals 1. The code relies on this and never checks it.
   */
  predicate IsPrimitive(n: nat, poly: nat)
  {
    forall d :: 0 < d < Pow2(n) - 1 ==> Alpha(n, poly, d) != 1
  }

  /** A primitive polynomial makes alpha^0 .. alpha^(2^n - 2) pairwise distinct. */
  lemma PrimitivePowersDistinct(n: nat, poly: nat)
    requires n >= 1 && PrimitivePolynomials.IsMonicOddPattern(poly, n) && IsPrimitive(n, poly)
    ensures forall x, y :: 0 <= x < y < Pow2(n) - 1 ==> Alpha(n, poly, x) != Alpha(n, poly, y)
  {
    forall x, y | 0 <= x < y < Pow2(n) - 1
      ensures Alpha(n, poly, x) != Alpha(n, poly, y)
    {
      AlphaShift(n, poly, x, y);
    }
  }

  /** The numbers lo .. hi - 1. */
  function Interval(lo: int, hi: int): set<int>
    decreases hi - lo
  {
    if lo >= hi then {} else Interval(lo, hi - 1) + {hi - 1}
  }

  lemma {:induction false} IntervalFacts(lo: int, hi: int)
    requires lo <= hi
    ensures |Interval(lo, hi)| == hi - lo
    ensures forall x :: x in Interval(lo, hi) <==> lo <= x < hi
    decreases hi - lo
  {
    if lo < hi {
      IntervalFacts(lo, hi - 1);
    }
  }

  /** Pairwise distinct powers give the first k rounds k distinct log keys. */
  lemma {:induction false} DistinctPowersCount(n: nat, poly: nat, k: nat)
    requires forall x, y :: 0 <= x < y < k ==> Alpha(n, poly, x) != Alpha(n, poly, y)
    ensures |LogAfter(n, poly, k).Keys| == k
    decreases k
  {
    if k > 0 {
      DistinctPowersCount(n, poly, k - 1);
      LogAfterFacts(n, poly, k - 1);
      var before := LogAfter(n, poly, k - 1);
      assert Alpha(n, poly, k - 1) !in before.Keys;
      assert LogAfter(n, poly, k).Keys == before.Keys + {Alpha(n, poly, k - 1)};
    }
  }

  /** With a primitive polynomial every nonzero element is a power of alpha and so has a logarithm: 2^n - 1 distinct powers fill the 2^n - 1 nonzero places. */
  lemma PrimitiveLogCovers(n: nat, poly: nat)
    requires n >= 1 && PrimitivePolynomials.IsMonicOddPattern(poly, n) && IsPrimitive(n, poly)
    ensures forall e :: 1 <= e < Pow2(n) ==> e in LogTable(n, poly)
  {
    var k := Pow2(n) - 1;
    var keys := LogAfter(n, poly, k).Keys;
    var nonzero := Interval(1, Pow2(n));
    PrimitivePowersDistinct(n, poly);
    DistinctPowersCount(n, poly, k);
    IntervalFacts(1, Pow2(n));
    LogAfterFacts(n, poly, k);
    forall x | x in keys
      ensures x in nonzero
    {
      AlphaInRange(n, poly, LogAfter(n, poly, k)[x]);
    }
    SubsetOfSameSize(keys, nonzero);
  }

  /** A subset as large as the whole set is the whole set. */
  lemma SubsetOfSameSize<T>(a: set<T>, b: set<T>)
    requires a <= b && |a| == |b|
    ensures a == b
  {
    assert b == a + (b - a);
    assert |b - a| == 0;
  }

  // The field itself

  /** A GF(2^n) instance: its degree, its primitive polynomial and the two tables. */
  datatype BinaryExtensionField = BinaryExtensionField(degree: nat, primitivePolynomial: nat, exp: seq<int>, log: map<int, int>)

  /** A field as the constructor leaves it: the tabulated polynomial of its degree and the tables the loop builds from it. */
  predicate Valid(f: BinaryExtensionField)
  {
    && PrimitivePolynomials.Get(2, f.degree) == Ok(PrimitivePolynomials.Pattern(f.primitivePolynomial))
    && f.exp == ExpTable(f.degree, f.primitivePolynomial)
    && f.log == LogTable(f.degree, f.primitivePolynomial)
  }

  /** order = 1 << degree. */
  function Order(f: BinaryExtensionField): nat
  {
    Pow2(f.degree)
  }

  function Characteristic(f: BinaryExtensionField): nat
  {
    2
  }

  predicate IsValidElement(f: BinaryExtensionField, x: int)
  {
    0 <= x < Order(f)
  }

  /** Every exp entry is a nonzero element; exp[0] is 1 and the last entry repeats it. */
  lemma ExpTableFacts(n: nat, poly: nat)
    requires n >= 1 && PrimitivePolynomials.IsMonicOddPattern(poly, n)
    ensures |ExpTable(n, poly)| == Pow2(n)
    ensures forall i :: 0 <= i < Pow2(n) ==> 1 <= ExpTable(n, poly)[i] < Pow2(n)
    ensures forall i :: 0 <= i < Pow2(n) - 1 ==> ExpTable(n, poly)[i] == Alpha(n, poly, i)
    ensures ExpTable(n, poly)[0] == 1 && ExpTable(n, poly)[Pow2(n) - 1] == ExpTable(n, poly)[0]
  {
    assert Pow2(n) == 2 * Pow2(n - 1);
    forall i | 0 <= i < Pow2(n)
      ensures 1 <= ExpTable(n, poly)[i] < Pow2(n)
    {
      AlphaInRange(n, poly, if i < Pow2(n) - 1 then i else 0);
    }
  }

  /** Every logarithm is an index below order - 1 whose exp entry is the key, and every power below order - 1 has a logarithm. */
  lemma LogTableFacts(n: nat, poly: nat)
    requires n >= 1 && PrimitivePolynomials.IsMonicOddPattern(poly, n)
    ensures forall e :: e in LogTable(n, poly) ==>
      0 <= LogTable(n, poly)[e] < Pow2(n) - 1 && ExpTable(n, poly)[LogTable(n, poly)[e]] == e
    ensures forall i :: 0 <= i < Pow2(n) - 1 ==> ExpTable(n, poly)[i] in LogTable(n, poly)
  {
    ExpTableFacts(n, poly);
    LogAfterFacts(n, poly, Pow2(n) - 1);
  }

  /**
   * What the operations rely on: the tables have the shape the constructor gives them. Every
   * exp entry is a nonzero element, exp[0] = 1 and the last entry repeats it, and log maps each
   * of its keys to an index below order - 1 whose exp entry is that key.
   */
  predicate WellFormed(f: BinaryExtensionField)
  {
    && 2 <= f.degree
    && |f.exp| == Order(f)
    && (forall i :: 0 <= i < |f.exp| ==> 1 <= f.exp[i] < Order(f))
    && f.exp[0] == 1 && f.exp[Order(f) - 1] == f.exp[0]
    && (forall e :: e in f.log ==> 0 <= f.log[e] < Order(f) - 1 && f.exp[f.log[e]] == e)
    && (forall i :: 0 <= i < Order(f) - 1 ==> f.exp[i] in f.log)
  }

  /** The constructor's tables are well formed, and its degree lies in 2 .. 16. */
  lemma ValidIsWellFormed(f: BinaryExtensionField)
    requires Valid(f)
    ensures WellFormed(f) && f.degree <= 16
    ensures PrimitivePolynomials.IsMonicOddPattern(f.primitivePolynomial, f.degree)
  {
    BuiltTablesFacts(f.degree, f.primitivePolynomial, f.exp, f.log);
  }

  lemma OrderAtLeastFour(f: BinaryExtensionField)
    requires WellFormed(f)
    ensures Order(f) >= 4
  {
    assert Pow2(f.degree) == 4 * Pow2(f.degree - 2);
  }

  /** The logarithm the code reads; a missing key reads as 0, as PHP's null does in arithmetic. */
  function LogOf(f: BinaryExtensionField, e: int): (r: int)
    requires WellFormed(f)
    ensures 0 <= r < Order(f) - 1
    ensures e in f.log ==> f.exp[r] == e
  {
    OrderAtLeastFour(f);
    if e in f.log then f.log[e] else 0
  }

  /** add is exclusive or; it stays in the field. */
  function Add(f: BinaryExtensionField, a: int, b: int): (r: int)
    requires WellFormed(f) && IsValidElement(f, a) && IsValidElement(f, b)
    ensures IsValidElement(f, r)
  {
    XorBelow(a, b, f.degree);
    Xor(a, b)
  }

  /** subtract is the same exclusive or: characteristic 2. */
  function Subtract(f: BinaryExtensionField, a: int, b: int): (r: int)
    requires WellFormed(f) && IsValidElement(f, a) && IsValidElement(f, b)
    ensures r == Add(f, a, b)
  {
    Xor(a, b)
  }

  /** Every element is its own additive inverse, addition commutes, and 0 is neutral. */
  lemma AddLaws(f: BinaryExtensionField, a: int, b: int)
    requires WellFormed(f) && IsValidElement(f, a) && IsValidElement(f, b)
    ensures Add(f, a, a) == 0 && Add(f, a, b) == Add(f, b, a) && Add(f, a, 0) == a
  {
    XorSelf(a);
    XorCommutes(a, b);
    XorZero(a);
  }

  /** multiply: 0 if either factor is 0, else exp[(log a + log b) mod (order - 1)], a nonzero element. */
  function Multiply(f: BinaryExtensionField, a: int, b: int): (r: int)
    requires WellFormed(f) && IsValidElement(f, a) && IsValidElement(f, b)
    ensures IsValidElement(f, r)
    ensures r == 0 <==> a == 0 || b == 0
  {
    if a == 0 || b == 0 then 0
    else f.exp[(LogOf(f, a) + LogOf(f, b)) % (Order(f) - 1)]
  }

  /** divide: a zero divisor fails; 0 divided by anything is 0; otherwise exp of the log difference lifted into [0, order - 1). */
  function Divide(f: BinaryExtensionField, a: int, b: int): (r: Result<int>)
    requires WellFormed(f) && IsValidElement(f, a) && IsValidElement(f, b)
    ensures b == 0 <==> r.Err?
    ensures r.Err? ==> r.error == DivisionByZero
    ensures r.Ok? ==> IsValidElement(f, r.value) && (r.value == 0 <==> a == 0)
  {
    if b == 0 then Err(DivisionByZero)
    else if a == 0 then Ok(0)
    else
      var diff := LogOf(f, a) - LogOf(f, b);
      Ok(f.exp[if diff < 0 then diff + (Order(f) - 1) else diff])
  }

  /** inverse: 0 fails; otherwise exp[(order - 1) - log e], an index in [1, order - 1]. */
  function Inverse(f: BinaryExtensionField, e: int): (r: Result<int>)
    requires WellFormed(f) && IsValidElement(f, e)
    ensures e == 0 <==> r.Err?
    ensures r.Err? ==> r.error == DivisionByZero
    ensures r.Ok? ==> 1 <= r.value < Order(f)
  {
    if e == 0 then Err(DivisionByZero)
    else Ok(f.exp[(Order(f) - 1) - LogOf(f, e)])
  }

  /**
   * power: 0^0 = 1 and 0^k = 0 for every other k, negative included, without failing;
   * a^0 = 1; a negative k switches to the inverse of a and -k; otherwise exp[(log a * k) mod (order - 1)].
   */
  function Power(f: BinaryExtensionField, e: int, k: int): (r: int)
    requires WellFormed(f) && IsValidElement(f, e)
    ensures IsValidElement(f, r)
    ensures e == 0 ==> r == (if k == 0 then 1 else 0)
    ensures e != 0 ==> r != 0
    ensures k == 0 ==> r == 1
  {
    if e == 0 then (if k == 0 then 1 else 0)
    else if k == 0 then 1
    else
      var base := if k < 0 then Inverse(f, e).value else e;
      var exponent := if k < 0 then -k else k;
      f.exp[(LogOf(f, base) * exponent) % (Order(f) - 1)]
  }

  /** A negative exponent is the positive one applied to the inverse. */
  lemma PowerOfNegative(f: BinaryExtensionField, e: int, k: int)
    requires WellFormed(f) && IsValidElement(f, e) && e != 0 && k > 0
    ensures Power(f, e, -k) == Power(f, Inverse(f, e).value, k)
  {
  }

  /** Multiplication commutes. */
  lemma MultiplyCommutes(f: BinaryExtensionField, a: int, b: int)
    requires WellFormed(f) && IsValidElement(f, a) && IsValidElement(f, b)
    ensures Multiply(f, a, b) == Multiply(f, b, a)
  {
  }

  predicate HasPrimitivePolynomial(f: BinaryExtensionField)
  {
    IsPrimitive(f.degree, f.primitivePolynomial)
  }

  /**
   * The tables invert each other: log[exp[i]] == i below order - 1, and every nonzero element
   * has a logarithm. This is what a primitive polynomial buys.
   */
  predicate LogInvertsExp(f: BinaryExtensionField)
  {
    && WellFormed(f)
    && (forall i :: 0 <= i < Order(f) - 1 ==> f.exp[i] in f.log && f.log[f.exp[i]] == i)
    && (forall e :: 1 <= e < Order(f) ==> e in f.log)
  }

  /** A constructed field whose polynomial is primitive has tables that invert each other. */
  lemma PrimitiveTablesInvert(f: BinaryExtensionField)
    requires Valid(f) && HasPrimitivePolynomial(f)
    ensures LogInvertsExp(f)
  {
    var n, poly := f.degree, f.primitivePolynomial;
    ValidIsWellFormed(f);
    ExpTableFacts(n, poly);
    PrimitivePowersDistinct(n, poly);
    PrimitiveLogCovers(n, poly);
    forall i | 0 <= i < Order(f) - 1
      ensures f.exp[i] in f.log && f.log[f.exp[i]] == i
    {
      LogOfAlpha(n, poly, Pow2(n) - 1, i);
    }
  }

  /** Multiply of two nonzero elements whose logarithms are known. */
  lemma MultiplyByLogs(f: BinaryExtensionField, a: int, b: int, la: int, lb: int)
    requires WellFormed(f) && IsValidElement(f, a) && IsValidElement(f, b) && a != 0 && b != 0
    requires a in f.log && f.log[a] == la && b in f.log && f.log[b] == lb
    ensures Multiply(f, a, b) == f.exp[(la + lb) % (Order(f) - 1)]
  {
  }

  /** 1 is neutral for multiplication when the tables invert each other. */
  lemma MultiplyOne(f: BinaryExtensionField, a: int)
    requires LogInvertsExp(f) && IsValidElement(f, a)
    ensures IsValidElement(f, 1) && Multiply(f, a, 1) == a
  {
    OrderAtLeastFour(f);
    if a != 0 {
      var k := Order(f) - 1;
      var l := f.log[a];
      assert f.exp[0] in f.log && f.log[f.exp[0]] == 0;
      MultiplyByLogs(f, a, 1, l, 0);
      ModUnique(l, k, 0, l);
    }
  }

  /** e * inverse(e) == 1 for every nonzero e, when the tables invert each other. */
  lemma MultiplyByInverse(f: BinaryExtensionField, e: int)
    requires LogInvertsExp(f) && IsValidElement(f, e) && e != 0
    ensures Multiply(f, e, Inverse(f, e).value) == 1
  {
    var k := Order(f) - 1;
    var l := f.log[e];
    var inv := Inverse(f, e).value;
    assert 0 <= l < k && inv == f.exp[k - l];
    var li := if l == 0 then 0 else k - l;
    assert inv in f.log && f.log[inv] == li by {
      assert inv == f.exp[li];
    }
    MultiplyByLogs(f, e, inv, l, li);
    assert (l + li) % k == 0 by {
      ModUnique(l + li, k, if l == 0 then 0 else 1, 0);
    }
  }

  /** (a / b) * b == a for every nonzero b, when the tables invert each other. */
  lemma DivideThenMultiply(f: BinaryExtensionField, a: int, b: int)
    requires LogInvertsExp(f) && IsValidElement(f, a) && IsValidElement(f, b) && b != 0
    ensures Multiply(f, Divide(f, a, b).value, b) == a
  {
    if a != 0 {
      var k := Order(f) - 1;
      var la, lb := f.log[a], f.log[b];
      var diff := if la - lb < 0 then la - lb + k else la - lb;
      var q := Divide(f, a, b).value;
      assert q == f.exp[diff];
      assert f.log[q] == diff;
      MultiplyByLogs(f, q, b, diff, lb);
      if la - lb < 0 {
        ModUnique(diff + lb, k, 1, la);
      } else {
        ModUnique(diff + lb, k, 0, la);
      }
    }
  }

  /** Addition is associative: exclusive or is. */
  lemma AddAssociates(f: BinaryExtensionField, a: int, b: int, c: int)
    requires WellFormed(f) && IsValidElement(f, a) && IsValidElement(f, b) && IsValidElement(f, c)
    ensures Add(f, Add(f, a, b), c) == Add(f, a, Add(f, b, c))
  {
    XorAssociates(a, b, c);
  }

  /** Multiplication is associative when the tables invert each other: the logarithms add modulo order - 1. */
  lemma MultiplyAssociates(f: BinaryExtensionField, a: int, b: int, c: int)
    requires LogInvertsExp(f) && IsValidElement(f, a) && IsValidElement(f, b) && IsValidElement(f, c)
    ensures Multiply(f, Multiply(f, a, b), c) == Multiply(f, a, Multiply(f, b, c))
  {
    if a != 0 && b != 0 && c != 0 {
      OrderAtLeastFour(f);
      var k := Order(f) - 1;
      var la, lb, lc := f.log[a], f.log[b], f.log[c];
      var ab, bc := (la + lb) % k, (lb + lc) % k;
      assert f.exp[ab] in f.log && f.log[f.exp[ab]] == ab;
      assert f.exp[bc] in f.log && f.log[f.exp[bc]] == bc;
      MultiplyByLogs(f, a, b, la, lb);
      MultiplyByLogs(f, b, c, lb, lc);
      MultiplyByLogs(f, f.exp[ab], c, ab, lc);
      MultiplyByLogs(f, a, f.exp[bc], la, bc);
      ModAddAssociates(la, lb, lc, k);
    }
  }

  /**
   * Multiplication distributes over addition. The code relies on this and never checks it: it
   * holds for the tables of a primitive polynomial, which this model does not derive.
   */
  predicate Distributive(f: BinaryExtensionField)
  {
    && WellFormed(f)
    && forall a, b, c :: 0 <= a < Order(f) && 0 <= b < Order(f) && 0 <= c < Order(f) ==>
      Multiply(f, a, Add(f, b, c)) == Add(f, Multiply(f, a, b), Multiply(f, a, c))
  }

  /** e^(order - 1) == 1 for every nonzero e: the logarithm times order - 1 reduces to 0. */
  lemma PowerOrderMinusOne(f: BinaryExtensionField, e: int)
    requires WellFormed(f) && IsValidElement(f, e) && e != 0
    ensures Power(f, e, Order(f) - 1) == 1
  {
    OrderAtLeastFour(f);
    var k := Order(f) - 1;
    var l := LogOf(f, e);
    ModUnique(l * k, k, l, 0);
  }

  /** e^(k + 1) == e^k * e for every k >= 0, when the tables invert each other. */
  lemma PowerStep(f: BinaryExtensionField, e: int, k: int)
    requires LogInvertsExp(f) && IsValidElement(f, e) && e != 0 && k >= 0
    ensures Power(f, e, k + 1) == Multiply(f, Power(f, e, k), e)
  {
    OrderAtLeastFour(f);
    var n := Order(f) - 1;
    var l := f.log[e];
    var i := (l * k) % n;
    assert Power(f, e, k) == f.exp[i] by {
      if k == 0 {
        assert l * k == 0;
      }
    }
    assert f.exp[i] in f.log && f.log[f.exp[i]] == i;
    MultiplyByLogs(f, f.exp[i], e, i, l);
    MulStepMod(l, k, n);
  }

  // The GF(2^8) tables of the QR-code field

  /**
   * GF(2^8) with the QR-code polynomial 0x11D: alpha^8 == 29, the first reduction, and
   * alpha^25 == 3, as the table loop writes them into exp[8] and exp[25].
   */
  lemma QrCodeFieldPowers()
    ensures Pow2(8) == 256 && ExpTable(8, 0x11D)[8] == 29 && ExpTable(8, 0x11D)[25] == 3
  {
    PrimitivePolynomials.Pow2UpTo17();
    QrReductionsLow();
    QrReductionsMiddle();
    QrReductionsHigh();
    QrStep(1); assert Alpha(8, 0x11D, 1) == 2;
    QrStep(2); assert Alpha(8, 0x11D, 2) == 4;
    QrStep(4); assert Alpha(8, 0x11D, 3) == 8;
    QrStep(8); assert Alpha(8, 0x11D, 4) == 16;
    QrStep(16); assert Alpha(8, 0x11D, 5) == 32;
    QrStep(32); assert Alpha(8, 0x11D, 6) == 64;
    QrStep(64); assert Alpha(8, 0x11D, 7) == 128;
    QrStep(128); assert Alpha(8, 0x11D, 8) == 29;
    QrStep(29); assert Alpha(8, 0x11D, 9) == 58;
    QrStep(58); assert Alpha(8, 0x11D, 10) == 116;
    QrStep(116); assert Alpha(8, 0x11D, 11) == 232;
    QrStep(232); assert Alpha(8, 0x11D, 12) == 205;
    QrStep(205); assert Alpha(8, 0x11D, 13) == 135;
    QrStep(135); assert Alpha(8, 0x11D, 14) == 19;
    QrStep(19); assert Alpha(8, 0x11D, 15) == 38;
    QrStep(38); assert Alpha(8, 0x11D, 16) == 76;
    QrStep(76); assert Alpha(8, 0x11D, 17) == 152;
    QrStep(152); assert Alpha(8, 0x11D, 18) == 45;
    QrStep(45); assert Alpha(8, 0x11D, 19) == 90;
    QrStep(90); assert Alpha(8, 0x11D, 20) == 180;
    QrStep(180); assert Alpha(8, 0x11D, 21) == 117;
    QrStep(117); assert Alpha(8, 0x11D, 22) == 234;
    QrStep(234); assert Alpha(8, 0x11D, 23) == 201;
    QrStep(201); assert Alpha(8, 0x11D, 24) == 143;
    QrStep(143); assert Alpha(8, 0x11D, 25) == 3;
  }

  /**
   * In the constructed GF(2^8), 2 * 3 == 6: alpha^1 * alpha^25 == alpha^26, the doubling of 3.
   */
  lemma QrCodeProductExample(f: BinaryExtensionField)
    requires Valid(f) && f.degree == 8 && LogInvertsExp(f)
    ensures IsValidElement(f, 2) && IsValidElement(f, 3) && Multiply(f, 2, 3) == 6
  {
    QrCodeTable(f);
    ProductOfPowers(f, 1, 25);
  }

  /** exp[i] * exp[j] == exp[i + j] when i + j stays below order - 1 and the tables invert each other. */
  lemma ProductOfPowers(f: BinaryExtensionField, i: int, j: int)
    requires LogInvertsExp(f) && 0 <= i && 0 <= j && i + j < Order(f) - 1
    ensures Multiply(f, f.exp[i], f.exp[j]) == f.exp[i + j]
  {
    assert f.log[f.exp[i]] == i && f.log[f.exp[j]] == j;
    MultiplyByLogs(f, f.exp[i], f.exp[j], i, j);
    ModUnique(i + j, Order(f) - 1, 0, i + j);
  }

  /** The constructed GF(2^8) has order 256 and the table entries alpha^1 == 2, alpha^25 == 3 and alpha^26 == 6. */
  lemma QrCodeTable(f: BinaryExtensionField)
    requires Valid(f) && f.degree == 8
    ensures Order(f) == 256 && |f.exp| == 256 && f.exp[1] == 2 && f.exp[25] == 3 && f.exp[26] == 6
  {
    PrimitivePolynomials.QrCodeFieldPolynomial();
    assert f.primitivePolynomial == 0x11D;
    QrCodeFieldPowers();
    QrStep(1);
    QrStep(3);
    assert Alpha(8, 0x11D, 26) == Step(8, 0x11D, Alpha(8, 0x11D, 25));
  }

  /** One round of the GF(2^8) table loop: a doubling, reduced by 0x11D when it reaches bit 8. */
  lemma QrStep(c: nat)
    requires c < 256
    ensures Step(8, 0x11D, c) == if 2 * c < 256 then 2 * c else Xor(2 * c, 0x11D)
  {
    PrimitivePolynomials.Pow2UpTo17();
    if 2 * c >= 256 {
      ModUniqueTwo(2 * c, 256);
    } else {
      DivSmall(2 * c, 256);
    }
  }

  /**
   * Reductions 1 to 3 of the GF(2^8) table loop: the overflowing cursor exclusive-or the
   * polynomial, evaluated from the top bits down, two bits per assertion.
   */
  lemma QrReductionsLow()
    ensures Xor(256, 0x11D) == 29 && Xor(464, 0x11D) == 205 && Xor(410, 0x11D) == 135
  {
    assert Xor(2, 2) == 0;
    assert Xor(8, 8) == 0;
    assert Xor(32, 35) == 3;
    assert Xor(128, 142) == 14;
    assert Xor(3, 2) == 1;
    assert Xor(14, 8) == 6;
    assert Xor(58, 35) == 25;
    assert Xor(232, 142) == 102;
    assert Xor(3, 2) == 1;
    assert Xor(12, 8) == 4;
    assert Xor(51, 35) == 16;
    assert Xor(205, 142) == 67;
  }

  /** Reductions 4 to 6 of the GF(2^8) table loop, evaluated in the same way. */
  lemma QrReductionsMiddle()
    ensures Xor(270, 0x11D) == 19 && Xor(304, 0x11D) == 45 && Xor(360, 0x11D) == 117
  {
    assert Xor(2, 2) == 0;
    assert Xor(8, 8) == 0;
    assert Xor(33, 35) == 2;
    assert Xor(135, 142) == 9;
    assert Xor(2, 2) == 0;
    assert Xor(9, 8) == 1;
    assert Xor(38, 35) == 5;
    assert Xor(152, 142) == 22;
    assert Xor(2, 2) == 0;
    assert Xor(11, 8) == 3;
    assert Xor(45, 35) == 14;
    assert Xor(180, 142) == 58;
  }

  /** Reductions 7 to 9 of the GF(2^8) table loop, evaluated in the same way. */
  lemma QrReductionsHigh()
    ensures Xor(468, 0x11D) == 201 && Xor(402, 0x11D) == 143 && Xor(286, 0x11D) == 3
  {
    assert Xor(3, 2) == 1;
    assert Xor(14, 8) == 6;
    assert Xor(58, 35) == 25;
    assert Xor(234, 142) == 100;
    assert Xor(3, 2) == 1;
    assert Xor(12, 8) == 4;
    assert Xor(50, 35) == 17;
    assert Xor(201, 142) == 71;
    assert Xor(2, 2) == 0;
    assert Xor(8, 8) == 0;
    assert Xor(35, 35) == 0;
    assert Xor(143, 142) == 1;
  }

  // Construction

  /**
   * new BinaryExtensionField(degree): order = 1 << degree comes first and fails for a negative
   * degree; then the tabulated polynomial of that degree, then the tables.
   */
  function FromDegree(degree: int): (r: Result<BinaryExtensionField>)
    ensures r.Ok? <==> 2 <= degree <= 16
    ensures degree < 0 ==> r == Err(NegativeShift)
    ensures degree >= 0 && r.Err? ==> r.error == NoPrimitivePolynomial
    ensures r.Ok? ==> Valid(r.value) && r.value.degree == degree && Order(r.value) == Pow2(degree)
  {
    if degree < 0 then Err(NegativeShift)
    else match PrimitivePolynomials.Get(2, degree)
    case Err(e) => Err(e)
    case Ok(entry) =>
      var poly := entry.bits;
      Ok(BinaryExtensionField(degree, poly, ExpTable(degree, poly), LogTable(degree, poly)))
  }

  /** The facts BuildTables promises, read off the two tables. */
  lemma BuiltTablesFacts(n: nat, poly: nat, exp: seq<int>, log: map<int, int>)
    requires n >= 1 && PrimitivePolynomials.IsMonicOddPattern(poly, n)
    requires exp == ExpTable(n, poly) && log == LogTable(n, poly)
    ensures |exp| == Pow2(n) && forall i :: 0 <= i < |exp| ==> 1 <= exp[i] < Pow2(n)
    ensures exp[0] == 1 && exp[|exp| - 1] == exp[0]
    ensures forall e :: e in log ==> 0 <= log[e] < |exp| - 1 && exp[log[e]] == e
    ensures forall i :: 0 <= i < |exp| - 1 ==> exp[i] in log
  {
    ExpTableFacts(n, poly);
    LogTableFacts(n, poly);
  }

  /** buildTables: one loop round per rank fills exp[rank] and log[cursor], then multiplies the cursor by alpha; exp[order - 1] copies exp[0]. */
  method BuildTables(n: nat, poly: nat) returns (exp: array<int>, log: map<int, int>)
    requires n >= 1 && PrimitivePolynomials.IsMonicOddPattern(poly, n)
    ensures exp[..] == ExpTable(n, poly) && log == LogTable(n, poly)
    ensures fresh(exp)
  {
    var order := Pow2(n);
    assert order == 2 * Pow2(n - 1);
    exp := new int[order];
    log := map[];
    var cursor: nat := 1;
    var rank := 0;
    while rank < order - 1
      invariant 0 <= rank <= order - 1
      invariant cursor == Alpha(n, poly, rank)
      invariant exp[..rank] == Powers(n, poly, rank)
      invariant log == LogAfter(n, poly, rank)
    {
      TablesStep(n, poly, rank);
      exp[rank] := cursor;
      assert exp[..rank + 1] == exp[..rank] + [cursor];
      log := log[cursor := rank];
      ghost var previous := cursor;
      cursor := 2 * cursor;
      if (cursor / order) % 2 == 1 {
        cursor := Xor(cursor, poly);
      }
      assert cursor == Step(n, poly, previous);
      rank := rank + 1;
    }
    exp[order - 1] := exp[0];
    assert exp[..order - 1] == Powers(n, poly, order - 1);
    ExpTableFromPowers(n, poly, exp[..]);
  }

  /**
   * The constructor: the shift 1 << degree (failing for a negative degree), the polynomial lookup
   * (failing for a degree without one), then the tables.
   */
  method Construct(degree: int) returns (r: Result<BinaryExtensionField>)
    ensures r == FromDegree(degree)
  {
    if degree < 0 {
      return Err(NegativeShift);
    }
    var entry := PrimitivePolynomials.Get(2, degree);
    if entry.Err? {
      return Err(entry.error);
    }
    var poly := entry.value.bits;
    var exp, log := BuildTables(degree, poly);
    return Ok(BinaryExtensionField(degree, poly, exp[..], log));
  }
}
