/**
 * The prime field GF(p): residues 0 .. p-1 with arithmetic modulo p, an extended-Euclid
 * inverse and a square-and-multiply power.
 */
module PrimeField {
  import opened Wrappers
  import opened NumberTheory

  predicate IsValidElement(p: int, x: int)
  {
    0 <= x < p
  }

  /** Addition wraps around at most once. */
  function Add(p: int, a: int, b: int): (r: int)
    requires p >= 1 && IsValidElement(p, a) && IsValidElement(p, b)
    ensures IsValidElement(p, r)
    ensures r == if a + b < p then a + b else a + b - p
  {
    var wraps := a + b >= p;
    ModUnique(a + b, p, if wraps then 1 else 0, if wraps then a + b - p else a + b);
    (a + b) % p
  }

  /** Subtraction undoes addition. */
  function Subtract(p: int, a: int, b: int): (r: int)
    requires p >= 1 && IsValidElement(p, a) && IsValidElement(p, b)
    ensures IsValidElement(p, r)
    ensures Add(p, r, b) == a
  {
    var x := a - b + p;
    var wraps := x >= p;
    ModUnique(x, p, if wraps then 1 else 0, if wraps then x - p else x);
    x % p
  }

  /** The product is the residue of a * b. */
  function Multiply(p: int, a: int, b: int): (r: int)
    requires p >= 1 && IsValidElement(p, a) && IsValidElement(p, b)
    ensures IsValidElement(p, r)
    ensures (a * b - r) % p == 0
  {
    var product := a * b;
    ModUnique(product - product % p, p, product / p, 0);
    product % p
  }

  /** One iteration of the loop of modInverse per call: (a, m) becomes (m, a mod m). */
  function EuclidLoop(a: nat, m: nat, x0: int, x1: int): (r: Result<int>)
    ensures r.Err? ==> r == Err(DivisionByZero)
    decreases m
  {
    if a <= 1 then Ok(x1)
    else if m == 0 then Err(DivisionByZero)
    else EuclidLoop(m, a % m, x1 - (a / m) * x0, x0)
  }

  /** modInverse as a function: reduce a, special-case modulus 1, run the loop, lift a negative x1. */
  function EuclidInverse(a: nat, m: nat): (r: Result<int>)
    requires m >= 1
    ensures r.Err? ==> r == Err(DivisionByZero)
  {
    if m == 1 then Ok(0)
    else match EuclidLoop(a % m, m, 0, 1)
      case Ok(x1) => Ok(if x1 < 0 then x1 + m else x1)
      case Err(e) => Err(e)
  }

  /**
   * The invariants of the loop of modInverse, with k0 and k1 the multiples of m0 that witness the
   * congruences: x1 * a0 == a and x0 * a0 == m modulo m0 (Bezout), x0 and x1 of opposite signs
   * with |x1| * m + |x0| * a == m0, and |x1| < m0.
   */
  predicate EuclidInvariant(a0: int, m0: int, a: nat, m: nat, x0: int, x1: int, k0: int, k1: int)
  {
    && m0 >= 2 && a >= 1
    && x1 * a0 - a == k1 * m0 && x0 * a0 - m == k0 * m0
    && Abs(x1) * m + Abs(x0) * a == m0 && (x0 <= 0 <= x1 || x1 <= 0 <= x0)
    && Abs(x1) < m0
  }

  /** One iteration keeps the invariants. */
  lemma EuclidStep(a0: int, m0: int, a: nat, m: nat, x0: int, x1: int, k0: int, k1: int)
    requires EuclidInvariant(a0, m0, a, m, x0, x1, k0, k1) && a > 1 && m > 0
    ensures EuclidInvariant(a0, m0, m, a % m, x1 - (a / m) * x0, x0, k1 - (a / m) * k0, k0)
  {
    var q := a / m;
    assert a == m * q + a % m;
    BezoutStep(a0, m0, a, m, q, a % m, x0, x1, k0, k1);
    NormStep(a, m, q, a % m, x0, x1);
    MulLeftMonotone(Abs(x0), 2, a);
    MulLeftMonotone(Abs(x1), 0, m);
  }

  lemma BezoutStep(a0: int, m0: int, a: int, m: int, q: int, r: int, x0: int, x1: int, k0: int, k1: int)
    requires a == m * q + r && x1 * a0 - a == k1 * m0 && x0 * a0 - m == k0 * m0
    ensures (x1 - q * x0) * a0 - r == (k1 - q * k0) * m0
  {
    calc {
      (x1 - q * x0) * a0 - r;
      x1 * a0 - q * (x0 * a0) - (a - m * q);
      (x1 * a0 - a) - q * (x0 * a0 - m);
      k1 * m0 - q * (k0 * m0);
      (k1 - q * k0) * m0;
    }
  }

  lemma NormStep(a: int, m: int, q: int, r: int, x0: int, x1: int)
    requires a == m * q + r && q >= 0 && (x0 <= 0 <= x1 || x1 <= 0 <= x0)
    ensures Abs(x1 - q * x0) == Abs(x1) + q * Abs(x0)
    ensures x1 - q * x0 <= 0 <= x0 || x0 <= 0 <= x1 - q * x0
    ensures Abs(x0) * r + Abs(x1 - q * x0) * m == Abs(x1) * m + Abs(x0) * a
  {
    var ax0, ax1 := Abs(x0), Abs(x1);
    if x0 <= 0 {
      assert q * x0 <= 0 by { MulLeftMonotone(q, x0, 0); }
      assert q * ax0 == -(q * x0);
    } else {
      assert q * x0 >= 0 by { MulLeftMonotone(q, 0, x0); }
      assert q * ax0 == q * x0;
    }
    calc {
      ax0 * r + (ax1 + q * ax0) * m;
      ax0 * (a - m * q) + ax1 * m + (q * ax0) * m;
      ax0 * a - ax0 * (m * q) + ax1 * m + (q * ax0) * m;
      ax1 * m + ax0 * a;
    }
  }

  /**
   * When the loop ends without dividing by zero, a == 1, so x1 is an inverse of a0 strictly
   * between -m0 and m0; when gcd(a, m) == 1 it never divides by zero.
   */
  lemma {:induction false} EuclidLoopSolves(a0: int, m0: int, a: nat, m: nat, x0: int, x1: int, k0: int, k1: int)
    requires EuclidInvariant(a0, m0, a, m, x0, x1, k0, k1)
    ensures Gcd(a, m) == 1 ==> EuclidLoop(a, m, x0, x1).Ok?
    ensures EuclidLoop(a, m, x0, x1).Ok? ==>
      var x := EuclidLoop(a, m, x0, x1).value; -m0 < x < m0 && (x * a0) % m0 == 1
    decreases m
  {
    if a <= 1 {
      assert x1 * a0 == m0 * k1 + 1;
      ModAddMultiple(1, k1, m0);
      ModUnique(1, m0, 0, 1);
    } else if m > 0 {
      EuclidStep(a0, m0, a, m, x0, x1, k0, k1);
      EuclidLoopSolves(a0, m0, m, a % m, x1 - (a / m) * x0, x0, k1 - (a / m) * k0, k0);
    }
  }

  /**
   * For a modulus m >= 2 and 1 <= a < m: a successful modInverse returns x in [1, m) with
   * a * x == 1 modulo m, and it succeeds whenever m is prime.
   */
  lemma EuclidInverseCorrect(a: int, m: int)
    requires m >= 2 && 1 <= a < m
    ensures IsPrime(m) ==> EuclidInverse(a, m).Ok?
    ensures EuclidInverse(a, m).Ok? ==>
      var x := EuclidInverse(a, m).value; 1 <= x < m && (a * x) % m == 1
  {
    ModUnique(a, m, 0, a);
    if IsPrime(m) {
      PrimeCoprime(m, a);
    }
    assert EuclidInvariant(a, m, a, m, 0, 1, -1, 0);
    EuclidLoopSolves(a, m, a, m, 0, 1, -1, 0);
    var r := EuclidLoop(a, m, 0, 1);
    if r.Ok? {
      LiftedInverse(a, m, r.value);
    }
  }

  /** Adding m to a negative inverse strictly above -m keeps it an inverse and puts it in [1, m). */
  lemma LiftedInverse(a: int, m: int, x: int)
    requires m >= 2 && -m < x < m && (x * a) % m == 1
    ensures var y := if x < 0 then x + m else x; 1 <= y < m && (a * y) % m == 1
  {
    if x < 0 {
      assert (x + m) * a == m * a + x * a;
      ModAddMultiple(x * a, a, m);
      assert a * (x + m) == (x + m) * a;
    } else {
      assert x * a == a * x;
    }
  }

  /** inverse: zero fails; otherwise the extended-Euclid result, a true inverse in [1, p). */
  function Inverse(p: int, a: int): (r: Result<int>)
    requires p >= 2 && IsValidElement(p, a)
    ensures a == 0 ==> r == Err(DivisionByZero)
    ensures r.Err? ==> r == Err(DivisionByZero)
    ensures IsPrime(p) && a != 0 ==> r.Ok?
    ensures r.Ok? ==> 1 <= r.value < p && Multiply(p, a, r.value) == 1
  {
    if a == 0 then Err(DivisionByZero)
    else
      EuclidInverseCorrect(a, p);
      EuclidInverse(a, p)
  }

  lemma MultiplyAssociates(p: int, a: int, b: int, c: int)
    requires p >= 1 && IsValidElement(p, a) && IsValidElement(p, b) && IsValidElement(p, c)
    ensures Multiply(p, Multiply(p, a, b), c) == Multiply(p, a, Multiply(p, b, c))
  {
    calc {
      Multiply(p, Multiply(p, a, b), c);
      ((a * b) % p * c) % p;
      { MulMod(a * b, c, p); }
      ((a * b) * c) % p;
      { assert (a * b) * c == a * (b * c); }
      (a * (b * c)) % p;
      { MulMod(a, b * c, p); }
      (a * ((b * c) % p)) % p;
    }
  }

  lemma AddAssociates(p: int, a: int, b: int, c: int)
    requires p >= 1 && IsValidElement(p, a) && IsValidElement(p, b) && IsValidElement(p, c)
    ensures Add(p, Add(p, a, b), c) == Add(p, a, Add(p, b, c))
  {
  }

  /** Multiplication distributes over addition, for every modulus. */
  lemma Distributes(p: int, a: int, b: int, c: int)
    requires p >= 1 && IsValidElement(p, a) && IsValidElement(p, b) && IsValidElement(p, c)
    ensures Multiply(p, a, Add(p, b, c)) == Add(p, Multiply(p, a, b), Multiply(p, a, c))
  {
    calc {
      Multiply(p, a, Add(p, b, c));
      (a * ((b + c) % p)) % p;
      { MulMod(a, b + c, p); }
      (a * (b + c)) % p;
      { assert a * (b + c) == a * b + a * c; }
      (a * b + a * c) % p;
      { AddMod(a * b, a * c, p); }
      ((a * b) % p + a * c) % p;
      { AddMod(a * c, (a * b) % p, p); }
      ((a * b) % p + (a * c) % p) % p;
    }
  }

  /** Multiplying by an inverse of b and then by b gives back a. */
  lemma MultiplyByInverse(p: int, a: int, b: int, inv: int)
    requires p >= 2 && IsValidElement(p, a) && IsValidElement(p, b) && IsValidElement(p, inv)
    requires Multiply(p, b, inv) == 1
    ensures Multiply(p, Multiply(p, a, inv), b) == a
  {
    MultiplyAssociates(p, a, inv, b);
    assert inv * b == b * inv;
    assert Multiply(p, inv, b) == 1;
    ModUnique(a, p, 0, a);
    assert a * 1 == a;
  }

  /** divide: zero divisor fails; otherwise a times the inverse of b, so multiplying back by b gives a. */
  function Divide(p: int, a: int, b: int): (r: Result<int>)
    requires p >= 2 && IsValidElement(p, a) && IsValidElement(p, b)
    ensures b == 0 ==> r == Err(DivisionByZero)
    ensures r.Err? ==> r == Err(DivisionByZero)
    ensures IsPrime(p) && b != 0 ==> r.Ok?
    ensures r.Ok? ==> IsValidElement(p, r.value) && Multiply(p, r.value, b) == a
  {
    if b == 0 then Err(DivisionByZero)
    else match Inverse(p, b)
      case Err(e) => Err(e)
      case Ok(inv) =>
        MultiplyByInverse(p, a, b, inv);
        Ok(Multiply(p, a, inv))
  }

  /** power: a^k modulo p; a negative k first replaces a by its inverse (so 0 fails) and negates k. */
  function Power(p: int, a: int, k: int): Result<int>
    requires p >= 2 && IsValidElement(p, a)
  {
    if k < 0 then
      match Inverse(p, a)
      case Err(e) => Err(e)
      case Ok(inv) => Ok(Pow(inv, -k) % p)
    else Ok(Pow(a, k) % p)
  }

  /**
   * What power promises: 1 for the exponent 0, a field element on success, failure only for a
   * negative exponent whose base has no inverse (zero among them), and success otherwise when p is prime.
   */
  lemma PowerLaws(p: int, a: int, k: int)
    requires p >= 2 && IsValidElement(p, a)
    ensures Power(p, a, k).Ok? ==> IsValidElement(p, Power(p, a, k).value)
    ensures k == 0 ==> Power(p, a, k) == Ok(1)
    ensures k < 0 && a == 0 ==> Power(p, a, k) == Err(DivisionByZero)
    ensures Power(p, a, k).Err? ==> k < 0 && Power(p, a, k).error == DivisionByZero
    ensures IsPrime(p) && a != 0 ==> Power(p, a, k).Ok?
  {
    if k == 0 {
      ModUnique(1, p, 0, 1);
    }
  }

  /** A negative exponent is the positive one applied to the inverse. */
  lemma PowerOfNegative(p: int, a: int, k: int)
    requires p >= 2 && IsPrime(p) && IsValidElement(p, a) && a != 0 && k > 0
    ensures Power(p, a, -k) == Power(p, Inverse(p, a).value, k)
  {
  }

  /** For exponents k1, k2 >= 0, a^(k1 + k2) == a^k1 * a^k2. */
  lemma PowerAdd(p: int, a: int, k1: nat, k2: nat)
    requires p >= 2 && IsValidElement(p, a)
    ensures Power(p, a, k1 + k2).Ok? && Power(p, a, k1).Ok? && Power(p, a, k2).Ok?
    ensures Power(p, a, k1 + k2).value == Multiply(p, Power(p, a, k1).value, Power(p, a, k2).value)
  {
    var x, y := Pow(a, k1), Pow(a, k2);
    PowAdd(a, k1, k2);
    MulMod(x, y, p);
    MulMod(x % p, y, p);
  }

  /** One round of square-and-multiply keeps result * base^k unchanged modulo m. */
  lemma SquareStep(result: int, base: int, k: nat, m: int)
    requires m >= 1 && k > 0
    ensures ((if k % 2 == 1 then (result * base) % m else result) * Pow((base * base) % m, k / 2)) % m
         == (result * Pow(base, k)) % m
  {
    var h := k / 2;
    var bb := base * base;
    PowSquare(base, h);
    calc {
      (result * Pow(bb % m, h)) % m;
      { MulMod(result, Pow(bb % m, h), m); }
      (result * (Pow(bb % m, h) % m)) % m;
      { PowMod(bb, h, m); }
      (result * (Pow(bb, h) % m)) % m;
      { MulMod(result, Pow(bb, h), m); }
      (result * Pow(base, 2 * h)) % m;
    }
    if k % 2 == 1 {
      calc {
        ((result * base) % m * Pow(bb % m, h)) % m;
        { MulMod(result * base, Pow(bb % m, h), m); }
        ((result * base) * Pow(bb % m, h)) % m;
        { MulMod(result * base, Pow(bb % m, h), m); PowMod(bb, h, m); MulMod(result * base, Pow(bb, h), m); }
        ((result * base) * Pow(base, 2 * h)) % m;
        { assert (result * base) * Pow(base, 2 * h) == result * (base * Pow(base, 2 * h)); }
        (result * Pow(base, k)) % m;
      }
    }
  }

  /** modInverse, the loop of the source, proved to compute EuclidInverse. */
  method ModInverse(a0: nat, m0: nat) returns (r: Result<int>)
    requires m0 >= 1
    ensures r == EuclidInverse(a0, m0)
  {
    var a: nat := a0 % m0;
    var m: nat := m0;
    var x0, x1 := 0, 1;
    if m == 1 {
      return Ok(0);
    }
    while a > 1
      invariant EuclidLoop(a, m, x0, x1) == EuclidLoop(a0 % m0, m0, 0, 1)
      decreases m
    {
      if m == 0 {
        return Err(DivisionByZero);
      }
      var q := a / m;
      var t := m;
      m := a % m;
      a := t;
      var t' := x0;
      x0 := x1 - q * x0;
      x1 := t';
    }
    if x1 < 0 {
      x1 := x1 + m0;
    }
    return Ok(x1);
  }

  /** power, the square-and-multiply loop of the source, proved to compute Power. */
  method SquareAndMultiply(p: int, element: int, exponent: int) returns (r: Result<int>)
    requires p >= 2 && IsValidElement(p, element)
    ensures r == Power(p, element, exponent)
  {
    var e, k := element, exponent;
    if k < 0 {
      if e == 0 {
        return Err(DivisionByZero);
      }
      var inv := ModInverse(e, p);
      if inv.Err? {
        return Err(inv.error);
      }
      EuclidInverseCorrect(e, p);
      e, k := inv.value, -k;
    }
    ghost var expected := Pow(e, k) % p;
    assert Power(p, element, exponent) == Ok(expected);
    var result := 1;
    var base := e % p;
    ModUnique(e, p, 0, e);
    while k > 0
      invariant 0 <= k && IsValidElement(p, result) && IsValidElement(p, base)
      invariant (result * Pow(base, k)) % p == expected
    {
      SquareStep(result, base, k, p);
      if k % 2 == 1 {
        result := (result * base) % p;
      }
      base := (base * base) % p;
      k := k / 2;
    }
    ModUnique(result, p, 0, result);
    assert result * Pow(base, k) == result;
    return Ok(result);
  }

  /** Fermat's little theorem in GF(7): every nonzero element to the sixth power is 1. */
  lemma FermatSeven(a: int)
    requires 1 <= a <= 6
    ensures Power(7, a, 6) == Ok(1)
  {
    assert Pow(1, 6) % 7 == 1 && Pow(2, 6) % 7 == 1 && Pow(3, 6) % 7 == 1;
    assert Pow(4, 6) % 7 == 1 && Pow(5, 6) % 7 == 1 && Pow(6, 6) % 7 == 1;
  }
}
