/**
 * GaloisFieldFactory: from a requested order to a field. The order is factorised by trial
 * division into (prime, exponent); exponent 1 gives GF(p), prime 2 with a tabulated degree gives
 * GF(2^n), and everything else is refused.
 */
module GaloisFieldFactory {
  import opened Wrappers
  import opened NumberTheory
  import Bits
  import PrimeField
  import BinaryField
  import PrimitivePolynomials
  import opened Fields

  /** order is p^e for a prime p and an exponent e >= 1. */
  ghost predicate IsPrimePower(order: int)
  {
    exists p: nat, e: nat :: IsPrime(p) && e >= 1 && Pow(p, e) == order
  }

  // Reference definitions of the loops of factorize

  /** The first candidate d, d + 1, ... whose square is at most n and that divides n; n itself when none does. */
  function SmallestFactorFrom(n: nat, d: nat): (r: nat)
    requires 2 <= d <= n
    ensures d <= r <= n
    decreases n - d
  {
    if d * d > n then n
    else if n % d == 0 then d
    else
      SquareBound(d, n);
      SmallestFactorFrom(n, d + 1)
  }

  lemma SquareBound(d: nat, n: nat)
    requires 2 <= d && d * d <= n
    ensures d < n
  {
    MulLeftMonotone(d, 2, d);
  }

  /** Dividing out a factor p >= 2 leaves a smaller positive quotient. */
  lemma QuotientShrinks(t: nat, p: nat)
    requires p >= 2 && t >= 1 && t % p == 0
    ensures 1 <= t / p < t
  {
    var q := t / p;
    assert t == p * q;
    MulLeftMonotone(q, 2, p);
    assert q * 2 <= q * p;
  }

  /** How often p divides t, and what is left: t == p^e * rest with rest not divisible by p. */
  function Multiplicity(t: nat, p: nat): (r: (nat, nat))
    requires p >= 2 && t >= 1
    decreases t
  {
    if t % p != 0 then (0, t)
    else
      QuotientShrinks(t, p);
      var inner := Multiplicity(t / p, p);
      (inner.0 + 1, inner.1)
  }

  /** factorize as a function: the smallest factor and its multiplicity, or (0, 0) when something is left over. */
  function Factorization(order: nat): (r: (nat, nat))
    requires order >= 2
  {
    var p := SmallestFactorFrom(order, 2);
    var m := Multiplicity(order, p);
    if m.1 != 1 then (0, 0) else (p, m.0)
  }

  // Their properties

  lemma DividesTransitive(n: int, r: int, e: int)
    requires r >= 1 && e >= 1 && n % r == 0 && r % e == 0
    ensures n % e == 0
  {
    var a, b := n / r, r / e;
    assert n == e * (b * a) by {
      assert n == r * a && r == e * b;
    }
    ModUnique(n, e, b * a, 0);
  }

  /** The search returns a prime factor of n, and no number from 2 up to it (excluded) divides n. */
  lemma {:induction false} SmallestFactorFacts(n: nat, d: nat)
    requires 2 <= d <= n && forall e :: 2 <= e < d ==> n % e != 0
    ensures var r := SmallestFactorFrom(n, d);
      && d <= r <= n && n % r == 0 && IsPrime(r)
      && forall e :: 2 <= e < r ==> n % e != 0
    decreases n - d
  {
    var r := SmallestFactorFrom(n, d);
    if d * d > n {
      assert r == n;
      ModUnique(n, n, 1, 0);
      forall e | 2 <= e < n
        ensures n % e != 0
      {
        if e >= d && n % e == 0 {
          CofactorBelow(n, d, e);
        }
      }
    } else if n % d == 0 {
      forall e | 2 <= e < d
        ensures d % e != 0
      {
        if d % e == 0 {
          DividesTransitive(n, d, e);
        }
      }
    } else {
      SquareBound(d, n);
      SmallestFactorFacts(n, d + 1);
    }
  }

  /** A divisor e of n from d on, with d * d > n, has a cofactor n / e that is a divisor below d. */
  lemma CofactorBelow(n: nat, d: nat, e: nat)
    requires 2 <= d <= e < n && d * d > n && n % e == 0
    ensures 2 <= n / e < d && n % (n / e) == 0
  {
    var c := n / e;
    assert n == e * c;
    MulSign(e, c);
    assert c >= 2 by {
      if c <= 1 {
        MulLeftMonotone(e, c, 1);
      }
    }
    assert c < d by {
      if c >= d {
        MulLeftMonotone(e, d, c);
        MulLeftMonotone(d, d, e);
      }
    }
    ModUnique(n, c, e, 0);
  }

  /** t == p^e * rest, rest >= 1 and p does not divide rest. */
  lemma {:induction false} MultiplicityFacts(t: nat, p: nat)
    requires p >= 2 && t >= 1
    ensures var m := Multiplicity(t, p); Pow(p, m.0) * m.1 == t && m.1 >= 1 && m.1 % p != 0
    decreases t
  {
    if t % p == 0 {
      DivideOut(t, p);
      var q := t / p;
      MultiplicityFacts(q, p);
      var (e, rest) := Multiplicity(q, p);
      assert Multiplicity(t, p) == (e + 1, rest);
      PowStep(p, e, rest, q);
    }
  }

  lemma PowStep(p: int, e: nat, rest: int, q: int)
    requires Pow(p, e) * rest == q
    ensures Pow(p, e + 1) * rest == p * q
  {
    var pe := Pow(p, e);
    assert Pow(p, e + 1) == p * pe;
    assert (p * pe) * rest == p * (pe * rest);
  }

  /** The multiplicity of a prime q in q^k is k, with nothing left over. */
  lemma {:induction false} MultiplicityOfPower(q: nat, k: nat)
    requires q >= 2
    ensures Pow(q, k) >= 1 && Multiplicity(Pow(q, k), q) == (k, 1)
    decreases k
  {
    if k == 0 {
      ModUnique(1, q, 0, 1);
    } else {
      MultiplicityOfPower(q, k - 1);
      var t := Pow(q, k);
      assert t == q * Pow(q, k - 1);
      MulSign(q, Pow(q, k - 1));
      ModUnique(t, q, Pow(q, k - 1), 0);
    }
  }

  /** Euclid's lemma: a prime dividing a product divides a factor. */
  lemma EuclidsLemma(p: int, a: int, b: int)
    requires IsPrime(p) && (a * b) % p == 0
    ensures a % p == 0 || b % p == 0
  {
    var a', b' := a % p, b % p;
    if a' != 0 {
      var inv := PrimeField.Inverse(p, a').value;
      assert PrimeField.Multiply(p, a', b') == 0 by {
        MulMod(a, b, p);
        MulMod(a', b, p);
      }
      assert PrimeField.Multiply(p, inv, a') == 1 by {
        assert inv * a' == a' * inv;
      }
      PrimeField.MultiplyAssociates(p, inv, a', b');
      assert PrimeField.Multiply(p, 1, b') == b' by {
        ModUnique(b', p, 0, b');
      }
    }
  }

  /** A prime dividing a power of a prime q is q. */
  lemma {:induction false} PrimeDividingPrimePower(p: int, q: nat, k: nat)
    requires IsPrime(p) && IsPrime(q) && k >= 1 && Pow(q, k) % p == 0
    ensures p == q
    decreases k
  {
    assert Pow(q, k) == q * Pow(q, k - 1);
    EuclidsLemma(p, q, Pow(q, k - 1));
    if q % p == 0 {
      DivisorBound(q, p);
    } else if k > 1 {
      PrimeDividingPrimePower(p, q, k - 1);
    }
  }

  /**
   * factorize: (p, e) with e >= 1, p prime, p^e == order and p the smallest divisor from 2 on
   * when order is a prime power; (0, 0) otherwise.
   */
  lemma FactorizationCorrect(order: nat)
    requires order >= 2
    ensures var (p, e) := Factorization(order);
      && (e >= 1 <==> IsPrimePower(order))
      && (e >= 1 ==> IsPrime(p) && Pow(p, e) == order && forall d :: 2 <= d < p ==> order % d != 0)
      && (e == 0 ==> p == 0)
  {
    var p := SmallestFactorFrom(order, 2);
    SmallestFactorFacts(order, 2);
    MultiplicityFacts(order, p);
    var m := Multiplicity(order, p);
    if m.1 == 1 {
      assert Pow(p, m.0) == order;
    }
    if IsPrimePower(order) {
      var q: nat, k: nat :| IsPrime(q) && k >= 1 && Pow(q, k) == order;
      PrimeDividingPrimePower(p, q, k);
      MultiplicityOfPower(q, k);
    }
  }

  /** A prime order factorises as itself to the first power, the loop's fall-through case. */
  lemma FactorizationOfPrime(order: nat)
    requires IsPrime(order)
    ensures Factorization(order) == (order, 1)
  {
    SmallestFactorFacts(order, 2);
    assert SmallestFactorFrom(order, 2) == order;
    assert Pow(order, 1) == order;
    MultiplicityOfPower(order, 1);
  }

  /** Dividing out a factor p >= 2 of t >= 1 leaves a smaller positive cofactor. */
  lemma DivideOut(t: nat, p: nat)
    requires p >= 2 && t >= 1 && t % p == 0
    ensures 1 <= t / p < t && t == p * (t / p)
  {
    DivisorBound(t, p);
    ModUnique(t, p, t / p, 0);
    MulSign(p, t / p);
    if t / p >= 1 {
      MulLeftMonotone(t / p, 2, p);
    }
  }

  /** factorize, the trial-division loop of the source, proved to compute Factorization. */
  method Factorize(order: nat) returns (prime: nat, exponent: nat)
    requires order >= 2
    ensures (prime, exponent) == Factorization(order)
  {
    prime := 2;
    while prime * prime <= order
      invariant 2 <= prime <= order
      invariant SmallestFactorFrom(order, prime) == SmallestFactorFrom(order, 2)
      decreases order - prime
    {
      if order % prime != 0 {
        SquareBound(prime, order);
        prime := prime + 1;
        continue;
      }
      assert SmallestFactorFrom(order, prime) == prime;
      exponent := 0;
      var temp: nat := order;
      while temp % prime == 0
        invariant temp >= 1
        invariant Multiplicity(order, prime) == (exponent + Multiplicity(temp, prime).0, Multiplicity(temp, prime).1)
        decreases temp
      {
        DivideOut(temp, prime);
        temp := temp / prime;
        exponent := exponent + 1;
      }
      assert Multiplicity(temp, prime) == (0, temp);
      if temp != 1 {
        return 0, 0;
      }
      return prime, exponent;
    }
    assert SmallestFactorFrom(order, prime) == order;
    assert Pow(order, 1) == order;
    MultiplicityOfPower(order, 1);
    return order, 1;
  }

  /** isValidOrder: exactly the prime powers from 2 on. */
  function IsValidOrder(order: int): (r: bool)
    ensures r <==> order >= 2 && IsPrimePower(order)
  {
    if order < 2 then false
    else
      FactorizationCorrect(order);
      Factorization(order).1 > 0
  }

  /** getPrimeAndExponent: nothing for an invalid order, otherwise the factorisation. */
  function GetPrimeAndExponent(order: int): (r: Option<(nat, nat)>)
    ensures r.None? <==> !IsValidOrder(order)
    ensures r.Some? ==> IsPrime(r.value.0) && r.value.1 >= 1 && Pow(r.value.0, r.value.1) == order
  {
    if order < 2 then None
    else
      FactorizationCorrect(order);
      var (p, e) := Factorization(order);
      if e > 0 then Some((p, e)) else None
  }

  /** The orders the factory accepts: GF(p), or GF(2^n) for a tabulated degree n. */
  predicate IsSupportedOrder(order: int)
  {
    && IsValidOrder(order)
    && var (p, e) := GetPrimeAndExponent(order).value;
      e == 1 || (p == 2 && PrimitivePolynomials.Has(2, e))
  }

  /**
   * What create builds, as a value: the error, or which field. The checks come in the source's
   * order: too small, not a prime power, then GF(p) for exponent 1, GF(2^n) for a tabulated n,
   * and anything else unsupported.
   */
  function Creation(order: int): (r: Result<FieldKind>)
  {
    if order < 2 then Err(OrderTooSmall)
    else
      FactorizationCorrect(order);
      var (p, e) := Factorization(order);
      if e == 0 then Err(NotPrimePower)
      else if e == 1 then
        var k: FieldKind := PrimeKind(p);
        Ok(k)
      else if p == 2 && PrimitivePolynomials.Has(p, e) then
        var b := BinaryField.FromDegree(e).value;
        BinaryField.ValidIsWellFormed(b);
        var k: FieldKind := BinaryKind(b);
        Ok(k)
      else Err(UnsupportedField)
  }

  /** The order of a field description, as Fields.Order computes it for an instance. */
  function KindOrder(k: FieldKind): (r: int)
  {
    match k
    case PrimeKind(p) => p
    case BinaryKind(b) => BinaryField.Order(b)
  }

  /**
   * What create promises: the error cases in their order, success exactly for GF(p) and the
   * tabulated GF(2^n), a field of the requested order, a prime modulus for GF(p) and the
   * constructor's tables for GF(2^n).
   */
  lemma CreationCorrect(order: int)
    ensures order < 2 ==> Creation(order) == Err(OrderTooSmall)
    ensures order >= 2 && !IsPrimePower(order) ==> Creation(order) == Err(NotPrimePower)
    ensures IsValidOrder(order) && !IsSupportedOrder(order) ==> Creation(order) == Err(UnsupportedField)
    ensures Creation(order).Ok? <==> IsSupportedOrder(order)
    ensures Creation(order).Ok? ==> KindOrder(Creation(order).value) == order
    ensures Creation(order).Ok? && Creation(order).value.PrimeKind? ==> IsPrime(order)
    ensures Creation(order).Ok? && Creation(order).value.BinaryKind? ==>
      && BinaryField.Valid(Creation(order).value.binary)
      && Some((2, Creation(order).value.binary.degree)) == GetPrimeAndExponent(order)
  {
    if order >= 2 {
      FactorizationCorrect(order);
      var (p, e) := Factorization(order);
      assert GetPrimeAndExponent(order) == if e > 0 then Some((p, e)) else None;
      if e == 1 {
        assert Pow(p, 1) == p;
      } else if e > 1 && p == 2 && PrimitivePolynomials.Has(p, e) {
        assert BinaryField.Order(BinaryField.FromDegree(e).value) == Bits.Pow2(e);
        Fields.PowOfTwo(e);
      }
    }
  }

  /** Creation by the factorisation's cases. */
  lemma CreationCases(order: int, p: nat, e: nat)
    requires order >= 2 && (p, e) == Factorization(order)
    ensures e == 0 ==> Creation(order) == Err(NotPrimePower)
    ensures e == 1 ==> Creation(order).Ok? && Creation(order).value == PrimeKind(p)
    ensures e >= 2 && p == 2 && PrimitivePolynomials.Has(p, e) ==>
      BinaryField.FromDegree(e).Ok? && Creation(order).Ok?
      && Creation(order).value == BinaryKind(BinaryField.FromDegree(e).value)
    ensures e >= 2 && !(p == 2 && PrimitivePolynomials.Has(p, e)) ==> Creation(order) == Err(UnsupportedField)
  {
  }

  /** create, proved to build the field Creation describes. */
  method Create(order: int) returns (r: Result<Field>)
    ensures r.Ok? ==> fresh(r.value) && Creation(order) == Ok(r.value.kind)
    ensures r.Err? ==> Creation(order) == Err(r.error)
  {
    if order < 2 {
      return Err(OrderTooSmall);
    }
    var prime, exponent := Factorize(order);
    CreationCases(order, prime, exponent);
    if exponent == 0 {
      return Err(NotPrimePower);
    }
    if exponent == 1 {
      var f := new Field(PrimeKind(prime));
      return Ok(f);
    }
    if prime == 2 {
      if !PrimitivePolynomials.Has(prime, exponent) {
        return Err(UnsupportedField);
      }
      var built := BinaryField.Construct(exponent);
      BinaryField.ValidIsWellFormed(built.value);
      var f := new Field(BinaryKind(built.value));
      return Ok(f);
    }
    return Err(UnsupportedField);
  }

  /** 256 = 2^8 and 125 = 5^3, the factory's documented valid orders. */
  lemma PrimePowerExamples()
    ensures GetPrimeAndExponent(256) == Some((2, 8))
    ensures GetPrimeAndExponent(125) == Some((5, 3))
  {
    assert Factorization(256) == (2, 8) by {
      assert SmallestFactorFrom(256, 2) == 2;
      assert Pow(2, 8) == 256 by {
        assert Pow(2, 4) == 16;
      }
      MultiplicityOfPower(2, 8);
    }
    assert Factorization(125) == (5, 3) by {
      assert SmallestFactorFrom(125, 4) == 5;
      assert SmallestFactorFrom(125, 2) == 5;
      assert Pow(5, 3) == 125;
      MultiplicityOfPower(5, 3);
    }
  }

  /** factorize(9) is [3, 2]: 9 is a valid order. */
  lemma ValidOrderExample()
    ensures Factorization(9) == (3, 2)
  {
    assert SmallestFactorFrom(9, 2) == 3;
    assert Pow(3, 2) == 9;
    MultiplicityOfPower(3, 2);
  }

  /**
   * factorize gives [0, 0] for 6, 10 and 12, which have two distinct prime factors: the smallest
   * one leaves a cofactor other than 1. These orders are therefore invalid.
   */
  lemma InvalidOrderExamples()
    ensures Factorization(6) == (0, 0) && Factorization(10) == (0, 0) && Factorization(12) == (0, 0)
  {
    assert Multiplicity(6, 2) == (1, 3) by {
      assert Multiplicity(3, 2) == (0, 3);
    }
    assert Multiplicity(10, 2) == (1, 5) by {
      assert Multiplicity(5, 2) == (0, 5);
    }
    assert Multiplicity(12, 2) == (2, 3) by {
      assert Multiplicity(3, 2) == (0, 3);
      assert Multiplicity(6, 2) == (1, 3);
    }
  }
}
