/**
 * The constant tables of primitive polynomials, keyed by (prime, exponent).
 * For p = 2 an entry is the bit pattern of the polynomial (bit k is the coefficient of x^k);
 * for the odd primes it is the coefficient list, highest degree first.
 */
module PrimitivePolynomials {
  import opened Wrappers
  import opened Bits

  datatype Entry = Pattern(bits: nat) | CoefficientList(coefficients: seq<nat>)

  const GF2_POLYNOMIALS: map<int, nat> := map[
    2 := 0x7, 3 := 0xB, 4 := 0x13, 5 := 0x25, 6 := 0x43, 7 := 0x89, 8 := 0x11D, 9 := 0x211,
    10 := 0x409, 11 := 0x805, 12 := 0x1053, 13 := 0x201B, 14 := 0x4443, 15 := 0x8003, 16 := 0x1002B]

  const GF3_POLYNOMIALS: map<int, seq<nat>> := map[
    2 := [1, 0, 2], 3 := [1, 2, 0, 1], 4 := [1, 0, 0, 2, 2], 5 := [1, 0, 2, 0, 0, 1]]

  const GF5_POLYNOMIALS: map<int, seq<nat>> := map[2 := [1, 0, 2], 3 := [1, 0, 1, 2]]

  const GF7_POLYNOMIALS: map<int, seq<nat>> := map[2 := [1, 0, 3], 3 := [1, 0, 1, 4]]

  /** Whether the tables hold a polynomial for GF(prime^exponent). */
  function Has(prime: int, exponent: int): (r: bool)
    ensures r ==> prime == 2 || prime == 3 || prime == 5 || prime == 7
    ensures prime == 2 ==> (r <==> 2 <= exponent <= 16)
  {
    match prime
    case 2 => exponent in GF2_POLYNOMIALS
    case 3 => exponent in GF3_POLYNOMIALS
    case 5 => exponent in GF5_POLYNOMIALS
    case 7 => exponent in GF7_POLYNOMIALS
    case _ => false
  }

  /** Whether `bits` is x^n + ... + 1: its highest set bit is bit n and bit 0 is set. */
  predicate IsMonicOddPattern(bits: nat, n: nat)
  {
    Pow2(n) <= bits < Pow2(n + 1) && bits % 2 == 1
  }

  /** The powers of two up to 2^17, unfolded one step at a time. */
  lemma Pow2UpTo17()
    ensures Pow2(0) == 1
    ensures Pow2(1) == 2
    ensures Pow2(2) == 4
    ensures Pow2(3) == 8
    ensures Pow2(4) == 16
    ensures Pow2(5) == 32
    ensures Pow2(6) == 64
    ensures Pow2(7) == 128
    ensures Pow2(8) == 256
    ensures Pow2(9) == 512
    ensures Pow2(10) == 1024
    ensures Pow2(11) == 2048
    ensures Pow2(12) == 4096
    ensures Pow2(13) == 8192
    ensures Pow2(14) == 16384
    ensures Pow2(15) == 32768
    ensures Pow2(16) == 65536
    ensures Pow2(17) == 131072
  {
    assert Pow2(1) == 2;
    assert Pow2(2) == 4;
    assert Pow2(3) == 8;
    assert Pow2(4) == 16;
    assert Pow2(5) == 32;
    assert Pow2(6) == 64;
    assert Pow2(7) == 128;
    assert Pow2(8) == 256;
    assert Pow2(9) == 512;
    assert Pow2(10) == 1024;
    assert Pow2(11) == 2048;
    assert Pow2(12) == 4096;
    assert Pow2(13) == 8192;
    assert Pow2(14) == 16384;
    assert Pow2(15) == 32768;
    assert Pow2(16) == 65536;
    assert Pow2(17) == 131072;
  }

  /** Every GF(2^n) entry has degree n and a constant term, as its comment in the table records. */
  lemma BinaryEntriesAreMonicOdd(n: int)
    requires n in GF2_POLYNOMIALS
    ensures n >= 0 && IsMonicOddPattern(GF2_POLYNOMIALS[n], n)
  {
    Pow2UpTo17();
    if n == 2 {
      assert IsMonicOddPattern(0x7, 2);
    } else if n == 3 {
      assert IsMonicOddPattern(0xB, 3);
    } else if n == 4 {
      assert IsMonicOddPattern(0x13, 4);
    } else if n == 5 {
      assert IsMonicOddPattern(0x25, 5);
    } else if n == 6 {
      assert IsMonicOddPattern(0x43, 6);
    } else if n == 7 {
      assert IsMonicOddPattern(0x89, 7);
    } else if n == 8 {
      assert IsMonicOddPattern(0x11D, 8);
    } else if n == 9 {
      assert IsMonicOddPattern(0x211, 9);
    } else if n == 10 {
      assert IsMonicOddPattern(0x409, 10);
    } else if n == 11 {
      assert IsMonicOddPattern(0x805, 11);
    } else if n == 12 {
      assert IsMonicOddPattern(0x1053, 12);
    } else if n == 13 {
      assert IsMonicOddPattern(0x201B, 13);
    } else if n == 14 {
      assert IsMonicOddPattern(0x4443, 14);
    } else if n == 15 {
      assert IsMonicOddPattern(0x8003, 15);
    } else if n == 16 {
      assert IsMonicOddPattern(0x1002B, 16);
    }
  }

  /**
   * The lookup: it fails exactly when `Has` says no entry exists; a GF(2^n) entry has degree n
   * and a constant term, and an odd-prime entry is a monic list of exponent + 1 residues mod prime.
   */
  function Get(prime: int, exponent: int): (r: Result<Entry>)
    ensures r.Ok? <==> Has(prime, exponent)
    ensures r.Err? ==> r.error == NoPrimitivePolynomial
    ensures r.Ok? && prime == 2 ==> r.value.Pattern? && exponent >= 0 && IsMonicOddPattern(r.value.bits, exponent)
    ensures r.Ok? && prime != 2 ==>
      && r.value.CoefficientList?
      && |r.value.coefficients| == exponent + 1
      && r.value.coefficients[0] == 1
      && forall i :: 0 <= i < |r.value.coefficients| ==> r.value.coefficients[i] < prime
  {
    if prime == 2 && exponent in GF2_POLYNOMIALS then
      BinaryEntriesAreMonicOdd(exponent);
      Ok(Pattern(GF2_POLYNOMIALS[exponent]))
    else if prime == 3 && exponent in GF3_POLYNOMIALS then Ok(CoefficientList(GF3_POLYNOMIALS[exponent]))
    else if prime == 5 && exponent in GF5_POLYNOMIALS then Ok(CoefficientList(GF5_POLYNOMIALS[exponent]))
    else if prime == 7 && exponent in GF7_POLYNOMIALS then Ok(CoefficientList(GF7_POLYNOMIALS[exponent]))
    else Err(NoPrimitivePolynomial)
  }

  /** The GF(2^8) entry is x^8 + x^4 + x^3 + x^2 + 1, the QR-code polynomial 100011101. */
  lemma QrCodeFieldPolynomial()
    ensures Get(2, 8) == Ok(Pattern(0x11D))
    ensures 0x11D == Pow2(8) + Pow2(4) + Pow2(3) + Pow2(2) + Pow2(0)
  {
  }
}
