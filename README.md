# Galois fields and polynomials over them

This project models the core of the PHP library `galois-fields` in Dafny:

- the two finite-field implementations, prime fields GF(p) and binary extension fields GF(2^n),
  behind one capability set (order, characteristic, degree, element test, add, subtract,
  multiply, divide, inverse, power);
- the table of primitive polynomials and the factory that turns a requested order into a field;
- the coefficient-list polynomial shared by the immutable and the mutable polynomial class
  (normalisation, accessors, Horner evaluation, addition, subtraction, convolution product,
  scalar product and long division);
- the arithmetic service (gcd, coprimality, multi-point evaluation, Lagrange interpolation,
  formal derivative);
- the bit-string converter (one fixed-width codeword per coefficient);
- the text formatter (`"5x^2 + 3x + 7"` and the variant that writes coefficients as powers of α).

A polynomial is a list of coefficients, highest degree first, as in the library; the model
requires them to be field elements (see "## Left out"). A field
instance is a Dafny `class` with a constant description. Polynomials compare their fields by
object identity, and the class gives the model the same test. The immutable polynomial is a
`datatype` whose operations are functions. The mutable polynomial is a `class` whose methods
overwrite its coefficient list and return the receiver. Every loop of the source is a method
proved to compute a specification function. The properties the library promises are proved
about those functions:

- round trips: decode∘encode, the text read back, and subtract undoing add;
- error cases, in the source's order;
- degree bounds;
- the field laws that hold once the tables really define a field.

Modules, one per file: `Wrappers` (Option, Result, the error kinds), `NumberTheory`, `Bits`
(powers of two and XOR on naturals), `PrimitivePolynomials`, `PrimeField`, `BinaryField`,
`Fields`, `GaloisFieldFactory`, `PolynomialCore`, `ImmutablePolynomials`, `MutablePolynomials`,
`PolynomialRing` (ring laws of the coefficient-list product and of evaluation),
`PolynomialArithmetic`, `InterpolationValues` (the values the interpolant takes),
`PolynomialConverters` and `PolynomialFormatter`.

Exceptions become a `Result` with an error kind:

| PHP exception | error kind |
|---|---|
| `DivisionByZeroError` | `DivisionByZero` |
| `InvalidArgumentException` | `InvalidArgument` |
| different field instances | `FieldMismatch` |
| `InvalidFieldOrderException` | `OrderTooSmall` or `NotPrimePower` |
| `RuntimeException` for unsupported fields | `UnsupportedField` |
| `RuntimeException` for a missing table entry | `NoPrimitivePolynomial` |
| `ArithmeticError` from `1 << $degree` with a negative degree | `NegativeShift` |
| `BadMethodCallException` | `BadMethodCall` |
| the converter's rejection of a prime field | `NotBinaryField` |

## Model

| member | source | states |
|---|---|---|
| PrimitivePolynomials.Has | src/Field/PrimitivePolynomials.php:95-104 | an entry exists only for the primes 2, 3, 5, 7; for p = 2 exactly for the degrees 2 to 16 |
| PrimitivePolynomials.BinaryEntriesAreMonicOdd | src/Field/PrimitivePolynomials.php:21-37 | every GF(2^n) entry has its highest set bit at n and bit 0 set, as each table comment records |
| PrimitivePolynomials.Get | src/Field/PrimitivePolynomials.php:72-93 | the lookup fails exactly when Has says no; a GF(2^n) entry is a degree-n pattern with constant term, an odd-prime entry a monic list of exponent+1 residues |
| PrimitivePolynomials.QrCodeFieldPolynomial | src/Field/PrimitivePolynomials.php:28 | the GF(2^8) entry is 0x11D = x^8 + x^4 + x^3 + x^2 + 1 |
| PrimeField.Add | src/Field/PrimeField.php:35-38 | the sum is a field element, a + b brought below p by at most one subtraction of p |
| PrimeField.Subtract | src/Field/PrimeField.php:40-43 | the difference is an element that added back to b gives a |
| PrimeField.Multiply | src/Field/PrimeField.php:45-48 | the product is an element congruent to a * b modulo p |
| PrimeField.MultiplyAssociates | src/Field/PrimeField.php:45-48 | the modular product is associative |
| PrimeField.AddAssociates | src/Field/PrimeField.php:35-38 | the modular sum is associative |
| PrimeField.Distributes | src/Field/PrimeField.php:45-48 | the modular product distributes over the modular sum |
| PrimeField.EuclidInverse | src/Field/PrimeField.php:98-127 | the extended-Euclid inverse fails only with a division by zero |
| PrimeField.EuclidLoopSolves | src/Field/PrimeField.php:110-120 | the loop succeeds whenever the gcd is 1, and its coefficient then solves x * a ≡ 1 within bounds |
| PrimeField.EuclidInverseCorrect | src/Field/PrimeField.php:98-127 | for a prime modulus every nonzero a has an inverse in 1..m-1 whose product with a is 1 modulo m |
| PrimeField.ModInverse | src/Field/PrimeField.php:98-127 | the while loop computes EuclidInverse |
| PrimeField.Inverse | src/Field/PrimeField.php:59-67 | zero fails with a division by zero; modulo a prime every other element has an inverse whose product with it is 1 |
| PrimeField.Divide | src/Field/PrimeField.php:50-57 | a zero divisor fails; modulo a prime the quotient exists and quotient * b == a |
| PrimeField.PowerLaws | src/Field/PrimeField.php:69-88 | exponent 0 gives 1, zero to a negative power fails, nothing else fails modulo a prime, results are elements |
| PrimeField.PowerOfNegative | src/Field/PrimeField.php:69-88 | a^(-k) is the k-th power of the inverse of a |
| PrimeField.PowerAdd | src/Field/PrimeField.php:69-88 | a^(k1+k2) == a^k1 * a^k2 |
| PrimeField.SquareAndMultiply | src/Field/PrimeField.php:69-88 | the square-and-multiply loop computes Power |
| PrimeField.FermatSeven | tests/Field/PrimeFieldTest.php:89-97 | a^6 == 1 in GF(7) for a = 1..6 |
| BinaryField.TablesStep | src/Field/BinaryExtensionField.php:148-159 | one pass of the table loop appends α^k to exp, records log[α^k] = k and multiplies the cursor by α |
| BinaryField.StepInRange | src/Field/BinaryExtensionField.php:152-158 | shifting and reducing a nonzero element gives a nonzero element below 2^n |
| BinaryField.AlphaInRange | src/Field/BinaryExtensionField.php:148-159 | every power α^k is in 1..2^n-1 |
| BinaryField.StepInjective | src/Field/BinaryExtensionField.php:152-158 | multiplying by α is injective on nonzero elements |
| BinaryField.PrimitivePowersDistinct | src/Field/BinaryExtensionField.php:143-168 | for a primitive polynomial the powers α^0..α^(2^n-2) are pairwise distinct |
| BinaryField.PrimitiveLogCovers | src/Field/BinaryExtensionField.php:143-168 | for a primitive polynomial the log table has an entry for every nonzero element |
| BinaryField.ExpTableFacts | src/Field/BinaryExtensionField.php:143-168 | exp has 2^n nonzero entries below 2^n, exp[i] == α^i, exp[0] == 1 and the wrap-around entry exp[2^n-1] == exp[0] |
| BinaryField.LogTableFacts | src/Field/BinaryExtensionField.php:148-159 | every log entry points back to its element in exp, and every exp entry before the last has a log entry |
| BinaryField.ValidIsWellFormed | src/Field/BinaryExtensionField.php:23-37 | a constructed field has a tabulated degree, a monic odd polynomial and tables of the right shape |
| BinaryField.LogOf | src/Field/BinaryExtensionField.php:66-79 | a log lookup is an index of exp below order-1 that maps back to the element when it has an entry |
| BinaryField.Subtract | src/Field/BinaryExtensionField.php:60-64 | subtraction is the same XOR as addition |
| BinaryField.AddLaws | src/Field/BinaryExtensionField.php:54-58 | a + a == 0, addition commutes, 0 is neutral |
| BinaryField.Multiply | src/Field/BinaryExtensionField.php:66-79 | the product is an element, zero exactly when a factor is zero |
| BinaryField.MultiplyCommutes | src/Field/BinaryExtensionField.php:66-79 | the table product commutes |
| BinaryField.MultiplyByLogs | src/Field/BinaryExtensionField.php:66-79 | the product of nonzero elements is exp[(log a + log b) mod (order-1)] |
| BinaryField.Divide | src/Field/BinaryExtensionField.php:81-100 | fails exactly for a zero divisor; the quotient is an element, zero exactly when a is zero |
| BinaryField.Inverse | src/Field/BinaryExtensionField.php:102-112 | fails exactly for zero; an inverse is a nonzero element |
| BinaryField.Power | src/Field/BinaryExtensionField.php:114-133 | exponent 0 gives 1, zero to any other power gives 0 (also for negative powers), a nonzero base never gives 0 |
| BinaryField.PowerOfNegative | src/Field/BinaryExtensionField.php:114-133 | e^(-k) is the k-th power of the inverse of e |
| BinaryField.PrimitiveTablesInvert | src/Field/BinaryExtensionField.php:143-168 | with a primitive polynomial, log and exp are inverse tables |
| BinaryField.MultiplyOne | src/Field/BinaryExtensionField.php:66-79 | when the tables invert each other, 1 is neutral for the product |
| BinaryField.MultiplyByInverse | src/Field/BinaryExtensionField.php:102-112 | when the tables invert each other, e * inverse(e) == 1 |
| BinaryField.DivideThenMultiply | src/Field/BinaryExtensionField.php:81-100 | when the tables invert each other, (a / b) * b == a |
| BinaryField.QrCodeFieldPowers | tests/AlphaPowerTest.php:342-359 | in the GF(2^8) tables, α^8 == 29 and α^25 == 3 |
| BinaryField.AddAssociates | src/Field/BinaryExtensionField.php:54-58 | XOR addition is associative |
| BinaryField.MultiplyAssociates | src/Field/BinaryExtensionField.php:66-79 | when the tables invert each other, the table product is associative |
| BinaryField.ProductOfPowers | src/Field/BinaryExtensionField.php:66-79 | exp[i] * exp[j] == exp[i + j] while i + j stays below order - 1 |
| BinaryField.QrCodeProductExample | src/Field/BinaryExtensionField.php:66-79 | in the GF(2^8) field built from 0x11D, when its tables invert each other, 2 * 3 == 6 |
| BinaryField.PowerOrderMinusOne | src/Field/BinaryExtensionField.php:114-133 | e^(order - 1) == 1 for every nonzero element, from the tables alone |
| BinaryField.PowerStep | src/Field/BinaryExtensionField.php:114-133 | e^(k + 1) == e^k * e for k >= 0 and a nonzero e, when the tables invert each other |
| BinaryField.FromDegree | src/Field/BinaryExtensionField.php:23-37 | a negative degree fails with NegativeShift (the shift at line 26 comes first); other degrees fail with NoPrimitivePolynomial outside 2..16; success exactly for 2..16, with valid tables and order 2^degree |
| BinaryField.BuiltTablesFacts | src/Field/BinaryExtensionField.php:143-168 | the built tables have the shape the field operations rely on |
| BinaryField.BuildTables | src/Field/BinaryExtensionField.php:143-168 | the loop fills the exp array and the log map with ExpTable and LogTable |
| BinaryField.Construct | src/Field/BinaryExtensionField.php:23-37 | the constructor builds FromDegree(degree) |
| Fields.Order | src/Field/GaloisFieldInterface.php:15 | the order is at least 2: p, or 2^n |
| Fields.Characteristic | src/Field/GaloisFieldInterface.php:20 | the characteristic is p for GF(p) and 2 for GF(2^n) |
| Fields.Degree | src/Field/GaloisFieldInterface.php:25 | order == characteristic^degree |
| Fields.ValidElementRange | src/Field/GaloisFieldInterface.php:64 | x is a valid element exactly when 0 <= x < order |
| Fields.Subtract | src/Field/GaloisFieldInterface.php:35 | subtract undoes add: (a - b) + b == a |
| Fields.Multiply | src/Field/GaloisFieldInterface.php:40 | the product is an element, zero when a factor is zero |
| Fields.Inverse | src/Field/GaloisFieldInterface.php:54 | zero fails with a division by zero; an inverse is a nonzero element |
| Fields.Divide | src/Field/GaloisFieldInterface.php:47 | a zero divisor fails with a division by zero |
| Fields.Power | src/Field/GaloisFieldInterface.php:59 | exponent 0 gives 1; in a field only GF(p) with zero to a negative power fails |
| Fields.AddLaws | src/Field/GaloisFieldInterface.php:30 | addition commutes and 0 is neutral |
| Fields.SubtractZero | src/Field/GaloisFieldInterface.php:35 | a - b == 0 exactly when a == b |
| Fields.MultiplyCommutes | src/Field/GaloisFieldInterface.php:40 | multiplication commutes |
| Fields.MultiplyOne | src/Field/GaloisFieldInterface.php:40 | in a field 1 is neutral |
| Fields.MultiplyByInverse | src/Field/GaloisFieldInterface.php:54 | in a field a * inverse(a) == 1 for a nonzero a |
| Fields.DivideThenMultiply | src/Field/GaloisFieldInterface.php:47 | in a field (a / b) * b == a for a nonzero b |
| Fields.DivideSelf | src/Field/GaloisFieldInterface.php:47 | in a field a / a == 1 for a nonzero a |
| Fields.NoZeroDivisors | src/Field/GaloisFieldInterface.php:40 | in a field a product is zero exactly when a factor is |
| Fields.AddAssociates | src/Field/GaloisFieldInterface.php:30 | addition is associative in both kinds of field |
| Fields.AddCancels | src/Field/GaloisFieldInterface.php:30 | a + c == b + c implies a == b |
| Fields.SubtractLaws | src/Field/GaloisFieldInterface.php:35 | a - 0 == a and (a + b) - b == a |
| Fields.MultiplyAssociates | src/Field/GaloisFieldInterface.php:40 | in a field the product is associative |
| Fields.Distributes | src/Field/GaloisFieldInterface.php:40 | where the ring laws hold, the product distributes over the sum on both sides |
| GaloisFieldFactory.SmallestFactorFacts | src/Field/GaloisFieldFactory.php:61-63 | the trial-division search stops at a prime divisor with no smaller divisor from 2 on |
| GaloisFieldFactory.MultiplicityFacts | src/Field/GaloisFieldFactory.php:70-73 | the division loop splits t into p^e * rest with rest not divisible by p |
| GaloisFieldFactory.MultiplicityOfPower | src/Field/GaloisFieldFactory.php:70-73 | dividing q^k by q counts exactly k and leaves 1 |
| GaloisFieldFactory.FactorizationCorrect | src/Field/GaloisFieldFactory.php:58-85 | the exponent is positive exactly for prime powers, and then p is prime, p^e == order and p is the smallest divisor; otherwise (0, 0) |
| GaloisFieldFactory.FactorizationOfPrime | src/Field/GaloisFieldFactory.php:84 | a prime order factorises as (order, 1) |
| GaloisFieldFactory.Factorize | src/Field/GaloisFieldFactory.php:58-85 | the nested loops compute Factorization |
| GaloisFieldFactory.IsValidOrder | src/Field/GaloisFieldFactory.php:90-98 | valid exactly for the prime powers from 2 on |
| GaloisFieldFactory.GetPrimeAndExponent | src/Field/GaloisFieldFactory.php:105-114 | nothing exactly for an invalid order, else a prime and a positive exponent whose power is the order |
| GaloisFieldFactory.CreationCorrect | src/Field/GaloisFieldFactory.php:19-50 | errors in order (too small, not a prime power, unsupported); success exactly for GF(p) and tabulated GF(2^n), with the requested order |
| GaloisFieldFactory.CreationCases | src/Field/GaloisFieldFactory.php:25-49 | what create returns for each factorisation case |
| GaloisFieldFactory.Create | src/Field/GaloisFieldFactory.php:19-50 | create builds a fresh field described by Creation, or returns its error |
| GaloisFieldFactory.PrimePowerExamples | tests/Field/GaloisFieldFactoryTest.php:91-93 | 256 is 2^8 and 125 is 5^3 |
| GaloisFieldFactory.ValidOrderExample | tests/Field/GaloisFieldFactoryTest.php:33 | 9 factorises as 3^2 |
| GaloisFieldFactory.InvalidOrderExamples | tests/Field/GaloisFieldFactoryTest.php:63-65 | 6, 10 and 12 factorise as (0, 0) |
| PolynomialCore.Normalized | src/Polynomial/AbstractPolynomial.php:218-225 | the result has no leading zero, is the tail of the input, and only zeros were dropped |
| PolynomialCore.Normalize | src/Polynomial/AbstractPolynomial.php:218-225 | the loop that strips leading zeros computes Normalized |
| PolynomialCore.NormalizedKeepsNormal | src/Polynomial/AbstractPolynomial.php:218-225 | normalising a normalised list changes nothing |
| PolynomialCore.NormalizedUnique | src/Polynomial/AbstractPolynomial.php:218-225 | a zero-free tail after only zeros is the normalised form |
| PolynomialCore.NormalizedDropsZero | src/Polynomial/AbstractPolynomial.php:218-225 | a leading zero does not change the normalised form |
| PolynomialCore.AccessorsAgree | src/Polynomial/AbstractPolynomial.php:37-59 | degree -1 exactly for zero; the leading coefficient is the coefficient at the degree, nonzero when normalised; nothing above the degree |
| PolynomialCore.NormalizedCoefficients | src/Polynomial/AbstractPolynomial.php:52-59 | normalising keeps every coefficient |
| PolynomialCore.CoefficientsDetermine | src/Polynomial/AbstractPolynomial.php:89-92 | normalised lists with the same coefficient at every degree are equal |
| PolynomialCore.Horner | src/Polynomial/AbstractPolynomial.php:71-87 | the value is a field element |
| PolynomialCore.Evaluate | src/Polynomial/AbstractPolynomial.php:71-87 | the Horner loop computes Horner |
| PolynomialCore.HornerAtZero | src/Polynomial/AbstractPolynomial.php:71-87 | evaluating at 0 gives the constant term; the zero polynomial evaluates to 0 |
| PolynomialCore.SumCoefficientsAt | src/Polynomial/AbstractPolynomial.php:95-110 | the sum list has length max(|a|, |b|) and holds the field sum at every degree |
| PolynomialCore.DifferenceCoefficientsAt | src/Polynomial/AbstractPolynomial.php:113-128 | the difference list has length max(|a|, |b|) and holds the field difference at every degree |
| PolynomialCore.AddResult | src/Polynomial/AbstractPolynomial.php:95-110 | fails exactly for different field instances |
| PolynomialCore.SubtractResult | src/Polynomial/AbstractPolynomial.php:113-128 | fails exactly for different field instances |
| PolynomialCore.ComputeAdd | src/Polynomial/AbstractPolynomial.php:95-110 | the loop computes AddResult |
| PolynomialCore.ComputeSubtract | src/Polynomial/AbstractPolynomial.php:113-128 | the loop computes SubtractResult |
| PolynomialCore.ProductCoefficients | src/Polynomial/AbstractPolynomial.php:131-153 | the product is empty for a zero operand, else |a| + |b| - 1 field elements |
| PolynomialCore.MultiplyResult | src/Polynomial/AbstractPolynomial.php:131-153 | fails exactly for different field instances |
| PolynomialCore.ComputeMultiply | src/Polynomial/AbstractPolynomial.php:131-153 | the double loop computes the convolution MultiplyResult |
| PolynomialCore.ProductLeading | src/Polynomial/AbstractPolynomial.php:142-150 | the leading product coefficient is the product of the leading ones, nonzero in a field |
| PolynomialCore.ScaledCoefficients | src/Polynomial/AbstractPolynomial.php:156-168 | every entry is a field element |
| PolynomialCore.ComputeScalarMultiply | src/Polynomial/AbstractPolynomial.php:156-168 | the loop computes ScaledCoefficients |
| PolynomialCore.ScaledLaws | src/Polynomial/AbstractPolynomial.php:156-168 | a nonzero scalar keeps length, leading term and normal form; scaling by 1 changes nothing |
| PolynomialCore.EliminationShrinks | src/Polynomial/AbstractPolynomial.php:192-207 | each elimination step strictly shortens the remainder |
| PolynomialCore.DivisionLoop | src/Polynomial/AbstractPolynomial.php:192-207 | the loop fails only for a zero leading divisor coefficient; the remainder is shorter than the divisor |
| PolynomialCore.DivisionResult | src/Polynomial/AbstractPolynomial.php:173-210 | field mismatch, then zero divisor; a short dividend gives ([], a); a normalised divisor always succeeds with a shorter remainder; on success a == quotient * divisor + remainder at every degree |
| PolynomialCore.SubtractMultipleAt | src/Polynomial/AbstractPolynomial.php:198-203 | after the inner loop each remainder coefficient is the old one minus c times the aligned divisor coefficient |
| PolynomialCore.ProductUpdate | src/Polynomial/AbstractPolynomial.php:196 | writing c into a zero quotient entry adds c times the aligned divisor coefficient to the product quotient * divisor |
| PolynomialCore.DivisionStepKeepsIdentity | src/Polynomial/AbstractPolynomial.php:192-207 | one elimination step keeps a == quotient * divisor + remainder |
| PolynomialCore.DivisionLoopKeepsIdentity | src/Polynomial/AbstractPolynomial.php:192-207 | the loop ends with a == quotient * divisor + remainder when it starts with it |
| PolynomialCore.ZeroQuotientIdentity | src/Polynomial/AbstractPolynomial.php:185-188 | the initial all-zero quotient and the dividend as remainder satisfy the identity |
| PolynomialCore.DivisionBySelf | src/Polynomial/AbstractPolynomial.php:173-210 | a nonzero polynomial divided by itself gives quotient 1, remainder 0 |
| PolynomialCore.SubtractMultipleInPlace | src/Polynomial/AbstractPolynomial.php:198-203 | the inner loop subtracts c times the divisor from the remainder's head |
| PolynomialCore.ComputeDivmod | src/Polynomial/AbstractPolynomial.php:173-210 | computeDivmod computes DivisionResult |
| PolynomialCore.ReduceRemainder | src/Polynomial/AbstractPolynomial.php:192-207 | the while loop computes DivisionLoop |
| PolynomialRing.ProductRecurrence | src/Polynomial/AbstractPolynomial.php:131-153 | the product coefficient at d is the product of the list without its head at d - 1 plus head times b_d |
| PolynomialRing.ProductAddLeft | src/Polynomial/AbstractPolynomial.php:131-153 | (u + v) * b == u * b + v * b at every degree |
| PolynomialRing.ProductSame | src/Polynomial/AbstractPolynomial.php:131-153 | factors with the same coefficients give products with the same coefficients, so leading zeros do not matter |
| PolynomialRing.ProductScaleLeft | src/Polynomial/AbstractPolynomial.php:131-153 | (u c) * b == (u * b) c at every degree |
| PolynomialRing.ProductScaleRight | src/Polynomial/AbstractPolynomial.php:131-153 | a * (v c) == (a * v) c at every degree |
| PolynomialRing.ProductAssociates | src/Polynomial/AbstractPolynomial.php:131-153 | (a * b) * c == a * (b * c) at every degree |
| PolynomialRing.OneTimes | src/Polynomial/AbstractPolynomial.php:131-153 | [1] * b has the coefficients of b |
| PolynomialRing.ZeroTimes | src/Polynomial/AbstractPolynomial.php:131-153 | a list of zeros times anything is zero at every degree |
| PolynomialRing.ShortMultipleIsZero | src/Polynomial/AbstractPolynomial.php:131-153 | a multiple of a nonzero g with fewer coefficients than g has the zero cofactor |
| PolynomialRing.RemainderOfMultiple | src/Polynomial/AbstractPolynomial.php:173-210 | dividing a multiple of a nonzero normalised g leaves a remainder that is zero at every degree |
| PolynomialRing.CombinationIsMultiple | src/Polynomial/PolynomialArithmetic.php:31-35 | when g divides b and the remainder of a by b, g divides a |
| PolynomialRing.HornerAdd | src/Polynomial/AbstractPolynomial.php:71-87 | the value of a coefficientwise sum is the sum of the values |
| PolynomialRing.HornerSame | src/Polynomial/AbstractPolynomial.php:71-87 | lists with the same coefficients have the same value, so leading zeros do not matter |
| PolynomialRing.HornerScale | src/Polynomial/AbstractPolynomial.php:71-87 | the value of v c is the value of v times c |
| PolynomialRing.HornerProduct | src/Polynomial/AbstractPolynomial.php:71-87 | the value of a product is the product of the values |
| ImmutablePolynomials.FromCoefficients | src/Polynomial/PolynomialImmutable.php:18-21 | a normalised polynomial with the given coefficient at every degree |
| ImmutablePolynomials.Zero | src/Polynomial/PolynomialImmutable.php:23-26 | degree -1, every coefficient 0 |
| ImmutablePolynomials.One | src/Polynomial/PolynomialImmutable.php:28-31 | degree 0, coefficient 1 at degree 0 and 0 elsewhere |
| ImmutablePolynomials.Constant | src/Polynomial/PolynomialImmutable.php:33-36 | v at degree 0 and nothing else; zero for v == 0 |
| ImmutablePolynomials.Monomial | src/Polynomial/PolynomialImmutable.php:39-49 | a negative degree fails; otherwise c at the degree and 0 elsewhere |
| ImmutablePolynomials.Add | src/Polynomial/PolynomialImmutable.php:51-54 | fails exactly for different fields; otherwise the field sum at every degree |
| ImmutablePolynomials.Sub | src/Polynomial/PolynomialImmutable.php:56-59 | fails exactly for different fields; otherwise the field difference at every degree |
| ImmutablePolynomials.Mul | src/Polynomial/PolynomialImmutable.php:61-64 | fails exactly for different fields; zero for a zero operand; degree at most, and in a field exactly, the sum of the degrees |
| ImmutablePolynomials.ScalarMul | src/Polynomial/PolynomialImmutable.php:66-69 | every coefficient times c |
| ImmutablePolynomials.Divmod | src/Polynomial/PolynomialImmutable.php:72-80 | errors in order; remainder of lower degree than the divisor; quotient degree deg p - deg q; a lower-degree dividend is its own remainder; where the ring laws hold, quotient * q + remainder == p |
| ImmutablePolynomials.Div | src/Polynomial/PolynomialImmutable.php:82-85 | the quotient of Divmod, or its error |
| ImmutablePolynomials.Mod | src/Polynomial/PolynomialImmutable.php:87-90 | the remainder of Divmod, or its error |
| ImmutablePolynomials.DivisionEquation | src/Polynomial/PolynomialImmutable.php:72-80 | the coefficient identity gives mul(quotient, divisor).add(remainder) == dividend as polynomials |
| ImmutablePolynomials.ModOfMultiple | src/Polynomial/PolynomialImmutable.php:87-90 | a multiple of a nonzero g leaves the zero remainder |
| ImmutablePolynomials.Extensionality | src/Polynomial/AbstractPolynomial.php:89-92 | same field and same coefficients means the same polynomial |
| ImmutablePolynomials.AddZero | tests/Polynomial/PolynomialImmutableTest.php:326-333 | p + 0 == 0 + p == p |
| ImmutablePolynomials.AddCommutes | src/Polynomial/PolynomialImmutable.php:51-54 | p + q == q + p |
| ImmutablePolynomials.SubThenAdd | src/Polynomial/PolynomialImmutable.php:56-59 | (p - q) + q == p |
| ImmutablePolynomials.SubSelf | src/Polynomial/PolynomialImmutable.php:56-59 | p - p == 0 |
| ImmutablePolynomials.AddSelfBinary | tests/Polynomial/PolynomialImmutableTest.php:335-340 | over GF(2^n), p + p == 0 |
| ImmutablePolynomials.MulZero | tests/Polynomial/PolynomialImmutableTest.php:308-315 | p * 0 == 0 * p == 0 |
| ImmutablePolynomials.MulOne | tests/Polynomial/PolynomialImmutableTest.php:317-324 | in a field p * 1 == p |
| ImmutablePolynomials.LeadingZerosExample | tests/Polynomial/PolynomialImmutableTest.php:77-83 | [0, 0, 5, 3] is [5, 3], degree 1, leading coefficient 5 |
| ImmutablePolynomials.BinaryAddExample | tests/Polynomial/PolynomialImmutableTest.php:156-166 | [5, 3] + [5, 7] == [4] over GF(2^n) |
| MutablePolynomials.Polynomial.constructor | src/Polynomial/AbstractPolynomial.php:22-26 | the new object holds the field and the normalised list |
| MutablePolynomials.Polynomial.FromCoefficients | src/Polynomial/Polynomial.php:18-21 | a fresh polynomial with the normalised list |
| MutablePolynomials.Polynomial.Zero | src/Polynomial/Polynomial.php:23-26 | a fresh polynomial with no coefficients |
| MutablePolynomials.Polynomial.One | src/Polynomial/Polynomial.php:28-31 | a fresh polynomial [1] |
| MutablePolynomials.Polynomial.Constant | src/Polynomial/Polynomial.php:33-36 | [] for 0, else [v] |
| MutablePolynomials.Polynomial.Monomial | src/Polynomial/Polynomial.php:39-49 | a negative degree fails; else c followed by degree zeros |
| MutablePolynomials.Polynomial.Add | src/Polynomial/Polynomial.php:51-56 | mismatch leaves the receiver unchanged; else the receiver holds the (unnormalised) sum and is returned |
| MutablePolynomials.Polynomial.Sub | src/Polynomial/Polynomial.php:58-63 | as Add, with the difference |
| MutablePolynomials.Polynomial.Mul | src/Polynomial/Polynomial.php:65-70 | as Add, with the product, of degree the sum of the degrees in a field |
| MutablePolynomials.Polynomial.ScalarMul | src/Polynomial/Polynomial.php:72-77 | the receiver holds every coefficient times c, and [] for c == 0 |
| MutablePolynomials.Polynomial.Divmod | src/Polynomial/Polynomial.php:82-92 | on success the receiver becomes the remainder and a fresh quotient is returned; on failure nothing changes |
| MutablePolynomials.Polynomial.Div | src/Polynomial/Polynomial.php:94-100 | the receiver becomes the quotient, or nothing changes on failure |
| MutablePolynomials.Polynomial.Mod | src/Polynomial/Polynomial.php:102-108 | the receiver becomes the remainder, shorter than the divisor |
| MutablePolynomials.Polynomial.SetCoefficients | src/Polynomial/Polynomial.php:115-120 | the receiver holds the normalised list |
| MutablePolynomials.Polynomial.SetCoefficientAt | src/Polynomial/Polynomial.php:125-145 | a negative degree fails and changes nothing; else the list with that coefficient replaced, normalised |
| MutablePolynomials.Extend | src/Polynomial/Polynomial.php:132-139 | the extension loop pads the list with leading zeros to length max(|s|, degree + 1) |
| MutablePolynomials.ExtendThenSet | src/Polynomial/Polynomial.php:132-141 | setting the entry in the padded list is updating that degree |
| MutablePolynomials.WithCoefficientAt | src/Polynomial/Polynomial.php:125-145 | the result is normalised, holds value at degree and keeps every other coefficient |
| MutablePolynomials.AddSelfBinaryKeepsZeros | src/Polynomial/Polynomial.php:51-56 | over GF(2^n) p.add(p) leaves |p| zeros, not normalised, so the degree is unchanged |
| MutablePolynomials.ProductExample | tests/Polynomial/PolynomialTest.php:92-105 | (x + 1)(x + 2) == x^2 + 3x + 2 in GF(7) |
| MutablePolynomials.ScaledExample | tests/Polynomial/PolynomialTest.php:92-105 | 3(x^2 + 3x + 2) == 3x^2 + 2x + 6 in GF(7) |
| MutablePolynomials.FluentChainExample | tests/Polynomial/PolynomialTest.php:92-105 | the fluent chain leaves [3, 2, 6] |
| PolynomialArithmetic.GcdLoop | src/Polynomial/PolynomialArithmetic.php:31-35 | Euclid's loop ends with a valid polynomial of the field |
| PolynomialArithmetic.MakeMonic | src/Polynomial/PolynomialArithmetic.php:37-41 | zero stays zero; otherwise the same degree with leading coefficient 1 |
| PolynomialArithmetic.MonicScaling | src/Polynomial/PolynomialArithmetic.php:37-41 | scaling by the inverse of the leading coefficient gives leading coefficient 1 at the same degree |
| PolynomialArithmetic.Gcd | src/Polynomial/PolynomialArithmetic.php:26-44 | the gcd is zero or monic; where the ring laws hold, a nonzero gcd leaves remainder zero on both inputs |
| PolynomialArithmetic.ComputeGcd | src/Polynomial/PolynomialArithmetic.php:26-44 | the loop computes Gcd |
| PolynomialArithmetic.GcdLoopZero | src/Polynomial/PolynomialArithmetic.php:31-35 | the loop gives zero exactly when both inputs are zero |
| PolynomialArithmetic.GcdLoopDegree | src/Polynomial/PolynomialArithmetic.php:31-35 | the loop's result has degree at most that of a nonzero second input |
| PolynomialArithmetic.GcdLoopDivides | src/Polynomial/PolynomialArithmetic.php:31-35 | Euclid's loop ends with a common divisor: each input is a cofactor times the result |
| PolynomialArithmetic.MonicDivides | src/Polynomial/PolynomialArithmetic.php:37-41 | making a divisor monic keeps it a divisor |
| PolynomialArithmetic.DividesBoth | src/Polynomial/PolynomialArithmetic.php:26-44 | a nonzero gcd divides both inputs: a mod gcd and b mod gcd are zero |
| PolynomialArithmetic.GcdBounds | src/Polynomial/PolynomialArithmetic.php:26-44 | zero exactly for two zero inputs; degree at most that of each nonzero input |
| PolynomialArithmetic.GcdWithZero | tests/Polynomial/PolynomialArithmeticTest.php:69-77 | gcd(a, 0) is a made monic |
| PolynomialArithmetic.GcdWithSelf | tests/Polynomial/PolynomialArithmeticTest.php:61-67 | gcd(a, a) is a made monic |
| PolynomialArithmetic.AreCoprimeMeansGcdOne | src/Polynomial/PolynomialArithmetic.php:46-49 | coprime exactly when the gcd is the polynomial 1 |
| PolynomialArithmetic.MonicDegreeZero | src/Polynomial/PolynomialArithmetic.php:46-49 | a monic-or-zero polynomial has degree 0 exactly when it is 1 |
| PolynomialArithmetic.ConstantIsCoprime | src/Polynomial/PolynomialArithmetic.php:46-49 | a nonzero constant is coprime to everything |
| PolynomialArithmetic.MultiEvaluate | src/Polynomial/PolynomialArithmetic.php:57-64 | one result per key, in order, the polynomial's value at that point |
| PolynomialArithmetic.LinearFactor | src/Polynomial/PolynomialArithmetic.php:100-117 | x - x_j is monic of degree 1 |
| PolynomialArithmetic.LinearFactorRoot | src/Polynomial/PolynomialArithmetic.php:100-117 | x - x_j vanishes at x_j |
| PolynomialArithmetic.FactorAt | src/Polynomial/PolynomialArithmetic.php:100-117 | x - c evaluates to x - c at every element x |
| PolynomialArithmetic.Basis | src/Polynomial/PolynomialArithmetic.php:100-117 | the partial basis product is a valid polynomial |
| PolynomialArithmetic.BasisMonic | src/Polynomial/PolynomialArithmetic.php:100-117 | the basis product over m factors is monic of degree m, less one when it skipped i |
| PolynomialArithmetic.MonicProduct | src/Polynomial/PolynomialArithmetic.php:100-117 | a monic polynomial times a monic linear factor is monic, one degree higher |
| PolynomialArithmetic.Denominator | src/Polynomial/PolynomialArithmetic.php:100-117 | the product of differences is a field element |
| PolynomialArithmetic.DenominatorNonzero | src/Polynomial/PolynomialArithmetic.php:100-117 | with distinct abscissas the denominator is nonzero, so its inverse exists |
| PolynomialArithmetic.Term | src/Polynomial/PolynomialArithmetic.php:120-122 | each Lagrange term has degree below the number of points |
| PolynomialArithmetic.Sum | src/Polynomial/PolynomialArithmetic.php:92-123 | the partial sum has degree below the number of points |
| PolynomialArithmetic.Interpolation | src/Polynomial/PolynomialArithmetic.php:74-126 | fails exactly for unequal lengths or repeated abscissas; else a polynomial of degree below the number of points |
| PolynomialArithmetic.InterpolationOfZeros | src/Polynomial/PolynomialArithmetic.php:92-123 | all-zero ordinates, and the empty input, give the zero polynomial |
| PolynomialArithmetic.InterpolationOfOnePoint | src/Polynomial/PolynomialArithmetic.php:74-126 | one point (x, y) gives the constant y |
| PolynomialArithmetic.ComputeInterpolation | src/Polynomial/PolynomialArithmetic.php:74-126 | the checks and loops compute Interpolation |
| PolynomialArithmetic.ComputeSum | src/Polynomial/PolynomialArithmetic.php:92-123 | the outer loop computes Sum over all points |
| PolynomialArithmetic.AddTerm | src/Polynomial/PolynomialArithmetic.php:118-122 | one outer pass adds the scaled basis term, skipping a zero ordinate |
| PolynomialArithmetic.ComputeBasis | src/Polynomial/PolynomialArithmetic.php:100-117 | the inner loop computes the basis product and the denominator |
| InterpolationValues.MulAt | src/Polynomial/PolynomialImmutable.php:61-64 | the value of a product polynomial is the product of the values |
| InterpolationValues.AddAt | src/Polynomial/PolynomialImmutable.php:51-54 | the value of a sum polynomial is the sum of the values |
| InterpolationValues.BasisEvaluates | src/Polynomial/PolynomialArithmetic.php:100-117 | the basis product evaluates at x to the product of x - x_k over the factors taken |
| InterpolationValues.BasisValueVanishes | src/Polynomial/PolynomialArithmetic.php:100-117 | that product is 0 at every other abscissa among the factors taken |
| InterpolationValues.BasisValueAtOwn | src/Polynomial/PolynomialArithmetic.php:100-117 | at its own abscissa x_i it equals the denominator |
| InterpolationValues.TermAt | src/Polynomial/PolynomialArithmetic.php:119-122 | the term for point i takes y_i at x_i and 0 at every other abscissa |
| InterpolationValues.SumAt | src/Polynomial/PolynomialArithmetic.php:92-123 | after m points the running sum takes y_j at x_j for j < m and 0 at the later abscissas |
| InterpolationValues.SumInterpolates | src/Polynomial/PolynomialArithmetic.php:92-123 | the full sum takes y_j at every x_j |
| InterpolationValues.InterpolationPassesThrough | src/Polynomial/PolynomialArithmetic.php:74-126 | where the ring laws hold, the interpolant of distinct abscissas takes the value y_j at every x_j |
| PolynomialArithmetic.RepeatedSum | src/Polynomial/PolynomialArithmetic.php:150-152 | repeated addition stays in the field |
| PolynomialArithmetic.RepeatedSumPrime | src/Polynomial/PolynomialArithmetic.php:150-152 | in GF(p), adding c n times gives n * c mod p |
| PolynomialArithmetic.RepeatedAdd | src/Polynomial/PolynomialArithmetic.php:150-152 | the addition loop computes RepeatedSum |
| PolynomialArithmetic.Derivative | src/Polynomial/PolynomialArithmetic.php:134-158 | the derivative is a valid polynomial of the service's field |
| PolynomialArithmetic.DerivativeCoefficient | src/Polynomial/PolynomialArithmetic.php:134-158 | the coefficient at d is (d + 1) times the coefficient at d + 1, via repeated addition; 0 from the degree on |
| PolynomialArithmetic.DerivativeDegree | src/Polynomial/PolynomialArithmetic.php:134-158 | the degree drops; a constant has derivative zero |
| PolynomialArithmetic.DerivativePrime | src/Polynomial/PolynomialArithmetic.php:134-158 | in GF(p) the coefficient at d is ((d + 1) * c_{d+1}) mod p |
| PolynomialArithmetic.DerivativeBinary | src/Polynomial/PolynomialArithmetic.php:134-158 | in GF(2^n) even degrees keep c_{d+1} and odd degrees vanish |
| PolynomialArithmetic.DerivativeQuadraticExample | tests/Polynomial/PolynomialArithmeticTest.php:205-214 | d/dx(x^2 + 3x + 5) == 2x + 3 in GF(7) |
| PolynomialArithmetic.DerivativeBinaryExample | tests/Polynomial/PolynomialArithmeticTest.php:223-232 | d/dx(x^2 + x + 1) == 1 in GF(2^n) |
| PolynomialArithmetic.ComputeDerivative | src/Polynomial/PolynomialArithmetic.php:134-158 | the nested loops compute Derivative |
| PolynomialConverters.CodewordValue | src/Polynomial/PolynomialConverter.php:104 | a padded codeword of v has the width and reads back as v |
| PolynomialConverters.CodewordOfBits | src/Polynomial/PolynomialConverter.php:80 | padding the value of a bit string to its own width gives the string back |
| PolynomialConverters.ChunksOfEncode | src/Polynomial/PolynomialConverter.php:78-81 | cutting the concatenated codewords gives the values back |
| PolynomialConverters.EncodeOfChunks | src/Polynomial/PolynomialConverter.php:99-108 | re-encoding the chunks of a bit string gives the string back |
| PolynomialConverters.PolynomialConverter.constructor | src/Polynomial/PolynomialConverter.php:35-45 | the codeword width is the field's degree |
| PolynomialConverters.NewConverter | src/Polynomial/PolynomialConverter.php:35-45 | fails exactly for a field other than GF(2^n), else the width is n |
| PolynomialConverters.PolynomialConverter.WidthFitsField | src/Polynomial/PolynomialConverter.php:44 | a codeword holds exactly the field's elements |
| PolynomialConverters.PolynomialConverter.Decode | src/Polynomial/PolynomialConverter.php:64-84 | fails exactly when the length is not a multiple of the width; otherwise a valid polynomial of the field |
| PolynomialConverters.PolynomialConverter.EncodeList | src/Polynomial/PolynomialConverter.php:99-108 | a bit string of width times the number of coefficients |
| PolynomialConverters.PolynomialConverter.DecodeEncode | tests/Polynomial/PolynomialConverterTest.php:159-167 | writing a polynomial out and reading it back gives the polynomial |
| PolynomialConverters.PolynomialConverter.EncodeDecode | tests/Polynomial/PolynomialConverterTest.php:169-176 | reading a bit string whose first codeword is nonzero and writing it back gives the string |
| PolynomialConverters.PolynomialConverter.DecodeLeadingZeroCodeword | tests/Polynomial/PolynomialConverterTest.php:188-196 | a leading all-zero codeword is lost in reading |
| PolynomialConverters.PolynomialConverter.FromBinaryString | src/Polynomial/PolynomialConverter.php:64-84 | the for loop computes Decode |
| PolynomialConverters.PolynomialConverter.ToBinaryString | src/Polynomial/PolynomialConverter.php:99-108 | the loop from the degree down computes EncodeList |
| PolynomialFormatter.ParseDecimalOfDecimal | src/Polynomial/PolynomialFormatter.php:40 | the decimal text of any integer reads back as the integer |
| PolynomialFormatter.DecimalIsOne | src/Polynomial/PolynomialFormatter.php:104-106 | the text is "1" exactly for the integer 1 |
| PolynomialFormatter.ParseFormatTerm | src/Polynomial/PolynomialFormatter.php:100-109 | every term formatTerm writes reads back as its coefficient text and degree |
| PolynomialFormatter.SplitJoin | src/Polynomial/PolynomialFormatter.php:43 | cutting the imploded terms at " + " gives the terms back |
| PolynomialFormatter.TermsStep | src/Polynomial/PolynomialFormatter.php:34-41 | one more coefficient adds a term exactly when it is nonzero, at degree deg - i |
| PolynomialFormatter.ReadTerms | src/Polynomial/PolynomialFormatter.php:34-41 | every term reads back as its (coefficient text, degree) pair |
| PolynomialFormatter.LookupTermPairs | src/Polynomial/PolynomialFormatter.php:34-41 | the pair for degree d holds the rendered coefficient at d when it is nonzero |
| PolynomialFormatter.ToString | src/Polynomial/PolynomialFormatter.php:27-44 | the foreach loop computes Format |
| PolynomialFormatter.FormatReadsBack | src/Polynomial/PolynomialFormatter.php:27-44 | the text reads back to every coefficient, with degrees descending and no term for a zero coefficient |
| PolynomialFormatter.FormatInjective | src/Polynomial/PolynomialFormatter.php:27-44 | different normalised polynomials get different texts |
| PolynomialFormatter.FormatQuadraticExample | tests/Polynomial/PolynomialFormatterTest.php:57-62 | [5, 3, 7] is written "5x^2 + 3x + 7" |
| PolynomialFormatter.FormatSkipsZerosExample | tests/Polynomial/PolynomialFormatterTest.php:72-78 | [1, 0, 5, 0] is written "x^3 + 5x" |
| PolynomialFormatter.ToAlphaString | src/Polynomial/PolynomialFormatter.php:57-83 | the guards and the loop compute AlphaFormat |
| PolynomialFormatter.AlphaFormatGuards | src/Polynomial/PolynomialFormatter.php:59-69 | zero gives "0" on any field; only a nonzero polynomial over a non-binary field fails, with BadMethodCall |
| PolynomialFormatter.AlphaFormatReadsBack | src/Polynomial/PolynomialFormatter.php:71-82 | over GF(2^n) the text reads back to α-rendered nonzero coefficients at their degrees, highest first |

## Left out

- `IsField`: the code never checks that a prime modulus is prime or that a tabulated polynomial
  is primitive. The laws that need a real field (inverse, division, neutral one, no zero
  divisors) are stated under `IsField`. The remaining lemmas hold for every instance.
- Primitivity of the fifteen GF(2^n) entries is not proved for every degree; `PrimitiveTablesInvert`
  derives the inverse tables from primitivity as a hypothesis. For GF(2^8) the first 26 powers are
  computed (`QrCodeFieldPowers`).
- The comment on the GF(2^8) entry also names AES. AES uses 0x11B, not 0x11D, so no AES property
  is stated.
- `RingLaws`: distributivity of the GF(2^n) tables is a hypothesis, not derived. It follows from
  primitivity, which the model does not prove for the table entries. For GF(p) `RingLaws` holds
  outright. The lemmas below state their results under it.
- InterpolationValues.InterpolationPassesThrough: p(x_j) == y_j is proved where `RingLaws` holds;
  for GF(2^n) that is the distributivity hypothesis above.
- PolynomialArithmetic.Gcd: "divides both inputs" is proved where `RingLaws` holds; that the gcd
  is the greatest common divisor is not stated.
- ImmutablePolynomials.Divmod: quotient * q + remainder == p is proved where `RingLaws` holds.
- PolynomialCore.ValidCoefficients: every polynomial operation requires its coefficients to be
  field elements, and `ScalarMul`, `Evaluate`, `MultiEvaluate` and `Interpolation` also require
  their scalar or points to be elements (`IsValidElement`). The field interface documents its
  operands as elements (src/Field/GaloisFieldInterface.php:28-64), but the library never checks
  this: the polynomial constructor (src/Polynomial/AbstractPolynomial.php:22-26) only normalises,
  so `[9]` over GF(7) is accepted, and in GF(2^n) an out-of-range coefficient reaches log-table
  entries that do not exist. The model does not describe what happens on such input.
- BinaryField.QrCodeProductExample: 2 * 3 == 6 is proved under `LogInvertsExp`, the hypothesis
  that the tables invert each other. That follows from primitivity of 0x11D, which is not proved;
  only the first 26 powers are computed.
- ImmutablePolynomials.MulOne: only p * 1 is stated, not 1 * p.
- `fromBitString` and `toBitString` are left out. They call an external bit-string library whose
  source is not part of this model. The `fromBinaryString` and `toBinaryString` pair carries the
  round trips.
- PolynomialConverters.PolynomialConverter.FromBinaryString: the input is required to be a
  string of '0' and '1'. PHP's `bindec` silently skips other characters; that behaviour is not
  modelled. `toBinaryString` is required to receive field elements, so `decbin` never sees a
  negative number.
- The `GaloisField` facade and `toAlphaPower` are not part of this model. The formatter takes the
  α-rendering as a parameter; `PlainRender` states what it must not write (an empty text, an 'x'
  or a space).
- `isBinary()` is called by the converter (src/Polynomial/PolynomialConverter.php:37) and the
  formatter (src/Polynomial/PolynomialFormatter.php:65), but no field class or interface of the
  library defines it, so as written those calls fail on every field. The model follows the evident
  intent: `isBinary()` is "the instance is the GF(2^n) implementation", and `NotBinaryField` and
  `BadMethodCall` are the rejections the code means to make for other fields.
- The arithmetic service's own field: `derivative` adds coefficients in the service's field,
  which the model passes in as `f`. `multiEvaluate` evaluates in the polynomial's field.
- The repository test `testSameOrderDifferentInstancesWork` (tests/Polynomial/PolynomialImmutableTest.php,
  lines 351-362) expects two separately created GF(256) instances to be compatible. The code
  compares instances by identity (`!==`), so the model follows the code: those operands fail
  with FieldMismatch.
- The formatter works on coefficient lists, and a mutable polynomial is formatted through its
  list. After `add` or `sub` that list may keep leading zeros. `Format` takes any list, but the
  read-back lemmas are stated for normalised lists.
- PHP integers are 64-bit and the model's are unbounded. Elements of GF(2^n) stay below 2^16,
  and degrees and lengths are those of in-memory lists, so these agree. GF(p) agrees only while
  p * p < 2^63. The factory accepts any prime, and for a larger p `($a * $b) % $this->prime`
  (src/Field/PrimeField.php:47) overflows to a float, where `PrimeField.Multiply` keeps the exact
  residue. `log[e] * exponent` (src/Field/BinaryExtensionField.php:130) likewise overflows for
  exponents near 2^63 / 2^16; the model's `Power` does not.
- BinaryField.FromDegree: a degree of 64 or more makes PHP's `1 << $degree` yield 0 before the
  lookup fails; the model gives the same NoPrimitivePolynomial without the intermediate order.
- `%` and `intdiv` truncate toward zero in PHP. All their operands in the core are
  non-negative, where Dafny's Euclidean operators agree.
- Exception messages are not modelled; each exception is its error kind.
