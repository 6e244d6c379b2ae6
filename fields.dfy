/**
 * The capability set every Galois field offers (order, characteristic, degree, element test and
 * the five operations), over the two implementations: a prime field GF(p) and a binary extension
 * field GF(2^n). A field is an object: polynomials compare their fields by identity, so `Field`
 * is a class whose only state is the constant description of which field it is.
 */
module Fields {
  import opened Wrappers
  import opened NumberTheory
  import Bits
  import PrimeField
  import BinaryField

  /** Which field an instance is: GF(p) for a modulus p, or GF(2^n) with its tables. */
  datatype Kind = PrimeKind(prime: int) | BinaryKind(binary: BinaryField.BinaryExtensionField)

  /** What every instance satisfies: a modulus of at least 2, or well-formed tables. */
  predicate KindValid(k: Kind)
  {
    match k
    case PrimeKind(p) => p >= 2
    case BinaryKind(b) => BinaryField.WellFormed(b)
  }

  type FieldKind = k: Kind | KindValid(k) witness PrimeKind(2)

  class Field {
    const kind: FieldKind

    constructor (k: FieldKind)
      ensures kind == k
    {
      kind := k;
    }
  }

  /** isBinary(): the instance is the binary extension implementation. */
  predicate IsBinary(f: Field)
  {
    f.kind.BinaryKind?
  }

  /** getOrder(): p, or 2^degree. */
  function Order(f: Field): (r: nat)
    ensures r >= 2
    ensures f.kind.PrimeKind? ==> r == f.kind.prime
    ensures f.kind.BinaryKind? ==> r == Bits.Pow2(f.kind.binary.degree)
  {
    match f.kind
    case PrimeKind(p) => p
    case BinaryKind(b) => BinaryField.OrderAtLeastFour(b); BinaryField.Order(b)
  }

  /** getCharacteristic(): p, or 2. */
  function Characteristic(f: Field): (r: nat)
    ensures r >= 2
    ensures f.kind.PrimeKind? ==> r == Order(f)
    ensures f.kind.BinaryKind? ==> r == 2
  {
    match f.kind
    case PrimeKind(p) => p
    case BinaryKind(b) => BinaryField.Characteristic(b)
  }

  /** getDegree(): 1 for a prime field, n for GF(2^n); in both cases order == characteristic^degree. */
  function Degree(f: Field): (r: nat)
    ensures Pow(Characteristic(f), r) == Order(f)
  {
    match f.kind
    case PrimeKind(p) => 1
    case BinaryKind(b) => PowOfTwo(b.degree); b.degree
  }

  lemma {:induction false} PowOfTwo(n: nat)
    ensures Pow(2, n) == Bits.Pow2(n)
  {
    if n > 0 {
      PowOfTwo(n - 1);
    }
  }

  /** isValidElement(x): 0 <= x < order, in both implementations. */
  predicate IsValidElement(f: Field, x: int)
  {
    match f.kind
    case PrimeKind(p) => PrimeField.IsValidElement(p, x)
    case BinaryKind(b) => BinaryField.IsValidElement(b, x)
  }

  lemma ValidElementRange(f: Field, x: int)
    ensures IsValidElement(f, x) <==> 0 <= x < Order(f)
  {
  }

  function Add(f: Field, a: int, b: int): (r: int)
    requires IsValidElement(f, a) && IsValidElement(f, b)
    ensures IsValidElement(f, r)
  {
    match f.kind
    case PrimeKind(p) => PrimeField.Add(p, a, b)
    case BinaryKind(t) => BinaryField.Add(t, a, b)
  }

  /** subtract undoes add: (a - b) + b == a. */
  function Subtract(f: Field, a: int, b: int): (r: int)
    requires IsValidElement(f, a) && IsValidElement(f, b)
    ensures IsValidElement(f, r)
    ensures Add(f, r, b) == a
  {
    match f.kind
    case PrimeKind(p) => PrimeField.Subtract(p, a, b)
    case BinaryKind(t) =>
      Bits.XorCancel(a, b);
      BinaryField.Subtract(t, a, b)
  }

  /** multiply: a zero factor gives zero. */
  function Multiply(f: Field, a: int, b: int): (r: int)
    requires IsValidElement(f, a) && IsValidElement(f, b)
    ensures IsValidElement(f, r)
    ensures a == 0 || b == 0 ==> r == 0
  {
    match f.kind
    case PrimeKind(p) => PrimeField.Multiply(p, a, b)
    case BinaryKind(t) => BinaryField.Multiply(t, a, b)
  }

  /** inverse: zero fails with a division by zero; a result is a nonzero element. */
  function Inverse(f: Field, a: int): (r: Result<int>)
    requires IsValidElement(f, a)
    ensures a == 0 ==> r == Err(DivisionByZero)
    ensures r.Err? ==> r.error == DivisionByZero
    ensures r.Ok? ==> IsValidElement(f, r.value) && r.value != 0
  {
    match f.kind
    case PrimeKind(p) => PrimeField.Inverse(p, a)
    case BinaryKind(t) => BinaryField.Inverse(t, a)
  }

  /** divide: a zero divisor fails with a division by zero. */
  function Divide(f: Field, a: int, b: int): (r: Result<int>)
    requires IsValidElement(f, a) && IsValidElement(f, b)
    ensures b == 0 ==> r == Err(DivisionByZero)
    ensures r.Err? ==> r.error == DivisionByZero
    ensures r.Ok? ==> IsValidElement(f, r.value)
  {
    match f.kind
    case PrimeKind(p) => PrimeField.Divide(p, a, b)
    case BinaryKind(t) => BinaryField.Divide(t, a, b)
  }

  /**
   * power: GF(p) fails for zero to a negative power; GF(2^n) gives 0 there instead.
   * Both give 1 for the exponent 0.
   */
  function Power(f: Field, a: int, k: int): (r: Result<int>)
    requires IsValidElement(f, a)
    ensures r.Ok? ==> IsValidElement(f, r.value)
    ensures k == 0 ==> r == Ok(1)
    ensures f.kind.PrimeKind? && a == 0 && k < 0 ==> r == Err(DivisionByZero)
    ensures r.Err? ==> f.kind.PrimeKind? && k < 0 && r.error == DivisionByZero
    ensures IsField(f) ==> (r.Err? <==> f.kind.PrimeKind? && a == 0 && k < 0)
  {
    match f.kind
    case PrimeKind(p) => PrimeField.PowerLaws(p, a, k); PrimeField.Power(p, a, k)
    case BinaryKind(t) => Ok(BinaryField.Power(t, a, k))
  }

  /**
   * The instance really is a field: a prime modulus, or tables that invert each other (which a
   * primitive polynomial guarantees). The code assumes this and never checks it.
   */
  predicate IsField(f: Field)
  {
    match f.kind
    case PrimeKind(p) => IsPrime(p)
    case BinaryKind(t) => BinaryField.LogInvertsExp(t)
  }

  /**
   * Multiplication distributes over addition. Every GF(p) satisfies this (see Distributes); for
   * GF(2^n) it is a property of the tables that the model takes as given.
   */
  predicate RingLaws(f: Field)
  {
    match f.kind
    case PrimeKind(p) => true
    case BinaryKind(t) => BinaryField.Distributive(t)
  }

  /** Addition commutes and has 0 as its neutral element. */
  lemma AddLaws(f: Field, a: int, b: int)
    requires IsValidElement(f, a) && IsValidElement(f, b)
    ensures Add(f, a, b) == Add(f, b, a)
    ensures Add(f, a, 0) == a && Add(f, 0, a) == a
  {
    if f.kind.BinaryKind? {
      BinaryField.AddLaws(f.kind.binary, a, b);
      BinaryField.AddLaws(f.kind.binary, a, 0);
    }
  }

  /** Addition is associative. */
  lemma AddAssociates(f: Field, a: int, b: int, c: int)
    requires IsValidElement(f, a) && IsValidElement(f, b) && IsValidElement(f, c)
    ensures Add(f, Add(f, a, b), c) == Add(f, a, Add(f, b, c))
  {
    match f.kind
    case PrimeKind(p) => PrimeField.AddAssociates(p, a, b, c);
    case BinaryKind(t) => BinaryField.AddAssociates(t, a, b, c);
  }

  /** Adding the same element to both sides is injective. */
  lemma AddCancels(f: Field, a: int, b: int, c: int)
    requires IsValidElement(f, a) && IsValidElement(f, b) && IsValidElement(f, c)
    ensures Add(f, a, c) == Add(f, b, c) ==> a == b
  {
    if f.kind.BinaryKind? {
      Bits.XorCancel(a, c);
      Bits.XorCancel(b, c);
    }
  }

  /** Subtracting 0 changes nothing, and a sum minus its second summand is the first. */
  lemma SubtractLaws(f: Field, a: int, b: int)
    requires IsValidElement(f, a) && IsValidElement(f, b)
    ensures Subtract(f, a, 0) == a
    ensures Subtract(f, Add(f, a, b), b) == a
  {
    AddLaws(f, Subtract(f, a, 0), 0);
    AddCancels(f, Subtract(f, Add(f, a, b), b), a, b);
  }

  /** (x + y) + (z + w) == (x + z) + (y + w): the two middle summands swap places. */
  lemma AddSwapMiddle(f: Field, x: int, y: int, z: int, w: int)
    requires IsValidElement(f, x) && IsValidElement(f, y) && IsValidElement(f, z) && IsValidElement(f, w)
    ensures Add(f, Add(f, x, y), Add(f, z, w)) == Add(f, Add(f, x, z), Add(f, y, w))
  {
    AddAssociates(f, x, y, Add(f, z, w));
    AddAssociates(f, y, z, w);
    AddLaws(f, y, z);
    AddAssociates(f, z, y, w);
    AddAssociates(f, x, z, Add(f, y, w));
  }

  /** (p + t) + (r - t) == p + r: adding a multiple of the divisor to the quotient side and taking it off the remainder keeps the sum. */
  lemma AddSubtractCancel(f: Field, p: int, t: int, r: int)
    requires IsValidElement(f, p) && IsValidElement(f, t) && IsValidElement(f, r)
    ensures Add(f, Add(f, p, t), Subtract(f, r, t)) == Add(f, p, r)
  {
    var d := Subtract(f, r, t);
    AddAssociates(f, p, t, d);
    AddLaws(f, t, d);
  }

  /** The difference is zero exactly when the operands are equal. */
  lemma SubtractZero(f: Field, a: int, b: int)
    requires IsValidElement(f, a) && IsValidElement(f, b)
    ensures Subtract(f, a, b) == 0 <==> a == b
  {
    match f.kind
    case PrimeKind(p) =>
      var r := PrimeField.Subtract(p, a, b);
      assert PrimeField.Add(p, r, b) == a;
    case BinaryKind(t) =>
      Bits.XorSelf(a);
      Bits.XorCancel(a, b);
      Bits.XorZero(b);
  }

  /** Multiplication commutes. */
  lemma MultiplyCommutes(f: Field, a: int, b: int)
    requires IsValidElement(f, a) && IsValidElement(f, b)
    ensures Multiply(f, a, b) == Multiply(f, b, a)
  {
    if f.kind.BinaryKind? {
      BinaryField.MultiplyCommutes(f.kind.binary, a, b);
    }
  }

  /** In a field, multiplication is associative. */
  lemma MultiplyAssociates(f: Field, a: int, b: int, c: int)
    requires IsField(f) && IsValidElement(f, a) && IsValidElement(f, b) && IsValidElement(f, c)
    ensures Multiply(f, Multiply(f, a, b), c) == Multiply(f, a, Multiply(f, b, c))
  {
    match f.kind
    case PrimeKind(p) => PrimeField.MultiplyAssociates(p, a, b, c);
    case BinaryKind(t) => BinaryField.MultiplyAssociates(t, a, b, c);
  }

  /** Multiplication distributes over addition, from both sides. */
  lemma Distributes(f: Field, a: int, b: int, c: int)
    requires RingLaws(f) && IsValidElement(f, a) && IsValidElement(f, b) && IsValidElement(f, c)
    ensures Multiply(f, a, Add(f, b, c)) == Add(f, Multiply(f, a, b), Multiply(f, a, c))
    ensures Multiply(f, Add(f, b, c), a) == Add(f, Multiply(f, b, a), Multiply(f, c, a))
  {
    match f.kind
    case PrimeKind(p) => PrimeField.Distributes(p, a, b, c);
    case BinaryKind(t) =>
      MultiplyCommutes(f, a, Add(f, b, c));
      MultiplyCommutes(f, a, b);
      MultiplyCommutes(f, a, c);
  }

  /** (a * b) * c == (a * c) * b: in a field, the order of the factors does not matter. */
  lemma MultiplyRotates(f: Field, a: int, b: int, c: int)
    requires IsField(f) && IsValidElement(f, a) && IsValidElement(f, b) && IsValidElement(f, c)
    ensures Multiply(f, Multiply(f, a, b), c) == Multiply(f, Multiply(f, a, c), b)
  {
    MultiplyAssociates(f, a, b, c);
    MultiplyCommutes(f, b, c);
    MultiplyAssociates(f, a, c, b);
  }

  /** In a field, 1 is the neutral element of multiplication. */
  lemma MultiplyOne(f: Field, a: int)
    requires IsField(f) && IsValidElement(f, a)
    ensures IsValidElement(f, 1) && Multiply(f, a, 1) == a
  {
    match f.kind
    case PrimeKind(p) =>
      ModUnique(a, p, 0, a);
    case BinaryKind(t) =>
      BinaryField.MultiplyOne(t, a);
  }

  /** In a field, a * inverse(a) == 1 for every nonzero a. */
  lemma MultiplyByInverse(f: Field, a: int)
    requires IsField(f) && IsValidElement(f, a) && a != 0
    ensures Inverse(f, a).Ok? && Multiply(f, a, Inverse(f, a).value) == 1
  {
    match f.kind
    case PrimeKind(p) =>
    case BinaryKind(t) =>
      BinaryField.MultiplyByInverse(t, a);
  }

  /** In a field, dividing by a nonzero b succeeds and multiplying back by b restores the dividend. */
  lemma DivideThenMultiply(f: Field, a: int, b: int)
    requires IsField(f) && IsValidElement(f, a) && IsValidElement(f, b) && b != 0
    ensures Divide(f, a, b).Ok? && Multiply(f, Divide(f, a, b).value, b) == a
  {
    match f.kind
    case PrimeKind(p) =>
    case BinaryKind(t) =>
      BinaryField.DivideThenMultiply(t, a, b);
  }

  /** In a field, a nonzero element divided by itself is 1. */
  lemma DivideSelf(f: Field, a: int)
    requires IsField(f) && IsValidElement(f, a) && a != 0
    ensures Divide(f, a, a) == Ok(1)
  {
    match f.kind
    case PrimeKind(p) =>
      var inv := PrimeField.Inverse(p, a).value;
      assert PrimeField.Multiply(p, a, inv) == 1;
    case BinaryKind(t) =>
      assert a in t.log;
  }

  /** In a field a product is zero only when a factor is. */
  lemma NoZeroDivisors(f: Field, a: int, b: int)
    requires IsField(f) && IsValidElement(f, a) && IsValidElement(f, b)
    ensures Multiply(f, a, b) == 0 <==> a == 0 || b == 0
  {
    match f.kind
    case PrimeKind(p) =>
      if b != 0 {
        var inv := PrimeField.Inverse(p, b).value;
        PrimeField.MultiplyAssociates(p, a, b, inv);
        ModUnique(a, p, 0, a);
      }
    case BinaryKind(t) =>
  }
}
