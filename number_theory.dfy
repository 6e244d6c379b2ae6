/** Integer powers, primality, the greatest common divisor and the modular facts the fields rely on. */
module NumberTheory {

  function Pow(b: int, e: nat): int
  {
    if e == 0 then 1 else b * Pow(b, e - 1)
  }

  predicate IsPrime(p: int)
  {
    p >= 2 && forall d :: 2 <= d < p ==> p % d != 0
  }

  function Abs(x: int): nat
  {
    if x < 0 then -x else x
  }

  /** Euclid's greatest common divisor on naturals. */
  function Gcd(a: nat, b: nat): nat
    decreases b
  {
    if b == 0 then a else Gcd(b, a % b)
  }

  lemma {:induction false} PowAdd(b: int, e1: nat, e2: nat)
    ensures Pow(b, e1 + e2) == Pow(b, e1) * Pow(b, e2)
    decreases e1
  {
    if e1 > 0 {
      PowAdd(b, e1 - 1, e2);
      calc {
        Pow(b, e1 + e2);
        b * Pow(b, e1 - 1 + e2);
        b * (Pow(b, e1 - 1) * Pow(b, e2));
        (b * Pow(b, e1 - 1)) * Pow(b, e2);
      }
    }
  }

  lemma {:induction false} PowSquare(b: int, e: nat)
    ensures Pow(b * b, e) == Pow(b, 2 * e)
    decreases e
  {
    if e > 0 {
      PowSquare(b, e - 1);
      PowAdd(b, 2, 2 * (e - 1));
    }
  }

  /** (x mod m) * y and x * (y mod m) agree with x * y modulo m. */
  lemma MulMod(x: int, y: int, m: int)
    requires m >= 1
    ensures (x % m * y) % m == (x * y) % m
    ensures (x * (y % m)) % m == (x * y) % m
  {
    var q, r := x / m, x % m;
    assert x * y == m * (q * y) + r * y;
    ModAddMultiple(r * y, q * y, m);
    var q', r' := y / m, y % m;
    assert x * y == m * (x * q') + x * r';
    ModAddMultiple(x * r', x * q', m);
  }

  lemma ModAddMultiple(r: int, k: int, m: int)
    requires m >= 1
    ensures (m * k + r) % m == r % m
  {
    var q, s := r / m, r % m;
    assert m * k + r == m * (k + q) + s;
    ModUnique(m * k + r, m, k + q, s);
  }

  /** Reducing a summand first does not change the residue of the sum. */
  lemma AddMod(x: int, y: int, m: int)
    requires m >= 1
    ensures (x % m + y) % m == (x + y) % m
  {
    assert x + y == m * (x / m) + (x % m + y);
    ModAddMultiple(x % m + y, x / m, m);
  }

  /** Adding three numbers modulo m does not depend on where the intermediate reduction happens. */
  lemma ModAddAssociates(x: int, y: int, z: int, m: int)
    requires m >= 1
    ensures ((x + y) % m + z) % m == (x + (y + z) % m) % m
  {
    AddMod(x + y, z, m);
    var b := y + z;
    assert x + b % m == b % m + x;
    AddMod(b, x, m);
    assert b + x == (x + y) + z;
  }

  /** One more step of a multiple modulo m: (l * k mod m + l) mod m == l * (k + 1) mod m. */
  lemma MulStepMod(l: int, k: int, m: int)
    requires m >= 1
    ensures ((l * k) % m + l) % m == (l * (k + 1)) % m
  {
    AddMod(l * k, l, m);
    assert l * k + l == l * (k + 1);
  }

  /** Division with remainder is unique. */
  lemma ModUnique(x: int, m: int, q: int, s: int)
    requires m >= 1 && 0 <= s < m && x == m * q + s
    ensures x % m == s && x / m == q
  {
    var d := q - x / m;
    assert m * d == x % m - s;
    MulSign(m, d);
  }

  lemma MulSign(m: int, d: int)
    requires m >= 0
    ensures d >= 1 ==> m * d >= m
    ensures d <= -1 ==> m * d <= -m
  {
    if d >= 1 {
      assert m * d == m + m * (d - 1);
    } else if d <= -1 {
      assert m * d == -m + m * (d + 1);
    }
  }

  lemma MulLeftMonotone(x: int, a: int, b: int)
    requires x >= 0 && a <= b
    ensures x * a <= x * b
  {
    assert x * b - x * a == x * (b - a);
  }

  /** A positive multiple of g is at least g. */
  lemma DivisorBound(a: int, g: int)
    requires a >= 1 && g >= 1 && a % g == 0
    ensures g <= a
  {
    assert a == g * (a / g);
    MulSign(g, a / g);
  }

  lemma {:induction false} PowMod(b: int, e: nat, m: int)
    requires m >= 1
    ensures Pow(b % m, e) % m == Pow(b, e) % m
    decreases e
  {
    if e > 0 {
      PowMod(b, e - 1, m);
      calc {
        Pow(b % m, e) % m;
        (b % m * Pow(b % m, e - 1)) % m;
        { MulMod(b, Pow(b % m, e - 1), m); }
        (b * Pow(b % m, e - 1)) % m;
        { MulMod(b, Pow(b % m, e - 1), m); MulMod(b, Pow(b, e - 1), m); }
        (b * Pow(b, e - 1)) % m;
      }
    }
  }

  /** Whatever divides both x and y divides any k * x + y. */
  lemma DividesCombination(x: int, y: int, k: int, g: int)
    requires g >= 1 && x % g == 0 && y % g == 0
    ensures (k * x + y) % g == 0
  {
    var u, v := x / g, y / g;
    assert k * x + y == g * (k * u + v);
    ModAddMultiple(0, k * u + v, g);
  }

  /** The greatest common divisor divides both arguments. */
  lemma {:induction false} GcdDivides(a: nat, b: nat)
    requires a > 0 || b > 0
    ensures Gcd(a, b) >= 1 && a % Gcd(a, b) == 0 && b % Gcd(a, b) == 0
    decreases b
  {
    if b > 0 {
      GcdDivides(b, a % b);
      var g := Gcd(a, b);
      assert a == (a / b) * b + a % b;
      DividesCombination(b, a % b, a / b, g);
    }
  }

  /** A prime is coprime to every number strictly between 0 and itself. */
  lemma PrimeCoprime(p: int, a: int)
    requires IsPrime(p) && 1 <= a < p
    ensures Gcd(a, p) == 1
  {
    GcdDivides(a, p);
    var g := Gcd(a, p);
    DivisorBound(a, g);
    assert p % g == 0 && g < p;
  }
}
