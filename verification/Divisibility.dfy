/** Divisors, greatest common divisors and primes, from the definition of division alone. */
module Divisibility {
  import opened Arithmetic

  predicate Divides(d: nat, n: int) {
    if d == 0 then n == 0 else n % d == 0
  }

  lemma DividesWitness(d: nat, n: int) returns (k: int)
    requires Divides(d, n)
    ensures n == k * d
  {
    if d == 0 { k := 0; } else { k := n / d; }
  }

  lemma DividesFrom(d: nat, n: int, k: int)
    requires n == k * d
    ensures Divides(d, n)
  {
    if d > 0 { ModOfMultiple(k, d); }
  }

  lemma DividesLinear(d: nat, a: int, b: int, x: int, y: int)
    requires Divides(d, a) && Divides(d, b)
    ensures Divides(d, x * a + y * b)
  {
    var k := DividesWitness(d, a);
    var l := DividesWitness(d, b);
    assert x * a + y * b == (x * k + y * l) * d;
    DividesFrom(d, x * a + y * b, x * k + y * l);
  }

  lemma DividesMul(d: nat, a: int, x: int)
    requires Divides(d, a)
    ensures Divides(d, x * a) && Divides(d, a * x)
  {
    DividesLinear(d, a, 0, x, 0);
    assert x * a == a * x == x * a + 0 * 0;
  }

  lemma DividesTransitive(d: nat, e: nat, n: int)
    requires Divides(d, e) && Divides(e, n)
    ensures Divides(d, n)
  {
    var k := DividesWitness(d, e);
    var l := DividesWitness(e, n);
    assert n == (l * k) * d;
    DividesFrom(d, n, l * k);
  }

  lemma DividesLe(d: nat, n: nat)
    requires Divides(d, n) && n > 0
    ensures 0 < d <= n
  {
    var k := DividesWitness(d, n);
    assert k >= 1;
  }

  lemma DividesAntisymmetric(a: nat, b: nat)
    requires Divides(a, b) && Divides(b, a)
    ensures a == b
  {
    if a > 0 && b > 0 {
      DividesLe(a, b);
      DividesLe(b, a);
    }
  }

  // ---- greatest common divisor ----

  function Gcd(a: nat, b: nat): nat
    decreases b
  {
    if b == 0 then a else Gcd(b, a % b)
  }

  lemma CombinationBack(x: int, y: int, q: int, a: int, b: int)
    ensures x * b + y * (a - q * b) == y * a + (x - y * q) * b
  {
    MulAssociative(y, q, b);
    MulDistributes(x, -(y * q), b);
  }

  /** Gcd is a common divisor, and an integer combination of its arguments. */
  lemma {:induction false} GcdBezout(a: nat, b: nat) returns (x: int, y: int)
    ensures Divides(Gcd(a, b), a) && Divides(Gcd(a, b), b)
    ensures Gcd(a, b) == x * a + y * b
    decreases b
  {
    var g := Gcd(a, b);
    if b == 0 {
      x, y := 1, 0;
      DividesFrom(g, a, 1);
      DividesFrom(g, b, 0);
    } else {
      var x', y' := GcdBezout(b, a % b);
      var q := a / b;
      DivModDefinition(a, b);
      CombinationBack(x', y', q, a, b);
      x, y := y', x' - y' * q;
      DividesLinear(g, b, a % b, q, 1);
      assert q * b + 1 * (a % b) == a;
    }
  }

  /** The universal property: exactly the common divisors divide Gcd. */
  lemma GcdGreatest(a: nat, b: nat, d: nat)
    ensures Divides(d, Gcd(a, b)) <==> Divides(d, a) && Divides(d, b)
  {
    var x, y := GcdBezout(a, b);
    if Divides(d, a) && Divides(d, b) {
      DividesLinear(d, a, b, x, y);
    }
    if Divides(d, Gcd(a, b)) {
      DividesTransitive(d, Gcd(a, b), a);
      DividesTransitive(d, Gcd(a, b), b);
    }
  }

  /** Two pairs with the same common divisors have the same Gcd. */
  lemma GcdUnique(a: nat, b: nat, c: nat, d: nat)
    requires forall k: nat :: Divides(k, a) && Divides(k, b) <==> Divides(k, c) && Divides(k, d)
    ensures Gcd(a, b) == Gcd(c, d)
  {
    var g, h := Gcd(a, b), Gcd(c, d);
    GcdGreatest(a, b, h);
    GcdGreatest(c, d, g);
    GcdGreatest(a, b, g);
    GcdGreatest(c, d, h);
    DividesFrom(g, g, 1);
    DividesFrom(h, h, 1);
    DividesAntisymmetric(g, h);
  }

  lemma GcdSymmetric(a: nat, b: nat)
    ensures Gcd(a, b) == Gcd(b, a)
  {
    GcdUnique(a, b, b, a);
  }

  lemma GcdPositive(a: nat, b: nat)
    requires a > 0 || b > 0
    ensures Gcd(a, b) > 0
  {
    var x, y := GcdBezout(a, b);
  }

  predicate Coprime(a: nat, b: nat) {
    Gcd(a, b) == 1
  }

  /** Coprimality is the absence of a common divisor other than 1. */
  lemma CoprimeIff(a: nat, b: nat)
    ensures Coprime(a, b) <==> forall d: nat :: Divides(d, a) && Divides(d, b) ==> d == 1
  {
    if Coprime(a, b) {
      forall d: nat | Divides(d, a) && Divides(d, b) ensures d == 1 {
        GcdGreatest(a, b, d);
        DividesLe(d, 1);
      }
    } else {
      var _, _ := GcdBezout(a, b);
    }
  }

  /** Euclid's lemma for coprime numbers. */
  lemma CoprimeDivides(a: nat, b: nat, c: int)
    requires Coprime(a, b) && Divides(a, b * c)
    ensures Divides(a, c)
  {
    var x, y := GcdBezout(a, b);
    DividesFrom(a, x * c * a, x * c);
    DividesLinear(a, b * c, x * c * a, y, 1);
    assert y * (b * c) + 1 * (x * c * a) == (x * a + y * b) * c == c;
  }

  lemma CoprimeMul(a: nat, b: nat, c: nat)
    ensures Coprime(a, b * c) <==> Coprime(a, b) && Coprime(a, c)
  {
    CoprimeIff(a, b * c);
    CoprimeIff(a, b);
    CoprimeIff(a, c);
    if Coprime(a, b) && Coprime(a, c) {
      forall d: nat | Divides(d, a) && Divides(d, b * c) ensures d == 1 {
        CoprimeIff(d, b);
        forall e: nat | Divides(e, d) && Divides(e, b) ensures e == 1 {
          DividesTransitive(e, d, a);
        }
        CoprimeDivides(d, b, c);
      }
    }
    if Coprime(a, b * c) {
      forall d: nat ensures Divides(d, b) ==> Divides(d, b * c) {
        if Divides(d, b) { DividesMul(d, b, c); }
      }
      forall d: nat ensures Divides(d, c) ==> Divides(d, b * c) {
        if Divides(d, c) { DividesMul(d, c, b); }
      }
    }
  }

  /** Coprime divisors multiply. */
  lemma CoprimeProductDivides(a: nat, b: nat, n: int)
    requires Coprime(a, b) && Divides(a, n) && Divides(b, n)
    ensures Divides(a * b, n)
  {
    var k := DividesWitness(b, n);
    assert n == b * k;
    CoprimeDivides(a, b, k);
    var l := DividesWitness(a, k);
    assert n == l * (a * b);
    DividesFrom(a * b, n, l);
  }

  lemma ScaleSum(k: int, q: int, b: int, r: int)
    ensures (q * b + r) * k == q * (b * k) + r * k
  {
    MulDistributes(q * b, r, k);
    MulAssociative(q, b, k);
  }

  lemma ScaledRemainder(k: int, a: int, b: int)
    requires k > 0 && b > 0
    ensures b * k > 0 && (a * k) % (b * k) == a % b * k
  {
    var q, r := a / b, a % b;
    DivModDefinition(a, b);
    ScaleSum(k, q, b, r);
    MulLt(0, b, k);
    MulLe(0, r, k);
    MulLt(r, b, k);
    DivModUnique(a * k, b * k, q, r * k);
  }

  lemma {:induction false} GcdScaleRight(k: nat, a: nat, b: nat)
    requires k > 0
    ensures Gcd(a * k, b * k) == Gcd(a, b) * k
    decreases b
  {
    if b > 0 {
      ScaledRemainder(k, a, b);
      GcdScaleRight(k, b, a % b);
    }
  }

  lemma GcdScale(k: nat, a: nat, b: nat)
    requires k > 0
    ensures Gcd(k * a, k * b) == k * Gcd(a, b)
  {
    GcdScaleRight(k, a, b);
    MulCommutes(k, a);
    MulCommutes(k, b);
    MulCommutes(k, Gcd(a, b));
  }

  /** A factor coprime to a does not change the gcd with a. */
  lemma GcdDropCoprime(a: nat, c: nat, b: nat)
    requires Coprime(a, c)
    ensures Gcd(a, c * b) == Gcd(a, b)
  {
    forall d: nat ensures Divides(d, a) && Divides(d, c * b) <==> Divides(d, a) && Divides(d, b) {
      if Divides(d, a) && Divides(d, c * b) {
        CoprimeIff(a, c);
        CoprimeIff(d, c);
        forall e: nat | Divides(e, d) && Divides(e, c) ensures e == 1 {
          DividesTransitive(e, d, a);
        }
        CoprimeDivides(d, c, b);
      }
      if Divides(d, b) { DividesMul(d, b, c); }
    }
    GcdUnique(a, c * b, a, b);
  }

  lemma GcdSubtract(a: nat, b: nat)
    requires a <= b
    ensures Gcd(a, b - a) == Gcd(a, b)
  {
    forall d: nat ensures Divides(d, a) && Divides(d, b - a) <==> Divides(d, a) && Divides(d, b) {
      if Divides(d, a) && Divides(d, b) { DividesLinear(d, b, a, 1, -1); assert 1 * b + -1 * a == b - a; }
      if Divides(d, a) && Divides(d, b - a) { DividesLinear(d, b - a, a, 1, 1); assert 1 * (b - a) + 1 * a == b; }
    }
    GcdUnique(a, b - a, a, b);
  }

  // ---- primes ----

  ghost predicate IsPrime(n: nat) {
    n >= 2 && forall d: nat :: 2 <= d < n ==> !Divides(d, n)
  }

  lemma PrimeDivisor(p: nat, d: nat)
    requires IsPrime(p) && Divides(d, p)
    ensures d == 1 || d == p
  {
    DividesLe(d, p);
  }

  lemma PrimeCoprime(p: nat, a: nat)
    requires IsPrime(p)
    ensures Coprime(p, a) <==> !Divides(p, a)
  {
    CoprimeIff(p, a);
    DividesFrom(p, p, 1);
    if !Divides(p, a) {
      forall d: nat | Divides(d, p) && Divides(d, a) ensures d == 1 {
        PrimeDivisor(p, d);
      }
    }
  }

  lemma EuclidsLemma(p: nat, a: nat, b: int)
    requires IsPrime(p) && Divides(p, a * b)
    ensures Divides(p, a) || Divides(p, b)
  {
    PrimeCoprime(p, a);
    if !Divides(p, a) { CoprimeDivides(p, a, b); }
  }

  /** n has no divisor d with 2 <= d < bound: what trial division up to bound has established. */
  ghost predicate NoDivisorBelow(n: nat, bound: int) {
    forall d: nat :: 2 <= d < bound ==> !Divides(d, n)
  }

  lemma CofactorLarge(n: nat, d: nat, k: int)
    requires n == k * d && 2 <= d < n
    ensures 2 <= k < n
  {
    if k <= 1 {
      MulLe(k, 1, d);
    } else {
      MulLe(2, d, k);
    }
  }

  /** Trial division up to the square root suffices. */
  lemma NoSmallDivisorMeansPrime(n: nat, bound: nat)
    requires n >= 2 && NoDivisorBelow(n, bound) && bound * bound > n
    ensures IsPrime(n)
  {
    forall d: nat | 2 <= d < n ensures !Divides(d, n) {
      if Divides(d, n) {
        var k := DividesWitness(d, n);
        DividesFrom(k, n, d);
        CofactorLarge(n, d, k);
        assert d >= bound && k >= bound;
        MulLe(bound, d, bound);
        MulLe(bound, k, d);
      }
    }
  }
}
