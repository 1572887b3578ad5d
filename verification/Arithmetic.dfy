/** Division, congruence and powers over the integers. */
module Arithmetic {

  lemma MulLe(a: int, b: int, c: int)
    requires a <= b && c >= 0
    ensures a * c <= b * c
  {}

  lemma MulLt(a: int, b: int, c: int)
    requires a < b && c > 0
    ensures a * c < b * c
  {}

  lemma MulDistributes(a: int, b: int, c: int)
    ensures (a + b) * c == a * c + b * c
  {}

  lemma MulAssociative(a: int, b: int, c: int)
    ensures (a * b) * c == a * (b * c)
  {}

  lemma MulCommutes(a: int, b: int)
    ensures a * b == b * a
  {}

  lemma BitTimes(c: int, p: int)
    requires 0 <= c <= 1
    ensures c * p == if c == 1 then p else 0
  {}

  lemma DivModDefinition(n: int, d: int)
    requires d > 0
    ensures n == (n / d) * d + n % d && 0 <= n % d < d
  {}

  /** Quotient and remainder are determined by their defining equation. */
  lemma QuotientUnique(d: int, q: int, r: int, q': int, r': int)
    requires d > 0 && q * d + r == q' * d + r' && 0 <= r < d && 0 <= r' < d
    ensures q == q' && r == r'
  {
    if q < q' {
      assert (q + 1) * d == q * d + d;
      MulLe(q + 1, q', d);
    } else if q' < q {
      assert (q' + 1) * d == q' * d + d;
      MulLe(q' + 1, q, d);
    }
  }

  lemma DivModUnique(n: int, d: int, q: int, r: int)
    requires d > 0 && n == q * d + r && 0 <= r < d
    ensures n / d == q && n % d == r
  {
    DivModDefinition(n, d);
    QuotientUnique(d, q, r, n / d, n % d);
  }

  lemma ModOfMultiple(k: int, d: int)
    requires d > 0
    ensures (k * d) % d == 0 && (k * d) / d == k
  {
    DivModUnique(k * d, d, k, 0);
  }

  lemma ModAddMultiple(n: int, k: int, d: int)
    requires d > 0
    ensures (n + k * d) % d == n % d
    ensures (n + k * d) / d == n / d + k
  {
    assert n + k * d == (n / d + k) * d + n % d;
    DivModUnique(n + k * d, d, n / d + k, n % d);
  }

  /** a and b leave the same remainder modulo m. */
  predicate Congruent(a: int, b: int, m: int)
    requires m > 0
  {
    a % m == b % m
  }

  lemma CongruentWitness(a: int, b: int, m: int) returns (k: int)
    requires m > 0 && Congruent(a, b, m)
    ensures a == b + k * m
  {
    k := a / m - b / m;
    assert a == (a / m) * m + a % m;
    assert b == (b / m) * m + b % m;
  }

  lemma CongruentFrom(a: int, b: int, m: int, k: int)
    requires m > 0 && a == b + k * m
    ensures Congruent(a, b, m)
  {
    ModAddMultiple(b, k, m);
  }

  lemma CongruentSelf(a: int, m: int)
    requires m > 0
    ensures Congruent(a % m, a, m)
    ensures 0 <= a % m < m
  {
    CongruentFrom(a % m, a, m, -(a / m));
  }

  lemma CongruentAdd(a: int, b: int, c: int, d: int, m: int)
    requires m > 0 && Congruent(a, b, m) && Congruent(c, d, m)
    ensures Congruent(a + c, b + d, m) && Congruent(a - c, b - d, m)
  {
    var k := CongruentWitness(a, b, m);
    var l := CongruentWitness(c, d, m);
    assert a + c == b + d + (k + l) * m;
    assert a - c == b - d + (k - l) * m;
    CongruentFrom(a + c, b + d, m, k + l);
    CongruentFrom(a - c, b - d, m, k - l);
  }

  lemma ExpandProduct(b: int, k: int, d: int, l: int, m: int)
    ensures (b + k * m) * (d + l * m) == b * d + (b * l + k * d + k * l * m) * m
  {
    assert (b + k * m) * (d + l * m) == b * d + b * (l * m) + (k * m) * d + (k * m) * (l * m);
    assert (b * l + k * d + k * l * m) * m == (b * l) * m + (k * d) * m + (k * l * m) * m;
    assert b * (l * m) == (b * l) * m && (k * m) * d == (k * d) * m;
    assert (k * m) * (l * m) == (k * l * m) * m by {
      MulAssociative(k, m, l * m);
      MulAssociative(k, l * m, m);
    }
  }

  lemma CongruentMul(a: int, b: int, c: int, d: int, m: int)
    requires m > 0 && Congruent(a, b, m) && Congruent(c, d, m)
    ensures Congruent(a * c, b * d, m)
  {
    var k := CongruentWitness(a, b, m);
    var l := CongruentWitness(c, d, m);
    ExpandProduct(b, k, d, l, m);
    CongruentFrom(a * c, b * d, m, b * l + k * d + k * l * m);
  }

  function Pow(b: int, e: nat): (r: int)
    ensures b >= 0 ==> r >= 0
    ensures b > 0 ==> r > 0
  {
    if e == 0 then 1 else b * Pow(b, e - 1)
  }

  lemma {:induction false} PowAdd(b: int, e: nat, f: nat)
    ensures Pow(b, e + f) == Pow(b, e) * Pow(b, f)
  {
    if e > 0 {
      PowAdd(b, e - 1, f);
      MulAssociative(b, Pow(b, e - 1), Pow(b, f));
    }
  }

  lemma {:induction false} PowSquare(b: int, e: nat)
    ensures Pow(b * b, e) == Pow(b, 2 * e)
  {
    if e > 0 {
      PowSquare(b, e - 1);
      assert Pow(b, 2 * e) == b * Pow(b, 2 * e - 1) == b * (b * Pow(b, 2 * (e - 1)));
    }
  }

  lemma {:induction false} PowCongruent(a: int, b: int, e: nat, m: int)
    requires m > 0 && Congruent(a, b, m)
    ensures Congruent(Pow(a, e), Pow(b, e), m)
  {
    if e > 0 {
      PowCongruent(a, b, e - 1, m);
      CongruentMul(a, b, Pow(a, e - 1), Pow(b, e - 1), m);
    }
  }

  /** 2^e, a shift amount. */
  function TwoTo(e: nat): (r: nat)
    ensures r > 0
  {
    Pow(2, e)
  }

  lemma TwoToAdd(e: nat, f: nat)
    ensures TwoTo(e + f) == TwoTo(e) * TwoTo(f)
  {
    PowAdd(2, e, f);
  }

  // ---- square-and-multiply ----

  lemma SquareStep(base: int, h: nat, m: int)
    requires m > 0
    ensures Congruent(Pow((base * base) % m, h), Pow(base, 2 * h), m)
  {
    CongruentSelf(base * base, m);
    PowCongruent((base * base) % m, base * base, h, m);
    PowSquare(base, h);
  }

  lemma OddPower(result: int, base: int, exp: nat)
    requires exp % 2 == 1
    ensures result * base * Pow(base, 2 * (exp / 2)) == result * Pow(base, exp)
  {
    assert exp - 1 == 2 * (exp / 2);
    MulAssociative(result, base, Pow(base, exp - 1));
  }

  /** One round of square-and-multiply keeps result * base^exp modulo m. */
  lemma SquareAndMultiply(result: int, base: int, exp: nat, m: int)
    requires m > 0 && exp > 0
    ensures Congruent((if exp % 2 == 1 then (result * base) % m else result) * Pow((base * base) % m, exp / 2),
                      result * Pow(base, exp), m)
  {
    var h := exp / 2;
    SquareStep(base, h, m);
    var p, q := Pow((base * base) % m, h), Pow(base, 2 * h);
    if exp % 2 == 1 {
      CongruentSelf(result * base, m);
      CongruentMul((result * base) % m, result * base, p, q, m);
      OddPower(result, base, exp);
    } else {
      assert exp == 2 * h;
      CongruentMul(result, result, p, q, m);
    }
  }
}
