/** Fermat's little theorem and the square roots of 1 modulo a prime. */
module Fermat {
  import opened Arithmetic
  import opened Divisibility

  function Choose(n: nat, k: nat): nat {
    if k == 0 then 1 else if n == 0 then 0 else Choose(n - 1, k - 1) + Choose(n - 1, k)
  }

  lemma {:induction false} ChooseAbove(n: nat, k: nat)
    requires k > n
    ensures Choose(n, k) == 0
  {
    if n > 0 {
      ChooseAbove(n - 1, k - 1);
      ChooseAbove(n - 1, k);
    }
  }

  lemma {:induction false} ChooseDiagonal(n: nat)
    ensures Choose(n, n) == 1
  {
    if n > 0 {
      ChooseDiagonal(n - 1);
      ChooseAbove(n - 1, n);
    }
  }

  lemma AbsorbArithmetic(n: int, k: int, c: int, d: int, e: int)
    requires (k - 1) * (c + d) == (n - 1) * c && k * e == (n - 1) * d
    ensures k * (c + d + e) == n * (c + d)
  {
    assert k * (c + d + e) == (k - 1) * (c + d) + (c + d) + k * e;
    assert n * (c + d) == (n - 1) * c + c + (n - 1) * d + d;
  }

  /** The absorption identity. */
  lemma {:induction false} ChooseAbsorb(n: nat, k: nat)
    requires n > 0 && k > 0
    ensures k * Choose(n, k) == n * Choose(n - 1, k - 1)
  {
    if n == 1 {
      if k > 1 { ChooseAbove(0, k - 1); ChooseAbove(0, k); }
    } else if k == 1 {
      ChooseAbsorb(n - 1, 1);
    } else {
      ChooseAbsorb(n - 1, k - 1);
      ChooseAbsorb(n - 1, k);
      AbsorbArithmetic(n, k, Choose(n - 2, k - 2), Choose(n - 2, k - 1), Choose(n - 1, k));
    }
  }

  /** The first m terms of the binomial expansion of (a + 1)^n. */
  function BinomialSum(a: int, n: nat, m: nat): int {
    if m == 0 then 0 else BinomialSum(a, n, m - 1) + Choose(n, m - 1) * Pow(a, m - 1)
  }

  lemma StepArithmetic(a: int, c: int, d: int, t: int, s: int, s': int, u: int)
    requires u == s' + a * s
    ensures u + (c + d) * (a * t) == (s' + d * (a * t)) + a * (s + c * t)
  {
    assert (c + d) * (a * t) == c * (a * t) + d * (a * t);
    assert c * (a * t) == a * (c * t);
    assert a * (s + c * t) == a * s + a * (c * t);
  }

  lemma {:induction false} BinomialStep(a: int, n: nat, m: nat)
    ensures BinomialSum(a, n + 1, m + 1) == BinomialSum(a, n, m + 1) + a * BinomialSum(a, n, m)
  {
    if m > 0 {
      BinomialStep(a, n, m - 1);
      StepArithmetic(a, Choose(n, m - 1), Choose(n, m), Pow(a, m - 1),
        BinomialSum(a, n, m - 1), BinomialSum(a, n, m), BinomialSum(a, n + 1, m));
    }
  }

  lemma NoTermAbove(a: int, n: nat)
    ensures BinomialSum(a, n, n + 2) == BinomialSum(a, n, n + 1)
  {
    ChooseAbove(n, n + 1);
  }

  lemma {:induction false} BinomialTheorem(a: int, n: nat)
    ensures Pow(a + 1, n) == BinomialSum(a, n, n + 1)
  {
    if n > 0 {
      BinomialTheorem(a, n - 1);
      var s := BinomialSum(a, n - 1, n);
      BinomialStep(a, n - 1, n);
      NoTermAbove(a, n - 1);
      MulDistributes(a, 1, s);
    }
  }

  /** All middle terms vanish modulo a prime. */
  lemma {:induction false} BinomialSumModPrime(a: int, p: nat, m: nat)
    requires IsPrime(p) && 1 <= m <= p
    ensures Congruent(BinomialSum(a, p, m), 1, p)
  {
    if m == 1 {
      assert BinomialSum(a, p, 1) == 1;
    } else {
      BinomialSumModPrime(a, p, m - 1);
      var k := m - 1;
      ChooseAbsorb(p, k);
      DividesFrom(p, k * Choose(p, k), Choose(p - 1, k - 1));
      EuclidsLemma(p, k, Choose(p, k));
      if Divides(p, k) { DividesLe(p, k); }
      DividesMul(p, Choose(p, k), Pow(a, k));
      CongruentAdd(BinomialSum(a, p, m - 1), 1, Choose(p, k) * Pow(a, k), 0, p);
    }
  }

  lemma {:induction false} FermatPower(a: nat, p: nat)
    requires IsPrime(p)
    ensures Congruent(Pow(a, p), a, p)
  {
    if a == 0 {
      assert Pow(0, p) == 0 * Pow(0, p - 1) == 0;
    } else {
      FermatPower(a - 1, p);
      BinomialTheorem(a - 1, p);
      BinomialSumModPrime(a - 1, p, p);
      ChooseDiagonal(p);
      CongruentAdd(BinomialSum(a - 1, p, p), 1, Pow(a - 1, p), a - 1, p);
    }
  }

  /** Fermat's little theorem. */
  lemma FermatLittle(a: nat, p: nat)
    requires IsPrime(p) && !Divides(p, a)
    ensures Congruent(Pow(a, p - 1), 1, p)
  {
    FermatPower(a, p);
    var k := CongruentWitness(Pow(a, p), a, p);
    assert a * (Pow(a, p - 1) - 1) == k * p;
    DividesFrom(p, a * (Pow(a, p - 1) - 1), k);
    EuclidsLemma(p, a, Pow(a, p - 1) - 1);
    var l := DividesWitness(p, Pow(a, p - 1) - 1);
    CongruentFrom(Pow(a, p - 1), 1, p, l);
  }

  /** Modulo a prime, 1 has no square roots but 1 and -1. */
  lemma SquareRootOfOne(x: nat, p: nat)
    requires IsPrime(p) && x < p && (x * x) % p == 1
    ensures x == 1 || x == p - 1
  {
    assert 1 % p == 1 by { DivModUnique(1, p, 0, 1); }
    var k := CongruentWitness(x * x, 1, p);
    if x == 0 {
      assert 0 % p == 0 by { DivModUnique(0, p, 0, 0); }
    } else {
      assert (x - 1) * (x + 1) == k * p;
      DividesFrom(p, (x - 1) * (x + 1), k);
      EuclidsLemma(p, x - 1, x + 1);
      if Divides(p, x - 1) {
        if x > 1 { DividesLe(p, x - 1); }
      } else {
        DividesLe(p, x + 1);
      }
    }
  }
}
