/** Euler's totient by trial-division factorisation. */
module Totient {
  import opened Words
  import opened Arithmetic
  import opened Divisibility

  /** How many k in [1, bound] are coprime to m. */
  function CountCoprime(bound: nat, m: nat): (c: nat)
    ensures c <= bound
  {
    if bound == 0 then 0 else CountCoprime(bound - 1, m) + if Coprime(bound, m) then 1 else 0
  }

  /** Euler's totient: how many k in [1, n] are coprime to n. */
  function Phi(n: nat): nat {
    CountCoprime(n, n)
  }

  // ---- coprimality is periodic ----

  lemma CoprimePeriodic(k: nat, m: nat)
    ensures Coprime(k + m, m) <==> Coprime(k, m)
  {
    GcdSubtract(m, k + m);
    GcdSymmetric(k + m, m);
    GcdSymmetric(k, m);
  }

  lemma {:induction false} CountPeriod(bound: nat, m: nat)
    ensures CountCoprime(bound + m, m) == CountCoprime(bound, m) + CountCoprime(m, m)
  {
    if bound > 0 {
      CountPeriod(bound - 1, m);
      CoprimePeriodic(bound, m);
    }
  }

  lemma Unfold(q: nat, x: nat)
    requires q > 0
    ensures (q - 1) * x + x == q * x && (q - 1) * x >= 0
  {}

  lemma {:induction false} CountMultiple(q: nat, m: nat)
    ensures CountCoprime(q * m, m) == q * Phi(m)
  {
    if q > 0 {
      CountMultiple(q - 1, m);
      CountPeriod((q - 1) * m, m);
      Unfold(q, m);
      Unfold(q, Phi(m));
    } else {
      assert 0 * m == 0;
    }
  }

  // ---- sieving out one prime ----

  /** How many multiples of p in [1, bound] are coprime to m. */
  function CountMultiplesCoprime(bound: nat, m: nat, p: nat): nat {
    if bound == 0 then 0
    else CountMultiplesCoprime(bound - 1, m, p) + if Coprime(bound, m) && Divides(p, bound) then 1 else 0
  }

  lemma DivStep(n: nat, p: nat)
    requires n > 0 && p > 0
    ensures n / p == (n - 1) / p + (if n % p == 0 then 1 else 0)
  {
    DivModDefinition(n, p);
    var q, r := n / p, n % p;
    if r == 0 {
      assert n - 1 == (q - 1) * p + (p - 1);
      DivModUnique(n - 1, p, q - 1, p - 1);
    } else {
      DivModUnique(n - 1, p, q, r - 1);
    }
  }

  lemma {:induction false} MultiplesScale(bound: nat, m: nat, p: nat)
    requires p > 0 && Coprime(m, p)
    ensures CountMultiplesCoprime(bound, m, p) == CountCoprime(bound / p, m)
  {
    if bound == 0 {
      assert 0 / p == 0 by { DivModUnique(0, p, 0, 0); }
    } else {
      MultiplesScale(bound - 1, m, p);
      DivStep(bound, p);
      if Divides(p, bound) {
        var k := bound / p;
        DivModDefinition(bound, p);
        CoprimeMul(m, k, p);
        GcdSymmetric(m, bound);
        GcdSymmetric(m, k);
      }
    }
  }

  /** m' has the prime divisors of m, and p. */
  ghost predicate AddsPrime(m: nat, p: nat, m': nat) {
    forall k: nat :: Coprime(k, m') <==> Coprime(k, m) && !Divides(p, k)
  }

  lemma {:induction false} AddsPrimePower(m: nat, p: nat, e: nat)
    requires IsPrime(p) && e >= 1
    ensures AddsPrime(m, p, m * Pow(p, e))
  {
    if e == 1 {
      assert Pow(p, 1) == p * Pow(p, 0) == p;
      forall k: nat ensures Coprime(k, m * Pow(p, e)) <==> Coprime(k, m) && !Divides(p, k) {
        CoprimeMul(k, m, p);
        PrimeCoprime(p, k);
        GcdSymmetric(p, k);
      }
    } else {
      AddsPrimePower(m, p, e - 1);
      var m' := m * Pow(p, e - 1);
      assert m * Pow(p, e) == m' * p;
      forall k: nat ensures Coprime(k, m * Pow(p, e)) <==> Coprime(k, m) && !Divides(p, k) {
        CoprimeMul(k, m', p);
        PrimeCoprime(p, k);
        GcdSymmetric(p, k);
      }
    }
  }

  lemma {:induction false} CountSplits(bound: nat, m: nat, p: nat, m': nat)
    requires AddsPrime(m, p, m')
    ensures CountCoprime(bound, m') == CountCoprime(bound, m) - CountMultiplesCoprime(bound, m, p)
  {
    if bound > 0 { CountSplits(bound - 1, m, p, m'); }
  }

  lemma Regroup(q: nat, p: nat, m: nat)
    ensures m * (q * p) == (q * p) * m == (q * m) * p
  {}

  lemma ScaleDown(f: nat, p: nat)
    requires p > 0
    ensures (f * p) / p * (p - 1) == f * p - f
  {
    ModOfMultiple(f, p);
    assert f * (p - 1) == f * p - f;
  }

  /** One iteration's update: dividing the count by p and multiplying by p - 1 sieves p out. */
  lemma SieveStep(m: nat, rest: nat, p: nat, m': nat)
    requires m > 0 && p > 0 && Coprime(m, p) && Divides(p, rest) && AddsPrime(m, p, m')
    ensures CountCoprime(m * rest, m) / p * (p - 1) == CountCoprime(m * rest, m')
  {
    var q := DividesWitness(p, rest);
    assert q >= 0 by { if q < 0 { MulLe(q, -1, p); } }
    Regroup(q, p, m);
    CountMultiple(rest, m);
    CountMultiple(q, m);
    CountSplits(m * rest, m, p, m');
    MultiplesScale(m * rest, m, p);
    ModOfMultiple(q * m, p);
    Regroup(q, p, Phi(m));
    ScaleDown(q * Phi(m), p);
  }

  // ---- the algorithm ----

  /** `while (n % p == 0) n /= p;` */
  method StripFactor(n: u64, p: u64) returns (rest: u64, ghost e: nat)
    requires n > 0 && p >= 2
    ensures n == Pow(p, e) * rest && rest > 0 && !Divides(p, rest)
    ensures Divides(p, n) ==> e >= 1
    ensures Divides(rest, n)
  {
    rest, e := n, 0;
    DividesFrom(n, n, 1);
    while rest % p == 0
      invariant rest > 0 && n == Pow(p, e) * rest && Divides(rest, n)
      invariant e == 0 ==> rest == n
      decreases rest
    {
      var q := rest / p;
      DivModDefinition(rest, p);
      assert 0 < q < rest by { if q <= 0 { MulLe(q, 0, p); } else { MulLt(1, p, q); } }
      assert Pow(p, e + 1) * q == Pow(p, e) * rest by {
        assert (p * Pow(p, e)) * q == Pow(p, e) * (q * p);
      }
      DividesFrom(q, rest, p);
      DividesTransitive(q, rest, n);
      rest, e := q, e + 1;
    }
  }

  /** n0 = m * rest is split into the part already sieved and the coprime part still to factor. */
  ghost predicate Split(n0: nat, m: nat, rest: nat, result: int) {
    m > 0 && rest > 0 && n0 == m * rest && Coprime(m, rest) && result == CountCoprime(n0, m)
  }

  lemma SplitCoprime(m: nat, p: nat, e: nat, rest': nat)
    requires IsPrime(p) && e >= 1 && Coprime(m, Pow(p, e) * rest') && !Divides(p, rest')
    ensures Coprime(m, p) && Coprime(m * Pow(p, e), rest')
  {
    CoprimeMul(m, Pow(p, e), rest');
    CoprimeMul(m, p, Pow(p, e - 1));
    AddsPrimePower(m, p, e);
    GcdSymmetric(m, rest');
    GcdSymmetric(m * Pow(p, e), rest');
  }

  lemma SplitStep(n0: nat, m: nat, rest: nat, result: nat, p: nat, e: nat, rest': nat, m': nat)
    requires Split(n0, m, rest, result) && IsPrime(p) && e >= 1
    requires rest == Pow(p, e) * rest' && rest' > 0 && !Divides(p, rest')
    requires m' == m * Pow(p, e)
    ensures Split(n0, m', rest', result / p * (p - 1))
  {
    SplitCoprime(m, p, e, rest');
    AddsPrimePower(m, p, e);
    DividesPower(p, e, rest');
    SieveStep(m, rest, p, m');
    MulAssociative(m, Pow(p, e), rest');
    MulLt(0, m, Pow(p, e));
  }

  lemma DividesPower(p: nat, e: nat, x: nat)
    requires e >= 1
    ensures Divides(p, Pow(p, e) * x)
  {
    assert Pow(p, e) * x == (Pow(p, e - 1) * x) * p;
    DividesFrom(p, Pow(p, e) * x, Pow(p, e - 1) * x);
  }

  lemma LeastDivisorIsPrime(n: nat, p: nat)
    requires p >= 2 && NoDivisorBelow(n, p) && Divides(p, n)
    ensures IsPrime(p)
  {
    forall d: nat | 2 <= d < p ensures !Divides(d, p) {
      if Divides(d, p) { DividesTransitive(d, p, n); }
    }
  }

  lemma NoDivisorAdvances(n: nat, p: nat, rest: nat)
    requires p >= 3 && p % 2 == 1 && NoDivisorBelow(n, p) && Divides(rest, n) && !Divides(p, rest)
    ensures NoDivisorBelow(rest, p + 2)
  {
    forall d: nat | 2 <= d < p + 2 ensures !Divides(d, rest) {
      if Divides(d, rest) {
        DividesTransitive(d, rest, n);
        if d == p + 1 { DividesTransitive(2, d, n); }
      }
    }
  }

  /** The candidate never reaches the top of the range: there is no prime among 2^64 - 3 .. 2^64 - 1. */
  lemma CandidateStaysBelow(n: u64, p: u64)
    requires n > 0 && p >= 17 && NoDivisorBelow(n, p) && Wrap64(p * p) <= n
    ensures p != TWO_64 - 3
  {
    if p == TWO_64 - 3 {
      assert p * p == (TWO_64 - 6) * TWO_64 + 9;
      DivModUnique(p * p, TWO_64, TWO_64 - 6, 9);
      DividesFrom(n, n, 1);
      assert n >= p;
      if n == TWO_64 - 3 { DividesFrom(13, n, 1418980313362273201); }
      else if n == TWO_64 - 2 { DividesFrom(2, n, 9223372036854775807); }
      else { DividesFrom(3, n, 6148914691236517205); }
    }
  }

  lemma RestIsPrime(n: u64, p: u64)
    requires n > 1 && p >= 3 && NoDivisorBelow(n, p) && Wrap64(p * p) > n
    ensures IsPrime(n)
  {
    CongruentSelf(p * p, TWO_64);
    DivModDefinition(p * p, TWO_64);
    NoSmallDivisorMeansPrime(n, p);
  }

  /** Exact for every 64-bit n: where p * p wraps, rest is already 1 or a prime. */
  method EulerTotient(n0: u64) returns (result: u64)
    ensures result == Phi(n0)
  {
    if n0 == 0 { return 0; }
    if n0 == 1 { return 1; }
    result := n0;
    var n: u64 := n0;
    ghost var m: nat := 1;
    CountAll(n0);
    ghost var e;
    if n % 2 == 0 {
      result := result / 2 * (2 - 1);
      n, e := StripFactor(n, 2);
      TwoIsPrime();
      m := 1 * Pow(2, e);
      SplitStep(n0, 1, n0, n0, 2, e, n, m);
    }
    var p: u64 := 3;
    while Wrap64(p * p) <= n
      invariant p >= 3 && p % 2 == 1 && p < TWO_64 - 2
      invariant Split(n0, m, n, result)
      invariant NoDivisorBelow(n, p)
      decreases TWO_64 - p
    {
      if p >= 17 { CandidateStaysBelow(n, p); }
      var n': u64 := n;
      DividesFrom(n, n, 1);
      if n % p == 0 {
        LeastDivisorIsPrime(n, p);
        n', e := StripFactor(n, p);
        ghost var m' := Extend(m, p, e);
        SplitStep(n0, m, n, result, p, e, n', m');
        m := m';
        result := result / p * (p - 1);
      }
      NoDivisorAdvances(n, p, n');
      n := n';
      p := OddSuccessor(p);
    }
    if n > 1 {
      RestIsPrime(n, p);
      assert Pow(n, 1) == n * Pow(n, 0) == n;
      if Divides(n, 1) { DividesLe(n, 1); }
      SplitStep(n0, m, n, result, n, 1, 1, Extend(m, n, 1));
      result := result / n * (n - 1);
    }
  }

  ghost function Extend(m: nat, p: nat, e: nat): (m': nat)
    ensures m' == m * Pow(p, e)
  {
    assert m * Pow(p, e) >= 0;
    m * Pow(p, e)
  }

  function OddSuccessor(p: u64): (q: u64)
    requires p % 2 == 1 && p < TWO_64 - 3
    ensures q == p + 2 && q % 2 == 1 && q < TWO_64 - 2
  {
    p + 2
  }

  lemma TwoIsPrime()
    ensures IsPrime(2)
  {}

  /** Every number is coprime to 1, so the initial result n counts them all. */
  lemma {:induction false} CountAllBelow(bound: nat)
    ensures CountCoprime(bound, 1) == bound
  {
    if bound > 0 {
      CountAllBelow(bound - 1);
      assert Gcd(bound, 1) == Gcd(1, bound % 1) == 1;
    }
  }

  lemma CountAll(n: nat)
    requires n > 0
    ensures Split(n, 1, n, n)
    ensures NoDivisorBelow(n, 2)
  {
    CountAllBelow(n);
    GcdSymmetric(1, n);
    assert Gcd(n, 1) == Gcd(1, n % 1) == 1;
  }
}
