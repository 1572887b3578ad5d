/** Modular exponentiation, the Miller-Rabin test, is_prime and next_prime. */
module Primality {
  import opened Words
  import opened Arithmetic
  import opened Divisibility
  import opened BinaryGcd
  import opened Fermat

  // ---- modular multiplication ----

  /** mul_mod with a 128-bit intermediate. */
  function MulMod(a: u64, b: u64, mod: u64): (r: u64)
    requires mod > 0
    ensures r < mod
  {
    CongruentSelf(a * b, mod);
    (a * b) % mod
  }

  /** What the double-and-add loop of mul_mod computes, wrap-around included. */
  function DoubleAndAdd(res: u64, a: u64, b: u64, mod: u64): u64
    requires mod > 0
    decreases b
  {
    if b == 0 then res
    else
      CongruentSelf(Wrap64(res + a), mod);
      CongruentSelf(Wrap64(a * 2), mod);
      DoubleAndAdd(if b % 2 == 1 then Wrap64(res + a) % mod else res, Wrap64(a * 2) % mod, b / 2, mod)
  }

  /** The loop of mul_mod on compilers without a 128-bit type. */
  method MulModPortable(a0: u64, b0: u64, mod: u64) returns (res: u64)
    requires mod > 0
    ensures res == DoubleAndAdd(0, a0 % mod, b0, mod)
  {
    CongruentSelf(a0, mod);
    var a: u64, b: u64 := a0 % mod, b0;
    res := 0;
    while b > 0
      invariant DoubleAndAdd(res, a, b, mod) == DoubleAndAdd(0, a0 % mod, b0, mod)
    {
      CongruentSelf(Wrap64(res + a), mod);
      CongruentSelf(Wrap64(a * 2), mod);
      if b % 2 == 1 { res := Wrap64(res + a) % mod; }
      a := Wrap64(a * 2) % mod;
      b := b / 2;
    }
  }

  lemma HalveProduct(a: int, b: nat)
    ensures a * b == (if b % 2 == 1 then a else 0) + a * 2 * (b / 2)
  {
    var h := b / 2;
    assert b == 2 * h + b % 2;
    assert a * (2 * h + 1) == a * 2 * h + a;
  }

  lemma DoubleAndAddStep(res: nat, a: nat, b: nat, mod: nat)
    requires mod > 0
    ensures Congruent((if b % 2 == 1 then (res + a) % mod else res) + (a * 2) % mod * (b / 2), res + a * b, mod)
  {
    var h := b / 2;
    CongruentSelf(a * 2, mod);
    CongruentMul((a * 2) % mod, a * 2, h, h, mod);
    HalveProduct(a, b);
    if b % 2 == 1 {
      CongruentSelf(res + a, mod);
      CongruentAdd((res + a) % mod, res + a, (a * 2) % mod * h, a * 2 * h, mod);
    } else {
      CongruentAdd(res, res, (a * 2) % mod * h, a * 2 * h, mod);
    }
  }

  lemma {:induction false} DoubleAndAddExact(res: u64, a: u64, b: u64, mod: u64)
    requires 0 < mod <= TWO_63 && res < mod && a < mod
    ensures Congruent(DoubleAndAdd(res, a, b, mod), res + a * b, mod)
    ensures DoubleAndAdd(res, a, b, mod) < mod
    decreases b
  {
    if b > 0 {
      CongruentSelf(res + a, mod);
      CongruentSelf(a * 2, mod);
      WrapSmall(res + a);
      WrapSmall(a * 2);
      DoubleAndAddStep(res, a, b, mod);
      DoubleAndAddExact(if b % 2 == 1 then (res + a) % mod else res, (a * 2) % mod, b / 2, mod);
    }
  }

  lemma PortableExact(a: u64, b: u64, mod: u64)
    requires 0 < mod <= TWO_63
    ensures DoubleAndAdd(0, a % mod, b, mod) == MulMod(a, b, mod)
  {
    CongruentSelf(a, mod);
    DoubleAndAddExact(0, a % mod, b, mod);
    CongruentMul(a % mod, a, b, b, mod);
    var r := DoubleAndAdd(0, a % mod, b, mod);
    DivModUnique(r, mod, 0, r);
  }

  /** Two rounds of the loop for the factor 2. */
  lemma DoubledOnce(a: u64, d: u64, mod: u64)
    requires mod > 0 && d == Wrap64(a * 2) % mod && d < mod
    ensures DoubleAndAdd(0, a, 2, mod) == Wrap64(d) % mod
  {
    assert DoubleAndAdd(0, a, 2, mod) == DoubleAndAdd(0, d, 1, mod);
    CongruentSelf(Wrap64(d * 2), mod);
    CongruentSelf(Wrap64(0 + d), mod);
  }

  /** Doubling mod - 1 wraps when mod exceeds 2^63. */
  lemma PortableWraps(mod: u64)
    requires mod > TWO_63
    ensures DoubleAndAdd(0, (mod - 1) % mod, 2, mod) != MulMod(mod - 1, 2, mod)
  {
    var d: u64 := 2 * mod - 2 - TWO_64;
    DivModUnique(mod - 1, mod, 0, mod - 1);
    DivModUnique(d, mod, 0, d);
    DivModUnique(2 * mod - 2, TWO_64, 1, d);
    WrapSmall(d);
    DoubledOnce(mod - 1, d, mod);
    DivModUnique(2 * mod - 2, mod, 1, mod - 2);
  }

  /** The portable path is exact for every pair of operands precisely when the modulus is at most 2^63. */
  lemma PortableExactIff(mod: u64)
    requires mod > 0
    ensures mod <= TWO_63 <==> forall a: u64, b: u64 :: DoubleAndAdd(0, a % mod, b, mod) == MulMod(a, b, mod)
  {
    if mod <= TWO_63 {
      forall a: u64, b: u64 ensures DoubleAndAdd(0, a % mod, b, mod) == MulMod(a, b, mod) {
        PortableExact(a, b, mod);
      }
    } else {
      PortableWraps(mod);
      var a: u64, b: u64 := mod - 1, 2;
      assert DoubleAndAdd(0, a % mod, b, mod) != MulMod(a, b, mod);
    }
  }

  /** Square-and-multiply. */
  method ModExp(base0: u64, exp0: u64, mod: u64) returns (result: u64)
    requires mod > 0
    ensures result == Pow(base0, exp0) % mod
  {
    if mod == 1 { return 0; }
    result := 1;
    CongruentSelf(base0, mod);
    var base: u64, exp: u64 := base0 % mod, exp0;
    PowCongruent(base, base0, exp, mod);
    DivModUnique(1, mod, 0, 1);
    while exp > 0
      invariant result < mod
      invariant Congruent(result * Pow(base, exp), Pow(base0, exp0), mod)
    {
      SquareAndMultiply(result, base, exp, mod);
      if exp % 2 == 1 {
        result := MulMod(result, base, mod);
      }
      base := MulMod(base, base, mod);
      exp := exp / 2;
    }
    DivModUnique(result, mod, 0, result);
  }

  // ---- Miller-Rabin ----

  /** a shows n = d * 2^s + 1 to be composite. */
  ghost predicate Witnesses(a: nat, d: nat, s: nat, n: nat)
    requires n > 0
  {
    && Pow(a, d) % n != 1
    && forall r: nat :: r == 0 || r < s ==> Pow(a, d * TwoTo(r)) % n != n - 1
  }

  lemma NextSquare(a: nat, d: nat, r: nat, n: nat)
    requires n > 0
    ensures Pow(a, d * TwoTo(r + 1)) % n == ((Pow(a, d * TwoTo(r)) % n) * (Pow(a, d * TwoTo(r)) % n)) % n
  {
    var e := d * TwoTo(r);
    assert d * TwoTo(r + 1) == e + e;
    PowAdd(a, e, e);
    CongruentSelf(Pow(a, e), n);
    CongruentMul(Pow(a, e) % n, Pow(a, e), Pow(a, e) % n, Pow(a, e), n);
  }

  method MillerRabinWitness(a: u64, d: u64, s: nat, n: u64) returns (composite: bool)
    requires n > 2
    ensures composite <==> Witnesses(a, d, s, n)
  {
    var x := ModExp(a, d, n);
    assert d * TwoTo(0) == d;
    if x == 1 || x == n - 1 { return false; }
    var r := 1;
    while r < s
      invariant r >= 1 && x == Pow(a, d * TwoTo(r - 1)) % n
      invariant forall q: nat :: q < r ==> Pow(a, d * TwoTo(q)) % n != n - 1
    {
      NextSquare(a, d, r - 1, n);
      x := MulMod(x, x, n);
      if x == n - 1 { return false; }
      r := r + 1;
    }
    return true;
  }

  /** If some power in the squaring chain is 1, the first one is 1 or an earlier one is -1. */
  lemma {:induction false} ChainReachesMinusOne(a: nat, d: nat, r: nat, n: nat)
    requires IsPrime(n) && Pow(a, d * TwoTo(r)) % n == 1
    ensures Pow(a, d) % n == 1 || exists q: nat :: q < r && Pow(a, d * TwoTo(q)) % n == n - 1
  {
    if r == 0 {
      assert d * TwoTo(0) == d;
    } else {
      NextSquare(a, d, r - 1, n);
      var x := Pow(a, d * TwoTo(r - 1)) % n;
      CongruentSelf(Pow(a, d * TwoTo(r - 1)), n);
      SquareRootOfOne(x, n);
      if x == 1 {
        ChainReachesMinusOne(a, d, r - 1, n);
      }
    }
  }

  /** No base witnesses against a prime. */
  lemma PrimeHasNoWitness(a: nat, d: nat, s: nat, n: nat)
    requires IsPrime(n) && n - 1 == d * TwoTo(s) && !Divides(n, a)
    ensures !Witnesses(a, d, s, n)
  {
    FermatLittle(a, n);
    DivModUnique(1, n, 0, 1);
    ChainReachesMinusOne(a, d, s, n);
  }

  // ---- is_prime ----

  const BASES: seq<u64> := [2, 3, 5, 7, 11, 13, 17, 19, 23, 29, 31, 37]

  /** The numbers is_prime answers true for: primes below 2^32; above, survivors of trial
      division by everything up to 65536 and of the twelve Miller-Rabin bases. */
  ghost predicate Accepts(n: nat) {
    if n < TWO_32 then IsPrime(n)
    else
      && NoDivisorBelow(n, 65537)
      && forall i :: 0 <= i < |BASES| ==> !Witnesses(BASES[i], OddPart(n - 1), TrailingZeros(n - 1), n)
  }

  lemma BasesSmall(i: nat)
    requires i < |BASES|
    ensures 0 < BASES[i] <= 37
  {}

  lemma BaseIsNoWitness(n: nat, i: nat)
    requires IsPrime(n) && n >= TWO_32 && i < |BASES|
    ensures !Witnesses(BASES[i], OddPart(n - 1), TrailingZeros(n - 1), n)
  {
    OddPartSplits(n - 1);
    BasesSmall(i);
    var a := BASES[i];
    if Divides(n, a) { DividesLe(n, a); }
    PrimeHasNoWitness(a, OddPart(n - 1), TrailingZeros(n - 1), n);
  }

  /** is_prime never rejects a prime. */
  lemma PrimesAreAccepted(n: nat)
    requires IsPrime(n)
    ensures Accepts(n)
  {
    if n >= TWO_32 {
      forall i | 0 <= i < |BASES|
        ensures !Witnesses(BASES[i], OddPart(n - 1), TrailingZeros(n - 1), n)
      {
        BaseIsNoWitness(n, i);
      }
    }
  }

  /** Six consecutive candidates are covered by testing two of them. */
  lemma WheelStep(n: nat, i: nat)
    requires i % 6 == 5 && !Divides(2, n) && !Divides(3, n)
    requires NoDivisorBelow(n, i) && !Divides(i, n) && !Divides(i + 2, n)
    ensures NoDivisorBelow(n, i + 6)
    ensures (i + 6) % 6 == 5 && (i <= 65536 ==> i + 6 <= 65537)
  {
    SixResidues(i);
    EvenNotDivides(i + 1, n);
    EvenNotDivides(i + 3, n);
    EvenNotDivides(i + 5, n);
    if Divides(i + 4, n) { DividesTransitive(3, i + 4, n); }
  }

  lemma SixResidues(i: nat)
    requires i % 6 == 5
    ensures (i + 1) % 2 == 0 && (i + 3) % 2 == 0 && (i + 5) % 2 == 0 && (i + 4) % 3 == 0
    ensures (i + 6) % 6 == 5 && (i <= 65536 ==> i + 6 <= 65537)
  {
    var k := i / 6;
    assert i == 6 * k + 5;
  }

  lemma EvenNotDivides(d: nat, n: nat)
    requires d % 2 == 0 && !Divides(2, n)
    ensures !Divides(d, n)
  {
    if Divides(d, n) { DividesTransitive(2, d, n); }
  }

  /** When trial division stops, a number below 2^32 is prime and a larger one has no divisor up to 65536. */
  lemma TrialDivisionDone(n: nat, i: nat)
    requires n >= 4 && i % 6 == 5 && 5 <= i <= 65537 && NoDivisorBelow(n, i)
    requires i * i > n || i > 65536
    ensures n < TWO_32 ==> IsPrime(n)
    ensures n >= TWO_32 ==> i == 65537
  {
    if i * i > n {
      NoSmallDivisorMeansPrime(n, i);
      if i <= 65535 {
        MulLe(i, 65535, i);
        MulLe(i, 65535, 65535);
      }
    } else {
      MulLe(65537, i, i);
      assert i == 65537;
    }
  }

  lemma CandidateBelow(n: nat, i: nat)
    requires 5 <= i && i * i <= n
    ensures i + 2 < n
  {
    MulLe(5, i, i);
  }

  lemma NoDivisorBelowFive(n: nat)
    requires !Divides(2, n) && !Divides(3, n)
    ensures NoDivisorBelow(n, 5)
  {
    if Divides(4, n) { DividesTransitive(2, 4, n); }
  }

  lemma DivisorRejects(n: nat, d: nat)
    requires 2 <= d < n && Divides(d, n) && d <= 65536
    ensures !Accepts(n)
  {}

  /** The twelve bases in turn. */
  method SurvivesBases(n: u64) returns (result: bool)
    requires n >= TWO_32
    ensures result <==> forall i :: 0 <= i < |BASES| ==> !Witnesses(BASES[i], OddPart(n - 1), TrailingZeros(n - 1), n)
  {
    OddPartSplits(n - 1);
    var s := TrailingZeros(n - 1);
    var d: u64 := (n - 1) / TwoTo(s);
    var b := 0;
    while b < |BASES|
      invariant 0 <= b <= |BASES|
      invariant forall k :: 0 <= k < b ==> !Witnesses(BASES[k], d, s, n)
    {
      var a := BASES[b];
      if n <= a { break; }
      var composite := MillerRabinWitness(a, d, s, n);
      if composite { return false; }
      b := b + 1;
    }
    return true;
  }

  method IsPrimeTest(n: u64) returns (result: bool)
    ensures result <==> Accepts(n)
  {
    if n <= 1 { return false; }
    if n <= 3 { SmallPrimes(); return true; }
    if n % 2 == 0 || n % 3 == 0 {
      DivisorRejects(n, if n % 2 == 0 then 2 else 3);
      return false;
    }
    var limit := 65536;
    var i: u64 := 5;
    NoDivisorBelowFive(n);
    assert 5 % 6 == 5;
    while i * i <= n && i <= limit
      invariant i % 6 == 5 && 5 <= i <= 65537
      invariant NoDivisorBelow(n, i)
      decreases 65538 - i
    {
      CandidateBelow(n, i);
      if n % i == 0 || n % (i + 2) == 0 {
        DivisorRejects(n, if n % i == 0 then i else i + 2);
        return false;
      }
      WheelStep(n, i);
      i := i + 6;
    }
    TrialDivisionDone(n, i);
    if n < limit * limit { return true; }
    result := SurvivesBases(n);
  }

  lemma SmallPrimes()
    ensures IsPrime(2) && IsPrime(3)
  {}

  // ---- next_prime ----

  /** What next_prime promises of its answer r for input n. */
  ghost predicate IsNextAccepted(n: nat, r: nat) {
    if r == 0 then NoneAccepted(n, TWO_64)
    else n < r < TWO_64 && Accepts(r) && NoneAccepted(n, r)
  }

  ghost predicate NoneAccepted(n: nat, bound: nat) {
    forall m: nat :: n < m < bound ==> !Accepts(m)
  }

  lemma EvenNotAccepted(m: nat)
    requires m > 2 && m % 2 == 0
    ensures !Accepts(m)
    ensures (m + 1) % 2 == 1 && m != TWO_64 - 1
  {
    ParityStep(m);
    if m < TWO_32 { assert Divides(2, m); } else { assert Divides(2, m) && !NoDivisorBelow(m, 65537); }
  }

  lemma ParityStep(m: nat)
    requires m % 2 == 0
    ensures (m + 1) % 2 == 1 && m != TWO_64 - 1
  {}

  lemma NoneAcceptedExtends(n: nat, c: nat)
    requires NoneAccepted(n, c) && !Accepts(c) && !Accepts(c + 1)
    ensures NoneAccepted(n, c + 2)
  {
    forall m: nat | n < m < c + 2 ensures !Accepts(m) {
      assert m < c || m == c || m == c + 1;
    }
  }

  lemma OddThenEven(m: nat)
    requires m % 2 == 1
    ensures (m + 1) % 2 == 0
  {}

  /** The first odd number above n, with nothing accepted before it. */
  lemma FirstOdd(n: u64)
    requires n >= 2
    ensures if n % 2 == 0 then NoneAccepted(n, n + 1) && (n + 1) % 2 == 1
            else n + 1 < TWO_64 ==> n + 2 < TWO_64 && NoneAccepted(n, n + 2) && (n + 2) % 2 == 1
  {
    if n % 2 == 1 { EvenNotAccepted(n + 1); }
  }

  /** From a rejected odd candidate to the next odd number. */
  lemma NextOdd(n: u64, c: u64)
    requires 2 <= n < c && c % 2 == 1 && c + 2 < TWO_64 && !Accepts(c) && NoneAccepted(n, c)
    ensures (c + 2) % 2 == 1 && NoneAccepted(n, c + 2)
  {
    OddThenEven(c);
    EvenNotAccepted(c + 1);
    NoneAcceptedExtends(n, c);
  }

  lemma LastOdd(n: u64, c: u64)
    requires c % 2 == 1 && c + 2 >= TWO_64 && !Accepts(c) && NoneAccepted(n, c)
    ensures NoneAccepted(n, TWO_64)
  {
    assert c == TWO_64 - 1;
  }

  method NextPrime(n: u64) returns (r: u64)
    ensures IsNextAccepted(n, r)
  {
    if n < 2 { SmallPrimes(); return 2; }
    var candidate: u64 := Wrap64(n + 1);
    if candidate == 0 { return 0; }
    FirstOdd(n);
    if candidate % 2 == 0 {
      candidate := candidate + 1;
    }
    var accepted := IsPrimeTest(candidate);
    while !accepted
      invariant candidate % 2 == 1 && n < candidate
      invariant accepted <==> Accepts(candidate)
      invariant NoneAccepted(n, candidate)
      decreases TWO_64 - candidate
    {
      if candidate > TWO_64 - 1 - 2 {
        LastOdd(n, candidate);
        return 0;
      }
      NextOdd(n, candidate);
      candidate := candidate + 2;
      accepted := IsPrimeTest(candidate);
    }
    return candidate;
  }

  /** next_prime never skips a prime, and below 2^32 its answer is the least prime above n. */
  lemma NextPrimeSkipsNone(n: u64, r: u64)
    requires IsNextAccepted(n, r)
    ensures forall p: nat :: IsPrime(p) && n < p < TWO_64 ==> 0 < r <= p
    ensures 0 < r < TWO_32 ==> IsPrime(r) && n < r
  {
    forall p: nat | IsPrime(p) && n < p < TWO_64 ensures 0 < r <= p {
      PrimesAreAccepted(p);
    }
  }
}
