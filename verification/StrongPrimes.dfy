/** What is_prime has checked when it answers true, written out: the trial divisors and the twelve bases. */
module StrongPrimes {
  import opened Words
  import opened Arithmetic
  import opened Divisibility
  import opened BinaryGcd
  import opened Primality

  /** n = d * 2^s + 1 looks prime to base a: a^d is 1 or one of its squarings below a^(n - 1) is -1. */
  ghost predicate Passes(a: nat, d: nat, s: nat, n: nat)
    requires n > 0
  {
    Pow(a, d) % n == 1 || exists r: nat :: r < s && Pow(a, d * Pow(2, r)) % n == n - 1
  }

  /** A number below 2^32 is accepted exactly when nothing between 1 and itself divides it; a larger one exactly when
      nothing from 2 to 65536 divides it and it passes for the first twelve primes. */
  lemma AcceptedIff(n: nat, d: nat, s: nat)
    requires n >= 2 && n - 1 == d * Pow(2, s) && d % 2 == 1
    ensures n < 0x1_0000_0000 ==> (Accepts(n) <==> forall k: nat :: 2 <= k < n ==> n % k != 0)
    ensures n >= 0x1_0000_0000 ==>
      (Accepts(n) <==>
        && (forall k: nat :: 2 <= k <= 65536 ==> n % k != 0)
        && Passes(2, d, s, n) && Passes(3, d, s, n) && Passes(5, d, s, n) && Passes(7, d, s, n)
        && Passes(11, d, s, n) && Passes(13, d, s, n) && Passes(17, d, s, n) && Passes(19, d, s, n)
        && Passes(23, d, s, n) && Passes(29, d, s, n) && Passes(31, d, s, n) && Passes(37, d, s, n))
  {
    if n < 0x1_0000_0000 {
      NoDivisorIff(n, n);
    } else {
      NoDivisorIff(n, 65537);
      OddPartUnique(n - 1, d, s);
      if n % 2 == 0 {
        assert Divides(2, n);
      } else {
        OddMinusOne(n, d, s);
        PassesEachBase(n, d, s);
      }
    }
  }

  /** The numbers that AcceptedIff leaves open. */
  lemma SmallestAccepted()
    ensures !Accepts(0) && !Accepts(1) && Accepts(2)
  {
    SmallPrimes();
  }

  lemma NoDivisorIff(n: nat, bound: nat)
    ensures NoDivisorBelow(n, bound) <==> forall k: nat :: 2 <= k < bound ==> n % k != 0
  {
    if NoDivisorBelow(n, bound) {
      forall k: nat | 2 <= k < bound ensures n % k != 0 { assert !Divides(k, n); }
    }
  }

  lemma PassesEachBase(n: nat, d: nat, s: nat)
    requires n > 0 && s > 0
    ensures (forall i :: 0 <= i < |BASES| ==> !Witnesses(BASES[i], d, s, n)) <==>
      && Passes(2, d, s, n) && Passes(3, d, s, n) && Passes(5, d, s, n) && Passes(7, d, s, n)
      && Passes(11, d, s, n) && Passes(13, d, s, n) && Passes(17, d, s, n) && Passes(19, d, s, n)
      && Passes(23, d, s, n) && Passes(29, d, s, n) && Passes(31, d, s, n) && Passes(37, d, s, n)
  {
    forall i | 0 <= i < |BASES| ensures Witnesses(BASES[i], d, s, n) <==> !Passes(BASES[i], d, s, n) {
      WitnessesIff(BASES[i], d, s, n);
    }
    EachBase((a: nat) => Passes(a, d, s, n));
  }

  /** What holds of each entry of the table holds of the first twelve primes, and the other way round. */
  lemma EachBase(p: nat -> bool)
    ensures (forall i :: 0 <= i < |BASES| ==> p(BASES[i])) <==>
      p(2) && p(3) && p(5) && p(7) && p(11) && p(13) && p(17) && p(19) && p(23) && p(29) && p(31) && p(37)
  {
    if forall i :: 0 <= i < |BASES| ==> p(BASES[i]) {
      assert p(BASES[0]) && p(BASES[1]) && p(BASES[2]) && p(BASES[3]) && p(BASES[4]) && p(BASES[5]);
      assert p(BASES[6]) && p(BASES[7]) && p(BASES[8]) && p(BASES[9]) && p(BASES[10]) && p(BASES[11]);
    }
  }

  lemma OddMinusOne(n: nat, d: nat, s: nat)
    requires n % 2 == 1 && n - 1 == d * Pow(2, s) && d % 2 == 1
    ensures s > 0
  {}

  lemma WitnessesIff(a: nat, d: nat, s: nat, n: nat)
    requires n > 0 && s > 0
    ensures Witnesses(a, d, s, n) <==> !Passes(a, d, s, n)
  {
    if !Witnesses(a, d, s, n) && Pow(a, d) % n != 1 {
      var r: nat :| (r == 0 || r < s) && Pow(a, d * TwoTo(r)) % n == n - 1;
      assert r < s && Pow(a, d * Pow(2, r)) % n == n - 1;
    }
    if Passes(a, d, s, n) && Pow(a, d) % n != 1 {
      var r: nat :| r < s && Pow(a, d * Pow(2, r)) % n == n - 1;
      assert Pow(a, d * TwoTo(r)) % n == n - 1;
    }
  }

  /** A number is an odd one times a power of two in one way only. */
  lemma {:induction false} OddPartUnique(m: nat, d: nat, s: nat)
    requires m > 0 && m == d * Pow(2, s) && d % 2 == 1
    ensures d == OddPart(m) && s == TrailingZeros(m)
    decreases s
  {
    if s == 0 {
      assert m == d;
    } else {
      var h := d * Pow(2, s - 1);
      TwiceAsMuch(d, Pow(2, s - 1), m);
      OddPartUnique(h, d, s - 1);
    }
  }

  lemma TwiceAsMuch(d: nat, p: nat, m: nat)
    requires m == d * (2 * p)
    ensures m == 2 * (d * p) && m % 2 == 0 && m / 2 == d * p
  {
    MulCommutes(d, 2 * p);
    MulAssociative(2, p, d);
    MulCommutes(d, p);
  }

  // ---- what an accepted number has in common with a prime ----

  lemma SquareOf(a: nat, d: nat, r: nat, n: nat, x: nat)
    requires n > 1 && x == Pow(a, d * Pow(2, r)) % n && (x == 1 || x == n - 1)
    ensures Pow(a, d * Pow(2, r + 1)) % n == 1
  {
    NextSquare(a, d, r, n);
    SquareIsOne(x, n);
  }

  lemma SquareIsOne(x: nat, n: nat)
    requires n > 1 && (x == 1 || x == n - 1)
    ensures (x * x) % n == 1
  {
    if x == 1 {
      DivModUnique(1, n, 0, 1);
    } else {
      assert (n - 1) * (n - 1) == (n - 2) * n + 1;
      DivModUnique((n - 1) * (n - 1), n, n - 2, 1);
    }
  }

  lemma {:induction false} StaysOne(a: nat, d: nat, r: nat, s: nat, n: nat)
    requires n > 1 && r <= s && Pow(a, d * Pow(2, r)) % n == 1
    ensures Pow(a, d * Pow(2, s)) % n == 1
    decreases s - r
  {
    if r < s {
      SquareOf(a, d, r, n, 1);
      StaysOne(a, d, r + 1, s, n);
    }
  }

  /** Passing for a base implies Fermat's congruence for it. */
  lemma PassesFermat(a: nat, d: nat, s: nat, n: nat)
    requires n > 1 && n - 1 == d * Pow(2, s) && Passes(a, d, s, n)
    ensures Pow(a, n - 1) % n == 1
  {
    if Pow(a, d) % n == 1 {
      assert d * Pow(2, 0) == d;
      StaysOne(a, d, 0, s, n);
    } else {
      var r: nat :| r < s && Pow(a, d * Pow(2, r)) % n == n - 1;
      SquareOf(a, d, r, n, n - 1);
      StaysOne(a, d, r + 1, s, n);
    }
  }

  /** Every accepted number from 2^32 on is a Fermat probable prime to each of the twelve bases. */
  lemma AcceptedFermat(n: nat, a: nat)
    requires n >= 0x1_0000_0000 && Accepts(n)
    requires a in {2, 3, 5, 7, 11, 13, 17, 19, 23, 29, 31, 37}
    ensures Pow(a, n - 1) % n == 1
  {
    var d, s := OddPart(n - 1), TrailingZeros(n - 1);
    OddPartSplits(n - 1);
    AcceptedIff(n, d, s);
    PassesFermat(a, d, s, n);
  }

  // ---- a composite without small divisors ----

  /** Modulo 65537 the powers of two repeat after 32. */
  lemma {:induction false} PowersRepeat(k: nat)
    ensures Pow(2, 32 * k) % 65537 == 1
  {
    if k > 0 {
      PowersRepeat(k - 1);
      PowAdd(2, 32 * (k - 1), 32);
      TwoToThe32();
      CongruentMul(Pow(2, 32 * (k - 1)), 1, Pow(2, 32), 1, 65537);
    }
  }

  lemma TwoToThe32()
    ensures Pow(2, 32) == 4294967296
  {
    assert Pow(2, 4) == 16;
    PowAdd(2, 4, 4);
    PowAdd(2, 8, 8);
    PowAdd(2, 16, 16);
  }

  lemma NotOneOrMinusOne(x: nat, n: nat)
    requires n == 65537 * 65539 && x % 65537 == 2
    ensures x % n != 1 && x % n != n - 1
  {
    DivModDefinition(x, n);
    var q := x / n;
    assert x == x % n + q * 65539 * 65537;
    ModAddMultiple(x % n, q * 65539, 65537);
  }

  /** The composite 65537 * 65539 has no divisor that trial division tries, but base 2 gives it away. */
  lemma CompositeIsRefused()
    ensures !Accepts(65537 * 65539)
  {
    ProductIsRefused(65537 * 65539, 2147614721, 67112960);
  }

  lemma ProductIsRefused(n: nat, d: nat, k: nat)
    requires n == 65537 * 65539 && n - 1 == 2 * d && d == 32 * k + 1
    ensures !Accepts(n)
  {
    FailsBaseTwo(n, d, k);
    assert Pow(2, 1) == 2;
    AcceptedIff(n, d, 1);
  }

  lemma FailsBaseTwo(n: nat, d: nat, k: nat)
    requires n == 65537 * 65539 && d == 32 * k + 1
    ensures !Passes(2, d, 1, n)
  {
    OddPower(k, d);
    NotOneOrMinusOne(Pow(2, d), n);
    assert d * Pow(2, 0) == d;
  }

  lemma OddPower(k: nat, d: nat)
    requires d == 32 * k + 1
    ensures Pow(2, d) % 65537 == 2
  {
    PowersRepeat(k);
    assert Pow(2, d) == 2 * Pow(2, 32 * k);
    CongruentMul(2, 2, Pow(2, 32 * k), 1, 65537);
  }
}
