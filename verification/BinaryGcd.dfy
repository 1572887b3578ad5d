/** Stein's binary gcd: shifts and subtractions only. */
module BinaryGcd {
  import opened Common
  import opened Words
  import opened Arithmetic
  import opened Divisibility

  /** The number of trailing zero bits (the builtin behind ctzll). */
  function TrailingZeros(n: nat): nat
    requires n > 0
  {
    if n % 2 == 1 then 0 else 1 + TrailingZeros(n / 2)
  }

  /** n >> TrailingZeros(n). */
  function OddPart(n: nat): nat
    requires n > 0
  {
    if n % 2 == 1 then n else OddPart(n / 2)
  }

  lemma {:induction false} OddPartSplits(n: nat)
    requires n > 0
    ensures n == TwoTo(TrailingZeros(n)) * OddPart(n)
    ensures n == OddPart(n) * TwoTo(TrailingZeros(n))
    ensures OddPart(n) % 2 == 1 && 1 <= OddPart(n) <= n
    ensures n / TwoTo(TrailingZeros(n)) == OddPart(n)
  {
    if n % 2 == 0 {
      OddPartSplits(n / 2);
      var t, o := TwoTo(TrailingZeros(n / 2)), OddPart(n);
      assert TwoTo(TrailingZeros(n)) == 2 * t;
      assert n == 2 * (n / 2);
      MulAssociative(2, t, o);
    }
    ModOfMultiple(OddPart(n), TwoTo(TrailingZeros(n)));
  }

  lemma OddCoprimeTwo(a: nat)
    requires a % 2 == 1
    ensures Coprime(a, 2)
  {
    assert Gcd(a, 2) == Gcd(2, 1) == Gcd(1, 0) == 1;
  }

  lemma {:induction false} OddGcdIgnoresTwos(a: nat, b: nat, e: nat)
    requires a % 2 == 1
    ensures Gcd(a, TwoTo(e) * b) == Gcd(a, b)
  {
    if e > 0 {
      OddCoprimeTwo(a);
      GcdDropCoprime(a, 2, TwoTo(e - 1) * b);
      MulAssociative(2, TwoTo(e - 1), b);
      OddGcdIgnoresTwos(a, b, e - 1);
    }
  }

  lemma CommonTwosOrdered(i: nat, x: nat, j: nat, y: nat)
    requires i <= j && x % 2 == 1
    ensures Gcd(TwoTo(i) * x, TwoTo(j) * y) == TwoTo(i) * Gcd(x, TwoTo(j) * y)
  {
    var p, q := TwoTo(i), TwoTo(j - i);
    TwoToAdd(i, j - i);
    MulAssociative(p, q, y);
    GcdScale(p, x, q * y);
    OddGcdIgnoresTwos(x, y, j - i);
    OddGcdIgnoresTwos(x, y, j);
  }

  /** Pulling out the common power of two leaves the gcd of one odd part with the other operand. */
  lemma CommonTwos(a: nat, b: nat)
    requires a > 0 && b > 0
    ensures Gcd(a, b) == TwoTo(Min(TrailingZeros(a), TrailingZeros(b))) * Gcd(OddPart(a), b)
  {
    OddPartSplits(a);
    OddPartSplits(b);
    if TrailingZeros(a) <= TrailingZeros(b) {
      CommonTwosOrdered(TrailingZeros(a), OddPart(a), TrailingZeros(b), OddPart(b));
    } else {
      CommonTwosOrdered(TrailingZeros(b), OddPart(b), TrailingZeros(a), OddPart(a));
      GcdSymmetric(a, b);
      GcdSymmetric(OddPart(b), a);
      OddCounterpart(a, b);
    }
  }

  lemma OddCounterpart(a: nat, b: nat)
    requires a > 0 && b > 0
    ensures Gcd(a, OddPart(b)) == Gcd(OddPart(a), b)
  {
    OddPartSplits(a);
    OddPartSplits(b);
    OddGcdIgnoresTwos(OddPart(b), OddPart(a), TrailingZeros(a));
    OddGcdIgnoresTwos(OddPart(a), OddPart(b), TrailingZeros(b));
    GcdSymmetric(a, OddPart(b));
    GcdSymmetric(OddPart(a), OddPart(b));
  }

  /** The loop of gcd; ctzll(a | b) is the smaller of the two counts. */
  method BinaryGcd(a0: u64, b0: u64) returns (g: u64)
    ensures g == Gcd(a0, b0)
  {
    if a0 == 0 { GcdSymmetric(a0, b0); return b0; }
    if b0 == 0 { return a0; }
    var shift := Min(TrailingZeros(a0), TrailingZeros(b0));
    OddPartSplits(a0);
    var a: u64, b: u64 := a0 / TwoTo(TrailingZeros(a0)), b0;
    CommonTwos(a0, b0);
    ghost var odd := a;
    while b != 0
      invariant a > 0 && a % 2 == 1
      invariant Gcd(a, b) == Gcd(odd, b0)
      decreases a + b
    {
      OddPartSplits(b);
      OddGcdIgnoresTwos(a, OddPart(b), TrailingZeros(b));
      b := b / TwoTo(TrailingZeros(b));
      if a > b {
        GcdSymmetric(a, b);
        a, b := b, a;
      }
      GcdSubtract(a, b);
      b := b - a;
    }
    GcdPositive(a0, b0);
    var x, y := GcdBezout(a0, b0);
    DividesLe(Gcd(a0, b0), a0);
    g := TwoTo(shift) * a;
  }
}
