/** Dividing 128 bits by 64 with 64-bit arithmetic only. */
module WideDivision {
  import opened Words
  import opened Arithmetic
  import opened Limbs

  // A digit of (u * W + d) / v in base W, estimated from the high half v1 of v = v1 * W + v0.

  /** q is not below the true digit, and r is its remainder against the high half. */
  ghost predicate Overestimate(q: int, r: int, u: int, d: int, v: int, v1: int, W: int) {
    q * v1 + r == u && (q + 1) * v > u * W + d
  }

  lemma SplitProduct(q: int, v: int, v1: int, v0: int, W: int)
    requires v == v1 * W + v0
    ensures q * v == (q * v1) * W + q * v0
  {
    MulAssociative(q, v1, W);
    MulDistributes(v1 * W, v0, q);
  }

  lemma FirstEstimate(u: nat, d: nat, v: nat, v1: nat, v0: nat, W: nat)
    requires v == v1 * W + v0 && v0 < W && d < W && 2 * v1 >= W && u < v
    ensures Overestimate(u / v1, u % v1, u, d, v, v1, W) && 0 <= u / v1 <= W + 1 && 0 <= u % v1 < v1
  {
    var q := u / v1;
    DivModDefinition(u, v1);
    MulDistributes(q, 1, v1);
    SplitProduct(q + 1, v, v1, v0, W);
    if q < 0 { MulLe(q, -1, v1); }
    MulLe(0, q + 1, v0);
    MulLe(u + 1, (q + 1) * v1, W);
    MulDistributes(u, 1, W);
    if q >= W + 2 {
      MulLe(W + 2, q, v1);
      MulDistributes(W, 2, v1);
    }
  }

  /** The test of the correction loop detects exactly the digits that are too big. */
  lemma TooBigIff(q: nat, r: nat, u: nat, d: nat, v: nat, v1: nat, v0: nat, W: nat)
    requires v == v1 * W + v0 && q * v1 + r == u
    ensures q * v0 > r * W + d <==> q * v > u * W + d
  {
    SplitProduct(q, v, v1, v0, W);
    MulDistributes(q * v1, r, W);
  }

  /** A digit that is not too big and not too small is the digit. */
  lemma DigitFound(q: nat, r: nat, u: nat, d: nat, v: nat, v1: nat, v0: nat, W: nat)
    requires v == v1 * W + v0 && v > 0 && Overestimate(q, r, u, d, v, v1, W) && q * v <= u * W + d
    ensures q == (u * W + d) / v && r * W + d - q * v0 == (u * W + d) % v
  {
    SplitProduct(q, v, v1, v0, W);
    MulDistributes(q * v1, r, W);
    MulDistributes(q, 1, v);
    DivModUnique(u * W + d, v, q, u * W + d - q * v);
  }

  /** Once r has outgrown the base the digit is right. */
  lemma LargeRemainderFits(q: nat, r: nat, u: nat, d: nat, v: nat, v1: nat, v0: nat, W: nat)
    requires v == v1 * W + v0 && v0 < W && q * v1 + r == u && q <= W && r >= W
    ensures q * v <= u * W + d
  {
    TooBigIff(q, r, u, d, v, v1, v0, W);
    MulLe(q, W, v0);
    MulLe(v0, r, W);
  }

  lemma WrapSubtraction(x: int, d: int, y: int)
    requires 0 <= x + d - y < TWO_64
    ensures Wrap64(Wrap64(x) + d - Wrap64(y)) == x + d - y
  {
    var i, j := x / TWO_64, y / TWO_64;
    assert Wrap64(x) + d - Wrap64(y) == (j - i) * TWO_64 + (x + d - y);
    DivModUnique(Wrap64(x) + d - Wrap64(y), TWO_64, j - i, x + d - y);
  }

  lemma QuotientBelow(u: nat, d: nat, v: nat)
    requires u < v && d < TWO_32
    ensures 0 <= (u * TWO_32 + d) / v < TWO_32 && 0 <= (u * TWO_32 + d) % v < v
  {
    var q := (u * TWO_32 + d) / v;
    DivModDefinition(u * TWO_32 + d, v);
    if q >= TWO_32 { MulLe(TWO_32, q, v); }
    if q < 0 { MulLe(q, -1, v); }
  }

  lemma OutOfRangeIsTooBig(q: nat, u: nat, d: nat, v: nat)
    requires q >= TWO_32 && u < v && d < TWO_32
    ensures q * v > u * TWO_32 + d
  {
    MulLe(TWO_32, q, v);
  }

  /** The loop guard, wrapping products included, asks whether q is too big. */
  lemma CorrectionTest(q: u64, r: nat, u: nat, d: nat, v: nat, v1: nat, v0: nat)
    requires v == v1 * TWO_32 + v0 && v0 < TWO_32 && q * v1 + r == u && r < TWO_32 && u < v && d < TWO_32
    ensures q >= TWO_32 || Wrap64(q * v0) > Wrap64(r * TWO_32) + d <==> q * v > u * TWO_32 + d
    ensures q * v > u * TWO_32 + d ==> q > 0
  {
    if q >= TWO_32 {
      OutOfRangeIsTooBig(q, u, d, v);
    } else {
      HalfProductBound(q, v0);
      WrapSmall(q * v0);
      WrapSmall(r * TWO_32);
      TooBigIff(q, r, u, d, v, v1, v0, TWO_32);
    }
  }

  /** One 32-bit quotient digit: estimate from the high half, then correct downwards. */
  method QuotientDigit(u: u64, d: u32, v: u64) returns (q: u64, rem: u64)
    requires v >= TWO_63 && u < v
    ensures q == (u * TWO_32 + d) / v && rem == (u * TWO_32 + d) % v && q < TWO_32 && rem < v
  {
    var v1, v0 := v / TWO_32, v % TWO_32;
    FirstEstimate(u, d, v, v1, v0, TWO_32);
    QuotientBelow(u, d, v);
    q := u / v1;
    var r: u64 := u % v1;
    while q >= TWO_32 || Wrap64(q * v0) > Wrap64(r * TWO_32) + d
      invariant Overestimate(q, r, u, d, v, v1, TWO_32) && q <= TWO_32 + 1 && r < TWO_32
      decreases q
    {
      CorrectionTest(q, r, u, d, v, v1, v0);
      MulDistributes(q - 1, 1, v1);
      q := q - 1;
      r := r + v1;
      if r >= TWO_32 {
        LargeRemainderFits(q, r, u, d, v, v1, v0, TWO_32);
        break;
      }
    }
    if r < TWO_32 { CorrectionTest(q, r, u, d, v, v1, v0); }
    DigitFound(q, r, u, d, v, v1, v0, TWO_32);
    WrapSubtraction(r * TWO_32, d, q * v0);
    rem := Wrap64(Wrap64(r * TWO_32) + d - Wrap64(q * v0));
  }

  /** div128_by_64: exact for a normalised divisor and a high word below it. */
  method Div128By64(u1: u64, u0: u64, v: u64) returns (q: u64, r: u64)
    requires v >= TWO_63 && u1 < v
    ensures u1 * BASE + u0 == q * v + r && r < v
  {
    var q1, rem := QuotientDigit(u1, u0 / TWO_32, v);
    var q0, r0 := QuotientDigit(rem, u0 % TWO_32, v);
    TwoDigits(u1, u0 / TWO_32, u0 % TWO_32, v, q1, rem, q0, r0);
    q := q1 * TWO_32 + q0;
    r := r0;
  }

  lemma TwoDigits(u: nat, d1: nat, d0: nat, v: nat, q1: nat, rem: nat, q0: nat, r: nat)
    requires v > 0 && q1 == (u * TWO_32 + d1) / v && rem == (u * TWO_32 + d1) % v
    requires q0 == (rem * TWO_32 + d0) / v && r == (rem * TWO_32 + d0) % v
    ensures u * (TWO_32 * TWO_32) + d1 * TWO_32 + d0 == (q1 * TWO_32 + q0) * v + r
  {
    DivModDefinition(u * TWO_32 + d1, v);
    DivModDefinition(rem * TWO_32 + d0, v);
    MulDistributes(q1 * TWO_32, q0, v);
    assert (q1 * TWO_32) * v == (q1 * v) * TWO_32;
  }
}
