/** Little-endian sequences of 64-bit limbs and the number they stand for. */
module Limbs {
  import opened Words
  import opened Arithmetic

  const BASE: int := TWO_64

  /** sum of s[i] * 2^(64 i) */
  function Val(s: seq<u64>): nat {
    if s == [] then 0 else Val(s[..|s| - 1]) + s[|s| - 1] * Pow(BASE, |s| - 1)
  }

  ghost predicate AllZero(s: seq<u64>) {
    forall i :: 0 <= i < |s| ==> s[i] == 0
  }

  lemma ValPrefix(s: seq<u64>, k: nat)
    requires k < |s|
    ensures Val(s[..k + 1]) == Val(s[..k]) + s[k] * Pow(BASE, k)
  {
    assert s[..k + 1][..k] == s[..k];
  }

  lemma {:induction false} ValZero(s: seq<u64>)
    requires AllZero(s)
    ensures Val(s) == 0
  {
    if s != [] { ValZero(s[..|s| - 1]); }
  }

  lemma {:induction false} ValBound(s: seq<u64>)
    ensures Val(s) < Pow(BASE, |s|)
  {
    if s != [] {
      var p, top: int := Pow(BASE, |s| - 1), s[|s| - 1];
      ValBound(s[..|s| - 1]);
      MulLe(top + 1, BASE, p);
      MulDistributes(top, 1, p);
    }
  }

  /** Writing one limb changes the number by the difference at its place. */
  lemma {:induction false} ValUpdate(s: seq<u64>, i: nat, x: u64)
    requires i < |s|
    ensures Val(s[i := x]) == Val(s) + (x - s[i]) * Pow(BASE, i)
  {
    var n := |s| - 1;
    if i == n {
      assert s[i := x][..n] == s[..n];
      assert (x - s[i]) * Pow(BASE, i) == x * Pow(BASE, i) - s[i] * Pow(BASE, i);
    } else {
      assert s[i := x][..n] == s[..n][i := x];
      ValUpdate(s[..n], i, x);
    }
  }

  /** Zero limbs at the top do not count. */
  lemma {:induction false} ValTopZeros(s: seq<u64>, k: nat)
    requires k <= |s| && forall i :: k <= i < |s| ==> s[i] == 0
    ensures Val(s) == Val(s[..k])
    decreases |s| - k
  {
    if k == |s| {
      assert s[..k] == s;
    } else {
      ValPrefix(s, k);
      ValTopZeros(s, k + 1);
    }
  }

  /** The limbs from position k on contribute a multiple of 2^(64 k). */
  lemma {:induction false} ValSuffix(s: seq<u64>, k: nat)
    returns (high: nat)
    requires k <= |s|
    ensures Val(s) == Val(s[..k]) + high * Pow(BASE, k)
    decreases |s| - k
  {
    if k == |s| {
      assert s[..k] == s;
      high := 0;
    } else {
      var h := ValSuffix(s, k + 1);
      ValPrefix(s, k);
      high := s[k] + h * BASE;
      assert Pow(BASE, k + 1) == BASE * Pow(BASE, k);
      MulAssociative(h, BASE, Pow(BASE, k));
      MulDistributes(s[k], h * BASE, Pow(BASE, k));
    }
  }

  lemma AppendLimb(s: seq<u64>, x: u64)
    ensures Val(s + [x]) == Val(s) + x * Pow(BASE, |s|)
  {
    assert (s + [x])[..|s|] == s;
  }

  lemma ThreeLimbs(a: u64, b: u64, c: u64)
    ensures Val([a]) == a && Val([a, b]) == a + b * BASE && Val([a, b, c]) == a + b * BASE + c * (BASE * BASE)
    ensures Pow(BASE, 1) == BASE && Pow(BASE, 2) == BASE * BASE && Pow(BASE, 3) == BASE * BASE * BASE
  {
    AppendLimb([], a);
    AppendLimb([a], b);
    AppendLimb([a, b], c);
    assert [] + [a] == [a] && [a] + [b] == [a, b] && [a, b] + [c] == [a, b, c];
    assert Pow(BASE, 1) == BASE * Pow(BASE, 0);
    assert Pow(BASE, 2) == BASE * Pow(BASE, 1);
    assert Pow(BASE, 3) == BASE * Pow(BASE, 2);
  }

  // ---- one limb product ----

  lemma ProductHalves(ah: nat, al: nat, bh: nat, bl: nat, W: nat)
    ensures (ah * W + al) * (bh * W + bl) == (ah * bh) * (W * W) + (ah * bl + al * bh) * W + al * bl
  {
    assert (ah * W + al) * (bh * W + bl) == (ah * W) * (bh * W) + (ah * W) * bl + al * (bh * W) + al * bl;
    assert (ah * W) * (bh * W) == (ah * bh) * (W * W) by {
      MulAssociative(ah, W, bh * W);
      MulAssociative(W, bh, W);
      MulAssociative(bh, W, W);
      MulAssociative(ah, bh, W * W);
      assert W * (bh * W) == bh * (W * W);
    }
    assert (ah * W) * bl == (ah * bl) * W;
    assert al * (bh * W) == (al * bh) * W;
  }

  lemma ProductBound(x: nat, y: nat, n: nat)
    requires x <= n && y <= n
    ensures 0 <= x * y <= n * n
  {
    MulLe(x, n, y);
    MulLe(y, n, n);
  }

  lemma HalfProductBound(x: nat, y: nat)
    requires x < TWO_32 && y < TWO_32
    ensures x * y <= (TWO_32 - 1) * (TWO_32 - 1)
    ensures 0 <= x * y < BASE
  {
    ProductBound(x, y, TWO_32 - 1);
  }

  /** The carries of the cross sum, as plain integers. */
  lemma CrossCarry(loLo: nat, hiLo: nat, loHi: nat, hiHi: nat)
    ensures var cross := loLo / TWO_32 + hiLo % TWO_32 + loHi % TWO_32;
            (hiHi + hiLo / TWO_32 + loHi / TWO_32 + cross / TWO_32) * BASE + (cross % TWO_32) * TWO_32 + loLo % TWO_32
            == hiHi * BASE + (hiLo + loHi) * TWO_32 + loLo
  {
    var cross := loLo / TWO_32 + hiLo % TWO_32 + loHi % TWO_32;
    assert cross == (cross / TWO_32) * TWO_32 + cross % TWO_32;
  }

  lemma ShiftHalf(x: nat)
    ensures Wrap64(x * TWO_32) == (x % TWO_32) * TWO_32
  {
    assert x * TWO_32 == (x / TWO_32) * BASE + (x % TWO_32) * TWO_32;
    DivModUnique(x * TWO_32, BASE, x / TWO_32, (x % TWO_32) * TWO_32);
  }

  /** mul64x64_portable: the full product from four 32-bit products. A disjunction of disjoint bit fields is a sum. */
  method MulPortable(a: u64, b: u64) returns (hi: u64, lo: u64)
    ensures hi * BASE + lo == a * b
  {
    var aLo, aHi, bLo, bHi := a % TWO_32, a / TWO_32, b % TWO_32, b / TWO_32;
    HalfProductBound(aLo, bLo);
    HalfProductBound(aHi, bLo);
    HalfProductBound(aLo, bHi);
    HalfProductBound(aHi, bHi);
    var loLo: u64, hiLo: u64, loHi: u64, hiHi: u64 := aLo * bLo, aHi * bLo, aLo * bHi, aHi * bHi;
    ProductHalves(aHi, aLo, bHi, bLo, TWO_32);
    var cross: u64 := loLo / TWO_32 + hiLo % TWO_32 + loHi % TWO_32;
    CrossCarry(loLo, hiLo, loHi, hiHi);
    ShiftHalf(cross);
    lo := Wrap64(cross * TWO_32) + loLo % TWO_32;
    hi := hiHi + hiLo / TWO_32 + loHi / TWO_32 + cross / TWO_32;
  }

  lemma MulAddBound(x: u64, y: u64, t: u64, c: u64)
    ensures 0 <= x * y + t + c < BASE * BASE
  {
    ProductBound(x, y, BASE - 1);
  }

  /** x * y + t + c with a 128-bit intermediate. */
  method MulAdd128(x: u64, y: u64, t: u64, c: u64) returns (lo: u64, hi: u64)
    ensures hi * BASE + lo == x * y + t + c
  {
    MulAddBound(x, y, t, c);
    var product := x * y + t + c;
    return product % BASE, product / BASE;
  }

  /** A wrapped sum is smaller than an addend exactly when it carried. */
  lemma CarryDetected(x: u64, y: u64)
    ensures Wrap64(x + y) == x + y - (if Wrap64(x + y) < x then BASE else 0)
    ensures Wrap64(x + y) == x + y - (if Wrap64(x + y) < y then BASE else 0)
  {
    if x + y < BASE { DivModUnique(x + y, BASE, 0, x + y); } else { DivModUnique(x + y, BASE, 1, x + y - BASE); }
  }

  /** The same from 64-bit arithmetic with carry detection. */
  method MulAddPortable(x: u64, y: u64, t: u64, c: u64) returns (lo: u64, hi: u64)
    ensures hi * BASE + lo == x * y + t + c
  {
    MulAddBound(x, y, t, c);
    ghost var total := x * y + t + c;
    var pHi, pLo := MulPortable(x, y);
    CarryDetected(pLo, t);
    var sum := Wrap64(pLo + t);
    var carryIn := if sum < pLo then 1 else 0;
    CarryDetected(sum, c);
    lo := Wrap64(sum + c);
    if c != 0 && lo < c { carryIn := carryIn + 1; }
    assert (pHi + carryIn) * BASE + lo == total;
    hi := pHi + carryIn;
  }

  /** One inner-loop step of bigint_mul, on either path. */
  method MulAdd(have128: bool, x: u64, y: u64, t: u64, c: u64) returns (lo: u64, hi: u64)
    ensures hi * BASE + lo == x * y + t + c
  {
    if have128 { lo, hi := MulAdd128(x, y, t, c); } else { lo, hi := MulAddPortable(x, y, t, c); }
  }
}
