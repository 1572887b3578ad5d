/** BigInt objects: normalisation, schoolbook multiplication with aliasing, exponentiation by squaring. */
module BigIntegers {
  import opened Words
  import opened Arithmetic
  import opened Limbs

  /** A sign and `len` limbs in use out of a fixed capacity (64 in the standard build, 4 in the tiny one). */
  class BigInt {
    const limbs: array<u64>
    var len: nat
    var negative: bool

    ghost predicate Valid()
      reads this, limbs
    {
      1 <= len <= limbs.Length
    }

    /** |value| */
    ghost function Magnitude(): nat
      requires Valid()
      reads this, limbs
    {
      Val(limbs[..len])
    }

    predicate IsZero()
      requires Valid()
      reads this, limbs
    {
      len == 1 && limbs[0] == 0
    }

    /** No leading zero limb, and zero is not negative. */
    ghost predicate Normal()
      requires Valid()
      reads this, limbs
    {
      && (len > 1 ==> limbs[len - 1] != 0)
      && (IsZero() ==> !negative)
    }

    constructor (capacity: nat)
      requires capacity >= 1
      ensures Valid() && fresh(limbs) && limbs.Length == capacity
      ensures AllZero(limbs[..]) && len == 1 && !negative
    {
      limbs := new u64[capacity](_ => 0);
      len := 1;
      negative := false;
    }

    /** bigint_normalize */
    method Normalize()
      requires Valid()
      modifies this`len, this`negative
      ensures Valid() && Normal()
      ensures Magnitude() == old(Magnitude())
      ensures negative == (old(negative) && Magnitude() != 0)
    {
      var i := len;
      while i > 1 && limbs[i - 1] == 0
        invariant Valid() && len == old(len) && negative == old(negative) && 1 <= i <= len
        invariant Val(limbs[..i]) == old(Magnitude())
      {
        ValPrefix(limbs[..len], i - 1);
        assert limbs[..len][..i] == limbs[..i] && limbs[..len][..i - 1] == limbs[..i - 1];
        i := i - 1;
      }
      len := i;
      ZeroIff(limbs[..i]);
      if i == 1 && limbs[0] == 0 {
        negative := false;
      }
    }

    /** bigint_from_u64; bigint_zero is the case val = 0. */
    method SetWord(val: u64)
      requires Valid()
      modifies this, limbs
      ensures Valid() && Normal() && Magnitude() == val && !negative
    {
      limbs[0] := val;
      len := 1;
      negative := false;
      SingleLimb(limbs[..1]);
    }

    /** `*result = *a` */
    method CopyFrom(a: BigInt)
      requires Valid() && a.Valid() && limbs.Length == a.limbs.Length
      requires a != this ==> a.limbs != limbs
      modifies this, limbs
      ensures Valid() && len == old(a.len) && negative == old(a.negative) && limbs[..] == old(a.limbs[..])
      ensures Magnitude() == old(a.Magnitude()) && (old(a.Normal()) ==> Normal())
    {
      forall i | 0 <= i < limbs.Length {
        limbs[i] := a.limbs[i];
      }
      len, negative := a.len, a.negative;
      assert limbs[..] == old(a.limbs[..]);
      assert limbs[..len] == limbs[..][..len];
    }
  }

  lemma SingleLimb(s: seq<u64>)
    requires |s| == 1
    ensures Val(s) == s[0]
  {
    assert Val(s[..0]) == 0;
  }

  /** A normalised number is zero only as the single limb 0. */
  lemma ZeroIff(s: seq<u64>)
    requires |s| >= 1 && (|s| == 1 || s[|s| - 1] != 0)
    ensures Val(s) == 0 <==> |s| == 1 && s[0] == 0
  {
    if |s| == 1 {
      SingleLimb(s);
    } else {
      var p := Pow(BASE, |s| - 1);
      MulLe(1, s[|s| - 1], p);
    }
  }

  // ---- multiplication ----

  /** Storing lo and carrying hi adds the limb product at its place. */
  lemma InnerStep(t: seq<u64>, k: nat, lo: u64, hi: u64, carry: u64, product: nat)
    requires k < |t| && hi * BASE + lo == product + t[k] + carry
    ensures Val(t[k := lo]) + hi * Pow(BASE, k + 1) == Val(t) + (product + carry) * Pow(BASE, k)
  {
    var p := Pow(BASE, k);
    ValUpdate(t, k, lo);
    MulAssociative(hi, BASE, p);
    MulDistributes(lo - t[k], hi * BASE, p);
    assert Pow(BASE, k + 1) == BASE * p;
  }

  lemma ProductExpands(x: nat, w: nat, v: nat, d: nat, p: nat, q: nat, pq: nat)
    requires w == v + d * q && pq == p * q
    ensures x * w * p == x * v * p + (x * d) * pq
  {
    MulAssociative(x, d, q);
    assert x * w == x * v + (x * d) * q;
    MulDistributes(x * v, (x * d) * q, p);
    MulAssociative(x * d, q, p);
    assert q * p == p * q;
  }

  /** Advancing j by one: the partial product grows by one limb. */
  lemma PartialProduct(x: nat, b: seq<u64>, i: nat, j: nat)
    requires j < |b|
    ensures x * Val(b[..j]) * Pow(BASE, i) + (x * b[j]) * Pow(BASE, i + j) == x * Val(b[..j + 1]) * Pow(BASE, i)
  {
    ValPrefix(b, j);
    PowAdd(BASE, i, j);
    ProductExpands(x, Val(b[..j + 1]), Val(b[..j]), b[j], Pow(BASE, i), Pow(BASE, j), Pow(BASE, i + j));
  }

  /** The invariant of the inner loop. */
  ghost predicate RowSoFar(t: seq<u64>, before: int, carry: u64, x: nat, b: seq<u64>, i: nat, j: nat)
    requires j <= |b|
  {
    Val(t) + carry * Pow(BASE, i + j) == before + x * Val(b[..j]) * Pow(BASE, i)
  }

  lemma RowStep(t: seq<u64>, before: int, carry: u64, x: nat, b: seq<u64>, i: nat, j: nat, lo: u64, hi: u64)
    requires j < |b| && i + j < |t| && RowSoFar(t, before, carry, x, b, i, j)
    requires hi * BASE + lo == x * b[j] + t[i + j] + carry
    ensures RowSoFar(t[i + j := lo], before, hi, x, b, i, j + 1)
  {
    InnerStep(t, i + j, lo, hi, carry, x * b[j]);
    PartialProduct(x, b, i, j);
    MulDistributes(x * b[j], carry, Pow(BASE, i + j));
    assert i + j + 1 == i + (j + 1);
  }

  /** A row that ran out of capacity is right modulo the capacity. */
  lemma RowTruncated(t: seq<u64>, before: int, carry: u64, x: nat, b: seq<u64>, i: nat, j: nat)
    requires j <= |b| && i + j == |t| && RowSoFar(t, before, carry, x, b, i, j)
    ensures Congruent(Val(t), before + x * Val(b) * Pow(BASE, i), Pow(BASE, |t|))
  {
    var high := ValSuffix(b, j);
    PowAdd(BASE, i, j);
    ProductExpands(x, Val(b), Val(b[..j]), high, Pow(BASE, i), Pow(BASE, j), Pow(BASE, |t|));
    RowModulo(Val(t), before, x * Val(b[..j]) * Pow(BASE, i), x * Val(b) * Pow(BASE, i), x * high, carry,
              Pow(BASE, |t|));
  }

  lemma RowModulo(t: int, before: int, part: int, whole: int, high: int, carry: int, m: int)
    requires m > 0 && t + carry * m == before + part && whole == part + high * m
    ensures Congruent(t, before + whole, m)
  {
    MulDistributes(high, carry, m);
    CongruentFrom(before + whole, t, m, high + carry);
  }

  /** A complete row, with its carry stored in the next limb. */
  lemma RowComplete(t: seq<u64>, before: int, carry: u64, x: nat, b: seq<u64>, i: nat, k: nat)
    requires k == i + |b| && k < |t| && t[k] == 0 && RowSoFar(t, before, carry, x, b, i, |b|)
    ensures Val(t[k := carry]) == before + x * Val(b) * Pow(BASE, i)
  {
    ZeroLimbSet(t, k, carry);
    assert b[..|b|] == b;
  }

  lemma ZeroLimbSet(t: seq<u64>, k: nat, x: u64)
    requires k < |t| && t[k] == 0
    ensures Val(t[k := x]) == Val(t) + x * Pow(BASE, k)
  {
    ValUpdate(t, k, x);
  }

  lemma MulSwap(a: int, b: int, c: int)
    ensures (a * b) * c == a * c * b
  {
    MulAssociative(a, b, c);
    MulAssociative(a, c, b);
    assert b * c == c * b;
  }

  lemma RowsAdd(a: seq<u64>, b: seq<u64>, i: nat, total: int, m: nat, before: int)
    requires i < |a| && m > 0
    requires Congruent(before, Val(a[..i]) * Val(b), m)
    requires Congruent(total, before + a[i] * Val(b) * Pow(BASE, i), m)
    ensures Congruent(total, Val(a[..i + 1]) * Val(b), m)
  {
    ValPrefix(a, i);
    var v, p := Val(b), Pow(BASE, i);
    MulSwap(a[i], p, v);
    MulDistributes(Val(a[..i]), a[i] * p, v);
    CongruentAdd(before, Val(a[..i]) * v, a[i] * v * p, a[i] * v * p, m);
  }

  /** One row of the schoolbook product: target += x * b * 2^(64 i), within the capacity. */
  method AddRow(have128: bool, target: array<u64>, x: u64, b: BigInt, i: nat)
    requires b.Valid() && b.limbs != target && i < target.Length
    requires forall k :: i + b.len <= k < target.Length ==> target[k] == 0
    modifies target
    ensures Congruent(Val(target[..]), old(Val(target[..])) + x * b.Magnitude() * Pow(BASE, i), Pow(BASE,
        target.Length))
    ensures forall k :: i + b.len + 1 <= k < target.Length ==> target[k] == 0
  {
    ghost var before, bs := Val(target[..]), b.limbs[..b.len];
    var carry: u64 := 0;
    var j := 0;
    assert Val(bs[..0]) == 0;
    while j < b.len && i + j < target.Length
      invariant 0 <= j <= b.len && i + j <= target.Length
      invariant RowSoFar(target[..], before, carry, x, bs, i, j)
      invariant forall k :: i + b.len <= k < target.Length ==> target[k] == 0
    {
      ghost var t := target[..];
      var lo, hi := MulAdd(have128, x, b.limbs[j], target[i + j], carry);
      RowStep(t, before, carry, x, bs, i, j, lo, hi);
      target[i + j] := lo;
      assert target[..] == t[i + j := lo];
      carry := hi;
      j := j + 1;
    }
    if j == b.len && i + b.len < target.Length {
      StoreCarry(target, x, bs, i, i + b.len, carry, before);
    } else {
      RowTruncated(target[..], before, carry, x, bs, i, j);
    }
  }

  /** The carry out of a complete row goes into the next limb, which is still 0. */
  method StoreCarry(target: array<u64>, ghost x: u64, ghost b: seq<u64>, ghost i: nat, k: nat, carry: u64,
                    ghost before: int)
    requires k == i + |b| && k < target.Length && target[k] == 0
    requires RowSoFar(target[..], before, carry, x, b, i, |b|)
    modifies target
    ensures Congruent(Val(target[..]), before + x * Val(b) * Pow(BASE, i), Pow(BASE, target.Length))
    ensures target[..] == old(target[..])[k := carry]
  {
    ghost var t := target[..];
    RowComplete(t, before, carry, x, b, i, k);
    if carry != 0 { target[k] := target[k] + carry; }
    assert target[..] == t[k := carry];
  }

  /** What bigint_mul leaves: |a| * |b| modulo 2^(64 * capacity), with the product's sign unless it is zero. */
  ghost predicate IsProduct(magnitude: nat, negative: bool, a: nat, aNegative: bool, b: nat, bNegative: bool, m: nat)
    requires m > 0
  {
    magnitude == (a * b) % m && negative == ((aNegative != bNegative) && magnitude != 0)
  }

  /** Distinct objects have distinct limb arrays. */
  ghost predicate Apart(a: BigInt, b: BigInt) {
    a != b ==> a.limbs != b.limbs
  }

  lemma MagnitudeBound(s: seq<u64>, n: nat)
    requires |s| <= n
    ensures Val(s) < Pow(BASE, n)
  {
    ValBound(s);
    PowMonotone(|s|, n);
  }

  lemma {:induction false} PowMonotone(k: nat, n: nat)
    requires k <= n
    ensures Pow(BASE, k) <= Pow(BASE, n)
    decreases n - k
  {
    if k < n {
      PowMonotone(k + 1, n);
      MulLe(1, BASE, Pow(BASE, k));
    }
  }

  lemma ProductOfZero(a: nat, b: nat, m: nat)
    requires m > 0 && (a == 0 || b == 0)
    ensures (a * b) % m == 0
  {
    DivModUnique(0, m, 0, 0);
  }

  /** bigint_mul, for every aliasing of the three arguments and on both multiplication paths. */
  method Mul(have128: bool, a: BigInt, b: BigInt, result: BigInt)
    requires a.Valid() && b.Valid() && result.Valid()
    requires a.limbs.Length == b.limbs.Length == result.limbs.Length
    requires Apart(a, b) && Apart(a, result) && Apart(b, result)
    modifies result, result.limbs
    ensures result.Valid() && result.Normal()
    ensures IsProduct(result.Magnitude(), result.negative, old(a.Magnitude()), old(a.negative),
                      old(b.Magnitude()), old(b.negative), Pow(BASE, result.limbs.Length))
  {
    var n := result.limbs.Length;
    if a.IsZero() || b.IsZero() {
      if a.IsZero() { SingleLimb(a.limbs[..1]); } else { SingleLimb(b.limbs[..1]); }
      ProductOfZero(a.Magnitude(), b.Magnitude(), Pow(BASE, n));
      result.SetWord(0);
      return;
    }
    var target := result;
    if result == a || result == b {
      target := new BigInt(n);
    } else {
      forall k | 0 <= k < n { result.limbs[k] := 0; }
    }
    MulInto(have128, a, b, target);
    target.Normalize();
    if target != result {
      result.CopyFrom(target);
    }
  }

  /** The outer loop: a row for every limb of a, within the capacity. */
  method AddRows(have128: bool, a: BigInt, b: BigInt, target: array<u64>)
    requires a.Valid() && b.Valid() && a.limbs.Length == b.limbs.Length == target.Length
    requires a.limbs != target && b.limbs != target && AllZero(target[..])
    modifies target
    ensures Congruent(Val(target[..]), a.Magnitude() * b.Magnitude(), Pow(BASE, target.Length))
    ensures forall k :: a.len + b.len <= k < target.Length ==> target[k] == 0
  {
    ghost var m, as', bs := Pow(BASE, target.Length), a.limbs[..a.len], b.limbs[..b.len];
    var i := 0;
    ValZero(target[..]);
    assert Val(as'[..0]) * Val(bs) == 0;
    while i < a.len && i < target.Length
      invariant 0 <= i <= a.len
      invariant Congruent(Val(target[..]), Val(as'[..i]) * Val(bs), m)
      invariant forall k :: i + b.len <= k < target.Length ==> target[k] == 0
    {
      ghost var before := Val(target[..]);
      AddRow(have128, target, a.limbs[i], b, i);
      RowsAdd(as', bs, i, Val(target[..]), m, before);
      i := i + 1;
    }
    assert as'[..a.len] == as';
  }

  /** The double loop, into a cleared target apart from both operands. */
  method MulInto(have128: bool, a: BigInt, b: BigInt, target: BigInt)
    requires a.Valid() && b.Valid() && target.Valid()
    requires a.limbs.Length == b.limbs.Length == target.limbs.Length
    requires a.limbs != target.limbs && b.limbs != target.limbs && a != target && b != target
    requires AllZero(target.limbs[..])
    modifies target, target.limbs
    ensures target.Valid()
    ensures target.Magnitude() == (a.Magnitude() * b.Magnitude()) % Pow(BASE, target.limbs.Length)
    ensures target.negative == (a.negative != b.negative)
  {
    var n := target.limbs.Length;
    var maxLen := if a.len + b.len > n then n else a.len + b.len;
    AddRows(have128, a, b, target.limbs);
    target.len := maxLen;
    target.negative := a.negative != b.negative;
    ValTopZeros(target.limbs[..], maxLen);
    assert target.limbs[..][..maxLen] == target.limbs[..maxLen];
    MagnitudeBound(target.limbs[..maxLen], n);
    DivModUnique(target.Magnitude(), Pow(BASE, n), 0, target.Magnitude());
  }

  // ---- exponentiation ----

  /** The sign bigint_pow leaves: that of a for an odd exponent, none otherwise, and none for zero. */
  ghost predicate PowerSign(magnitude: nat, negative: bool, odd: bool, aNegative: bool) {
    && (negative ==> aNegative && odd)
    && (magnitude != 0 ==> (negative <==> aNegative && odd))
  }

  /** The signs in the loop: before the first round, and after. */
  ghost predicate LoopSigns(first: bool, r: nat, rNegative: bool, bNegative: bool, odd: bool, sign: bool) {
    if first then !rNegative && bNegative == sign else !bNegative && PowerSign(r, rNegative, odd, sign)
  }

  lemma SignsAfterRound(first: bool, bit: bool, odd: bool, sign: bool, r: nat, rNegative: bool, b: nat, bNegative: bool,
                        r': nat, rNegative': bool, m: nat)
    requires m > 0 && LoopSigns(first, r, rNegative, bNegative, odd, sign) && (first ==> bit == odd)
    requires if bit then IsProduct(r', rNegative', r, rNegative, b, bNegative, m)
             else r' == r && rNegative' == rNegative
    ensures LoopSigns(false, r', rNegative', false, odd, sign)
  {
    if r == 0 { ProductOfZero(r, b, m); }
  }

  lemma ProductBelow(a: int, b: int, m: int)
    requires m > 0
    ensures 0 <= (a * b) % m < m
  {}

  /** One round: multiply the result in on a set bit, then square the base (aliased to itself). */
  method PowerRound(have128: bool, base: BigInt, result: BigInt, exp: u64, ghost first: bool, ghost odd: bool,
                    ghost sign: bool)
    requires base.Valid() && result.Valid() && base.limbs.Length == result.limbs.Length
    requires base != result && base.limbs != result.limbs && exp > 0
    requires LoopSigns(first, result.Magnitude(), result.negative, base.negative, odd, sign)
    requires first ==> (exp % 2 == 1) == odd
    modifies base, base.limbs, result, result.limbs
    ensures base.Valid() && result.Valid()
    ensures Congruent(result.Magnitude() * Pow(base.Magnitude(), exp / 2),
                      old(result.Magnitude() * Pow(base.Magnitude(), exp)), Pow(BASE, result.limbs.Length))
    ensures old(result.Magnitude()) < Pow(BASE, result.limbs.Length) ==>
        result.Magnitude() < Pow(BASE, result.limbs.Length)
    ensures LoopSigns(false, result.Magnitude(), result.negative, base.negative, odd, sign)
  {
    ghost var m := Pow(BASE, result.limbs.Length);
    ghost var r, rNegative, b, bNegative := result.Magnitude(), result.negative, base.Magnitude(), base.negative;
    SquareAndMultiply(r, b, exp, m);
    ProductBelow(r, b, m);
    if exp % 2 == 1 {
      Mul(have128, result, base, result);
    }
    SignsAfterRound(first, exp % 2 == 1, odd, sign, r, rNegative, b, bNegative, result.Magnitude(), result.negative, m);
    Mul(have128, base, base, base);
  }

  method PowerLoop(have128: bool, base: BigInt, exp0: u64, result: BigInt)
    requires base.Valid() && result.Valid() && base.limbs.Length == result.limbs.Length
    requires base != result && base.limbs != result.limbs
    requires result.Magnitude() == 1 < Pow(BASE, result.limbs.Length) && !result.negative
    modifies base, base.limbs, result, result.limbs
    ensures result.Valid()
    ensures result.Magnitude() == Pow(old(base.Magnitude()), exp0) % Pow(BASE, result.limbs.Length)
    ensures exp0 > 0 ==> PowerSign(result.Magnitude(), result.negative, exp0 % 2 == 1, old(base.negative))
  {
    ghost var m, power, sign := Pow(BASE, result.limbs.Length), Pow(base.Magnitude(), exp0), base.negative;
    var exp := exp0;
    CongruentFrom(1 * power, power, m, 0);
    while exp > 0
      invariant result.Valid() && base.Valid()
      invariant result.Magnitude() < m
      invariant Congruent(result.Magnitude() * Pow(base.Magnitude(), exp), power, m)
      invariant LoopSigns(exp == exp0, result.Magnitude(), result.negative, base.negative, exp0 % 2 == 1, sign)
    {
      PowerRound(have128, base, result, exp, exp == exp0, exp0 % 2 == 1, sign);
      exp := exp / 2;
    }
    DivModUnique(result.Magnitude(), m, 0, result.Magnitude());
  }

  /** bigint_pow: |a|^exp modulo 2^(64 * capacity), negative only for a negative base and an odd exponent. */
  method Power(have128: bool, a: BigInt, exp: u64, result: BigInt)
    requires a.Valid() && result.Valid() && a.limbs.Length == result.limbs.Length && Apart(a, result)
    modifies result, result.limbs
    ensures result.Valid()
    ensures result.Magnitude() == Pow(old(a.Magnitude()), exp) % Pow(BASE, result.limbs.Length)
    ensures PowerSign(result.Magnitude(), result.negative, exp % 2 == 1, old(a.negative))
  {
    PowerSmall(a.limbs[..a.len], result.limbs.Length);
    if exp == 0 {
      result.SetWord(1);
      return;
    }
    if exp == 1 {
      result.CopyFrom(a);
      return;
    }
    var base := new BigInt(a.limbs.Length);
    base.CopyFrom(a);
    result.SetWord(1);
    PowerLoop(have128, base, exp, result);
  }

  /** The exponents 0 and 1, which need no reduction. */
  lemma PowerSmall(s: seq<u64>, n: nat)
    requires |s| <= n && n >= 1
    ensures 1 < Pow(BASE, n)
    ensures Pow(Val(s), 0) % Pow(BASE, n) == 1
    ensures Pow(Val(s), 1) % Pow(BASE, n) == Val(s)
  {
    MagnitudeBound(s, n);
    MulLe(1, Pow(BASE, n - 1), BASE);
    DivModUnique(1, Pow(BASE, n), 0, 1);
    assert Pow(Val(s), 1) == Val(s) * Pow(Val(s), 0);
    DivModUnique(Val(s), Pow(BASE, n), 0, Val(s));
  }
}
