/** One quotient digit of bigint_div_mod: estimate, multiply-subtract, add-back. */
module LongDivision {
  import opened Words
  import opened Arithmetic
  import opened Limbs
  import opened WideDivision

  // ---- estimating the digit from three limbs by two ----

  /** What the corrected estimate is: the quotient of the top three limbs by the top two. */
  ghost predicate ThreeByTwo(q: nat, u0: nat, u1: nat, u2: nat, v1: nat, v2: nat) {
    q * (v1 * BASE + v2) <= (u0 * BASE + u1) * BASE + u2 < (q + 1) * (v1 * BASE + v2)
  }

  /** Whether q * v2 exceeds rem * 2^64 + u2, from a 128-bit product or from its two halves. */
  method ProductTooBig(have128: bool, q: u64, v2: u64, rem: u64, u2: u64) returns (big: bool)
    ensures big <==> q * v2 > rem * BASE + u2
  {
    if have128 {
      big := q * v2 > rem * BASE + u2;
    } else {
      var hi, lo := MulPortable(q, v2);
      big := hi > rem || (hi == rem && lo > u2);
    }
  }

  lemma TopQuotientFits(u0: u64, u1: u64, v1: u64)
    requires 0 < v1 && u0 < v1
    ensures 0 <= (u0 * BASE + u1) / v1 < BASE && 0 <= (u0 * BASE + u1) % v1 < v1
  {
    var u := u0 * BASE + u1;
    DivModDefinition(u, v1);
    if u / v1 >= BASE { MulLe(BASE, u / v1, v1); }
    if u / v1 < 0 { MulLe(u / v1, -1, v1); }
  }

  method TopQuotient(have128: bool, u0: u64, u1: u64, v1: u64) returns (q: u64, rem: u64)
    requires v1 >= TWO_63 && u0 < v1
    ensures q == (u0 * BASE + u1) / v1 && rem == (u0 * BASE + u1) % v1 && rem < v1
  {
    TopQuotientFits(u0, u1, v1);
    if have128 {
      q, rem := (u0 * BASE + u1) / v1, (u0 * BASE + u1) % v1;
    } else {
      q, rem := Div128By64(u0, u1, v1);
      DivModUnique(u0 * BASE + u1, v1, q, rem);
    }
  }

  lemma EstimateFound(q: nat, r: nat, u0: nat, u1: nat, u2: nat, v1: nat, v2: nat)
    requires v1 > 0
    requires Overestimate(q, r, u0 * BASE + u1, u2, v1 * BASE + v2, v1, BASE)
    requires q * (v1 * BASE + v2) <= (u0 * BASE + u1) * BASE + u2
    ensures ThreeByTwo(q, u0, u1, u2, v1, v2)
  {}

  lemma PositiveFactor(q: nat, x: nat)
    requires q * x > 0
    ensures q > 0
  {}

  lemma Decrement(q: nat, r: nat, u: nat, d: nat, v: nat, v1: nat, v0: nat, k: nat)
    requires Overestimate(q, r, u, d, v, v1, BASE) && q * v > u * BASE + d && q * v0 > 0 && r >= k * v1
    ensures q > 0 && Overestimate(q - 1, r + v1, u, d, v, v1, BASE) && r + v1 >= (k + 1) * v1
  {
    PositiveFactor(q, v0);
    MulDistributes(q - 1, 1, v1);
    MulDistributes(k, 1, v1);
  }

  /** The estimate and its correction loop (at most two of the three rounds do anything). */
  method EstimateDigit(have128: bool, u0: u64, u1: u64, u2: u64, v1: u64, v2: u64) returns (q: u64)
    requires v1 >= TWO_63 && u0 < v1
    ensures ThreeByTwo(q, u0, u1, u2, v1, v2)
  {
    ghost var u, v := u0 * BASE + u1, v1 * BASE + v2;
    var rem: u64;
    q, rem := TopQuotient(have128, u0, u1, v1);
    FirstEstimate(u, u2, v, v1, v2, BASE);
    for k := 0 to 3
      invariant Overestimate(q, rem, u, u2, v, v1, BASE) && rem >= k * v1
    {
      var big := ProductTooBig(have128, q, v2, rem, u2);
      TooBigIff(q, rem, u, u2, v, v1, v2, BASE);
      if !big { break; }
      Decrement(q, rem, u, u2, v, v1, v2, k);
      ghost var exact := rem + v1;
      q := q - 1;
      rem := Wrap64(rem + v1);
      if rem < v1 {
        LargeRemainderFits(q, exact, u, u2, v, v1, v2, BASE);
        EstimateFound(q, exact, u0, u1, u2, v1, v2);
        return;
      }
    }
    TooBigIff(q, rem, u, u2, v, v1, v2, BASE);
    EstimateFound(q, rem, u0, u1, u2, v1, v2);
  }

  // ---- how good the estimate is ----

  lemma EstimateNotBelow(q: nat, est: nat, low: nat, top: nat, lowV: nat, topV: nat, p: nat)
    requires low < p && est * topV <= top < (est + 1) * topV
    requires q * (topV * p + lowV) <= top * p + low
    ensures q <= est
  {
    if q > est {
      MulLe(est + 1, q, topV);
      MulLe(top + 1, q * topV, p);
      MulDistributes(top, 1, p);
      MulAssociative(q, topV, p);
      MulDistributes(topV * p, lowV, q);
      MulLe(0, lowV, q);
    }
  }

  /** (est - 1) * V fits, so the estimate is at most one too big. */
  lemma EstimateAtMostOneAbove(q: nat, est: nat, low: nat, top: nat, lowV: nat, topV: nat, p: nat)
    requires lowV < p && est * topV <= top && est <= topV
    requires top * p + low < (q + 1) * (topV * p + lowV)
    ensures est <= q + 1
  {
    var V := topV * p + lowV;
    MulDistributes(est, -1, V);
    MulDistributes(topV * p, lowV, est);
    MulAssociative(est, topV, p);
    MulLe(est * topV, top, p);
    MulLe(lowV, p, est);
    MulLe(est, topV, p);
    assert (est - 1) * V <= top * p;
    if est > q + 1 { MulLe(q + 1, est - 1, V); }
  }

  /** The limbs above the lowest n - 2. */
  lemma SplitTop(s: seq<u64>, k: nat)
    requires |s| == k + 2
    ensures Val(s) == Val(s[..k]) + (s[k + 1] * BASE + s[k]) * Pow(BASE, k)
  {
    assert s[..k + 2] == s;
    ValPrefix(s, k);
    ValPrefix(s, k + 1);
    var p := Pow(BASE, k);
    assert Pow(BASE, k + 1) == BASE * p;
    MulAssociative(s[k + 1], BASE, p);
    MulDistributes(s[k + 1] * BASE, s[k], p);
  }

  lemma SplitTopThree(s: seq<u64>, k: nat)
    requires |s| == k + 3
    ensures Val(s) == Val(s[..k]) + ((s[k + 2] * BASE + s[k + 1]) * BASE + s[k]) * Pow(BASE, k)
  {
    ValPrefix(s, k);
    SplitTop(s, k + 1);
    var p, t := Pow(BASE, k), s[k + 2] * BASE + s[k + 1];
    assert Pow(BASE, k + 1) == BASE * p;
    MulAssociative(t, BASE, p);
    MulDistributes(t * BASE, s[k], p);
  }

  lemma EstimateBoundsNumeric(U: nat, V: nat, est: nat, low: nat, top: nat, lowV: nat, topV: nat, p: nat)
    requires U == low + top * p && V == lowV + topV * p && low < p && lowV < p
    requires est * topV <= top < (est + 1) * topV && 0 < topV && est <= topV
    ensures V > 0 && U / V <= est <= U / V + 1
  {
    MulLe(1, topV, p);
    DivModDefinition(U, V);
    var q := U / V;
    MulDistributes(q, 1, V);
    if q < 0 { MulLe(q, -1, V); }
    EstimateNotBelow(q, est, low, top, lowV, topV, p);
    EstimateAtMostOneAbove(q, est, low, top, lowV, topV, p);
  }

  /** With a normalised divisor of at least two limbs, the corrected estimate is the true digit or one more. */
  lemma EstimateBounds(u: seq<u64>, v: seq<u64>, est: u64)
    requires |v| >= 2 && |u| == |v| + 1 && v[|v| - 1] >= TWO_63
    requires ThreeByTwo(est, u[|v|], u[|v| - 1], u[|v| - 2], v[|v| - 1], v[|v| - 2])
    ensures Val(v) > 0 && Val(u) / Val(v) <= est <= Val(u) / Val(v) + 1
  {
    var k := |v| - 2;
    SplitTop(v, k);
    SplitTopThree(u, k);
    ValBound(u[..k]);
    ValBound(v[..k]);
    EstimateBoundsNumeric(Val(u), Val(v), est, Val(u[..k]), (u[k + 2] * BASE + u[k + 1]) * BASE + u[k],
                          Val(v[..k]), v[k + 1] * BASE + v[k], Pow(BASE, k));
  }

  // ---- multiply and subtract ----

  /** q * x + borrow as two words, on either path. */
  method MulBorrow(have128: bool, q: u64, x: u64, borrow: u64) returns (lo: u64, hi: u64)
    ensures hi * BASE + lo == q * x + borrow
  {
    MulAddBound(q, x, 0, borrow);
    if have128 {
      var product := q * x + borrow;
      lo, hi := product % BASE, product / BASE;
    } else {
      ghost var total := q * x + borrow;
      var pHi, pLo := MulPortable(q, x);
      CarryDetected(pLo, borrow);
      lo := Wrap64(pLo + borrow);
      var next := if lo < pLo then pHi + 1 else pHi;
      assert next * BASE + lo == total;
      hi := next;
    }
  }

  lemma SubtractStep(before: int, after: int, vs: int, q: int, borrow: int, borrow': int,
                     x: int, y: int, vi: int, p: int)
    requires after + q * vs == before + borrow * p
    requires y + q * vi == x + borrow' * BASE - borrow
    ensures (after + y * p) + q * (vs + vi * p) == (before + x * p) + borrow' * (BASE * p)
  {
    MulDistributes(vs, vi * p, q);
    MulAssociative(q, vi, p);
    MulDistributes(y, q * vi, p);
    MulDistributes(x - borrow, borrow' * BASE, p);
    MulDistributes(x, -borrow, p);
    MulAssociative(borrow', BASE, p);
  }

  lemma BorrowFits(q: u64, x: u64, borrow: u64, lo: u64, hi: u64)
    requires hi * BASE + lo == q * x + borrow
    ensures lo > 0 ==> hi < BASE - 1
  {
    ProductBound(q, x, BASE - 1);
  }

  /** One limb of the subtraction. */
  method SubtractLimb(have128: bool, q: u64, x: u64, uv: u64, borrow: u64) returns (y: u64, next: u64)
    ensures y + q * x == uv + next * BASE - borrow
  {
    var lo, hi := MulBorrow(have128, q, x, borrow);
    BorrowFits(q, x, borrow, lo, hi);
    next := if uv < lo then hi + 1 else hi;
    y := Wrap64(uv - lo);
    DivModUnique(uv - lo, BASE, if uv < lo then -1 else 0, if uv < lo then uv - lo + BASE else uv - lo);
  }

  lemma WindowStep(before: seq<u64>, after: seq<u64>, jm: nat, i: nat, v: seq<u64>, q: u64, borrow: u64, next: u64)
    requires i < |v| && jm + i < |before| == |after|
    requires Val(after[jm..jm + i]) + q * Val(v[..i]) == Val(before[jm..jm + i]) + borrow * Pow(BASE, i)
    requires after[jm + i] + q * v[i] == before[jm + i] + next * BASE - borrow
    ensures Val(after[jm..jm + i + 1]) + q * Val(v[..i + 1]) == Val(before[jm..jm + i + 1]) + next * Pow(BASE, i + 1)
  {
    WindowGrows(before, jm, i);
    WindowGrows(after, jm, i);
    ValPrefix(v, i);
    SubtractStep(Val(before[jm..jm + i]), Val(after[jm..jm + i]), Val(v[..i]), q, borrow, next,
                 before[jm + i], after[jm + i], v[i], Pow(BASE, i));
  }

  /** The window u[jm..] loses q * v; what could not be subtracted comes back as a borrow. */
  method MultiplySubtract(have128: bool, u: array<u64>, jm: nat, v: seq<u64>, q: u64) returns (borrow: u64)
    requires jm + |v| <= u.Length
    modifies u
    ensures Val(u[jm..jm + |v|]) + q * Val(v) == old(Val(u[jm..jm + |v|])) + borrow * Pow(BASE, |v|)
    ensures forall k :: 0 <= k < u.Length && !(jm <= k < jm + |v|) ==> u[k] == old(u[k])
  {
    ghost var before := u[..];
    borrow := 0;
    var i := 0;
    assert q * Val(v[..0]) == 0;
    while i < |v|
      invariant 0 <= i <= |v|
      invariant Val(u[..][jm..jm + i]) + q * Val(v[..i]) == Val(before[jm..jm + i]) + borrow * Pow(BASE, i)
      invariant forall k :: 0 <= k < u.Length && !(jm <= k < jm + i) ==> u[k] == before[k]
    {
      ghost var head := u[..];
      var y, next := SubtractLimb(have128, q, v[i], u[jm + i], borrow);
      u[jm + i] := y;
      assert u[..][jm..jm + i] == head[jm..jm + i];
      WindowStep(before, u[..], jm, i, v, q, borrow, next);
      borrow := next;
      i := i + 1;
    }
    assert v[..|v|] == v && u[..][jm..jm + |v|] == u[jm..jm + |v|];
  }

  lemma WindowGrows(s: seq<u64>, jm: nat, i: nat)
    requires jm + i < |s|
    ensures Val(s[jm..jm + i + 1]) == Val(s[jm..jm + i]) + s[jm + i] * Pow(BASE, i)
  {
    ValPrefix(s[jm..], i);
    assert s[jm..][..i] == s[jm..jm + i] && s[jm..][..i + 1] == s[jm..jm + i + 1];
  }

  // ---- adding back ----

  datatype Sum = Sum(limbs: seq<u64>, carry: u64)

  /** What the add-back loop leaves: limbs and last carry, with the carry rule `s < v` of the source. */
  function AddBack(u: seq<u64>, v: seq<u64>): (r: Sum)
    requires |u| == |v|
    ensures |r.limbs| == |u| && r.carry <= 1
  {
    if u == [] then Sum([], 0) else AddBackLimb(AddBack(u[..|u| - 1], v[..|u| - 1]), u[|u| - 1], v[|u| - 1])
  }

  function AddBackLimb(rest: Sum, x: u64, y: u64): (r: Sum)
    ensures |r.limbs| == |rest.limbs| + 1 && r.carry <= 1
  {
    var s := Wrap64(x + y + rest.carry);
    Sum(rest.limbs + [s], if s < y then 1 else 0)
  }

  /** The true sum carries into limb k, where u is all ones: the source then forgets the carry out of limb k. */
  ghost predicate DropsCarry(u: seq<u64>, v: seq<u64>, k: nat)
    requires k < |u| == |v|
  {
    u[k] == BASE - 1 && Val(u[..k]) + Val(v[..k]) >= Pow(BASE, k)
  }

  ghost predicate DropsBefore(u: seq<u64>, v: seq<u64>, i: nat)
    requires i <= |u| == |v|
  {
    exists k :: 0 <= k < i && DropsCarry(u, v, k)
  }

  /** One limb: the carry is right unless a carry came into an all-ones limb. */
  lemma CarryRule(u: u64, v: u64, carry: u64)
    requires carry <= 1
    ensures var s := Wrap64(u + v + carry);
            s + (if s < v then BASE else 0) + (if carry == 1 && u == BASE - 1 then BASE else 0) == u + v + carry
  {
    var t := u + v + carry;
    DivModUnique(t, BASE, if t < BASE then 0 else 1, if t < BASE then t else t - BASE);
  }

  /** The value of the sum so far, with what dropped carries have lost. */
  lemma {:induction false} AddBackValue(u: seq<u64>, v: seq<u64>) returns (lost: nat)
    requires |u| == |v|
    ensures Val(AddBack(u, v).limbs) + AddBack(u, v).carry * Pow(BASE, |u|) + lost == Val(u) + Val(v)
    ensures lost <= 2 * Pow(BASE, |u|)
    ensures lost == 0 <==> !DropsBefore(u, v, |u|)
  {
    if u == [] {
      lost := 0;
    } else {
      var n := |u| - 1;
      var lost' := AddBackValue(u[..n], v[..n]);
      var rest := AddBack(u[..n], v[..n]);
      var dropped := if rest.carry == 1 && u[n] == BASE - 1 then 1 else 0;
      lost := lost' + dropped * Pow(BASE, n + 1);
      AddBackLimbValue(u, v, rest, lost', dropped);
      DropsGrow(u, v, n);
      DropIsFirst(u, v, rest.limbs, rest.carry, lost', n);
    }
  }

  /** With nothing lost so far, the source's carry is the true one. */
  lemma DropIsFirst(u: seq<u64>, v: seq<u64>, out: seq<u64>, carry: u64, lost: nat, n: nat)
    requires n < |u| == |v| && |out| == n && carry <= 1
    requires Val(out) + carry * Pow(BASE, n) + lost == Val(u[..n]) + Val(v[..n])
    ensures lost == 0 ==> (carry == 1 && u[n] == BASE - 1 <==> DropsCarry(u, v, n))
  {
    ValBound(out);
    BitTimes(carry, Pow(BASE, n));
  }

  lemma AddBackLimbValue(u: seq<u64>, v: seq<u64>, rest: Sum, lost: nat, dropped: nat)
    requires |u| == |v| == |rest.limbs| + 1 && rest.carry <= 1
    requires var n := |u| - 1;
             && Val(rest.limbs) + rest.carry * Pow(BASE, n) + lost == Val(u[..n]) + Val(v[..n])
             && lost <= 2 * Pow(BASE, n)
             && dropped == if rest.carry == 1 && u[n] == BASE - 1 then 1 else 0
    ensures var n, sum := |u| - 1, AddBackLimb(rest, u[|u| - 1], v[|u| - 1]);
            && Val(sum.limbs) + sum.carry * Pow(BASE, |u|) + (lost + dropped * Pow(BASE, |u|)) == Val(u) + Val(v)
            && lost + dropped * Pow(BASE, |u|) <= 2 * Pow(BASE, |u|)
  {
    var n := |u| - 1;
    var s, p := Wrap64(u[n] + v[n] + rest.carry), Pow(BASE, n);
    CarryRule(u[n], v[n], rest.carry);
    LimbSum(s, if s < v[n] then 1 else 0, dropped, u[n], v[n], rest.carry, p);
    AppendLimb(rest.limbs, s);
    assert Pow(BASE, |u|) == BASE * p;
    assert dropped * Pow(BASE, |u|) <= Pow(BASE, |u|) by { MulLe(dropped, 1, Pow(BASE, |u|)); }
  }

  lemma LimbSum(s: int, c': int, dropped: int, u: int, v: int, carry: int, p: int)
    requires s + c' * BASE + dropped * BASE == u + v + carry
    ensures s * p + c' * (BASE * p) + dropped * (BASE * p) == u * p + v * p + carry * p
  {
    MulAssociative(c', BASE, p);
    MulAssociative(dropped, BASE, p);
    MulDistributes(s, c' * BASE, p);
    MulDistributes(s + c' * BASE, dropped * BASE, p);
    MulDistributes(u, v, p);
    MulDistributes(u + v, carry, p);
  }

  lemma DropsGrow(u: seq<u64>, v: seq<u64>, n: nat)
    requires n < |u| == |v|
    ensures DropsBefore(u, v, n + 1) <==> DropsBefore(u, v, n) || DropsCarry(u, v, n)
    ensures DropsBefore(u, v, n) <==> DropsBefore(u[..n], v[..n], n)
  {
    forall k | 0 <= k < n ensures DropsCarry(u, v, k) <==> DropsCarry(u[..n], v[..n], k) {
      assert u[..n][..k] == u[..k] && v[..n][..k] == v[..k];
    }
    if DropsBefore(u, v, n) {
      var k :| 0 <= k < n && DropsCarry(u, v, k);
      assert DropsCarry(u[..n], v[..n], k);
    }
    if DropsBefore(u[..n], v[..n], n) {
      var k :| 0 <= k < n && DropsCarry(u[..n], v[..n], k);
      assert DropsCarry(u, v, k);
    }
  }

  lemma OffByLessThanModulus(out: int, lost: int, c: int, c': int, m: int, total: int)
    requires 0 <= out < m && 0 <= lost < m && out + c * m + (lost + c' * m) == total
    ensures out == total % m <==> lost == 0
  {
    MulDistributes(c, c', m);
    if out + lost < m {
      DivModUnique(total, m, c + c', out + lost);
    } else {
      MulDistributes(c + c', 1, m);
      DivModUnique(total, m, c + c' + 1, out + lost - m);
    }
  }

  lemma AddBackUnfolds(u: seq<u64>, v: seq<u64>)
    requires |u| == |v| >= 1
    ensures AddBack(u, v) == AddBackLimb(AddBack(u[..|u| - 1], v[..|u| - 1]), u[|u| - 1], v[|u| - 1])
  {}

  lemma PowBaseGrows(n: nat)
    ensures 2 * Pow(BASE, n) < Pow(BASE, n + 1)
  {}

  lemma SumExactIff(u: seq<u64>, v: seq<u64>, rest: Sum, lost: nat)
    requires |u| == |v| == |rest.limbs| + 1 && rest.carry <= 1
    requires var n := |u| - 1;
             && Val(rest.limbs) + rest.carry * Pow(BASE, n) + lost == Val(u[..n]) + Val(v[..n])
             && lost <= 2 * Pow(BASE, n)
    ensures Val(AddBackLimb(rest, u[|u| - 1], v[|u| - 1]).limbs) == (Val(u) + Val(v)) % Pow(BASE, |u|) <==> lost == 0
  {
    var n := |u| - 1;
    var dropped := if rest.carry == 1 && u[n] == BASE - 1 then 1 else 0;
    AddBackLimbValue(u, v, rest, lost, dropped);
    var sum := AddBackLimb(rest, u[n], v[n]);
    ValBound(sum.limbs);
    PowBaseGrows(n);
    OffByLessThanModulus(Val(sum.limbs), lost, sum.carry, dropped, Pow(BASE, |u|), Val(u) + Val(v));
  }

  /** The added-back limbs are the true sum exactly when no carry is dropped below the top limb. */
  lemma AddBackExactIff(u: seq<u64>, v: seq<u64>)
    requires |u| == |v| >= 1
    ensures Val(AddBack(u, v).limbs) == (Val(u) + Val(v)) % Pow(BASE, |u|) <==> !DropsBefore(u, v, |u| - 1)
  {
    var n := |u| - 1;
    var lost := AddBackValue(u[..n], v[..n]);
    DropsGrow(u, v, n);
    SumExactIff(u, v, AddBack(u[..n], v[..n]), lost);
    AddBackUnfolds(u, v);
  }

  /** One more limb of a sum, computed. */
  lemma AddBackNext(u: seq<u64>, v: seq<u64>, i: nat, rest: Sum, s: u64, over: nat)
    requires i < |u| == |v| && AddBack(u[..i], v[..i]) == rest && u[i] + v[i] + rest.carry == s + over * BASE
    ensures AddBack(u[..i + 1], v[..i + 1]) == Sum(rest.limbs + [s], if s < v[i] then 1 else 0)
  {
    AddBackGrows(u, v, i);
    DivModUnique(u[i] + v[i] + rest.carry, BASE, over, s);
  }

  lemma AddBackSteps()
    ensures AddBack([BASE - 1, BASE - 1, BASE - 1], [1, 0, TWO_63]).limbs == [0, 0, TWO_63 - 1]
  {
    var u: seq<u64>, v: seq<u64> := [BASE - 1, BASE - 1, BASE - 1], [1, 0, TWO_63];
    AddBackNext(u, v, 0, Sum([], 0), 0, 1);
    AddBackNext(u, v, 1, Sum([0], 1), 0, 1);
    AddBackNext(u, v, 2, Sum([0, 0], 0), TWO_63 - 1, 1);
    assert u[..3] == u && v[..3] == v;
  }

  /** A dropped carry in a real digit: dividing 2^192 + 1 by 2^191 + 1, the estimate 2 is one too big, the window
      becomes -1, and adding the divisor back leaves 2^191 - 2^128 instead of the remainder 2^191. */
  lemma AddBackCanDrop()
    ensures var w, mid, v := [1, 0, 0, 1], [BASE - 1, BASE - 1, BASE - 1], [1, 0, TWO_63];
            && ThreeByTwo(2, w[3], w[2], w[1], v[2], v[1])
            && Val(w) + Pow(BASE, 3) == Val(mid) + 2 * Val(v)
            && Val(w) / Val(v) == 1
            && DropsBefore(mid, v, 2)
            && Val(AddBack(mid, v).limbs) != Val(w) % Val(v)
  {
    var w: seq<u64>, mid: seq<u64>, v: seq<u64> := [1, 0, 0, 1], [BASE - 1, BASE - 1, BASE - 1], [1, 0, TWO_63];
    ThreeLimbs(1, 0, 0);
    AppendLimb([1, 0, 0], 1);
    assert [1, 0, 0] + [1] == w;
    ThreeLimbs(BASE - 1, BASE - 1, BASE - 1);
    ThreeLimbs(1, 0, TWO_63);
    ThreeLimbs(0, 0, TWO_63 - 1);
    AddBackSteps();
    assert mid[..1] == [BASE - 1] && v[..1] == [1];
    assert DropsCarry(mid, v, 1);
    DivModUnique(Val(w), Val(v), 1, Val(w) - Val(v));
  }

  lemma AddBackGrows(u: seq<u64>, v: seq<u64>, i: nat)
    requires i < |u| == |v|
    ensures AddBack(u[..i + 1], v[..i + 1]) == AddBackLimb(AddBack(u[..i], v[..i]), u[i], v[i])
  {
    assert u[..i + 1][..i] == u[..i] && v[..i + 1][..i] == v[..i];
  }

  /** The window of now below limb i is the sum of the window of was and v so far; the rest is as it was. */
  ghost predicate AddedBack(was: seq<u64>, now: seq<u64>, jm: nat, v: seq<u64>, i: nat, carry: u64) {
    && i <= |v| && jm + |v| <= |was| == |now|
    && Sum(now[jm..jm + i], carry) == AddBack(was[jm..jm + i], v[..i])
    && forall k :: 0 <= k < |was| && !(jm <= k < jm + i) ==> now[k] == was[k]
  }

  lemma SliceSet<T>(now: seq<T>, jm: nat, i: nat, s: T)
    requires jm + i < |now|
    ensures now[jm + i := s][jm..jm + i + 1] == now[jm..jm + i] + [s]
  {
    var next := now[jm + i := s];
    assert next[jm..jm + i] == now[jm..jm + i];
    assert next[jm..jm + i + 1] == next[jm..jm + i] + [next[jm + i]];
  }

  lemma AddedBackLimb(was: seq<u64>, now: seq<u64>, jm: nat, v: seq<u64>, i: nat, carry: u64)
    requires AddedBack(was, now, jm, v, i, carry) && i < |v|
    ensures var s := Wrap64(now[jm + i] + v[i] + carry);
            AddedBack(was, now[jm + i := s], jm, v, i + 1, if s < v[i] then 1 else 0)
  {
    var s := Wrap64(now[jm + i] + v[i] + carry);
    var w := was[jm..jm + |v|];
    AddBackGrows(w, v, i);
    assert w[..i] == was[jm..jm + i] && w[..i + 1] == was[jm..jm + i + 1] && w[i] == now[jm + i];
    SliceSet(now, jm, i, s);
  }

  lemma AddedBackNothing(was: seq<u64>, jm: nat, v: seq<u64>)
    requires jm + |v| <= |was|
    ensures AddedBack(was, was, jm, v, 0, 0)
  {
    assert was[jm..jm] == [] && v[..0] == [];
  }

  lemma AddedBackAll(was: seq<u64>, now: seq<u64>, jm: nat, v: seq<u64>, carry: u64)
    requires AddedBack(was, now, jm, v, |v|, carry)
    ensures now[jm..jm + |v|] == AddBack(was[jm..jm + |v|], v).limbs
  {
    assert v[..|v|] == v;
  }

  /** One limb of the loop: carry = (sum < v). */
  method AddBackOne(u: array<u64>, jm: nat, v: seq<u64>, i: nat, carry: u64, ghost was: seq<u64>) returns (next: u64)
    requires i < |v| && AddedBack(was, u[..], jm, v, i, carry)
    modifies u
    ensures AddedBack(was, u[..], jm, v, i + 1, next)
  {
    ghost var now := u[..];
    AddedBackLimb(was, now, jm, v, i, carry);
    var s := Wrap64(u[jm + i] + v[i] + carry);
    u[jm + i] := s;
    assert u[..] == now[jm + i := s];
    next := if s < v[i] then 1 else 0;
  }

  /** The add-back loop on the window u[jm..]. */
  method AddBackLoop(u: array<u64>, jm: nat, v: seq<u64>) returns (carry: u64)
    requires jm + |v| <= u.Length
    modifies u
    ensures AddedBack(old(u[..]), u[..], jm, v, |v|, carry)
    ensures u[..][jm..jm + |v|] == AddBack(old(u[..])[jm..jm + |v|], v).limbs
  {
    ghost var was := u[..];
    carry := 0;
    var i := 0;
    AddedBackNothing(was, jm, v);
    while i < |v|
      invariant 0 <= i <= |v| && AddedBack(was, u[..], jm, v, i, carry)
    {
      carry := AddBackOne(u, jm, v, i, carry, was);
      i := i + 1;
    }
    AddedBackAll(was, u[..], jm, v, carry);
  }

  // ---- the whole digit ----

  lemma TopBorrow(before: int, after: int, top: int, borrow: int, product: int, p: int)
    requires after + product == before + borrow * p && 0 <= after < p
    ensures top < borrow <==> before + top * p < product
    ensures top >= borrow ==> before + top * p - product == after + (top - borrow) * p
    ensures top < borrow ==> before + top * p + (borrow - top) * p == after + product
  {
    MulDistributes(top, -borrow, p);
    if top < borrow { MulLe(top + 1, borrow, p); MulDistributes(top, 1, p); } else { MulLe(borrow, top, p); }
  }

  /** An estimate that fits leaves the remainder in the low limbs and 0 above. */
  lemma ExactDigit(U: nat, V: nat, q: int, est: int, low: nat, top: nat, p: nat)
    requires V > 0 && q == U / V && q <= est <= q + 1 && est * V <= U && V < p
    requires U - est * V == low + top * p && low < p
    ensures est == q && low == U % V && top == 0
  {
    DivModDefinition(U, V);
    MulDistributes(q, 1, V);
    if top >= 1 { MulLe(1, top, p); }
  }

  /** An estimate that does not fit is one too big; the low limbs hold remainder - V + p. */
  lemma OverDigit(U: nat, V: nat, q: int, est: int, low: nat, c: nat, p: nat)
    requires V > 0 && q == U / V && q <= est <= q + 1 && est * V > U && V < p
    requires U + c * p == low + est * V && low < p && c > 0
    ensures est == q + 1 && low == U % V + p - V && (low + V) % p == U % V
  {
    DivModDefinition(U, V);
    MulDistributes(q, 1, V);
    MulLe(1, c, p);
    assert est != q;
    assert low + V == U % V + c * p;
    if c >= 2 { MulLe(2, c, p); }
    DivModUnique(low + V, p, c, U % V);
  }

  // ---- the limbs of a number ----

  /** The n lowest limbs of x. */
  function LimbsOf(x: nat, n: nat): (s: seq<u64>)
    ensures |s| == n
  {
    if n == 0 then [] else [x % BASE] + LimbsOf(x / BASE, n - 1)
  }

  /** A limb put in below. */
  lemma {:induction false} ValBelow(x: u64, s: seq<u64>)
    ensures Val([x] + s) == x + Val(s) * BASE
  {
    if s == [] {
      assert [x] + s == [] + [x];
      AppendLimb([], x);
    } else {
      var n := |s| - 1;
      var p, rest := Pow(BASE, n), [x] + s[..n];
      ValBelow(x, s[..n]);
      assert [x] + s == rest + [s[n]];
      AppendLimb(rest, s[n]);
      assert Pow(BASE, n + 1) == BASE * p;
      ScaledSum(Val(s[..n]), s[n], p);
    }
  }

  lemma ScaledSum(v: int, x: int, p: int)
    ensures (v + x * p) * BASE == v * BASE + x * (BASE * p)
  {
    MulDistributes(v, x * p, BASE);
    MulAssociative(x, p, BASE);
    MulCommutes(p, BASE);
  }

  lemma {:induction false} LimbsOfValue(x: nat, n: nat)
    requires x < Pow(BASE, n)
    ensures Val(LimbsOf(x, n)) == x
  {
    if n > 0 {
      assert Pow(BASE, n) == BASE * Pow(BASE, n - 1);
      LimbsOfValue(x / BASE, n - 1);
      ValBelow(x % BASE, LimbsOf(x / BASE, n - 1));
    }
  }

  lemma TopsAgree(s: seq<u64>, t: seq<u64>, n: nat)
    requires |s| == |t| == n + 1 && Val(s) == Val(t)
    ensures s[n] == t[n] && Val(s[..n]) == Val(t[..n])
  {
    var low: int, low': int, p := Val(s[..n]), Val(t[..n]), Pow(BASE, n);
    ValBound(s[..n]);
    ValBound(t[..n]);
    assert Val(s) == low + s[n] * p && Val(t) == low' + t[n] * p;
    QuotientUnique(p, s[n], low, t[n], low');
  }

  /** A number of given length has one sequence of limbs. */
  lemma {:induction false} ValInjective(s: seq<u64>, t: seq<u64>)
    requires |s| == |t| && Val(s) == Val(t)
    ensures s == t
  {
    if s != [] {
      var n := |s| - 1;
      TopsAgree(s, t, n);
      ValInjective(s[..n], t[..n]);
      assert s == s[..n] + [s[n]] && t == t[..n] + [t[n]];
    }
  }

  // ---- multiply-subtract and add-back together ----

  ghost function Window(u: array<u64>, jm: nat, n: nat): nat
    requires jm + n <= u.Length
    reads u
  {
    Val(u[jm..jm + n])
  }

  /** The over-subtracted case: wrap the top limb, add the divisor back, pass the carry on. */
  method AddBackWindow(u: array<u64>, jm: nat, v: seq<u64>, borrow: u64)
    requires jm + |v| < u.Length
    modifies u
    ensures u[jm..jm + |v|] == AddBack(old(u[jm..jm + |v|]), v).limbs
    ensures forall k :: 0 <= k < u.Length && !(jm <= k <= jm + |v|) ==> u[k] == old(u[k])
  {
    ghost var mid := u[jm..jm + |v|];
    var top: int := u[jm + |v|];
    u[jm + |v|] := Wrap64(top - borrow);
    assert u[jm..jm + |v|] == mid;
    assert u[..][jm..jm + |v|] == mid;
    var carry := AddBackLoop(u, jm, v);
    ghost var sum := u[jm..jm + |v|];
    assert u[..][jm..jm + |v|] == sum;
    var above: int := u[jm + |v|];
    u[jm + |v|] := Wrap64(above + carry);
    assert u[jm..jm + |v|] == sum;
  }

  /** The limbs the window holds once one divisor too many has been subtracted from U. */
  ghost function OverWindow(U: nat, v: seq<u64>): (mid: seq<u64>)
    requires Val(v) > 0
    ensures |mid| == |v|
  {
    ValBound(v);
    DivModDefinition(U, Val(v));
    LimbsOf(U % Val(v) + Pow(BASE, |v|) - Val(v), |v|)
  }

  /** Adding the divisor back to those limbs drops a carry below the top limb. */
  ghost predicate AddBackDrops(U: nat, v: seq<u64>)
    requires Val(v) > 0 && |v| >= 1
  {
    DropsBefore(OverWindow(U, v), v, |v| - 1)
  }

  /** What a digit leaves, in terms of the window before (U) and the divisor's limbs: always the true quotient digit,
      and the true remainder unless the estimate was one too big and add-back drops a carry. */
  ghost predicate DigitResult(U: nat, v: seq<u64>, est: int, q: int, after: nat, top: nat)
    requires Val(v) > 0 && |v| >= 1
  {
    && q == U / Val(v)
    && (after == U % Val(v) <==> !(est == q + 1 && AddBackDrops(U, v)))
    && (est == q ==> top == 0)
  }

  /** Multiply-subtract, and add-back when the estimate was too big. */
  method SubtractEstimate(have128: bool, u: array<u64>, jm: nat, v: seq<u64>, est: u64)
    returns (q: u64)
    requires |v| >= 1 && jm + |v| < u.Length && Val(v) > 0
    requires Window(u, jm, |v| + 1) / Val(v) <= est <= Window(u, jm, |v| + 1) / Val(v) + 1
    modifies u
    ensures DigitResult(old(Window(u, jm, |v| + 1)), v, est, q, Window(u, jm, |v|), u[jm + |v|])
    ensures forall k :: 0 <= k < u.Length && !(jm <= k <= jm + |v|) ==> u[k] == old(u[k])
  {
    ghost var U, low := Window(u, jm, |v| + 1), Window(u, jm, |v|);
    var top: int := u[jm + |v|];
    SplitWindow(u, jm, |v|);
    var borrow := MultiplySubtract(have128, u, jm, v, est);
    ghost var mid := u[jm..jm + |v|];
    DigitCases(U, v, est, low, mid, top, borrow);
    if top < borrow {
      AddBackWindow(u, jm, v, borrow);
      q := est - 1;
    } else {
      u[jm + |v|] := top - borrow;
      assert u[jm..jm + |v|] == mid;
      q := est;
    }
  }

  lemma OverWindowIs(U: nat, v: seq<u64>, mid: seq<u64>)
    requires |mid| == |v| && Val(v) > 0 && Val(mid) == U % Val(v) + Pow(BASE, |v|) - Val(v)
    ensures mid == OverWindow(U, v)
  {
    ValBound(mid);
    LimbsOfValue(Val(mid), |v|);
    ValInjective(mid, OverWindow(U, v));
  }

  lemma OverOutcome(U: nat, v: seq<u64>, est: int, after: nat)
    requires Val(v) > 0 && |v| >= 1 && est == U / Val(v) + 1
    requires after == U % Val(v) <==> !AddBackDrops(U, v)
    ensures DigitResult(U, v, est, est - 1, after, 0)
  {}

  lemma OverResult(U: nat, v: seq<u64>, est: u64, mid: seq<u64>, c: nat)
    requires |mid| == |v| >= 1 && Val(v) > 0 && c > 0
    requires U / Val(v) <= est <= U / Val(v) + 1 && est * Val(v) > U
    requires U + c * Pow(BASE, |v|) == Val(mid) + est * Val(v)
    ensures est >= 1 && DigitResult(U, v, est, est - 1, Val(AddBack(mid, v).limbs), 0)
  {
    ValBound(v);
    ValBound(mid);
    OverDigit(U, Val(v), U / Val(v), est, Val(mid), c, Pow(BASE, |v|));
    OverWindowIs(U, v, mid);
    AddBackExactIff(mid, v);
    PositiveFactor(est, Val(v));
    OverOutcome(U, v, est, Val(AddBack(mid, v).limbs));
  }

  /** Both branches, on values. */
  lemma DigitCases(U: nat, v: seq<u64>, est: u64, low: nat, mid: seq<u64>, top: int, borrow: u64)
    requires |mid| == |v| >= 1 && Val(v) > 0 && 0 <= top
    requires U == low + top * Pow(BASE, |v|)
    requires U / Val(v) <= est <= U / Val(v) + 1
    requires Val(mid) + est * Val(v) == low + borrow * Pow(BASE, |v|)
    ensures top < borrow ==> est >= 1 && DigitResult(U, v, est, est - 1, Val(AddBack(mid, v).limbs), 0)
    ensures top >= borrow ==> top == borrow && DigitResult(U, v, est, est, Val(mid), 0)
  {
    ValBound(v);
    ValBound(mid);
    TopBorrow(low, Val(mid), top, borrow, est * Val(v), Pow(BASE, |v|));
    if top < borrow {
      OverResult(U, v, est, mid, borrow - top);
    } else {
      ExactDigit(U, Val(v), U / Val(v), est, Val(mid), top - borrow, Pow(BASE, |v|));
    }
  }

  lemma SplitWindow(u: array<u64>, jm: nat, n: nat)
    requires jm + n < u.Length
    ensures Window(u, jm, n + 1) == Window(u, jm, n) + u[jm + n] * Pow(BASE, n)
  {
    WindowGrows(u[..], jm, n);
    assert u[..][jm..jm + n + 1] == u[jm..jm + n + 1] && u[..][jm..jm + n] == u[jm..jm + n];
  }

  /** One digit of Algorithm D on the window u[jm .. jm + n]: the quotient digit is always the true one, and the window
      is left with the true remainder exactly unless the estimate from its three top limbs is one too big and adding
      the divisor back drops a carry. */
  method DivideDigit(have128: bool, u: array<u64>, jm: nat, v: seq<u64>) returns (q: u64, ghost est: u64)
    requires |v| >= 2 && v[|v| - 1] >= TWO_63 && jm + |v| < u.Length && u[jm + |v|] < v[|v| - 1]
    modifies u
    ensures ThreeByTwo(est, old(u[jm + |v|]), old(u[jm + |v| - 1]), old(u[jm + |v| - 2]), v[|v| - 1], v[|v| - 2])
    ensures Val(v) > 0 && (est == q || est == q + 1)
    ensures DigitResult(old(Window(u, jm, |v| + 1)), v, est, q, Window(u, jm, |v|), u[jm + |v|])
    ensures forall k :: 0 <= k < u.Length && !(jm <= k <= jm + |v|) ==> u[k] == old(u[k])
  {
    var n := |v|;
    var qHat := EstimateDigit(have128, u[jm + n], u[jm + n - 1], u[jm + n - 2], v[n - 1], v[n - 2]);
    est := qHat;
    EstimateBounds(u[jm..jm + n + 1], v, qHat);
    q := SubtractEstimate(have128, u, jm, v, qHat);
  }
}
