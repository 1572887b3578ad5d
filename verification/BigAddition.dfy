/** Comparison, addition and subtraction of signed multi-limb numbers, in place and with aliased results. */
module BigAddition {
  import opened Words
  import opened Arithmetic
  import opened Limbs
  import opened BigIntegers

  function Signed(magnitude: int, negative: bool): int {
    if negative then -magnitude else magnitude
  }

  /** The number a BigInt stands for. */
  ghost function Value(a: BigInt): int
    requires a.Valid()
    reads a, a.limbs
  {
    Signed(a.Magnitude(), a.negative)
  }

  // ---- comparison ----

  /** The longer of two numbers without leading zeros is the larger. */
  lemma LongerIsLarger(s: seq<u64>, t: seq<u64>)
    requires |s| > |t| >= 1 && s[|s| - 1] != 0
    ensures Val(s) > Val(t)
  {
    ValBound(t);
    PowMonotone(|t|, |s| - 1);
    MulLe(1, s[|s| - 1], Pow(BASE, |s| - 1));
  }

  /** With equal limbs above, the first different limb decides. */
  lemma {:induction false} FirstDifferenceDecides(s: seq<u64>, t: seq<u64>, i: nat)
    requires |s| == |t| && i < |s| && s[i] > t[i] && s[i + 1..] == t[i + 1..]
    ensures Val(s) > Val(t)
    decreases |s|
  {
    var n := |s| - 1;
    if i == n {
      ValBound(t[..n]);
      MulLe(t[n] + 1, s[n], Pow(BASE, n));
      MulDistributes(t[n], 1, Pow(BASE, n));
    } else {
      assert s[n] == s[i + 1..][n - i - 1] == t[i + 1..][n - i - 1] == t[n];
      assert s[..n][i + 1..] == s[i + 1..][..n - i - 1] && t[..n][i + 1..] == t[i + 1..][..n - i - 1];
      FirstDifferenceDecides(s[..n], t[..n], i);
    }
  }

  function Sign(x: int): int {
    if x > 0 then 1 else if x < 0 then -1 else 0
  }

  /** The magnitude part of bigint_compare. */
  method CompareMagnitude(a: BigInt, b: BigInt) returns (cmp: int)
    requires a.Valid() && b.Valid() && a.Normal() && b.Normal()
    ensures cmp == Sign(a.Magnitude() - b.Magnitude())
  {
    ghost var s, t := a.limbs[..a.len], b.limbs[..b.len];
    if a.len != b.len {
      if a.len > b.len { LongerIsLarger(s, t); return 1; }
      LongerIsLarger(t, s);
      return -1;
    }
    var i := a.len;
    while i > 0
      invariant 0 <= i <= a.len && s[i..] == t[i..]
    {
      i := i - 1;
      if a.limbs[i] != b.limbs[i] {
        if a.limbs[i] > b.limbs[i] { FirstDifferenceDecides(s, t, i); return 1; }
        FirstDifferenceDecides(t, s, i);
        return -1;
      }
      assert s[i..] == [s[i]] + s[i + 1..] && t[i..] == [t[i]] + t[i + 1..];
    }
    assert s == s[0..] == t[0..] == t;
    return 0;
  }

  /** bigint_compare */
  method Compare(a: BigInt, b: BigInt) returns (cmp: int)
    requires a.Valid() && b.Valid() && a.Normal() && b.Normal()
    ensures cmp == Sign(Value(a) - Value(b))
  {
    if a.negative != b.negative {
      if a.negative { NormalSign(a); } else { NormalSign(b); }
      return if b.negative then 1 else -1;
    }
    var m := CompareMagnitude(a, b);
    return if a.negative then -m else m;
  }

  /** A normalised negative number is not zero. */
  lemma NormalSign(a: BigInt)
    requires a.Valid() && a.Normal() && a.negative
    ensures a.Magnitude() > 0
  {
    ZeroIff(a.limbs[..a.len]);
  }

  // ---- one limb ----

  /** One limb of the addition, on either path. */
  method AddLimb(have128: bool, x: u64, y: u64, c: u64) returns (r: u64, carry: u64)
    requires c <= 1
    ensures r + carry * BASE == x + y + c && carry <= 1
  {
    if have128 {
      var sum := x + y + c;
      DivModDefinition(sum, BASE);
      r, carry := sum % BASE, sum / BASE;
    } else {
      CarryDetected(x, y);
      var sum := Wrap64(x + y);
      carry := if sum < x || sum < y then 1 else 0;
      CarryDetected(sum, c);
      r := Wrap64(sum + c);
      if c != 0 && r < c { carry := 1; }
    }
  }

  /** One limb of the carry run, on either path. */
  method CarryLimb(have128: bool, x: u64, c: u64) returns (r: u64, carry: u64)
    requires c <= 1
    ensures r + carry * BASE == x + c && carry <= 1
  {
    if have128 {
      var sum := x + c;
      DivModDefinition(sum, BASE);
      r, carry := sum % BASE, sum / BASE;
    } else {
      CarryDetected(x, c);
      r := Wrap64(x + c);
      carry := if r < x || (c != 0 && r == 0) then 1 else 0;
    }
  }

  /** The borrow out of one limb of the subtraction, on either path. */
  function BorrowOut(have128: bool, x: u64, y: u64, bo: u64): (r: u64)
    ensures r <= 1
  {
    if have128 then
      if x - y - bo < 0 then 1 else 0
    else
      var diff := Wrap64(x - y);
      var next := if diff > x then 1 else 0;
      if bo != 0 && Wrap64(diff - bo) > Wrap64(x - y - 1) then 1 else next
  }

  /** The path without a 128-bit type forgets the borrow exactly when a borrow meets equal limbs. */
  lemma BorrowOutIs(have128: bool, x: u64, y: u64, bo: u64)
    requires bo <= 1
    ensures BorrowOut(have128, x, y, bo) == if x < y + bo && !Forgets(have128, x, y, bo) then 1 else 0
  {
    var d: int := x - y;
    WrapDifference(d);
    WrapDifference(d - 1);
    if bo == 1 {
      var diff: int := Wrap64(d);
      WrapDifference(diff - 1);
    }
  }

  predicate Forgets(have128: bool, x: u64, y: u64, bo: u64) {
    !have128 && x == y && bo == 1
  }

  lemma WrapTwice(x: u64, y: u64, bo: u64)
    requires bo <= 1
    ensures Wrap64(Wrap64(x - y) - bo) == Wrap64(x - y - bo)
  {
    var d: int := x - y;
    WrapDifference(d);
    if d - bo >= -BASE { WrapDifference(d - bo); }
    var diff: int := Wrap64(d);
    WrapDifference(diff - bo);
  }

  /** One limb of the subtraction, on either path. */
  method SubLimb(have128: bool, x: u64, y: u64, bo: u64) returns (r: u64, borrow: u64)
    requires bo <= 1
    ensures r == Wrap64(x - y - bo) && borrow == BorrowOut(have128, x, y, bo)
  {
    if have128 {
      var diff := x - y - bo;
      r := Wrap64(diff);
      borrow := if diff < 0 then 1 else 0;
    } else {
      WrapTwice(x, y, bo);
      var diff := Wrap64(x - y);
      borrow := if diff > x then 1 else 0;
      r := Wrap64(diff - bo);
      if bo != 0 && r > Wrap64(x - y - 1) { borrow := 1; }
    }
  }

  /** One limb of the borrow run, on either path. */
  method BorrowLimb(have128: bool, x: u64, bo: u64) returns (r: u64, borrow: u64)
    requires bo <= 1
    ensures r == Wrap64(x - bo) && borrow == if x < bo then 1 else 0
  {
    var diff: int := x - bo;
    WrapDifference(diff);
    r := Wrap64(diff);
    borrow := if have128 then (if diff < 0 then 1 else 0) else if r > x then 1 else 0;
  }

  lemma WrapDifference(d: int)
    requires -BASE <= d < BASE
    ensures Wrap64(d) == if d >= 0 then d else d + BASE
  {
    if d >= 0 { DivModUnique(d, BASE, 0, d); } else { DivModUnique(d, BASE, -1, d + BASE); }
  }

  /** One limb further on both sides of a running sum. */
  lemma ColumnAdds(low: int, left: int, P: int, r: int, x: int, y: int, c: int, carry: int)
    requires low + c * P == left && r + carry * BASE == x + y + c
    ensures low + r * P + carry * (BASE * P) == left + x * P + y * P
  {
    assert (r + carry * BASE) * P == r * P + carry * (BASE * P);
    assert (x + y + c) * P == x * P + y * P + c * P;
  }

  lemma Appended(s: seq<u64>, i: nat)
    requires i < |s|
    ensures Val(s[..i + 1]) == Val(s[..i]) + s[i] * Pow(BASE, i) && Pow(BASE, i + 1) == BASE * Pow(BASE, i)
  {
    ValPrefix(s, i);
  }

  // ---- whole magnitudes ----

  /** The limbs below i are done: their value and the carry make up the two prefixes. */
  ghost predicate Added(r: seq<u64>, s: seq<u64>, t: seq<u64>, i: nat, j: nat, k: nat, c: int) {
    i <= |r| && j <= |s| && k <= |t| && 0 <= c <= 1 && Val(r[..i]) + c * Pow(BASE, i) == Val(s[..j]) + Val(t[..k])
  }

  lemma AddedBoth(r: seq<u64>, s: seq<u64>, t: seq<u64>, i: nat, c: int, x: u64, c1: int)
    requires i < |r| && i < |s| && i < |t| && Added(r, s, t, i, i, i, c)
    requires x + c1 * BASE == s[i] + t[i] + c && 0 <= c1 <= 1
    ensures Added(r[i := x], s, t, i + 1, i + 1, i + 1, c1)
  {
    var r1 := r[i := x];
    assert r1[..i] == r[..i];
    Appended(r1, i);
    Appended(s, i);
    Appended(t, i);
    ColumnAdds(Val(r[..i]), Val(s[..i]) + Val(t[..i]), Pow(BASE, i), x, s[i], t[i], c, c1);
  }

  lemma AddedOne(r: seq<u64>, s: seq<u64>, t: seq<u64>, i: nat, c: int, x: u64, c1: int)
    requires i < |r| && i < |s| && Added(r, s, t, i, i, |t|, c)
    requires x + c1 * BASE == s[i] + c && 0 <= c1 <= 1
    ensures Added(r[i := x], s, t, i + 1, i + 1, |t|, c1)
  {
    var r1 := r[i := x];
    assert r1[..i] == r[..i];
    Appended(r1, i);
    Appended(s, i);
    ColumnAdds(Val(r[..i]), Val(s[..i]) + Val(t[..|t|]), Pow(BASE, i), x, s[i], 0, c, c1);
  }

  // ---- the difference of two magnitudes ----

  datatype Difference = Difference(limbs: seq<u64>, borrow: u64)

  /** What the two loops of bigint_sub_magnitude leave for |t| <= |s|: the limbs written and the last borrow. */
  function Subtract(have128: bool, s: seq<u64>, t: seq<u64>): (r: Difference)
    requires |t| <= |s|
    ensures |r.limbs| == |s| && r.borrow <= 1
  {
    if s == [] then Difference([], 0)
    else
      var n := |s| - 1;
      if |t| == |s| then SubtractBoth(have128, Subtract(have128, s[..n], t[..n]), s[n], t[n])
      else SubtractOne(Subtract(have128, s[..n], t), s[n])
  }

  function SubtractBoth(have128: bool, rest: Difference, x: u64, y: u64): (r: Difference)
    ensures |r.limbs| == |rest.limbs| + 1 && r.borrow <= 1
  {
    Difference(rest.limbs + [Wrap64(x - y - rest.borrow)], BorrowOut(have128, x, y, rest.borrow))
  }

  function SubtractOne(rest: Difference, x: u64): (r: Difference)
    ensures |r.limbs| == |rest.limbs| + 1 && r.borrow <= 1
  {
    Difference(rest.limbs + [Wrap64(x - rest.borrow)], if x < rest.borrow then 1 else 0)
  }

  /** Limb i of both operands is the same, and the limbs below it need a borrow. */
  ghost predicate BorrowMeetsEqual(s: seq<u64>, t: seq<u64>, i: nat) {
    i < |s| && i < |t| && s[i] == t[i] && Val(s[..i]) < Val(t[..i])
  }

  ghost predicate LosesBorrow(s: seq<u64>, t: seq<u64>) {
    exists i: nat :: BorrowMeetsEqual(s, t, i)
  }

  /** One limb, with the borrow that was forgotten. */
  lemma BorrowRule(have128: bool, x: u64, y: u64, bo: u64)
    requires bo <= 1
    ensures Wrap64(x - y - bo) - BorrowOut(have128, x, y, bo) * BASE
         == x - y - bo + if Forgets(have128, x, y, bo) then BASE else 0
  {
    BorrowOutIs(have128, x, y, bo);
    var t: int := x - y - bo;
    DivModUnique(t, BASE, if t < 0 then -1 else 0, if t < 0 then t + BASE else t);
  }

  /** A column of the subtraction weighted by its place. */
  lemma ColumnSubtracts(r: int, borrow: int, forgot: int, x: int, y: int, bo: int, p: int)
    requires r - borrow * BASE == x - y - bo + forgot * BASE
    ensures r * p - borrow * (BASE * p) == x * p - y * p - bo * p + forgot * (BASE * p)
  {
    MulAssociative(borrow, BASE, p);
    MulAssociative(forgot, BASE, p);
    MulDistributes(r, -(borrow * BASE), p);
    MulDistributes(x - y - bo, forgot * BASE, p);
    MulDistributes(x - y, -bo, p);
    MulDistributes(x, -y, p);
  }

  lemma BothValue(have128: bool, s: seq<u64>, t: seq<u64>, rest: Difference, lost: nat, forgot: int)
    requires |s| == |t| == |rest.limbs| + 1 && rest.borrow <= 1
    requires var n := |s| - 1;
             && Val(rest.limbs) - rest.borrow * Pow(BASE, n) == Val(s[..n]) - Val(t[..n]) + lost
             && forgot == if Forgets(have128, s[n], t[n], rest.borrow) then 1 else 0
    ensures var d := SubtractBoth(have128, rest, s[|s| - 1], t[|s| - 1]);
            Val(d.limbs) - d.borrow * Pow(BASE, |s|) == Val(s) - Val(t) + (lost + forgot * Pow(BASE, |s|))
  {
    var n := |s| - 1;
    var r, p := Wrap64(s[n] - t[n] - rest.borrow), Pow(BASE, n);
    BorrowRule(have128, s[n], t[n], rest.borrow);
    AppendLimb(rest.limbs, r);
    ColumnSubtracts(r, BorrowOut(have128, s[n], t[n], rest.borrow), forgot, s[n], t[n], rest.borrow, p);
    assert Pow(BASE, |s|) == BASE * p;
  }

  lemma OneValue(s: seq<u64>, t: seq<u64>, rest: Difference, lost: nat)
    requires |t| <= |rest.limbs| && |s| == |rest.limbs| + 1 && rest.borrow <= 1
    requires var n := |s| - 1; Val(rest.limbs) - rest.borrow * Pow(BASE, n) == Val(s[..n]) - Val(t) + lost
    ensures var d := SubtractOne(rest, s[|s| - 1]);
            Val(d.limbs) - d.borrow * Pow(BASE, |s|) == Val(s) - Val(t) + lost
  {
    var n := |s| - 1;
    var x, p := s[n], Pow(BASE, n);
    var t: int := x - rest.borrow;
    DivModUnique(t, BASE, if t < 0 then -1 else 0, if t < 0 then t + BASE else t);
    AppendLimb(rest.limbs, Wrap64(t));
    ColumnSubtracts(Wrap64(t), if x < rest.borrow then 1 else 0, 0, x, 0, rest.borrow, p);
    assert Pow(BASE, |s|) == BASE * p;
  }

  /** With nothing lost so far, the borrow passed on is the true one. */
  lemma BorrowIsTrue(s: seq<u64>, t: seq<u64>, rest: Difference, lost: nat)
    requires |s| == |t| == |rest.limbs| && rest.borrow <= 1
    requires Val(rest.limbs) - rest.borrow * Pow(BASE, |s|) == Val(s) - Val(t) + lost
    ensures lost == 0 ==> (rest.borrow == 1 <==> Val(s) < Val(t))
  {
    ValBound(rest.limbs);
    BitTimes(rest.borrow, Pow(BASE, |s|));
  }

  lemma LosesGrows(s: seq<u64>, t: seq<u64>, n: nat)
    requires n < |s| && |t| <= |s| == n + 1
    ensures |t| == |s| ==> (LosesBorrow(s, t) <==> LosesBorrow(s[..n], t[..n]) || BorrowMeetsEqual(s, t, n))
    ensures |t| < |s| ==> (LosesBorrow(s, t) <==> LosesBorrow(s[..n], t))
  {
    var t1 := if |t| == |s| then t[..n] else t;
    forall i: nat | i < n ensures BorrowMeetsEqual(s, t, i) <==> BorrowMeetsEqual(s[..n], t1, i) {
      assert s[..n][..i] == s[..i];
      if i < |t1| { assert t1[..i] == t[..i]; }
    }
    if LosesBorrow(s, t) {
      var i: nat :| BorrowMeetsEqual(s, t, i);
      if i < n { assert BorrowMeetsEqual(s[..n], t1, i); }
    }
    if LosesBorrow(s[..n], t1) {
      var i: nat :| BorrowMeetsEqual(s[..n], t1, i);
      assert BorrowMeetsEqual(s, t, i);
    }
  }

  /** What a difference amounts to, with what forgotten borrows have left standing. */
  ghost predicate Amounts(d: Difference, s: seq<u64>, t: seq<u64>, lost: int) {
    Val(d.limbs) - d.borrow * Pow(BASE, |s|) == Val(s) - Val(t) + lost
  }

  /** Nothing more gets lost, or a whole place. */
  lemma LostBoth(have128: bool, s: seq<u64>, t: seq<u64>, rest: Difference, lost: nat) returns (lost1: nat)
    requires |s| == |t| == |rest.limbs| + 1 && rest.borrow <= 1
    requires var n := |s| - 1;
             && Amounts(rest, s[..n], t[..n], lost)
             && (lost == 0 <==> have128 || !LosesBorrow(s[..n], t[..n]))
    ensures Amounts(SubtractBoth(have128, rest, s[|s| - 1], t[|t| - 1]), s, t, lost1)
    ensures lost1 == 0 <==> have128 || !LosesBorrow(s, t)
  {
    var n := |s| - 1;
    var forgot := if Forgets(have128, s[n], t[n], rest.borrow) then 1 else 0;
    LosesGrows(s, t, n);
    BorrowIsTrue(s[..n], t[..n], rest, lost);
    BothValue(have128, s, t, rest, lost, forgot);
    BitTimes(forgot, Pow(BASE, |s|));
    lost1 := lost + forgot * Pow(BASE, |s|);
  }

  lemma {:induction false} SubtractValue(have128: bool, s: seq<u64>, t: seq<u64>) returns (lost: nat)
    requires |t| <= |s|
    ensures Amounts(Subtract(have128, s, t), s, t, lost)
    ensures lost == 0 <==> have128 || !LosesBorrow(s, t)
  {
    if s == [] {
      lost := 0;
    } else {
      var n := |s| - 1;
      if |t| == |s| {
        lost := SubtractValue(have128, s[..n], t[..n]);
        lost := LostBoth(have128, s, t, Subtract(have128, s[..n], t[..n]), lost);
      } else {
        lost := SubtractValue(have128, s[..n], t);
        LosesGrows(s, t, n);
        OneValue(s, t, Subtract(have128, s[..n], t), lost);
      }
    }
  }

  /** Of a larger and a smaller magnitude the limbs are the true difference always on the 128-bit path, and on the
      other exactly when no borrow meets equal limbs. */
  lemma SubtractExactIff(have128: bool, s: seq<u64>, t: seq<u64>)
    requires |t| <= |s| && Val(s) >= Val(t)
    ensures Val(Subtract(have128, s, t).limbs) == Val(s) - Val(t) <==> have128 || !LosesBorrow(s, t)
  {
    var lost := SubtractValue(have128, s, t);
    var d := Subtract(have128, s, t);
    ValBound(d.limbs);
    BitTimes(d.borrow, Pow(BASE, |s|));
  }

  lemma LostBorrowSteps()
    ensures Subtract(false, [0, 1, 1], [1, 1]).limbs == [BASE - 1, BASE - 1, 1]
  {
    var s: seq<u64>, t: seq<u64> := [0, 1, 1], [1, 1];
    SubtractGrows(false, s, t, 0);
    SubtractGrows(false, s, t, 1);
    SubtractGrows(false, s, t, 2);
    BorrowOutIs(false, 0, 1, 0);
    BorrowOutIs(false, 1, 1, 1);
    WrapDifference(-1);
    WrapDifference(1);
    assert t[..2] == t && s[..3] == s;
  }

  /** A lost borrow: 2^128 + 2^64 less 2^64 + 1 comes out with the top limb untouched. */
  lemma BorrowCanBeLost()
    ensures Subtract(false, [0, 1, 1], [1, 1]).limbs == [BASE - 1, BASE - 1, 1]
    ensures Val([BASE - 1, BASE - 1, 1]) != Val([0, 1, 1]) - Val([1, 1])
  {
    var s: seq<u64>, t: seq<u64> := [0, 1, 1], [1, 1];
    LostBorrowSteps();
    LongerIsLarger(s, t);
    SingleLimb([0]);
    SingleLimb([1]);
    assert s[..1] == [0] && t[..1] == [1];
    assert BorrowMeetsEqual(s, t, 1);
    SubtractExactIff(false, s, t);
  }

  lemma SubtractGrows(have128: bool, s: seq<u64>, t: seq<u64>, i: nat)
    requires i < |s| && |t| <= |s|
    ensures i < |t| ==> Subtract(have128, s[..i + 1], t[..i + 1])
                        == SubtractBoth(have128, Subtract(have128, s[..i], t[..i]), s[i], t[i])
    ensures |t| <= i ==> Subtract(have128, s[..i + 1], t) == SubtractOne(Subtract(have128, s[..i], t), s[i])
  {
    assert s[..i + 1][..i] == s[..i];
    if i < |t| { assert t[..i + 1][..i] == t[..i]; }
  }

  // ---- in place, with aliased results ----

  /** What is not yet read of an operand is still what it was. */
  ghost predicate Unread(limbs: seq<u64>, s: seq<u64>, i: nat) {
    |s| <= |limbs| && forall k :: i <= k < |s| ==> limbs[k] == s[k]
  }

  /** Write one limb; what is unread from the next position on stays. */
  method SetLimb(a: BigInt, b: BigInt, result: BigInt, i: nat, r: u64, ghost s: seq<u64>, ghost t: seq<u64>)
    requires i < result.limbs.Length && Unread(a.limbs[..], s, i) && Unread(b.limbs[..], t, i)
    modifies result.limbs
    ensures result.limbs[..] == old(result.limbs[..])[i := r]
    ensures Unread(a.limbs[..], s, i + 1) && Unread(b.limbs[..], t, i + 1)
  {
    result.limbs[i] := r;
  }

  /** Limb i of both operands. */
  method AddBothLimbs(have128: bool, a: BigInt, b: BigInt, result: BigInt, i: nat, carry: u64,
                      ghost s: seq<u64>, ghost t: seq<u64>) returns (next: u64)
    requires a.limbs.Length == b.limbs.Length == result.limbs.Length && i < |s| && i < |t| && carry <= 1
    requires Unread(a.limbs[..], s, i) && Unread(b.limbs[..], t, i) && Added(result.limbs[..], s, t, i, i, i, carry)
    modifies result.limbs
    ensures next <= 1 && Unread(a.limbs[..], s, i + 1) && Unread(b.limbs[..], t, i + 1)
    ensures Added(result.limbs[..], s, t, i + 1, i + 1, i + 1, next)
  {
    ghost var before := result.limbs[..];
    assert a.limbs[..][i] == s[i] && b.limbs[..][i] == t[i];
    var r: u64;
    r, next := AddLimb(have128, a.limbs[i], b.limbs[i], carry);
    AddedBoth(before, s, t, i, carry, r, next);
    SetLimb(a, b, result, i, r, s, t);
  }

  /** Limb i of the longer operand only. */
  method CarryOneLimb(have128: bool, longer: BigInt, shorter: BigInt, result: BigInt, i: nat, carry: u64,
                      ghost l: seq<u64>, ghost m: seq<u64>) returns (next: u64)
    requires longer.limbs.Length == result.limbs.Length && i < |l| && carry <= 1
    requires Unread(longer.limbs[..], l, i) && Unread(shorter.limbs[..], m, i)
    requires Added(result.limbs[..], l, m, i, i, |m|, carry)
    modifies result.limbs
    ensures next <= 1 && Unread(longer.limbs[..], l, i + 1) && Unread(shorter.limbs[..], m, i + 1)
    ensures Added(result.limbs[..], l, m, i + 1, i + 1, |m|, next)
  {
    ghost var before := result.limbs[..];
    assert longer.limbs[..][i] == l[i];
    var r: u64;
    r, next := CarryLimb(have128, longer.limbs[i], carry);
    AddedOne(before, l, m, i, carry, r, next);
    SetLimb(longer, shorter, result, i, r, l, m);
  }

  /** The loop over the limbs both operands have. */
  method AddShared(have128: bool, longer: BigInt, shorter: BigInt, result: BigInt, ghost l: seq<u64>, ghost m: seq<u64>)
    returns (carry: u64)
    requires longer.limbs.Length == shorter.limbs.Length == result.limbs.Length && shorter.len == |m| <= |l|
    requires Unread(longer.limbs[..], l, 0) && Unread(shorter.limbs[..], m, 0)
    modifies result.limbs
    ensures carry <= 1 && Unread(longer.limbs[..], l, |m|) && Unread(shorter.limbs[..], m, |m|)
    ensures Added(result.limbs[..], l, m, |m|, |m|, |m|, carry)
  {
    carry := 0;
    NothingAdded(result.limbs[..], l, m);
    for i := 0 to shorter.len
      invariant carry <= 1 && Unread(longer.limbs[..], l, i) && Unread(shorter.limbs[..], m, i)
      invariant Added(result.limbs[..], l, m, i, i, i, carry)
    {
      carry := AddBothLimbs(have128, longer, shorter, result, i, carry, l, m);
    }
  }

  /** The carry through the rest of the longer operand. */
  method CarryUp(have128: bool, longer: BigInt, shorter: BigInt, result: BigInt, carry0: u64,
                 ghost l: seq<u64>, ghost m: seq<u64>) returns (carry: u64)
    requires longer.limbs.Length == result.limbs.Length && shorter.len == |m| <= |l| == longer.len && carry0 <= 1
    requires Unread(longer.limbs[..], l, |m|) && Unread(shorter.limbs[..], m, |m|)
    requires Added(result.limbs[..], l, m, |m|, |m|, |m|, carry0)
    modifies result.limbs
    ensures carry <= 1 && Added(result.limbs[..], l, m, |l|, |l|, |m|, carry)
  {
    carry := carry0;
    for i := shorter.len to longer.len
      invariant carry <= 1 && Unread(longer.limbs[..], l, i) && Unread(shorter.limbs[..], m, i)
      invariant Added(result.limbs[..], l, m, i, i, |m|, carry)
    {
      carry := CarryOneLimb(have128, longer, shorter, result, i, carry, l, m);
    }
  }

  /** bigint_add_magnitude once the longer operand is known; the result may be either operand. */
  method AddLonger(have128: bool, longer: BigInt, shorter: BigInt, result: BigInt) returns (newLen: nat)
    requires longer.Valid() && shorter.Valid() && result.Valid() && shorter.len <= longer.len
    requires longer.limbs.Length == shorter.limbs.Length == result.limbs.Length
    requires longer.Magnitude() + shorter.Magnitude() < Pow(BASE, result.limbs.Length)
    modifies result.limbs
    ensures 1 <= newLen <= result.limbs.Length
    ensures Val(result.limbs[..newLen]) == old(longer.Magnitude()) + old(shorter.Magnitude())
  {
    ghost var l, m := longer.limbs[..longer.len], shorter.limbs[..shorter.len];
    var carry := AddShared(have128, longer, shorter, result, l, m);
    carry := CarryUp(have128, longer, shorter, result, carry, l, m);
    newLen := FinalCarry(result, longer.len, carry, l, m);
  }

  lemma NothingAdded(r: seq<u64>, s: seq<u64>, t: seq<u64>)
    ensures Added(r, s, t, 0, 0, 0, 0)
  {
    assert Val(r[..0]) == 0 && Val(s[..0]) == 0 && Val(t[..0]) == 0;
  }

  /** The carry out of the top limb becomes a limb of its own; there is room for it. */
  method FinalCarry(result: BigInt, maxLen: nat, carry: u64, ghost l: seq<u64>, ghost m: seq<u64>)
    returns (newLen: nat)
    requires 1 <= maxLen <= result.limbs.Length && carry <= 1 && |l| == maxLen
    requires Added(result.limbs[..], l, m, maxLen, maxLen, |m|, carry)
    requires Val(l) + Val(m) < Pow(BASE, result.limbs.Length)
    modifies result.limbs
    ensures 1 <= newLen <= result.limbs.Length && Val(result.limbs[..newLen]) == Val(l) + Val(m)
  {
    assert result.limbs[..][..maxLen] == result.limbs[..maxLen];
    AddedDone(result.limbs[..], l, m, carry, result.limbs.Length);
    if carry == 0 { return maxLen; }
    ghost var low := result.limbs[..maxLen];
    result.limbs[maxLen] := 1;
    assert result.limbs[..maxLen + 1][..maxLen] == low;
    TopLimb(result.limbs[..maxLen + 1], maxLen);
    return maxLen + 1;
  }

  lemma AddedDone(r: seq<u64>, l: seq<u64>, m: seq<u64>, c: int, capacity: nat)
    requires |l| <= capacity && Added(r, l, m, |l|, |l|, |m|, c) && Val(l) + Val(m) < Pow(BASE, capacity)
    ensures c == 0 ==> Val(r[..|l|]) == Val(l) + Val(m)
    ensures c == 1 ==> |l| < capacity && Val(r[..|l|]) + Pow(BASE, |l|) == Val(l) + Val(m)
  {
    assert l[..|l|] == l && m[..|m|] == m;
    CarryCases(Val(r[..|l|]), Pow(BASE, |l|), c, Val(l) + Val(m));
  }

  lemma CarryCases(v: int, p: int, c: int, sum: int)
    requires v + c * p == sum && 0 <= c <= 1
    ensures c == 0 ==> v == sum
    ensures c == 1 ==> v + p == sum
  {}

  lemma TopLimb(u: seq<u64>, n: nat)
    requires |u| == n + 1 && u[n] == 1
    ensures Val(u) == Val(u[..n]) + Pow(BASE, n)
  {
    ValPrefix(u, n);
    assert u[..n + 1] == u;
    BitTimes(u[n], Pow(BASE, n));
  }

  /** bigint_add_magnitude; the result may be either operand. */
  method AddMagnitude(have128: bool, a: BigInt, b: BigInt, result: BigInt) returns (newLen: nat)
    requires a.Valid() && b.Valid() && result.Valid()
    requires a.limbs.Length == b.limbs.Length == result.limbs.Length
    requires a.Magnitude() + b.Magnitude() < Pow(BASE, result.limbs.Length)
    modifies result.limbs
    ensures 1 <= newLen <= result.limbs.Length
    ensures Val(result.limbs[..newLen]) == old(a.Magnitude()) + old(b.Magnitude())
  {
    if a.len > b.len {
      newLen := AddLonger(have128, a, b, result);
    } else {
      newLen := AddLonger(have128, b, a, result);
    }
  }

  /** The limbs below i are those of the difference of the limbs below i, with the borrow they leave. */
  ghost predicate Reached(have128: bool, s: seq<u64>, t: seq<u64>, i: nat, limbs: seq<u64>, borrow: u64) {
    i <= |s| && i <= |limbs| &&
    Subtract(have128, s[..i], if i < |t| then t[..i] else t) == Difference(limbs[..i], borrow)
  }

  lemma ReachedBoth(have128: bool, s: seq<u64>, t: seq<u64>, i: nat, limbs: seq<u64>, borrow: u64)
    requires i < |s| && i < |t| <= |s| && i < |limbs| && Reached(have128, s, t, i, limbs, borrow)
    ensures Reached(have128, s, t, i + 1, limbs[i := Wrap64(s[i] - t[i] - borrow)],
                    BorrowOut(have128, s[i], t[i], borrow))
  {
    SubtractGrows(have128, s, t, i);
    var r := Wrap64(s[i] - t[i] - borrow);
    assert limbs[i := r][..i + 1] == limbs[..i] + [r];
    if i + 1 == |t| { assert t[..i + 1] == t; }
  }

  lemma ReachedOne(have128: bool, s: seq<u64>, t: seq<u64>, i: nat, limbs: seq<u64>, borrow: u64)
    requires |t| <= i < |s| && i < |limbs| && Reached(have128, s, t, i, limbs, borrow)
    ensures Reached(have128, s, t, i + 1, limbs[i := Wrap64(s[i] - borrow)], if s[i] < borrow then 1 else 0)
  {
    SubtractGrows(have128, s, t, i);
    var r := Wrap64(s[i] - borrow);
    assert limbs[i := r][..i + 1] == limbs[..i] + [r];
  }

  lemma ReachedNothing(have128: bool, s: seq<u64>, t: seq<u64>, limbs: seq<u64>)
    ensures Reached(have128, s, t, 0, limbs, 0)
  {
    assert s[..0] == [] && limbs[..0] == [] && (|t| > 0 ==> t[..0] == []);
  }

  lemma ReachedAll(have128: bool, s: seq<u64>, t: seq<u64>, limbs: seq<u64>, borrow: u64)
    requires |t| <= |s| <= |limbs| && Reached(have128, s, t, |s|, limbs, borrow)
    ensures limbs[..|s|] == Subtract(have128, s, t).limbs
  {
    assert s[..|s|] == s && t[..|t|] == t;
  }

  /** Limb i of both operands. */
  method SubtractBothLimbs(have128: bool, a: BigInt, b: BigInt, result: BigInt, i: nat, borrow: u64,
                           ghost s: seq<u64>, ghost t: seq<u64>) returns (next: u64)
    requires a.limbs.Length == b.limbs.Length == result.limbs.Length && i < |t| <= |s| && borrow <= 1
    requires Unread(a.limbs[..], s, i) && Unread(b.limbs[..], t, i)
    requires Reached(have128, s, t, i, result.limbs[..], borrow)
    modifies result.limbs
    ensures next <= 1 && Unread(a.limbs[..], s, i + 1) && Unread(b.limbs[..], t, i + 1)
    ensures Reached(have128, s, t, i + 1, result.limbs[..], next)
  {
    ghost var before := result.limbs[..];
    assert a.limbs[..][i] == s[i] && b.limbs[..][i] == t[i];
    ReachedBoth(have128, s, t, i, before, borrow);
    var r: u64;
    r, next := SubLimb(have128, a.limbs[i], b.limbs[i], borrow);
    SetLimb(a, b, result, i, r, s, t);
  }

  /** Limb i of the minuend only. */
  method SubtractOneLimb(have128: bool, a: BigInt, b: BigInt, result: BigInt, i: nat, borrow: u64,
                         ghost s: seq<u64>, ghost t: seq<u64>) returns (next: u64)
    requires a.limbs.Length == result.limbs.Length && |t| <= i < |s| && borrow <= 1
    requires Unread(a.limbs[..], s, i) && Unread(b.limbs[..], t, i)
    requires Reached(have128, s, t, i, result.limbs[..], borrow)
    modifies result.limbs
    ensures next <= 1 && Unread(a.limbs[..], s, i + 1) && Unread(b.limbs[..], t, i + 1)
    ensures Reached(have128, s, t, i + 1, result.limbs[..], next)
  {
    ghost var before := result.limbs[..];
    assert a.limbs[..][i] == s[i];
    ReachedOne(have128, s, t, i, before, borrow);
    var r: u64;
    r, next := BorrowLimb(have128, a.limbs[i], borrow);
    SetLimb(a, b, result, i, r, s, t);
  }

  /** The loop over the limbs both operands have. */
  method SubtractShared(have128: bool, a: BigInt, b: BigInt, result: BigInt, ghost s: seq<u64>, ghost t: seq<u64>)
    returns (borrow: u64)
    requires a.limbs.Length == b.limbs.Length == result.limbs.Length && b.len == |t| <= |s|
    requires Unread(a.limbs[..], s, 0) && Unread(b.limbs[..], t, 0)
    modifies result.limbs
    ensures borrow <= 1 && Unread(a.limbs[..], s, |t|) && Unread(b.limbs[..], t, |t|)
    ensures Reached(have128, s, t, |t|, result.limbs[..], borrow)
  {
    borrow := 0;
    ReachedNothing(have128, s, t, result.limbs[..]);
    for i := 0 to b.len
      invariant borrow <= 1 && Unread(a.limbs[..], s, i) && Unread(b.limbs[..], t, i)
      invariant Reached(have128, s, t, i, result.limbs[..], borrow)
    {
      borrow := SubtractBothLimbs(have128, a, b, result, i, borrow, s, t);
    }
  }

  /** The borrow through the rest of the minuend. */
  method BorrowUp(have128: bool, a: BigInt, b: BigInt, result: BigInt, borrow0: u64,
                  ghost s: seq<u64>, ghost t: seq<u64>) returns (borrow: u64)
    requires a.limbs.Length == result.limbs.Length && b.len == |t| <= |s| == a.len && borrow0 <= 1
    requires Unread(a.limbs[..], s, |t|) && Unread(b.limbs[..], t, |t|)
    requires Reached(have128, s, t, |t|, result.limbs[..], borrow0)
    modifies result.limbs
    ensures Reached(have128, s, t, |s|, result.limbs[..], borrow)
  {
    borrow := borrow0;
    for i := b.len to a.len
      invariant borrow <= 1 && Unread(a.limbs[..], s, i) && Unread(b.limbs[..], t, i)
      invariant Reached(have128, s, t, i, result.limbs[..], borrow)
    {
      borrow := SubtractOneLimb(have128, a, b, result, i, borrow, s, t);
    }
  }

  /** bigint_sub_magnitude: the shared limbs, then the borrow; the result may be either operand. */
  method SubMagnitude(have128: bool, a: BigInt, b: BigInt, result: BigInt) returns (newLen: nat)
    requires a.Valid() && b.Valid() && result.Valid()
    requires a.limbs.Length == b.limbs.Length == result.limbs.Length
    requires b.len <= a.len && a.Magnitude() >= b.Magnitude()
    modifies result.limbs
    ensures 1 <= newLen <= result.limbs.Length
    ensures result.limbs[..newLen] == old(Subtract(have128, a.limbs[..a.len], b.limbs[..b.len]).limbs)
    ensures Val(result.limbs[..newLen]) == old(a.Magnitude()) - old(b.Magnitude()) <==>
            have128 || !old(LosesBorrow(a.limbs[..a.len], b.limbs[..b.len]))
  {
    ghost var s, t := a.limbs[..a.len], b.limbs[..b.len];
    var borrow := SubtractShared(have128, a, b, result, s, t);
    borrow := BorrowUp(have128, a, b, result, borrow, s, t);
    ReachedAll(have128, s, t, result.limbs[..], borrow);
    SubtractExactIff(have128, s, t);
    assert result.limbs[..][..a.len] == result.limbs[..a.len];
    return a.len;
  }

  // ---- signed numbers ----

  /** Normalised, the value is the sign and the value of the limbs in use. */
  method SetSigned(result: BigInt, newLen: nat, negative: bool)
    requires 1 <= newLen <= result.limbs.Length
    modifies result
    ensures result.Valid() && result.Normal() && Value(result) == Signed(Val(result.limbs[..newLen]), negative)
    ensures unchanged(result.limbs)
  {
    result.len := newLen;
    result.negative := negative;
    result.Normalize();
  }

  /** A larger magnitude does not have fewer limbs. */
  lemma LargerIsNotShorter(a: BigInt, b: BigInt)
    requires a.Valid() && b.Valid() && b.Normal() && a.Magnitude() >= b.Magnitude()
    ensures b.len <= a.len
  {
    if b.len > a.len { LongerIsLarger(b.limbs[..b.len], a.limbs[..a.len]); }
  }

  /** The path taken, or the operands, let no borrow get lost in the difference of the two magnitudes. */
  ghost predicate KeepsBorrows(have128: bool, s: seq<u64>, t: seq<u64>) {
    have128 || !(if Val(s) >= Val(t) then LosesBorrow(s, t) else LosesBorrow(t, s))
  }

  lemma SignedEqual(x: int, y: int, negative: bool)
    ensures Signed(x, negative) == Signed(y, negative) <==> x == y
  {}

  /** The case of different signs: the smaller magnitude from the larger, with the larger one's sign. */
  method AddOpposite(have128: bool, a: BigInt, b: BigInt, result: BigInt)
    requires a.Valid() && b.Valid() && result.Valid() && a.Normal() && b.Normal() && a.negative != b.negative
    requires a.limbs.Length == b.limbs.Length == result.limbs.Length
    modifies result, result.limbs
    ensures result.Valid() && result.Normal()
    ensures Value(result) == old(Value(a)) + old(Value(b)) <==>
            old(KeepsBorrows(have128, a.limbs[..a.len], b.limbs[..b.len]))
  {
    var newLen: nat;
    var cmp := CompareMagnitude(a, b);
    var negative := if cmp >= 0 then a.negative else b.negative;
    ghost var exact: int := if cmp >= 0 then a.Magnitude() - b.Magnitude() else b.Magnitude() - a.Magnitude();
    if cmp >= 0 {
      LargerIsNotShorter(a, b);
      newLen := SubMagnitude(have128, a, b, result);
    } else {
      LargerIsNotShorter(b, a);
      newLen := SubMagnitude(have128, b, a, result);
    }
    SignedEqual(Val(result.limbs[..newLen]), exact, negative);
    SetSigned(result, newLen, negative);
  }

  /** bigint_add, also when the result is an operand: the exact sum while it fits the capacity, and for different
      signs exactly when no borrow gets lost. */
  method Add(have128: bool, a: BigInt, b: BigInt, result: BigInt)
    requires a.Valid() && b.Valid() && result.Valid() && a.Normal() && b.Normal()
    requires a.limbs.Length == b.limbs.Length == result.limbs.Length
    requires a.negative == b.negative ==> a.Magnitude() + b.Magnitude() < Pow(BASE, result.limbs.Length)
    modifies result, result.limbs
    ensures result.Valid() && result.Normal()
    ensures Value(result) == old(Value(a)) + old(Value(b)) <==>
            old(a.negative == b.negative || KeepsBorrows(have128, a.limbs[..a.len], b.limbs[..b.len]))
  {
    if a.negative == b.negative {
      var negative := a.negative;
      var newLen := AddMagnitude(have128, a, b, result);
      SetSigned(result, newLen, negative);
    } else {
      AddOpposite(have128, a, b, result);
    }
  }

  /** The sign of the negated number. */
  predicate NegatedSign(b: BigInt)
    requires b.Valid()
    reads b, b.limbs
  {
    !b.IsZero() && !b.negative
  }

  /** A copy with the sign turned. */
  method Negated(b: BigInt) returns (r: BigInt)
    requires b.Valid() && b.Normal()
    ensures fresh(r) && fresh(r.limbs) && r.Valid() && r.Normal() && r.limbs.Length == b.limbs.Length
    ensures Value(r) == -Value(b) && r.limbs[..r.len] == b.limbs[..b.len] && r.negative == NegatedSign(b)
  {
    r := new BigInt(b.limbs.Length);
    r.CopyFrom(b);
    ghost var m := r.Magnitude();
    ZeroIff(b.limbs[..b.len]);
    r.negative := NegatedSign(b);
    assert r.Magnitude() == m;
  }

  /** bigint_sub: a plus the negated b. */
  method Sub(have128: bool, a: BigInt, b: BigInt, result: BigInt)
    requires a.Valid() && b.Valid() && result.Valid() && a.Normal() && b.Normal()
    requires a.limbs.Length == b.limbs.Length == result.limbs.Length
    requires a.negative == NegatedSign(b) ==> a.Magnitude() + b.Magnitude() < Pow(BASE, result.limbs.Length)
    modifies result, result.limbs
    ensures result.Valid() && result.Normal()
    ensures Value(result) == old(Value(a)) - old(Value(b)) <==>
            old(a.negative == NegatedSign(b) || KeepsBorrows(have128, a.limbs[..a.len], b.limbs[..b.len]))
  {
    var negB := Negated(b);
    Add(have128, a, negB, result);
  }
}
