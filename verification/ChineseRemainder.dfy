/** chinese_remainder: success exactly for pairwise coprime moduli, and the unique solution. */
module ChineseRemainder {
  import opened Words
  import opened Arithmetic
  import opened Divisibility
  import BinaryGcd
  import Bezout

  function Product(s: seq<nat>): (p: nat)
    ensures (forall i :: 0 <= i < |s| ==> s[i] > 0) ==> p > 0
  {
    if s == [] then 1 else Product(s[..|s| - 1]) * s[|s| - 1]
  }

  ghost predicate PairwiseCoprime(s: seq<nat>) {
    forall i, j :: 0 <= i < j < |s| ==> Coprime(s[i], s[j])
  }

  /** x answers the whole system. */
  ghost predicate Solves(x: nat, r: seq<nat>, m: seq<nat>)
    requires |r| == |m| && forall i :: 0 <= i < |m| ==> m[i] > 0
  {
    forall i :: 0 <= i < |m| ==> Congruent(x, r[i], m[i])
  }

  /** The operands for which no product wraps. */
  ghost predicate Fits(m: seq<nat>) {
    && Product(m) < TWO_64
    && forall i :: 1 <= i < |m| ==> m[i] <= TWO_32
  }

  lemma ProductPrefix(s: seq<nat>, i: nat)
    requires i < |s|
    ensures Product(s[..i + 1]) == Product(s[..i]) * s[i]
  {
    assert s[..i + 1][..i] == s[..i];
  }

  lemma {:induction false} PrefixBelow(s: seq<nat>, i: nat)
    requires i <= |s| && forall k :: 0 <= k < |s| ==> s[k] > 0
    ensures Product(s[..i]) <= Product(s)
    decreases |s| - i
  {
    if i == |s| {
      assert s[..i] == s;
    } else {
      ProductPrefix(s, i);
      PrefixBelow(s, i + 1);
      MulLe(1, s[i], Product(s[..i]));
    }
  }

  /** Coprime to a product is coprime to every factor. */
  lemma {:induction false} CoprimeToProduct(s: seq<nat>, m: nat)
    ensures Coprime(m, Product(s)) <==> forall i :: 0 <= i < |s| ==> Coprime(m, s[i])
  {
    if s == [] {
      assert Gcd(m, 1) == Gcd(1, m % 1) == 1;
    } else {
      var t := s[..|s| - 1];
      CoprimeToProduct(t, m);
      CoprimeMul(m, Product(t), s[|s| - 1]);
      assert forall i :: 0 <= i < |t| ==> t[i] == s[i];
    }
  }

  lemma {:induction false} FactorDivides(s: seq<nat>, i: nat)
    requires i < |s|
    ensures Divides(s[i], Product(s))
  {
    var t := s[..|s| - 1];
    if i == |s| - 1 {
      DividesFrom(s[i], Product(s), Product(t));
    } else {
      FactorDivides(t, i);
      DividesMul(s[i], Product(t), s[|s| - 1]);
    }
  }

  /** Pairwise coprime moduli dividing n: so does their product. */
  lemma {:induction false} ProductDivides(s: seq<nat>, n: int)
    requires PairwiseCoprime(s) && forall i :: 0 <= i < |s| ==> Divides(s[i], n)
    ensures Divides(Product(s), n)
  {
    if s == [] {
      DividesFrom(1, n, n);
    } else {
      var t, last := s[..|s| - 1], s[|s| - 1];
      assert forall i :: 0 <= i < |t| ==> t[i] == s[i];
      ProductDivides(t, n);
      forall i | 0 <= i < |t| ensures Coprime(last, t[i]) {
        assert Coprime(s[i], s[|s| - 1]);
        GcdSymmetric(s[i], last);
      }
      CoprimeToProduct(t, last);
      GcdSymmetric(last, Product(t));
      CoprimeProductDivides(Product(t), last, n);
    }
  }

  /** Below the product there is at most one solution. */
  lemma SolutionUnique(x: nat, y: nat, r: seq<nat>, m: seq<nat>)
    requires |r| == |m| && (forall i :: 0 <= i < |m| ==> m[i] > 0) && PairwiseCoprime(m)
    requires Solves(x, r, m) && Solves(y, r, m) && x < Product(m) && y < Product(m)
    ensures x == y
  {
    forall i | 0 <= i < |m| ensures Divides(m[i], x - y) && Divides(m[i], y - x) {
      assert Congruent(x, r[i], m[i]) && Congruent(y, r[i], m[i]);
      var k := CongruentWitness(x, y, m[i]);
      DividesFrom(m[i], x - y, k);
      assert y - x == (-k) * m[i];
      DividesFrom(m[i], y - x, -k);
    }
    ProductDivides(m, x - y);
    ProductDivides(m, y - x);
    if x > y { DividesLe(Product(m), x - y); }
    if y > x { DividesLe(Product(m), y - x); }
  }

  // ---- folding in one equation ----

  /** The k of the source makes x + M * k right modulo mi. */
  lemma FoldCongruence(x: nat, M: nat, mi: nat, ri: nat, inv: nat, diff: nat, k: nat)
    requires mi > 1 && ri < mi && Congruent(diff, ri - x, mi)
    requires (M % mi * inv) % mi == 1 && k == (diff % mi) * inv % mi
    ensures Congruent(x + M * k, ri, mi)
  {
    CongruentSelf(diff, mi);
    CongruentSelf((diff % mi) * inv, mi);
    CongruentMul(diff % mi, diff, inv, inv, mi);
    CongruentMul(M, M, k, diff * inv, mi);
    CongruentSelf(M, mi);
    CongruentMul(M % mi, M, inv, inv, mi);
    DivModUnique(1, mi, 0, 1);
    CongruentMul(M * inv, 1, diff, diff, mi);
    assert M * (diff * inv) == M * inv * diff by {
      MulAssociative(M, inv, diff);
      assert diff * inv == inv * diff;
    }
    CongruentAdd(x, x, M * k, diff, mi);
    CongruentAdd(x, x, diff, ri - x, mi);
  }

  lemma FoldKeeps(x: nat, M: nat, k: nat, m: nat, r: int)
    requires m > 0 && Divides(m, M) && Congruent(x, r, m)
    ensures Congruent(x + M * k, r, m)
  {
    var q := DividesWitness(m, M);
    assert x + M * k == x + (q * k) * m;
    CongruentFrom(x + M * k, x, m, q * k);
  }

  lemma FoldBelow(x: nat, M: nat, k: nat, mi: nat)
    requires x < M && k < mi
    ensures x + M * k < M * mi
    ensures forall step: nat :: step <= k ==> 0 <= x + M * step <= x + M * k
  {
    assert M * (k + 1) == M * k + M;
    MulLe(k + 1, mi, M);
    forall step: nat | step <= k ensures 0 <= x + M * step <= x + M * k {
      MulLe(step, k, M);
    }
  }

  lemma DifferenceCongruent(ri: nat, x: nat, mi: nat)
    requires mi > 0 && ri < mi
    ensures var diff := if ri >= x % mi then ri - x % mi else mi - x % mi + ri;
            0 <= diff < mi && diff % mi == diff && Congruent(diff, ri - x, mi)
  {
    CongruentSelf(x, mi);
    CongruentAdd(ri, ri, x % mi, x, mi);
    var diff := if ri >= x % mi then ri - x % mi else mi - x % mi + ri;
    CongruentFrom(diff, ri - x % mi, mi, if ri >= x % mi then 0 else 1);
    DivModUnique(diff, mi, 0, diff);
  }

  lemma CoprimeResidue(M: nat, mi: nat)
    requires mi > 0
    ensures Coprime(M % mi, mi) <==> Coprime(M, mi)
  {
    GcdSymmetric(M % mi, mi);
    assert Gcd(M, mi) == Gcd(mi, M % mi);
  }

  /** The solution so far covers the first i equations. */
  ghost predicate Folded(x: int, M: int, r: seq<nat>, m: seq<nat>, i: nat)
    requires |r| == |m| && i <= |m| && forall j :: 0 <= j < |m| ==> m[j] > 0
  {
    && M == Product(m[..i]) && 0 <= x < M
    && Solves(x, r[..i], m[..i])
    && PairwiseCoprime(m[..i]) && forall j :: 1 <= j < i ==> m[j] >= 2
  }

  lemma PairwiseExtends(m: seq<nat>, i: nat)
    requires i < |m| && PairwiseCoprime(m[..i])
    ensures PairwiseCoprime(m[..i + 1]) <==> Coprime(Product(m[..i]), m[i])
  {
    var s := m[..i];
    GcdSymmetric(Product(s), m[i]);
    CoprimeToProduct(s, m[i]);
    forall j | 0 <= j < i ensures Coprime(m[i], s[j]) <==> Coprime(m[j], m[i]) {
      GcdSymmetric(m[i], m[j]);
    }
    if PairwiseCoprime(m[..i + 1]) {
      forall j | 0 <= j < i ensures Coprime(m[j], m[i]) {
        assert m[..i + 1][j] == m[j] && m[..i + 1][i] == m[i];
      }
    }
  }

  lemma FoldStep(x: nat, M: nat, r: seq<nat>, m: seq<nat>, i: nat, inv: nat, diff: nat, k: nat)
    requires |r| == |m| && i < |m| && forall j :: 0 <= j < |m| ==> m[j] > 0
    requires Folded(x, M, r, m, i) && m[i] > 1 && Coprime(M, m[i])
    requires Congruent(diff, r[i] % m[i] - x, m[i])
    requires (M % m[i] * inv) % m[i] == 1 && k == (diff % m[i]) * inv % m[i]
    ensures Folded(x + M * k, M * m[i], r, m, i + 1)
  {
    CongruentSelf(r[i], m[i]);
    CongruentSelf((diff % m[i]) * inv, m[i]);
    FoldCongruence(x, M, m[i], r[i] % m[i], inv, diff, k);
    FoldBelow(x, M, k, m[i]);
    ProductPrefix(m, i);
    PairwiseExtends(m, i);
    var x', m', r' := x + M * k, m[..i + 1], r[..i + 1];
    forall j | 0 <= j < i + 1 ensures Congruent(x', r'[j], m'[j]) {
      if j < i {
        assert m[..i][j] == m'[j] && r[..i][j] == r'[j];
        assert Congruent(x, r[..i][j], m[..i][j]);
        FactorDivides(m[..i], j);
        FoldKeeps(x, M, k, m[j], r[j]);
      }
    }
  }

  /** Failing on a later equation means the moduli were not pairwise coprime. */
  lemma FailureIsReal(m: seq<nat>, i: nat)
    requires i < |m| && PairwiseCoprime(m[..i]) && !Coprime(Product(m[..i]), m[i])
    ensures !PairwiseCoprime(m)
  {
    PairwiseExtends(m, i);
    var a, b :| 0 <= a < b < i + 1 && !Coprime(m[..i + 1][a], m[..i + 1][b]);
    assert m[..i + 1][a] == m[a] && m[..i + 1][b] == m[b];
  }

  /** `for (step = 0; step < k; step++) x += M;` */
  method AddRepeatedly(x0: u64, M: u64, k: u64) returns (x: u64)
    ensures x0 + M * k < TWO_64 ==> x == x0 + M * k
  {
    x := x0;
    var step := 0;
    while step < k
      invariant 0 <= step <= k
      invariant x0 + M * k < TWO_64 ==> x == x0 + M * step
    {
      MulLe(step + 1, k, M);
      assert (step + 1) * M == M * step + M;
      if x0 + M * k < TWO_64 { WrapSmall(x + M); }
      x := Wrap64(x + M);
      step := step + 1;
    }
  }

  function Residue(x: u64, M: u64): (r: u64)
    requires M > 0
    ensures r == x % M && r < M
  {
    CongruentSelf(x, M);
    x % M
  }

  lemma SmallProduct(a: nat, b: nat)
    requires a < TWO_32 && b < TWO_32
    ensures Wrap64(a * b) == a * b
  {
    var p: int := a * b;
    MulLe(a, TWO_32, b);
    assert 0 <= p by { MulLe(0, a, b); }
    assert p <= TWO_32 * b < TWO_32 * TWO_32 == TWO_64;
    WrapSmall(p);
  }

  /** What one iteration establishes when nothing wraps. */
  lemma IterationFits(x: u64, M: u64, r: seq<u64>, m: seq<u64>, i: nat, inv: u64, diff: u64, k: u64)
    requires |r| == |m| && 1 <= i < |m| && forall j :: 0 <= j < |m| ==> m[j] > 0
    requires Fits(m) && Folded(x, M, r, m, i) && m[i] > 1 && Coprime(M, m[i])
    requires diff < m[i] && inv < m[i] && diff % m[i] == diff && Congruent(diff, r[i] % m[i] - x, m[i])
    requires (M % m[i] * inv) % m[i] == 1 && k == Wrap64(diff * inv) % m[i]
    ensures x + M * k < Wrap64(M * m[i]) && Wrap64(M * m[i]) == M * m[i]
    ensures Folded(x + M * k, M * m[i], r, m, i + 1)
  {
    SmallProduct(diff, inv);
    FoldStep(x, M, r, m, i, inv, diff, k);
    ProductPrefix(m, i);
    PrefixBelow(m, i + 1);
    WrapSmall(M * m[i]);
  }

  /** Within the word size, success means exactly that the moduli are pairwise coprime and none after the first is 1
      (for which mod_inverse refuses), and the answer solves the system below the product. */
  method ChineseRemainder(r: seq<u64>, m: seq<u64>) returns (ok: bool, result: u64)
    requires |r| == |m| && forall i :: 0 <= i < |m| ==> m[i] > 0
    ensures |m| == 0 || |m| > 8 ==> !ok
    ensures 1 <= |m| <= 8 && Fits(m) ==>
      (ok <==> PairwiseCoprime(m) && forall i :: 1 <= i < |m| ==> m[i] >= 2)
    ensures ok && Fits(m) ==> result < Product(m) && Solves(result, r, m)
  {
    result := 0;
    if |m| == 0 || |m| > 8 { return false, 0; }
    var x: u64 := Residue(r[0], m[0]);
    var M: u64 := m[0];
    ghost var fits := Fits(m);
    FirstEquation(r, m);
    var i := 1;
    while i < |m|
      invariant 1 <= i <= |m|
      invariant fits ==> Folded(x, M, r, m, i)
    {
      var mi := m[i];
      var ri := Residue(r[i], mi);
      var g := BinaryGcd.BinaryGcd(M, mi);
      if g != 1 {
        if fits { FailureIsReal(m, i); }
        return false, 0;
      }
      CoprimeResidue(M, mi);
      var found, inv := Bezout.ModInverse(Residue(M, mi), mi);
      if !found { return false, 0; }
      var xMod := Residue(x, mi);
      DifferenceCongruent(ri, x, mi);
      var diff: u64 := if ri >= xMod then ri - xMod else mi - xMod + ri;
      var k := Residue(Wrap64(Residue(diff, mi) * inv), mi);
      if fits { IterationFits(x, M, r, m, i, inv, diff, k); }
      x := AddRepeatedly(x, M, k);
      M := Wrap64(M * mi);
      if M == 0 { return false, 0; }  // x %= M would divide by zero
      if fits { DivModUnique(x, M, 0, x); }
      x := Residue(x, M);
      i := i + 1;
    }
    assert m[..|m|] == m && r[..|m|] == r;
    return true, x;
  }

  lemma FirstEquation(r: seq<u64>, m: seq<u64>)
    requires |r| == |m| >= 1 && forall i :: 0 <= i < |m| ==> m[i] > 0
    ensures Folded(r[0] % m[0], m[0], r, m, 1)
  {
    ProductPrefix(m, 0);
    CongruentSelf(r[0], m[0]);
  }
}
