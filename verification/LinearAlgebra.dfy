/** LU factorisation with partial pivoting and the linear solver built on it, over exact reals. */
module LinearAlgebra {

  import opened Common

  const MAX_MATRIX_DIM: nat := 8
  const THRESHOLD: real := 0.000000000001

  type Matrix = seq<seq<real>>

  function Abs(x: real): (r: real)
    ensures r >= 0.0 && (r == x || r == -x)
  {
    if x < 0.0 then -x else x
  }

  function At(m: Matrix, r: int, c: int): real {
    if 0 <= r < |m| && 0 <= c < |m[r]| then m[r][c] else 0.0
  }

  function Coordinate(x: seq<real>, c: int): real {
    if 0 <= c < |x| then x[c] else 0.0
  }

  /** Row r of m times x, over the columns in [lo, hi). */
  function RowTimes(m: Matrix, r: int, x: seq<real>, lo: int, hi: int): real
    decreases hi - lo
  {
    if hi <= lo then 0.0 else RowTimes(m, r, x, lo, hi - 1) + At(m, r, hi - 1) * Coordinate(x, hi - 1)
  }

  /** Entry (r, c) of l times u, over the first n terms. */
  function Product(l: Matrix, u: Matrix, r: int, c: int, n: nat): real {
    if n == 0 then 0.0 else Product(l, u, r, c, n - 1) + At(l, r, n - 1) * At(u, n - 1, c)
  }

  /** p lists every row number below n exactly once. */
  ghost predicate IsPermutation(p: seq<nat>, n: nat) {
    && |p| == n
    && (forall i :: 0 <= i < n ==> p[i] < n)
    && (forall i, j :: 0 <= i < j < n ==> p[i] != p[j])
    && (forall q :: 0 <= q < n ==> q in p)
  }

  // ---- what elimination keeps ----

  /** Row r of the reduced matrix plus the multiples subtracted from it is row p[r] of the original. */
  ghost predicate Restores(a: Matrix, l: Matrix, u: Matrix, p: seq<nat>, n: nat, i: int)
    requires |p| == n && i >= 0
  {
    forall r, c :: 0 <= r < n && 0 <= c < n ==> At(a, p[r], c) == Product(l, u, r, c, Min(r, i)) + At(u, r, c)
  }

  /** The first i columns of u are zero below the diagonal, and their diagonal entries are usable pivots. */
  ghost predicate Reduced(u: Matrix, n: nat, i: int) {
    && (forall r, c :: 0 <= c < r < n && c < i ==> At(u, r, c) == 0.0)
    && (forall k :: 0 <= k < i && k < n ==> Abs(At(u, k, k)) >= THRESHOLD)
  }

  /** l is unit lower triangular, holds multipliers in its first i columns only, and none exceeds 1. */
  ghost predicate Multipliers(l: Matrix, n: nat, i: int) {
    && (forall r, c :: 0 <= r < n && 0 <= c < n && c > r ==> At(l, r, c) == 0.0)
    && (forall r :: 0 <= r < n ==> At(l, r, r) == 1.0)
    && (forall r, c :: 0 <= c < r < n && c >= i ==> At(l, r, c) == 0.0)
    && (forall r, c :: 0 <= c < r < n ==> Abs(At(l, r, c)) <= 1.0)
  }

  /** The state before column i is eliminated. */
  ghost predicate Stage(a: Matrix, l: Matrix, u: Matrix, p: seq<nat>, n: nat, i: int) {
    0 <= i <= n && IsPermutation(p, n) && Restores(a, l, u, p, n, i) && Reduced(u, n, i) && Multipliers(l, n, i)
  }

  lemma {:induction false} ProductAgrees(l: Matrix, u: Matrix, r: int, l1: Matrix, u1: Matrix, r1: int, c: int, n: nat)
    requires forall k :: 0 <= k < n ==> At(l, r, k) == At(l1, r1, k) && At(u, k, c) == At(u1, k, c)
    ensures Product(l, u, r, c, n) == Product(l1, u1, r1, c, n)
  {
    if n > 0 {
      ProductAgrees(l, u, r, l1, u1, r1, c, n - 1);
      assert At(l, r, n - 1) == At(l1, r1, n - 1) && At(u, n - 1, c) == At(u1, n - 1, c);
    }
  }

  /** The row an exchange of i and j brings to r. */
  function Exchanged(r: int, i: int, j: int): int {
    if r == i then j else if r == j then i else r
  }

  /** m1 is m with the first `width` entries of rows i and j exchanged. */
  ghost predicate RowsExchanged(m: Matrix, m1: Matrix, i: int, j: int, n: nat, width: int) {
    forall r, c :: 0 <= r < n && 0 <= c < n ==> At(m1, r, c) == At(m, if c < width then Exchanged(r, i, j) else r, c)
  }

  lemma ExchangeKeepsPermutation(p: seq<nat>, n: nat, i: nat, j: nat)
    requires IsPermutation(p, n) && i < n && j < n
    ensures IsPermutation(p[i := p[j]][j := p[i]], n)
  {
    var p1 := p[i := p[j]][j := p[i]];
    assert forall r :: 0 <= r < n ==> p1[r] == p[Exchanged(r, i, j)];
    forall q | 0 <= q < n ensures q in p1 {
      assert q in p;
      var k :| 0 <= k < n && p[k] == q;
      assert p1[Exchanged(k, i, j)] == q;
    }
  }

  lemma ExchangeKeepsRestores(a: Matrix, l: Matrix, u: Matrix, p: seq<nat>, l1: Matrix, u1: Matrix, p1: seq<nat>,
                              n: nat, i: nat, j: nat)
    requires |p| == n && |p1| == n && Restores(a, l, u, p, n, i) && i < j < n
    requires forall r :: 0 <= r < n ==> p1[r] == p[Exchanged(r, i, j)]
    requires RowsExchanged(l, l1, i, j, n, i) && RowsExchanged(u, u1, i, j, n, n)
    ensures Restores(a, l1, u1, p1, n, i)
  {
    forall r, c | 0 <= r < n && 0 <= c < n
      ensures At(a, p1[r], c) == Product(l1, u1, r, c, Min(r, i)) + At(u1, r, c)
    {
      var q := Exchanged(r, i, j);
      assert Min(r, i) == Min(q, i);
      forall k | 0 <= k < Min(r, i) ensures At(l, q, k) == At(l1, r, k) && At(u, k, c) == At(u1, k, c) {
        assert Exchanged(k, i, j) == k;
      }
      ProductAgrees(l, u, q, l1, u1, r, c, Min(r, i));
    }
  }

  lemma ExchangeKeepsReduced(u: Matrix, u1: Matrix, n: nat, i: nat, j: nat)
    requires Reduced(u, n, i) && i < j < n && RowsExchanged(u, u1, i, j, n, n)
    ensures Reduced(u1, n, i)
  {
    forall r, c | 0 <= c < r < n && c < i ensures At(u1, r, c) == 0.0 {
      assert At(u, Exchanged(r, i, j), c) == 0.0;
    }
    forall k | 0 <= k < i ensures Abs(At(u1, k, k)) >= THRESHOLD {
      assert Exchanged(k, i, j) == k && At(u1, k, k) == At(u, k, k);
    }
  }

  lemma ExchangeKeepsMultipliers(l: Matrix, l1: Matrix, n: nat, i: nat, j: nat)
    requires Multipliers(l, n, i) && i < j < n && RowsExchanged(l, l1, i, j, n, i)
    ensures Multipliers(l1, n, i)
  {
    forall r, c | 0 <= c < r < n ensures Abs(At(l1, r, c)) <= 1.0 && (c >= i ==> At(l1, r, c) == 0.0) {
      assert At(l1, r, c) == At(l, if c < i then Exchanged(r, i, j) else r, c);
    }
    forall r, c | 0 <= r < n && 0 <= c < n && c > r ensures At(l1, r, c) == 0.0 {
      assert At(l1, r, c) == At(l, if c < i then Exchanged(r, i, j) else r, c);
    }
  }

  lemma ExchangeKeepsStage(a: Matrix, l: Matrix, u: Matrix, p: seq<nat>, l1: Matrix, u1: Matrix, p1: seq<nat>,
                           n: nat, i: nat, j: nat)
    requires Stage(a, l, u, p, n, i) && i < j < n && p1 == p[i := p[j]][j := p[i]]
    requires RowsExchanged(l, l1, i, j, n, i) && RowsExchanged(u, u1, i, j, n, n)
    ensures Stage(a, l1, u1, p1, n, i)
  {
    ExchangeKeepsPermutation(p, n, i, j);
    ExchangeKeepsRestores(a, l, u, p, l1, u1, p1, n, i, j);
    ExchangeKeepsReduced(u, u1, n, i, j);
    ExchangeKeepsMultipliers(l, l1, n, i, j);
  }

  /** Entry (r, c) once the rows in (i, last) have had their multiple of row i subtracted. */
  function EliminatedEntry(u: Matrix, i: int, last: int, r: int, c: int): real
    requires At(u, i, i) != 0.0
  {
    if i < r < last && c == i then 0.0
    else if i < r < last && c > i then At(u, r, c) - At(u, r, i) / At(u, i, i) * At(u, i, c)
    else At(u, r, c)
  }

  /** Entry (r, c) of the multipliers once the rows in (i, last) are eliminated. */
  function MultiplierEntry(l: Matrix, u: Matrix, i: int, last: int, r: int, c: int): real
    requires At(u, i, i) != 0.0
  {
    if i < r < last && c == i then At(u, r, i) / At(u, i, i) else At(l, r, c)
  }

  ghost predicate ColumnEliminated(l: Matrix, u: Matrix, l1: Matrix, u1: Matrix, n: nat, i: int, last: int)
    requires At(u, i, i) != 0.0
  {
    forall r, c :: 0 <= r < n && 0 <= c < n ==>
      At(u1, r, c) == EliminatedEntry(u, i, last, r, c) && At(l1, r, c) == MultiplierEntry(l, u, i, last, r, c)
  }

  lemma Quotient(x: real, d: real)
    requires d != 0.0
    ensures x / d * d == x
    ensures Abs(x) <= Abs(d) ==> Abs(x / d) <= 1.0
  {
    var q := x / d;
    assert q * d == x;
    if Abs(q) > 1.0 {
      if q > 1.0 { QuotientLarge(q, d); } else { QuotientLarge(-q, d); assert -q * d == -x; }
    }
  }

  lemma QuotientLarge(q: real, d: real)
    requires q > 1.0 && d != 0.0
    ensures Abs(q * d) > Abs(d)
  {
    if d > 0.0 { assert (q - 1.0) * d > 0.0; } else { assert (q - 1.0) * -d > 0.0; }
  }

  /** The product with one more term makes up for what elimination took from entry (r, c) of a row below i. */
  lemma EntryBalanced(l: Matrix, u: Matrix, l1: Matrix, u1: Matrix, i: int, n: int, r: int, c: int)
    requires At(u, i, i) != 0.0 && 0 <= i < r < n && (c < i ==> At(u, i, c) == 0.0)
    requires At(u1, r, c) == EliminatedEntry(u, i, n, r, c) && At(u1, i, c) == At(u, i, c)
    requires At(l1, r, i) == MultiplierEntry(l, u, i, n, r, i)
    ensures At(l1, r, i) * At(u1, i, c) + At(u1, r, c) == At(u, r, c)
  {
    Quotient(At(u, r, i), At(u, i, i));
  }

  lemma EntryRestored(l: Matrix, u: Matrix, l1: Matrix, u1: Matrix, n: nat, i: nat, r: nat, c: nat)
    requires i < n && r < n && c < n && At(u, i, i) != 0.0 && (c < i ==> At(u, i, c) == 0.0)
    requires ColumnEliminated(l, u, l1, u1, n, i, n)
    ensures Product(l1, u1, r, c, Min(r, i + 1)) + At(u1, r, c) == Product(l, u, r, c, Min(r, i)) + At(u, r, c)
  {
    assert At(u1, i, c) == EliminatedEntry(u, i, n, i, c) == At(u, i, c);
    assert At(u1, r, c) == EliminatedEntry(u, i, n, r, c);
    forall k | 0 <= k < Min(r, i) ensures At(l, r, k) == At(l1, r, k) && At(u, k, c) == At(u1, k, c) {
      assert At(l1, r, k) == MultiplierEntry(l, u, i, n, r, k);
      assert At(u1, k, c) == EliminatedEntry(u, i, n, k, c);
    }
    ProductAgrees(l, u, r, l1, u1, r, c, Min(r, i));
    if r > i {
      assert At(l1, r, i) == MultiplierEntry(l, u, i, n, r, i);
      EntryBalanced(l, u, l1, u1, i, n, r, c);
      assert Product(l1, u1, r, c, i + 1) == Product(l1, u1, r, c, i) + At(l1, r, i) * At(u1, i, c);
    }
  }

  lemma EliminationKeepsRestores(a: Matrix, l: Matrix, u: Matrix, p: seq<nat>, l1: Matrix, u1: Matrix, n: nat, i: nat)
    requires |p| == n && i < n && Restores(a, l, u, p, n, i) && Reduced(u, n, i) && At(u, i, i) != 0.0
    requires ColumnEliminated(l, u, l1, u1, n, i, n)
    ensures Restores(a, l1, u1, p, n, i + 1)
  {
    forall r, c | 0 <= r < n && 0 <= c < n
      ensures At(a, p[r], c) == Product(l1, u1, r, c, Min(r, i + 1)) + At(u1, r, c)
    {
      EntryRestored(l, u, l1, u1, n, i, r, c);
    }
  }

  lemma EliminationKeepsReduced(l: Matrix, u: Matrix, l1: Matrix, u1: Matrix, n: nat, i: nat)
    requires i < n && Reduced(u, n, i) && At(u, i, i) != 0.0 && Abs(At(u, i, i)) >= THRESHOLD
    requires ColumnEliminated(l, u, l1, u1, n, i, n)
    ensures Reduced(u1, n, i + 1)
  {
    forall r, c | 0 <= c < r < n && c < i + 1 ensures At(u1, r, c) == 0.0 {
      assert At(u1, r, c) == EliminatedEntry(u, i, n, r, c);
    }
    forall k | 0 <= k < i + 1 ensures Abs(At(u1, k, k)) >= THRESHOLD {
      assert At(u1, k, k) == EliminatedEntry(u, i, n, k, k);
    }
  }

  lemma EliminationKeepsMultipliers(l: Matrix, u: Matrix, l1: Matrix, u1: Matrix, n: nat, i: nat)
    requires i < n && Multipliers(l, n, i) && At(u, i, i) != 0.0
    requires forall r :: i < r < n ==> Abs(At(u, r, i)) <= Abs(At(u, i, i))
    requires ColumnEliminated(l, u, l1, u1, n, i, n)
    ensures Multipliers(l1, n, i + 1)
  {
    forall r, c | 0 <= r < n && 0 <= c < n
      ensures c > r ==> At(l1, r, c) == 0.0
      ensures c == r ==> At(l1, r, c) == 1.0
      ensures c < r && c >= i + 1 ==> At(l1, r, c) == 0.0
      ensures c < r ==> Abs(At(l1, r, c)) <= 1.0
    {
      assert At(l1, r, c) == MultiplierEntry(l, u, i, n, r, c);
      if i < r && c == i { Quotient(At(u, r, i), At(u, i, i)); }
    }
  }

  lemma EliminationKeepsStage(a: Matrix, l: Matrix, u: Matrix, p: seq<nat>, l1: Matrix, u1: Matrix, n: nat, i: nat)
    requires i < n && Stage(a, l, u, p, n, i) && At(u, i, i) != 0.0 && Abs(At(u, i, i)) >= THRESHOLD
    requires forall r :: i < r < n ==> Abs(At(u, r, i)) <= Abs(At(u, i, i))
    requires ColumnEliminated(l, u, l1, u1, n, i, n)
    ensures Stage(a, l1, u1, p, n, i + 1)
  {
    EliminationKeepsRestores(a, l, u, p, l1, u1, n, i);
    EliminationKeepsReduced(l, u, l1, u1, n, i);
    EliminationKeepsMultipliers(l, u, l1, u1, n, i);
  }

  // ---- what a finished factorisation means ----

  /** L times U is the row-permuted A. */
  ghost predicate Factors(a: Matrix, l: Matrix, u: Matrix, p: seq<nat>, n: nat)
    requires |p| == n
  {
    forall r, c :: 0 <= r < n && 0 <= c < n ==> At(a, p[r], c) == Product(l, u, r, c, n)
  }

  lemma {:induction false} ProductTail(l: Matrix, u: Matrix, n: nat, r: nat, c: nat, m: nat)
    requires Multipliers(l, n, n) && r < m <= n
    ensures Product(l, u, r, c, m) == Product(l, u, r, c, r) + At(u, r, c)
    decreases m
  {
    assert At(l, r, r) == 1.0;
    if m > r + 1 {
      ProductTail(l, u, n, r, c, m - 1);
      assert At(l, r, m - 1) == 0.0;
    }
  }

  lemma StageFactors(a: Matrix, l: Matrix, u: Matrix, p: seq<nat>, n: nat)
    requires Stage(a, l, u, p, n, n)
    ensures Factors(a, l, u, p, n)
  {
    forall r, c | 0 <= r < n && 0 <= c < n ensures At(a, p[r], c) == Product(l, u, r, c, n) {
      ProductTail(l, u, n, r, c, n);
    }
  }

  /** Row r of (the first k terms of l u) times x, and l's row times (u x): the order of summation does not matter. */
  function ProductTimes(l: Matrix, u: Matrix, r: int, x: seq<real>, k: nat, n: nat): real {
    if n == 0 then 0.0
    else ProductTimes(l, u, r, x, k, n - 1) + Product(l, u, r, n - 1, k) * Coordinate(x, n - 1)
  }

  lemma {:induction false} ProductTimesZero(l: Matrix, u: Matrix, r: int, x: seq<real>, n: nat)
    ensures ProductTimes(l, u, r, x, 0, n) == 0.0
  {
    if n > 0 { ProductTimesZero(l, u, r, x, n - 1); }
  }

  lemma TermSplit(s: real, w: real, x: real, f: real, v: real, t: real)
    ensures s + f * t + (w + f * v) * x == s + w * x + f * (t + v * x)
  {
    assert (w + f * v) * x == w * x + f * v * x;
    assert f * v * x == f * (v * x);
  }

  lemma {:induction false} ProductTimesStep(l: Matrix, u: Matrix, r: int, x: seq<real>, k: nat, n: nat)
    ensures ProductTimes(l, u, r, x, k + 1, n) ==
      ProductTimes(l, u, r, x, k, n) + At(l, r, k) * RowTimes(u, k, x, 0, n)
  {
    if n > 0 {
      ProductTimesStep(l, u, r, x, k, n - 1);
      TermSplit(ProductTimes(l, u, r, x, k, n - 1), Product(l, u, r, n - 1, k), Coordinate(x, n - 1), At(l, r, k),
                At(u, k, n - 1), RowTimes(u, k, x, 0, n - 1));
    }
  }

  /** The vector u x. */
  ghost predicate Image(u: Matrix, x: seq<real>, w: seq<real>, n: nat) {
    |w| == n && forall k :: 0 <= k < n ==> w[k] == RowTimes(u, k, x, 0, n)
  }

  lemma {:induction false} Interchange(l: Matrix, u: Matrix, r: int, x: seq<real>, w: seq<real>, k: nat, n: nat)
    requires Image(u, x, w, n) && k <= n
    ensures ProductTimes(l, u, r, x, k, n) == RowTimes(l, r, w, 0, k)
    decreases k
  {
    if k == 0 {
      ProductTimesZero(l, u, r, x, n);
    } else {
      Interchange(l, u, r, x, w, k - 1, n);
      ProductTimesStep(l, u, r, x, k - 1, n);
    }
  }

  lemma {:induction false} RowSplits(a: Matrix, q: int, l: Matrix, u: Matrix, r: int, k: nat, x: seq<real>, n: nat,
                                     m: nat)
    requires m <= n && forall c :: 0 <= c < n ==> At(a, q, c) == Product(l, u, r, c, k) + At(u, r, c)
    ensures RowTimes(a, q, x, 0, m) == ProductTimes(l, u, r, x, k, m) + RowTimes(u, r, x, 0, m)
    decreases m
  {
    if m > 0 {
      RowSplits(a, q, l, u, r, k, x, n, m - 1);
      assert At(a, q, m - 1) == Product(l, u, r, m - 1, k) + At(u, r, m - 1);
      TermSplit(0.0, Product(l, u, r, m - 1, k), Coordinate(x, m - 1), 1.0, At(u, r, m - 1), 0.0);
    }
  }

  /** Row p[r] of a times x, when the rows are restored from l and u. */
  lemma RestoredRow(a: Matrix, l: Matrix, u: Matrix, p: seq<nat>, n: nat, i: int, x: seq<real>, w: seq<real>, r: nat)
    requires |p| == n && 0 <= i && Restores(a, l, u, p, n, i) && Image(u, x, w, n) && r < n
    ensures RowTimes(a, p[r], x, 0, n) == RowTimes(l, r, w, 0, Min(r, i)) + w[r]
  {
    RowSplits(a, p[r], l, u, r, Min(r, i), x, n, n);
    Interchange(l, u, r, x, w, Min(r, i), n);
  }

  ghost predicate Solves(a: Matrix, x: seq<real>, b: seq<real>, n: nat) {
    |x| == n && |b| == n && forall q :: 0 <= q < n ==> RowTimes(a, q, x, 0, n) == b[q]
  }

  /** y solves l y = p b, row by row from the top; l has unit diagonal. */
  ghost predicate ForwardSolved(l: Matrix, b: seq<real>, p: seq<nat>, y: seq<real>, n: nat) {
    && |b| == n && |p| == n && |y| <= n && (forall r :: 0 <= r < n ==> p[r] < n)
    && forall r :: 0 <= r < |y| ==> y[r] == b[p[r]] - RowTimes(l, r, y, 0, r)
  }

  lemma {:induction false} RowTimesAgrees(m: Matrix, r: int, x: seq<real>, y: seq<real>, lo: int, hi: int)
    requires forall c :: lo <= c < hi ==> Coordinate(x, c) == Coordinate(y, c)
    ensures RowTimes(m, r, x, lo, hi) == RowTimes(m, r, y, lo, hi)
    decreases hi - lo
  {
    if lo < hi {
      RowTimesAgrees(m, r, x, y, lo, hi - 1);
      assert Coordinate(x, hi - 1) == Coordinate(y, hi - 1);
    }
  }

  lemma RowTimesNext(m: Matrix, r: int, x: seq<real>, lo: int, hi: int, entry: real, v: real, sum: real)
    requires lo <= hi && entry == At(m, r, hi) && v == Coordinate(x, hi) && sum == RowTimes(m, r, x, lo, hi)
    ensures sum + entry * v == RowTimes(m, r, x, lo, hi + 1)
  {}

  lemma ForwardExtends(l: Matrix, b: seq<real>, p: seq<nat>, y: seq<real>, n: nat, v: real)
    requires ForwardSolved(l, b, p, y, n) && |y| < n
    requires v == b[p[|y|]] - RowTimes(l, |y|, y, 0, |y|)
    ensures ForwardSolved(l, b, p, y + [v], n)
  {
    forall r | 0 <= r < |y| + 1 ensures (y + [v])[r] == b[p[r]] - RowTimes(l, r, y + [v], 0, r) {
      RowTimesAgrees(l, r, y, y + [v], 0, r);
    }
  }

  /** Row r of u x = y, solved for its diagonal term. */
  ghost predicate BackRow(u: Matrix, y: seq<real>, x: seq<real>, n: nat, r: int) {
    Coordinate(x, r) * At(u, r, r) == Coordinate(y, r) - RowTimes(u, r, x, r + 1, n)
  }

  /** The rows from i on are solved. */
  ghost predicate BackSolved(u: Matrix, y: seq<real>, x: seq<real>, n: nat, i: int) {
    |x| == n && |y| == n && forall r :: 0 <= i <= r < n ==> BackRow(u, y, x, n, r)
  }

  /** A change left of the columns a sum runs over. */
  lemma RowTimesUpdate(m: Matrix, r: int, x: seq<real>, i: int, v: real, lo: int, hi: int)
    requires 0 <= i < |x| && i < lo
    ensures RowTimes(m, r, x[i := v], lo, hi) == RowTimes(m, r, x, lo, hi)
  {
    RowTimesAgrees(m, r, x[i := v], x, lo, hi);
  }

  lemma BackRowKept(u: Matrix, y: seq<real>, x: seq<real>, n: nat, r: int, i: int, v: real)
    requires BackRow(u, y, x, n, r) && 0 <= i < r < |x|
    ensures BackRow(u, y, x[i := v], n, r)
  {
    RowTimesUpdate(u, r, x, i, v, r + 1, n);
    assert Coordinate(x[i := v], r) == Coordinate(x, r);
  }

  lemma BackRowSet(u: Matrix, y: seq<real>, x: seq<real>, n: nat, i: int, v: real)
    requires 0 <= i < |x| && v * At(u, i, i) == Coordinate(y, i) - RowTimes(u, i, x, i + 1, n)
    ensures BackRow(u, y, x[i := v], n, i)
  {
    RowTimesUpdate(u, i, x, i, v, i + 1, n);
    assert Coordinate(x[i := v], i) == v;
  }

  lemma BackExtends(u: Matrix, y: seq<real>, x: seq<real>, n: nat, i: nat, sum: real, v: real)
    requires i < n && BackSolved(u, y, x, n, i + 1) && At(u, i, i) != 0.0
    requires sum == RowTimes(u, i, x, i + 1, n) && v == (y[i] - sum) / At(u, i, i)
    ensures BackSolved(u, y, x[i := v], n, i)
  {
    Quotient(y[i] - sum, At(u, i, i));
    BackRowSet(u, y, x, n, i, v);
    var x1 := x[i := v];
    forall r | i <= r < n ensures BackRow(u, y, x1, n, r) {
      if r > i {
        assert BackRow(u, y, x, n, r);
        BackRowKept(u, y, x, n, r, i, v);
      }
    }
  }

  lemma {:induction false} RowTimesSplit(m: Matrix, r: int, x: seq<real>, lo: int, mid: int, hi: int)
    requires lo <= mid <= hi
    ensures RowTimes(m, r, x, lo, hi) == RowTimes(m, r, x, lo, mid) + RowTimes(m, r, x, mid, hi)
    decreases hi - mid
  {
    if mid < hi { RowTimesSplit(m, r, x, lo, mid, hi - 1); }
  }

  lemma {:induction false} RowTimesZero(m: Matrix, r: int, x: seq<real>, lo: int, hi: int)
    requires forall c :: lo <= c < hi ==> At(m, r, c) == 0.0 || Coordinate(x, c) == 0.0
    ensures RowTimes(m, r, x, lo, hi) == 0.0
    decreases hi - lo
  {
    if lo < hi {
      RowTimesZero(m, r, x, lo, hi - 1);
      assert At(m, r, hi - 1) == 0.0 || Coordinate(x, hi - 1) == 0.0;
    }
  }

  /** A row of an upper triangular matrix times x: its diagonal term and what is right of it. */
  lemma UpperRow(u: Matrix, x: seq<real>, n: nat, i: int, r: nat)
    requires Reduced(u, n, i) && r < n && r <= i && |x| == n
    ensures RowTimes(u, r, x, 0, n) == At(u, r, r) * x[r] + RowTimes(u, r, x, r + 1, n)
  {
    RowTimesSplit(u, r, x, 0, r, n);
    RowTimesSplit(u, r, x, r, r + 1, n);
    RowTimesZero(u, r, x, 0, r);
    assert RowTimes(u, r, x, r, r + 1) == RowTimes(u, r, x, r, r) + At(u, r, r) * Coordinate(x, r);
  }

  lemma BackSolvedImage(u: Matrix, y: seq<real>, x: seq<real>, n: nat)
    requires Reduced(u, n, n) && BackSolved(u, y, x, n, 0)
    ensures Image(u, x, y, n)
  {
    forall k | 0 <= k < n ensures y[k] == RowTimes(u, k, x, 0, n) {
      assert BackRow(u, y, x, n, k);
      UpperRow(u, x, n, n, k);
    }
  }

  lemma SolvedRow(a: Matrix, l: Matrix, u: Matrix, p: seq<nat>, n: nat, b: seq<real>, y: seq<real>, x: seq<real>,
                  r: nat)
    requires |p| == n && Restores(a, l, u, p, n, n) && ForwardSolved(l, b, p, y, n) && Image(u, x, y, n) && r < n
    ensures RowTimes(a, p[r], x, 0, n) == b[p[r]]
  {
    RestoredRow(a, l, u, p, n, n, x, y, r);
  }

  /** Forward then back substitution solves the original system. */
  lemma SubstitutionSolves(a: Matrix, l: Matrix, u: Matrix, p: seq<nat>, n: nat, b: seq<real>, y: seq<real>,
                           x: seq<real>)
    requires Stage(a, l, u, p, n, n) && ForwardSolved(l, b, p, y, n) && BackSolved(u, y, x, n, 0)
    ensures Solves(a, x, b, n)
  {
    BackSolvedImage(u, y, x, n);
    forall q | 0 <= q < n ensures RowTimes(a, q, x, 0, n) == b[q] {
      assert q in p;
      var r :| 0 <= r < n && p[r] == q;
      SolvedRow(a, l, u, p, n, b, y, x, r);
    }
  }

  function ImageOf(u: Matrix, x: seq<real>, n: nat): (w: seq<real>)
    ensures Image(u, x, w, n)
  {
    seq(n, k => RowTimes(u, k, x, 0, n))
  }

  /** What row r of a solution says about its image under u. */
  lemma ImageRow(a: Matrix, l: Matrix, u: Matrix, p: seq<nat>, n: nat, b: seq<real>, z: seq<real>, w: seq<real>, r: nat)
    requires Stage(a, l, u, p, n, n) && Solves(a, z, b, n) && Image(u, z, w, n) && r < n
    ensures w[r] == b[p[r]] - RowTimes(l, r, w, 0, r)
  {
    RestoredRow(a, l, u, p, n, n, z, w, r);
    assert p[r] < n;
  }

  lemma {:induction false} ForwardUnique(l: Matrix, b: seq<real>, p: seq<nat>, y: seq<real>, w: seq<real>, n: nat,
                                         k: nat)
    requires ForwardSolved(l, b, p, y, n) && ForwardSolved(l, b, p, w, n) && |y| == n && |w| == n && k <= n
    ensures forall c :: 0 <= c < k ==> w[c] == y[c]
    decreases k
  {
    if k > 0 {
      var r := k - 1;
      ForwardUnique(l, b, p, y, w, n, r);
      RowTimesAgrees(l, r, w, y, 0, r);
    }
  }

  lemma SameFactor(d: real, x: real, z: real)
    requires d != 0.0 && d * x == d * z
    ensures x == z
  {
    assert d * (x - z) == 0.0;
  }

  lemma SameTerm(d: real, rest: real, x: real, z: real, p: real, q: real)
    requires d != 0.0 && p == d * x + rest && q == d * z + rest && p == q
    ensures x == z
  {
    SameFactor(d, x, z);
  }

  lemma DiagonalTerm(u: Matrix, x: seq<real>, n: nat, r: nat, d: real, v: real, rest: real, p: real)
    requires Reduced(u, n, n) && |x| == n && r < n && d == At(u, r, r) && v == x[r]
    requires rest == RowTimes(u, r, x, r + 1, n) && p == RowTimes(u, r, x, 0, n)
    ensures p == d * v + rest && d != 0.0
  {
    UpperRow(u, x, n, n, r);
    assert Abs(d) >= THRESHOLD;
  }

  lemma TailsAgree(u: Matrix, n: nat, x: seq<real>, z: seq<real>, r: nat)
    requires |x| == n && |z| == n && forall c :: r < c < n ==> x[c] == z[c]
    ensures RowTimes(u, r, x, r + 1, n) == RowTimes(u, r, z, r + 1, n)
  {
    RowTimesAgrees(u, r, x, z, r + 1, n);
  }

  lemma BackRowUnique(u: Matrix, n: nat, x: seq<real>, z: seq<real>, r: nat)
    requires Reduced(u, n, n) && |x| == n && |z| == n && r < n
    requires RowTimes(u, r, x, 0, n) == RowTimes(u, r, z, 0, n)
    requires forall c :: r < c < n ==> x[c] == z[c]
    ensures x[r] == z[r]
  {
    var d, rest, p, v, w := At(u, r, r), RowTimes(u, r, x, r + 1, n), RowTimes(u, r, x, 0, n), x[r], z[r];
    TailsAgree(u, n, x, z, r);
    DiagonalTerm(u, x, n, r, d, v, rest, p);
    DiagonalTerm(u, z, n, r, d, w, rest, p);
    SameTerm(d, rest, v, w, p, p);
  }

  lemma {:induction false} BackUnique(u: Matrix, n: nat, x: seq<real>, z: seq<real>, w: seq<real>, k: nat)
    requires Reduced(u, n, n) && |x| == n && |z| == n && Image(u, x, w, n) && Image(u, z, w, n) && k <= n
    ensures forall c :: k <= c < n ==> x[c] == z[c]
    decreases n - k
  {
    if k < n {
      BackUnique(u, n, x, z, w, k + 1);
      BackRowUnique(u, n, x, z, k);
    }
  }

  /** Nothing else solves it. */
  lemma SolutionUnique(a: Matrix, l: Matrix, u: Matrix, p: seq<nat>, n: nat, b: seq<real>, y: seq<real>,
                       x: seq<real>, z: seq<real>)
    requires Stage(a, l, u, p, n, n) && ForwardSolved(l, b, p, y, n) && BackSolved(u, y, x, n, 0)
    requires Solves(a, z, b, n)
    ensures z == x
  {
    var w := ImageOf(u, z, n);
    forall r | 0 <= r < n ensures w[r] == b[p[r]] - RowTimes(l, r, w, 0, r) {
      ImageRow(a, l, u, p, n, b, z, w, r);
    }
    ForwardUnique(l, b, p, y, w, n, n);
    assert w == y;
    BackSolvedImage(u, y, x, n);
    BackUnique(u, n, x, z, w, 0);
  }

  // ---- what a refused matrix is like ----

  /** Every entry within the pivot threshold. */
  ghost predicate Close(a: Matrix, a1: Matrix, n: nat) {
    forall r, c :: 0 <= r < n && 0 <= c < n ==> Abs(At(a1, r, c) - At(a, r, c)) < 0.000000000001
  }

  ghost predicate Singular(a: Matrix, z: seq<real>, n: nat) {
    && |z| == n && (exists c :: 0 <= c < n && z[c] != 0.0)
    && forall q :: 0 <= q < n ==> RowTimes(a, q, z, 0, n) == 0.0
  }

  /** Some matrix within the threshold of a, entry by entry, sends a nonzero vector to zero. */
  ghost predicate NearlySingular(a: Matrix, n: nat) {
    exists a1: Matrix, z: seq<real> :: Close(a, a1, n) && Singular(a1, z, n)
  }

  /** u with the candidates for pivot i set to zero. */
  function Blanked(u: Matrix, n: nat, i: nat): Matrix {
    seq(n, r => seq(n, c => if c == i && r >= i then 0.0 else At(u, r, c)))
  }

  /** The change blanking makes to row q of the original matrix. */
  function Shifted(a: Matrix, u: Matrix, inverse: seq<nat>, n: nat, i: nat): Matrix {
    seq(n, q => seq(n, c => if c == i && 0 <= q < |inverse| && inverse[q] >= i then At(a, q, c) - At(u, inverse[q], i)
                            else At(a, q, c)))
  }

  ghost predicate Inverse(p: seq<nat>, inverse: seq<nat>, n: nat) {
    |p| == n && |inverse| == n && forall r :: 0 <= r < n ==> p[r] < n && inverse[p[r]] == r
  }

  lemma {:induction false} InverseExists(p: seq<nat>, n: nat, m: nat) returns (inverse: seq<nat>)
    requires IsPermutation(p, n) && m <= n
    ensures |inverse| == n && forall r :: 0 <= r < m ==> inverse[p[r]] == r
  {
    if m == 0 {
      inverse := seq(n, _ => 0);
    } else {
      var rest := InverseExists(p, n, m - 1);
      inverse := rest[p[m - 1] := m - 1];
    }
  }

  lemma BlankedEntry(u: Matrix, n: nat, i: nat, r: nat, c: nat)
    requires r < n && c < n
    ensures At(Blanked(u, n, i), r, c) == if c == i && r >= i then 0.0 else At(u, r, c)
  {}

  lemma ShiftedEntry(a: Matrix, u: Matrix, p: seq<nat>, inverse: seq<nat>, n: nat, i: nat, r: nat, c: nat)
    requires Inverse(p, inverse, n) && r < n && c < n
    ensures At(Shifted(a, u, inverse, n, i), p[r], c) == At(a, p[r], c) - if c == i && r >= i then At(u, r, i) else 0.0
  {
    assert inverse[p[r]] == r;
  }

  lemma BlankedRestores(a: Matrix, l: Matrix, u: Matrix, p: seq<nat>, inverse: seq<nat>, n: nat, i: nat)
    requires i < n && Inverse(p, inverse, n) && Restores(a, l, u, p, n, i)
    ensures Restores(Shifted(a, u, inverse, n, i), l, Blanked(u, n, i), p, n, i)
  {
    var a1, u1 := Shifted(a, u, inverse, n, i), Blanked(u, n, i);
    forall r, c | 0 <= r < n && 0 <= c < n
      ensures At(a1, p[r], c) == Product(l, u1, r, c, Min(r, i)) + At(u1, r, c)
    {
      forall k | 0 <= k < Min(r, i) ensures At(u, k, c) == At(u1, k, c) { BlankedEntry(u, n, i, k, c); }
      ProductAgrees(l, u, r, l, u1, r, c, Min(r, i));
      BlankedEntry(u, n, i, r, c);
      ShiftedEntry(a, u, p, inverse, n, i, r, c);
    }
  }

  lemma ShiftedClose(a: Matrix, u: Matrix, inverse: seq<nat>, n: nat, i: nat)
    requires i < n && |inverse| == n && (forall q :: 0 <= q < n ==> inverse[q] < n)
    requires forall r :: i <= r < n ==> Abs(At(u, r, i)) < THRESHOLD
    ensures Close(a, Shifted(a, u, inverse, n, i), n)
  {
    var a1 := Shifted(a, u, inverse, n, i);
    forall q, c | 0 <= q < n && 0 <= c < n ensures Abs(At(a1, q, c) - At(a, q, c)) < THRESHOLD {
      if c == i && inverse[q] >= i { assert Abs(At(u, inverse[q], i)) < THRESHOLD; }
    }
  }

  /** A vector with last coordinate 1 that the upper triangular rows above i send to zero. */
  lemma {:induction false} KernelVector(u: Matrix, n: nat, i: nat, k: nat) returns (z: seq<real>)
    requires i < n && k <= i && Reduced(u, n, i)
    ensures |z| == n && z[i] == 1.0 && forall c :: i < c < n ==> z[c] == 0.0
    ensures forall r :: k <= r < i ==> RowTimes(u, r, z, 0, n) == 0.0
    decreases i - k
  {
    if k == i {
      z := seq(n, c => if c == i then 1.0 else 0.0);
    } else {
      var z1 := KernelVector(u, n, i, k + 1);
      var tail := RowTimes(u, k, z1, k + 1, n);
      assert Abs(At(u, k, k)) >= THRESHOLD;
      var v := -tail / At(u, k, k);
      z := z1[k := v];
      KernelRowSet(u, n, i, k, z1, tail, v);
      forall r | k <= r < i ensures RowTimes(u, r, z, 0, n) == 0.0 {
        if r > k { KernelRowKept(u, n, i, k, z1, v, r); }
      }
    }
  }

  /** Coordinate k chosen to cancel the rest of row k. */
  lemma KernelRowSet(u: Matrix, n: nat, i: nat, k: nat, z: seq<real>, tail: real, v: real)
    requires k < i < n && Reduced(u, n, i) && |z| == n && At(u, k, k) != 0.0
    requires tail == RowTimes(u, k, z, k + 1, n) && v == -tail / At(u, k, k)
    ensures RowTimes(u, k, z[k := v], 0, n) == 0.0
  {
    var z1 := z[k := v];
    Quotient(-tail, At(u, k, k));
    UpperRow(u, z1, n, i, k);
    RowTimesUpdate(u, k, z, k, v, k + 1, n);
    assert z1[k] == v;
    assert v * At(u, k, k) == At(u, k, k) * v;
  }

  /** A later row does not see coordinate k. */
  lemma KernelRowKept(u: Matrix, n: nat, i: nat, k: nat, z: seq<real>, v: real, r: nat)
    requires k < r < i < n && Reduced(u, n, i) && |z| == n
    ensures RowTimes(u, r, z[k := v], 0, n) == RowTimes(u, r, z, 0, n)
  {
    var z1 := z[k := v];
    UpperRow(u, z1, n, i, r);
    UpperRow(u, z, n, i, r);
    RowTimesUpdate(u, r, z, k, v, r + 1, n);
    assert z1[r] == z[r];
    assert RowTimes(u, r, z1, r + 1, n) == RowTimes(u, r, z, r + 1, n);
  }

  lemma BlankedImage(u: Matrix, n: nat, i: nat, z: seq<real>)
    requires i < n && Reduced(u, n, i) && |z| == n && (forall c :: i < c < n ==> z[c] == 0.0)
    requires forall r :: 0 <= r < i ==> RowTimes(Blanked(u, n, i), r, z, 0, n) == 0.0
    ensures Image(Blanked(u, n, i), z, seq(n, _ => 0.0), n)
  {
    var u1 := Blanked(u, n, i);
    forall r | i <= r < n ensures RowTimes(u1, r, z, 0, n) == 0.0 {
      RowTimesZero(u1, r, z, 0, n);
    }
  }

  lemma BlankedReduced(u: Matrix, n: nat, i: nat)
    requires i < n && Reduced(u, n, i)
    ensures Reduced(Blanked(u, n, i), n, i)
  {
    var u1 := Blanked(u, n, i);
    forall k | 0 <= k < i && k < n ensures Abs(At(u1, k, k)) >= THRESHOLD {
      assert At(u1, k, k) == At(u, k, k);
    }
  }

  /** No usable pivot in column i means a matrix within the threshold of the original is singular. */
  lemma StuckMeansNearlySingular(a: Matrix, l: Matrix, u: Matrix, p: seq<nat>, n: nat, i: nat)
    requires i < n && Stage(a, l, u, p, n, i) && forall r :: i <= r < n ==> Abs(At(u, r, i)) < THRESHOLD
    ensures NearlySingular(a, n)
  {
    var inverse := InverseExists(p, n, n);
    forall q | 0 <= q < n ensures inverse[q] < n {
      assert q in p;
      var r :| 0 <= r < n && p[r] == q;
      assert inverse[p[r]] == r;
    }
    var a1, u1 := Shifted(a, u, inverse, n, i), Blanked(u, n, i);
    ShiftedClose(a, u, inverse, n, i);
    BlankedRestores(a, l, u, p, inverse, n, i);
    BlankedReduced(u, n, i);
    var z := KernelVector(u1, n, i, 0);
    BlankedImage(u, n, i, z);
    KernelOfRestored(a1, l, u1, p, n, i, z);
    assert Close(a, a1, n) && Singular(a1, z, n);
  }

  lemma KernelOfRestored(a: Matrix, l: Matrix, u: Matrix, p: seq<nat>, n: nat, i: nat, z: seq<real>)
    requires i < n && IsPermutation(p, n) && Restores(a, l, u, p, n, i)
    requires Image(u, z, seq(n, _ => 0.0), n) && |z| == n && z[i] == 1.0
    ensures Singular(a, z, n)
  {
    var w: seq<real> := seq(n, _ => 0.0);
    forall q | 0 <= q < n ensures RowTimes(a, q, z, 0, n) == 0.0 {
      assert q in p;
      var r :| 0 <= r < n && p[r] == q;
      RestoredRow(a, l, u, p, n, i, z, w, r);
      RowTimesZero(l, r, w, 0, Min(r, i));
    }
  }

  // ---- the code ----

  ghost predicate Square(m: array2<real>, n: nat) {
    m.Length0 == n && m.Length1 == n
  }

  /** L to the identity, U to a copy of A, P to the identity permutation. */
  method Initialise(A: array2<real>, L: array2<real>, U: array2<real>, P: array<nat>, dim: nat)
    requires Square(A, dim) && Square(L, dim) && Square(U, dim) && P.Length == dim
    requires L != U && A != L
    modifies L, U, P
    ensures Stage(old(Rows(A)), Rows(L), Rows(U), P[..], dim, 0)
  {
    ghost var a := Rows(A);
    for r := 0 to dim
      invariant forall q :: 0 <= q < r ==> P[q] == q
      invariant forall q, c :: 0 <= q < r && 0 <= c < dim ==> L[q, c] == (if q == c then 1.0 else 0.0)
      invariant forall q, c :: 0 <= q < r && 0 <= c < dim ==> U[q, c] == At(a, q, c)
      invariant forall q, c :: 0 <= q < dim && 0 <= c < dim ==> A[q, c] == At(a, q, c)
    {
      P[r] := r;
      for c := 0 to dim
        invariant forall q :: 0 <= q <= r ==> P[q] == q
        invariant forall q, d :: 0 <= q < r && 0 <= d < dim ==> L[q, d] == (if q == d then 1.0 else 0.0)
        invariant forall q, d :: 0 <= q < r && 0 <= d < dim ==> U[q, d] == At(a, q, d)
        invariant forall d :: 0 <= d < c ==> L[r, d] == if r == d then 1.0 else 0.0
        invariant forall d :: 0 <= d < c ==> U[r, d] == At(a, r, d)
        invariant forall q, d :: 0 <= q < dim && 0 <= d < dim ==> A[q, d] == At(a, q, d)
      {
        L[r, c] := if r == c then 1.0 else 0.0;
        U[r, c] := A[r, c];
      }
    }
    forall q | 0 <= q < dim ensures q in P[..] { assert P[..][q] == q; }
  }

  /** The first row from i on with the largest entry in column i. */
  method ChoosePivot(U: array2<real>, dim: nat, i: nat) returns (pivot: nat, maxVal: real)
    requires Square(U, dim) && i < dim
    ensures i <= pivot < dim && maxVal == Abs(U[pivot, i])
    ensures forall r :: i <= r < dim ==> Abs(U[r, i]) <= maxVal
  {
    pivot := i;
    maxVal := Abs(U[i, i]);
    for r := i + 1 to dim
      invariant i <= pivot < dim && maxVal == Abs(U[pivot, i])
      invariant forall q :: i <= q < r ==> Abs(U[q, i]) <= maxVal
    {
      var val := Abs(U[r, i]);
      if val > maxVal {
        maxVal := val;
        pivot := r;
      }
    }
  }

  /** Exchange the first `width` entries of two rows. */
  method ExchangeRows(M: array2<real>, dim: nat, i: nat, j: nat, width: nat)
    requires Square(M, dim) && i < j < dim && width <= dim
    modifies M
    ensures RowsExchanged(old(Rows(M)), Rows(M), i, j, dim, width)
  {
    ghost var m := Rows(M);
    for c := 0 to width
      invariant forall r, d :: 0 <= r < dim && 0 <= d < dim ==>
        M[r, d] == At(m, if d < c then Exchanged(r, i, j) else r, d)
    {
      var temp := M[i, c];
      M[i, c] := M[j, c];
      M[j, c] := temp;
    }
  }

  /** The multiplier of row r, and the zero it makes. */
  method SetMultiplier(L: array2<real>, U: array2<real>, dim: nat, i: nat, r: nat, ghost l: Matrix, ghost u: Matrix)
    returns (factor: real)
    requires Square(L, dim) && Square(U, dim) && L != U && i < r < dim && At(u, i, i) != 0.0
    requires ColumnEliminated(l, u, Rows(L), Rows(U), dim, i, r)
    modifies L, U
    ensures factor == At(u, r, i) / At(u, i, i)
    ensures forall q, d :: 0 <= q < dim && 0 <= d < dim ==> L[q, d] == MultiplierEntry(l, u, i, r + 1, q, d)
    ensures forall q, d :: 0 <= q < dim && 0 <= d < dim ==>
      U[q, d] == EliminatedEntry(u, i, if q == r && d > i then r else r + 1, q, d)
  {
    forall q, d | 0 <= q < dim && 0 <= d < dim
      ensures L[q, d] == MultiplierEntry(l, u, i, r, q, d) && U[q, d] == EliminatedEntry(u, i, r, q, d)
    {
      assert At(Rows(L), q, d) == L[q, d] && At(Rows(U), q, d) == U[q, d];
    }
    factor := U[r, i] / U[i, i];
    L[r, i] := factor;
    U[r, i] := 0.0;
  }

  /** Subtract row r's multiple of row i. */
  method EliminateRow(L: array2<real>, U: array2<real>, dim: nat, i: nat, r: nat, ghost l: Matrix, ghost u: Matrix)
    requires Square(L, dim) && Square(U, dim) && L != U && i < r < dim && At(u, i, i) != 0.0
    requires ColumnEliminated(l, u, Rows(L), Rows(U), dim, i, r)
    modifies L, U
    ensures ColumnEliminated(l, u, Rows(L), Rows(U), dim, i, r + 1)
  {
    var factor := SetMultiplier(L, U, dim, i, r, l, u);
    for c := i + 1 to dim
      invariant forall q, d :: 0 <= q < dim && 0 <= d < dim ==> L[q, d] == MultiplierEntry(l, u, i, r + 1, q, d)
      invariant forall q, d :: 0 <= q < dim && 0 <= d < dim ==>
        U[q, d] == EliminatedEntry(u, i, if q == r && d >= c then r else r + 1, q, d)
    {
      U[r, c] := U[r, c] - factor * U[i, c];
    }
  }

  /** Eliminate column i below its pivot. */
  method EliminateColumn(L: array2<real>, U: array2<real>, dim: nat, i: nat)
    requires Square(L, dim) && Square(U, dim) && L != U && i < dim && U[i, i] != 0.0
    modifies L, U
    ensures At(old(Rows(U)), i, i) != 0.0
    ensures ColumnEliminated(old(Rows(L)), old(Rows(U)), Rows(L), Rows(U), dim, i, dim)
  {
    ghost var l, u := Rows(L), Rows(U);
    for r := i + 1 to dim
      invariant ColumnEliminated(l, u, Rows(L), Rows(U), dim, i, r)
    {
      EliminateRow(L, U, dim, i, r, l, u);
    }
  }

  /** Bring the pivot row up. */
  method MovePivot(L: array2<real>, U: array2<real>, P: array<nat>, dim: nat, i: nat, pivot: nat, ghost a: Matrix)
    requires Square(L, dim) && Square(U, dim) && L != U && P.Length == dim && i <= pivot < dim
    requires Stage(a, Rows(L), Rows(U), P[..], dim, i)
    requires forall r :: i <= r < dim ==> Abs(U[r, i]) <= Abs(U[pivot, i])
    modifies L, U, P
    ensures Stage(a, Rows(L), Rows(U), P[..], dim, i)
    ensures Abs(U[i, i]) == old(Abs(U[pivot, i])) && forall r :: i <= r < dim ==> Abs(U[r, i]) <= Abs(U[i, i])
  {
    if pivot != i {
      ghost var l, u, p := Rows(L), Rows(U), P[..];
      ExchangeRows(U, dim, i, pivot, dim);
      ExchangeRows(L, dim, i, pivot, i);
      var temp := P[i];
      P[i] := P[pivot];
      P[pivot] := temp;
      ExchangeKeepsStage(a, l, u, p, Rows(L), Rows(U), P[..], dim, i, pivot);
      forall r | i <= r < dim ensures U[r, i] == At(u, Exchanged(r, i, pivot), i) {
        assert At(Rows(U), r, i) == At(u, Exchanged(r, i, pivot), i);
      }
    }
  }

  /** One round of calc_matrix_lu: choose a pivot, bring it up, eliminate its column. */
  method EliminationRound(L: array2<real>, U: array2<real>, P: array<nat>, dim: nat, i: nat, ghost a: Matrix)
    returns (ok: bool)
    requires Square(L, dim) && Square(U, dim) && L != U && P.Length == dim && i < dim
    requires Stage(a, Rows(L), Rows(U), P[..], dim, i)
    modifies L, U, P
    ensures if ok then Stage(a, Rows(L), Rows(U), P[..], dim, i + 1) else NearlySingular(a, dim)
  {
    var pivot, maxVal := ChoosePivot(U, dim, i);
    if maxVal < THRESHOLD {
      StuckMeansNearlySingular(a, Rows(L), Rows(U), P[..], dim, i);
      return false;
    }
    MovePivot(L, U, P, dim, i, pivot, a);
    ghost var l, u := Rows(L), Rows(U);
    EliminateColumn(L, U, dim, i);
    EliminationKeepsStage(a, l, u, P[..], Rows(L), Rows(U), dim, i);
    return true;
  }

  /** The outer loop of calc_matrix_lu. */
  method Eliminate(L: array2<real>, U: array2<real>, P: array<nat>, dim: nat, ghost a: Matrix) returns (ok: bool)
    requires Square(L, dim) && Square(U, dim) && L != U && P.Length == dim
    requires Stage(a, Rows(L), Rows(U), P[..], dim, 0)
    modifies L, U, P
    ensures if ok then Stage(a, Rows(L), Rows(U), P[..], dim, dim) else NearlySingular(a, dim)
  {
    for i := 0 to dim
      invariant Stage(a, Rows(L), Rows(U), P[..], dim, i)
    {
      ok := EliminationRound(L, U, P, dim, i, a);
      if !ok { return false; }
    }
    return true;
  }

  /** calc_matrix_lu */
  method MatrixLu(A: array2<real>, dim: nat, L: array2<real>, U: array2<real>, P: array<nat>) returns (ok: bool)
    requires Square(A, dim) && Square(L, dim) && Square(U, dim) && P.Length == dim
    requires L != U && A != L
    modifies L, U, P
    ensures ok ==> 0 < dim <= 8
    ensures ok ==> Stage(old(Rows(A)), Rows(L), Rows(U), P[..], dim, dim)
    ensures ok ==> Factors(old(Rows(A)), Rows(L), Rows(U), P[..], dim)
    ensures ok ==> forall k :: 0 <= k < dim ==> U[k, k] >= 0.000000000001 || U[k, k] <= -0.000000000001
    ensures !ok ==> dim == 0 || dim > 8 || NearlySingular(old(Rows(A)), dim)
  {
    if dim > MAX_MATRIX_DIM || dim == 0 { return false; }
    ghost var a := Rows(A);
    Initialise(A, L, U, P, dim);
    ok := Eliminate(L, U, P, dim, a);
    if ok {
      StageFactors(a, Rows(L), Rows(U), P[..], dim);
      assert forall k :: 0 <= k < dim ==> At(Rows(U), k, k) == U[k, k];
    }
  }

  /** Forward substitution through l. */
  method ForwardSubstitute(L: array2<real>, P: array<nat>, b: array<real>, dim: nat) returns (y: array<real>)
    requires Square(L, dim) && P.Length == dim && b.Length == dim && forall r :: 0 <= r < dim ==> P[r] < dim
    ensures fresh(y) && y.Length == dim && ForwardSolved(Rows(L), b[..], P[..], y[..], dim)
  {
    var pb := new real[dim];
    for i := 0 to dim
      invariant forall k :: 0 <= k < i ==> pb[k] == b[P[k]]
    {
      pb[i] := b[P[i]];
    }
    y := new real[dim];
    ghost var l, p, bs := Rows(L), P[..], b[..];
    ghost var done: seq<real> := [];
    for i := 0 to dim
      invariant forall k :: 0 <= k < dim ==> pb[k] == bs[p[k]]
      invariant ForwardSolved(l, bs, p, done, dim) && done == y[..i]
    {
      var sum := 0.0;
      for j := 0 to i
        invariant sum == RowTimes(l, i, done, 0, j) && done == y[..i] && forall k :: 0 <= k < dim ==> pb[k] == bs[p[k]]
      {
        var entry, v := L[i, j], y[j];
        assert entry == At(l, i, j) && v == done[j];
        RowTimesNext(l, i, done, 0, j, entry, v, sum);
        sum := sum + entry * v;
      }
      var v := pb[i] - sum;
      assert |done| == i && pb[i] == bs[p[i]];
      y[i] := v;
      ForwardExtends(l, bs, p, done, dim, v);
      done := done + [v];
      assert y[..i + 1] == done;
    }
    assert y[..dim] == y[..];
  }

  /** Back substitution through u; its own pivot check never fires after a successful factorisation. */
  method BackSubstitute(U: array2<real>, y: array<real>, x: array<real>, dim: nat) returns (ok: bool)
    requires Square(U, dim) && y.Length == dim && x.Length == dim && x != y
    requires Reduced(Rows(U), dim, dim)
    modifies x
    ensures ok && BackSolved(Rows(U), y[..], x[..], dim, 0)
  {
    ghost var u := Rows(U);
    var i := dim - 1;
    while i >= 0
      invariant -1 <= i < dim && BackSolved(u, y[..], x[..], dim, i + 1)
    {
      var sum := 0.0;
      ghost var before := x[..];
      for j := i + 1 to dim
        invariant sum == RowTimes(u, i, before, i + 1, j) && x[..] == before
      {
        var entry, v := U[i, j], x[j];
        assert entry == At(u, i, j) && v == before[j];
        RowTimesNext(u, i, before, i + 1, j, entry, v, sum);
        sum := sum + entry * v;
      }
      assert U[i, i] == At(u, i, i);
      if Abs(U[i, i]) < THRESHOLD { return false; }
      var v := (y[i] - sum) / U[i, i];
      BackExtends(u, y[..], before, dim, i, sum, v);
      x[i] := v;
      assert x[..] == before[i := v];
      i := i - 1;
    }
    return true;
  }

  /** calc_solve_linear */
  method SolveLinear(A: array2<real>, b: array<real>, dim: nat, x: array<real>) returns (ok: bool)
    requires Square(A, dim) && b.Length == dim && x.Length == dim
    modifies x
    ensures ok ==> 0 < dim <= 8 && Solves(Rows(A), x[..], old(b[..]), dim)
    ensures ok ==> forall z: seq<real> :: Solves(Rows(A), z, old(b[..]), dim) ==> z == x[..]
    ensures !ok ==> dim == 0 || dim > 8 || NearlySingular(Rows(A), dim)
  {
    if dim > MAX_MATRIX_DIM || dim == 0 { return false; }
    var L, U, P := new real[dim, dim], new real[dim, dim], new nat[dim];
    ok := MatrixLu(A, dim, L, U, P);
    if !ok { return false; }
    ghost var a, bs := Rows(A), b[..];
    var y := ForwardSubstitute(L, P, b, dim);
    ghost var l, u, p, ys := Rows(L), Rows(U), P[..], y[..];
    ok := BackSubstitute(U, y, x, dim);
    SubstitutionSolves(a, l, u, p, dim, bs, ys, x[..]);
    forall z: seq<real> | Solves(a, z, bs, dim) ensures z == x[..] {
      SolutionUnique(a, l, u, p, dim, bs, ys, x[..], z);
    }
  }
}
