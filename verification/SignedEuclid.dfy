/** The loop of extended_gcd on signed operands, round by round: remainders, coefficients, and what fits int64. */
module SignedEuclid {
  import opened Common
  import opened Words
  import opened Arithmetic
  import opened Divisibility

  /** The six variables of the loop. */
  datatype Round = Round(oldR: int, r: int, oldS: int, s: int, oldT: int, t: int)

  function Start(a: int, b: int): Round {
    Round(a, b, 1, 0, 0, 1)
  }

  lemma TruncModMagnitude(a: int, b: int)
    requires b != 0
    ensures Abs(TruncMod(a, b)) == Abs(a) % Abs(b)
  {
    DivModDefinition(Abs(a), Abs(b));
    var q := Abs(a) / Abs(b);
    assert (-q) * b == -(q * b) == q * (-b);
  }

  /** One round, in C's truncating division. */
  function Next(l: Round): (n: Round)
    requires l.r != 0
    ensures Abs(n.r) == Abs(l.oldR) % Abs(l.r) < Abs(l.r)
  {
    TruncModMagnitude(l.oldR, l.r);
    DivModDefinition(Abs(l.oldR), Abs(l.r));
    var q := TruncDiv(l.oldR, l.r);
    Round(l.r, l.oldR - q * l.r, l.s, l.oldS - q * l.s, l.t, l.oldT - q * l.t)
  }

  /** The variables when the loop ends. */
  function Final(l: Round): (f: Round)
    ensures f.r == 0
    decreases Abs(l.r)
  {
    if l.r == 0 then l else Final(Next(l))
  }

  /** The gcd the loop arrives at. */
  function SignedGcd(a: int, b: int): nat {
    Abs(Final(Start(a, b)).oldR)
  }

  lemma {:induction false} FinalGcd(l: Round)
    ensures Abs(Final(l).oldR) == Gcd(Abs(l.oldR), Abs(l.r))
    decreases Abs(l.r)
  {
    if l.r != 0 { FinalGcd(Next(l)); }
  }

  lemma SignedGcdIsGcd(a: int, b: int)
    ensures SignedGcd(a, b) == Gcd(Abs(a), Abs(b))
  {
    FinalGcd(Start(a, b));
  }

  // ---- the division that the machine refuses ----

  predicate IsI64(x: int) {
    -TWO_63 <= x < TWO_63
  }

  /** -2^63 / -1, whose quotient is no int64. */
  predicate Faults(l: Round) {
    l.oldR == -TWO_63 && l.r == -1
  }

  predicate EverFaults(l: Round)
    decreases Abs(l.r)
  {
    l.r != 0 && (Faults(l) || EverFaults(Next(l)))
  }

  /** Quotients, products and remainders of the run are int64. */
  predicate RemaindersFit(l: Round)
    decreases Abs(l.r)
  {
    l.r != 0 ==>
      var q := TruncDiv(l.oldR, l.r);
      IsI64(q) && IsI64(q * l.r) && IsI64(l.oldR - q * l.r) && RemaindersFit(Next(l))
  }

  lemma FloorTimes(m: nat, n: nat)
    requires n > 0
    ensures 0 <= m / n <= m && 0 <= (m / n) * n <= m
  {
    DivModDefinition(m, n);
    var q := m / n;
    if q < 0 { MulLe(q, -1, n); }
    MulLe(1, n, q);
    MulCommutes(q, n);
  }

  lemma TruncTimes(a: int, b: int)
    requires b != 0
    ensures TruncDiv(a, b) * b == if a >= 0 then (Abs(a) / Abs(b)) * Abs(b) else -((Abs(a) / Abs(b)) * Abs(b))
  {
    var q := Abs(a) / Abs(b);
    assert (-q) * b == -(q * b) == q * (-b);
  }

  lemma TruncDivMagnitude(a: int, b: int)
    requires b != 0
    ensures Abs(TruncDiv(a, b)) == Abs(a) / Abs(b) <= Abs(a) && Abs(a) / Abs(b) >= 0
    ensures a >= 0 ==> 0 <= TruncDiv(a, b) * b <= a
    ensures a <= 0 ==> a <= TruncDiv(a, b) * b <= 0
  {
    FloorTimes(Abs(a), Abs(b));
    TruncTimes(a, b);
  }

  /** The only quotient of two int64 that is none. */
  lemma QuotientFits(a: int, b: int)
    requires IsI64(a) && IsI64(b) && b != 0
    ensures IsI64(TruncDiv(a, b)) <==> !(a == -TWO_63 && b == -1)
  {
    TruncDivMagnitude(a, b);
    if Abs(a) == TWO_63 && Abs(b) >= 2 { HalfAtMost(Abs(a), Abs(b)); }
  }

  lemma HalfAtMost(m: nat, n: nat)
    requires n >= 2
    ensures 0 <= 2 * (m / n) <= m
  {
    DivModDefinition(m, n);
    if m / n < 0 { MulLe(m / n, -1, n); }
    MulLe(2, n, m / n);
  }

  /** The remainders leave int64 exactly when that division comes up. */
  lemma {:induction false} RemaindersFitIff(l: Round)
    requires IsI64(l.oldR) && IsI64(l.r)
    ensures RemaindersFit(l) <==> !EverFaults(l)
    decreases Abs(l.r)
  {
    if l.r != 0 {
      QuotientFits(l.oldR, l.r);
      TruncDivMagnitude(l.oldR, l.r);
      RemaindersFitIff(Next(l));
    }
  }

  lemma {:induction false} SmallNeverFaults(l: Round)
    requires Abs(l.oldR) < TWO_63 && Abs(l.r) < TWO_63
    ensures !EverFaults(l)
    decreases Abs(l.r)
  {
    if l.r != 0 { SmallNeverFaults(Next(l)); }
  }

  /** The operands whose casts are -2^63 and -1, in either order. */
  predicate MinAndMinusOne(a: u64, b: u64) {
    (a == TWO_63 && b == TWO_64 - 1) || (a == TWO_64 - 1 && b == TWO_63)
  }

  lemma OrdinaryDivisorFaultIff(l: Round)
    requires Abs(l.r) < TWO_63
    ensures EverFaults(l) <==> Faults(l)
  {
    if l.r != 0 { SmallNeverFaults(Next(l)); }
  }

  /** After a round with divisor -2^63 the remainder is the dividend, unless that is -2^63 too. */
  lemma NextOfMin(l: Round)
    requires IsI64(l.oldR) && l.r == -TWO_63
    ensures Next(l).r == if l.oldR == -TWO_63 then 0 else l.oldR
  {
    if l.oldR == -TWO_63 {
      DivModUnique(TWO_63, TWO_63, 1, 0);
    } else {
      DivModUnique(Abs(l.oldR), TWO_63, 0, Abs(l.oldR));
    }
  }

  lemma MinDivisorFaultIff(l: Round)
    requires IsI64(l.oldR) && l.r == -TWO_63
    ensures EverFaults(l) <==> l.oldR == -1
  {
    NextOfMin(l);
    OrdinaryDivisorFaultIff(Next(l));
  }

  /** The machine refuses a division of the run exactly for these operands. */
  lemma FaultIff(a: u64, b: u64)
    ensures EverFaults(Start(ToI64(a), ToI64(b))) <==> MinAndMinusOne(a, b)
  {
    var l := Start(ToI64(a), ToI64(b));
    if l.r == -TWO_63 { MinDivisorFaultIff(l); } else { OrdinaryDivisorFaultIff(l); }
  }

  // ---- the coefficients ----

  /** The magnitudes of one column of coefficients, next to each other in the run, tie up with the remainders:
      c * oldR + oldC * r stays the operand the column started with. */
  ghost predicate ColumnBound(oldC: nat, c: nat, oldR: nat, r: nat, total: nat) {
    c * oldR + oldC * r == total
  }

  lemma ColumnStep(oldC: nat, c: nat, oldR: nat, r: nat, q: nat, total: nat)
    requires ColumnBound(oldC, c, oldR, r, total) && q * r <= oldR
    ensures ColumnBound(c, oldC + q * c, r, oldR - q * r, total)
  {
    assert (oldC + q * c) * r == oldC * r + (q * c) * r;
    assert c * (oldR - q * r) == c * oldR - c * (q * r);
    assert (q * c) * r == c * (q * r);
  }

  lemma ColumnFits(oldC: nat, c: nat, oldR: nat, r: nat, total: nat)
    requires ColumnBound(oldC, c, oldR, r, total)
    ensures r > 0 ==> oldC <= total
    ensures oldR > 0 ==> c <= total
  {
    if r > 0 { MulLe(1, r, oldC); }
    if oldR > 0 { MulLe(1, oldR, c); }
  }

  lemma CombinationStep(a: int, b: int, s: int, t: int, s': int, t': int, q: int)
    ensures (s' - q * s) * a + (t' - q * t) * b == (s' * a + t' * b) - q * (s * a + t * b)
  {
    assert (s' - q * s) * a == s' * a - q * (s * a) by { MulAssociative(q, s, a); }
    assert (t' - q * t) * b == t' * b - q * (t * b) by { MulAssociative(q, t, b); }
    assert q * (s * a + t * b) == q * (s * a) + q * (t * b);
  }

  /** The two have the same sign, or opposite signs, zero counting as either. */
  predicate Signs(x: int, y: int, same: bool) {
    if same then (x >= 0 && y >= 0) || (x <= 0 && y <= 0) else x >= 0 >= y || y >= 0 >= x
  }

  /** Bezout's identity for both columns. */
  ghost predicate Combines(a: int, b: int, l: Round) {
    l.oldS * a + l.oldT * b == l.oldR && l.s * a + l.t * b == l.r
  }

  /** The columns' magnitudes tie up with the remainders' and do not shrink; the last one at least doubles. */
  ghost predicate Columns(a: int, b: int, l: Round, first: bool) {
    && ColumnBound(Abs(l.oldS), Abs(l.s), Abs(l.oldR), Abs(l.r), Abs(b))
    && ColumnBound(Abs(l.oldT), Abs(l.t), Abs(l.oldR), Abs(l.r), Abs(a))
    && Abs(l.oldS) <= Max(1, Abs(l.s)) && Abs(l.oldT) <= Max(1, Abs(l.t))
    && (!first && l.r == 0 ==> 2 * Abs(l.oldS) <= Abs(l.s) && (Abs(l.oldT) <= 1 || 2 * Abs(l.oldT) <= Abs(l.t)))
  }

  /** Which signs the variables have: remainders in a row as the operands, coefficients the other way. */
  ghost predicate SignsKept(a: int, b: int, l: Round) {
    var same := (a < 0) == (b < 0);
    && Signs(l.oldR, l.r, same) && Signs(l.oldS, l.s, !same) && Signs(l.oldT, l.t, !same)
    && (a >= 0 && b >= 0 ==> l.oldR >= 0 && l.r >= 0)
    && (!same ==> l.oldS >= 0 && l.s >= 0 && l.oldT >= 0 && l.t >= 0)
  }

  /** The state of the loop for operands a and b. */
  ghost predicate Tracked(a: int, b: int, l: Round, first: bool) {
    && (if first then l == Start(a, b) else Abs(l.r) < Abs(l.oldR))
    && Combines(a, b, l) && SignsKept(a, b, l) && Columns(a, b, l, first)
    && Gcd(Abs(l.oldR), Abs(l.r)) == Gcd(Abs(a), Abs(b))
  }

  lemma TrackedStart(a: int, b: int)
    ensures Tracked(a, b, Start(a, b), true)
  {}

  /** A quotient has the sign of the pair, and its remainder that of the dividend. */
  lemma QuotientSigns(oldR: int, r: int, same: bool)
    requires r != 0 && Signs(oldR, r, same)
    ensures var q := TruncDiv(oldR, r);
            && (if same then q >= 0 else q <= 0) && Signs(r, oldR - q * r, same)
            && (oldR >= 0 ==> oldR - q * r >= 0)
  {
    TruncDivMagnitude(oldR, r);
  }

  /** Coefficients of opposite tendency add up in magnitude. */
  lemma StepMagnitude(oldC: int, c: int, q: int, same: bool)
    requires Signs(oldC, c, !same) && if same then q >= 0 else q <= 0
    ensures Abs(q * c) == Abs(q) * Abs(c) && Abs(oldC - q * c) == Abs(oldC) + Abs(q) * Abs(c)
    ensures Signs(c, oldC - q * c, !same) && (!same && oldC >= 0 && c >= 0 ==> oldC - q * c >= 0)
  {
    ProductSigns(q, c);
  }

  lemma ProductSigns(q: int, c: int)
    ensures Abs(q * c) == Abs(q) * Abs(c)
    ensures (q >= 0 && c >= 0) || (q <= 0 && c <= 0) ==> q * c >= 0
    ensures (q >= 0 && c <= 0) || (q <= 0 && c >= 0) ==> q * c <= 0
  {
    assert (-q) * c == -(q * c) == q * (-c) && (-q) * (-c) == q * c;
    MulLe(0, Abs(q), Abs(c));
  }

  /** The magnitudes of one column after a round. */
  lemma ColumnAdvances(oldC: int, c: int, l: Round, same: bool, total: nat)
    requires l.r != 0 && Signs(l.oldR, l.r, same) && Signs(oldC, c, !same)
    requires ColumnBound(Abs(oldC), Abs(c), Abs(l.oldR), Abs(l.r), total)
    ensures var q := TruncDiv(l.oldR, l.r);
            && Abs(q * c) <= Abs(oldC - q * c) == Abs(oldC) + Abs(q) * Abs(c)
            && Signs(c, oldC - q * c, !same) && (!same && oldC >= 0 && c >= 0 ==> oldC - q * c >= 0)
            && ColumnBound(Abs(c), Abs(oldC - q * c), Abs(l.r), Abs(Next(l).r), total)
  {
    var q := TruncDiv(l.oldR, l.r);
    QuotientSigns(l.oldR, l.r, same);
    StepMagnitude(oldC, c, q, same);
    TruncDivMagnitude(l.oldR, l.r);
    DivModDefinition(Abs(l.oldR), Abs(l.r));
    ColumnStep(Abs(oldC), Abs(c), Abs(l.oldR), Abs(l.r), Abs(q), total);
  }

  /** A quotient is at least 1 when the dividend is no smaller, and 2 when it is a proper multiple. */
  lemma QuotientAtLeast(m: nat, n: nat)
    requires m > n > 0
    ensures m / n >= 1 && (m % n == 0 ==> m / n >= 2)
  {
    DivModDefinition(m, n);
    var q := m / n;
    if q <= 0 { MulLe(q, 0, n); }
    if q == 1 { assert m == n + m % n; }
  }

  lemma GrowsBy(c0: nat, c: nat, q: nat, k: nat)
    requires q >= k
    ensures c0 + q * c >= c0 + k * c
  {
    MulLe(k, q, c);
  }

  lemma SignsStay(a: int, b: int, l: Round)
    requires SignsKept(a, b, l) && l.r != 0
    ensures SignsKept(a, b, Next(l))
  {
    var q, same := TruncDiv(l.oldR, l.r), (a < 0) == (b < 0);
    QuotientSigns(l.oldR, l.r, same);
    StepMagnitude(l.oldS, l.s, q, same);
    StepMagnitude(l.oldT, l.t, q, same);
  }

  /** A coefficient does not shrink, and doubles when the division comes out even, after the first round. */
  lemma CoefficientGrows(c0: nat, c: nat, c1: nat, l: Round)
    requires l.r != 0 && Abs(l.r) < Abs(l.oldR) && c1 == c0 + Abs(TruncDiv(l.oldR, l.r)) * c
    ensures c <= c1 && (Next(l).r == 0 ==> 2 * c <= c1)
  {
    TruncDivMagnitude(l.oldR, l.r);
    QuotientAtLeast(Abs(l.oldR), Abs(l.r));
    GrowsBy(c0, c, Abs(TruncDiv(l.oldR, l.r)), if Next(l).r == 0 then 2 else 1);
  }

  lemma ColumnsStay(a: int, b: int, l: Round, first: bool)
    requires SignsKept(a, b, l) && Columns(a, b, l, first) && l.r != 0
    requires if first then l == Start(a, b) else Abs(l.r) < Abs(l.oldR)
    ensures Columns(a, b, Next(l), false)
  {
    var same, n := (a < 0) == (b < 0), Next(l);
    ColumnAdvances(l.oldS, l.s, l, same, Abs(b));
    ColumnAdvances(l.oldT, l.t, l, same, Abs(a));
    if !first {
      CoefficientGrows(Abs(l.oldS), Abs(l.s), Abs(n.s), l);
      CoefficientGrows(Abs(l.oldT), Abs(l.t), Abs(n.t), l);
    }
  }

  /** One round keeps the state. */
  lemma TrackedStep(a: int, b: int, l: Round, first: bool)
    requires Tracked(a, b, l, first) && l.r != 0
    ensures Tracked(a, b, Next(l), false)
  {
    CombinationStep(a, b, l.s, l.t, l.oldS, l.oldT, TruncDiv(l.oldR, l.r));
    SignsStay(a, b, l);
    ColumnsStay(a, b, l, first);
  }

  lemma {:induction false} TrackedFinal(a: int, b: int, l: Round, first: bool) returns (last: bool)
    requires Tracked(a, b, l, first)
    ensures Tracked(a, b, Final(l), last) && (last ==> l.r == 0)
    decreases Abs(l.r)
  {
    if l.r == 0 {
      last := first;
    } else {
      TrackedStep(a, b, l, first);
      last := TrackedFinal(a, b, Next(l), false);
    }
  }

  // ---- what fits int64 ----

  /** Everything a round computes is an int64. */
  predicate RoundFits(l: Round)
    requires l.r != 0
  {
    var q, n := TruncDiv(l.oldR, l.r), Next(l);
    && IsI64(q) && IsI64(q * l.r) && IsI64(q * l.s) && IsI64(q * l.t)
    && IsI64(n.r) && IsI64(n.s) && IsI64(n.t)
  }

  /** Everything the run computes is, and the gcd's sign can be turned. */
  predicate RunFits(l: Round)
    decreases Abs(l.r)
  {
    if l.r == 0 then Abs(l.oldR) < TWO_63 else RoundFits(l) && RunFits(Next(l))
  }

  lemma ColumnInRange(oldC: int, c: int, l: Round, same: bool, total: nat)
    requires l.r != 0 && Signs(l.oldR, l.r, same) && Signs(oldC, c, !same)
    requires ColumnBound(Abs(oldC), Abs(c), Abs(l.oldR), Abs(l.r), total)
    ensures var q := TruncDiv(l.oldR, l.r); Abs(q * c) <= Abs(oldC - q * c) <= total
  {
    ColumnAdvances(oldC, c, l, same, total);
    ColumnFits(Abs(c), Abs(oldC - TruncDiv(l.oldR, l.r) * c), Abs(l.r), Abs(Next(l).r), total);
  }

  lemma StepInRange(a: int, b: int, l: Round, first: bool)
    requires Tracked(a, b, l, first) && l.r != 0
    requires Abs(a) < TWO_63 && Abs(b) < TWO_63 && Abs(l.oldR) < TWO_63 && Abs(l.r) < TWO_63
    ensures RoundFits(l)
  {
    TruncDivMagnitude(l.oldR, l.r);
    ColumnInRange(l.oldS, l.s, l, (a < 0) == (b < 0), Abs(b));
    ColumnInRange(l.oldT, l.t, l, (a < 0) == (b < 0), Abs(a));
  }

  lemma {:induction false} TrackedRunFits(a: int, b: int, l: Round, first: bool)
    requires Tracked(a, b, l, first)
    requires Abs(a) < TWO_63 && Abs(b) < TWO_63 && Abs(l.oldR) < TWO_63 && Abs(l.r) < TWO_63
    ensures RunFits(l)
    decreases Abs(l.r)
  {
    if l.r != 0 {
      StepInRange(a, b, l, first);
      TrackedStep(a, b, l, first);
      TrackedRunFits(a, b, Next(l), false);
    }
  }

  /** For all operands but 2^63 the whole run stays in int64, coefficients included. */
  lemma EveryRoundFits(a: u64, b: u64)
    requires a != TWO_63 && b != TWO_63
    ensures RunFits(Start(ToI64(a), ToI64(b)))
  {
    TrackedStart(ToI64(a), ToI64(b));
    TrackedRunFits(ToI64(a), ToI64(b), Start(ToI64(a), ToI64(b)), true);
  }

  /** At the end the last column is b/g and a/g, and the one before it holds Bezout coefficients of at most half. */
  lemma TrackedEnd(a: int, b: int, l: Round, first: bool)
    requires Tracked(a, b, l, first) && l.r == 0 && (a != 0 || b != 0)
    ensures var g := Gcd(Abs(a), Abs(b));
            && Abs(l.oldR) == g > 0 && l.oldS * a + l.oldT * b == l.oldR && (a >= 0 && b >= 0 ==> l.oldR == g)
            && Abs(l.s) == Abs(b) / g && Abs(l.t) == Abs(a) / g
            && Abs(l.oldS) <= Max(1, Abs(b) / g) && Abs(l.oldT) <= Max(1, Abs(a) / g)
            && (!first ==> 2 * Abs(l.oldS) <= Abs(b) / g && (Abs(l.oldT) <= 1 || 2 * Abs(l.oldT) <= Abs(a) / g))
  {
    GcdPositive(Abs(a), Abs(b));
    var g := Gcd(Abs(a), Abs(b));
    assert Gcd(Abs(l.oldR), 0) == Abs(l.oldR);
    ModOfMultiple(Abs(l.s), g);
    ModOfMultiple(Abs(l.t), g);
  }

  /** What the run leaves for any operands: the gcd up to its sign, and small coefficients that make it up. */
  lemma RunResult(a: int, b: int)
    requires a != 0 || b != 0
    ensures var f, g := Final(Start(a, b)), Gcd(Abs(a), Abs(b));
            && Abs(f.oldR) == g > 0 && f.oldS * a + f.oldT * b == f.oldR && (a >= 0 && b >= 0 ==> f.oldR == g)
            && Abs(f.oldS) <= Max(1, Abs(b) / g) && Abs(f.oldT) <= Max(1, Abs(a) / g)
            && (b != 0 ==> 2 * Abs(f.oldS) <= Abs(b) / g && (Abs(f.oldT) <= 1 || 2 * Abs(f.oldT) <= Abs(a) / g))
  {
    TrackedStart(a, b);
    var last := TrackedFinal(a, b, Start(a, b), true);
    TrackedEnd(a, b, Final(Start(a, b)), last);
  }

  // ---- the operand 2^63 ----

  lemma ColumnHalved(oldC: nat, c: nat, oldR: nat, r: nat, total: nat)
    requires ColumnBound(oldC, c, oldR, r, total) && oldR >= 2
    ensures 2 * c <= total
  {
    MulLe(2, oldR, c);
    MulCommutes(c, oldR);
    MulLe(0, r, oldC);
  }

  lemma HalvedInRange(oldC: int, c: int, l: Round, same: bool, total: nat)
    requires Abs(l.r) >= 2 && Signs(l.oldR, l.r, same) && Signs(oldC, c, !same) && total <= TWO_63
    requires ColumnBound(Abs(oldC), Abs(c), Abs(l.oldR), Abs(l.r), total)
    ensures var q := TruncDiv(l.oldR, l.r); IsI64(q * c) && IsI64(oldC - q * c)
  {
    ColumnAdvances(oldC, c, l, same, total);
    ColumnHalved(Abs(c), Abs(oldC - TruncDiv(l.oldR, l.r) * c), Abs(l.r), Abs(Next(l).r), total);
  }

  lemma WideRemainderInRange(l: Round)
    requires IsI64(l.oldR) && IsI64(l.r) && Abs(l.r) >= 2
    ensures var q := TruncDiv(l.oldR, l.r); IsI64(q) && IsI64(q * l.r) && IsI64(Next(l).r)
  {
    QuotientFits(l.oldR, l.r);
    TruncDivMagnitude(l.oldR, l.r);
  }

  /** A round whose divisor is not 1 or -1 fits, whatever the operands. */
  lemma WideStepInRange(a: int, b: int, l: Round, first: bool)
    requires Tracked(a, b, l, first) && Abs(l.r) >= 2
    requires IsI64(a) && IsI64(b) && IsI64(l.oldR) && IsI64(l.r)
    ensures RoundFits(l)
  {
    WideRemainderInRange(l);
    HalvedInRange(l.oldS, l.s, l, (a < 0) == (b < 0), Abs(b));
    HalvedInRange(l.oldT, l.t, l, (a < 0) == (b < 0), Abs(a));
  }

  lemma GcdAtMostDivisor(m: nat, n: nat)
    requires n > 0
    ensures Gcd(m, n) <= n
  {
    var _, _ := GcdBezout(m, n);
    DividesLe(Gcd(m, n), n);
  }

  lemma {:induction false} CommonFactorRunFits(a: int, b: int, l: Round, first: bool)
    requires Tracked(a, b, l, first) && 2 <= Gcd(Abs(a), Abs(b)) < TWO_63
    requires IsI64(a) && IsI64(b) && IsI64(l.oldR) && IsI64(l.r)
    ensures RunFits(l)
    decreases Abs(l.r)
  {
    if l.r == 0 {
      assert Gcd(Abs(l.oldR), 0) == Abs(l.oldR);
    } else {
      GcdAtMostDivisor(Abs(l.oldR), Abs(l.r));
      WideStepInRange(a, b, l, first);
      TrackedStep(a, b, l, first);
      CommonFactorRunFits(a, b, Next(l), false);
    }
  }

  lemma CommonFactorFits(a: int, b: int)
    requires IsI64(a) && IsI64(b) && 2 <= Gcd(Abs(a), Abs(b)) < TWO_63
    ensures RunFits(Start(a, b))
  {
    TrackedStart(a, b);
    CommonFactorRunFits(a, b, Start(a, b), true);
  }

  lemma {:induction false} RunFitsLast(l: Round)
    requires RunFits(l) && l.r != 0
    ensures IsI64(Final(l).s) && IsI64(Final(l).t)
    decreases Abs(l.r)
  {
    if Next(l).r != 0 { RunFitsLast(Next(l)); }
  }

  lemma {:induction false} FinalMagnitude(l: Round)
    requires RunFits(l)
    ensures Abs(Final(l).oldR) < TWO_63
    decreases Abs(l.r)
  {
    if l.r != 0 { FinalMagnitude(Next(l)); }
  }
  /** Coprime operands of opposite signs: the last column is their magnitudes. */
  lemma LastColumn(a: int, b: int)
    requires (a < 0) != (b < 0) && Gcd(Abs(a), Abs(b)) == 1
    ensures Final(Start(a, b)).s == Abs(b) && Final(Start(a, b)).t == Abs(a)
  {
    TrackedStart(a, b);
    var last := TrackedFinal(a, b, Start(a, b), true);
    TrackedEnd(a, b, Final(Start(a, b)), last);
  }

  /** With casts of opposite signs one of which is -2^63, the run stays in int64 exactly when there is a common factor,
      and not 2^63 itself: otherwise the last column reaches 2^63. */
  lemma MinAndPositiveFitsIff(a: int, b: int)
    requires (a == -TWO_63 && 0 <= b < TWO_63) || (0 <= a < TWO_63 && b == -TWO_63)
    ensures RunFits(Start(a, b)) <==> 2 <= Gcd(Abs(a), Abs(b)) < TWO_63
  {
    var l, g := Start(a, b), Gcd(Abs(a), Abs(b));
    GcdPositive(Abs(a), Abs(b));
    if g == 1 {
      LastColumn(a, b);
      if RunFits(l) && l.r != 0 { RunFitsLast(l); }
    } else if g < TWO_63 {
      CommonFactorFits(a, b);
    } else {
      FinalGcd(l);
      if RunFits(l) { FinalMagnitude(l); }
    }
  }
}
