/** extended_gcd, when its gcd is the gcd, and mod_inverse. */
module Bezout {
  import opened Common
  import opened Words
  import opened Arithmetic
  import opened Divisibility
  import opened BinaryGcd
  import opened SignedEuclid

  /** The remark that the gcd stays right beyond 2^63 fails: the cast to int64 turns 2^64 - 1 into -1. */
  lemma LargeOperandGcdWrong()
    ensures SignedGcd(ToI64(TWO_64 - 1), ToI64(3)) == 1
    ensures Gcd(TWO_64 - 1, 3) == 3
  {
    SignedGcdIsGcd(-1, 3);
    GcdSymmetric(1, 3);
    assert Gcd(3, 1) == 1;
    ThreeDivides(TWO_64 - 1, 6148914691236517205);
  }

  lemma ThreeDivides(n: nat, k: nat)
    requires n == k * 3
    ensures Gcd(n, 3) == 3
  {
    DivModUnique(n, 3, k, 0);
  }

  // ---- when the gcd of the casts is the gcd ----

  /** An odd number that divides a power of two is 1. */
  lemma OddDividesPower(o: nat, e: nat)
    requires o % 2 == 1 && Divides(o, TwoTo(e))
    ensures o == 1
  {
    OddGcdIgnoresTwos(o, 1, e);
    assert Gcd(o, 1) == Gcd(1, o % 1) == 1;
    DividesFrom(o, o, 1);
    GcdGreatest(o, TwoTo(e), o);
    DividesLe(o, 1);
  }

  lemma OddPartDivides(n: nat)
    requires n > 0
    ensures Divides(OddPart(n), n) && Divides(TwoTo(TrailingZeros(n)), n)
  {
    OddPartSplits(n);
    DividesFrom(OddPart(n), n, TwoTo(TrailingZeros(n)));
    DividesFrom(TwoTo(TrailingZeros(n)), n, OddPart(n));
  }

  /** A divisor of a power of two has no odd part. */
  lemma DividesPower(g: nat, e: nat)
    requires g > 0 && Divides(g, TwoTo(e))
    ensures OddPart(g) == 1
  {
    OddPartDivides(g);
    OddPartSplits(g);
    DividesTransitive(OddPart(g), g, TwoTo(e));
    OddDividesPower(OddPart(g), e);
  }

  /** Of two powers of two the smaller divides the larger. */
  lemma PowerDividesPower(g: nat, e: nat)
    requires g > 0 && OddPart(g) == 1 && g < TwoTo(e)
    ensures Divides(g, TwoTo(e))
  {
    OddPartSplits(g);
    var i := TrailingZeros(g);
    assert g == TwoTo(i);
    if i >= e {
      TwoToGrows(e, i - e);
    } else {
      TwoToAdd(i, e - i);
      MulCommutes(TwoTo(i), TwoTo(e - i));
      DividesFrom(g, TwoTo(e), TwoTo(e - i));
    }
  }

  lemma TwoToGrows(e: nat, f: nat)
    ensures TwoTo(e + f) >= TwoTo(e)
  {
    TwoToAdd(e, f);
    MulLe(1, TwoTo(f), TwoTo(e));
  }

  lemma TwoToDouble(e: nat, f: nat, v: nat)
    requires TwoTo(e) == v && f == e + e
    ensures TwoTo(f) == v * v
  {
    TwoToAdd(e, e);
  }

  lemma WordRange()
    ensures TwoTo(64) == TWO_64
  {
    TwoToDouble(1, 2, 2);
    TwoToDouble(2, 4, 4);
    TwoToDouble(4, 8, 16);
    TwoToDouble(8, 16, 256);
    TwoToDouble(16, 32, 65536);
    TwoToDouble(32, 64, TWO_32);
  }

  lemma CastMagnitude(a: u64)
    ensures Abs(ToI64(a)) == if a < TWO_63 then a else TWO_64 - a
  {}

  /** A power of two divides a word exactly when it divides the magnitude of its cast. */
  lemma PowerDividesCast(g: nat, a: u64)
    requires g > 0 && OddPart(g) == 1
    ensures Divides(g, a) <==> Divides(g, Abs(ToI64(a)))
  {
    CastMagnitude(a);
    if a >= TWO_63 && (Divides(g, a) || Divides(g, TWO_64 - a)) {
      WordRange();
      DividesLe(g, if Divides(g, a) then a else TWO_64 - a);
      PowerDividesPower(g, 64);
      if Divides(g, a) { DividesLinear(g, TWO_64, a, 1, -1); }
      if Divides(g, TWO_64 - a) { DividesLinear(g, TWO_64, TWO_64 - a, 1, -1); }
    }
  }

  /** What divides a word from 2^63 on and its cast divides 2^64. */
  lemma DividesWordAndCast(g: nat, a: u64)
    requires g > 0 && a >= TWO_63 && Divides(g, a) && Divides(g, Abs(ToI64(a)))
    ensures OddPart(g) == 1
  {
    CastMagnitude(a);
    WordRange();
    DividesLinear(g, a, TWO_64 - a, 1, 1);
    DividesPower(g, 64);
  }

  function CastGcd(a: u64, b: u64): nat {
    Gcd(Abs(ToI64(a)), Abs(ToI64(b)))
  }

  /** The operands are below 2^63, or neither they nor their casts share an odd divisor other than 1 and the casts are
      not -2^63 and -1. */
  predicate CastKeepsGcd(a: u64, b: u64)
    requires a != 0 || b != 0
  {
    BothPositive(a, b);
    (a < TWO_63 && b < TWO_63) ||
    (OddPart(Gcd(a, b)) == 1 && OddPart(CastGcd(a, b)) == 1 && !MinAndMinusOne(a, b))
  }

  lemma BothPositive(a: u64, b: u64)
    requires a != 0 || b != 0
    ensures Gcd(a, b) > 0 && CastGcd(a, b) > 0
  {
    CastMagnitude(a);
    CastMagnitude(b);
    GcdPositive(a, b);
    GcdPositive(Abs(ToI64(a)), Abs(ToI64(b)));
  }

  /** The gcd of the casts is the gcd when both are below 2^63 or neither pair shares an odd divisor other than 1. */
  lemma CastGcdEqualIff(a: u64, b: u64)
    requires (a != 0 || b != 0) && Gcd(a, b) > 0 && CastGcd(a, b) > 0
    ensures CastGcd(a, b) == Gcd(a, b) <==>
      (a < TWO_63 && b < TWO_63) || (OddPart(Gcd(a, b)) == 1 && OddPart(CastGcd(a, b)) == 1)
  {
    CastMagnitude(a);
    CastMagnitude(b);
    var g, h := Gcd(a, b), CastGcd(a, b);
    var _, _ := GcdBezout(a, b);
    var _, _ := GcdBezout(Abs(ToI64(a)), Abs(ToI64(b)));
    if g == h {
      if a >= TWO_63 { DividesWordAndCast(g, a); }
      if b >= TWO_63 { DividesWordAndCast(g, b); }
    } else if OddPart(g) == 1 && OddPart(h) == 1 {
      PowerDividesCast(g, a);
      PowerDividesCast(g, b);
      PowerDividesCast(h, a);
      PowerDividesCast(h, b);
      GcdGreatest(Abs(ToI64(a)), Abs(ToI64(b)), g);
      GcdGreatest(a, b, h);
      DividesAntisymmetric(g, h);
    }
  }

  /** The loop runs to its end and arrives at the gcd exactly then. */
  lemma CastGcdIff(a: u64, b: u64)
    requires a != 0 || b != 0
    ensures !EverFaults(Start(ToI64(a), ToI64(b))) && SignedGcd(ToI64(a), ToI64(b)) == Gcd(a, b) <==> CastKeepsGcd(a, b)
  {
    FaultIff(a, b);
    SignedGcdIsGcd(ToI64(a), ToI64(b));
    BothPositive(a, b);
    CastGcdEqualIff(a, b);
  }

  /** Sharing no odd divisor with x is being coprime to x but for the factors two. */
  lemma NoCommonOddIff(x: nat, b: nat)
    requires b > 0
    ensures Gcd(x, b) > 0 && (OddPart(Gcd(x, b)) == 1 <==> Coprime(OddPart(b), x))
  {
    GcdPositive(x, b);
    if Coprime(OddPart(b), x) { OddCoprimeShare(x, b); }
    if OddPart(Gcd(x, b)) == 1 { NoOddShare(x, b); }
  }

  lemma OddDivisor(c: nat, o: nat)
    requires o % 2 == 1 && Divides(c, o)
    ensures c % 2 == 1
  {
    if c % 2 == 0 { DividesFrom(2, c, c / 2); DividesTransitive(2, c, o); }
  }

  lemma NoOddShare(x: nat, b: nat)
    requires b > 0 && Gcd(x, b) > 0 && OddPart(Gcd(x, b)) == 1
    ensures Coprime(OddPart(b), x)
  {
    var g, o := Gcd(x, b), OddPart(b);
    OddPartSplits(g);
    OddPartSplits(b);
    OddPartDivides(b);
    var c := Gcd(o, x);
    var _, _ := GcdBezout(o, x);
    DividesTransitive(c, o, b);
    GcdGreatest(x, b, c);
    OddDivisor(c, o);
    OddDividesPower(c, TrailingZeros(g));
  }

  lemma OddCoprimeShare(x: nat, b: nat)
    requires b > 0 && Gcd(x, b) > 0 && Coprime(OddPart(b), x)
    ensures OddPart(Gcd(x, b)) == 1
  {
    var g, o, p := Gcd(x, b), OddPart(b), TwoTo(TrailingZeros(b));
    var d := OddPart(g);
    OddPartSplits(g);
    OddPartSplits(b);
    OddPartDivides(g);
    var _, _ := GcdBezout(x, b);
    DividesTransitive(d, g, x);
    DividesTransitive(d, g, b);
    OddGcdIgnoresTwos(d, 1, TrailingZeros(b));
    assert Gcd(d, 1) == Gcd(1, d % 1) == 1;
    CoprimeDivides(d, p, o);
    GcdGreatest(o, x, d);
    DividesLe(d, 1);
  }

  /** With one operand from 2^63 on, the gcd is right exactly when the odd part of the other is coprime to it and
      to what it lacks to 2^64. */
  lemma OneLargeOperandIff(a: u64, b: u64)
    requires a >= TWO_63 > b > 0
    ensures !EverFaults(Start(ToI64(a), ToI64(b)))
    ensures SignedGcd(ToI64(a), ToI64(b)) == Gcd(a, b) <==>
      Coprime(OddPart(b), a) && Coprime(OddPart(b), TWO_64 - a)
  {
    FaultIff(a, b);
    CastGcdIff(a, b);
    CastMagnitude(a);
    CastMagnitude(b);
    NoCommonOddIff(a, b);
    NoCommonOddIff(TWO_64 - a, b);
  }

  // ---- the operand 2^63 ----

  lemma GcdWithMin(b: nat)
    requires 0 < b < TWO_63
    ensures 2 <= Gcd(TWO_63, b) < TWO_63 <==> b % 2 == 0
  {
    GcdAtMostDivisor(TWO_63, b);
    GcdPositive(TWO_63, b);
    TwoToDouble(1, 2, 2);
    TwoToAdd(63, 1);
    WordRange();
    if b % 2 == 1 {
      OddGcdIgnoresTwos(b, 1, 63);
      assert Gcd(b, 1) == Gcd(1, b % 1) == 1;
      GcdSymmetric(TWO_63, b);
    } else {
      DividesFrom(2, b, b / 2);
      DividesFrom(2, TWO_63, TWO_63 / 2);
      GcdGreatest(TWO_63, b, 2);
      DividesLe(2, Gcd(TWO_63, b));
    }
  }

  /** With 2^63 and an operand below it, the run stays in int64 exactly when that operand is even and not 0. */
  lemma MinOperandFitsIff(b: u64)
    requires b < TWO_63
    ensures RunFits(Start(ToI64(TWO_63), ToI64(b))) <==> b > 0 && b % 2 == 0
    ensures RunFits(Start(ToI64(b), ToI64(TWO_63))) <==> b > 0 && b % 2 == 0
  {
    MinAndPositiveFitsIff(-TWO_63, b);
    MinAndPositiveFitsIff(b, -TWO_63);
    GcdSymmetric(b, TWO_63);
    if b > 0 { GcdWithMin(b); } else { assert Gcd(TWO_63, 0) == TWO_63; }
  }

  lemma FitsWithFactor(a: u64, b: u64)
    requires 2 <= CastGcd(a, b) < TWO_63
    ensures RunFits(Start(ToI64(a), ToI64(b))) && RunFits(Start(ToI64(b), ToI64(a)))
  {
    GcdSymmetric(Abs(ToI64(a)), Abs(ToI64(b)));
    CommonFactorFits(ToI64(a), ToI64(b));
    CommonFactorFits(ToI64(b), ToI64(a));
  }

  /** With 2^63 and an even operand above it everything fits, too. */
  lemma MinOperandEvenFits(a: u64, b: u64)
    requires a == TWO_63 < b && b % 2 == 0
    ensures RunFits(Start(ToI64(a), ToI64(b))) && RunFits(Start(ToI64(b), ToI64(a)))
  {
    CastMagnitude(a);
    CastMagnitude(b);
    GcdWithMin(Abs(ToI64(b)));
    FitsWithFactor(a, b);
  }

  // ---- extended_gcd ----

  /** The signed sum of multiples that Bezout's identity speaks of. */
  function Combination(a: u64, b: u64, x: int, y: int): int {
    x * ToI64(a) + y * ToI64(b)
  }

  /** g is the gcd of the casts, with int64 Bezout coefficients up to its sign that are no larger than the other cast
      over g; below 2^63 it is the gcd of the operands, and the sign is right. */
  ghost predicate IsResult(a: u64, b: u64, x: int, y: int, g: nat) {
    && g == CastGcd(a, b) > 0 && IsI64(x) && IsI64(y) && Abs(Combination(a, b, x, y)) == g
    && Abs(x) <= Max(1, Abs(ToI64(b)) / g) && Abs(y) <= Max(1, Abs(ToI64(a)) / g)
    && (b != 0 ==> 2 * Abs(x) <= Abs(ToI64(b)) / g)
    && (a < TWO_63 && b < TWO_63 ==> g == Gcd(a, b) == Combination(a, b, x, y))
  }

  lemma FinalIsResult(a: u64, b: u64)
    requires a != 0 || b != 0
    ensures var f := Final(Start(ToI64(a), ToI64(b))); IsResult(a, b, f.oldS, f.oldT, Abs(f.oldR))
  {
    CastMagnitude(a);
    CastMagnitude(b);
    RunResult(ToI64(a), ToI64(b));
    FloorTimes(Abs(ToI64(a)), CastGcd(a, b));
    FloorTimes(Abs(ToI64(b)), CastGcd(a, b));
  }

  lemma ResultFacts(a: u64, b: u64, x: int, y: int, g: nat)
    requires a != 0 || b != 0
    requires var f := Final(Start(ToI64(a), ToI64(b))); x == f.oldS && y == f.oldT && g == Abs(f.oldR)
    ensures IsResult(a, b, x, y, g)
    ensures !EverFaults(Start(ToI64(a), ToI64(b))) && g == Gcd(a, b) <==> CastKeepsGcd(a, b)
  {
    FinalIsResult(a, b);
    CastGcdIff(a, b);
  }

  /** The loop of extended_gcd. */
  method EuclidLoop(a: int, b: int) returns (oldR: int, oldS: int, oldT: int)
    ensures var f := Final(Start(a, b)); oldR == f.oldR && oldS == f.oldS && oldT == f.oldT
  {
    var r, s, t := b, 0, 1;
    oldR, oldS, oldT := a, 1, 0;
    while r != 0
      invariant Final(Round(oldR, r, oldS, s, oldT, t)) == Final(Start(a, b))
      decreases Abs(r)
    {
      ghost var next := Next(Round(oldR, r, oldS, s, oldT, t));
      var q := TruncDiv(oldR, r);
      var tmp := r;
      r := oldR - q * r;
      oldR := tmp;
      tmp := s;
      s := oldS - q * s;
      oldS := tmp;
      tmp := t;
      t := oldT - q * t;
      oldT := tmp;
      assert Round(oldR, r, oldS, s, oldT, t) == next;
    }
  }

  /** The loop computes Final, whose coefficients are right for all operands; the gcd is that of the operands, and the
      machine refuses no division, exactly when CastKeepsGcd. That nothing on the way leaves int64, apart from the
      operand 2^63, is EveryRoundFits. */
  method ExtendedGcd(a: u64, b: u64) returns (ok: bool, x: int, y: int, g: nat)
    ensures ok <==> a != 0 || b != 0
    ensures ok ==> var f := Final(Start(ToI64(a), ToI64(b))); x == f.oldS && y == f.oldT && g == Abs(f.oldR)
    ensures ok ==> IsResult(a, b, x, y, g)
    ensures ok ==> (!EverFaults(Start(ToI64(a), ToI64(b))) && g == Gcd(a, b) <==> CastKeepsGcd(a, b))
  {
    if a == 0 && b == 0 { return false, 0, 0, 0; }
    var oldR: int;
    oldR, x, y := EuclidLoop(ToI64(a), ToI64(b));
    g := if oldR < 0 then -oldR else oldR;
    ResultFacts(a, b, x, y, g);
    ok := true;
  }

  // ---- mod_inverse ----

  lemma InverseFromBezout(a: nat, m: nat, x: int, y: int, r: int)
    requires m > 1 && x * a + y * m == 1 && Congruent(r, x, m)
    ensures (a * r) % m == 1
  {
    CongruentMul(a, a, r, x, m);
    assert a * x == 1 + (-y) * m;
    CongruentFrom(a * x, 1, m, -y);
    DivModUnique(1, m, 0, 1);
  }

  lemma InverseMeansCoprime(a: nat, m: nat, r: int)
    requires m > 1 && (a * r) % m == 1
    ensures Coprime(a, m)
  {
    CoprimeIff(a, m);
    forall d: nat | Divides(d, a) && Divides(d, m) ensures d == 1 {
      DivModDefinition(a * r, m);
      DividesLinear(d, a, m, r, -((a * r) / m));
      assert r * a + -((a * r) / m) * m == 1;
      DividesLe(d, 1);
    }
  }

  /** The residue ModInverse returns is the only one that can be. */
  lemma InverseUnique(a: nat, m: nat, r: nat, r': nat)
    requires m > 1 && r < m && r' < m && (a * r) % m == 1 && (a * r') % m == 1
    ensures r == r'
  {
    InverseMeansCoprime(a, m, r);
    GcdSymmetric(a, m);
    var k := CongruentWitness(a * r, a * r', m);
    assert a * (r - r') == k * m;
    DividesFrom(m, a * (r - r'), k);
    CoprimeDivides(m, a, r - r');
    if r > r' { DividesLe(m, r - r'); }
    if r < r' { DividesMul(m, r - r', -1); DividesLe(m, r' - r); }
  }

  /** The inverse the code looks for: in the lower half of [0, m) only if adding m to it stays below 2^63. */
  ghost predicate InverseFits(a: u64, m: u64)
    requires m > 0
  {
    forall r: nat :: r < m && (a * r) % m == 1 ==> 2 * r > m || r + m < TWO_63
  }

  /** Up to a third of 2^64 every modulus qualifies. */
  lemma SmallModulusFits(a: u64, m: u64)
    requires 0 < m <= TWO_64 / 3
    ensures InverseFits(a, m)
  {}

  /** Beyond, not every one does: 1 modulo 2^63 - 1. */
  lemma InverseCanOverflow()
    ensures !InverseFits(1, TWO_63 - 1)
  {
    DivModUnique(1, TWO_63 - 1, 0, 1);
    assert 1 < TWO_63 - 1 && (1 * 1) % (TWO_63 - 1) == 1;
  }

  /** What the last line makes of a coefficient: (x % m + m) % m in int64, cast back. */
  function Normalised(x: int, m: i64): u64
    requires m != 0
  {
    Wrap64(TruncMod(ToI64(Wrap64(TruncMod(x, m) + m)), m))
  }

  lemma TruncModSmall(x: int, m: int)
    requires m > 0 && -m < x < m
    ensures TruncMod(x, m) == x
  {
    DivModUnique(Abs(x), m, 0, Abs(x));
  }

  lemma NormalisedNegative(x: int, m: i64)
    requires m > 1 && -m < x < 0
    ensures Normalised(x, m) == x + m
  {
    TruncModSmall(x, m);
    TruncModSmall(x + m, m);
    WrapSmall(x + m);
  }

  lemma NormalisedPositive(x: int, m: i64)
    requires m > 1 && 0 < x < m && x + m < TWO_63
    ensures Normalised(x, m) == x
  {
    TruncModSmall(x, m);
    WrapSmall(x + m);
    DivModUnique(x + m, m, 1, x);
    WrapSmall(x);
  }

  lemma CastNegative(v: int)
    requires -TWO_63 <= v < 0
    ensures Wrap64(v) == v + TWO_64 && ToI64(v + TWO_64) == v
  {
    DivModUnique(v, TWO_64, -1, v + TWO_64);
  }

  lemma NegativeRemainder(v: int, m: int)
    requires m > 0 && v < 0
    ensures -m < TruncMod(v, m) <= 0
  {
    TruncModMagnitude(v, m);
    DivModDefinition(Abs(v), m);
    TruncDivMagnitude(v, m);
  }

  /** A sum that wraps to a negative int64 ends as 0 or as a word above the modulus. */
  lemma NormalisedOverflow(x: int, m: i64)
    requires m > 1 && 0 < x < m && x + m >= TWO_63
    ensures Normalised(x, m) == 0 || Normalised(x, m) >= m
  {
    var v: int := x + m - TWO_64;
    TruncModSmall(x, m);
    WrapSmall(x + m);
    assert ToI64(Wrap64(TruncMod(x, m) + m)) == v;
    NegativeRemainder(v, m);
    var w: int := TruncMod(v, m);
    if w < 0 { CastNegative(w); }
  }

  /** Which of the two residues of a coefficient the inverse is. */
  lemma InverseIs(a: nat, m: nat, x: int, y: int)
    requires m > 1 && x * a + y * m == 1 && 2 * Abs(x) <= m
    ensures x != 0 && var r := if x > 0 then x else x + m; 0 < r < m && (a * r) % m == 1
  {
    if x == 0 { MultipleNotOne(y, m); }
    var r := if x > 0 then x else x + m;
    CongruentFrom(r, x, m, if x > 0 then 0 else 1);
    InverseFromBezout(a, m, x, y, r);
  }

  lemma MultipleNotOne(y: int, m: nat)
    requires m > 1
    ensures y * m != 1
  {
    if y >= 1 { MulLe(1, y, m); } else { MulLe(y, 0, m); }
  }

  /** Half the modulus is an inverse only modulo 2. */
  lemma HalfInverse(a: nat, m: nat, x: int, y: int)
    requires m > 1 && x * a + y * m == 1 && m == -2 * x
    ensures m == 2
  {
    var h: nat := -x;
    assert y * m == (2 * y) * h by { MulAssociative(2 * y, 1, h); assert y * (2 * h) == (2 * y) * h; }
    DividesFrom(h, 1, 2 * y - a);
    DividesLe(h, 1);
  }

  lemma NormalisedIff(a: u64, m: u64, x: int, y: int)
    requires 1 < m < TWO_63 && x * a + y * m == 1 && 2 * Abs(x) <= m
    ensures var r := Normalised(x, ToI64(m)); r < m && (a * r) % m == 1 <==> InverseFits(a, m)
  {
    InverseIs(a, m, x, y);
    var inv := if x > 0 then x else x + m;
    forall r: nat | r < m && (a * r) % m == 1 ensures r == inv { InverseUnique(a, m, r, inv); }
    if x < 0 {
      NormalisedNegative(x, m);
      if 2 * inv <= m { HalfInverse(a, m, x, y); }
    } else if x + m < TWO_63 {
      NormalisedPositive(x, m);
    } else {
      NormalisedOverflow(x, m);
    }
  }

  /** Below 2^63 the answer tells whether there is an inverse, and is the inverse exactly when InverseFits, as for every
      modulus up to a third of 2^64. */
  method ModInverse(a: u64, m: u64) returns (ok: bool, result: u64)
    ensures a < TWO_63 && m < TWO_63 ==> (ok <==> m > 1 && Coprime(a, m))
    ensures a < TWO_63 && m < TWO_63 && ok ==> (result < m && (a * result) % m == 1 <==> InverseFits(a, m))
    ensures a < TWO_63 && 0 < m <= TWO_64 / 3 ==> InverseFits(a, m)
  {
    result := 0;
    if 0 < m <= TWO_64 / 3 { SmallModulusFits(a, m); }
    if m <= 1 { return false, 0; }
    var found, x, y, g := ExtendedGcd(a, m);
    if !found || g != 1 { return false, 0; }
    var sm := ToI64(m);
    if a < TWO_63 && m < TWO_63 { NormalisedIff(a, m, x, y); }
    x := TruncMod(ToI64(Wrap64(TruncMod(x, sm) + sm)), sm);
    return true, Wrap64(x);
  }
}
