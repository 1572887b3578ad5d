/** How the Pratt parser groups: what it returns for short token lists, written out operator by operator. */
module PrattGrouping {

  import opened PrattParser

  /** One operator between two numbers; only division and modulo refuse, and only a right operand of zero. */
  lemma OneOperator<V>(a: Arith<V>, x: V, y: V)
    ensures ParseExpression(a, [Number(x), Op(Plus), Number(y)]) == Ok(a.add(x, y))
    ensures ParseExpression(a, [Number(x), Op(Minus), Number(y)]) == Ok(a.sub(x, y))
    ensures ParseExpression(a, [Number(x), Op(Star), Number(y)]) == Ok(a.mul(x, y))
    ensures ParseExpression(a, [Number(x), Op(Slash), Number(y)]) ==
      if a.isZero(y) then Failed(DivisionByZero) else Ok(a.div(x, y))
    ensures ParseExpression(a, [Number(x), Op(Percent), Number(y)]) ==
      if a.isZero(y) then Failed(DivisionByZero) else Ok(a.mod(x, y))
    ensures ParseExpression(a, [Number(x), Op(Caret), Number(y)]) == Ok(a.pow(x, y))
    ensures ParseExpression(a, [Number(x), Op(Exp10), Number(y)]) == Ok(a.shift10(x, y))
  {
    Between(a, x, Plus, y);
    Between(a, x, Minus, y);
    Between(a, x, Star, y);
    Between(a, x, Slash, y);
    Between(a, x, Percent, y);
    Between(a, x, Caret, y);
    Between(a, x, Exp10, y);
  }

  /** A sign, a root, a factorial or parentheses around one number. */
  lemma OneNumber<V>(a: Arith<V>, x: V)
    ensures ParseExpression(a, [Number(x)]) == Ok(x)
    ensures ParseExpression(a, [Op(Minus), Number(x)]) == Ok(a.neg(x))
    ensures ParseExpression(a, [Radical, Number(x)]) ==
      if a.isNegative(x) then Failed(BadOperand) else Ok(a.root(x))
    ensures ParseExpression(a, [Number(x), Bang]) ==
      if a.factDefined(x) then Ok(a.fact(x)) else Failed(BadOperand)
    ensures ParseExpression(a, [LParen, Number(x), RParen]) == Ok(x)
  {
    var n, s := Num(x), [Number(x)];
    NumberTree(a, x);
    Reads(a, n, s, s);
    NegTree(a, n, s);
    Reads(a, Neg(n), [Op(Minus)] + s, [Op(Minus), Number(x)]);
    RootTree(a, n, s);
    Reads(a, Root(n), [Radical] + s, [Radical, Number(x)]);
    FactTree(a, n, s);
    Reads(a, Fact(n), s + [Bang], [Number(x), Bang]);
    ParenTree(a, n, s);
    Reads(a, Paren(n), [LParen] + s + [RParen], [LParen, Number(x), RParen]);
  }

  /** A number next to parentheses is a product. */
  lemma ImplicitProduct<V>(a: Arith<V>, x: V, y: V)
    ensures ParseExpression(a, [Number(x), LParen, Number(y), RParen]) == Ok(a.mul(x, y))
  {
    var toks := [Number(x), LParen, Number(y), RParen];
    NumberTree(a, x);
    NumberTree(a, y);
    ParenTree(a, Num(y), [Number(y)]);
    JuxtTree(a, Num(x), [Number(x)], Paren(Num(y)), [LParen] + [Number(y)] + [RParen]);
    Reads(a, Juxt(Num(x), Paren(Num(y))), [Number(x)] + ([LParen] + [Number(y)] + [RParen]), toks);
  }

  predicate Additive(op: BinOp) {
    op == Plus || op == Minus
  }

  predicate Power(op: BinOp) {
    op == Caret || op == Exp10
  }

  /** Whether x op1 y op2 z means x op1 (y op2 z). */
  predicate GroupsRight(op1: BinOp, op2: BinOp) {
    if Additive(op1) then !Additive(op2) else !Power(op1) && Power(op2)
  }

  /** The value of r in front of, or behind, what follows: a failure stays a failure. */
  function Before<V>(a: Arith<V>, x: V, op: BinOp, r: Result<V>): Result<V> {
    if r.Failed? then r else ParseExpression(a, [Number(x), Op(op), Number(r.value)])
  }

  function After<V>(a: Arith<V>, l: Result<V>, op: BinOp, y: V): Result<V> {
    if l.Failed? then l else ParseExpression(a, [Number(l.value), Op(op), Number(y)])
  }

  /** Two operators between three numbers: what stands right of the first is taken together exactly when it binds
      tighter, so products before sums, powers before both, and otherwise from the left. */
  lemma TwoOperators<V>(a: Arith<V>, x: V, op1: BinOp, y: V, op2: BinOp, z: V)
    ensures ParseExpression(a, [Number(x), Op(op1), Number(y), Op(op2), Number(z)]) ==
      if GroupsRight(op1, op2) then Before(a, x, op1, ParseExpression(a, [Number(y), Op(op2), Number(z)]))
      else After(a, ParseExpression(a, [Number(x), Op(op1), Number(y)]), op2, z)
  {
    var toks := [Number(x), Op(op1), Number(y), Op(op2), Number(z)];
    if GroupsRight(op1, op2) {
      Between(a, y, op2, z);
      OnTheRight(a, x, op1, Bin(op2, Num(y), Num(z)), [Number(y), Op(op2), Number(z)], toks);
    } else {
      Between(a, x, op1, y);
      OnTheLeft(a, Bin(op1, Num(x), Num(y)), [Number(x), Op(op1), Number(y)], op2, z, toks);
    }
  }

  /** x ^ y ^ z groups to the left, whatever the rules table's comment says. */
  lemma CaretGroupsLeft<V>(a: Arith<V>, x: V, y: V, z: V)
    ensures ParseExpression(a, [Number(x), Op(Caret), Number(y), Op(Caret), Number(z)]) == Ok(a.pow(a.pow(x, y), z))
  {
    TwoOperators(a, x, Caret, y, Caret, z);
    OneOperator(a, x, y);
    OneOperator(a, a.pow(x, y), z);
  }

  /** A leading minus sign takes in a power and nothing else. */
  lemma MinusThenOperator<V>(a: Arith<V>, x: V, op: BinOp, y: V)
    ensures ParseExpression(a, [Op(Minus), Number(x), Op(op), Number(y)]) ==
      if Power(op) then
        var r := ParseExpression(a, [Number(x), Op(op), Number(y)]);
        if r.Failed? then r else Ok(a.neg(r.value))
      else ParseExpression(a, [Number(a.neg(x)), Op(op), Number(y)])
  {
    var toks, tail := [Op(Minus), Number(x), Op(op), Number(y)], [Number(x), Op(op), Number(y)];
    if Power(op) {
      Between(a, x, op, y);
      NegTree(a, Bin(op, Num(x), Num(y)), tail);
      Reads(a, Neg(Bin(op, Num(x), Num(y))), [Op(Minus)] + tail, toks);
    } else {
      NumberTree(a, x);
      NegTree(a, Num(x), [Number(x)]);
      OnTheLeft(a, Neg(Num(x)), [Op(Minus)] + [Number(x)], op, y, toks);
    }
  }

  /** So does a root sign. */
  lemma RootThenOperator<V>(a: Arith<V>, x: V, op: BinOp, y: V)
    ensures ParseExpression(a, [Radical, Number(x), Op(op), Number(y)]) ==
      if Power(op) then
        var r := ParseExpression(a, [Number(x), Op(op), Number(y)]);
        if r.Failed? then r else ParseExpression(a, [Radical, Number(r.value)])
      else After(a, ParseExpression(a, [Radical, Number(x)]), op, y)
  {
    var toks, tail := [Radical, Number(x), Op(op), Number(y)], [Number(x), Op(op), Number(y)];
    if Power(op) {
      Between(a, x, op, y);
      RootTree(a, Bin(op, Num(x), Num(y)), tail);
      Reads(a, Root(Bin(op, Num(x), Num(y))), [Radical] + tail, toks);
      var r := ParseExpression(a, tail);
      if r.Ok? { OneNumber(a, r.value); }
    } else {
      NumberTree(a, x);
      RootTree(a, Num(x), [Number(x)]);
      OneNumber(a, x);
      OnTheLeft(a, Root(Num(x)), [Radical] + [Number(x)], op, y, toks);
    }
  }

  /** After an operator a minus sign belongs to the number it stands before. */
  lemma OperatorThenMinus<V>(a: Arith<V>, x: V, op: BinOp, y: V)
    ensures ParseExpression(a, [Number(x), Op(op), Op(Minus), Number(y)]) ==
      ParseExpression(a, [Number(x), Op(op), Number(a.neg(y))])
  {
    NumberTree(a, y);
    NegTree(a, Num(y), [Number(y)]);
    OnTheRight(a, x, op, Neg(Num(y)), [Op(Minus)] + [Number(y)], [Number(x), Op(op), Op(Minus), Number(y)]);
  }

  /** A factorial sign takes in a whole power, and of a sum or a product only the last number. */
  lemma OperatorThenFactorial<V>(a: Arith<V>, x: V, op: BinOp, y: V)
    ensures ParseExpression(a, [Number(x), Op(op), Number(y), Bang]) ==
      if Power(op) then
        var l := ParseExpression(a, [Number(x), Op(op), Number(y)]);
        if l.Failed? then l else ParseExpression(a, [Number(l.value), Bang])
      else Before(a, x, op, ParseExpression(a, [Number(y), Bang]))
  {
    var toks, front := [Number(x), Op(op), Number(y), Bang], [Number(x), Op(op), Number(y)];
    if Power(op) {
      Between(a, x, op, y);
      FactTree(a, Bin(op, Num(x), Num(y)), front);
      Reads(a, Fact(Bin(op, Num(x), Num(y))), front + [Bang], toks);
      var l := ParseExpression(a, front);
      if l.Ok? { OneNumber(a, l.value); }
    } else {
      NumberTree(a, y);
      FactTree(a, Num(y), [Number(y)]);
      OneNumber(a, y);
      OnTheRight(a, x, op, Fact(Num(y)), [Number(y)] + [Bang], toks);
    }
  }

  /** A minus sign stands outside a factorial. */
  lemma MinusThenFactorial<V>(a: Arith<V>, x: V)
    ensures ParseExpression(a, [Op(Minus), Number(x), Bang]) ==
      var r := ParseExpression(a, [Number(x), Bang]);
      if r.Failed? then r else Ok(a.neg(r.value))
  {
    NumberTree(a, x);
    FactTree(a, Num(x), [Number(x)]);
    NegTree(a, Fact(Num(x)), [Number(x)] + [Bang]);
    Reads(a, Neg(Fact(Num(x))), [Op(Minus)] + ([Number(x)] + [Bang]), [Op(Minus), Number(x), Bang]);
    OneNumber(a, x);
  }

  /** An implicit product leaves a power to its right operand and is done before everything else. */
  lemma ProductThenOperator<V>(a: Arith<V>, x: V, y: V, op: BinOp, z: V)
    ensures ParseExpression(a, [Number(x), LParen, Number(y), RParen, Op(op), Number(z)]) ==
      if Power(op) then
        var r := ParseExpression(a, [Number(y), Op(op), Number(z)]);
        if r.Failed? then r else Ok(a.mul(x, r.value))
      else ParseExpression(a, [Number(a.mul(x, y)), Op(op), Number(z)])
  {
    var toks, s := [Number(x), LParen, Number(y), RParen, Op(op), Number(z)], [LParen, Number(y), RParen];
    var p := Paren(Num(y));
    NumberTree(a, x);
    NumberTree(a, y);
    NumberTree(a, z);
    ParenTree(a, Num(y), [Number(y)]);
    assert [LParen] + [Number(y)] + [RParen] == s;
    if Power(op) {
      BinTree(a, op, p, s, Num(z), [Number(z)]);
      Between(a, y, op, z);
      JuxtTree(a, Num(x), [Number(x)], Bin(op, p, Num(z)), s + [Op(op)] + [Number(z)]);
      Reads(a, Juxt(Num(x), Bin(op, p, Num(z))), [Number(x)] + (s + [Op(op)] + [Number(z)]), toks);
    } else {
      JuxtTree(a, Num(x), [Number(x)], p, s);
      OnTheLeft(a, Juxt(Num(x), p), [Number(x)] + s, op, z, toks);
    }
  }

  /** To the right of an operator it is done first only after a sum or a difference. */
  lemma OperatorThenProduct<V>(a: Arith<V>, x: V, op: BinOp, y: V, z: V)
    ensures ParseExpression(a, [Number(x), Op(op), Number(y), LParen, Number(z), RParen]) ==
      if Additive(op) then ParseExpression(a, [Number(x), Op(op), Number(a.mul(y, z))])
      else
        var l := ParseExpression(a, [Number(x), Op(op), Number(y)]);
        if l.Failed? then l else Ok(a.mul(l.value, z))
  {
    var toks, s := [Number(x), Op(op), Number(y), LParen, Number(z), RParen], [LParen, Number(z), RParen];
    var p := Paren(Num(z));
    NumberTree(a, y);
    NumberTree(a, z);
    ParenTree(a, Num(z), [Number(z)]);
    assert [LParen] + [Number(z)] + [RParen] == s;
    if Additive(op) {
      JuxtTree(a, Num(y), [Number(y)], p, s);
      OnTheRight(a, x, op, Juxt(Num(y), p), [Number(y)] + s, toks);
    } else {
      var front := [Number(x), Op(op), Number(y)];
      Between(a, x, op, y);
      JuxtTree(a, Bin(op, Num(x), Num(y)), front, p, s);
      Reads(a, Juxt(Bin(op, Num(x), Num(y)), p), front + s, toks);
    }
  }

  /** Parentheses on the left decide the grouping. */
  lemma ParenthesesLeft<V>(a: Arith<V>, x: V, op1: BinOp, y: V, op2: BinOp, z: V)
    ensures ParseExpression(a, [LParen, Number(x), Op(op1), Number(y), RParen, Op(op2), Number(z)]) ==
      After(a, ParseExpression(a, [Number(x), Op(op1), Number(y)]), op2, z)
  {
    var toks := [LParen, Number(x), Op(op1), Number(y), RParen, Op(op2), Number(z)];
    var e, s := Bin(op1, Num(x), Num(y)), [Number(x), Op(op1), Number(y)];
    Between(a, x, op1, y);
    ParenTree(a, e, s);
    OnTheLeft(a, Paren(e), [LParen] + s + [RParen], op2, z, toks);
  }

  /** And on the right. */
  lemma ParenthesesRight<V>(a: Arith<V>, x: V, op1: BinOp, y: V, op2: BinOp, z: V)
    ensures ParseExpression(a, [Number(x), Op(op1), LParen, Number(y), Op(op2), Number(z), RParen]) ==
      Before(a, x, op1, ParseExpression(a, [Number(y), Op(op2), Number(z)]))
  {
    var toks := [Number(x), Op(op1), LParen, Number(y), Op(op2), Number(z), RParen];
    var e, s := Bin(op2, Num(y), Num(z)), [Number(y), Op(op2), Number(z)];
    Between(a, y, op2, z);
    ParenTree(a, e, s);
    OnTheRight(a, x, op1, Paren(e), [LParen] + s + [RParen], toks);
  }

  /** Up to 255 signs, or 255 pairs of parentheses, may stand around a number. */
  lemma DepthLimit<V>(a: Arith<V>, x: V, n: nat)
    ensures ParseExpression(a, seq(n, i => Op(Minus)) + [Number(x)]).Ok? <==> n < 256
    ensures var r := ParseExpression(a, seq(n, i => LParen) + [Number(x)] + seq(n, i => RParen));
            if n < 256 then r == Ok(x) else r.Failed?
  {
    var e := Signs(a, x, n);
    ParsePrinted(a, e);
    var f := Parens(a, x, n);
    ParsePrinted(a, f);
  }

  lemma {:induction false} Signs<V>(a: Arith<V>, x: V, n: nat) returns (e: Expr<V>)
    ensures Readable(e) && FitsIn(e, 3) && Nesting(e) == n + 1 && Eval(a, e).Ok?
    ensures Render(e) == seq(n, i => Op(Minus)) + [Number(x)]
  {
    e := Num(x);
    if n > 0 {
      var inner := Signs(a, x, n - 1);
      e := Neg(inner);
      assert seq(n, i => Token<V>.Op(Minus)) == [Op(Minus)] + seq(n - 1, i => Op(Minus));
    }
  }

  lemma {:induction false} Parens<V>(a: Arith<V>, x: V, n: nat) returns (e: Expr<V>)
    ensures Readable(e) && Nesting(e) == n + 1 && Eval(a, e) == Ok(x)
    ensures Render(e) == seq(n, i => LParen) + [Number(x)] + seq(n, i => RParen)
  {
    e := Num(x);
    if n > 0 {
      var inner := Parens(a, x, n - 1);
      e := Paren(inner);
      assert seq(n, i => Token<V>.LParen) == [LParen] + seq(n - 1, i => LParen);
      assert seq(n, i => Token<V>.RParen) == seq(n - 1, i => RParen) + [RParen];
    }
  }

  // ---- numbers and operators in any number ----

  /** An operator and the number after it. */
  datatype Link<V> = Link(op: BinOp, v: V)

  function Flat<V>(x: V, rest: seq<Link<V>>): seq<Token<V>> {
    if rest == [] then [Number(x)]
    else
      var last := rest[|rest| - 1];
      Flat(x, rest[..|rest| - 1]) + [Op(last.op), Number(last.v)]
  }

  /** Sums and differences are level 0, products, quotients and remainders level 1, powers level 2. */
  function Level(op: BinOp): (l: nat)
    ensures l <= 2
  {
    if Additive(op) then 0 else if Power(op) then 2 else 1
  }

  /** The last operator of a level, or -1. */
  function LastOf<V>(rest: seq<Link<V>>, level: nat): (i: int)
    ensures -1 <= i < |rest|
    ensures i >= 0 ==> Level(rest[i].op) == level
    ensures forall j :: i < j < |rest| ==> Level(rest[j].op) != level
  {
    var n := |rest|;
    if n == 0 then -1 else if Level(rest[n - 1].op) == level then n - 1 else LastOf(rest[..n - 1], level)
  }

  ghost predicate FromLevel<V>(rest: seq<Link<V>>, level: nat) {
    forall i :: 0 <= i < |rest| ==> Level(rest[i].op) >= level
  }

  function Joined<V>(a: Arith<V>, l: Result<V>, op: BinOp, r: Result<V>): Result<V> {
    if l.Failed? then l else Before(a, l.value, op, r)
  }

  /** The customary reading: cut at the last operator of the lowest level, read both sides, and join them. */
  ghost function Customary<V>(a: Arith<V>, x: V, rest: seq<Link<V>>, level: nat): Result<V>
    requires level <= 3 && FromLevel(rest, level)
    decreases |rest|, 3 - level
  {
    var i := LastOf(rest, level);
    if rest == [] then Ok(x)
    else if i < 0 then Customary(a, x, rest, level + 1)
    else
      Joined(a, Customary(a, x, rest[..i], level), rest[i].op, Customary(a, rest[i].v, rest[i + 1..], level + 1))
  }

  /** However many operators stand between numbers, the parser reads them the customary way. */
  lemma FlatExpression<V>(a: Arith<V>, x: V, rest: seq<Link<V>>)
    ensures ParseExpression(a, Flat(x, rest)) == Customary(a, x, rest, 0)
  {
    var e := Build(a, x, rest, 0);
    Reads(a, e, Flat(x, rest), Flat(x, rest));
  }

  /** The tree of the customary reading. */
  ghost predicate Built<V>(a: Arith<V>, x: V, rest: seq<Link<V>>, level: nat, e: Expr<V>)
    requires level <= 3 && FromLevel(rest, level)
  {
    && Tree(e, Flat(x, rest)) && Eval(a, e) == Customary(a, x, rest, level)
    && FitsIn(e, level + 1) && StopsBelow(e, level)
  }

  ghost predicate StopsBelow<V>(e: Expr<V>, level: nat) {
    forall op :: Level(op) <= level ==> StopsAt(e, Op(op))
  }

  lemma {:induction false} Build<V>(a: Arith<V>, x: V, rest: seq<Link<V>>, level: nat) returns (e: Expr<V>)
    requires level <= 3 && FromLevel(rest, level)
    ensures Built(a, x, rest, level, e)
    decreases |rest|, 3 - level
  {
    var i := LastOf(rest, level);
    if rest == [] {
      e := Num(x);
      NumberTree(a, x);
    } else if i < 0 {
      e := Build(a, x, rest, level + 1);
      FitsLower(e, level + 2, level + 1);
    } else {
      CustomaryCut(a, x, rest, level, i);
      var l := Build(a, x, rest[..i], level);
      var r := Build(a, rest[i].v, rest[i + 1..], level + 1);
      e := Bin(rest[i].op, l, r);
      BuildBin(a, x, rest, level, i, l, r);
    }
  }

  lemma CustomaryCut<V>(a: Arith<V>, x: V, rest: seq<Link<V>>, level: nat, i: nat)
    requires level <= 2 && FromLevel(rest, level) && i < |rest| && i == LastOf(rest, level)
    ensures FromLevel(rest[..i], level) && FromLevel(rest[i + 1..], level + 1)
    ensures Customary(a, x, rest, level) ==
      Joined(a, Customary(a, x, rest[..i], level), rest[i].op, Customary(a, rest[i].v, rest[i + 1..], level + 1))
  {}

  lemma BuildBin<V>(a: Arith<V>, x: V, rest: seq<Link<V>>, level: nat, i: nat, l: Expr<V>, r: Expr<V>)
    requires i < |rest| && Level(rest[i].op) == level
    requires Tree(l, Flat(x, rest[..i])) && FitsIn(l, level + 1) && StopsBelow(l, level)
    requires Tree(r, Flat(rest[i].v, rest[i + 1..])) && FitsIn(r, level + 2) && StopsBelow(r, level + 1)
    ensures var e := Bin(rest[i].op, l, r);
            && Tree(e, Flat(x, rest)) && FitsIn(e, level + 1) && StopsBelow(e, level)
            && Eval(a, e) == Joined(a, Eval(a, l), rest[i].op, Eval(a, r))
  {
    var op := rest[i].op;
    BinEdges(op, level, l, r);
    BinTree(a, op, l, Flat(x, rest[..i]), r, Flat(rest[i].v, rest[i + 1..]));
    FlatSplits(x, rest, i);
    BinValue(a, op, Eval(a, l), Eval(a, r));
  }

  lemma BinEdges<V>(op: BinOp, level: nat, l: Expr<V>, r: Expr<V>)
    requires Level(op) == level && FitsIn(l, level + 1) && StopsBelow(l, level)
    requires FitsIn(r, level + 2) && StopsBelow(r, level + 1)
    ensures StopsAt(l, Op(op)) && FitsIn(r, OpPrecedence(op) + 1)
    ensures FitsIn(Bin(op, l, r), level + 1) && StopsBelow(Bin(op, l, r), level)
  {
    LevelIsPrecedence(op);
    forall o: BinOp | Level(o) <= level ensures StopsAt(Bin(op, l, r), Op(o)) {
      LevelIsPrecedence(o);
    }
  }

  lemma BinValue<V>(a: Arith<V>, op: BinOp, v: Result<V>, w: Result<V>)
    ensures Joined(a, v, op, w) == if v.Failed? then v else if w.Failed? then w else Apply(a, op, v.value, w.value)
  {
    if v.Ok? && w.Ok? { Between(a, v.value, op, w.value); }
  }

  lemma LevelIsPrecedence(op: BinOp)
    ensures OpPrecedence(op) == Level(op) + 1
  {}

  lemma {:induction false} FitsLower<V>(e: Expr<V>, p: nat, q: nat)
    requires FitsIn(e, p) && q <= p
    ensures FitsIn(e, q)
  {
    match e
    case Num(_) =>
    case Paren(_) =>
    case Neg(_) =>
    case Root(_) =>
    case Fact(x) => FitsLower(x, p, q);
    case Bin(_, l, _) => FitsLower(l, p, q);
    case Juxt(l, _) => FitsLower(l, p, q);
  }

  lemma {:induction false} FlatSplits<V>(x: V, rest: seq<Link<V>>, i: nat)
    requires i < |rest|
    ensures Flat(x, rest) == Flat(x, rest[..i]) + [Op(rest[i].op)] + Flat(rest[i].v, rest[i + 1..])
    decreases |rest|
  {
    var n := |rest| - 1;
    if i < n {
      FlatSplits(x, rest[..n], i);
      assert rest[..n][..i] == rest[..i] && rest[..n][i + 1..] == rest[i + 1..][..n - i - 1];
    } else {
      assert rest[i + 1..] == [];
    }
  }

  // ---- the trees behind these lists ----

  /** A small readable tree and the list it prints as. */
  ghost predicate Tree<V>(e: Expr<V>, toks: seq<Token<V>>) {
    Readable(e) && Nesting(e) <= 3 && Render(e) == toks
  }

  lemma Reads<V>(a: Arith<V>, e: Expr<V>, s: seq<Token<V>>, toks: seq<Token<V>>)
    requires Tree(e, s) && s == toks
    ensures ParseExpression(a, toks) == Eval(a, e)
  {
    ParsePrinted(a, e);
  }

  lemma NumberTree<V>(a: Arith<V>, x: V)
    ensures Tree(Num(x), [Number(x)]) && Nesting(Num(x)) == 1 && Eval(a, Num(x)) == Ok(x)
  {}

  lemma NegTree<V>(a: Arith<V>, e: Expr<V>, s: seq<Token<V>>)
    requires Tree(e, s) && Nesting(e) <= 2 && FitsIn(e, 3)
    ensures Tree(Neg(e), [Op(Minus)] + s)
    ensures Eval(a, Neg(e)) == var v := Eval(a, e); if v.Failed? then v else Ok(a.neg(v.value))
  {}

  lemma RootTree<V>(a: Arith<V>, e: Expr<V>, s: seq<Token<V>>)
    requires Tree(e, s) && Nesting(e) <= 2 && FitsIn(e, 3)
    ensures Tree(Root(e), [Radical] + s)
    ensures Eval(a, Root(e)) == var v := Eval(a, e); if v.Failed? then v else ApplyRoot(a, v.value)
  {}

  lemma FactTree<V>(a: Arith<V>, e: Expr<V>, s: seq<Token<V>>)
    requires Tree(e, s) && StopsAt(e, Bang)
    ensures Tree(Fact(e), s + [Bang]) && Nesting(Fact(e)) == Nesting(e)
    ensures Eval(a, Fact(e)) == var v := Eval(a, e); if v.Failed? then v else ApplyFact(a, v.value)
  {}

  lemma ParenTree<V>(a: Arith<V>, e: Expr<V>, s: seq<Token<V>>)
    requires Tree(e, s) && Nesting(e) <= 2
    ensures Tree(Paren(e), [LParen] + s + [RParen]) && Eval(a, Paren(e)) == Eval(a, e)
  {}

  lemma BinTree<V>(a: Arith<V>, op: BinOp, l: Expr<V>, s: seq<Token<V>>, r: Expr<V>, t: seq<Token<V>>)
    requires Tree(l, s) && Tree(r, t) && StopsAt(l, Op(op)) && FitsIn(r, OpPrecedence(op) + 1)
    ensures Tree(Bin(op, l, r), s + [Op(op)] + t)
    ensures Eval(a, Bin(op, l, r)) ==
      var v, w := Eval(a, l), Eval(a, r);
      if v.Failed? then v else if w.Failed? then w else Apply(a, op, v.value, w.value)
  {}

  lemma JuxtTree<V>(a: Arith<V>, l: Expr<V>, s: seq<Token<V>>, r: Expr<V>, t: seq<Token<V>>)
    requires Tree(l, s) && Tree(r, t) && StopsAt(l, LParen) && FitsIn(r, 3) && StartsWithParen(r)
    ensures Tree(Juxt(l, r), s + t)
    ensures Eval(a, Juxt(l, r)) ==
      var v, w := Eval(a, l), Eval(a, r);
      if v.Failed? then v else if w.Failed? then w else Ok(a.mul(v.value, w.value))
  {}

  /** Two numbers with an operator between them. */
  lemma Between<V>(a: Arith<V>, x: V, op: BinOp, y: V)
    ensures var e, toks := Bin(op, Num(x), Num(y)), [Number(x), Op(op), Number(y)];
            && Tree(e, toks) && Nesting(e) == 1
            && ParseExpression(a, toks) == Eval(a, e) == Apply(a, op, x, y)
  {
    NumberTree(a, x);
    NumberTree(a, y);
    BinTree(a, op, Num(x), [Number(x)], Num(y), [Number(y)]);
    assert [Number(x)] + [Op(op)] + [Number(y)] == [Number(x), Op(op), Number(y)];
    Reads(a, Bin(op, Num(x), Num(y)), [Number(x)] + [Op(op)] + [Number(y)], [Number(x), Op(op), Number(y)]);
  }

  /** A tree as the right operand of a number. */
  lemma OnTheRight<V>(a: Arith<V>, x: V, op: BinOp, r: Expr<V>, t: seq<Token<V>>, toks: seq<Token<V>>)
    requires Tree(r, t) && FitsIn(r, OpPrecedence(op) + 1) && toks == [Number(x), Op(op)] + t
    ensures ParseExpression(a, toks) == Before(a, x, op, Eval(a, r))
  {
    NumberTree(a, x);
    BinTree(a, op, Num(x), [Number(x)], r, t);
    Reads(a, Bin(op, Num(x), r), [Number(x)] + [Op(op)] + t, toks);
    var w := Eval(a, r);
    if w.Ok? { Between(a, x, op, w.value); }
  }

  /** A tree as the left operand of a number. */
  lemma OnTheLeft<V>(a: Arith<V>, l: Expr<V>, s: seq<Token<V>>, op: BinOp, y: V, toks: seq<Token<V>>)
    requires Tree(l, s) && StopsAt(l, Op(op)) && toks == s + [Op(op), Number(y)]
    ensures ParseExpression(a, toks) == After(a, Eval(a, l), op, y)
  {
    NumberTree(a, y);
    BinTree(a, op, l, s, Num(y), [Number(y)]);
    Reads(a, Bin(op, l, Num(y)), s + [Op(op)] + [Number(y)], toks);
    var v := Eval(a, l);
    if v.Ok? { Between(a, v.value, op, y); }
  }
}
