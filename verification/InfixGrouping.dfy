/** How the shunting-yard compiler groups and what the RPN machine computes, for short token lists written out operator
    by operator. */
module InfixGrouping {

  import opened Common
  import opened ShuntingYard

  // ---- single steps of the machine ----

  /** The four operators on two numbers; only a divisor of zero stops the machine. */
  lemma CodeOfOneOperator<V>(a: Arith<V>, x: V, y: V)
    ensures Evaluate(a, [RNumber(x), RNumber(y), ROperator(Binary(Plus))]) == Value(a.add(x, y))
    ensures Evaluate(a, [RNumber(x), RNumber(y), ROperator(Binary(Minus))]) == Value(a.sub(x, y))
    ensures Evaluate(a, [RNumber(x), RNumber(y), ROperator(Binary(Star))]) == Value(a.mul(x, y))
    ensures Evaluate(a, [RNumber(x), RNumber(y), ROperator(Binary(Slash))]) ==
      if a.isZero(y) then DivisionByZero else Value(a.div(x, y))
  {
    TwoPushed(a, x, y, ROperator(Binary(Plus)));
    TwoPushed(a, x, y, ROperator(Binary(Minus)));
    TwoPushed(a, x, y, ROperator(Binary(Star)));
    TwoPushed(a, x, y, ROperator(Binary(Slash)));
  }

  /** The two operations on one number; a function code that travels as an operator takes two numbers and leaves
      zero. */
  lemma CodeOfOneNumber<V>(a: Arith<V>, x: V, y: V, f: Function)
    ensures Evaluate(a, [RNumber(x)]) == Value(x)
    ensures Evaluate(a, [RNumber(x), ROperator(Negate)]) == Value(a.neg(x))
    ensures Evaluate(a, [RNumber(x), RCall(f)]) == Value(a.call(f, x))
    ensures Evaluate(a, [RNumber(x), RNumber(y), ROperator(Call(f))]) == Value(a.zero)
  {
    OnePushed(a, x, RNumber(y));
    OnePushed(a, x, ROperator(Negate));
    OnePushed(a, x, RCall(f));
    TwoPushed(a, x, y, ROperator(Call(f)));
  }

  /** Code that leaves nothing, leaves two numbers, or finds too few, ends in the error value. */
  lemma CodeWithoutValue<V>(a: Arith<V>, x: V, y: V, f: Function, op: StackOp)
    ensures Evaluate(a, []) == ErrorValue
    ensures Evaluate(a, [RNumber(x), RNumber(y)]) == ErrorValue
    ensures Evaluate(a, [RCall(f)]) == ErrorValue
    ensures Evaluate(a, [ROperator(op)]) == ErrorValue
    ensures op != Negate ==> Evaluate(a, [RNumber(x), ROperator(op)]) == ErrorValue
  {
    OnePushed(a, x, RNumber(y));
    OnePushed(a, x, ROperator(op));
    ExecuteOne(a, [], RCall(f));
    ExecuteOne(a, [], ROperator(op));
  }

  /** The stack holds 128 numbers: adding up n of them, pushed first, works up to there. */
  lemma StackLimit<V>(a: Arith<V>, x: V, n: nat)
    requires n >= 1
    ensures Evaluate(a, seq(n, i => RNumber(x)) + seq(n - 1, i => ROperator(Binary(Plus)))).Value? <==> n <= 128
  {
    var pushes: seq<Rpn<V>> := seq(n, i => RNumber(x));
    var sums: seq<Rpn<V>> := seq(n - 1, i => ROperator(Binary(Plus)));
    Pushes(a, [], x, n);
    ExecuteConcat(a, [], pushes, sums);
    if n <= 128 {
      Sums(a, Execute(a, [], pushes).stack, n - 1);
    }
  }

  // ---- from the token list to the value ----

  /** The value of a token list: compiled, then run. */
  function Reading<V>(a: Arith<V>, toks: seq<Token<V>>): Option<Result<V>> {
    var code := Compile(toks);
    if code.None? then None else Some(Evaluate(a, code.value))
  }

  /** One operator between two numbers. */
  lemma OneOperator<V>(a: Arith<V>, x: V, y: V)
    ensures Reading(a, [Number(x), Op(Plus), Number(y)]) == Some(Value(a.add(x, y)))
    ensures Reading(a, [Number(x), Op(Minus), Number(y)]) == Some(Value(a.sub(x, y)))
    ensures Reading(a, [Number(x), Op(Star), Number(y)]) == Some(Value(a.mul(x, y)))
    ensures Reading(a, [Number(x), Op(Slash), Number(y)]) ==
      Some(if a.isZero(y) then DivisionByZero else Value(a.div(x, y)))
  {
    Between(a, x, Plus, y);
    Between(a, x, Minus, y);
    Between(a, x, Star, y);
    Between(a, x, Slash, y);
  }

  /** A sign, a function or parentheses around one number. */
  lemma OneNumber<V>(a: Arith<V>, x: V, f: Function)
    ensures Reading(a, [Number(x)]) == Some(Value(x))
    ensures Reading(a, [Op(Minus), Number(x)]) == Some(Value(a.neg(x)))
    ensures Reading(a, [LParen, Number(x), RParen]) == Some(Value(x))
    ensures Reading(a, [Fn(f), LParen, Number(x), RParen]) == Some(Value(a.call(f, x)))
  {
    var n, s := Num(x), [Number(x)];
    NumberTree(a, x);
    Reads(a, n, 1, s, s);
    NegTree(a, n, 1, s);
    Reads(a, Neg(n), 2, [Op(Minus)] + s, [Op(Minus), Number(x)]);
    ParenTree(a, n, 1, s);
    Reads(a, Paren(n), 2, [LParen] + s + [RParen], [LParen, Number(x), RParen]);
    ApplyTree(a, f, n, 1, s);
    Reads(a, Apply(f, n), 3, [Fn(f), LParen] + s + [RParen], [Fn(f), LParen, Number(x), RParen]);
  }

  /** Whether x op1 y op2 z means x op1 (y op2 z). */
  predicate GroupsRight(op1: BinOp, op2: BinOp) {
    (op1 == Plus || op1 == Minus) && (op2 == Star || op2 == Slash)
  }

  /** The value of r behind, or in front of, what else stands there: a division by zero stays one. */
  function Before<V>(a: Arith<V>, x: V, op: BinOp, r: Option<Result<V>>): Option<Result<V>> {
    if r.Some? && r.value.Value? then Reading(a, [Number(x), Op(op), Number(r.value.v)]) else r
  }

  function Behind<V>(a: Arith<V>, l: Option<Result<V>>, op: BinOp, y: V): Option<Result<V>> {
    if l.Some? && l.value.Value? then Reading(a, [Number(l.value.v), Op(op), Number(y)]) else l
  }

  /** Two operators between three numbers: products and quotients before sums and differences, otherwise from the
      left. */
  lemma TwoOperators<V>(a: Arith<V>, x: V, op1: BinOp, y: V, op2: BinOp, z: V)
    ensures Reading(a, [Number(x), Op(op1), Number(y), Op(op2), Number(z)]) ==
      if GroupsRight(op1, op2) then Before(a, x, op1, Reading(a, [Number(y), Op(op2), Number(z)]))
      else Behind(a, Reading(a, [Number(x), Op(op1), Number(y)]), op2, z)
  {
    var toks := [Number(x), Op(op1), Number(y), Op(op2), Number(z)];
    if GroupsRight(op1, op2) {
      Between(a, y, op2, z);
      OnTheRight(a, x, op1, Bin(op2, Num(y), Num(z)), 3, [Number(y), Op(op2), Number(z)], toks);
    } else {
      Between(a, x, op1, y);
      OnTheLeft(a, Bin(op1, Num(x), Num(y)), 3, [Number(x), Op(op1), Number(y)], op2, z, toks);
    }
  }

  /** A leading minus sign belongs to the number it stands before. */
  lemma MinusThenOperator<V>(a: Arith<V>, x: V, op: BinOp, y: V)
    ensures Reading(a, [Op(Minus), Number(x), Op(op), Number(y)]) ==
      Reading(a, [Number(a.neg(x)), Op(op), Number(y)])
  {
    NumberTree(a, x);
    NegTree(a, Num(x), 1, [Number(x)]);
    OnTheLeft(a, Neg(Num(x)), 2, [Op(Minus)] + [Number(x)], op, y, [Op(Minus), Number(x), Op(op), Number(y)]);
  }

  /** So does a minus sign after an operator. */
  lemma OperatorThenMinus<V>(a: Arith<V>, x: V, op: BinOp, y: V)
    ensures Reading(a, [Number(x), Op(op), Op(Minus), Number(y)]) ==
      Reading(a, [Number(x), Op(op), Number(a.neg(y))])
  {
    NumberTree(a, y);
    NegTree(a, Num(y), 1, [Number(y)]);
    OnTheRight(a, x, op, Neg(Num(y)), 2, [Op(Minus)] + [Number(y)], [Number(x), Op(op), Op(Minus), Number(y)]);
  }

  /** Parentheses on the left decide the grouping. */
  lemma ParenthesesLeft<V>(a: Arith<V>, x: V, op1: BinOp, y: V, op2: BinOp, z: V)
    ensures Reading(a, [LParen, Number(x), Op(op1), Number(y), RParen, Op(op2), Number(z)]) ==
      Behind(a, Reading(a, [Number(x), Op(op1), Number(y)]), op2, z)
  {
    var toks := [LParen, Number(x), Op(op1), Number(y), RParen, Op(op2), Number(z)];
    var e, s := Bin(op1, Num(x), Num(y)), [Number(x), Op(op1), Number(y)];
    Between(a, x, op1, y);
    ParenTree(a, e, 3, s);
    OnTheLeft(a, Paren(e), 4, [LParen] + s + [RParen], op2, z, toks);
  }

  /** And on the right. */
  lemma ParenthesesRight<V>(a: Arith<V>, x: V, op1: BinOp, y: V, op2: BinOp, z: V)
    ensures Reading(a, [Number(x), Op(op1), LParen, Number(y), Op(op2), Number(z), RParen]) ==
      Before(a, x, op1, Reading(a, [Number(y), Op(op2), Number(z)]))
  {
    var toks := [Number(x), Op(op1), LParen, Number(y), Op(op2), Number(z), RParen];
    var e, s := Bin(op2, Num(y), Num(z)), [Number(y), Op(op2), Number(z)];
    Between(a, y, op2, z);
    ParenTree(a, e, 3, s);
    OnTheRight(a, x, op1, Paren(e), 4, [LParen] + s + [RParen], toks);
  }

  /** A function takes what its parentheses hold, and is done before any operator around it. */
  lemma FunctionThenOperator<V>(a: Arith<V>, f: Function, x: V, op: BinOp, y: V)
    ensures Reading(a, [Fn(f), LParen, Number(x), RParen, Op(op), Number(y)]) ==
      Reading(a, [Number(a.call(f, x)), Op(op), Number(y)])
    ensures Reading(a, [Number(y), Op(op), Fn(f), LParen, Number(x), RParen]) ==
      Reading(a, [Number(y), Op(op), Number(a.call(f, x))])
  {
    var t := [Fn(f), LParen, Number(x), RParen];
    NumberTree(a, x);
    ApplyTree(a, f, Num(x), 1, [Number(x)]);
    assert [Fn(f), LParen] + [Number(x)] + [RParen] == t;
    OnTheLeft(a, Apply(f, Num(x)), 3, t, op, y, [Fn(f), LParen, Number(x), RParen, Op(op), Number(y)]);
    OnTheRight(a, y, op, Apply(f, Num(x)), 3, t, [Number(y), Op(op), Fn(f), LParen, Number(x), RParen]);
  }

  lemma FunctionOfOperator<V>(a: Arith<V>, f: Function, x: V, op: BinOp, y: V)
    ensures Reading(a, [Fn(f), LParen, Number(x), Op(op), Number(y), RParen]) ==
      var r := Reading(a, [Number(x), Op(op), Number(y)]);
      if r.Some? && r.value.Value? then Some(Value(a.call(f, r.value.v))) else r
  {
    var e, s := Bin(op, Num(x), Num(y)), [Number(x), Op(op), Number(y)];
    Between(a, x, op, y);
    ApplyTree(a, f, e, 3, s);
    Reads(a, Apply(f, e), 5, [Fn(f), LParen] + s + [RParen], [Fn(f), LParen, Number(x), Op(op), Number(y), RParen]);
  }

  /** Without parentheses a function takes one number at the end of the list, but an operator after that number pops it
      as if it were an operator itself, and it finds one number too few. */
  lemma FunctionWithoutParentheses<V>(a: Arith<V>, f: Function, x: V, op: BinOp, y: V)
    ensures Reading(a, [Fn(f), Number(x)]) == Some(Value(a.call(f, x)))
    ensures Reading(a, [Fn(f), Number(x), Op(op), Number(y)]) == Some(ErrorValue)
  {
    var n := if f.Custom? then 1 else 0;
    var called := State([Call(f)], [RNumber(x)], false, n);
    var popped := State([Binary(op)], [RNumber(x), ROperator(Call(f))], true, n);
    RunCall(f, x, n);
    FlushCall(f, [RNumber(x)]);
    assert [RNumber(x)] + [RCall(f)] == [RNumber(x), RCall(f)];
    CodeOfOneNumber(a, x, y, f);
    PopCall(f, x, op, n);
    var tail := [Op(op), Number(y)];
    assert tail[1..] == [Number(y)];
    RunOne(popped, Number(y));
    RunConcat(Start(), [Fn(f), Number(x)], tail);
    assert [Fn(f), Number(x)] + tail == [Fn(f), Number(x), Op(op), Number(y)];
    var out := popped.out + [RNumber(y)];
    FlushBinary(op, out);
    FailsEarly(a, x, f, out + [ROperator(Binary(op))]);
  }

  lemma RunCall<V>(f: Function, x: V, n: nat)
    requires n == if f.Custom? then 1 else 0
    ensures Run(Start(), [Fn(f), Number(x)]) == Some(State([Call(f)], [RNumber(x)], false, n))
  {
    var s: State<V> := State([Call(f)], [], true, n);
    assert Step(Start(), Fn(f)) == Some(s) by { assert [] + [Call(f)] == [Call(f)]; }
    assert s.out + [RNumber(x)] == [RNumber(x)];
    RunOne(s, Number(x));
    assert [Fn(f), Number(x)][1..] == [Number(x)];
  }

  lemma PopCall<V>(f: Function, x: V, op: BinOp, n: nat)
    ensures Step(State([Call(f)], [RNumber(x)], false, n), Op(op)) ==
      Some(State([Binary(op)], [RNumber(x), ROperator(Call(f))], true, n))
  {
    PopStep([], Call(f), [RNumber(x)], OpPrecedence(op));
    assert [] + [Call(f)] == [Call(f)] && [] + [Binary(op)] == [Binary(op)];
    assert [RNumber(x)] + [ROperator(Call(f))] == [RNumber(x), ROperator(Call(f))];
  }

  lemma FlushCall<V>(f: Function, out: seq<Rpn<V>>)
    requires |out| < 128
    ensures Flush([Call(f)], out) == Some(out + [RCall(f)])
  {
    assert [Call(f)][..0] == [];
  }

  lemma FlushBinary<V>(op: BinOp, out: seq<Rpn<V>>)
    requires |out| < 128
    ensures Flush([Binary(op)], out) == Some(out + [ROperator(Binary(op))])
  {
    assert [Binary(op)][..0] == [];
  }

  /** Code whose second token wants two numbers. */
  lemma FailsEarly<V>(a: Arith<V>, x: V, f: Function, code: seq<Rpn<V>>)
    requires |code| >= 2 && code[0] == RNumber(x) && code[1] == ROperator(Call(f))
    ensures Evaluate(a, code) == ErrorValue
  {
    OnePushed(a, x, ROperator(Call(f)));
    ExecuteConcat(a, [], code[..2], code[2..]);
    assert code == code[..2] + code[2..] && code[..2] == [RNumber(x), ROperator(Call(f))];
  }

  // ---- numbers and operators in any number ----

  /** An operator and the number after it. */
  datatype Link<V> = Link(op: BinOp, v: V)

  function Flat<V>(x: V, rest: seq<Link<V>>): seq<Token<V>> {
    if rest == [] then [Number(x)]
    else
      var last := rest[|rest| - 1];
      Flat(x, rest[..|rest| - 1]) + [Op(last.op), Number(last.v)]
  }

  /** Sums and differences are level 0, products and quotients level 1. */
  function Level(op: BinOp): (l: nat)
    ensures l <= 1
  {
    if op == Plus || op == Minus then 0 else 1
  }

  /** The last operator of a level, or -1. */
  function LastOf<V>(rest: seq<Link<V>>, level: nat): (i: int)
    ensures -1 <= i < |rest|
    ensures i >= 0 ==> Level(rest[i].op) == level
    ensures forall j :: i < j < |rest| ==> Level(rest[j].op) != level
  {
    var n := |rest|;
    if n == 0 then -1 else if Level(rest[n - 1].op) == level then n - 1 else LastOf(rest[..n - 1], level)
  }

  ghost predicate FromLevel<V>(rest: seq<Link<V>>, level: nat) {
    forall i :: 0 <= i < |rest| ==> Level(rest[i].op) >= level
  }

  function Joined<V>(a: Arith<V>, l: Option<Result<V>>, op: BinOp, r: Option<Result<V>>): Option<Result<V>> {
    if l.Some? && l.value.Value? then Before(a, l.value.v, op, r) else l
  }

  /** The customary reading: cut at the last operator of the lowest level, read both sides, and join them. */
  ghost function Customary<V>(a: Arith<V>, x: V, rest: seq<Link<V>>, level: nat): Option<Result<V>>
    requires level <= 2 && FromLevel(rest, level)
    decreases |rest|, 2 - level
  {
    var i := LastOf(rest, level);
    if rest == [] then Some(Value(x))
    else if i < 0 then Customary(a, x, rest, level + 1)
    else
      Joined(a, Customary(a, x, rest[..i], level), rest[i].op, Customary(a, rest[i].v, rest[i + 1..], level + 1))
  }

  /** Up to 64 numbers with operators between them are read the customary way; more are refused. */
  lemma FlatExpression<V>(a: Arith<V>, x: V, rest: seq<Link<V>>)
    ensures Reading(a, Flat(x, rest)) == if |rest| <= 63 then Customary(a, x, rest, 0) else None
  {
    var e := Build(a, x, rest, 0);
    CompilePrinted(e);
    if |rest| <= 63 { CompileEvaluate(a, e); }
  }

  /** A readable tree of these links, and what it takes to compile. */
  ghost predicate Plain<V>(e: Expr<V>, x: V, rest: seq<Link<V>>, level: nat) {
    var f := EffectOf(e);
    && Readable(e) && NoDoubleMinus(e) && Render(e) == Flat(x, rest) && Precedence(e) > level
    && |f.emitted| + |f.pending| == 2 * |rest| + 1 && f.depth + level <= 2 && f.customs == 0
  }

  lemma {:induction false} Build<V>(a: Arith<V>, x: V, rest: seq<Link<V>>, level: nat) returns (e: Expr<V>)
    requires level <= 2 && FromLevel(rest, level)
    ensures Plain(e, x, rest, level) && Some(Eval(a, e)) == Customary(a, x, rest, level)
    decreases |rest|, 2 - level
  {
    var i := LastOf(rest, level);
    if rest == [] {
      e := Num(x);
    } else if i < 0 {
      e := Build(a, x, rest, level + 1);
    } else {
      CustomaryCut(a, x, rest, level, i);
      var l := Build(a, x, rest[..i], level);
      var r := Build(a, rest[i].v, rest[i + 1..], level + 1);
      e := Bin(rest[i].op, l, r);
      BuildBin(a, x, rest, level, i, l, r);
    }
  }

  lemma CustomaryCut<V>(a: Arith<V>, x: V, rest: seq<Link<V>>, level: nat, i: nat)
    requires level <= 1 && FromLevel(rest, level) && i < |rest| && i == LastOf(rest, level)
    ensures FromLevel(rest[..i], level) && FromLevel(rest[i + 1..], level + 1)
    ensures Customary(a, x, rest, level) ==
      Joined(a, Customary(a, x, rest[..i], level), rest[i].op, Customary(a, rest[i].v, rest[i + 1..], level + 1))
  {}

  lemma BuildBin<V>(a: Arith<V>, x: V, rest: seq<Link<V>>, level: nat, i: nat, l: Expr<V>, r: Expr<V>)
    requires i < |rest| && Level(rest[i].op) == level
    requires Plain(l, x, rest[..i], level) && Plain(r, rest[i].v, rest[i + 1..], level + 1)
    ensures var e := Bin(rest[i].op, l, r);
            && Plain(e, x, rest, level)
            && Some(Eval(a, e)) == Joined(a, Some(Eval(a, l)), rest[i].op, Some(Eval(a, r)))
  {
    var op := rest[i].op;
    LevelIsPrecedence(op);
    FlatSplits(x, rest, i);
    assert EffectOf(Bin(op, l, r)) == BinEffect(op, EffectOf(l), EffectOf(r));
    BinValue(a, op, Eval(a, l), Eval(a, r));
  }

  lemma BinValue<V>(a: Arith<V>, op: BinOp, v: Result<V>, w: Result<V>)
    ensures Joined(a, Some(v), op, Some(w)) ==
      Some(if !v.Value? then v else if !w.Value? then w else ApplyBinary(a, op, v.v, w.v))
  {
    if v.Value? && w.Value? { Between(a, v.v, op, w.v); }
  }

  lemma LevelIsPrecedence(op: BinOp)
    ensures OpPrecedence(op) == Level(op) + 1
  {}

  lemma {:induction false} FlatSplits<V>(x: V, rest: seq<Link<V>>, i: nat)
    requires i < |rest|
    ensures Flat(x, rest) == Flat(x, rest[..i]) + [Op(rest[i].op)] + Flat(rest[i].v, rest[i + 1..])
    decreases |rest|
  {
    var n := |rest| - 1;
    if i < n {
      FlatSplits(x, rest[..n], i);
      assert rest[..n][..i] == rest[..i] && rest[..n][i + 1..] == rest[i + 1..][..n - i - 1];
    } else {
      assert rest[i + 1..] == [];
    }
  }

  // ---- pushes and sums ----

  lemma OnePushed<V>(a: Arith<V>, x: V, t: Rpn<V>)
    ensures Execute(a, [], [RNumber(x)]) == Running([x])
    ensures Execute(a, [], [RNumber(x), t]) == Execute1(a, [x], t)
  {
    ExecuteOne(a, [], RNumber(x));
    assert [] + [x] == [x];
    ExecuteConcat(a, [], [RNumber(x)], [t]);
    assert [RNumber(x)] + [t] == [RNumber(x), t];
    ExecuteOne(a, [x], t);
  }

  lemma TwoPushed<V>(a: Arith<V>, x: V, y: V, t: Rpn<V>)
    ensures Execute(a, [], [RNumber(x), RNumber(y), t]) == Execute1(a, [x, y], t)
  {
    OnePushed(a, x, RNumber(y));
    assert [x] + [y] == [x, y];
    ExecuteConcat(a, [], [RNumber(x), RNumber(y)], [t]);
    assert [RNumber(x), RNumber(y)] + [t] == [RNumber(x), RNumber(y), t];
    ExecuteOne(a, [x, y], t);
  }

  lemma {:induction false} Pushes<V>(a: Arith<V>, st: seq<V>, x: V, n: nat)
    requires |st| <= 128
    ensures var m := Execute(a, st, seq(n, i => RNumber(x)));
            if |st| + n <= 128 then m.Running? && |m.stack| == |st| + n else m == Halted(ErrorValue)
    decreases n
  {
    var s: seq<Rpn<V>> := seq(n, i => RNumber(x));
    if n > 0 {
      assert s[0] == RNumber(x) && s[1..] == seq(n - 1, i => RNumber(x));
      if |st| < 128 { Pushes(a, st + [x], x, n - 1); }
    }
  }

  lemma {:induction false} Sums<V>(a: Arith<V>, st: seq<V>, n: nat)
    requires |st| == n + 1
    ensures var m := Execute(a, st, seq(n, i => ROperator(Binary(Plus)))); m.Running? && |m.stack| == 1
    decreases n
  {
    var s: seq<Rpn<V>> := seq(n, i => ROperator(Binary(Plus)));
    if n > 0 {
      assert s[0] == ROperator(Binary(Plus)) && s[1..] == seq(n - 1, i => ROperator(Binary(Plus)));
      Sums(a, Execute1(a, st, s[0]).stack, n - 1);
    }
  }

  // ---- the trees behind these lists ----

  /** A readable tree, the list it prints as, and a bound on what it takes to compile. */
  ghost predicate Tree<V>(e: Expr<V>, toks: seq<Token<V>>, n: nat) {
    var f := EffectOf(e);
    && Readable(e) && NoDoubleMinus(e) && Render(e) == toks
    && |f.emitted| + |f.pending| <= n && f.depth <= n && f.customs <= n
  }

  lemma Reads<V>(a: Arith<V>, e: Expr<V>, n: nat, s: seq<Token<V>>, toks: seq<Token<V>>)
    requires Tree(e, s, n) && n <= 16 && s == toks
    ensures Reading(a, toks) == Some(Eval(a, e))
  {
    CompileEvaluate(a, e);
  }

  lemma NumberTree<V>(a: Arith<V>, x: V)
    ensures Tree(Num(x), [Number(x)], 1) && Eval(a, Num(x)) == Value(x)
  {}

  lemma NegTree<V>(a: Arith<V>, e: Expr<V>, n: nat, s: seq<Token<V>>)
    requires Tree(e, s, n) && Precedence(e) == 4
    ensures Tree(Neg(e), [Op(Minus)] + s, n + 1)
    ensures Eval(a, Neg(e)) == var v := Eval(a, e); if v.Value? then Value(a.neg(v.v)) else v
  {
    assert EffectOf(Neg(e)) == NegEffect(false, EffectOf(e));
  }

  lemma ParenTree<V>(a: Arith<V>, e: Expr<V>, n: nat, s: seq<Token<V>>)
    requires Tree(e, s, n)
    ensures Tree(Paren(e), [LParen] + s + [RParen], n + 1) && Eval(a, Paren(e)) == Eval(a, e)
  {
    assert EffectOf(Paren(e)) == ParenEffect(EffectOf(e));
  }

  lemma ApplyTree<V>(a: Arith<V>, f: Function, e: Expr<V>, n: nat, s: seq<Token<V>>)
    requires Tree(e, s, n)
    ensures Tree(Apply(f, e), [Fn(f), LParen] + s + [RParen], n + 2)
    ensures Eval(a, Apply(f, e)) == var v := Eval(a, e); if v.Value? then Value(a.call(f, v.v)) else v
  {
    assert EffectOf(Apply(f, e)) == ApplyEffect(f, EffectOf(e));
  }

  lemma BinTree<V>(a: Arith<V>, op: BinOp, l: Expr<V>, n: nat, s: seq<Token<V>>, r: Expr<V>, m: nat, t: seq<Token<V>>)
    requires Tree(l, s, n) && Tree(r, t, m) && Precedence(l) >= OpPrecedence(op) && Precedence(r) > OpPrecedence(op)
    ensures Tree(Bin(op, l, r), s + [Op(op)] + t, n + m + 1)
    ensures Eval(a, Bin(op, l, r)) ==
      var v, w := Eval(a, l), Eval(a, r);
      if !v.Value? then v else if !w.Value? then w else ApplyBinary(a, op, v.v, w.v)
  {
    assert EffectOf(Bin(op, l, r)) == BinEffect(op, EffectOf(l), EffectOf(r));
  }

  /** Two numbers with an operator between them. */
  lemma Between<V>(a: Arith<V>, x: V, op: BinOp, y: V)
    ensures var e, toks := Bin(op, Num(x), Num(y)), [Number(x), Op(op), Number(y)];
            && Tree(e, toks, 3)
            && Reading(a, toks) == Some(Eval(a, e)) == Some(ApplyBinary(a, op, x, y))
  {
    NumberTree(a, x);
    NumberTree(a, y);
    BinTree(a, op, Num(x), 1, [Number(x)], Num(y), 1, [Number(y)]);
    assert [Number(x)] + [Op(op)] + [Number(y)] == [Number(x), Op(op), Number(y)];
    Reads(a, Bin(op, Num(x), Num(y)), 3, [Number(x)] + [Op(op)] + [Number(y)], [Number(x), Op(op), Number(y)]);
  }

  /** A tree as the right operand of a number. */
  lemma OnTheRight<V>(a: Arith<V>, x: V, op: BinOp, r: Expr<V>, m: nat, t: seq<Token<V>>, toks: seq<Token<V>>)
    requires Tree(r, t, m) && m <= 9 && Precedence(r) > OpPrecedence(op) && toks == [Number(x), Op(op)] + t
    ensures Reading(a, toks) == Before(a, x, op, Some(Eval(a, r)))
  {
    NumberTree(a, x);
    BinTree(a, op, Num(x), 1, [Number(x)], r, m, t);
    Reads(a, Bin(op, Num(x), r), m + 2, [Number(x)] + [Op(op)] + t, toks);
    var w := Eval(a, r);
    if w.Value? { Between(a, x, op, w.v); }
  }

  /** A tree as the left operand of a number. */
  lemma OnTheLeft<V>(a: Arith<V>, l: Expr<V>, n: nat, s: seq<Token<V>>, op: BinOp, y: V, toks: seq<Token<V>>)
    requires Tree(l, s, n) && n <= 9 && Precedence(l) >= OpPrecedence(op) && toks == s + [Op(op), Number(y)]
    ensures Reading(a, toks) == Behind(a, Some(Eval(a, l)), op, y)
  {
    NumberTree(a, y);
    BinTree(a, op, l, n, s, Num(y), 1, [Number(y)]);
    Reads(a, Bin(op, l, Num(y)), n + 2, s + [Op(op)] + [Number(y)], toks);
    var v := Eval(a, l);
    if v.Value? { Between(a, v.v, op, y); }
  }
}
