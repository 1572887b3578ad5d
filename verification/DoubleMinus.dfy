/** The trees that the shunting-yard pair evaluates right whatever the arithmetic is: those without a double minus. */
module DoubleMinus {
  import opened ShuntingYard

  /** An arithmetic that computes nothing: a value is the list of symbols it was built from. */
  datatype Symbol = Leaf(id: nat) | NegSign | OpSign(op: BinOp) | CallSign(f: Function)

  type Term = seq<Symbol>

  function Terms(): Arith<Term> {
    Arith((x: Term) => x + [NegSign],
          (x: Term, y: Term) => x + y + [OpSign(Plus)], (x: Term, y: Term) => x + y + [OpSign(Minus)],
          (x: Term, y: Term) => x + y + [OpSign(Star)], (x: Term, y: Term) => x + y + [OpSign(Slash)],
          (_: Term) => false, (f: Function, x: Term) => x + [CallSign(f)], [])
  }

  function SymbolOf(t: Rpn<Term>): Term {
    match t
    case RNumber(v) => v
    case RCall(f) => [CallSign(f)]
    case ROperator(op) => if op.Negate? then [NegSign] else if op.Binary? then [OpSign(op.op)] else []
  }

  /** The symbols of a code, in order. */
  function Flatten(code: seq<Rpn<Term>>): Term {
    if code == [] then [] else Flatten(code[..|code| - 1]) + SymbolOf(code[|code| - 1])
  }

  function Concat(st: seq<Term>): Term {
    if st == [] then [] else Concat(st[..|st| - 1]) + st[|st| - 1]
  }

  /** A leaf is one symbol, an operator is one the tree can hold. */
  predicate Plain(t: Rpn<Term>) {
    match t
    case RNumber(v) => |v| == 1 && v[0].Leaf?
    case RCall(_) => true
    case ROperator(op) => op.Negate? || op.Binary?
  }

  ghost predicate AllPlain(code: seq<Rpn<Term>>) {
    forall i :: 0 <= i < |code| ==> Plain(code[i])
  }

  predicate PlainLeaves(e: Expr<Term>) {
    match e
    case Num(v) => |v| == 1 && v[0].Leaf?
    case Paren(x) => PlainLeaves(x)
    case Apply(_, x) => PlainLeaves(x)
    case Neg(x) => PlainLeaves(x)
    case Bin(_, l, r) => PlainLeaves(l) && PlainLeaves(r)
  }

  lemma {:induction false} FlattenConcat(a: seq<Rpn<Term>>, b: seq<Rpn<Term>>)
    ensures Flatten(a + b) == Flatten(a) + Flatten(b)
    decreases |b|
  {
    if b == [] {
      assert a + b == a;
    } else {
      var n := |b| - 1;
      assert (a + b)[..|a + b| - 1] == a + b[..n] && (a + b)[|a + b| - 1] == b[n];
      FlattenConcat(a, b[..n]);
      ConcatAssociative(Flatten(a), Flatten(b[..n]), SymbolOf(b[n]));
    }
  }

  lemma FlattenOne(t: Rpn<Term>)
    ensures Flatten([t]) == SymbolOf(t)
  {
    assert [t][..0] == [];
  }

  lemma PlainSymbol(t: Rpn<Term>, u: Rpn<Term>)
    requires Plain(t) && Plain(u)
    ensures |SymbolOf(t)| == 1 && (SymbolOf(t) == SymbolOf(u) ==> t == u)
  {
    if t.RNumber? && u.RNumber? && SymbolOf(t) == SymbolOf(u) {
      assert t.v == [t.v[0]] && u.v == [u.v[0]];
    }
  }

  /** Plain codes with the same symbols are the same. */
  lemma {:induction false} FlattenInjective(a: seq<Rpn<Term>>, b: seq<Rpn<Term>>)
    requires AllPlain(a) && AllPlain(b) && Flatten(a) == Flatten(b) && |a| == |b|
    ensures a == b
  {
    if a != [] {
      var n := |a| - 1;
      PlainSymbol(a[n], b[n]);
      PlainSymbol(b[n], a[n]);
      assert |Flatten(a)| == |Flatten(a[..n])| + 1 && |Flatten(b)| == |Flatten(b[..n])| + 1;
      SplitEqual(Flatten(a[..n]), SymbolOf(a[n]), Flatten(b[..n]), SymbolOf(b[n]));
      FlattenInjective(a[..n], b[..n]);
      assert a == a[..n] + [a[n]] && b == b[..n] + [b[n]];
    }
  }

  // ---- running code over terms ----

  lemma ConcatPush(st: seq<Term>, v: Term)
    ensures Concat(st + [v]) == Concat(st) + v
  {
    assert (st + [v])[..|st|] == st;
  }

  lemma ConcatTop(st: seq<Term>)
    requires |st| >= 1
    ensures Concat(st) == Concat(st[..|st| - 1]) + st[|st| - 1]
  {}

  lemma TermsUnary(x: Term, f: Function)
    ensures Terms().neg(x) == x + [NegSign] && Terms().call(f, x) == x + [CallSign(f)]
  {}

  /** A symbol at the end of the top of the stack is one at the end of the whole stack. */
  lemma TopGrows(st: seq<Term>, sign: Term)
    requires |st| >= 1
    ensures Concat(st[..|st| - 1] + [st[|st| - 1] + sign]) == Concat(st) + sign
  {
    var rest, top := st[..|st| - 1], st[|st| - 1];
    ConcatPush(rest, top + sign);
    ConcatTop(st);
    ConcatAssociative(Concat(rest), top, sign);
  }

  /** What a step has to do: append its symbol to what is on the stack, unless it fails. */
  ghost predicate Appends(m: Machine<Term>, st: seq<Term>, sign: Term) {
    if m.Running? then Concat(m.stack) == Concat(st) + sign else m.result.ErrorValue?
  }

  lemma NumberAppends(st: seq<Term>, v: Term)
    ensures Appends(Execute1(Terms(), st, RNumber(v)), st, v)
  {
    ConcatPush(st, v);
  }

  lemma UnaryAppends(st: seq<Term>, t: Rpn<Term>)
    requires t.RCall? || t == ROperator(Negate)
    ensures Appends(Execute1(Terms(), st, t), st, SymbolOf(t))
  {
    if |st| > 0 {
      TermsUnary(st[|st| - 1], if t.RCall? then t.f else Builtin(0));
      TopGrows(st, SymbolOf(t));
    }
  }

  /** One token appends its symbol to what is on the stack. */
  lemma StepAppends(st: seq<Term>, t: Rpn<Term>)
    requires Plain(t)
    ensures Appends(Execute1(Terms(), st, t), st, SymbolOf(t))
  {
    if t.RNumber? {
      NumberAppends(st, t.v);
    } else if t.RCall? || t == ROperator(Negate) {
      UnaryAppends(st, t);
    } else if |st| >= 2 {
      BinaryAppends(st, t.op.op);
    }
  }

  lemma TermsBinary(op: BinOp, x: Term, y: Term)
    ensures ApplyBinary(Terms(), op, x, y) == Value(x + y + [OpSign(op)])
  {}

  /** Two values at the top of the stack joined. */
  lemma TopJoins(st: seq<Term>, sign: Term)
    requires |st| >= 2
    ensures Concat(st[..|st| - 2] + [st[|st| - 2] + st[|st| - 1] + sign]) == Concat(st) + sign
  {
    var n := |st|;
    var rest, x, y := st[..n - 2], st[n - 2], st[n - 1];
    ConcatPush(rest, x + y + sign);
    ConcatTop(st);
    ConcatTop(st[..n - 1]);
    assert st[..n - 1][..n - 2] == rest;
    ConcatAssociative(Concat(rest), x + y, sign);
    ConcatAssociative(Concat(rest), x, y);
  }

  lemma BinaryExecutes(st: seq<Term>, op: BinOp)
    requires |st| >= 2
    ensures Execute1(Terms(), st, ROperator(Binary(op)))
         == Running(st[..|st| - 2] + [st[|st| - 2] + st[|st| - 1] + [OpSign(op)]])
  {
    TermsBinary(op, st[|st| - 2], st[|st| - 1]);
  }

  lemma BinaryAppends(st: seq<Term>, op: BinOp)
    requires |st| >= 2
    ensures Appends(Execute1(Terms(), st, ROperator(Binary(op))), st, [OpSign(op)])
  {
    BinaryExecutes(st, op);
    TopJoins(st, [OpSign(op)]);
  }

  lemma {:induction false} ExecuteAppends(st: seq<Term>, code: seq<Rpn<Term>>)
    requires AllPlain(code)
    ensures Appends(Execute(Terms(), st, code), st, Flatten(code))
    decreases |code|
  {
    if code == [] {
      assert Concat(st) + Flatten(code) == Concat(st);
    } else {
      var m := Execute1(Terms(), st, code[0]);
      StepAppends(st, code[0]);
      FlattenFirst(code);
      ConcatAssociative(Concat(st), SymbolOf(code[0]), Flatten(code[1..]));
      if m.Running? { ExecuteAppends(m.stack, code[1..]); }
    }
  }

  lemma FlattenFirst(code: seq<Rpn<Term>>)
    requires code != []
    ensures Flatten(code) == SymbolOf(code[0]) + Flatten(code[1..])
  {
    assert code == [code[0]] + code[1..];
    FlattenConcat([code[0]], code[1..]);
    FlattenOne(code[0]);
  }

  lemma ConcatOne(st: seq<Term>)
    requires |st| == 1
    ensures Concat(st) == st[0]
  {
    ConcatTop(st);
    assert st[..0] == [] && Concat([]) == [];
    assert [] + st[0] == st[0];
  }

  /** Whatever value a code has over terms, it is the code's own symbols. */
  lemma EvaluateIsFlatten(code: seq<Rpn<Term>>)
    requires AllPlain(code)
    ensures var r := Evaluate(Terms(), code); r.Value? ==> r.v == Flatten(code)
  {
    ExecuteAppends([], code);
    var m := Execute(Terms(), [], code);
    assert Concat([]) + Flatten(code) == Flatten(code);
    if code != [] && m.Running? && |m.stack| == 1 { ConcatOne(m.stack); }
  }

  lemma FlattenThen(code: seq<Rpn<Term>>, t: Rpn<Term>)
    ensures Flatten(code + [t]) == Flatten(code) + SymbolOf(t)
  {
    FlattenConcat(code, [t]);
    FlattenOne(t);
  }

  /** The value of e over terms is its postfix order. */
  ghost predicate ValuedAsPostfix(e: Expr<Term>) {
    Eval(Terms(), e) == Value(Flatten(Postfix(e)))
  }

  lemma ApplyValued(f: Function, x: Expr<Term>)
    requires ValuedAsPostfix(x)
    ensures ValuedAsPostfix(Apply(f, x))
  {
    var code := Postfix(x);
    FlattenThen(code, RCall(f));
    TermsUnary(Flatten(code), f);
  }

  lemma NegValued(x: Expr<Term>)
    requires ValuedAsPostfix(x)
    ensures ValuedAsPostfix(Neg(x))
  {
    var code := Postfix(x);
    FlattenThen(code, ROperator(Negate));
    TermsUnary(Flatten(code), Builtin(0));
  }

  /** Two codes and an operator in postfix order. */
  lemma FlattenBinary(op: BinOp, s: seq<Rpn<Term>>, t: seq<Rpn<Term>>)
    ensures ApplyBinary(Terms(), op, Flatten(s), Flatten(t)) == Value(Flatten(s + t + [ROperator(Binary(op))]))
  {
    FlattenThen(s + t, ROperator(Binary(op)));
    FlattenConcat(s, t);
    TermsBinary(op, Flatten(s), Flatten(t));
  }

  lemma BinValued(op: BinOp, l: Expr<Term>, r: Expr<Term>)
    requires ValuedAsPostfix(l) && ValuedAsPostfix(r)
    ensures ValuedAsPostfix(Bin(op, l, r))
  {
    var s, t := Postfix(l), Postfix(r);
    FlattenBinary(op, s, t);
    assert Postfix(Bin(op, l, r)) == s + t + [ROperator(Binary(op))];
  }

  lemma {:induction false} EvalIsPostfix(e: Expr<Term>)
    ensures ValuedAsPostfix(e)
  {
    match e
    case Num(v) => FlattenOne(RNumber(v));
    case Paren(x) => EvalIsPostfix(x);
    case Apply(f, x) => EvalIsPostfix(x); ApplyValued(f, x);
    case Neg(x) => EvalIsPostfix(x); NegValued(x);
    case Bin(op, l, r) => EvalIsPostfix(l); EvalIsPostfix(r); BinValued(op, l, r);
  }

  lemma {:induction false} PostfixPlain(e: Expr<Term>)
    requires PlainLeaves(e)
    ensures AllPlain(Postfix(e))
  {
    match e
    case Num(_) =>
    case Paren(x) => PostfixPlain(x);
    case Apply(_, x) => PostfixPlain(x);
    case Neg(x) => PostfixPlain(x);
    case Bin(_, l, r) => PostfixPlain(l); PostfixPlain(r);
  }

  lemma {:induction false} PoppedPlain(ops: seq<StackOp>)
    requires Tight(ops, 0)
    ensures AllPlain(Popped(ops))
  {
    if ops != [] {
      assert Tight(ops[..|ops| - 1], 0);
      PoppedPlain(ops[..|ops| - 1]);
    }
  }

  lemma {:induction false} CompiledPlain(e: Expr<Term>)
    requires PlainLeaves(e) && Readable(e)
    ensures AllPlain(EffectOf(e).emitted) && AllPlain(Compiled(e))
  {
    EffectSound(e);
    TightLoosens(EffectOf(e).pending, Precedence(e), 0);
    PoppedPlain(EffectOf(e).pending);
    match e
    case Num(_) =>
    case Paren(x) => CompiledPlain(x);
    case Apply(_, x) => CompiledPlain(x);
    case Neg(x) => CompiledPlain(x);
    case Bin(_, l, r) => CompiledPlain(l); CompiledPlain(r);
  }

  /** Over terms the compiled code gives the tree's value exactly when no minus stands directly under a minus. */
  lemma TermsTellIff(e: Expr<Term>)
    requires Readable(e) && WithinLimits(e) && PlainLeaves(e)
    ensures Evaluate(Terms(), Compiled(e)) == Eval(Terms(), e) <==> NoDoubleMinus(e)
  {
    CompilePrinted(e);
    if NoDoubleMinus(e) { CompileEvaluate(Terms(), e); }
    if Evaluate(Terms(), Compiled(e)) == Eval(Terms(), e) {
      CompiledPlain(e);
      PostfixPlain(e);
      EvaluateIsFlatten(Compiled(e));
      EvalIsPostfix(e);
      CompiledIsPostfixIff(e);
      FlattenInjective(Compiled(e), Postfix(e));
    }
  }

  /** So a tree is evaluated right in every arithmetic exactly when it has no double minus. */
  lemma RightInEveryArithmeticIff(e: Expr<Term>)
    requires Readable(e) && WithinLimits(e) && PlainLeaves(e)
    ensures (forall a: Arith<Term> :: Evaluate(a, Compiled(e)) == Eval(a, e)) <==> NoDoubleMinus(e)
  {
    TermsTellIff(e);
    if NoDoubleMinus(e) {
      CompilePrinted(e);
      forall a: Arith<Term> ensures Evaluate(a, Compiled(e)) == Eval(a, e) { CompileEvaluate(a, e); }
    }
  }
}
