/** The shunting-yard compiler from infix to RPN, the RPN machine, and what they make of an expression tree. */
module ShuntingYard {

  import opened Common

  const OP_STACK_SIZE: nat := 64
  const MAX_RPN_TOKENS: nat := 128
  const EVAL_STACK_SIZE: nat := 128
  const MAX_CUSTOM_CALLS: nat := 16

  datatype BinOp = Plus | Minus | Star | Slash

  datatype Function = Builtin(id: nat) | Custom(id: nat)

  datatype Token<V> = Number(v: V) | Fn(f: Function) | LParen | RParen | Op(op: BinOp)

  /** Entries of the operator stack; Negate is the source's '_'. */
  datatype StackOp = Open | Call(f: Function) | Binary(op: BinOp) | Negate

  /** A function code popped by the operator loops travels as an operator, as in the source. */
  datatype Rpn<V> = RNumber(v: V) | ROperator(op: StackOp) | RCall(f: Function)

  function OpPrecedence(op: BinOp): nat {
    if op.Star? || op.Slash? then 2 else 1
  }

  /** get_stack_precedence */
  function StackPrecedence(s: StackOp): nat {
    match s
    case Open => 0
    case Call(_) => 4
    case Negate => 3
    case Binary(op) => OpPrecedence(op)
  }

  // ---- the compiler as a state machine over tokens ----

  datatype State<V> = State(ops: seq<StackOp>, out: seq<Rpn<V>>, expectOperand: bool, customs: nat)

  datatype Stacks<V> = Stacks(ops: seq<StackOp>, out: seq<Rpn<V>>)

  /** Pop operators of at least precedence p down to an open parenthesis. */
  function PopWhile<V>(ops: seq<StackOp>, out: seq<Rpn<V>>, p: nat): Option<Stacks<V>> {
    if ops == [] || ops[|ops| - 1].Open? || StackPrecedence(ops[|ops| - 1]) < p then Some(Stacks(ops, out))
    else if |out| >= MAX_RPN_TOKENS then None
    else PopWhile(ops[..|ops| - 1], out + [ROperator(ops[|ops| - 1])], p)
  }

  function PushOp<V>(s: State<V>, entry: StackOp): Option<State<V>> {
    if |s.ops| >= OP_STACK_SIZE then None else Some(s.(ops := s.ops + [entry], expectOperand := true))
  }

  function Emit<V>(s: State<V>, t: Rpn<V>): Option<State<V>> {
    if |s.out| >= MAX_RPN_TOKENS then None else Some(s.(out := s.out + [t], expectOperand := false))
  }

  function Step<V>(s: State<V>, t: Token<V>): Option<State<V>> {
    match t
    case Number(v) => Emit(s, RNumber(v))
    case Fn(f) =>
      if f.Custom? && s.customs >= MAX_CUSTOM_CALLS then None
      else PushOp(s.(customs := if f.Custom? then s.customs + 1 else s.customs), Call(f))
    case LParen => PushOp(s, Open)
    case RParen => ReadClose(s)
    case Op(op) => ReadOperator(s, if op.Minus? && s.expectOperand then Negate else Binary(op))
  }

  function ReadOperator<V>(s: State<V>, entry: StackOp): Option<State<V>> {
    var r := PopWhile(s.ops, s.out, StackPrecedence(entry));
    if r.None? then None else PushOp(s.(ops := r.value.ops, out := r.value.out), entry)
  }

  function ReadClose<V>(s: State<V>): Option<State<V>> {
    var r := PopWhile(s.ops, s.out, 0);
    if r.None? || r.value.ops == [] then None
    else CloseParen(s.(ops := r.value.ops[..|r.value.ops| - 1], out := r.value.out))
  }

  /** After the parenthesis is gone, a function right below it is emitted. */
  function CloseParen<V>(s: State<V>): Option<State<V>> {
    if s.ops != [] && s.ops[|s.ops| - 1].Call? then
      Emit(s.(ops := s.ops[..|s.ops| - 1]), RCall(s.ops[|s.ops| - 1].f))
    else
      Some(s.(expectOperand := false))
  }

  function Run<V>(s: State<V>, toks: seq<Token<V>>): Option<State<V>>
    decreases |toks|
  {
    if toks == [] then Some(s)
    else
      var next := Step(s, toks[0]);
      if next.None? then None else Run(next.value, toks[1..])
  }

  /** The final flush of the operator stack. */
  function Flush<V>(ops: seq<StackOp>, out: seq<Rpn<V>>): Option<seq<Rpn<V>>> {
    if ops == [] then Some(out)
    else
      var top := ops[|ops| - 1];
      if top.Open? || |out| >= MAX_RPN_TOKENS then None
      else Flush(ops[..|ops| - 1], out + [if top.Call? then RCall(top.f) else ROperator(top)])
  }

  function Start<V>(): State<V> {
    State([], [], true, 0)
  }

  /** infix_to_rpn */
  function Compile<V>(toks: seq<Token<V>>): Option<seq<Rpn<V>>> {
    var s := Run(Start(), toks);
    if s.None? then None else Flush(s.value.ops, s.value.out)
  }

  // ---- trees ----

  datatype Expr<V> =
    | Num(v: V)
    | Paren(e: Expr<V>)
    | Apply(f: Function, e: Expr<V>)
    | Neg(e: Expr<V>)
    | Bin(op: BinOp, l: Expr<V>, r: Expr<V>)

  function Render<V>(e: Expr<V>): (s: seq<Token<V>>)
    ensures |s| > 0
  {
    match e
    case Num(v) => [Number(v)]
    case Paren(x) => [LParen] + Render(x) + [RParen]
    case Apply(f, x) => [Fn(f), LParen] + Render(x) + [RParen]
    case Neg(x) => [Op(Minus)] + Render(x)
    case Bin(op, l, r) => Render(l) + [Op(op)] + Render(r)
  }

  function Precedence<V>(e: Expr<V>): (p: nat)
    ensures 1 <= p <= 4
  {
    match e
    case Num(_) => 4
    case Paren(_) => 4
    case Apply(_, _) => 4
    case Neg(_) => 3
    case Bin(op, _, _) => OpPrecedence(op)
  }

  /** Parenthesised as the precedences and left associativity require. */
  predicate Readable<V>(e: Expr<V>) {
    match e
    case Num(_) => true
    case Paren(x) => Readable(x)
    case Apply(_, x) => Readable(x)
    case Neg(x) => Readable(x) && Precedence(x) >= 3
    case Bin(op, l, r) =>
      Readable(l) && Readable(r) && Precedence(l) >= OpPrecedence(op) && Precedence(r) > OpPrecedence(op)
  }

  /** No unary minus stands directly under another. */
  predicate NoDoubleMinus<V>(e: Expr<V>) {
    match e
    case Num(_) => true
    case Paren(x) => NoDoubleMinus(x)
    case Apply(_, x) => NoDoubleMinus(x)
    case Neg(x) => !x.Neg? && NoDoubleMinus(x)
    case Bin(_, l, r) => NoDoubleMinus(l) && NoDoubleMinus(r)
  }

  /** Correct postfix order. */
  function Postfix<V>(e: Expr<V>): (s: seq<Rpn<V>>)
    ensures |s| > 0
  {
    match e
    case Num(v) => [RNumber(v)]
    case Paren(x) => Postfix(x)
    case Apply(f, x) => Postfix(x) + [RCall(f)]
    case Neg(x) => Postfix(x) + [ROperator(Negate)]
    case Bin(op, l, r) => Postfix(l) + Postfix(r) + [ROperator(Binary(op))]
  }

  /** Operators popped off a stack, top first. */
  function Popped<V>(ops: seq<StackOp>): (out: seq<Rpn<V>>)
    ensures |out| == |ops|
  {
    if ops == [] then [] else [ROperator(ops[|ops| - 1])] + Popped(ops[..|ops| - 1])
  }

  /** What reading a printed tree does to the compiler: what it has emitted and left pending at its last token, how
      many operator-stack entries it needed, and how many custom calls it made. */
  datatype Effect<V> = Effect(emitted: seq<Rpn<V>>, pending: seq<StackOp>, depth: nat, customs: nat)

  /** Everything emitted and everything pending flushed. */
  function Flushed<V>(f: Effect<V>): seq<Rpn<V>> {
    f.emitted + Popped(f.pending)
  }

  function ParenEffect<V>(f: Effect<V>): Effect<V> {
    Effect(Flushed(f), [], 1 + f.depth, f.customs)
  }

  function ApplyEffect<V>(fn: Function, f: Effect<V>): Effect<V> {
    Effect(Flushed(f) + [RCall(fn)], [], 2 + f.depth, f.customs + if fn.Custom? then 1 else 0)
  }

  /** A minus right after a minus pushes the first one out too early. */
  function NegEffect<V>(afterMinus: bool, f: Effect<V>): Effect<V> {
    if afterMinus then Effect([ROperator(Negate)] + f.emitted, [Negate], f.depth, f.customs)
    else Effect(f.emitted, [Negate], 1 + f.depth, f.customs)
  }

  function BinEffect<V>(op: BinOp, l: Effect<V>, r: Effect<V>): Effect<V> {
    Effect(Flushed(l) + r.emitted, [Binary(op)] + r.pending, Max(l.depth, 1 + r.depth), l.customs + r.customs)
  }

  function EffectOf<V>(e: Expr<V>): Effect<V> {
    match e
    case Num(v) => Effect([RNumber(v)], [], 0, 0)
    case Paren(x) => ParenEffect(EffectOf(x))
    case Apply(f, x) => ApplyEffect(f, EffectOf(x))
    case Neg(x) => NegEffect(x.Neg?, EffectOf(x))
    case Bin(op, l, r) => BinEffect(op, EffectOf(l), EffectOf(r))
  }

  /** The order in which the compiler lays out e. */
  function Compiled<V>(e: Expr<V>): seq<Rpn<V>> {
    Flushed(EffectOf(e))
  }

  // ---- compiling a printed tree ----

  /** The precedence an operator must exceed not to be popped off this stack. */
  function Context(ops: seq<StackOp>): nat {
    if ops == [] then 0 else StackPrecedence(ops[|ops| - 1])
  }

  ghost predicate Within<V>(s: State<V>) {
    |s.ops| <= OP_STACK_SIZE && |s.out| <= MAX_RPN_TOKENS && s.customs <= MAX_CUSTOM_CALLS
  }

  /** The limits an effect has to keep to from state s. */
  ghost predicate Fits<V>(f: Effect<V>, s: State<V>) {
    && |s.out| + |f.emitted| <= MAX_RPN_TOKENS
    && |s.ops| + f.depth <= OP_STACK_SIZE
    && s.customs + f.customs <= MAX_CUSTOM_CALLS
  }

  ghost function After<V>(f: Effect<V>, s: State<V>): State<V> {
    State(s.ops + f.pending, s.out + f.emitted, false, s.customs + f.customs)
  }

  /** Into After when it fits, refused when it does not. */
  ghost function Outcome<V>(f: Effect<V>, s: State<V>): Option<State<V>> {
    if Fits(f, s) then Some(After(f, s)) else None
  }

  /** Operators (no parenthesis, no function) of at least precedence p. */
  ghost predicate Tight(ops: seq<StackOp>, p: nat) {
    forall i :: 0 <= i < |ops| ==> (ops[i].Binary? || ops[i].Negate?) && StackPrecedence(ops[i]) >= p
  }

  lemma TightLoosens(ops: seq<StackOp>, p: nat, q: nat)
    requires Tight(ops, p) && q <= p
    ensures Tight(ops, q)
  {}

  /** What is known of the effect of a readable tree of precedence p. */
  ghost predicate Sound<V>(f: Effect<V>, p: nat) {
    Tight(f.pending, p) && |f.pending| <= f.depth && |f.emitted| >= 1
  }

  lemma {:induction false} EffectSound<V>(e: Expr<V>)
    requires Readable(e)
    ensures Sound(EffectOf(e), Precedence(e))
  {
    match e
    case Num(_) =>
    case Paren(x) => EffectSound(x);
    case Apply(_, x) => EffectSound(x);
    case Neg(x) => EffectSound(x);
    case Bin(_, l, r) => EffectSound(l); EffectSound(r);
  }

  lemma PopStep<V>(rest: seq<StackOp>, top: StackOp, out: seq<Rpn<V>>, p: nat)
    requires !top.Open? && StackPrecedence(top) >= p
    ensures PopWhile(rest + [top], out, p) ==
      if |out| >= MAX_RPN_TOKENS then None else PopWhile(rest, out + [ROperator(top)], p)
  {
    assert (rest + [top])[..|rest|] == rest;
  }

  lemma ConcatAssociative<T>(a: seq<T>, b: seq<T>, c: seq<T>)
    ensures a + (b + c) == a + b + c
  {}

  lemma PoppedStep<V>(out: seq<Rpn<V>>, pend: seq<StackOp>)
    requires pend != []
    ensures out + Popped(pend) == out + [ROperator(pend[|pend| - 1])] + Popped(pend[..|pend| - 1])
  {
    ConcatAssociative(out, [ROperator(pend[|pend| - 1])], Popped<V>(pend[..|pend| - 1]));
  }

  /** Popping exactly the pending operators. */
  lemma {:induction false} PopPending<V>(base: seq<StackOp>, pend: seq<StackOp>, out: seq<Rpn<V>>, p: nat)
    requires Tight(pend, p)
    requires base == [] || base[|base| - 1].Open? || Context(base) < p
    requires |out| <= MAX_RPN_TOKENS
    ensures PopWhile(base + pend, out, p) ==
      if |out| + |pend| <= MAX_RPN_TOKENS then Some(Stacks(base, out + Popped(pend))) else None
    decreases |pend|
  {
    if pend == [] {
      assert base + pend == base && out + Popped<V>(pend) == out;
    } else {
      var n := |pend| - 1;
      assert base + pend == (base + pend[..n]) + [pend[n]];
      PopStep(base + pend[..n], pend[n], out, p);
      assert Tight(pend[..n], p);
      PoppedStep(out, pend);
      if |out| < MAX_RPN_TOKENS { PopPending(base, pend[..n], out + [ROperator(pend[n])], p); }
    }
  }

  /** Going on with more tokens, unless already refused. */
  function Then<V>(s: Option<State<V>>, toks: seq<Token<V>>): Option<State<V>> {
    if s.None? then None else Run(s.value, toks)
  }

  lemma {:induction false} RunConcat<V>(s: State<V>, a: seq<Token<V>>, b: seq<Token<V>>)
    ensures Run(s, a + b) == Then(Run(s, a), b)
    decreases |a|
  {
    if a == [] {
      assert a + b == b;
    } else {
      assert (a + b)[0] == a[0] && (a + b)[1..] == a[1..] + b;
      var next := Step(s, a[0]);
      if next.Some? { RunConcat(next.value, a[1..], b); }
    }
  }

  lemma RunOne<V>(s: State<V>, t: Token<V>)
    ensures Run(s, [t]) == Step(s, t)
  {
    var next := Step(s, t);
    assert [t][1..] == [];
    if next.Some? { assert Run(next.value, []) == next; }
  }

  // Single steps.

  /** Reading an operator over pending operators. */
  lemma OperatorStep<V>(s: State<V>, base: seq<StackOp>, pend: seq<StackOp>, entry: StackOp)
    requires s.ops == base + pend && Tight(pend, StackPrecedence(entry)) && Context(base) < StackPrecedence(entry)
    requires |s.out| <= MAX_RPN_TOKENS
    ensures ReadOperator(s, entry) ==
      if |s.out| + |pend| > MAX_RPN_TOKENS || |base| >= OP_STACK_SIZE then None
      else Some(State(base + [entry], s.out + Popped(pend), true, s.customs))
  {
    PopPending(base, pend, s.out, StackPrecedence(entry));
  }

  /** An operator that pops nothing. */
  lemma OperatorStepBare<V>(s: State<V>, entry: StackOp)
    requires Context(s.ops) < StackPrecedence(entry) && |s.out| <= MAX_RPN_TOKENS
    ensures ReadOperator(s, entry) ==
      if |s.ops| >= OP_STACK_SIZE then None else Some(s.(ops := s.ops + [entry], expectOperand := true))
  {}

  /** Closing a parenthesis over pending operators. */
  lemma CloseStep<V>(s: State<V>, base: seq<StackOp>, pend: seq<StackOp>)
    requires s.ops == base + [Open] + pend && Tight(pend, 0) && |s.out| <= MAX_RPN_TOKENS
    ensures ReadClose(s) ==
      if |s.out| + |pend| > MAX_RPN_TOKENS then None
      else CloseParen(State(base, s.out + Popped(pend), s.expectOperand, s.customs))
  {
    PopPending(base + [Open], pend, s.out, 0);
    assert (base + [Open])[..|base|] == base;
  }

  // Effects put together, without the trees they come from.

  /** The state after the close of a parenthesis around an effect; base is the stack below it. */
  ghost function Closed<V>(f: Effect<V>, s: State<V>, base: seq<StackOp>): Option<State<V>> {
    if Fits(f, s) && |s.out| + |f.emitted| + |f.pending| <= MAX_RPN_TOKENS then
      CloseParen(State(base, s.out + f.emitted + Popped(f.pending), false, s.customs + f.customs))
    else None
  }

  lemma CloseAfter<V>(f: Effect<V>, s: State<V>, base: seq<StackOp>)
    requires Tight(f.pending, 0) && Fits(f, s) && s.ops == base + [Open]
    ensures ReadClose(After(f, s)) == Closed(f, s, base)
  {
    CloseStep(After(f, s), base, f.pending);
  }

  lemma ParenOutcome<V>(f: Effect<V>, s: State<V>)
    requires |s.ops| < OP_STACK_SIZE && (s.ops == [] || !s.ops[|s.ops| - 1].Call?)
    ensures Closed(f, State(s.ops + [Open], s.out, true, s.customs), s.ops) == Outcome(ParenEffect(f), s)
  {
    assert s.ops + [] == s.ops;
    assert s.out + (f.emitted + Popped(f.pending)) == s.out + f.emitted + Popped(f.pending);
  }

  /** The state after a function name and its open parenthesis. */
  ghost function CallOpened<V>(s: State<V>, f: Function): State<V> {
    State(s.ops + [Call(f)] + [Open], s.out, true, s.customs + if f.Custom? then 1 else 0)
  }

  lemma CallOutcome<V>(fn: Function, f: Effect<V>, s: State<V>)
    requires CallOpened(s, fn).customs <= MAX_CUSTOM_CALLS && |s.ops| + 2 <= OP_STACK_SIZE
    ensures Closed(f, CallOpened(s, fn), s.ops + [Call(fn)]) == Outcome(ApplyEffect(fn, f), s)
  {
    assert (s.ops + [Call(fn)])[..|s.ops|] == s.ops == s.ops + [];
    assert s.out + (f.emitted + Popped(f.pending) + [RCall(fn)]) == s.out + f.emitted + Popped(f.pending) + [RCall(fn)];
  }

  lemma NegOutcome<V>(f: Effect<V>, s: State<V>)
    requires f.pending == [] && |s.ops| < OP_STACK_SIZE
    ensures Outcome(f, State(s.ops + [Negate], s.out, true, s.customs)) == Outcome(NegEffect(false, f), s)
  {
    assert s.ops + [Negate] + f.pending == s.ops + [Negate];
  }

  lemma SecondMinusOutcome<V>(f: Effect<V>, s: State<V>)
    requires f.pending == [Negate] && f.depth >= 1
    ensures Outcome(NegEffect(true, f), s) ==
      if |s.out| >= MAX_RPN_TOKENS then None
      else Outcome(f, State(s.ops, s.out + [ROperator(Negate)], true, s.customs))
  {
    assert s.out + ([ROperator(Negate)] + f.emitted) == s.out + [ROperator(Negate)] + f.emitted;
  }

  /** The state in which the right operand is read, once the operator is on the stack. */
  ghost function BeforeRight<V>(l: Effect<V>, op: BinOp, s: State<V>): State<V> {
    State(s.ops + [Binary(op)], s.out + l.emitted + Popped(l.pending), true, s.customs + l.customs)
  }

  /** Whether the left operand and the operator can be read. */
  ghost predicate LeftFits<V>(l: Effect<V>, s: State<V>) {
    Fits(l, s) && |s.out| + |l.emitted| + |l.pending| <= MAX_RPN_TOKENS && |s.ops| < OP_STACK_SIZE
  }

  lemma OperatorAfter<V>(l: Effect<V>, op: BinOp, s: State<V>)
    requires Fits(l, s) && Tight(l.pending, OpPrecedence(op)) && Context(s.ops) < OpPrecedence(op)
    ensures ReadOperator(After(l, s), Binary(op)) == if LeftFits(l, s) then Some(BeforeRight(l, op, s)) else None
  {
    OperatorStep(After(l, s), s.ops, l.pending, Binary(op));
  }

  lemma BinOutcome<V>(l: Effect<V>, op: BinOp, r: Effect<V>, s: State<V>)
    ensures Outcome(BinEffect(op, l, r), s) ==
      if LeftFits(l, s) then Outcome(r, BeforeRight(l, op, s)) else None
  {
    assert s.ops + ([Binary(op)] + r.pending) == s.ops + [Binary(op)] + r.pending;
    assert s.out + (l.emitted + Popped(l.pending) + r.emitted) == s.out + l.emitted + Popped(l.pending) + r.emitted;
  }

  // Whole subtrees.

  ghost predicate Reads<V>(e: Expr<V>, s: State<V>) {
    Run(s, Render(e)) == Outcome(EffectOf(e), s)
  }

  ghost predicate Ready<V>(e: Expr<V>, s: State<V>) {
    Readable(e) && s.expectOperand && Within(s) && Context(s.ops) < Precedence(e)
  }

  lemma {:induction false} RunExpr<V>(e: Expr<V>, s: State<V>)
    requires Ready(e, s)
    ensures Reads(e, s)
    decreases e, 1
  {
    match e
    case Num(v) =>
      RunOne(s, Number(v));
      assert s.ops + [] == s.ops;
    case Paren(x) => RunParen(x, s);
    case Apply(f, x) => RunApply(f, x, s);
    case Neg(x) => RunNeg(x, s);
    case Bin(op, l, r) => RunBin(op, l, r, s);
  }

  lemma {:induction false} RunInside<V>(x: Expr<V>, s: State<V>, base: seq<StackOp>)
    requires Readable(x) && Within(s) && s.expectOperand && s.ops == base + [Open]
    ensures Run(s, Render(x) + [RParen]) == Closed(EffectOf(x), s, base)
    decreases x, 2
  {
    RunConcat(s, Render(x), [RParen]);
    RunExpr(x, s);
    var f := EffectOf(x);
    if Fits(f, s) {
      EffectSound(x);
      TightLoosens(f.pending, Precedence(x), 0);
      RunOne(After(f, s), RParen);
      CloseAfter(f, s, base);
    }
  }

  lemma {:induction false} RunParen<V>(x: Expr<V>, s: State<V>)
    requires Ready(Paren(x), s)
    ensures Run(s, [LParen] + Render(x) + [RParen]) == Outcome(ParenEffect(EffectOf(x)), s)
    decreases x, 3
  {
    var tail := Render(x) + [RParen];
    assert [LParen] + Render(x) + [RParen] == [LParen] + tail;
    RunConcat(s, [LParen], tail);
    RunOne(s, LParen);
    if |s.ops| < OP_STACK_SIZE {
      RunInside(x, State(s.ops + [Open], s.out, true, s.customs), s.ops);
      ParenOutcome(EffectOf(x), s);
    }
  }

  lemma RunTwo<V>(s: State<V>, t: Token<V>, u: Token<V>)
    ensures Run(s, [t, u]) == if Step(s, t).None? then None else Step(Step(s, t).value, u)
  {
    assert [t, u][1..] == [u];
    if Step(s, t).Some? { RunOne(Step(s, t).value, u); }
  }

  lemma CallHead<V>(s: State<V>, f: Function)
    requires Within(s)
    ensures Run(s, [Fn(f), LParen]) ==
      if CallOpened(s, f).customs > MAX_CUSTOM_CALLS || |s.ops| + 2 > OP_STACK_SIZE then None
      else Some(CallOpened(s, f))
  {
    RunTwo(s, Fn(f), LParen);
    var s1 := State(s.ops + [Call(f)], s.out, true, s.customs + if f.Custom? then 1 else 0);
    FunctionStep(s, f, s1);
  }

  lemma FunctionStep<V>(s: State<V>, f: Function, s1: State<V>)
    requires s1 == State(s.ops + [Call(f)], s.out, true, s.customs + if f.Custom? then 1 else 0)
    ensures Step(s, Fn(f)) ==
      if (f.Custom? && s.customs >= MAX_CUSTOM_CALLS) || |s.ops| >= OP_STACK_SIZE then None else Some(s1)
  {}

  lemma {:induction false} RunApply<V>(f: Function, x: Expr<V>, s: State<V>)
    requires Ready(Apply(f, x), s)
    ensures Run(s, [Fn(f), LParen] + Render(x) + [RParen]) == Outcome(ApplyEffect(f, EffectOf(x)), s)
    decreases x, 3
  {
    var tail := Render(x) + [RParen];
    assert [Fn(f), LParen] + Render(x) + [RParen] == [Fn(f), LParen] + tail;
    RunConcat(s, [Fn(f), LParen], tail);
    CallHead(s, f);
    if CallOpened(s, f).customs <= MAX_CUSTOM_CALLS && |s.ops| + 2 <= OP_STACK_SIZE {
      RunInside(x, CallOpened(s, f), s.ops + [Call(f)]);
      CallOutcome(f, EffectOf(x), s);
    }
  }

  lemma {:induction false} RunNeg<V>(x: Expr<V>, s: State<V>)
    requires Ready(Neg(x), s)
    ensures Run(s, [Op(Minus)] + Render(x)) == Outcome(NegEffect(x.Neg?, EffectOf(x)), s)
    decreases x, 3
  {
    RunConcat(s, [Op(Minus)], Render(x));
    RunOne(s, Op(Minus));
    OperatorStepBare(s, Negate);
    EffectSound(x);
    NegPending(x);
    if |s.ops| < OP_STACK_SIZE {
      if x.Neg? {
        RunSecondMinus(x.e, s);
        SecondMinusOutcome(EffectOf(x), s);
      } else {
        RunExpr(x, State(s.ops + [Negate], s.out, true, s.customs));
        NegOutcome(EffectOf(x), s);
      }
    }
  }

  lemma NegPending<V>(x: Expr<V>)
    requires Precedence(x) >= 3
    ensures EffectOf(x).pending == if x.Neg? then [Negate] else []
  {}

  /** A second minus pops the first and takes its place. */
  lemma {:induction false} RunSecondMinus<V>(x: Expr<V>, s: State<V>)
    requires Ready(Neg(x), s) && |s.ops| < OP_STACK_SIZE
    ensures Run(State(s.ops + [Negate], s.out, true, s.customs), Render(Neg(x))) ==
      if |s.out| >= MAX_RPN_TOKENS then None
      else Outcome(EffectOf(Neg(x)), State(s.ops, s.out + [ROperator(Negate)], true, s.customs))
    decreases x, 4
  {
    var s1 := State(s.ops + [Negate], s.out, true, s.customs);
    var s2 := State(s.ops, s.out + [ROperator(Negate)], true, s.customs);
    RunConcat(s1, [Op(Minus)], Render(x));
    RunConcat(s2, [Op(Minus)], Render(x));
    RunOne(s1, Op(Minus));
    RunOne(s2, Op(Minus));
    assert Popped<V>([Negate]) == [ROperator(Negate)];
    OperatorStep(s1, s.ops, [Negate], Negate);
    if |s.out| < MAX_RPN_TOKENS {
      OperatorStepBare(s2, Negate);
      RunNeg(x, s2);
    }
  }

  /** The left operand and the operator. */
  lemma {:induction false} RunLeft<V>(op: BinOp, l: Expr<V>, s: State<V>)
    requires Ready(l, s) && Precedence(l) >= OpPrecedence(op) && Context(s.ops) < OpPrecedence(op)
    ensures Run(s, Render(l) + [Op(op)]) ==
      if LeftFits(EffectOf(l), s) then Some(BeforeRight(EffectOf(l), op, s)) else None
    decreases l, 2
  {
    RunConcat(s, Render(l), [Op(op)]);
    RunExpr(l, s);
    var f := EffectOf(l);
    if Fits(f, s) {
      EffectSound(l);
      TightLoosens(f.pending, Precedence(l), OpPrecedence(op));
      RunOne(After(f, s), Op(op));
      OperatorAfter(f, op, s);
    }
  }

  lemma {:induction false} RunBin<V>(op: BinOp, l: Expr<V>, r: Expr<V>, s: State<V>)
    requires Ready(Bin(op, l, r), s)
    ensures Run(s, Render(l) + [Op(op)] + Render(r)) == Outcome(BinEffect(op, EffectOf(l), EffectOf(r)), s)
    decreases Bin(op, l, r), 0
  {
    RunConcat(s, Render(l) + [Op(op)], Render(r));
    RunLeft(op, l, s);
    BinOutcome(EffectOf(l), op, EffectOf(r), s);
    if LeftFits(EffectOf(l), s) { RunExpr(r, BeforeRight(EffectOf(l), op, s)); }
  }

  lemma {:induction false} FlushPending<V>(ops: seq<StackOp>, out: seq<Rpn<V>>)
    requires Tight(ops, 0) && |out| <= MAX_RPN_TOKENS
    ensures Flush(ops, out) == if |out| + |ops| <= MAX_RPN_TOKENS then Some(out + Popped(ops)) else None
    decreases |ops|
  {
    if ops == [] {
      assert out + Popped<V>(ops) == out;
    } else if |out| < MAX_RPN_TOKENS {
      PoppedStep(out, ops);
      assert Tight(ops[..|ops| - 1], 0);
      FlushPending(ops[..|ops| - 1], out + [ROperator(ops[|ops| - 1])]);
    }
  }

  /** The limits of the compiler's fixed-size arrays: 128 code tokens, 64 stacked operators, 16 custom calls. */
  ghost predicate WithinLimits<V>(e: Expr<V>) {
    |Compiled(e)| <= 128 && EffectOf(e).depth <= 64 && EffectOf(e).customs <= 16
  }

  lemma StartAfter<V>(f: Effect<V>)
    ensures After(f, Start()).ops == f.pending && After(f, Start()).out == f.emitted
  {}

  lemma CompileOutcome<V>(toks: seq<Token<V>>, f: Effect<V>)
    requires Run(Start(), toks) == Outcome(f, Start()) && Tight(f.pending, 0)
    requires |f.pending| <= f.depth
    ensures Compile(toks) ==
      if |Flushed(f)| <= MAX_RPN_TOKENS && f.depth <= OP_STACK_SIZE && f.customs <= MAX_CUSTOM_CALLS
      then Some(Flushed(f)) else None
  {
    StartAfter(f);
    if Fits(f, Start()) { FlushPending(f.pending, f.emitted); }
  }

  /** What compiling a printed tree gives, exactly: refused when a limit is exceeded, else Compiled(e). */
  lemma CompilePrinted<V>(e: Expr<V>)
    requires Readable(e)
    ensures Compile(Render(e)) == if WithinLimits(e) then Some(Compiled(e)) else None
  {
    RunExpr(e, Start());
    EffectSound(e);
    TightLoosens(EffectOf(e).pending, Precedence(e), 0);
    CompileOutcome(Render(e), EffectOf(e));
  }

  // ---- when the compiler's order is postfix order ----

  lemma {:induction false} PoppedBottom<V>(x: StackOp, p: seq<StackOp>)
    ensures Popped<V>([x] + p) == Popped(p) + [ROperator(x)]
    decreases |p|
  {
    if p == [] {
      assert [x] + p == [x] && Popped<V>([x]) == [ROperator(x)] + Popped([x][..0]);
    } else {
      var n := |p| - 1;
      assert ([x] + p)[..n + 1] == [x] + p[..n];
      PoppedBottom<V>(x, p[..n]);
    }
  }

  lemma BinFlushed<V>(op: BinOp, l: Effect<V>, r: Effect<V>)
    ensures Flushed(BinEffect(op, l, r)) == Flushed(l) + Flushed(r) + [ROperator(Binary(op))]
  {
    PoppedBottom<V>(Binary(op), r.pending);
    assert Flushed(l) + r.emitted + (Popped(r.pending) + [ROperator(Binary(op))])
        == Flushed(l) + (r.emitted + Popped(r.pending)) + [ROperator(Binary(op))];
  }

  lemma NegFlushed<V>(f: Effect<V>, afterMinus: bool)
    requires f.pending == if afterMinus then [Negate] else []
    ensures Flushed(NegEffect(afterMinus, f)) ==
      if afterMinus then [ROperator(Negate)] + Flushed(f) else Flushed(f) + [ROperator(Negate)]
  {
    assert Popped<V>([Negate]) == [ROperator(Negate)];
    if afterMinus {
      assert [ROperator(Negate)] + f.emitted + [ROperator(Negate)]
          == [ROperator(Negate)] + (f.emitted + [ROperator(Negate)]);
    } else {
      assert f.emitted + Popped<V>([]) == f.emitted;
    }
  }

  lemma {:induction false} PostfixStartsWithNumber<V>(e: Expr<V>)
    ensures Postfix(e)[0].RNumber?
  {
    match e
    case Num(_) =>
    case Paren(x) => PostfixStartsWithNumber(x);
    case Apply(_, x) => PostfixStartsWithNumber(x);
    case Neg(x) => PostfixStartsWithNumber(x);
    case Bin(_, l, _) => PostfixStartsWithNumber(l);
  }

  lemma SplitEqual<T>(a: seq<T>, b: seq<T>, c: seq<T>, d: seq<T>)
    requires |a| == |c|
    ensures a + b == c + d <==> a == c && b == d
  {
    assert (a + b)[..|a|] == a && (c + d)[..|a|] == c;
    assert (a + b)[|a|..] == b && (c + d)[|a|..] == d;
  }

  /** The compiler's order is postfix order exactly for the trees without a minus directly under a minus. */
  lemma {:induction false} CompiledIsPostfixIff<V>(e: Expr<V>)
    requires Readable(e)
    ensures |Compiled(e)| == |Postfix(e)|
    ensures Compiled(e) == Postfix(e) <==> NoDoubleMinus(e)
  {
    match e
    case Num(_) =>
      assert Compiled(e) == Postfix(e);
    case Paren(x) =>
      CompiledIsPostfixIff(x);
      assert Compiled(e) == Compiled(x) + [] == Compiled(x);
    case Apply(f, x) =>
      CompiledIsPostfixIff(x);
      assert Compiled(e) == Compiled(x) + [RCall(f)] + [] == Compiled(x) + [RCall(f)];
      SplitEqual(Compiled(x), [RCall(f)], Postfix(x), [RCall(f)]);
    case Neg(x) =>
      CompiledIsPostfixIff(x);
      NegPending(x);
      NegFlushed(EffectOf(x), x.Neg?);
      if x.Neg? {
        PostfixStartsWithNumber(e);
      } else {
        SplitEqual(Compiled(x), [ROperator(Negate)], Postfix(x), [ROperator(Negate)]);
      }
    case Bin(op, l, r) =>
      CompiledIsPostfixIff(l);
      CompiledIsPostfixIff(r);
      BinFlushed(op, EffectOf(l), EffectOf(r));
      SplitEqual(Compiled(l) + Compiled(r), [ROperator(Binary(op))], Postfix(l) + Postfix(r), [ROperator(Binary(op))]);
      SplitEqual(Compiled(l), Compiled(r), Postfix(l), Postfix(r));
  }

  // ---- the RPN machine ----

  /** Complex arithmetic and the function table, of which nothing else is known. */
  datatype Arith<!V> = Arith(
    neg: V -> V, add: (V, V) -> V, sub: (V, V) -> V, mul: (V, V) -> V, div: (V, V) -> V,
    isZero: V -> bool, call: (Function, V) -> V, zero: V)

  datatype Result<V> = Value(v: V) | DivisionByZero | ErrorValue

  function ApplyBinary<V>(a: Arith<V>, op: BinOp, x: V, y: V): Result<V> {
    match op
    case Plus => Value(a.add(x, y))
    case Minus => Value(a.sub(x, y))
    case Star => Value(a.mul(x, y))
    case Slash => if a.isZero(y) then DivisionByZero else Value(a.div(x, y))
  }

  datatype Machine<V> = Running(stack: seq<V>) | Halted(result: Result<V>)

  /** One token of evaluate_rpn. */
  function Execute1<V>(a: Arith<V>, st: seq<V>, t: Rpn<V>): Machine<V> {
    var n := |st|;
    match t
    case RNumber(v) => if n >= EVAL_STACK_SIZE then Halted(ErrorValue) else Running(st + [v])
    case RCall(f) => if n == 0 then Halted(ErrorValue) else Running(st[..n - 1] + [a.call(f, st[n - 1])])
    case ROperator(op) =>
      if op.Negate? then
        if n == 0 then Halted(ErrorValue) else Running(st[..n - 1] + [a.neg(st[n - 1])])
      else if n < 2 then Halted(ErrorValue)
      else if op.Binary? then
        var r := ApplyBinary(a, op.op, st[n - 2], st[n - 1]);
        if r.Value? then Running(st[..n - 2] + [r.v]) else Halted(r)
      else Running(st[..n - 2] + [a.zero])
  }

  function Execute<V>(a: Arith<V>, st: seq<V>, toks: seq<Rpn<V>>): Machine<V>
    decreases |toks|
  {
    if toks == [] then Running(st)
    else
      var m := Execute1(a, st, toks[0]);
      if m.Halted? then m else Execute(a, m.stack, toks[1..])
  }

  /** evaluate_rpn */
  function Evaluate<V>(a: Arith<V>, toks: seq<Rpn<V>>): Result<V> {
    if toks == [] then ErrorValue
    else
      var m := Execute(a, [], toks);
      if m.Halted? then m.result
      else if |m.stack| == 1 then Value(m.stack[0]) else ErrorValue
  }

  /** The value of a tree, by structure alone. */
  function Eval<V>(a: Arith<V>, e: Expr<V>): (r: Result<V>)
    ensures !r.ErrorValue?
  {
    match e
    case Num(v) => Value(v)
    case Paren(x) => Eval(a, x)
    case Apply(f, x) => var v := Eval(a, x); if v.Value? then Value(a.call(f, v.v)) else v
    case Neg(x) => var v := Eval(a, x); if v.Value? then Value(a.neg(v.v)) else v
    case Bin(op, l, r) =>
      var v := Eval(a, l);
      if !v.Value? then v
      else var w := Eval(a, r); if w.Value? then ApplyBinary(a, op, v.v, w.v) else w
  }

  lemma {:induction false} ExecuteConcat<V>(a: Arith<V>, st: seq<V>, s: seq<Rpn<V>>, t: seq<Rpn<V>>)
    ensures var m := Execute(a, st, s); Execute(a, st, s + t) == if m.Halted? then m else Execute(a, m.stack, t)
    decreases |s|
  {
    if s == [] {
      assert s + t == t;
    } else {
      assert (s + t)[0] == s[0] && (s + t)[1..] == s[1..] + t;
      var m := Execute1(a, st, s[0]);
      if m.Running? { ExecuteConcat(a, m.stack, s[1..], t); }
    }
  }

  lemma ExecuteOne<V>(a: Arith<V>, st: seq<V>, t: Rpn<V>)
    ensures Execute(a, st, [t]) == Execute1(a, st, t)
  {
    var m := Execute1(a, st, t);
    assert [t][1..] == [];
    if m.Running? { assert Execute(a, m.stack, []) == m; }
  }

  /** The value of e pushed, or the division by zero it met. */
  function Pushed<V>(st: seq<V>, r: Result<V>): Machine<V> {
    if r.Value? then Running(st + [r.v]) else Halted(r)
  }

  lemma ExecuteUnary<V>(a: Arith<V>, st: seq<V>, v: V, t: Rpn<V>)
    requires t == ROperator(Negate) || t.RCall?
    ensures Execute1(a, st + [v], t) == Running(st + [if t.RCall? then a.call(t.f, v) else a.neg(v)])
  {
    assert (st + [v])[..|st|] == st;
  }

  lemma ExecuteBinary<V>(a: Arith<V>, st: seq<V>, v: V, w: V, op: BinOp)
    ensures Execute1(a, st + [v] + [w], ROperator(Binary(op))) == Pushed(st, ApplyBinary(a, op, v, w))
  {
    assert (st + [v] + [w])[..|st|] == st;
  }

  /** Postfix code pushes the tree's value; the 128-entry stack never overflows on at most 128 tokens. */
  lemma {:induction false} ExecutePostfix<V>(a: Arith<V>, st: seq<V>, e: Expr<V>)
    requires |st| + |Postfix(e)| <= EVAL_STACK_SIZE
    ensures Execute(a, st, Postfix(e)) == Pushed(st, Eval(a, e))
    decreases e
  {
    match e
    case Num(v) => ExecuteOne(a, st, RNumber(v));
    case Paren(x) => ExecutePostfix(a, st, x);
    case Apply(f, x) =>
      ExecutePostfix(a, st, x);
      ExecuteConcat(a, st, Postfix(x), [RCall(f)]);
      var v := Eval(a, x);
      if v.Value? { ExecuteOne(a, st + [v.v], RCall(f)); ExecuteUnary(a, st, v.v, RCall(f)); }
    case Neg(x) =>
      ExecutePostfix(a, st, x);
      ExecuteConcat(a, st, Postfix(x), [ROperator(Negate)]);
      var v := Eval(a, x);
      if v.Value? { ExecuteOne(a, st + [v.v], ROperator(Negate)); ExecuteUnary(a, st, v.v, ROperator(Negate)); }
    case Bin(op, l, r) =>
      ExecutePostfix(a, st, l);
      ExecuteConcat(a, st, Postfix(l) + Postfix(r), [ROperator(Binary(op))]);
      ExecuteConcat(a, st, Postfix(l), Postfix(r));
      var v := Eval(a, l);
      if v.Value? {
        ExecutePostfix(a, st + [v.v], r);
        var w := Eval(a, r);
        if w.Value? {
          ExecuteOne(a, st + [v.v] + [w.v], ROperator(Binary(op)));
          ExecuteBinary(a, st, v.v, w.v, op);
        }
      }
  }

  /** Compiling a printed tree and running the code gives the tree's value. */
  lemma CompileEvaluate<V>(a: Arith<V>, e: Expr<V>)
    requires Readable(e) && NoDoubleMinus(e) && WithinLimits(e)
    ensures Compile(Render(e)).Some? && Evaluate(a, Compile(Render(e)).value) == Eval(a, e)
  {
    CompilePrinted(e);
    CompiledIsPostfixIff(e);
    ExecutePostfix(a, [], e);
  }

  // ---- any tree, with the parentheses it needs ----

  /** Parentheses around operands of too low a precedence, and around a minus directly under a minus. */
  function Parenthesise<V>(e: Expr<V>): Expr<V> {
    match e
    case Num(_) => e
    case Paren(x) => Paren(Parenthesise(x))
    case Apply(f, x) => Apply(f, Parenthesise(x))
    case Neg(x) => var y := Parenthesise(x); Neg(if Precedence(y) > 3 then y else Paren(y))
    case Bin(op, l, r) =>
      var x, y := Parenthesise(l), Parenthesise(r);
      Bin(op, if Precedence(x) >= OpPrecedence(op) then x else Paren(x),
          if Precedence(y) > OpPrecedence(op) then y else Paren(y))
  }

  /** Any tree becomes one the compiler gets right, with the same value. */
  lemma {:induction false} ParenthesiseFits<V>(a: Arith<V>, e: Expr<V>)
    ensures Readable(Parenthesise(e)) && NoDoubleMinus(Parenthesise(e))
    ensures Eval(a, Parenthesise(e)) == Eval(a, e)
  {
    match e
    case Num(_) =>
    case Paren(x) => ParenthesiseFits(a, x);
    case Apply(_, x) => ParenthesiseFits(a, x);
    case Neg(x) => ParenthesiseFits(a, x);
    case Bin(_, l, r) => ParenthesiseFits(a, l); ParenthesiseFits(a, r);
  }

  /** Any tree, printed with the parentheses it needs: compiling and running the code gives its value, or a table is
      too small and the compiler refuses. */
  lemma CompileAnyTree<V>(a: Arith<V>, e: Expr<V>)
    ensures var code := Compile(Render(Parenthesise(e)));
            if WithinLimits(Parenthesise(e)) then code.Some? && Evaluate(a, code.value) == Eval(a, e) else code.None?
  {
    ParenthesiseFits(a, e);
    CompilePrinted(Parenthesise(e));
    if WithinLimits(Parenthesise(e)) { CompileEvaluate(a, Parenthesise(e)); }
  }

  /** A double minus breaks it: --v compiles, and its code ends in the error value. */
  lemma DoubleMinusFails<V>(a: Arith<V>, v: V)
    ensures Readable(Neg(Neg(Num(v)))) && WithinLimits(Neg(Neg(Num(v))))
    ensures Evaluate(a, Compiled(Neg(Neg(Num(v))))) == ErrorValue
  {
    var num, e := Num(v), Neg(Neg(Num(v)));
    assert Readable(num) && Precedence(num) == 4 && EffectOf(num) == Effect([RNumber(v)], [], 0, 0);
    var one := EffectOf(Neg(num));
    assert one == NegEffect(false, EffectOf(num)) == Effect([RNumber(v)], [Negate], 1, 0);
    assert Readable(Neg(num)) && Readable(e);
    NegFlushed(one, true);
    assert EffectOf(e) == NegEffect(true, one);
    assert |Flushed(one)| == 2 && Compiled(e) == [ROperator(Negate)] + Flushed(one);
    assert Execute1(a, [], Compiled(e)[0]) == Halted(ErrorValue);
  }

  // ---- the loops over fixed-size stacks ----

  /** The operator stack and the output queue of a compilation. */
  class Compiler<V> {
    const ops: array<StackOp>
    const queue: array<Rpn<V>>
    var top: nat        // op_top + 1
    var count: nat
    var expectOperand: bool
    var customs: nat

    ghost predicate Valid()
      reads this
    {
      ops.Length == OP_STACK_SIZE && queue.Length == MAX_RPN_TOKENS && top <= OP_STACK_SIZE && count <= MAX_RPN_TOKENS
    }

    ghost function Contents(): State<V>
      requires Valid()
      reads this, ops, queue
    {
      State(ops[..top], queue[..count], expectOperand, customs)
    }

    constructor ()
      ensures Valid() && Contents() == Start() && fresh(ops) && fresh(queue)
    {
      ops := new StackOp[OP_STACK_SIZE](_ => Open);
      queue := new Rpn<V>[MAX_RPN_TOKENS](_ => ROperator(Negate));
      top, count, expectOperand, customs := 0, 0, true, 0;
    }

    /** Append to the queue. */
    method Append(t: Rpn<V>) returns (ok: bool)
      requires Valid()
      modifies this`count, queue
      ensures Valid() && ok == (old(count) < MAX_RPN_TOKENS)
      ensures Contents() == old(Contents()).(out := if ok then old(Contents()).out + [t] else old(Contents()).out)
    {
      if count >= MAX_RPN_TOKENS { return false; }
      queue[count] := t;
      count := count + 1;
      return true;
    }

    method Push(entry: StackOp) returns (ok: bool)
      requires Valid()
      modifies this`top, this`expectOperand, ops
      ensures Valid()
      ensures PushOp(old(Contents()), entry) == if ok then Some(Contents()) else None
    {
      if top >= OP_STACK_SIZE { return false; }
      ops[top] := entry;
      top := top + 1;
      expectOperand := true;
      assert ops[..top] == old(ops[..top]) + [entry];
      return true;
    }

    /** The pop loop shared by operators and closing parentheses. */
    method PopOperators(p: nat) returns (ok: bool)
      requires Valid()
      modifies this`top, this`count, queue
      ensures Valid()
      ensures var r := PopWhile(old(Contents()).ops, old(Contents()).out, p);
              if r.None? then !ok
              else ok && Contents() == old(Contents()).(ops := r.value.ops, out := r.value.out)
    {
      ghost var start := Contents();
      ghost var goal := PopWhile(start.ops, start.out, p);
      while top > 0 && !ops[top - 1].Open? && StackPrecedence(ops[top - 1]) >= p
        invariant Valid() && PopWhile(Contents().ops, Contents().out, p) == goal
        invariant expectOperand == start.expectOperand && customs == start.customs
        decreases top
      {
        ghost var s := Contents();
        assert s.ops[..top - 1] == ops[..top - 1];
        var appended := Append(ROperator(ops[top - 1]));
        if !appended { return false; }
        top := top - 1;
      }
      return true;
    }

    /** A closing parenthesis. */
    method Close() returns (ok: bool)
      requires Valid()
      modifies this`top, this`count, this`expectOperand, queue
      ensures Valid()
      ensures ReadClose(old(Contents())) == if ok then Some(Contents()) else None
    {
      ok := PopOperators(0);
      if !ok || top == 0 { return false; }
      ghost var popped := Contents();
      assert popped.ops[..top - 1] == ops[..top - 1];
      top := top - 1;
      ghost var below := Contents();
      if top > 0 && ops[top - 1].Call? {
        assert below.ops[..top - 1] == ops[..top - 1];
        var f := ops[top - 1].f;
        ok := Append(RCall(f));
        if !ok { return false; }
        top := top - 1;
      }
      expectOperand := false;
    }

    /** One token of infix_to_rpn. */
    method Read(t: Token<V>) returns (ok: bool)
      requires Valid()
      modifies this, ops, queue
      ensures Valid()
      ensures Step(old(Contents()), t) == if ok then Some(Contents()) else None
    {
      match t
      case Number(v) =>
        ok := Append(RNumber(v));
        if ok { expectOperand := false; }
      case Fn(f) =>
        if f.Custom? {
          if customs >= MAX_CUSTOM_CALLS { return false; }
          customs := customs + 1;
        }
        ok := Push(Call(f));
      case LParen =>
        ok := Push(Open);
      case RParen =>
        ok := Close();
      case Op(op) =>
        var entry := if op.Minus? && expectOperand then Negate else Binary(op);
        ok := PopOperators(StackPrecedence(entry));
        if !ok { return false; }
        ok := Push(entry);
    }

    /** The final flush. */
    method Finish() returns (ok: bool)
      requires Valid()
      modifies this`top, this`count, queue
      ensures Valid()
      ensures Flush(old(Contents()).ops, old(Contents()).out) == if ok then Some(Contents().out) else None
    {
      ghost var goal := Flush(Contents().ops, Contents().out);
      while top > 0
        invariant Valid() && Flush(Contents().ops, Contents().out) == goal
        decreases top
      {
        if ops[top - 1].Open? { return false; }
        ghost var s := Contents();
        assert s.ops[..top - 1] == ops[..top - 1];
        var entry := ops[top - 1];
        ok := Append(if entry.Call? then RCall(entry.f) else ROperator(entry));
        if !ok { return false; }
        top := top - 1;
      }
      return true;
    }
  }

  /** infix_to_rpn over a token list. */
  method InfixToRpn<V>(toks: seq<Token<V>>) returns (ok: bool, code: seq<Rpn<V>>)
    ensures Compile(toks) == if ok then Some(code) else None
  {
    var c := new Compiler<V>();
    var i := 0;
    code := [];
    while i < |toks|
      invariant 0 <= i <= |toks| && c.Valid() && fresh(c) && fresh(c.ops) && fresh(c.queue)
      invariant Run(c.Contents(), toks[i..]) == Run(Start(), toks)
    {
      assert toks[i..][0] == toks[i] && toks[i..][1..] == toks[i + 1..];
      ok := c.Read(toks[i]);
      if !ok { return false, []; }
      i := i + 1;
    }
    assert toks[i..] == [];
    ok := c.Finish();
    if ok { code := c.queue[..c.count]; }
  }

  /** One token on the 128-entry stack. */
  method ExecuteToken<V>(a: Arith<V>, stack: array<V>, top: nat, t: Rpn<V>)
    returns (halted: bool, newTop: nat, r: Result<V>)
    requires stack.Length == EVAL_STACK_SIZE && top <= EVAL_STACK_SIZE
    modifies stack
    ensures newTop <= EVAL_STACK_SIZE
    ensures old(Execute1(a, stack[..top], t)) == if halted then Halted(r) else Running(stack[..newTop])
  {
    ghost var st := stack[..top];
    halted, newTop, r := false, top, ErrorValue;
    match t
    case RNumber(v) =>
      if top >= EVAL_STACK_SIZE { return true, top, ErrorValue; }
      stack[top] := v;
      newTop := top + 1;
      assert stack[..newTop] == st + [v];
    case RCall(f) =>
      if top == 0 { return true, top, ErrorValue; }
      stack[top - 1] := a.call(f, stack[top - 1]);
      assert stack[..top] == st[..top - 1] + [a.call(f, st[top - 1])];
    case ROperator(op) =>
      if op.Negate? {
        if top == 0 { return true, top, ErrorValue; }
        stack[top - 1] := a.neg(stack[top - 1]);
        assert stack[..top] == st[..top - 1] + [a.neg(st[top - 1])];
      } else {
        if top < 2 { return true, top, ErrorValue; }
        var y, x := stack[top - 1], stack[top - 2];
        var result := a.zero;
        if op.Binary? {
          var b := ApplyBinary(a, op.op, x, y);
          if !b.Value? { return true, top, b; }
          result := b.v;
        }
        stack[top - 2] := result;
        newTop := top - 1;
        assert stack[..newTop] == st[..top - 2] + [result];
      }
  }

  /** evaluate_rpn on its 128-entry stack. */
  method EvaluateRpn<V>(a: Arith<V>, code: seq<Rpn<V>>) returns (r: Result<V>)
    ensures r == Evaluate(a, code)
  {
    if |code| == 0 { return ErrorValue; }
    var stack := new V[EVAL_STACK_SIZE](_ => a.zero);
    var top := 0;
    var i := 0;
    while i < |code|
      invariant 0 <= i <= |code| && 0 <= top <= EVAL_STACK_SIZE
      invariant Execute(a, stack[..top], code[i..]) == Execute(a, [], code)
    {
      assert code[i..][0] == code[i] && code[i..][1..] == code[i + 1..];
      var halted, newTop, result := ExecuteToken(a, stack, top, code[i]);
      if halted { return result; }
      top := newTop;
      i := i + 1;
    }
    assert code[i..] == [];
    if top != 1 { return ErrorValue; }
    return Value(stack[0]);
  }
}
