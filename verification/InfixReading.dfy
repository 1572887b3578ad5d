/** What the shunting-yard pair makes of token lists that no tree was printed to: which are accepted, and what a code
    evaluates to. */
module InfixReading {
  import opened Common
  import opened ShuntingYard

  // ---- codes as trees ----

  /** What a code computes: numbers, a token on one value, a token on two. */
  datatype Tree<V> = Leaf(v: V) | One(t: Rpn<V>, x: Tree<V>) | Two(t: Rpn<V>, l: Tree<V>, r: Tree<V>)

  /** The tokens that take one value off the stack; other operators take two. */
  predicate TakesOne<V>(t: Rpn<V>) {
    t.RCall? || t == ROperator(Negate)
  }

  predicate Sound<V>(e: Tree<V>) {
    match e
    case Leaf(_) => true
    case One(t, x) => TakesOne(t) && Sound(x)
    case Two(t, l, r) => t.ROperator? && !TakesOne(t) && Sound(l) && Sound(r)
  }

  function Code<V>(e: Tree<V>): (s: seq<Rpn<V>>)
    ensures |s| > 0
  {
    match e
    case Leaf(v) => [RNumber(v)]
    case One(t, x) => Code(x) + [t]
    case Two(t, l, r) => Code(l) + Code(r) + [t]
  }

  /** A token on one value. */
  function ApplyOne<V>(a: Arith<V>, t: Rpn<V>, v: V): V
    requires TakesOne(t)
  {
    if t.RCall? then a.call(t.f, v) else a.neg(v)
  }

  /** A token on two values; a function that lost its parentheses gives zero. */
  function ApplyTwo<V>(a: Arith<V>, t: Rpn<V>, x: V, y: V): Result<V>
    requires t.ROperator? && !TakesOne(t)
  {
    if t.op.Binary? then ApplyBinary(a, t.op.op, x, y) else Value(a.zero)
  }

  function TreeValue<V>(a: Arith<V>, e: Tree<V>): (r: Result<V>)
    requires Sound(e)
    ensures !r.ErrorValue?
  {
    match e
    case Leaf(v) => Value(v)
    case One(t, x) => var v := TreeValue(a, x); if v.Value? then Value(ApplyOne(a, t, v.v)) else v
    case Two(t, l, r) =>
      var v := TreeValue(a, l);
      if !v.Value? then v
      else var w := TreeValue(a, r); if w.Value? then ApplyTwo(a, t, v.v, w.v) else w
  }

  // ---- running the code of a tree ----

  lemma ExecuteOneValue<V>(a: Arith<V>, st: seq<V>, v: V, t: Rpn<V>)
    requires TakesOne(t)
    ensures Execute(a, st + [v], [t]) == Running(st + [ApplyOne(a, t, v)])
  {
    ExecuteOne(a, st + [v], t);
    ExecuteUnary(a, st, v, t);
  }

  lemma ExecuteTwoValues<V>(a: Arith<V>, st: seq<V>, v: V, w: V, t: Rpn<V>)
    requires t.ROperator? && !TakesOne(t)
    ensures Execute(a, st + [v] + [w], [t]) == Pushed(st, ApplyTwo(a, t, v, w))
  {
    var s := st + [v] + [w];
    ExecuteOne(a, s, t);
    assert s[..|st|] == st && s[|st|] == v && s[|st| + 1] == w;
  }

  /** The code of a tree pushes its value, or stops at its first division by zero. */
  lemma {:induction false} ExecuteCode<V>(a: Arith<V>, st: seq<V>, e: Tree<V>)
    requires Sound(e) && |st| + |Code(e)| <= EVAL_STACK_SIZE
    ensures Execute(a, st, Code(e)) == Pushed(st, TreeValue(a, e))
    decreases e
  {
    match e
    case Leaf(v) => ExecuteOne(a, st, RNumber(v));
    case One(t, x) =>
      ExecuteCode(a, st, x);
      ExecuteConcat(a, st, Code(x), [t]);
      var v := TreeValue(a, x);
      if v.Value? { ExecuteOneValue(a, st, v.v, t); }
    case Two(t, l, r) =>
      ExecuteCode(a, st, l);
      ExecuteConcat(a, st, Code(l) + Code(r), [t]);
      ExecuteConcat(a, st, Code(l), Code(r));
      var v := TreeValue(a, l);
      if v.Value? {
        ExecuteCode(a, st + [v.v], r);
        var w := TreeValue(a, r);
        if w.Value? { ExecuteTwoValues(a, st, v.v, w.v, t); }
      }
  }

  // ---- the tree behind a run ----

  function Codes<V>(es: seq<Tree<V>>): seq<Rpn<V>> {
    if es == [] then [] else Codes(es[..|es| - 1]) + Code(es[|es| - 1])
  }

  /** The stack holds the values of these trees. */
  ghost predicate Holds<V>(a: Arith<V>, st: seq<V>, es: seq<Tree<V>>) {
    |st| == |es| && forall i :: 0 <= i < |st| ==> Sound(es[i]) && TreeValue(a, es[i]) == Value(st[i])
  }

  lemma CodesPush<V>(es: seq<Tree<V>>, e: Tree<V>)
    ensures Codes(es + [e]) == Codes(es) + Code(e)
  {
    assert (es + [e])[..|es|] == es;
  }

  lemma CodesOne<V>(es: seq<Tree<V>>, t: Rpn<V>)
    requires es != []
    ensures var n := |es| - 1; Codes(es[..n] + [One(t, es[n])]) == Codes(es) + [t]
  {
    var n := |es| - 1;
    CodesPush(es[..n], One(t, es[n]));
    ConcatAssociative(Codes(es[..n]), Code(es[n]), [t]);
  }

  lemma CodesTwo<V>(es: seq<Tree<V>>, t: Rpn<V>)
    requires |es| >= 2
    ensures var n := |es|; Codes(es[..n - 2] + [Two(t, es[n - 2], es[n - 1])]) == Codes(es) + [t]
  {
    var n := |es|;
    var rest, l, r := es[..n - 2], es[n - 2], es[n - 1];
    CodesPush(rest, Two(t, l, r));
    assert es[..n - 1][..n - 2] == rest;
    assert Codes(es) == Codes(rest) + Code(l) + Code(r);
    ConcatAssociative(Codes(rest), Code(l), Code(r));
    ConcatAssociative(Codes(rest), Code(l) + Code(r), [t]);
  }

  lemma StepLeaf<V>(a: Arith<V>, st: seq<V>, es: seq<Tree<V>>, t: Rpn<V>)
    requires Holds(a, st, es) && Execute1(a, st, t).Running? && t.RNumber?
    ensures Holds(a, Execute1(a, st, t).stack, es + [Leaf(t.v)])
  {}

  lemma StepOne<V>(a: Arith<V>, st: seq<V>, es: seq<Tree<V>>, t: Rpn<V>)
    requires Holds(a, st, es) && Execute1(a, st, t).Running? && TakesOne(t)
    ensures es != [] && Holds(a, Execute1(a, st, t).stack, es[..|es| - 1] + [One(t, es[|es| - 1])])
  {
    var n := |es| - 1;
    var e := One(t, es[n]);
    assert Execute1(a, st, t).stack == st[..n] + [ApplyOne(a, t, st[n])];
    assert TreeValue(a, e) == Value(ApplyOne(a, t, st[n]));
  }

  lemma StepTwo<V>(a: Arith<V>, st: seq<V>, es: seq<Tree<V>>, t: Rpn<V>)
    requires Holds(a, st, es) && Execute1(a, st, t).Running? && t.ROperator? && !TakesOne(t)
    ensures |es| >= 2
    ensures Holds(a, Execute1(a, st, t).stack, es[..|es| - 2] + [Two(t, es[|es| - 2], es[|es| - 1])])
  {
    var n := |es|;
    var e, r := Two(t, es[n - 2], es[n - 1]), ApplyTwo(a, t, st[n - 2], st[n - 1]);
    assert r.Value? && Execute1(a, st, t).stack == st[..n - 2] + [r.v];
    assert TreeValue(a, e) == r;
  }

  /** The trees after one more token. */
  lemma TreesStep<V>(a: Arith<V>, st: seq<V>, es: seq<Tree<V>>, t: Rpn<V>) returns (es1: seq<Tree<V>>)
    requires Holds(a, st, es) && Execute1(a, st, t).Running?
    ensures Holds(a, Execute1(a, st, t).stack, es1) && Codes(es1) == Codes(es) + [t]
  {
    var n := |es|;
    if t.RNumber? {
      StepLeaf(a, st, es, t);
      es1 := es + [Leaf(t.v)];
      CodesPush(es, Leaf(t.v));
    } else if TakesOne(t) {
      StepOne(a, st, es, t);
      es1 := es[..n - 1] + [One(t, es[n - 1])];
      CodesOne(es, t);
    } else {
      StepTwo(a, st, es, t);
      es1 := es[..n - 2] + [Two(t, es[n - 2], es[n - 1])];
      CodesTwo(es, t);
    }
  }

  lemma {:induction false} TreesRun<V>(a: Arith<V>, st: seq<V>, es: seq<Tree<V>>, code: seq<Rpn<V>>)
    returns (es1: seq<Tree<V>>)
    requires Holds(a, st, es) && Execute(a, st, code).Running?
    ensures Holds(a, Execute(a, st, code).stack, es1) && Codes(es1) == Codes(es) + code
    decreases |code|
  {
    if code == [] {
      es1 := es;
      assert Codes(es) + code == Codes(es);
    } else {
      var next := TreesStep(a, st, es, code[0]);
      es1 := TreesRun(a, Execute1(a, st, code[0]).stack, next, code[1..]);
      ConcatAssociative(Codes(es), [code[0]], code[1..]);
      assert code == [code[0]] + code[1..];
    }
  }

  /** The machine stops early only with an error. */
  lemma {:induction false} HaltIsNoValue<V>(a: Arith<V>, st: seq<V>, code: seq<Rpn<V>>)
    ensures Execute(a, st, code).Halted? ==> !Execute(a, st, code).result.Value?
    decreases |code|
  {
    if code != [] {
      var m := Execute1(a, st, code[0]);
      if m.Running? { HaltIsNoValue(a, m.stack, code[1..]); }
    }
  }

  /** e is the tree of this code, and has value v. */
  ghost predicate Computes<V>(a: Arith<V>, code: seq<Rpn<V>>, e: Tree<V>, v: V) {
    Sound(e) && Code(e) == code && TreeValue(a, e) == Value(v)
  }

  lemma EvaluatedTree<V>(a: Arith<V>, code: seq<Rpn<V>>) returns (e: Tree<V>)
    requires Evaluate(a, code).Value?
    ensures Computes(a, code, e, Evaluate(a, code).v)
  {
    HaltIsNoValue(a, [], code);
    var es := TreesRun(a, [], [], code);
    e := es[0];
    assert es[..0] == [] && Codes(es) == Codes([]) + Code(e);
    assert Codes<V>([]) + Code(e) == Code(e) && Codes<V>([]) + code == code;
  }

  /** A code that fits the stack evaluates to v exactly when it is the code of a tree of value v. */
  lemma EvaluatesIff<V(!new)>(a: Arith<V>, code: seq<Rpn<V>>, v: V)
    requires |code| <= 128
    ensures Evaluate(a, code) == Value(v) <==> exists e :: Computes(a, code, e, v)
  {
    if Evaluate(a, code) == Value(v) {
      var e := EvaluatedTree(a, code);
      assert Computes(a, code, e, v);
    }
    if exists e :: Computes(a, code, e, v) {
      var e :| Computes(a, code, e, v);
      ExecuteCode(a, [], e);
    }
  }

  // ---- a code has one tree ----

  /** Values pushed less values taken. */
  function Weight<V>(code: seq<Rpn<V>>): int {
    if code == [] then 0
    else
      var t := code[|code| - 1];
      Weight(code[..|code| - 1]) + if t.RNumber? then 1 else if TakesOne(t) then 0 else -1
  }

  lemma {:induction false} WeightConcat<V>(s: seq<Rpn<V>>, t: seq<Rpn<V>>)
    ensures Weight(s + t) == Weight(s) + Weight(t)
    decreases |t|
  {
    if t == [] {
      assert s + t == s;
    } else {
      assert (s + t)[..|s + t| - 1] == s + t[..|t| - 1] && (s + t)[|s + t| - 1] == t[|t| - 1];
      WeightConcat(s, t[..|t| - 1]);
    }
  }

  lemma WeightThen<V>(s: seq<Rpn<V>>, t: Rpn<V>)
    ensures Weight(s + [t]) == Weight(s) + if t.RNumber? then 1 else if TakesOne(t) then 0 else -1
  {
    assert (s + [t])[..|s|] == s;
  }

  lemma {:induction false} CodeWeight<V>(e: Tree<V>)
    requires Sound(e)
    ensures Weight(Code(e)) == 1
  {
    match e
    case Leaf(v) => WeightThen([], RNumber(v)); assert [] + [RNumber(v)] == [RNumber(v)];
    case One(t, x) => CodeWeight(x); WeightThen(Code(x), t);
    case Two(t, l, r) =>
      CodeWeight(l);
      CodeWeight(r);
      WeightConcat(Code(l), Code(r));
      WeightThen(Code(l) + Code(r), t);
  }

  /** Every beginning of the code of a tree leaves something on the stack. */
  lemma {:induction false} PrefixWeight<V>(e: Tree<V>, i: nat)
    requires Sound(e) && 0 < i <= |Code(e)|
    ensures Weight(Code(e)[..i]) >= 1
  {
    CodeWeight(e);
    if i == |Code(e)| {
      assert Code(e)[..i] == Code(e);
    } else {
      match e
      case Leaf(_) =>
      case One(t, x) =>
        assert Code(e)[..i] == Code(x)[..i];
        PrefixWeight(x, i);
      case Two(t, l, r) =>
        var n := |Code(l)|;
        if i <= n {
          assert Code(e)[..i] == Code(l)[..i];
          PrefixWeight(l, i);
        } else {
          assert Code(e)[..i] == Code(l) + Code(r)[..i - n];
          CodeWeight(l);
          WeightConcat(Code(l), Code(r)[..i - n]);
          PrefixWeight(r, i - n);
        }
    }
  }

  /** Two codes in a row part in one way only. */
  lemma RightNotLonger<V>(l: Tree<V>, r: Tree<V>, l': Tree<V>, r': Tree<V>)
    requires Sound(l) && Sound(r) && Sound(l') && Sound(r') && Code(l) + Code(r) == Code(l') + Code(r')
    ensures |Code(r')| <= |Code(r)|
  {
    if |Code(r')| > |Code(r)| {
      SuffixOf(Code(l), Code(r), Code(l'), Code(r'));
      TailWeighs(r', Code(r));
      CodeWeight(r);
    }
  }

  /** What the code of a tree ends in, short of the whole, weighs nothing. */
  lemma TailWeighs<V>(e: Tree<V>, t: seq<Rpn<V>>)
    requires Sound(e) && |t| < |Code(e)| && Code(e) == Code(e)[..|Code(e)| - |t|] + t
    ensures Weight(t) <= 0
  {
    var k := |Code(e)| - |t|;
    CodeWeight(e);
    PrefixWeight(e, k);
    WeightSplit(Code(e), k, t);
  }

  lemma WeightSplit<V>(s: seq<Rpn<V>>, k: nat, t: seq<Rpn<V>>)
    requires k <= |s| && s == s[..k] + t
    ensures Weight(s) == Weight(s[..k]) + Weight(t)
  {
    WeightConcat(s[..k], t);
  }

  lemma SuffixOf<T>(a: seq<T>, b: seq<T>, c: seq<T>, d: seq<T>)
    requires a + b == c + d && |b| <= |d|
    ensures d == d[..|d| - |b|] + b
  {
    var s, n := a + b, |a + b|;
    assert b == s[n - |b|..] && d == s[n - |d|..];
    assert d[|d| - |b|..] == s[n - |b|..];
  }

  /** The tree of a code is the only one. */
  lemma {:induction false} TreeUnique<V>(e: Tree<V>, f: Tree<V>)
    requires Sound(e) && Sound(f) && Code(e) == Code(f)
    ensures e == f
  {
    var n := |Code(e)| - 1;
    assert Code(e)[n] == Code(f)[n];
    if e.One? {
      assert Code(e)[..n] == Code(e.x) && Code(f)[..n] == Code(f.x);
      TreeUnique(e.x, f.x);
    } else if e.Two? {
      assert Code(e)[..n] == Code(e.l) + Code(e.r) && Code(f)[..n] == Code(f.l) + Code(f.r);
      RightNotLonger(e.l, e.r, f.l, f.r);
      RightNotLonger(f.l, f.r, e.l, e.r);
      SplitEqual(Code(e.l), Code(e.r), Code(f.l), Code(f.r));
      TreeUnique(e.l, f.l);
      TreeUnique(e.r, f.r);
    }
  }

  // ---- the trees that are printed ----

  /** A printed tree without its parentheses. */
  function TreeOf<V>(e: Expr<V>): Tree<V> {
    match e
    case Num(v) => Leaf(v)
    case Paren(x) => TreeOf(x)
    case Apply(f, x) => One(RCall(f), TreeOf(x))
    case Neg(x) => One(ROperator(Negate), TreeOf(x))
    case Bin(op, l, r) => Two(ROperator(Binary(op)), TreeOf(l), TreeOf(r))
  }

  lemma {:induction false} TreeOfIsPostfix<V>(a: Arith<V>, e: Expr<V>)
    ensures Sound(TreeOf(e)) && Code(TreeOf(e)) == Postfix(e) && TreeValue(a, TreeOf(e)) == Eval(a, e)
  {
    match e
    case Num(_) =>
    case Paren(x) => TreeOfIsPostfix(a, x);
    case Apply(_, x) => TreeOfIsPostfix(a, x);
    case Neg(x) => TreeOfIsPostfix(a, x);
    case Bin(_, l, r) => TreeOfIsPostfix(a, l); TreeOfIsPostfix(a, r);
  }

  // ---- which token lists are accepted ----

  /** With `open` parentheses open, all are closed and none that is not open. */
  predicate Balanced<V>(open: nat, toks: seq<Token<V>>)
    decreases |toks|
  {
    if toks == [] then open == 0
    else if toks[0].LParen? then Balanced(open + 1, toks[1..])
    else if toks[0].RParen? then open > 0 && Balanced(open - 1, toks[1..])
    else Balanced(open, toks[1..])
  }

  /** Numbers, functions and operators. */
  function Entries<V>(toks: seq<Token<V>>): nat
    decreases |toks|
  {
    if toks == [] then 0 else Entries(toks[1..]) + if toks[0].LParen? || toks[0].RParen? then 0 else 1
  }

  function CustomCalls<V>(toks: seq<Token<V>>): nat
    decreases |toks|
  {
    if toks == [] then 0 else CustomCalls(toks[1..]) + if toks[0].Fn? && toks[0].f.Custom? then 1 else 0
  }

  function NumbersOf<V>(toks: seq<Token<V>>): seq<V>
    decreases |toks|
  {
    if toks == [] then [] else (if toks[0].Number? then [toks[0].v] else []) + NumbersOf(toks[1..])
  }

  function NumbersIn<V>(code: seq<Rpn<V>>): seq<V> {
    if code == [] then []
    else
      var t := code[|code| - 1];
      NumbersIn(code[..|code| - 1]) + if t.RNumber? then [t.v] else []
  }

  function Opens(ops: seq<StackOp>): (n: nat)
    ensures n <= |ops|
  {
    if ops == [] then 0 else Opens(ops[..|ops| - 1]) + if ops[|ops| - 1].Open? then 1 else 0
  }

  lemma NumbersThen<V>(code: seq<Rpn<V>>, t: Rpn<V>)
    ensures NumbersIn(code + [t]) == NumbersIn(code) + if t.RNumber? then [t.v] else []
  {
    assert (code + [t])[..|code|] == code;
  }

  lemma OpensThen(ops: seq<StackOp>, top: StackOp)
    ensures Opens(ops + [top]) == Opens(ops) + if top.Open? then 1 else 0
  {
    assert (ops + [top])[..|ops|] == ops;
  }

  /** What the pop loop moves: nothing is lost, no parenthesis is passed, and down to one if it pops everything. */
  lemma {:induction false} PopWhileMoves<V>(ops: seq<StackOp>, out: seq<Rpn<V>>, p: nat)
    requires |out| <= MAX_RPN_TOKENS
    ensures |ops| + |out| <= MAX_RPN_TOKENS ==> PopWhile(ops, out, p).Some?
    ensures var r := PopWhile(ops, out, p);
            r.Some? ==>
              && |r.value.ops| + |r.value.out| == |ops| + |out| && |r.value.out| <= MAX_RPN_TOKENS
              && Opens(r.value.ops) == Opens(ops) && NumbersIn(r.value.out) == NumbersIn(out)
              && (p == 0 ==> r.value.ops == [] || r.value.ops[|r.value.ops| - 1].Open?)
    decreases |ops|
  {
    if ops != [] && !ops[|ops| - 1].Open? && StackPrecedence(ops[|ops| - 1]) >= p && |out| < MAX_RPN_TOKENS {
      NumbersThen(out, ROperator(ops[|ops| - 1]));
      PopWhileMoves(ops[..|ops| - 1], out + [ROperator(ops[|ops| - 1])], p);
    }
  }

  function OpenChange<V>(t: Token<V>): int {
    if t.LParen? then 1 else if t.RParen? then -1 else 0
  }

  /** The next state has one entry more, or one less for the parenthesis that is gone. */
  ghost predicate Moves<V>(s: State<V>, t: Token<V>, n: State<V>) {
    && |n.out| <= MAX_RPN_TOKENS
    && Opens(n.ops) == Opens(s.ops) + OpenChange(t)
    && |n.ops| + |n.out| == |s.ops| + |s.out| + (if t.RParen? then -1 else 1)
    && NumbersIn(n.out) == NumbersIn(s.out) + (if t.Number? then [t.v] else [])
    && n.customs == s.customs + (if t.Fn? && t.f.Custom? then 1 else 0)
    && (s.customs <= MAX_CUSTOM_CALLS ==> n.customs <= MAX_CUSTOM_CALLS)
  }

  lemma PushMoves<V>(s: State<V>, entry: StackOp)
    ensures PushOp(s, entry).Some? ==>
      Opens(PushOp(s, entry).value.ops) == Opens(s.ops) + if entry.Open? then 1 else 0
  {
    OpensThen(s.ops, entry);
  }

  lemma OperatorMoves<V>(s: State<V>, op: BinOp)
    requires |s.out| <= MAX_RPN_TOKENS && Step(s, Op(op)).Some?
    ensures Moves(s, Op(op), Step(s, Op(op)).value)
  {
    var entry := if op.Minus? && s.expectOperand then Negate else Binary(op);
    var r := PopWhile(s.ops, s.out, StackPrecedence(entry));
    PopWhileMoves(s.ops, s.out, StackPrecedence(entry));
    PushMoves(s.(ops := r.value.ops, out := r.value.out), entry);
    assert NumbersIn(s.out) + [] == NumbersIn(s.out);
  }

  /** Closing a parenthesis over what is left above it. */
  lemma ClosedMoves<V>(s: State<V>)
    requires |s.out| <= MAX_RPN_TOKENS && CloseParen(s).Some?
    ensures var n := CloseParen(s).value;
            && |n.out| <= MAX_RPN_TOKENS && Opens(n.ops) == Opens(s.ops) && NumbersIn(n.out) == NumbersIn(s.out)
            && |n.ops| + |n.out| == |s.ops| + |s.out| && n.customs == s.customs
  {
    if s.ops != [] && s.ops[|s.ops| - 1].Call? { NumbersThen(s.out, RCall(s.ops[|s.ops| - 1].f)); }
  }

  /** After the pop loop an open parenthesis is on top. */
  lemma OpenedMoves<V>(s: State<V>)
    requires |s.out| <= MAX_RPN_TOKENS && s.ops != [] && s.ops[|s.ops| - 1].Open?
    ensures var below := s.(ops := s.ops[..|s.ops| - 1]);
            && (CloseParen(below).Some? ==>
                  var n := CloseParen(below).value;
                  && |n.out| <= MAX_RPN_TOKENS && Opens(n.ops) == Opens(s.ops) - 1
                  && |n.ops| + |n.out| == |s.ops| + |s.out| - 1 && NumbersIn(n.out) == NumbersIn(s.out)
                  && n.customs == s.customs)
            && (|s.ops| + |s.out| <= MAX_RPN_TOKENS ==> CloseParen(below).Some?)
  {
    var below := s.(ops := s.ops[..|s.ops| - 1]);
    if CloseParen(below).Some? { ClosedMoves(below); }
  }

  /** The pop loop of a closing parenthesis ends on an open one, if there is any. */
  lemma PopToOpen<V>(ops: seq<StackOp>, out: seq<Rpn<V>>)
    requires |out| <= MAX_RPN_TOKENS
    ensures |ops| + |out| <= MAX_RPN_TOKENS ==> PopWhile(ops, out, 0).Some?
    ensures var r := PopWhile(ops, out, 0);
            r.Some? ==>
              && (Opens(ops) == 0 <==> r.value.ops == [])
              && (r.value.ops != [] ==> r.value.ops[|r.value.ops| - 1].Open?)
              && |r.value.ops| + |r.value.out| == |ops| + |out| && |r.value.out| <= MAX_RPN_TOKENS
              && Opens(r.value.ops) == Opens(ops) && NumbersIn(r.value.out) == NumbersIn(out)
  {
    PopWhileMoves(ops, out, 0);
  }

  lemma MovesBack<V>(s: State<V>, n: State<V>)
    requires |n.out| <= MAX_RPN_TOKENS && Opens(n.ops) == Opens(s.ops) - 1 && n.customs == s.customs
    requires |n.ops| + |n.out| == |s.ops| + |s.out| - 1 && NumbersIn(n.out) == NumbersIn(s.out)
    ensures Moves(s, RParen, n)
  {
    assert NumbersIn(s.out) + [] == NumbersIn(s.out);
  }

  lemma CloseMoves<V>(s: State<V>)
    requires |s.out| <= MAX_RPN_TOKENS && ReadClose(s).Some?
    ensures Opens(s.ops) > 0 && Moves(s, RParen, ReadClose(s).value)
  {
    PopToOpen(s.ops, s.out);
    var r := PopWhile(s.ops, s.out, 0).value;
    OpenedMoves(s.(ops := r.ops, out := r.out));
    MovesBack(s, ReadClose(s).value);
  }

  lemma CloseGoes<V>(s: State<V>)
    requires Opens(s.ops) > 0 && |s.ops| + |s.out| <= MAX_RPN_TOKENS
    ensures ReadClose(s).Some?
  {
    PopToOpen(s.ops, s.out);
    var r := PopWhile(s.ops, s.out, 0).value;
    OpenedMoves(s.(ops := r.ops, out := r.out));
  }

  lemma StepMoves<V>(s: State<V>, t: Token<V>)
    requires |s.out| <= MAX_RPN_TOKENS && Step(s, t).Some?
    ensures Moves(s, t, Step(s, t).value) && (t.RParen? ==> Opens(s.ops) > 0)
  {
    match t
    case Number(v) => NumbersThen(s.out, RNumber(v));
    case Fn(f) => PushMoves(s, Call(f)); assert NumbersIn(s.out) + [] == NumbersIn(s.out);
    case LParen => PushMoves(s, Open); assert NumbersIn(s.out) + [] == NumbersIn(s.out);
    case RParen => CloseMoves(s);
    case Op(op) => OperatorMoves(s, op);
  }

  /** With room left, only a closing parenthesis that closes nothing is refused. */
  lemma StepGoes<V>(s: State<V>, t: Token<V>)
    requires |s.ops| + |s.out| < OP_STACK_SIZE && (t.RParen? ==> Opens(s.ops) > 0)
    requires s.customs + (if t.Fn? && t.f.Custom? then 1 else 0) <= MAX_CUSTOM_CALLS
    ensures Step(s, t).Some?
  {
    match t
    case RParen => CloseGoes(s);
    case Op(op) =>
      PopWhileMoves(s.ops, s.out, StackPrecedence(if op.Minus? && s.expectOperand then Negate else Binary(op)));
    case _ =>
  }

  lemma {:induction false} RunMoves<V>(s: State<V>, toks: seq<Token<V>>)
    requires |s.out| <= MAX_RPN_TOKENS && s.customs <= MAX_CUSTOM_CALLS && Run(s, toks).Some?
    ensures var n := Run(s, toks).value;
            && |n.out| <= MAX_RPN_TOKENS && (Opens(n.ops) == 0 <==> Balanced(Opens(s.ops), toks))
            && |n.ops| + |n.out| - Opens(n.ops) == |s.ops| + |s.out| - Opens(s.ops) + Entries(toks)
            && NumbersIn(n.out) == NumbersIn(s.out) + NumbersOf(toks)
            && n.customs == s.customs + CustomCalls(toks) <= MAX_CUSTOM_CALLS
    decreases |toks|
  {
    if toks == [] {
      assert NumbersIn(s.out) + [] == NumbersIn(s.out);
    } else {
      var t, next := toks[0], Step(s, toks[0]).value;
      StepMoves(s, t);
      RunMoves(next, toks[1..]);
      ConcatAssociative(NumbersIn(s.out), if t.Number? then [t.v] else [], NumbersOf(toks[1..]));
    }
  }

  /** The first of the tokens is read, and leaves room for the others. */
  lemma FirstGoes<V>(s: State<V>, toks: seq<Token<V>>)
    requires toks != [] && |s.ops| + |s.out| + |toks| <= OP_STACK_SIZE
    requires s.customs + CustomCalls(toks) <= MAX_CUSTOM_CALLS && Balanced(Opens(s.ops), toks)
    ensures Step(s, toks[0]).Some?
    ensures var n := Step(s, toks[0]).value;
            && |n.ops| + |n.out| + |toks[1..]| <= OP_STACK_SIZE
            && n.customs + CustomCalls(toks[1..]) <= MAX_CUSTOM_CALLS && Balanced(Opens(n.ops), toks[1..])
  {
    StepGoes(s, toks[0]);
    StepMoves(s, toks[0]);
  }

  lemma {:induction false} RunGoes<V>(s: State<V>, toks: seq<Token<V>>)
    requires |s.ops| + |s.out| + |toks| <= OP_STACK_SIZE && s.customs + CustomCalls(toks) <= MAX_CUSTOM_CALLS
    requires Balanced(Opens(s.ops), toks)
    ensures Run(s, toks).Some? && |Run(s, toks).value.ops| + |Run(s, toks).value.out| <= OP_STACK_SIZE
    decreases |toks|
  {
    if toks != [] {
      FirstGoes(s, toks);
      RunGoes(Step(s, toks[0]).value, toks[1..]);
    }
  }

  lemma {:induction false} FlushMoves<V>(ops: seq<StackOp>, out: seq<Rpn<V>>)
    requires |out| <= MAX_RPN_TOKENS
    ensures Flush(ops, out).Some? <==> Opens(ops) == 0 && |ops| + |out| <= MAX_RPN_TOKENS
    ensures Flush(ops, out).Some? ==>
      |Flush(ops, out).value| == |ops| + |out| && NumbersIn(Flush(ops, out).value) == NumbersIn(out)
    decreases |ops|
  {
    if ops != [] {
      var top := ops[|ops| - 1];
      var t := if top.Call? then RCall(top.f) else ROperator(top);
      if !top.Open? && |out| < MAX_RPN_TOKENS {
        NumbersThen(out, t);
        FlushMoves(ops[..|ops| - 1], out + [t]);
      }
    }
  }

  /** An accepted token list has its parentheses balanced, at most 16 custom calls and 128 entries, and compiles to a
      code of as many entries with its numbers in order. */
  lemma AcceptedShape<V>(toks: seq<Token<V>>)
    requires Compile(toks).Some?
    ensures Balanced(0, toks) && CustomCalls(toks) <= 16
    ensures |Compile(toks).value| == Entries(toks) <= 128
    ensures NumbersIn(Compile(toks).value) == NumbersOf(toks)
  {
    var s := Run(Start(), toks).value;
    RunMoves(Start(), toks);
    FlushMoves(s.ops, s.out);
    assert NumbersIn<V>([]) + NumbersOf(toks) == NumbersOf(toks);
  }

  /** Up to 64 tokens nothing else is asked of it: operands and operators may stand in any order. */
  lemma ShortAcceptedIff<V>(toks: seq<Token<V>>)
    requires |toks| <= 64
    ensures Compile(toks).Some? <==> Balanced(0, toks) && CustomCalls(toks) <= 16
  {
    if Compile(toks).Some? { AcceptedShape(toks); }
    if Balanced(0, toks) && CustomCalls(toks) <= MAX_CUSTOM_CALLS {
      RunGoes(Start(), toks);
      RunMoves(Start(), toks);
      var s := Run(Start(), toks).value;
      FlushMoves(s.ops, s.out);
    }
  }

  // ---- which of them have a value, and whose ----

  /** The leaves from left to right. */
  function LeavesOf<V>(e: Tree<V>): seq<V> {
    match e
    case Leaf(v) => [v]
    case One(_, x) => LeavesOf(x)
    case Two(_, l, r) => LeavesOf(l) + LeavesOf(r)
  }

  lemma {:induction false} NumbersConcat<V>(s: seq<Rpn<V>>, t: seq<Rpn<V>>)
    ensures NumbersIn(s + t) == NumbersIn(s) + NumbersIn(t)
    decreases |t|
  {
    if t == [] {
      assert s + t == s && NumbersIn(s) + [] == NumbersIn(s);
    } else {
      var n := |t| - 1;
      assert (s + t)[..|s + t| - 1] == s + t[..n] && (s + t)[|s + t| - 1] == t[n];
      NumbersConcat(s, t[..n]);
      ConcatAssociative(NumbersIn(s), NumbersIn(t[..n]), if t[n].RNumber? then [t[n].v] else []);
    }
  }

  lemma {:induction false} LeavesAreNumbers<V>(e: Tree<V>)
    requires Sound(e)
    ensures LeavesOf(e) == NumbersIn(Code(e))
  {
    match e
    case Leaf(v) => NumbersThen([], RNumber(v)); assert [] + [RNumber(v)] == [RNumber(v)];
    case One(t, x) => LeavesAreNumbers(x); NumbersThen(Code(x), t);
    case Two(t, l, r) =>
      LeavesAreNumbers(l);
      LeavesAreNumbers(r);
      NumbersConcat(Code(l), Code(r));
      NumbersThen(Code(l) + Code(r), t);
  }

  /** The token list compiles to the code of e, whose leaves are its numbers in order, and e has value v. */
  ghost predicate Yields<V>(a: Arith<V>, toks: seq<Token<V>>, e: Tree<V>, v: V) {
    Sound(e) && Compile(toks) == Some(Code(e)) && LeavesOf(e) == NumbersOf(toks) && TreeValue(a, e) == Value(v)
  }

  /** Compiling and running a token list gives v exactly when the list compiles to the code of a tree of value v over
      its own numbers. */
  lemma HasValueIff<V(!new)>(a: Arith<V>, toks: seq<Token<V>>, v: V)
    ensures Compile(toks).Some? && Evaluate(a, Compile(toks).value) == Value(v) <==> exists e :: Yields(a, toks, e, v)
  {
    if Compile(toks).Some? {
      AcceptedShape(toks);
      var code := Compile(toks).value;
      EvaluatesIff(a, code, v);
      if Evaluate(a, code) == Value(v) {
        var e :| Computes(a, code, e, v);
        LeavesAreNumbers(e);
        assert Yields(a, toks, e, v);
      }
      if exists e :: Yields(a, toks, e, v) {
        var e :| Yields(a, toks, e, v);
        assert Computes(a, code, e, v);
      }
    }
  }

  lemma RunTwoNumbers<V>(x: V, y: V)
    ensures Run(Start(), [Number(x), Number(y)]) == Some(State([], [RNumber(x), RNumber(y)], false, 0))
  {
    var one := State([], [RNumber(x)], false, 0);
    assert Step(Start(), Number(x)) == Some(one) by { assert [] + [RNumber(x)] == [RNumber(x)]; }
    assert one.out + [RNumber(y)] == [RNumber(x), RNumber(y)];
    assert Step(one, Number(y)) == Some(State([], [RNumber(x), RNumber(y)], false, 0));
    RunOne(one, Number(y));
    assert [Number(x), Number(y)][1..] == [Number(y)];
  }

  /** "2 3" is accepted without giving a value. */
  lemma TwoNumbersHaveNone<V>(a: Arith<V>, x: V, y: V)
    ensures Compile([Number(x), Number(y)]) == Some([RNumber(x), RNumber(y)])
    ensures Evaluate(a, [RNumber(x), RNumber(y)]) == ErrorValue
  {
    RunTwoNumbers(x, y);
    ExecuteConcat(a, [], [RNumber(x)], [RNumber(y)]);
    ExecuteOne(a, [], RNumber(x));
    ExecuteOne(a, [x], RNumber(y));
    assert [RNumber(x)] + [RNumber(y)] == [RNumber(x), RNumber(y)] && [] + [x] == [x];
  }

  lemma CompilePostfixSum<V>(x: V, y: V)
    ensures Compile([Number(x), Number(y), Op(Plus)]) == Some([RNumber(x), RNumber(y), ROperator(Binary(Plus))])
  {
    var two: seq<Token<V>> := [Number(x), Number(y)];
    var s, n := State([], [RNumber(x), RNumber(y)], false, 0), State([Binary(Plus)], [RNumber(x), RNumber(y)], true, 0);
    RunTwoNumbers(x, y);
    RunConcat(Start(), two, [Op(Plus)]);
    RunOne(s, Op(Plus));
    assert two + [Op(Plus)] == [Number(x), Number(y), Op(Plus)];
    assert [] + [Binary(Plus)] == [Binary(Plus)];
    assert Step(s, Op(Plus)) == Some(n);
    assert n.ops[..0] == [];
    var code: seq<Rpn<V>> := n.out + [ROperator(Binary(Plus))];
    assert Flush(n.ops, n.out) == Flush([], code) == Some(code);
    assert code == [RNumber(x), RNumber(y), ROperator(Binary(Plus))];
  }

  lemma NumbersOfSum<V>(x: V, y: V)
    ensures NumbersOf([Number(x), Number(y), Op(Plus)]) == [x, y]
  {
    var three, two, one: seq<Token<V>> := [Number(x), Number(y), Op(Plus)], [Number(y), Op(Plus)], [Op(Plus)];
    assert three[1..] == two && two[1..] == one && one[1..] == [];
    assert NumbersOf(one) == [];
    assert NumbersOf(two) == [y];
  }

  /** "2 3 +" is accepted and gives the sum. */
  lemma PostfixSumIsRead<V>(a: Arith<V>, x: V, y: V)
    ensures Yields(a, [Number(x), Number(y), Op(Plus)], Two(ROperator(Binary(Plus)), Leaf(x), Leaf(y)), a.add(x, y))
  {
    CompilePostfixSum(x, y);
    NumbersOfSum(x, y);
    var code: seq<Rpn<V>> := [RNumber(x), RNumber(y), ROperator(Binary(Plus))];
    assert [RNumber(x)] + [RNumber(y)] + [ROperator(Binary(Plus))] == code;
    assert [x] + [y] == [x, y];
  }
}
