/** The Pratt parser: token grammar, the recursive descent that evaluates as it parses, and what it computes. */
module PrattParser {

  import opened Common

  const MAX_PARSE_DEPTH: nat := 256

  // ---- values ----

  /** The operations the parser applies to values; nothing else is known about them. */
  datatype Arith<!V> = Arith(
    zero: V,
    neg: V -> V,
    add: (V, V) -> V, sub: (V, V) -> V, mul: (V, V) -> V,
    div: (V, V) -> V, mod: (V, V) -> V, pow: (V, V) -> V, shift10: (V, V) -> V,
    root: V -> V, fact: V -> V,
    isZero: V -> bool,      // right == 0.0
    isNegative: V -> bool,  // val < 0.0
    factDefined: V -> bool) // an integer in [0, 170]

  datatype Failure = TooDeep | DivisionByZero | BadOperand | Syntax

  datatype Result<V> = Ok(value: V) | Failed(why: Failure)

  // ---- tokens and the rules table ----

  datatype BinOp = Plus | Minus | Star | Slash | Percent | Caret | Exp10

  /** Identifiers are not part of this model. */
  datatype Token<V> = Number(value: V) | Op(op: BinOp) | LParen | RParen | Comma | Equals | Bang | Radical | Error | End

  function OpPrecedence(op: BinOp): nat {
    match op
    case Plus => 1
    case Minus => 1
    case Star => 2
    case Slash => 2
    case Percent => 2
    case Caret => 3
    case Exp10 => 3
  }

  /** The precedence column of the rules table. */
  function Precedence<V>(t: Token<V>): nat {
    match t
    case Op(op) => OpPrecedence(op)
    case LParen => 2
    case Bang => 3
    case Radical => 3
    case _ => 0
  }

  predicate HasInfix<V>(t: Token<V>) {
    t.Op? || t.LParen? || t.Bang?
  }

  predicate HasPrefix<V>(t: Token<V>) {
    t.Number? || t == Op(Minus) || t.LParen? || t.Radical?
  }

  function Apply<V>(a: Arith<V>, op: BinOp, left: V, right: V): Result<V> {
    match op
    case Plus => Ok(a.add(left, right))
    case Minus => Ok(a.sub(left, right))
    case Star => Ok(a.mul(left, right))
    case Slash => if a.isZero(right) then Failed(DivisionByZero) else Ok(a.div(left, right))
    case Percent => if a.isZero(right) then Failed(DivisionByZero) else Ok(a.mod(left, right))
    case Caret => Ok(a.pow(left, right))
    case Exp10 => Ok(a.shift10(left, right))
  }

  function ApplyRoot<V>(a: Arith<V>, v: V): Result<V> {
    if a.isNegative(v) then Failed(BadOperand) else Ok(a.root(v))
  }

  function ApplyFact<V>(a: Arith<V>, v: V): Result<V> {
    if a.factDefined(v) then Ok(a.fact(v)) else Failed(BadOperand)
  }

  // ---- the parser as a function of the token list ----

  function Peek<V>(toks: seq<Token<V>>, pos: nat): Token<V> {
    if pos < |toks| then toks[pos] else End
  }

  /** Where a parse stopped, and with what. */
  datatype Outcome<V> = Outcome(pos: nat, result: Result<V>)

  ghost predicate InBounds<V>(toks: seq<Token<V>>, pos: nat, r: Outcome<V>) {
    pos <= r.pos <= |toks| && (r.result.Ok? ==> pos < r.pos)
  }

  /** parse_precedence; depth is the value of the counter on entry. */
  function Parse<V>(a: Arith<V>, toks: seq<Token<V>>, pos: nat, depth: nat, prec: nat): (r: Outcome<V>)
    requires pos <= |toks|
    ensures InBounds(toks, pos, r)
    decreases |toks| - pos, 1
  {
    if depth + 1 > MAX_PARSE_DEPTH then Outcome(pos, Failed(TooDeep))
    else if !HasPrefix(Peek(toks, pos)) then Outcome(pos, Failed(Syntax))
    else
      var r := Prefix(a, toks, pos, depth + 1);
      if r.result.Failed? then r else Loop(a, toks, r.pos, depth, prec, r.result.value)
  }

  /** The prefix handlers: parse_number, parse_unary, parse_grouping, parse_unary_sqrt. */
  function Prefix<V>(a: Arith<V>, toks: seq<Token<V>>, pos: nat, depth: nat): (r: Outcome<V>)
    requires pos < |toks|
    ensures InBounds(toks, pos, r)
    decreases |toks| - pos, 0
  {
    match toks[pos]
    case Number(v) => Outcome(pos + 1, Ok(v))
    case LParen =>
      var r := Parse(a, toks, pos + 1, depth, 0);
      if r.result.Failed? then Outcome(Next(toks, r.pos), r.result)
      else if Peek(toks, r.pos).RParen? then Outcome(r.pos + 1, r.result)
      else Outcome(Next(toks, r.pos), Failed(Syntax))
    case Radical =>
      var r := Parse(a, toks, pos + 1, depth, 3);
      if r.result.Failed? then r else Outcome(r.pos, ApplyRoot(a, r.result.value))
    case _ =>
      var r := Parse(a, toks, pos + 1, depth, 3);
      if r.result.Failed? then r else Outcome(r.pos, Ok(a.neg(r.result.value)))
  }

  function Next<V>(toks: seq<Token<V>>, pos: nat): nat {
    if pos < |toks| then pos + 1 else pos
  }

  /** Whether the infix loop at this precedence goes on with token t. */
  predicate Binds<V>(t: Token<V>, prec: nat) {
    prec <= Precedence(t) && HasInfix(t)
  }

  /** The while loop of parse_precedence. */
  function Loop<V>(a: Arith<V>, toks: seq<Token<V>>, pos: nat, depth: nat, prec: nat, left: V): (r: Outcome<V>)
    requires pos <= |toks|
    ensures pos <= r.pos <= |toks|
    decreases |toks| - pos, 3
  {
    if !Binds(Peek(toks, pos), prec) then Outcome(pos, Ok(left))
    else
      var r := Infix(a, toks, pos, depth, left);
      if r.result.Failed? then r else Loop(a, toks, r.pos, depth, prec, r.result.value)
  }

  /** The infix handlers: parse_binary, parse_implicit_mul, parse_factorial. */
  function Infix<V>(a: Arith<V>, toks: seq<Token<V>>, pos: nat, depth: nat, left: V): (r: Outcome<V>)
    requires pos < |toks| && HasInfix(toks[pos])
    ensures InBounds(toks, pos, r)
    decreases |toks| - pos, 2
  {
    match toks[pos]
    case Bang => Outcome(pos + 1, ApplyFact(a, left))
    case LParen =>
      var r := Parse(a, toks, pos, depth, 3);
      if r.result.Failed? then r else Outcome(r.pos, Ok(a.mul(left, r.result.value)))
    case Op(op) =>
      var r := Parse(a, toks, pos + 1, depth, OpPrecedence(op) + 1);
      if r.result.Failed? then r else Outcome(r.pos, Apply(a, op, left, r.result.value))
  }

  /** parse_expression */
  function ParseExpression<V>(a: Arith<V>, toks: seq<Token<V>>): Result<V> {
    var r := Parse(a, toks, 0, 0, 0);
    if r.result.Failed? then r.result
    else if Peek(toks, r.pos).End? then r.result
    else Failed(Syntax)
  }

  // ---- expression trees and their printed form ----

  datatype Expr<V> =
    | Num(v: V)
    | Neg(e: Expr<V>)
    | Root(e: Expr<V>)
    | Paren(e: Expr<V>)
    | Fact(e: Expr<V>)
    | Bin(op: BinOp, l: Expr<V>, r: Expr<V>)
    | Juxt(l: Expr<V>, r: Expr<V>)  // implicit multiplication, as in 2(3+4)

  function Render<V>(e: Expr<V>): (s: seq<Token<V>>)
    ensures |s| > 0
  {
    match e
    case Num(v) => [Number(v)]
    case Neg(x) => [Op(Minus)] + Render(x)
    case Root(x) => [Radical] + Render(x)
    case Paren(x) => [LParen] + Render(x) + [RParen]
    case Fact(x) => Render(x) + [Bang]
    case Bin(op, l, r) => Render(l) + [Op(op)] + Render(r)
    case Juxt(l, r) => Render(l) + Render(r)
  }

  /** How many prefix levels are open at once while e is parsed. */
  function Nesting<V>(e: Expr<V>): (n: nat)
    ensures n >= 1
  {
    match e
    case Num(_) => 1
    case Neg(x) => 1 + Nesting(x)
    case Root(x) => 1 + Nesting(x)
    case Paren(x) => 1 + Nesting(x)
    case Fact(x) => Nesting(x)
    case Bin(_, l, r) => Max(Nesting(l), Nesting(r))
    case Juxt(l, r) => Max(Nesting(l), Nesting(r))
  }

  /** The value of a tree, by structure alone. */
  function Eval<V>(a: Arith<V>, e: Expr<V>): Result<V> {
    match e
    case Num(v) => Ok(v)
    case Neg(x) => var v := Eval(a, x); if v.Failed? then v else Ok(a.neg(v.value))
    case Root(x) => var v := Eval(a, x); if v.Failed? then v else ApplyRoot(a, v.value)
    case Paren(x) => Eval(a, x)
    case Fact(x) => var v := Eval(a, x); if v.Failed? then v else ApplyFact(a, v.value)
    case Bin(op, l, r) =>
      var v := Eval(a, l);
      if v.Failed? then v
      else var w := Eval(a, r); if w.Failed? then w else Apply(a, op, v.value, w.value)
    case Juxt(l, r) =>
      var v := Eval(a, l);
      if v.Failed? then v
      else var w := Eval(a, r); if w.Failed? then w else Ok(a.mul(v.value, w.value))
  }

  /** The value of a tree when only `room` prefix levels are left: evaluation order decides which failure comes
      first. */
  function Meaning<V>(a: Arith<V>, e: Expr<V>, room: nat): Result<V> {
    match e
    case Num(v) => if room == 0 then Failed(TooDeep) else Ok(v)
    case Neg(x) =>
      if room == 0 then Failed(TooDeep)
      else var v := Meaning(a, x, room - 1); if v.Failed? then v else Ok(a.neg(v.value))
    case Root(x) =>
      if room == 0 then Failed(TooDeep)
      else var v := Meaning(a, x, room - 1); if v.Failed? then v else ApplyRoot(a, v.value)
    case Paren(x) =>
      if room == 0 then Failed(TooDeep) else Meaning(a, x, room - 1)
    case Fact(x) => var v := Meaning(a, x, room); if v.Failed? then v else ApplyFact(a, v.value)
    case Bin(op, l, r) =>
      var v := Meaning(a, l, room);
      if v.Failed? then v
      else var w := Meaning(a, r, room); if w.Failed? then w else Apply(a, op, v.value, w.value)
    case Juxt(l, r) =>
      var v := Meaning(a, l, room);
      if v.Failed? then v
      else var w := Meaning(a, r, room); if w.Failed? then w else Ok(a.mul(v.value, w.value))
  }

  /** With enough room the meaning is the value; without it, a failure. */
  lemma {:induction false} MeaningIsValue<V>(a: Arith<V>, e: Expr<V>, room: nat)
    ensures Nesting(e) <= room ==> Meaning(a, e, room) == Eval(a, e)
    ensures Nesting(e) > room ==> Meaning(a, e, room).Failed?
  {
    match e
    case Num(_) =>
    case Neg(x) => if room > 0 { MeaningIsValue(a, x, room - 1); }
    case Root(x) => if room > 0 { MeaningIsValue(a, x, room - 1); }
    case Paren(x) => if room > 0 { MeaningIsValue(a, x, room - 1); }
    case Fact(x) => MeaningIsValue(a, x, room);
    case Bin(_, l, r) => MeaningIsValue(a, l, room); MeaningIsValue(a, r, room);
    case Juxt(l, r) => MeaningIsValue(a, l, room); MeaningIsValue(a, r, room);
  }

  // ---- which trees print without ambiguity ----

  /** No operand at the right edge of e would go on and take in token t. */
  predicate StopsAt<V>(e: Expr<V>, t: Token<V>) {
    match e
    case Num(_) => true
    case Paren(_) => true
    case Fact(_) => true
    case Neg(x) => !Binds(t, 3) && StopsAt(x, t)
    case Root(x) => !Binds(t, 3) && StopsAt(x, t)
    case Bin(op, _, r) => !Binds(t, OpPrecedence(op) + 1) && StopsAt(r, t)
    case Juxt(_, r) => !Binds(t, 3) && StopsAt(r, t)
  }

  /** Every operator on the left spine of e binds at least as tightly as prec. */
  predicate FitsIn<V>(e: Expr<V>, prec: nat) {
    match e
    case Num(_) => true
    case Paren(_) => true
    case Neg(_) => true
    case Root(_) => true
    case Fact(x) => prec <= 3 && FitsIn(x, prec)
    case Bin(op, l, _) => prec <= OpPrecedence(op) && FitsIn(l, prec)
    case Juxt(l, _) => prec <= 2 && FitsIn(l, prec)
  }

  predicate StartsWithParen<V>(e: Expr<V>) {
    match e
    case Num(_) => false
    case Paren(_) => true
    case Neg(_) => false
    case Root(_) => false
    case Fact(x) => StartsWithParen(x)
    case Bin(_, l, _) => StartsWithParen(l)
    case Juxt(l, _) => StartsWithParen(l)
  }

  /** e has all the parentheses the precedence table and left associativity call for. */
  predicate Readable<V>(e: Expr<V>) {
    match e
    case Num(_) => true
    case Neg(x) => Readable(x) && FitsIn(x, 3)
    case Root(x) => Readable(x) && FitsIn(x, 3)
    case Paren(x) => Readable(x)
    case Fact(x) => Readable(x) && StopsAt(x, Bang)
    case Bin(op, l, r) =>
      Readable(l) && Readable(r) && StopsAt(l, Op(op)) && FitsIn(r, OpPrecedence(op) + 1)
    case Juxt(l, r) =>
      Readable(l) && Readable(r) && StopsAt(l, LParen) && FitsIn(r, 3) && StartsWithParen(r)
  }

  lemma {:induction false} EveryoneFitsInZero<V>(e: Expr<V>)
    ensures FitsIn(e, 0)
  {
    match e
    case Fact(x) => EveryoneFitsInZero(x);
    case Bin(_, l, _) => EveryoneFitsInZero(l);
    case Juxt(l, _) => EveryoneFitsInZero(l);
    case _ =>
  }

  lemma {:induction false} EveryoneStops<V>(e: Expr<V>, t: Token<V>)
    requires !HasInfix(t)
    ensures StopsAt(e, t)
  {
    match e
    case Neg(x) => EveryoneStops(x, t);
    case Root(x) => EveryoneStops(x, t);
    case Bin(_, _, r) => EveryoneStops(r, t);
    case Juxt(_, r) => EveryoneStops(r, t);
    case _ =>
  }

  // ---- parsing what was printed ----

  /** s occurs in toks at pos. */
  ghost predicate At<V>(toks: seq<Token<V>>, pos: nat, s: seq<Token<V>>) {
    pos + |s| <= |toks| && toks[pos..pos + |s|] == s
  }

  lemma AtConcat<V>(toks: seq<Token<V>>, pos: nat, s: seq<Token<V>>, t: seq<Token<V>>)
    requires At(toks, pos, s + t)
    ensures At(toks, pos, s) && At(toks, pos + |s|, t)
  {
    var u := toks[pos..pos + |s + t|];
    assert u[..|s|] == s && u[|s|..] == t;
    assert toks[pos..pos + |s|] == u[..|s|] && toks[pos + |s|..pos + |s| + |t|] == u[|s|..];
  }

  lemma AtToken<V>(toks: seq<Token<V>>, pos: nat, t: Token<V>)
    requires At(toks, pos, [t])
    ensures pos < |toks| && toks[pos] == t
  {
    assert toks[pos..pos + 1][0] == t;
  }

  lemma {:induction false} RenderStartsWithParen<V>(e: Expr<V>)
    requires StartsWithParen(e)
    ensures Render(e)[0] == LParen
  {
    match e
    case Paren(_) =>
    case Fact(x) => RenderStartsWithParen(x);
    case Bin(_, l, _) => RenderStartsWithParen(l);
    case Juxt(l, _) => RenderStartsWithParen(l);
  }

  lemma {:induction false} RenderHasPrefix<V>(e: Expr<V>)
    ensures HasPrefix(Render(e)[0])
  {
    match e
    case Fact(x) => RenderHasPrefix(x);
    case Bin(_, l, _) => RenderHasPrefix(l);
    case Juxt(l, _) => RenderHasPrefix(l);
    case _ =>
  }

  /** The parse of e at this point is the loop after e with e's meaning, or e's failure. */
  ghost predicate ParsesTo<V>(a: Arith<V>, toks: seq<Token<V>>, pos: nat, depth: nat, prec: nat, e: Expr<V>)
    requires pos + |Render(e)| <= |toks| && depth <= MAX_PARSE_DEPTH
  {
    var m := Meaning(a, e, MAX_PARSE_DEPTH - depth);
    var r := Parse(a, toks, pos, depth, prec);
    if m.Ok? then r == Loop(a, toks, pos + |Render(e)|, depth, prec, m.value)
    else r.result == m
  }

  /** What ParseRendered assumes of a tree printed at pos. */
  ghost predicate Placed<V>(toks: seq<Token<V>>, pos: nat, depth: nat, prec: nat, e: Expr<V>) {
    && At(toks, pos, Render(e)) && depth <= MAX_PARSE_DEPTH
    && Readable(e) && FitsIn(e, prec) && StopsAt(e, Peek(toks, pos + |Render(e)|))
  }

  // Where the parts of a printed tree stand.

  lemma PlacedUnary<V>(toks: seq<Token<V>>, pos: nat, depth: nat, prec: nat, e: Expr<V>)
    requires Placed(toks, pos, depth, prec, e) && (e.Neg? || e.Root?)
    ensures pos < |toks| && toks[pos] == if e.Neg? then Op(Minus) else Radical
    ensures depth < MAX_PARSE_DEPTH ==> Placed(toks, pos + 1, depth + 1, 3, e.e)
    ensures pos + 1 + |Render(e.e)| <= |toks| && !Binds(Peek(toks, pos + 1 + |Render(e.e)|), 3)
  {
    var t := if e.Neg? then Op(Minus) else Radical;
    AtConcat(toks, pos, [t], Render(e.e));
    AtToken(toks, pos, t);
  }

  lemma PlacedParen<V>(toks: seq<Token<V>>, pos: nat, depth: nat, prec: nat, e: Expr<V>)
    requires Placed(toks, pos, depth, prec, e) && e.Paren?
    ensures pos < |toks| && toks[pos] == LParen
    ensures depth < MAX_PARSE_DEPTH ==> Placed(toks, pos + 1, depth + 1, 0, e.e)
    ensures pos + 1 + |Render(e.e)| < |toks| && toks[pos + 1 + |Render(e.e)|] == RParen
  {
    AtConcat(toks, pos, [LParen] + Render(e.e), [RParen]);
    AtConcat(toks, pos, [LParen], Render(e.e));
    AtToken(toks, pos, LParen);
    AtToken(toks, pos + 1 + |Render(e.e)|, RParen);
    EveryoneFitsInZero(e.e);
    EveryoneStops(e.e, Token<V>.RParen);
  }

  lemma PlacedFact<V>(toks: seq<Token<V>>, pos: nat, depth: nat, prec: nat, e: Expr<V>)
    requires Placed(toks, pos, depth, prec, e) && e.Fact?
    ensures Placed(toks, pos, depth, prec, e.e) && prec <= 3
    ensures pos + |Render(e.e)| < |toks| && toks[pos + |Render(e.e)|] == Bang
  {
    AtConcat(toks, pos, Render(e.e), [Bang]);
    AtToken(toks, pos + |Render(e.e)|, Bang);
  }

  lemma PlacedBin<V>(toks: seq<Token<V>>, pos: nat, depth: nat, prec: nat, e: Expr<V>, mid: nat, q: nat)
    requires Placed(toks, pos, depth, prec, e) && e.Bin? && mid == pos + |Render(e.l)| && q == OpPrecedence(e.op) + 1
    ensures Placed(toks, pos, depth, prec, e.l) && prec < q
    ensures mid < |toks| && toks[mid] == Op(e.op)
    ensures Placed(toks, mid + 1, depth, q, e.r) && !Binds(Peek(toks, mid + 1 + |Render(e.r)|), q)
  {
    AtConcat(toks, pos, Render(e.l) + [Op(e.op)], Render(e.r));
    AtConcat(toks, pos, Render(e.l), [Op(e.op)]);
    AtToken(toks, mid, Op(e.op));
  }

  lemma PlacedJuxt<V>(toks: seq<Token<V>>, pos: nat, depth: nat, prec: nat, e: Expr<V>)
    requires Placed(toks, pos, depth, prec, e) && e.Juxt?
    ensures var mid := pos + |Render(e.l)|;
            && Placed(toks, pos, depth, prec, e.l) && prec <= 2
            && mid < |toks| && toks[mid] == LParen
            && Placed(toks, mid, depth, 3, e.r) && !Binds(Peek(toks, mid + |Render(e.r)|), 3)
  {
    var mid := pos + |Render(e.l)|;
    AtConcat(toks, pos, Render(e.l), Render(e.r));
    RenderStartsWithParen(e.r);
    assert toks[mid] == toks[mid..mid + |Render(e.r)|][0];
  }

  // What the parts' parses make of the whole.

  /** The outcome p of a parse that has been traced to the end of e. */
  lemma ParsesAs<V>(a: Arith<V>, toks: seq<Token<V>>, pos: nat, depth: nat, prec: nat, e: Expr<V>, end: nat,
                    m: Result<V>, p: Outcome<V>)
    requires end == pos + |Render(e)| <= |toks| && depth <= MAX_PARSE_DEPTH
    requires m == Meaning(a, e, MAX_PARSE_DEPTH - depth) && p == Parse(a, toks, pos, depth, prec)
    requires if m.Ok? then p == Loop(a, toks, end, depth, prec, m.value) else p.result == m
    ensures ParsesTo(a, toks, pos, depth, prec, e)
  {}

  /** The loop follows a prefix that was read. */
  lemma AfterPrefix<V>(a: Arith<V>, toks: seq<Token<V>>, pos: nat, depth: nat, prec: nat, x: Outcome<V>)
    requires depth < MAX_PARSE_DEPTH && pos < |toks| && HasPrefix(toks[pos]) && x == Prefix(a, toks, pos, depth + 1)
    ensures Parse(a, toks, pos, depth, prec) ==
      if x.result.Failed? then x else Loop(a, toks, x.pos, depth, prec, x.result.value)
  {}

  lemma LoopStops<V>(a: Arith<V>, toks: seq<Token<V>>, pos: nat, depth: nat, prec: nat, left: V)
    requires pos <= |toks| && !Binds(Peek(toks, pos), prec)
    ensures Loop(a, toks, pos, depth, prec, left) == Outcome(pos, Ok(left))
  {}

  /** The meaning of a sign, a root or parentheses, from the meaning v of what they stand around. */
  lemma MeaningOfUnary<V>(a: Arith<V>, e: Expr<V>, room: nat, v: Result<V>)
    requires (e.Neg? || e.Root? || e.Paren?) && room > 0 && v == Meaning(a, e.e, room - 1)
    ensures Meaning(a, e, room) == if v.Failed? then v else UnaryResult(a, e, v.value)
  {}

  function UnaryResult<V>(a: Arith<V>, e: Expr<V>, x: V): Result<V>
    requires e.Neg? || e.Root? || e.Paren?
  {
    if e.Neg? then Ok(a.neg(x)) else if e.Root? then ApplyRoot(a, x) else Ok(x)
  }

  /** A prefix x that reads an operand of meaning v ending at `end`, and the loop after it. */
  lemma PrefixCombines<V>(a: Arith<V>, toks: seq<Token<V>>, end: nat, depth: nat, prec: nat, v: Result<V>,
                          out: Result<V>, x: Outcome<V>, p: Outcome<V>)
    requires end <= |toks| && x.pos <= |toks| && (v.Failed? ==> x.result == v) && (v.Ok? ==> x == Outcome(end, out))
    requires p == if x.result.Failed? then x else Loop(a, toks, x.pos, depth, prec, x.result.value)
    ensures var m := if v.Failed? then v else out;
            if m.Ok? then p == Loop(a, toks, end, depth, prec, m.value) else p.result == m
  {}

  /** A left part of meaning m, an infix round r that reads a right operand of meaning w, and the loop after it. */
  lemma InfixCombines<V>(a: Arith<V>, toks: seq<Token<V>>, end: nat, depth: nat, prec: nat, m: Result<V>, w: Result<V>,
                         out: Result<V>, r: Outcome<V>, p: Outcome<V>)
    requires end <= |toks| && r.pos <= |toks|
    requires if m.Failed? then p.result == m
             else if r.result.Failed? then p.result == r.result
             else p == Loop(a, toks, r.pos, depth, prec, r.result.value)
    requires m.Ok? ==> if w.Failed? then r.result == w else r == Outcome(end, out)
    ensures var e := if m.Failed? then m else if w.Failed? then w else out;
            if e.Ok? then p == Loop(a, toks, end, depth, prec, e.value) else p.result == e
  {}

  lemma JoinUnary<V>(a: Arith<V>, toks: seq<Token<V>>, pos: nat, depth: nat, prec: nat, e: Expr<V>)
    requires (e.Neg? || e.Root?) && pos + 1 + |Render(e.e)| <= |toks| && depth <= MAX_PARSE_DEPTH
    requires toks[pos] == if e.Neg? then Op(Minus) else Radical
    requires depth < MAX_PARSE_DEPTH ==> ParsesTo(a, toks, pos + 1, depth + 1, 3, e.e)
    requires !Binds(Peek(toks, pos + 1 + |Render(e.e)|), 3)
    ensures ParsesTo(a, toks, pos, depth, prec, e)
  {
    if depth < MAX_PARSE_DEPTH {
      var end, room := pos + 1 + |Render(e.e)|, MAX_PARSE_DEPTH - depth;
      var v, r := Meaning(a, e.e, room - 1), Parse(a, toks, pos + 1, depth + 1, 3);
      if v.Ok? { LoopStops(a, toks, end, depth + 1, 3, v.value); }
      PrefixUnary(a, toks, pos, depth + 1, r);
      var x, p := Prefix(a, toks, pos, depth + 1), Parse(a, toks, pos, depth, prec);
      AfterPrefix(a, toks, pos, depth, prec, x);
      MeaningOfUnary(a, e, room, v);
      PrefixCombines(a, toks, end, depth, prec, v, if v.Ok? then UnaryResult(a, e, v.value) else v, x, p);
      ParsesAs(a, toks, pos, depth, prec, e, end, Meaning(a, e, room), p);
    }
  }

  lemma PrefixUnary<V>(a: Arith<V>, toks: seq<Token<V>>, pos: nat, depth: nat, r: Outcome<V>)
    requires pos < |toks| && (toks[pos] == Op(Minus) || toks[pos].Radical?) && r == Parse(a, toks, pos + 1, depth, 3)
    ensures Prefix(a, toks, pos, depth) ==
      if r.result.Failed? then r
      else Outcome(r.pos, if toks[pos].Radical? then ApplyRoot(a, r.result.value) else Ok(a.neg(r.result.value)))
  {}

  lemma PrefixParen<V>(a: Arith<V>, toks: seq<Token<V>>, pos: nat, depth: nat, r: Outcome<V>)
    requires pos < |toks| && toks[pos].LParen? && r == Parse(a, toks, pos + 1, depth, 0)
    ensures r.result.Failed? ==> Prefix(a, toks, pos, depth).result == r.result
    ensures r.result.Ok? && Peek(toks, r.pos).RParen? ==> Prefix(a, toks, pos, depth) == Outcome(r.pos + 1, r.result)
  {}

  lemma JoinParen<V>(a: Arith<V>, toks: seq<Token<V>>, pos: nat, depth: nat, prec: nat, e: Expr<V>)
    requires e.Paren? && pos + 1 + |Render(e.e)| < |toks| && depth <= MAX_PARSE_DEPTH
    requires toks[pos] == LParen && toks[pos + 1 + |Render(e.e)|] == RParen
    requires depth < MAX_PARSE_DEPTH ==> ParsesTo(a, toks, pos + 1, depth + 1, 0, e.e)
    ensures ParsesTo(a, toks, pos, depth, prec, e)
  {
    if depth < MAX_PARSE_DEPTH {
      var end, room := pos + 1 + |Render(e.e)|, MAX_PARSE_DEPTH - depth;
      var v, r := Meaning(a, e.e, room - 1), Parse(a, toks, pos + 1, depth + 1, 0);
      if v.Ok? { LoopStops(a, toks, end, depth + 1, 0, v.value); }
      PrefixParen(a, toks, pos, depth + 1, r);
      var x, p := Prefix(a, toks, pos, depth + 1), Parse(a, toks, pos, depth, prec);
      AfterPrefix(a, toks, pos, depth, prec, x);
      MeaningOfUnary(a, e, room, v);
      PrefixCombines(a, toks, end + 1, depth, prec, v, v, x, p);
      ParsesAs(a, toks, pos, depth, prec, e, end + 1, Meaning(a, e, room), p);
    }
  }

  /** One round of the loop. */
  lemma LoopStep<V>(a: Arith<V>, toks: seq<Token<V>>, pos: nat, depth: nat, prec: nat, left: V, r: Outcome<V>)
    requires pos < |toks| && Binds(toks[pos], prec) && r == Infix(a, toks, pos, depth, left)
    ensures r.result.Failed? ==> Loop(a, toks, pos, depth, prec, left) == r
    ensures r.result.Ok? ==> Loop(a, toks, pos, depth, prec, left) == Loop(a, toks, r.pos, depth, prec, r.result.value)
  {}

  lemma BangInfix<V>(a: Arith<V>, toks: seq<Token<V>>, pos: nat, depth: nat, left: V)
    requires pos < |toks| && toks[pos] == Bang
    ensures Infix(a, toks, pos, depth, left) == Outcome(pos + 1, ApplyFact(a, left))
  {}

  /** The right operand of a binary operator stops where its text ends. */
  lemma RightOperand<V>(a: Arith<V>, toks: seq<Token<V>>, pos: nat, depth: nat, op: BinOp, left: V, r: Expr<V>)
    requires pos + 1 + |Render(r)| <= |toks| && depth <= MAX_PARSE_DEPTH && toks[pos] == Op(op)
    requires ParsesTo(a, toks, pos + 1, depth, OpPrecedence(op) + 1, r)
    requires !Binds(Peek(toks, pos + 1 + |Render(r)|), OpPrecedence(op) + 1)
    ensures var m, out := Meaning(a, r, MAX_PARSE_DEPTH - depth), Infix(a, toks, pos, depth, left);
            if m.Failed? then out.result == m
            else out == Outcome(pos + 1 + |Render(r)|, Apply(a, op, left, m.value))
  {}

  lemma RightFactor<V>(a: Arith<V>, toks: seq<Token<V>>, pos: nat, depth: nat, left: V, r: Expr<V>)
    requires pos + |Render(r)| <= |toks| && depth <= MAX_PARSE_DEPTH && pos < |toks| && toks[pos] == LParen
    requires ParsesTo(a, toks, pos, depth, 3, r) && !Binds(Peek(toks, pos + |Render(r)|), 3)
    ensures var m, out := Meaning(a, r, MAX_PARSE_DEPTH - depth), Infix(a, toks, pos, depth, left);
            if m.Failed? then out.result == m
            else out == Outcome(pos + |Render(r)|, Ok(a.mul(left, m.value)))
  {}

  lemma MeaningOfFact<V>(a: Arith<V>, e: Expr<V>, room: nat, v: Result<V>, m: Result<V>)
    requires e.Fact? && v == Meaning(a, e.e, room) && m == if v.Failed? then v else ApplyFact(a, v.value)
    ensures m == Meaning(a, e, room)
  {}

  /** A left part of meaning v, a postfix round r that makes it m, and the loop after it. */
  lemma PostfixCombines<V>(a: Arith<V>, toks: seq<Token<V>>, end: nat, depth: nat, prec: nat, v: Result<V>,
                           m: Result<V>, r: Outcome<V>, p: Outcome<V>)
    requires end <= |toks| && r.pos <= |toks|
    requires if v.Failed? then p.result == v && m == v
             else if r.result.Failed? then p.result == r.result
             else p == Loop(a, toks, r.pos, depth, prec, r.result.value)
    requires v.Ok? ==> r == Outcome(end, m)
    ensures if m.Ok? then p == Loop(a, toks, end, depth, prec, m.value) else p.result == m
  {}

  /** The left part parses to a loop at mid, whose first round is r. */
  lemma JoinLeft<V>(a: Arith<V>, toks: seq<Token<V>>, pos: nat, depth: nat, prec: nat, l: Expr<V>, r: Outcome<V>)
    requires pos + |Render(l)| < |toks| && depth <= MAX_PARSE_DEPTH
    requires ParsesTo(a, toks, pos, depth, prec, l) && Binds(toks[pos + |Render(l)|], prec)
    requires var m := Meaning(a, l, MAX_PARSE_DEPTH - depth);
             m.Ok? ==> r == Infix(a, toks, pos + |Render(l)|, depth, m.value)
    ensures var m, p := Meaning(a, l, MAX_PARSE_DEPTH - depth), Parse(a, toks, pos, depth, prec);
            if m.Failed? then p.result == m
            else if r.result.Failed? then p.result == r.result
            else p == Loop(a, toks, r.pos, depth, prec, r.result.value)
  {
    var m := Meaning(a, l, MAX_PARSE_DEPTH - depth);
    if m.Ok? { LoopStep(a, toks, pos + |Render(l)|, depth, prec, m.value, r); }
  }

  lemma JoinFact<V>(a: Arith<V>, toks: seq<Token<V>>, pos: nat, depth: nat, prec: nat, e: Expr<V>)
    requires e.Fact? && pos + |Render(e.e)| < |toks| && depth <= MAX_PARSE_DEPTH && prec <= 3
    requires toks[pos + |Render(e.e)|] == Bang && ParsesTo(a, toks, pos, depth, prec, e.e)
    ensures ParsesTo(a, toks, pos, depth, prec, e)
  {
    var mid, v := pos + |Render(e.e)|, Meaning(a, e.e, MAX_PARSE_DEPTH - depth);
    var left := if v.Ok? then v.value else a.zero;
    BangInfix(a, toks, mid, depth, left);
    var room, r, p := MAX_PARSE_DEPTH - depth, Infix(a, toks, mid, depth, left), Parse(a, toks, pos, depth, prec);
    JoinLeft(a, toks, pos, depth, prec, e.e, r);
    var m := if v.Failed? then v else ApplyFact(a, v.value);
    MeaningOfFact(a, e, room, v, m);
    PostfixCombines(a, toks, mid + 1, depth, prec, v, m, r, p);
    ParsesAs(a, toks, pos, depth, prec, e, mid + 1, m, p);
  }

  lemma JoinBin<V>(a: Arith<V>, toks: seq<Token<V>>, pos: nat, depth: nat, prec: nat, e: Expr<V>, mid: nat, q: nat)
    requires e.Bin? && mid == pos + |Render(e.l)| && mid + 1 + |Render(e.r)| <= |toks| && depth <= MAX_PARSE_DEPTH
    requires toks[mid] == Op(e.op) && q == OpPrecedence(e.op) + 1 && prec < q
    requires ParsesTo(a, toks, pos, depth, prec, e.l)
    requires ParsesTo(a, toks, mid + 1, depth, q, e.r) && !Binds(Peek(toks, mid + 1 + |Render(e.r)|), q)
    ensures ParsesTo(a, toks, pos, depth, prec, e)
  {
    var v := Meaning(a, e.l, MAX_PARSE_DEPTH - depth);
    var left := if v.Ok? then v.value else a.zero;
    RightOperand(a, toks, mid, depth, e.op, left, e.r);
    var room, r, p := MAX_PARSE_DEPTH - depth, Infix(a, toks, mid, depth, left), Parse(a, toks, pos, depth, prec);
    var w, end := Meaning(a, e.r, room), mid + 1 + |Render(e.r)|;
    JoinLeft(a, toks, pos, depth, prec, e.l, r);
    MeaningOfBin(a, e, room, v, w);
    InfixCombines(a, toks, end, depth, prec, v, w, if w.Ok? then Apply(a, e.op, left, w.value) else w, r, p);
    ParsesAs(a, toks, pos, depth, prec, e, end, Meaning(a, e, room), p);
  }

  lemma MeaningOfBin<V>(a: Arith<V>, e: Expr<V>, room: nat, v: Result<V>, w: Result<V>)
    requires e.Bin? && v == Meaning(a, e.l, room) && w == Meaning(a, e.r, room)
    ensures Meaning(a, e, room) == if v.Failed? then v else if w.Failed? then w else Apply(a, e.op, v.value, w.value)
  {}

  lemma MeaningOfJuxt<V>(a: Arith<V>, e: Expr<V>, room: nat, v: Result<V>, w: Result<V>)
    requires e.Juxt? && v == Meaning(a, e.l, room) && w == Meaning(a, e.r, room)
    ensures Meaning(a, e, room) == if v.Failed? then v else if w.Failed? then w else Ok(a.mul(v.value, w.value))
  {}

  lemma JoinJuxt<V>(a: Arith<V>, toks: seq<Token<V>>, pos: nat, depth: nat, prec: nat, e: Expr<V>, mid: nat)
    requires e.Juxt? && mid == pos + |Render(e.l)| && mid + |Render(e.r)| <= |toks| && depth <= MAX_PARSE_DEPTH
    requires mid < |toks| && toks[mid] == LParen && prec <= 2
    requires ParsesTo(a, toks, pos, depth, prec, e.l)
    requires ParsesTo(a, toks, mid, depth, 3, e.r) && !Binds(Peek(toks, mid + |Render(e.r)|), 3)
    ensures ParsesTo(a, toks, pos, depth, prec, e)
  {
    var v := Meaning(a, e.l, MAX_PARSE_DEPTH - depth);
    var left := if v.Ok? then v.value else a.zero;
    RightFactor(a, toks, mid, depth, left, e.r);
    var room, r, p := MAX_PARSE_DEPTH - depth, Infix(a, toks, mid, depth, left), Parse(a, toks, pos, depth, prec);
    var w, end := Meaning(a, e.r, room), mid + |Render(e.r)|;
    JoinLeft(a, toks, pos, depth, prec, e.l, r);
    MeaningOfJuxt(a, e, room, v, w);
    InfixCombines(a, toks, end, depth, prec, v, w, if w.Ok? then Ok(a.mul(left, w.value)) else w, r, p);
    ParsesAs(a, toks, pos, depth, prec, e, end, Meaning(a, e, room), p);
  }

  lemma {:induction false} ParseRendered<V>(a: Arith<V>, toks: seq<Token<V>>, pos: nat, depth: nat, prec: nat,
                                            e: Expr<V>)
    requires Placed(toks, pos, depth, prec, e)
    ensures ParsesTo(a, toks, pos, depth, prec, e)
    decreases e, 2
  {
    match e
    case Num(v) => AtToken(toks, pos, Number(v));
    case Neg(_) => ParseUnary(a, toks, pos, depth, prec, e);
    case Root(_) => ParseUnary(a, toks, pos, depth, prec, e);
    case Paren(_) => ParseParen(a, toks, pos, depth, prec, e);
    case Fact(_) => ParseFact(a, toks, pos, depth, prec, e);
    case Bin(_, _, _) => ParseBin(a, toks, pos, depth, prec, e);
    case Juxt(_, _) => ParseJuxt(a, toks, pos, depth, prec, e);
  }

  lemma {:induction false} ParseUnary<V>(a: Arith<V>, toks: seq<Token<V>>, pos: nat, depth: nat, prec: nat, e: Expr<V>)
    requires Placed(toks, pos, depth, prec, e) && (e.Neg? || e.Root?)
    ensures ParsesTo(a, toks, pos, depth, prec, e)
    decreases e, 0
  {
    PlacedUnary(toks, pos, depth, prec, e);
    if depth < MAX_PARSE_DEPTH { ParseRendered(a, toks, pos + 1, depth + 1, 3, e.e); }
    JoinUnary(a, toks, pos, depth, prec, e);
  }

  lemma {:induction false} ParseParen<V>(a: Arith<V>, toks: seq<Token<V>>, pos: nat, depth: nat, prec: nat, e: Expr<V>)
    requires Placed(toks, pos, depth, prec, e) && e.Paren?
    ensures ParsesTo(a, toks, pos, depth, prec, e)
    decreases e, 0
  {
    PlacedParen(toks, pos, depth, prec, e);
    if depth < MAX_PARSE_DEPTH { ParseRendered(a, toks, pos + 1, depth + 1, 0, e.e); }
    JoinParen(a, toks, pos, depth, prec, e);
  }

  lemma {:induction false} ParseFact<V>(a: Arith<V>, toks: seq<Token<V>>, pos: nat, depth: nat, prec: nat, e: Expr<V>)
    requires Placed(toks, pos, depth, prec, e) && e.Fact?
    ensures ParsesTo(a, toks, pos, depth, prec, e)
    decreases e, 0
  {
    PlacedFact(toks, pos, depth, prec, e);
    ParseRendered(a, toks, pos, depth, prec, e.e);
    JoinFact(a, toks, pos, depth, prec, e);
  }

  lemma {:induction false} ParseBin<V>(a: Arith<V>, toks: seq<Token<V>>, pos: nat, depth: nat, prec: nat, e: Expr<V>)
    requires Placed(toks, pos, depth, prec, e) && e.Bin?
    ensures ParsesTo(a, toks, pos, depth, prec, e)
    decreases e, 1
  {
    var mid, q := pos + |Render(e.l)|, OpPrecedence(e.op) + 1;
    PlacedBin(toks, pos, depth, prec, e, mid, q);
    ParseBinParts(a, toks, pos, depth, prec, e, mid, q);
  }

  lemma {:induction false} ParseBinParts<V>(a: Arith<V>, toks: seq<Token<V>>, pos: nat, depth: nat, prec: nat,
                                            e: Expr<V>, mid: nat, q: nat)
    requires e.Bin? && Placed(toks, pos, depth, prec, e.l) && Placed(toks, mid + 1, depth, q, e.r)
    requires mid == pos + |Render(e.l)| < |toks| && toks[mid] == Op(e.op) && q == OpPrecedence(e.op) + 1 && prec < q
    requires !Binds(Peek(toks, mid + 1 + |Render(e.r)|), q)
    ensures ParsesTo(a, toks, pos, depth, prec, e)
    decreases e, 0
  {
    ParseRendered(a, toks, pos, depth, prec, e.l);
    ParseRendered(a, toks, mid + 1, depth, q, e.r);
    JoinBin(a, toks, pos, depth, prec, e, mid, q);
  }

  lemma {:induction false} ParseJuxt<V>(a: Arith<V>, toks: seq<Token<V>>, pos: nat, depth: nat, prec: nat, e: Expr<V>)
    requires Placed(toks, pos, depth, prec, e) && e.Juxt?
    ensures ParsesTo(a, toks, pos, depth, prec, e)
    decreases e, 0
  {
    var mid := pos + |Render(e.l)|;
    PlacedJuxt(toks, pos, depth, prec, e);
    ParseRendered(a, toks, pos, depth, prec, e.l);
    ParseRendered(a, toks, mid, depth, 3, e.r);
    JoinJuxt(a, toks, pos, depth, prec, e, mid);
  }

  /** Parsing what a readable tree prints gives the tree's value, and fails exactly when nesting exceeds 256 or an
      operation of the tree is undefined. */
  lemma ParsePrinted<V>(a: Arith<V>, e: Expr<V>)
    requires Readable(e)
    ensures ParseExpression(a, Render(e)) == Meaning(a, e, MAX_PARSE_DEPTH)
    ensures Nesting(e) <= 256 ==> ParseExpression(a, Render(e)) == Eval(a, e)
    ensures Nesting(e) > 256 ==> ParseExpression(a, Render(e)).Failed?
  {
    var toks := Render(e);
    assert toks[0..0 + |toks|] == toks;
    EveryoneFitsInZero(e);
    EveryoneStops(e, Token<V>.End);
    ParseRendered(a, toks, 0, 0, 0, e);
    MeaningIsValue(a, e, MAX_PARSE_DEPTH);
  }

  // ---- inserting the parentheses a tree needs, and no others ----

  function Wrap<V>(e: Expr<V>, fine: bool): Expr<V> {
    if fine then e else Paren(e)
  }

  function Parenthesise<V>(e: Expr<V>): Expr<V> {
    match e
    case Num(_) => e
    case Neg(x) => var y := Parenthesise(x); Neg(Wrap(y, FitsIn(y, 3)))
    case Root(x) => var y := Parenthesise(x); Root(Wrap(y, FitsIn(y, 3)))
    case Paren(x) => Paren(Parenthesise(x))
    case Fact(x) => var y := Parenthesise(x); Fact(Wrap(y, StopsAt(y, Bang)))
    case Bin(op, l, r) =>
      var x, y := Parenthesise(l), Parenthesise(r);
      Bin(op, Wrap(x, StopsAt(x, Op(op))), Wrap(y, FitsIn(y, OpPrecedence(op) + 1)))
    case Juxt(l, r) =>
      var x, y := Parenthesise(l), Parenthesise(r);
      Juxt(Wrap(x, StopsAt(x, LParen)), Wrap(y, FitsIn(y, 3) && StartsWithParen(y)))
  }

  lemma {:induction false} ParenthesiseSuffices<V>(e: Expr<V>)
    ensures Readable(Parenthesise(e))
  {
    match e
    case Num(_) =>
    case Neg(x) => ParenthesiseSuffices(x);
    case Root(x) => ParenthesiseSuffices(x);
    case Paren(x) => ParenthesiseSuffices(x);
    case Fact(x) => ParenthesiseSuffices(x);
    case Bin(_, l, r) => ParenthesiseSuffices(l); ParenthesiseSuffices(r);
    case Juxt(l, r) => ParenthesiseSuffices(l); ParenthesiseSuffices(r);
  }

  lemma {:induction false} ParenthesiseKeepsValue<V>(a: Arith<V>, e: Expr<V>)
    ensures Eval(a, Parenthesise(e)) == Eval(a, e)
  {
    match e
    case Num(_) =>
    case Neg(x) => ParenthesiseKeepsValue(a, x);
    case Root(x) => ParenthesiseKeepsValue(a, x);
    case Paren(x) => ParenthesiseKeepsValue(a, x);
    case Fact(x) => ParenthesiseKeepsValue(a, x);
    case Bin(_, l, r) => ParenthesiseKeepsValue(a, l); ParenthesiseKeepsValue(a, r);
    case Juxt(l, r) => ParenthesiseKeepsValue(a, l); ParenthesiseKeepsValue(a, r);
  }

  /** The inserted parentheses make any tree readable and leave its value alone. */
  lemma ParenthesiseReadable<V>(a: Arith<V>, e: Expr<V>)
    ensures Readable(Parenthesise(e))
    ensures Eval(a, Parenthesise(e)) == Eval(a, e)
  {
    ParenthesiseSuffices(e);
    ParenthesiseKeepsValue(a, e);
  }

  /** A tree that already has its parentheses gets no more. */
  lemma {:induction false} ParenthesiseMinimal<V>(e: Expr<V>)
    ensures Readable(e) <==> Parenthesise(e) == e
  {
    match e
    case Num(_) =>
    case Neg(x) => ParenthesiseMinimal(x);
    case Root(x) => ParenthesiseMinimal(x);
    case Paren(x) => ParenthesiseMinimal(x);
    case Fact(x) => ParenthesiseMinimal(x);
    case Bin(_, l, r) => ParenthesiseMinimal(l); ParenthesiseMinimal(r);
    case Juxt(l, r) => ParenthesiseMinimal(l); ParenthesiseMinimal(r);
  }

  /** Printing any tree with the parentheses it needs and parsing the tokens gives its value, while the printed
      form nests at most 256 deep. */
  lemma PrintParse<V>(a: Arith<V>, e: Expr<V>)
    ensures Nesting(Parenthesise(e)) <= 256 ==> ParseExpression(a, Render(Parenthesise(e))) == Eval(a, e)
    ensures Nesting(Parenthesise(e)) > 256 ==> ParseExpression(a, Render(Parenthesise(e))).Failed?
  {
    ParenthesiseReadable(a, e);
    ParsePrinted(a, Parenthesise(e));
  }

  // ---- the parser as it runs ----

  /** The tokenizer position, success flag, division flag and depth counter that the C functions share. */
  class Parser<V> {
    const a: Arith<V>
    const toks: seq<Token<V>>
    var pos: nat
    var depth: nat
    var success: bool
    var divisionByZero: bool

    constructor (a: Arith<V>, toks: seq<Token<V>>)
      ensures this.a == a && this.toks == toks && pos == 0 && depth == 0 && success && !divisionByZero
    {
      this.a, this.toks, pos, depth, success, divisionByZero := a, toks, 0, 0, true, false;
    }

    method Consume() returns (t: Token<V>)
      requires pos <= |toks|
      modifies this`pos
      ensures t == Peek(toks, old(pos)) && pos == Next(toks, old(pos))
    {
      t := Peek(toks, pos);
      if pos < |toks| { pos := pos + 1; }
    }

    /** The state after a call that computed r from the given flags. */
    ghost predicate Reflects(r: Outcome<V>, value: V, flagBefore: bool)
      reads this
    {
      && pos == r.pos && success == r.result.Ok?
      && (success ==> value == r.result.value)
      && divisionByZero == (flagBefore || r.result == Failed(DivisionByZero))
    }

    /** The parse_precedence frames alive when one more is entered: at most four per counted level. */
    static ghost predicate FewFrames(frames: nat, depth: nat, prec: nat) {
      frames <= 4 * depth + Max(1, prec)
    }

    /** From `frames` live calls on entry, never more than four for each of the 257 values of the counter. */
    static ghost predicate Peaked(peak: nat, frames: nat) {
      frames <= peak <= 4 * (MAX_PARSE_DEPTH + 1)
    }

    /** parse_precedence: restores the depth counter on every exit; `frames` counts the live calls of it, this one
        included, and `peak` is the most there were at any time during the call. */
    method ParsePrecedence(prec: nat, ghost frames: nat) returns (value: V, ghost peak: nat)
      requires pos <= |toks| && success && prec <= 4 && depth <= MAX_PARSE_DEPTH && FewFrames(frames, depth, prec)
      modifies this`pos, this`depth, this`success, this`divisionByZero
      ensures depth == old(depth) && Peaked(peak, frames)
      ensures Reflects(Parse(a, toks, old(pos), old(depth), prec), value, old(divisionByZero))
      decreases |toks| - pos, 1
    {
      depth := depth + 1;
      peak := frames;
      if depth > MAX_PARSE_DEPTH {
        depth := depth - 1;
        success := false;
        return a.zero, peak;
      }
      if !HasPrefix(Peek(toks, pos)) {
        depth := depth - 1;
        success := false;
        return a.zero, peak;
      }
      ghost var prefix, flag := Prefix(a, toks, pos, depth), divisionByZero;
      AfterPrefix(a, toks, pos, depth - 1, prec, prefix);
      ghost var inner: nat;
      value, inner := ParsePrefix(frames, prec);
      peak := Max(peak, inner);
      depth := depth - 1;
      if !success { return a.zero, peak; }
      assert prefix == Outcome(pos, Ok(value)) && divisionByZero == flag;
      value, inner := InfixLoop(value, prec, frames);
      peak := Max(peak, inner);
    }

    /** The while loop of parse_precedence. */
    method InfixLoop(left: V, prec: nat, ghost frames: nat) returns (value: V, ghost peak: nat)
      requires pos <= |toks| && success && prec <= 4 && depth <= MAX_PARSE_DEPTH && FewFrames(frames, depth, prec)
      modifies this`pos, this`depth, this`success, this`divisionByZero
      ensures depth == old(depth) && Peaked(peak, frames)
      ensures Reflects(Loop(a, toks, old(pos), old(depth), prec, left), value, old(divisionByZero))
      decreases |toks| - pos, 3
    {
      ghost var goal, flag := Loop(a, toks, pos, depth, prec, left), divisionByZero;
      ghost var inner: nat;
      value, peak := left, frames;
      while Binds(Peek(toks, pos), prec)
        invariant success && depth == old(depth) && old(pos) <= pos <= |toks| && Peaked(peak, frames)
        invariant Loop(a, toks, pos, depth, prec, value) == goal && divisionByZero == flag
        decreases |toks| - pos
      {
        value, inner := ParseInfix(value, frames, prec);
        peak := Max(peak, inner);
        if !success { return a.zero, peak; }
      }
    }

    /** parse_number, parse_unary, parse_grouping, parse_unary_sqrt */
    method ParsePrefix(ghost frames: nat, ghost prec: nat) returns (value: V, ghost peak: nat)
      requires pos < |toks| && success && HasPrefix(toks[pos]) && prec <= 4
      requires 1 <= depth <= MAX_PARSE_DEPTH && FewFrames(frames, depth - 1, prec)
      modifies this`pos, this`depth, this`success, this`divisionByZero
      ensures depth == old(depth) && Peaked(peak, frames)
      ensures Reflects(Prefix(a, toks, old(pos), old(depth)), value, old(divisionByZero))
      decreases |toks| - pos, 0
    {
      var op := Consume();
      if op.Number? {
        value, peak := op.value, frames;
      } else if op.LParen? {
        value, peak := ParsePrecedence(0, frames + 1);
        var next := Consume();
        if !next.RParen? { success := false; }
      } else if op.Radical? {
        value, peak := ParsePrecedence(3, frames + 1);
        if success {
          var r := ApplyRoot(a, value);
          if r.Failed? { success := false; return a.zero, peak; }
          value := r.value;
        }
      } else {
        value, peak := ParsePrecedence(3, frames + 1);
        value := a.neg(value);
      }
    }

    /** parse_binary, parse_implicit_mul, parse_factorial */
    method ParseInfix(left: V, ghost frames: nat, ghost prec: nat) returns (value: V, ghost peak: nat)
      requires pos < |toks| && success && Binds(toks[pos], prec) && prec <= 4
      requires depth <= MAX_PARSE_DEPTH && FewFrames(frames, depth, prec)
      modifies this`pos, this`depth, this`success, this`divisionByZero
      ensures depth == old(depth) && Peaked(peak, frames)
      ensures Reflects(Infix(a, toks, old(pos), old(depth), left), value, old(divisionByZero))
      decreases |toks| - pos, 2
    {
      peak := frames;
      match toks[pos]
      case Bang =>
        var _ := Consume();
        var r := ApplyFact(a, left);
        if r.Failed? { success := false; return a.zero, peak; }
        value := r.value;
      case LParen =>
        var right: V;
        right, peak := ParsePrecedence(3, frames + 1);
        if !success { return a.zero, peak; }
        value := a.mul(left, right);
      case Op(op) =>
        var _ := Consume();
        var right: V;
        right, peak := ParsePrecedence(OpPrecedence(op) + 1, frames + 1);
        if !success { return a.zero, peak; }
        var r := Apply(a, op, left, right);
        if r.Failed? {
          if r.why.DivisionByZero? { divisionByZero := true; }
          success := false;
          return a.zero, peak;
        }
        value := r.value;
    }

    /** parse_expression: saves and restores the depth counter; at most 1028 frames are ever live. */
    method Run() returns (value: V, ghost peak: nat)
      requires pos == 0 && success
      modifies this`pos, this`depth, this`success, this`divisionByZero
      ensures depth == old(depth) && 1 <= peak <= 1028
      ensures success == ParseExpression(a, toks).Ok?
      ensures success ==> value == ParseExpression(a, toks).value
      ensures divisionByZero == (old(divisionByZero) || ParseExpression(a, toks) == Failed(DivisionByZero))
    {
      var oldDepth := depth;
      depth := 0;
      value, peak := ParsePrecedence(0, 1);
      if !Peek(toks, pos).End? { success := false; }
      depth := oldDepth;
    }
  }
}
