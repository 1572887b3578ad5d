/** What the Pratt parser accepts: exactly the printed readable trees; and so which parentheses a tree needs. */
module PrattReading {
  import opened PrattParser

  // ---- whatever is accepted is a readable tree, printed ----

  /** e is the tree that was read from toks[start..end]. */
  ghost predicate Reads<V>(a: Arith<V>, toks: seq<Token<V>>, start: nat, end: nat, e: Expr<V>, v: V) {
    && start <= end <= |toks| && Render(e) == toks[start..end]
    && Readable(e) && StopsAt(e, Peek(toks, end)) && Eval(a, e) == Ok(v)
  }

  lemma SliceConcat<T>(s: seq<T>, i: nat, j: nat, k: nat)
    requires i <= j <= k <= |s|
    ensures s[i..k] == s[i..j] + s[j..k]
  {}

  lemma SliceOne<T>(s: seq<T>, i: nat)
    requires i < |s|
    ensures s[i..i + 1] == [s[i]]
  {}

  /** A tree whose text begins with a parenthesis begins with one itself. */
  lemma {:induction false} StartsWithParenIff<V>(e: Expr<V>)
    ensures StartsWithParen(e) <==> Render(e)[0] == LParen
  {
    match e
    case Fact(x) => StartsWithParenIff(x);
    case Bin(_, l, _) => StartsWithParenIff(l);
    case Juxt(l, _) => StartsWithParenIff(l);
    case _ =>
  }

  lemma ReadsNumber<V>(a: Arith<V>, toks: seq<Token<V>>, pos: nat)
    requires pos < |toks| && toks[pos].Number?
    ensures Reads(a, toks, pos, pos + 1, Num(toks[pos].value), toks[pos].value)
  {
    SliceOne(toks, pos);
  }

  lemma ReadsParen<V>(a: Arith<V>, toks: seq<Token<V>>, pos: nat, end: nat, x: Expr<V>, v: V)
    requires pos < |toks| && toks[pos].LParen? && Reads(a, toks, pos + 1, end, x, v) && Peek(toks, end).RParen?
    ensures Reads(a, toks, pos, end + 1, Paren(x), v)
  {
    SliceOne(toks, pos);
    SliceOne(toks, end);
    SliceConcat(toks, pos, pos + 1, end);
    SliceConcat(toks, pos, end, end + 1);
  }

  lemma ReadsUnary<V>(a: Arith<V>, toks: seq<Token<V>>, pos: nat, end: nat, x: Expr<V>, v: V, e: Expr<V>, w: V)
    requires pos < |toks| && Reads(a, toks, pos + 1, end, x, v) && FitsIn(x, 3) && !Binds(Peek(toks, end), 3)
    requires (toks[pos] == Op(Minus) && e == Neg(x) && w == a.neg(v))
          || (toks[pos] == Radical && e == Root(x) && ApplyRoot(a, v) == Ok(w))
    ensures Reads(a, toks, pos, end, e, w)
  {
    SliceOne(toks, pos);
    SliceConcat(toks, pos, pos + 1, end);
  }

  lemma ReadsFact<V>(a: Arith<V>, toks: seq<Token<V>>, start: nat, pos: nat, l: Expr<V>, v: V, w: V)
    requires pos < |toks| && Reads(a, toks, start, pos, l, v) && toks[pos].Bang? && ApplyFact(a, v) == Ok(w)
    ensures Reads(a, toks, start, pos + 1, Fact(l), w)
  {
    SliceOne(toks, pos);
    SliceConcat(toks, start, pos, pos + 1);
  }

  lemma ReadsJuxt<V>(a: Arith<V>, toks: seq<Token<V>>, start: nat, pos: nat, end: nat, l: Expr<V>, r: Expr<V>,
                     v: V, w: V)
    requires pos < |toks| && toks[pos].LParen? && Reads(a, toks, start, pos, l, v) && Reads(a, toks, pos, end, r, w)
    requires FitsIn(r, 3) && !Binds(Peek(toks, end), 3)
    ensures Reads(a, toks, start, end, Juxt(l, r), a.mul(v, w))
  {
    SliceConcat(toks, start, pos, end);
    StartsWithParenIff(r);
    assert Render(r)[0] == toks[pos];
  }

  lemma ReadsBin<V>(a: Arith<V>, toks: seq<Token<V>>, start: nat, pos: nat, end: nat, op: BinOp, l: Expr<V>, r: Expr<V>,
                    v: V, w: V, x: V)
    requires pos < |toks| && toks[pos] == Op(op)
    requires Reads(a, toks, start, pos, l, v) && Reads(a, toks, pos + 1, end, r, w)
    requires FitsIn(r, OpPrecedence(op) + 1) && !Binds(Peek(toks, end), OpPrecedence(op) + 1)
    requires Apply(a, op, v, w) == Ok(x)
    ensures Reads(a, toks, start, end, Bin(op, l, r), x)
  {
    SliceOne(toks, pos);
    SliceConcat(toks, start, pos, pos + 1);
    SliceConcat(toks, start, pos + 1, end);
  }

  // The four functions of the parser, each with the tree it has read when it succeeds.

  lemma {:induction false} ParseReads<V>(a: Arith<V>, toks: seq<Token<V>>, pos: nat, depth: nat, prec: nat)
    returns (e: Expr<V>)
    requires pos <= |toks| && Parse(a, toks, pos, depth, prec).result.Ok?
    ensures var r := Parse(a, toks, pos, depth, prec);
            Reads(a, toks, pos, r.pos, e, r.result.value) && FitsIn(e, prec) && !Binds(Peek(toks, r.pos), prec)
    decreases |toks| - pos, 1
  {
    var x := Prefix(a, toks, pos, depth + 1);
    AfterPrefix(a, toks, pos, depth, prec, x);
    var l := PrefixReads(a, toks, pos, depth + 1);
    e := LoopReads(a, toks, pos, x.pos, depth, prec, l, x.result.value);
  }

  lemma {:induction false} PrefixReads<V>(a: Arith<V>, toks: seq<Token<V>>, pos: nat, depth: nat) returns (e: Expr<V>)
    requires pos < |toks| && HasPrefix(toks[pos]) && Prefix(a, toks, pos, depth).result.Ok?
    ensures var r := Prefix(a, toks, pos, depth); Reads(a, toks, pos, r.pos, e, r.result.value)
    ensures forall p: nat :: FitsIn(e, p)
    decreases |toks| - pos, 0
  {
    if toks[pos].Number? {
      e := Num(toks[pos].value);
      ReadsNumber(a, toks, pos);
    } else if toks[pos].LParen? {
      var r := Parse(a, toks, pos + 1, depth, 0);
      var x := ParseReads(a, toks, pos + 1, depth, 0);
      e := Paren(x);
      ReadsParen(a, toks, pos, r.pos, x, r.result.value);
    } else {
      var r := Parse(a, toks, pos + 1, depth, 3);
      PrefixUnary(a, toks, pos, depth, r);
      var x := ParseReads(a, toks, pos + 1, depth, 3);
      e := if toks[pos].Radical? then Root(x) else Neg(x);
      ReadsUnary(a, toks, pos, r.pos, x, r.result.value, e, Prefix(a, toks, pos, depth).result.value);
    }
  }

  lemma {:induction false} LoopReads<V>(a: Arith<V>, toks: seq<Token<V>>, start: nat, pos: nat, depth: nat, prec: nat,
                                        l: Expr<V>, left: V) returns (e: Expr<V>)
    requires pos <= |toks| && Loop(a, toks, pos, depth, prec, left).result.Ok?
    requires start < pos && Reads(a, toks, start, pos, l, left) && FitsIn(l, prec)
    ensures var r := Loop(a, toks, pos, depth, prec, left);
            Reads(a, toks, start, r.pos, e, r.result.value) && FitsIn(e, prec) && !Binds(Peek(toks, r.pos), prec)
    decreases |toks| - pos, 3
  {
    if !Binds(Peek(toks, pos), prec) {
      e := l;
    } else {
      var r := Infix(a, toks, pos, depth, left);
      LoopStep(a, toks, pos, depth, prec, left, r);
      var next := InfixReads(a, toks, start, pos, depth, prec, l, left);
      e := LoopReads(a, toks, start, r.pos, depth, prec, next, r.result.value);
    }
  }

  lemma {:induction false} InfixReads<V>(a: Arith<V>, toks: seq<Token<V>>, start: nat, pos: nat, depth: nat, prec: nat,
                                         l: Expr<V>, left: V) returns (e: Expr<V>)
    requires pos < |toks| && Binds(toks[pos], prec) && Infix(a, toks, pos, depth, left).result.Ok?
    requires start < pos && Reads(a, toks, start, pos, l, left) && FitsIn(l, prec)
    ensures var r := Infix(a, toks, pos, depth, left);
            Reads(a, toks, start, r.pos, e, r.result.value) && FitsIn(e, prec)
    decreases |toks| - pos, 2
  {
    match toks[pos]
    case Bang =>
      e := Fact(l);
      ReadsFact(a, toks, start, pos, l, left, ApplyFact(a, left).value);
    case LParen =>
      var r := Parse(a, toks, pos, depth, 3);
      var x := ParseReads(a, toks, pos, depth, 3);
      e := Juxt(l, x);
      ReadsJuxt(a, toks, start, pos, r.pos, l, x, left, r.result.value);
    case Op(op) =>
      var r := Parse(a, toks, pos + 1, depth, OpPrecedence(op) + 1);
      var x := ParseReads(a, toks, pos + 1, depth, OpPrecedence(op) + 1);
      e := Bin(op, l, x);
      ReadsBin(a, toks, start, pos, r.pos, op, l, x, left, r.result.value,
               Apply(a, op, left, r.result.value).value);
  }

  /** toks is the printed form of the readable tree e, which nests at most 256 deep and has value v. */
  ghost predicate Denotes<V>(a: Arith<V>, toks: seq<Token<V>>, e: Expr<V>, v: V) {
    Render(e) == toks && Readable(e) && Nesting(e) <= MAX_PARSE_DEPTH && Eval(a, e) == Ok(v)
  }

  /** The token lists the parser accepts, and with what value: the readable trees of nesting up to 256, printed. */
  lemma AcceptedIff<V(!new)>(a: Arith<V>, toks: seq<Token<V>>, v: V)
    requires End !in toks
    ensures ParseExpression(a, toks) == Ok(v) <==> exists e :: Denotes(a, toks, e, v)
  {
    if ParseExpression(a, toks) == Ok(v) {
      var e := AcceptedTree(a, toks);
      assert Denotes(a, toks, e, v);
    }
    if exists e :: Denotes(a, toks, e, v) {
      var e :| Denotes(a, toks, e, v);
      ParsePrinted(a, e);
    }
  }

  lemma AcceptedTree<V>(a: Arith<V>, toks: seq<Token<V>>) returns (e: Expr<V>)
    requires End !in toks && ParseExpression(a, toks).Ok?
    ensures Denotes(a, toks, e, ParseExpression(a, toks).value)
  {
    var r := Parse(a, toks, 0, 0, 0);
    e := ParseReads(a, toks, 0, 0, 0);
    assert r.pos == |toks| && toks[0..|toks|] == toks;
    ParsePrinted(a, e);
  }

  // ---- an arithmetic of symbols ----

  /** Values that remember how they were computed. */
  datatype Term =
    | Leaf(id: nat)
    | NegOf(t: Term)
    | RootOf(t: Term)
    | FactOf(t: Term)
    | BinOf(op: BinOp, l: Term, r: Term)

  function Terms(): Arith<Term> {
    Arith(Leaf(0), (x: Term) => NegOf(x),
          (x: Term, y: Term) => BinOf(Plus, x, y), (x: Term, y: Term) => BinOf(Minus, x, y),
          (x: Term, y: Term) => BinOf(Star, x, y), (x: Term, y: Term) => BinOf(Slash, x, y),
          (x: Term, y: Term) => BinOf(Percent, x, y), (x: Term, y: Term) => BinOf(Caret, x, y),
          (x: Term, y: Term) => BinOf(Exp10, x, y),
          (x: Term) => RootOf(x), (x: Term) => FactOf(x),
          (_: Term) => false, (_: Term) => false, (_: Term) => true)
  }

  /** A tree without its parentheses, and with implicit products written out. */
  function TermOf(e: Expr<Term>): Term {
    match e
    case Num(v) => v
    case Neg(x) => NegOf(TermOf(x))
    case Root(x) => RootOf(TermOf(x))
    case Paren(x) => TermOf(x)
    case Fact(x) => FactOf(TermOf(x))
    case Bin(op, l, r) => BinOf(op, TermOf(l), TermOf(r))
    case Juxt(l, r) => BinOf(Star, TermOf(l), TermOf(r))
  }

  /** Every number of the tree is a single symbol. */
  predicate PlainLeaves(e: Expr<Term>) {
    match e
    case Num(v) => v.Leaf?
    case Neg(x) => PlainLeaves(x)
    case Root(x) => PlainLeaves(x)
    case Paren(x) => PlainLeaves(x)
    case Fact(x) => PlainLeaves(x)
    case Bin(_, l, r) => PlainLeaves(l) && PlainLeaves(r)
    case Juxt(l, r) => PlainLeaves(l) && PlainLeaves(r)
  }

  lemma TermsApply(op: BinOp, x: Term, y: Term)
    ensures Apply(Terms(), op, x, y) == Ok(BinOf(op, x, y))
  {}

  /** Over terms nothing fails, and the value of a tree is its term. */
  lemma {:induction false} EvalIsTerm(e: Expr<Term>)
    ensures Eval(Terms(), e) == Ok(TermOf(e))
  {
    match e
    case Num(_) =>
    case Neg(x) => EvalIsTerm(x);
    case Root(x) => EvalIsTerm(x);
    case Paren(x) => EvalIsTerm(x);
    case Fact(x) => EvalIsTerm(x);
    case Bin(op, l, r) => EvalIsTerm(l); EvalIsTerm(r); TermsApply(op, TermOf(l), TermOf(r));
    case Juxt(l, r) => EvalIsTerm(l); EvalIsTerm(r);
  }

  // ---- what can stand where in a printed tree ----

  function Numbers<V>(s: seq<Token<V>>): nat {
    if s == [] then 0 else Numbers(s[..|s| - 1]) + if s[|s| - 1].Number? then 1 else 0
  }

  /** Open parentheses less closed ones. */
  function Balance<V>(s: seq<Token<V>>): int {
    if s == [] then 0
    else
      var t := s[|s| - 1];
      Balance(s[..|s| - 1]) + if t.LParen? then 1 else if t.RParen? then -1 else 0
  }

  lemma {:induction false} CountsAdd<V>(s: seq<Token<V>>, t: seq<Token<V>>)
    ensures Numbers(s + t) == Numbers(s) + Numbers(t) && Balance(s + t) == Balance(s) + Balance(t)
    decreases |t|
  {
    if t == [] {
      assert s + t == s;
    } else {
      assert (s + t)[..|s + t| - 1] == s + t[..|t| - 1] && (s + t)[|s + t| - 1] == t[|t| - 1];
      CountsAdd(s, t[..|t| - 1]);
    }
  }

  lemma CountsOne<V>(t: Token<V>)
    ensures Numbers([t]) == if t.Number? then 1 else 0
    ensures Balance([t]) == if t.LParen? then 1 else if t.RParen? then -1 else 0
  {
    assert [t][..0] == [];
  }

  function Leaves(t: Term): (n: nat)
    ensures n >= 1
  {
    match t
    case Leaf(_) => 1
    case NegOf(x) => Leaves(x)
    case RootOf(x) => Leaves(x)
    case FactOf(x) => Leaves(x)
    case BinOf(_, x, y) => Leaves(x) + Leaves(y)
  }

  lemma CountsUnary<V>(t: Token<V>, s: seq<Token<V>>)
    ensures Numbers([t] + s) == Numbers(s) + if t.Number? then 1 else 0
    ensures Numbers(s + [t]) == Numbers(s) + if t.Number? then 1 else 0
  {
    CountsOne(t);
    CountsAdd([t], s);
    CountsAdd(s, [t]);
  }

  lemma CountsPair<V>(s: seq<Token<V>>)
    ensures Numbers([LParen] + s + [RParen]) == Numbers(s)
  {
    CountsUnary(LParen, s);
    CountsUnary(RParen, [LParen] + s);
  }

  lemma CountsBinary<V>(s: seq<Token<V>>, op: BinOp, t: seq<Token<V>>)
    ensures Numbers(s + [Op(op)] + t) == Numbers(s) + Numbers(t)
  {
    CountsUnary(Op(op), s);
    CountsAdd(s + [Op(op)], t);
  }

  /** The numbers of the text are the leaves of the term. */
  lemma {:induction false} NumbersAreLeaves(e: Expr<Term>)
    requires PlainLeaves(e)
    ensures Numbers(Render(e)) == Leaves(TermOf(e))
  {
    match e
    case Num(v) => CountsOne(Token.Number(v));
    case Neg(x) => NumbersAreLeaves(x); CountsUnary(Op(Minus), Render(x));
    case Root(x) => NumbersAreLeaves(x); CountsUnary(Radical, Render(x));
    case Paren(x) =>
      NumbersAreLeaves(x);
      CountsPair(Render(x));
    case Fact(x) => NumbersAreLeaves(x); CountsUnary(Bang, Render(x));
    case Bin(op, l, r) =>
      NumbersAreLeaves(l);
      NumbersAreLeaves(r);
      CountsBinary(Render(l), op, Render(r));
    case Juxt(l, r) =>
      NumbersAreLeaves(l);
      NumbersAreLeaves(r);
      CountsAdd(Render(l), Render(r));
  }

  predicate Closes<V>(t: Token<V>) {
    t.RParen? || t.Bang?
  }

  ghost predicate AllClose<V>(s: seq<Token<V>>) {
    forall i :: 0 <= i < |s| ==> Closes(s[i])
  }

  lemma DropConcat<T>(s: seq<T>, t: seq<T>, i: nat)
    requires i <= |s| + |t|
    ensures (s + t)[i..] == if i <= |s| then s[i..] + t else t[i - |s|..]
  {}

  /** A tail without numbers lies within the part that has some. */
  lemma TailInRight<V>(s: seq<Token<V>>, t: seq<Token<V>>, i: nat)
    requires i <= |s| + |t| && Numbers((s + t)[i..]) == 0 && Numbers(t) >= 1
    ensures i > |s| && (s + t)[i..] == t[i - |s|..]
  {
    DropConcat(s, t, i);
    if i <= |s| { CountsAdd(s[i..], t); }
  }

  lemma TailGoesOn<V>(s: seq<Token<V>>, t: Token<V>, i: nat)
    requires i <= |s| && Numbers((s + [t])[i..]) == 0
    ensures (s + [t])[i..] == s[i..] + [t] && Numbers(s[i..]) == 0
  {
    DropConcat(s, [t], i);
    CountsUnary(t, s[i..]);
  }

  /** After the last number of a printed tree nothing but closing parentheses and factorials can stand. */
  lemma {:induction false} TailCloses(e: Expr<Term>, i: nat)
    requires PlainLeaves(e) && i <= |Render(e)| && Numbers(Render(e)[i..]) == 0
    ensures AllClose(Render(e)[i..])
    decreases e, 0
  {
    match e
    case Num(v) => if i == 0 { CountsOne(Token.Number(v)); }
    case Neg(x) => TailAfter(x, [Op(Minus)], i);
    case Root(x) => TailAfter(x, [Radical], i);
    case Paren(x) =>
      var s := [LParen] + Render(x);
      if i <= |s| {
        TailGoesOn(s, RParen, i);
        TailAfter(x, [LParen], i);
      }
    case Fact(x) =>
      if i <= |Render(x)| {
        TailGoesOn(Render(x), Bang, i);
        TailCloses(x, i);
      }
    case Bin(op, l, r) => TailAfter(r, Render(l) + [Op(op)], i);
    case Juxt(l, r) => TailAfter(r, Render(l), i);
  }

  lemma {:induction false} TailAfter(x: Expr<Term>, s: seq<Token<Term>>, i: nat)
    requires PlainLeaves(x) && i <= |s| + |Render(x)| && Numbers((s + Render(x))[i..]) == 0
    ensures AllClose((s + Render(x))[i..])
    decreases x, 1
  {
    NumbersAreLeaves(x);
    TailInRight(s, Render(x), i);
    TailCloses(x, i - |s|);
  }

  // ---- balanced parentheses ----

  ghost predicate Nested<V>(s: seq<Token<V>>) {
    Balance(s) == 0 && forall i :: 0 <= i <= |s| ==> Balance(s[..i]) >= 0
  }

  lemma NestedConcat<V>(s: seq<Token<V>>, t: seq<Token<V>>)
    requires Nested(s) && Nested(t)
    ensures Nested(s + t)
  {
    CountsAdd(s, t);
    forall i | 0 <= i <= |s + t| ensures Balance((s + t)[..i]) >= 0 {
      if i <= |s| {
        assert (s + t)[..i] == s[..i];
      } else {
        assert (s + t)[..i] == s + t[..i - |s|];
        CountsAdd(s, t[..i - |s|]);
      }
    }
  }

  lemma NestedOne<V>(t: Token<V>)
    requires !t.LParen? && !t.RParen?
    ensures Nested([t])
  {
    CountsOne(t);
    assert [t][..0] == [] && [t][..1] == [t];
  }

  /** Inside a pair of parentheses at least one is open. */
  lemma InsidePair<V>(s: seq<Token<V>>, i: nat)
    requires Nested(s) && 0 < i <= |s| + 1
    ensures Balance(([LParen] + s + [RParen])[..i]) >= 1
  {
    assert ([LParen] + s + [RParen])[..i] == [LParen] + s[..i - 1];
    CountsOne(Token<V>.LParen);
    CountsAdd([LParen], s[..i - 1]);
  }

  lemma NestedPair<V>(s: seq<Token<V>>)
    requires Nested(s)
    ensures Nested([LParen] + s + [RParen])
  {
    var p := [LParen] + s + [RParen];
    CountsOne(Token<V>.LParen);
    CountsOne(Token<V>.RParen);
    CountsAdd([LParen], s);
    CountsAdd([LParen] + s, [RParen]);
    forall i | 0 <= i <= |p| ensures Balance(p[..i]) >= 0 {
      if i == |p| {
        assert p[..i] == p;
      } else if i > 0 {
        InsidePair(s, i);
      }
    }
  }

  lemma {:induction false} RenderNested<V>(e: Expr<V>)
    ensures Nested(Render(e))
  {
    match e
    case Num(v) => NestedOne(Number(v));
    case Neg(x) =>
      RenderNested(x);
      NestedOne(Token<V>.Op(Minus));
      NestedConcat([Op(Minus)], Render(x));
    case Root(x) =>
      RenderNested(x);
      NestedOne(Token<V>.Radical);
      NestedConcat([Radical], Render(x));
    case Paren(x) =>
      RenderNested(x);
      NestedPair(Render(x));
    case Fact(x) =>
      RenderNested(x);
      NestedOne(Token<V>.Bang);
      NestedConcat(Render(x), [Bang]);
    case Bin(op, l, r) =>
      RenderNested(l);
      RenderNested(r);
      NestedOne(Token<V>.Op(op));
      NestedConcat(Render(l), [Op(op)]);
      NestedConcat(Render(l) + [Op(op)], Render(r));
    case Juxt(l, r) =>
      RenderNested(l);
      RenderNested(r);
      NestedConcat(Render(l), Render(r));
  }

  /** A pair of parentheses around a text is not the text of an operand and more. */
  lemma PairIsWhole<V>(l: Expr<V>, m: seq<Token<V>>, x: Expr<V>)
    requires Render(l) + m == Render(Paren(x))
    ensures m == []
  {
    if m != [] {
      RenderNested(l);
      RenderNested(x);
      assert (Render(l) + m)[..|Render(l)|] == Render(l);
      InsidePair(Render(x), |Render(l)|);
    }
  }

  lemma FactEnds<V>(e: Expr<V>)
    ensures e.Fact? ==> Render(e)[|Render(e)| - 1] == Bang
  {}

  /** Only a tree in parentheses prints as one. */
  lemma ParenAlone<V>(e: Expr<V>, x: Expr<V>)
    requires Render(e) == Render(Paren(x))
    ensures e.Paren?
  {
    var s := Render(Paren(x));
    FactEnds(e);
    assert s[0] == LParen && s[|s| - 1] == RParen && |s| > 1;
    match e
    case Num(_) =>
    case Neg(_) =>
    case Root(_) =>
    case Paren(_) =>
    case Fact(_) =>
    case Bin(op, l, r) =>
      assert Render(e) == Render(l) + ([Op(op)] + Render(r));
      PairIsWhole(l, [Op(op)] + Render(r), x);
    case Juxt(l, r) => PairIsWhole(l, Render(r), x);
  }

  // ---- a text and a term have one tree ----

  /** Where a left operand ends is told by its number of leaves. */
  lemma LeftEndsHere(l: Expr<Term>, m: seq<Token<Term>>, k: Expr<Term>, n: seq<Token<Term>>)
    requires PlainLeaves(l) && PlainLeaves(k) && Render(l) + m == Render(k) + n
    requires Leaves(TermOf(l)) == Leaves(TermOf(k)) && m != [] && !Closes(m[0])
    ensures |Render(k)| <= |Render(l)|
  {
    var i, s := |Render(l)|, Render(k);
    if |s| > i {
      LongerContinues(Render(l), m, s, n);
      CountsAdd(Render(l), s[i..]);
      NumbersAreLeaves(l);
      NumbersAreLeaves(k);
      TailCloses(k, i);
    }
  }

  /** Of two beginnings of one text the longer goes on as the text does after the shorter. */
  lemma LongerContinues<T>(l: seq<T>, m: seq<T>, k: seq<T>, n: seq<T>)
    requires l + m == k + n && |l| < |k| && m != []
    ensures k[|l|..][0] == m[0] && k == l + k[|l|..]
  {
    assert k == (k + n)[..|k|] && l == (l + m)[..|l|];
    assert k[|l|] == (k + n)[|l|] && m[0] == (l + m)[|l|];
  }

  lemma SameLeft(l: Expr<Term>, m: seq<Token<Term>>, k: Expr<Term>, n: seq<Token<Term>>)
    requires PlainLeaves(l) && PlainLeaves(k) && Render(l) + m == Render(k) + n
    requires Leaves(TermOf(l)) == Leaves(TermOf(k)) && m != [] && !Closes(m[0]) && n != [] && !Closes(n[0])
    ensures Render(l) == Render(k) && m == n
  {
    LeftEndsHere(l, m, k, n);
    LeftEndsHere(k, n, l, m);
    var s := Render(l) + m;
    assert s[..|Render(l)|] == Render(l) && s[..|Render(l)|] == Render(k);
    assert s[|Render(l)|..] == m && s[|Render(l)|..] == n;
  }

  /** What follows the left operand of a product or another binary operation. */
  function Rest(e: Expr<Term>): (s: seq<Token<Term>>)
    requires e.Bin? || e.Juxt?
    ensures |s| > 0 && Render(e) == Render(e.l) + s
  {
    if e.Bin? then [Op(e.op)] + Render(e.r) else Render(e.r)
  }

  lemma RestOpens(e: Expr<Term>)
    requires e.Bin? || e.Juxt?
    ensures !Closes(Rest(e)[0])
  {
    RenderHasPrefix(e.r);
  }

  /** The same rest belongs to the same kind of operation. */
  lemma SameRest(e: Expr<Term>, r: Expr<Term>)
    requires (e.Bin? || e.Juxt?) && (r.Bin? || r.Juxt?) && Rest(e) == Rest(r)
    requires TermOf(e).op == TermOf(r).op
    ensures e.Bin? == r.Bin? && Render(e.r) == Render(r.r)
  {
    RenderHasPrefix(e.r);
    RenderHasPrefix(r.r);
    if e.Bin? && r.Bin? { assert Rest(e)[1..] == Render(e.r) && Rest(r)[1..] == Render(r.r); }
  }

  /** Two trees with the same text and the same term are the same tree. */
  lemma {:induction false} Unique(e: Expr<Term>, r: Expr<Term>)
    requires PlainLeaves(e) && PlainLeaves(r) && Render(e) == Render(r) && TermOf(e) == TermOf(r)
    ensures e == r
    decreases e, 1
  {
    if e.Paren? || r.Paren? {
      if e.Paren? { ParenAlone(r, e.e); } else { ParenAlone(e, r.e); }
      var n := |Render(e)| - 1;
      assert Render(e)[1..n] == Render(e.e) && Render(r)[1..n] == Render(r.e);
      Unique(e.e, r.e);
    } else {
      UniqueBare(e, r);
    }
  }

  lemma {:induction false} UniqueBare(e: Expr<Term>, r: Expr<Term>)
    requires PlainLeaves(e) && PlainLeaves(r) && Render(e) == Render(r) && TermOf(e) == TermOf(r)
    requires !e.Paren? && !r.Paren?
    ensures e == r
    decreases e, 0
  {
    var s := Render(e);
    if e.Neg? || e.Root? {
      assert s[1..] == Render(e.e) && s[1..] == Render(r.e);
      Unique(e.e, r.e);
    } else if e.Fact? {
      assert s[..|s| - 1] == Render(e.e) && s[..|s| - 1] == Render(r.e);
      Unique(e.e, r.e);
    } else if e.Bin? || e.Juxt? {
      RestOpens(e);
      RestOpens(r);
      SameLeft(e.l, Rest(e), r.l, Rest(r));
      SameRest(e, r);
      Unique(e.l, r.l);
      Unique(e.r, r.r);
    }
  }

  // ---- which parentheses are needed ----

  ghost predicate PlainTokens(s: seq<Token<Term>>) {
    forall t :: t in s && t.Number? ==> t.value.Leaf?
  }

  lemma {:induction false} PlainIff(e: Expr<Term>)
    ensures PlainLeaves(e) <==> PlainTokens(Render(e))
    ensures End !in Render(e)
  {
    match e
    case Num(v) => assert Render(e)[0] == Number(v);
    case Neg(x) => PlainIff(x);
    case Root(x) => PlainIff(x);
    case Paren(x) => PlainIff(x);
    case Fact(x) => PlainIff(x);
    case Bin(_, l, r) => PlainIff(l); PlainIff(r);
    case Juxt(l, r) => PlainIff(l); PlainIff(r);
  }

  /** Printed as it stands, a tree reads back with its own value exactly when it is readable and nests at most 256
      deep: no parenthesis that Readable asks for can be spared. */
  lemma ReadsBackIff(e: Expr<Term>)
    requires PlainLeaves(e)
    ensures ParseExpression(Terms(), Render(e)) == Eval(Terms(), e) <==> Readable(e) && Nesting(e) <= 256
  {
    EvalIsTerm(e);
    PlainIff(e);
    if Readable(e) { ParsePrinted(Terms(), e); }
    if ParseExpression(Terms(), Render(e)) == Eval(Terms(), e) {
      var r := AcceptedTree(Terms(), Render(e));
      EvalIsTerm(r);
      PlainIff(r);
      Unique(e, r);
    }
  }

  /** So within the nesting limit it reads back right in every arithmetic exactly when it is readable. */
  lemma ReadsBackInEveryArithmeticIff(e: Expr<Term>)
    requires PlainLeaves(e) && Nesting(e) <= 256
    ensures (forall a: Arith<Term> :: ParseExpression(a, Render(e)) == Eval(a, e)) <==> Readable(e)
  {
    ReadsBackIff(e);
    if Readable(e) {
      forall a: Arith<Term> ensures ParseExpression(a, Render(e)) == Eval(a, e) { ParsePrinted(a, e); }
    }
  }

  /** d is e with some of its parentheses, or none, left out. */
  predicate Dropped<V(==)>(e: Expr<V>, d: Expr<V>) {
    || (e.Paren? && Dropped(e.e, d))
    || match e
       case Num(_) => d == e
       case Neg(x) => d.Neg? && Dropped(x, d.e)
       case Root(x) => d.Root? && Dropped(x, d.e)
       case Paren(x) => d.Paren? && Dropped(x, d.e)
       case Fact(x) => d.Fact? && Dropped(x, d.e)
       case Bin(op, l, r) => d.Bin? && d.op == op && Dropped(l, d.l) && Dropped(r, d.r)
       case Juxt(l, r) => d.Juxt? && Dropped(l, d.l) && Dropped(r, d.r)
  }

  /** A tree without parentheses of its own. */
  predicate Bare<V>(e: Expr<V>) {
    match e
    case Num(_) => true
    case Neg(x) => Bare(x)
    case Root(x) => Bare(x)
    case Paren(_) => false
    case Fact(x) => Bare(x)
    case Bin(_, l, r) => Bare(l) && Bare(r)
    case Juxt(l, r) => Bare(l) && Bare(r)
  }

  lemma {:induction false} DroppedKeeps(e: Expr<Term>, d: Expr<Term>)
    requires Dropped(e, d)
    ensures TermOf(d) == TermOf(e) && (PlainLeaves(d) <==> PlainLeaves(e))
    decreases e
  {
    if e.Paren? && Dropped(e.e, d) {
      DroppedKeeps(e.e, d);
    } else {
      match e
      case Num(_) =>
      case Neg(x) => DroppedKeeps(x, d.e);
      case Root(x) => DroppedKeeps(x, d.e);
      case Paren(x) => DroppedKeeps(x, d.e);
      case Fact(x) => DroppedKeeps(x, d.e);
      case Bin(_, l, r) => DroppedKeeps(l, d.l); DroppedKeeps(r, d.r);
      case Juxt(l, r) => DroppedKeeps(l, d.l); DroppedKeeps(r, d.r);
    }
  }

  lemma {:induction false} ParenthesiseKeeps(e: Expr<Term>)
    ensures TermOf(Parenthesise(e)) == TermOf(e) && (PlainLeaves(Parenthesise(e)) <==> PlainLeaves(e))
  {
    match e
    case Num(_) =>
    case Neg(x) => ParenthesiseKeeps(x);
    case Root(x) => ParenthesiseKeeps(x);
    case Paren(x) => ParenthesiseKeeps(x);
    case Fact(x) => ParenthesiseKeeps(x);
    case Bin(_, l, r) => ParenthesiseKeeps(l); ParenthesiseKeeps(r);
    case Juxt(l, r) => ParenthesiseKeeps(l); ParenthesiseKeeps(r);
  }

  /** An operand d of a readable tree, for which `fine` says whether it may stand bare. */
  lemma {:induction false} OperandKept<V>(x: Expr<V>, fine: bool, d: Expr<V>)
    requires Bare(x) && Readable(d) && Dropped(Wrap(Parenthesise(x), fine), d)
    requires d == Parenthesise(x) ==> fine
    ensures d == Wrap(Parenthesise(x), fine)
    decreases x, 1
  {
    var y := Parenthesise(x);
    if fine {
      NoneToSpare(x, d);
    } else if Dropped(y, d) {
      NoneToSpare(x, d);
    } else {
      NoneToSpare(x, d.e);
    }
  }

  /** Leaving out any of the inserted parentheses makes the tree unreadable. */
  lemma {:induction false} NoneToSpare<V>(e: Expr<V>, d: Expr<V>)
    requires Bare(e) && Dropped(Parenthesise(e), d) && Readable(d)
    ensures d == Parenthesise(e)
    decreases e, 0
  {
    match e
    case Num(_) =>
    case Neg(x) => OperandKept(x, FitsIn(Parenthesise(x), 3), d.e);
    case Root(x) => OperandKept(x, FitsIn(Parenthesise(x), 3), d.e);
    case Fact(x) => OperandKept(x, StopsAt(Parenthesise(x), Bang), d.e);
    case Bin(op, l, r) =>
      OperandKept(l, StopsAt(Parenthesise(l), Op(op)), d.l);
      OperandKept(r, FitsIn(Parenthesise(r), OpPrecedence(op) + 1), d.r);
    case Juxt(l, r) =>
      OperandKept(l, StopsAt(Parenthesise(l), LParen), d.l);
      OperandKept(r, FitsIn(Parenthesise(r), 3) && StartsWithParen(Parenthesise(r)), d.r);
  }

  /** And then the text no longer reads back: without one or more of the inserted parentheses it is refused, or has
      another value. */
  lemma ParenthesesNeeded(e: Expr<Term>, d: Expr<Term>)
    requires Bare(e) && PlainLeaves(e) && Dropped(Parenthesise(e), d) && d != Parenthesise(e)
    ensures ParseExpression(Terms(), Render(d)) != Eval(Terms(), e)
  {
    ParenthesiseKeeps(e);
    DroppedKeeps(Parenthesise(e), d);
    EvalIsTerm(e);
    EvalIsTerm(d);
    ReadsBackIff(d);
    if Readable(d) { NoneToSpare(e, d); }
  }
}
