/** The grammar behind `eval`: expressions as trees, what they spell and what
    they mean, and the proof that the machine reads exactly these trees. */
module EvalTree {
  import opened Words
  import opened Arith
  import opened Eval

  /** An operand is spelled NOT^n, then optionally a minus sign and NOT^m, then
      a base; a binary node is spelled in infix order without brackets. */
  datatype Tree =
    | Prim(n: nat, minus: bool, m: nat, base: Base)
    | Bin(op: BinOp, l: Tree, r: Tree)

  datatype Base = Lit(v: Value) | Test(named: bool, outcome: int32) | Paren(e: Tree)

  function Level(t: Tree): nat {
    match t case Prim(_, _, _, _) => 6 case Bin(op, _, _) => Prec(op)
  }

  /** NOT groups cancel in pairs, so only two prefixes can be pending: after an
      odd number of NOTs and a minus sign nothing more may follow. */
  predicate PrefixOk(n: nat, minus: bool, m: nat, first: bool) {
    && (!minus ==> m == 0)
    && (minus && n % 2 == 1 ==> m == 0)
    && (minus ==> first || n > 0)
  }

  /** The first operator binds tighter than the second: `^`, then
      `* / \\ MOD`, then `+ -`, then comparisons, then logic. */
  predicate Tighter(p: BinOp, q: BinOp) {
    match p
    case Caret => !q.Caret?
    case MulK(_) => q.AddK? || q.Cmp? || q.Logic?
    case AddK(_) => q.Cmp? || q.Logic?
    case Cmp(_) => q.Logic?
    case Logic(_) => false
  }

  /** A minus sign may begin the operand after these. */
  predicate SignAfter(op: BinOp) { op.Caret? || op.Cmp? || op.Logic? }

  /** The machine's numbers order the operators so. */
  lemma TighterIs(p: BinOp, q: BinOp)
    ensures Tighter(p, q) <==> Prec(p) > Prec(q)
    ensures FirstAfter(p) <==> SignAfter(p)
  {
    match (p, q)
    case (_, _) =>
  }

  lemma Levels(op: BinOp, l: Tree, r: Tree)
    requires (l.Bin? ==> !Tighter(op, l.op)) && (r.Bin? ==> Tighter(r.op, op))
    ensures Level(l) >= Prec(op) && Level(r) > Prec(op)
  {
    if l.Bin? { TighterIs(op, l.op); }
    if r.Bin? { TighterIs(r.op, op); }
  }

  /** Left-associative grouping by precedence. `first` says whether the leftmost
      operand may begin with a minus sign or be a string comparison. */
  predicate WellFormed(t: Tree, first: bool) {
    match t
    case Prim(n, minus, m, base) =>
      && PrefixOk(n, minus, m, first)
      && (base.Test? ==> first || n > 0)
      && (base.Paren? ==> WellFormed(base.e, true))
    case Bin(op, l, r) =>
      && (l.Bin? ==> !Tighter(op, l.op)) && WellFormed(l, first)
      && (r.Bin? ==> Tighter(r.op, op)) && WellFormed(r, SignAfter(op))
  }

  function Nots(n: nat, x: Text): Text {
    if n == 0 then x else Sym(NotTok, Nots(n - 1, x))
  }

  function Prefix(n: nat, minus: bool, m: nat, x: Text): Text {
    Nots(n, if minus then Sym(MINUS, Nots(m, x)) else x)
  }

  /** The text that spells a tree and goes on with `x`. */
  function Spell(t: Tree, x: Text): Text
    decreases t
  {
    match t
    case Prim(n, minus, m, Lit(v)) => Prefix(n, minus, m, Sym(Operand(v), x))
    case Prim(n, minus, m, Test(named, o)) => Prefix(n, minus, m, Sym(Str(named, o), x))
    case Prim(n, minus, m, Paren(e)) => Prefix(n, minus, m, Sym(Open, Spell(e, Sym(Close, x))))
    case Bin(op, l, r) => Spell(l, Sym(Op(op), Spell(r, x)))
  }

  function Repeat(A: Algebra, odd: bool, u: Unary, v: Value): Value { if odd then A.unary(u, v) else v }

  function WithPrefix(A: Algebra, n: nat, minus: bool, m: nat, o: Outcome<Value>): Outcome<Value> {
    if !o.Ok? then o
    else Ok(Repeat(A, n % 2 == 1, SetNot, Repeat(A, minus, SetMinus, Repeat(A, m % 2 == 1, SetNot, o.value))))
  }

  /** Plain tree evaluation, left operand first; a pair of NOTs is the
      identity. */
  function Meaning(A: Algebra, t: Tree): Outcome<Value> {
    match t
    case Prim(n, minus, m, Lit(v)) => WithPrefix(A, n, minus, m, Ok(v))
    case Prim(n, minus, m, Test(_, o)) => WithPrefix(A, n, minus, m, Ok(I(o)))
    case Prim(n, minus, m, Paren(e)) => WithPrefix(A, n, minus, m, Meaning(A, e))
    case Bin(op, l, r) =>
      if !Meaning(A, l).Ok? then Meaning(A, l)
      else if !Meaning(A, r).Ok? then Meaning(A, r)
      else A.binary(op, Meaning(A, l).value, Meaning(A, r).value)
  }

  // ---------------------------------------------------------------- prefixes

  function Pending0(n: nat, minus: bool, m: nat): Unary {
    if minus then if m % 2 == 1 then SetNot else SetMinus
    else if n % 2 == 1 then SetNot else NoUnary
  }

  function Pending1(n: nat, minus: bool, m: nat): Unary {
    if !minus then NoUnary
    else if m % 2 == 1 then SetMinus
    else if n % 2 == 1 then SetNot else NoUnary
  }

  lemma {:induction false} ReadNots(n: nat, x: Text, first: bool)
    ensures ScanPrefix(Nots(n, x), NoUnary, NoUnary, first)
            == ScanPrefix(x, Pending0(n, false, 0), NoUnary, first || n > 0)
  {
    if n >= 2 {
      assert Nots(n, x).rest == Nots(n - 1, x) && Nots(n - 1, x).rest == Nots(n - 2, x);
      ReadNots(n - 2, x, true);
    }
  }

  lemma {:induction false} ReadNotsAfterMinus(m: nat, x: Text)
    ensures ScanPrefix(Nots(m, x), SetMinus, NoUnary, true)
            == if m % 2 == 1 then ScanPrefix(x, SetNot, SetMinus, true) else ScanPrefix(x, SetMinus, NoUnary, true)
  {
    if m >= 2 {
      assert Nots(m, x).rest == Nots(m - 1, x) && Nots(m - 1, x).rest == Nots(m - 2, x);
      ReadNotsAfterMinus(m - 2, x);
    }
  }

  /** The register of pending prefixes reads any legal prefix. */
  lemma ReadPrefix(n: nat, minus: bool, m: nat, x: Text, first: bool)
    requires PrefixOk(n, minus, m, first)
    ensures ScanPrefix(Prefix(n, minus, m, x), NoUnary, NoUnary, first)
            == ScanPrefix(x, Pending0(n, minus, m), Pending1(n, minus, m), first || n > 0)
  {
    ReadNots(n, if minus then Sym(MINUS, Nots(m, x)) else x, first);
    if minus && n % 2 == 0 { ReadNotsAfterMinus(m, x); }
  }

  // ---------------------------------------------------------------- every tree is read back

  function Then(A: Algebra, p: nat, v: Outcome<Value>, x: Text): Result
    requires 1 <= p
  {
    if v.Ok? then Climb(A, p, v.value, x) else Ending(v, x)
  }

  lemma PendingMeans(A: Algebra, n: nat, minus: bool, m: nat, first: bool, v: Value)
    requires PrefixOk(n, minus, m, first)
    ensures Ok(ApplyUnaries(A, Pending0(n, minus, m), Pending1(n, minus, m), v)) == WithPrefix(A, n, minus, m, Ok(v))
  {
  }

  /** An operand, given what its base reads as. */
  lemma ReadPrefixed(A: Algebra, n: nat, minus: bool, m: nat, first: bool, c: Token, y: Text, o: Outcome<Value>, x: Text)
    requires PrefixOk(n, minus, m, first) && c != NotTok && !c.Op?
    requires BaseOf(A, c, y, first || n > 0) == Ending(o, x)
    ensures Primary(A, Prefix(n, minus, m, Sym(c, y)), first) == Ending(WithPrefix(A, n, minus, m, o), x)
  {
    ReadPrefix(n, minus, m, Sym(c, y), first);
    if o.Ok? { PendingMeans(A, n, minus, m, first, o.value); }
    var text := Prefix(n, minus, m, Sym(c, y));
    assert ScanPrefix(text, NoUnary, NoUnary, first) == At(Pending0(n, minus, m), Pending1(n, minus, m), first || n > 0, c, y);
    assert Primary(A, text, first)
        == var b := BaseOf(A, c, y, first || n > 0);
           if b.Read? then Read(ApplyUnaries(A, Pending0(n, minus, m), Pending1(n, minus, m), b.v), b.rest) else b;
  }

  lemma {:induction false} ReadPrim(A: Algebra, t: Tree, x: Text, first: bool)
    requires t.Prim? && WellFormed(t, first)
    ensures Primary(A, Spell(t, x), first) == Ending(Meaning(A, t), x)
    decreases t, 0
  {
    match t
    case Prim(n, minus, m, Lit(v)) =>
      ReadPrefixed(A, n, minus, m, first, Operand(v), x, Ok(v), x);
    case Prim(n, minus, m, Test(named, o)) =>
      ReadPrefixed(A, n, minus, m, first, Str(named, o), x, Ok(I(o)), x);
    case Prim(n, minus, m, Paren(e)) =>
      ReadTree(A, 1, e, Sym(Close, x), true);
      ReadPrefixed(A, n, minus, m, first, Open, Spell(e, Sym(Close, x)), Meaning(A, e), x);
  }

  /** A tree of level at least `p`, followed by nothing that could extend it, is
      read as one operand of an expression of level `p`. */
  lemma {:induction false} ReadTree(A: Algebra, p: nat, t: Tree, x: Text, first: bool)
    requires 1 <= p <= Level(t) && WellFormed(t, first) && NextPrec(x) <= Level(t)
    ensures Phrase(A, p, Spell(t, x), first) == Then(A, p, Meaning(A, t), x)
    decreases t, 1
  {
    match t
    case Prim(_, _, _, _) => ReadPrim(A, t, x, first);
    case Bin(op, l, r) =>
      var y := Sym(Op(op), Spell(r, x));
      Levels(op, l, r);
      TighterIs(op, op);
      ReadTree(A, p, l, y, first);
      if Meaning(A, l).Ok? {
        ReadTree(A, Prec(op) + 1, r, x, FirstAfter(op));
        ReadOperator(A, p, op, Meaning(A, l).value, Spell(r, x), Meaning(A, r), x);
      }
  }

  lemma ReadOperator(A: Algebra, p: nat, op: BinOp, a: Value, y: Text, r: Outcome<Value>, x: Text)
    requires 1 <= p <= Prec(op) && NextPrec(x) <= Prec(op)
    requires Phrase(A, Prec(op) + 1, y, FirstAfter(op)) == Then(A, Prec(op) + 1, r, x)
    ensures Climb(A, p, a, Sym(Op(op), y))
            == if r.Ok? then Then(A, p, A.binary(op, a, r.value), x) else Ending(r, x)
  {
  }

  /** Every well-formed expression, whatever follows it short of another
      operator, evaluates to the value of its tree, and a failing one fails as
      the tree does. */
  lemma MachineMeetsTree(A: Algebra, t: Tree, x: Text)
    requires WellFormed(t, true) && NextPrec(x) == 0
    ensures Expression(A, Spell(t, x)) == Ending(Meaning(A, t), x)
  {
    ReadTree(A, 1, t, x, true);
  }

  // ---------------------------------------------------------------- nothing else is read

  /** A scan that succeeds has read a legal prefix: the one read so far,
      (n, minus, m), extended. */
  lemma {:induction false} ScannedPrefix(x: Text, first: bool, n: nat, minus: bool, m: nat)
    returns (n': nat, minus': bool, m': nat)
    requires PrefixOk(n, minus, m, first)
    requires ScanPrefix(x, Pending0(n, minus, m), Pending1(n, minus, m), first || n > 0).At?
    ensures PrefixOk(n', minus', m', first)
    ensures var s := ScanPrefix(x, Pending0(n, minus, m), Pending1(n, minus, m), first || n > 0);
            && s == At(Pending0(n', minus', m'), Pending1(n', minus', m'), first || n' > 0, s.c, s.rest)
            && Prefix(n, minus, m, x) == Prefix(n', minus', m', Sym(s.c, s.rest))
    decreases x
  {
    if x.c == MINUS && (first || n > 0) {
      n', minus', m' := ScannedPrefix(x.rest, first, n, true, 0);
    } else if x.c == NotTok && minus {
      NotsSnoc(m, x.rest);
      n', minus', m' := ScannedPrefix(x.rest, first, n, true, m + 1);
    } else if x.c == NotTok {
      NotsSnoc(n, x.rest);
      n', minus', m' := ScannedPrefix(x.rest, first, n + 1, false, 0);
    } else {
      n', minus', m' := n, minus, m;
    }
  }

  lemma {:induction false} NotsSnoc(n: nat, x: Text)
    ensures Nots(n, Sym(NotTok, x)) == Nots(n + 1, x)
  {
    if n > 0 { NotsSnoc(n - 1, x); }
  }

  lemma {:induction false} PrimaryTree(A: Algebra, x: Text, first: bool) returns (t: Tree)
    requires Primary(A, x, first).Read?
    ensures t.Prim? && WellFormed(t, first)
    ensures Meaning(A, t) == Ok(Primary(A, x, first).v) && x == Spell(t, Primary(A, x, first).rest)
    decreases Len(x), 0
  {
    var n, minus, m := ScannedPrefix(x, first, 0, false, 0);
    var s := ScanPrefix(x, NoUnary, NoUnary, first);
    match s.c {
      case Operand(v) =>
        t := Prim(n, minus, m, Base.Lit(v));
      case Str(named, o) =>
        t := Prim(n, minus, m, Test(named, o));
      case Open =>
        var e := ExpressionTree(A, s.rest);
        t := Prim(n, minus, m, Paren(e));
    }
  }

  /** Extends the tree `l` by the operators that follow it. */
  lemma {:induction false} ClimbTree(A: Algebra, p: nat, first: bool, l: Tree, v: Value, x: Text) returns (t: Tree)
    requires 1 <= p <= Level(l) && WellFormed(l, first) && NextPrec(x) <= Level(l)
    requires Meaning(A, l) == Ok(v) && Climb(A, p, v, x).Read?
    ensures p <= Level(t) && WellFormed(t, first)
    ensures var r := Climb(A, p, v, x);
            Meaning(A, t) == Ok(r.v) && Spell(l, x) == Spell(t, r.rest) && NextPrec(r.rest) < p
    decreases Len(x), 0
  {
    if NextPrec(x) < p {
      return l;
    }
    var op, i := x.c.op, NextPrec(x);
    var o := Primary(A, x.rest, FirstAfter(op));
    var u := PrimaryTree(A, x.rest, FirstAfter(op));
    var c := Climb(A, i + 1, o.v, o.rest);
    assert Phrase(A, i + 1, x.rest, FirstAfter(op)) == c;
    var r := ClimbTree(A, i + 1, FirstAfter(op), u, o.v, o.rest);
    if l.Bin? { TighterIs(op, l.op); }
    if r.Bin? { TighterIs(r.op, op); }
    TighterIs(op, op);
    t := ClimbTree(A, p, first, Tree.Bin(op, l, r), A.binary(op, v, c.v).value, c.rest);
  }

  /** Conversely, whatever the machine accepts is the spelling of a well-formed
      tree with the value returned, ended by a non-operator. */
  lemma {:induction false} ExpressionTree(A: Algebra, x: Text) returns (t: Tree)
    requires Expression(A, x).Read?
    ensures WellFormed(t, true) && Meaning(A, t) == Ok(Expression(A, x).v)
    ensures x == Spell(t, Expression(A, x).rest) && NextPrec(Expression(A, x).rest) == 0
    decreases Len(x), 1
  {
    var o := Primary(A, x, true);
    var u := PrimaryTree(A, x, true);
    t := ClimbTree(A, 1, true, u, o.v, o.rest);
  }

  ghost predicate Reads(A: Algebra, x: Text, t: Tree, v: Value, rest: Text) {
    WellFormed(t, true) && x == Spell(t, rest) && NextPrec(rest) == 0 && Meaning(A, t) == Ok(v)
  }

  /** Both directions at once: the machine returns `v` before `rest` exactly
      when the text is some well-formed tree of that value, then `rest`. */
  lemma MachineIffTree(A: Algebra, x: Text, v: Value, rest: Text)
    ensures Expression(A, x) == Read(v, rest) <==> exists t :: Reads(A, x, t, v, rest)
  {
    if Expression(A, x) == Read(v, rest) {
      var t := ExpressionTree(A, x);
      assert Reads(A, x, t, v, rest);
    }
    forall t | Reads(A, x, t, v, rest)
      ensures Expression(A, x) == Read(v, rest)
    {
      MachineMeetsTree(A, t, rest);
    }
  }

  // ---------------------------------------------------------------- short texts

  /** What ends an expression. */
  predicate Ends(x: Text) { x.End? || !x.c.Op? }

  function Applied(A: Algebra, op: BinOp, a: Outcome<Value>, b: Outcome<Value>): Outcome<Value> {
    if !a.Ok? then a else if !b.Ok? then b else A.binary(op, a.value, b.value)
  }

  function Plain(v: Value): Tree { Prim(0, false, 0, Base.Lit(v)) }

  /** The grouping of three operands: the second operator goes first exactly when
      it binds tighter. */
  lemma Grouping(A: Algebra, a: Value, p: BinOp, b: Value, q: BinOp, c: Value, x: Text)
    requires Ends(x)
    ensures Expression(A, Sym(Operand(a), Sym(Op(p), Sym(Operand(b), Sym(Op(q), Sym(Operand(c), x))))))
            == Ending(if Tighter(q, p) then Applied(A, p, Ok(a), Applied(A, q, Ok(b), Ok(c)))
                      else Applied(A, q, Applied(A, p, Ok(a), Ok(b)), Ok(c)), x)
  {
    var t := if Tighter(q, p) then Tree.Bin(p, Plain(a), Tree.Bin(q, Plain(b), Plain(c)))
             else Tree.Bin(q, Tree.Bin(p, Plain(a), Plain(b)), Plain(c));
    MachineMeetsTree(A, t, x);
    if Tighter(q, p) {
      SpellNested(a, p, b, q, c, x);
      MeaningOf(A, q, Plain(b), Plain(c));
      MeaningOf(A, p, Plain(a), t.r);
    } else {
      SpellLeft(a, p, b, q, c, x);
      MeaningOf(A, p, Plain(a), Plain(b));
      MeaningOf(A, q, t.l, Plain(c));
    }
  }

  lemma MeaningOf(A: Algebra, op: BinOp, l: Tree, r: Tree)
    ensures Meaning(A, Tree.Bin(op, l, r)) == Applied(A, op, Meaning(A, l), Meaning(A, r))
    ensures l.Prim? && l.base.Lit? && l == Plain(l.base.v) ==> Meaning(A, l) == Ok(l.base.v)
    ensures r.Prim? && r.base.Lit? && r == Plain(r.base.v) ==> Meaning(A, r) == Ok(r.base.v)
  {
  }

  lemma SpellNested(a: Value, p: BinOp, b: Value, q: BinOp, c: Value, x: Text)
    ensures Spell(Tree.Bin(p, Plain(a), Tree.Bin(q, Plain(b), Plain(c))), x)
            == Sym(Operand(a), Sym(Op(p), Sym(Operand(b), Sym(Op(q), Sym(Operand(c), x)))))
  {
    SpellPlain(c, x);
    SpellPlain(b, Sym(Op(q), Sym(Operand(c), x)));
    SpellPlain(a, Sym(Op(p), Sym(Operand(b), Sym(Op(q), Sym(Operand(c), x)))));
  }

  lemma SpellLeft(a: Value, p: BinOp, b: Value, q: BinOp, c: Value, x: Text)
    ensures Spell(Tree.Bin(q, Tree.Bin(p, Plain(a), Plain(b)), Plain(c)), x)
            == Sym(Operand(a), Sym(Op(p), Sym(Operand(b), Sym(Op(q), Sym(Operand(c), x)))))
  {
    var y := Sym(Op(q), Sym(Operand(c), x));
    SpellPlain(c, x);
    SpellPlain(b, y);
    SpellPlain(a, Sym(Op(p), Sym(Operand(b), y)));
    assert Spell(Tree.Bin(p, Plain(a), Plain(b)), y) == Sym(Operand(a), Sym(Op(p), Sym(Operand(b), y)));
  }

  lemma SpellPlain(v: Value, x: Text)
    ensures Spell(Plain(v), x) == Sym(Operand(v), x)
  {
  }

  /** A minus sign right after an operator: a sign after `^`, comparisons and
      logic, a syntax error after `* / \\ MOD + -`. */
  lemma MinusAfter(A: Algebra, a: Value, op: BinOp, b: Value, x: Text)
    requires Ends(x)
    ensures Expression(A, Sym(Operand(a), Sym(Op(op), Sym(MINUS, Sym(Operand(b), x)))))
            == if op.MulK? || op.AddK? then Stop(1) else Ending(A.binary(op, a, A.unary(SetMinus, b)), x)
  {
    var y := Sym(MINUS, Sym(Operand(b), x));
    var text := Sym(Operand(a), Sym(Op(op), y));
    if op.MulK? || op.AddK? {
      assert Primary(A, text, true) == Read(a, Sym(Op(op), y));
      assert ScanPrefix(y, NoUnary, NoUnary, false) == At(NoUnary, NoUnary, false, MINUS, y.rest);
      assert Primary(A, y, false) == Stop(SYNTAX);
      assert Phrase(A, Prec(op) + 1, y, false) == Stop(SYNTAX);
      assert Climb(A, 1, a, Sym(Op(op), y)) == Stop(SYNTAX);
    } else {
      var t := Tree.Bin(op, Plain(a), Prim(0, true, 0, Base.Lit(b)));
      SpellPlain(a, Sym(Op(op), y));
      MachineMeetsTree(A, t, x);
    }
  }

  /** Prefixes apply from the operand outwards. */
  lemma Prefixes(A: Algebra, v: Value, x: Text)
    requires Ends(x)
    ensures Expression(A, Sym(NotTok, Sym(Operand(v), x))) == Read(A.unary(SetNot, v), x)
    ensures Expression(A, Sym(MINUS, Sym(Operand(v), x))) == Read(A.unary(SetMinus, v), x)
    ensures Expression(A, Sym(NotTok, Sym(MINUS, Sym(Operand(v), x)))) == Read(A.unary(SetNot, A.unary(SetMinus, v)), x)
    ensures Expression(A, Sym(MINUS, Sym(NotTok, Sym(Operand(v), x)))) == Read(A.unary(SetMinus, A.unary(SetNot, v)), x)
    ensures Expression(A, Sym(NotTok, Sym(NotTok, Sym(Operand(v), x)))) == Read(v, x)
  {
    OnePrefix(A, 1, false, 0, v, x);
    OnePrefix(A, 0, true, 0, v, x);
    OnePrefix(A, 1, true, 0, v, x);
    OnePrefix(A, 0, true, 1, v, x);
    OnePrefix(A, 2, false, 0, v, x);
    assert Nots(1, Sym(Operand(v), x)) == Sym(NotTok, Nots(0, Sym(Operand(v), x)));
    assert Nots(2, Sym(Operand(v), x)) == Sym(NotTok, Nots(1, Sym(Operand(v), x)));
  }

  lemma OnePrefix(A: Algebra, n: nat, minus: bool, m: nat, v: Value, x: Text)
    requires Ends(x) && PrefixOk(n, minus, m, true)
    ensures Expression(A, Prefix(n, minus, m, Sym(Operand(v), x))) == Ending(WithPrefix(A, n, minus, m, Ok(v)), x)
  {
    MachineMeetsTree(A, Prim(n, minus, m, Base.Lit(v)), x);
  }

  // ---------------------------------------------------------------- the interpreter's own table

  function OperatorOf(op: ArithOp): BinOp {
    match op
    case Plus => AddK(true)
    case Minus => AddK(false)
    case Star => MulK(Times)
    case Over => MulK(Slash)
  }

  /** An arithmetic expression with every operand bracketed. */
  function Bracketed(e: Expr): Tree {
    match e
    case Lit(n) => Prim(0, false, 0, Base.Lit(I(n)))
    case Neg(a) => Prim(0, true, 0, Paren(Bracketed(a)))
    case Bin(op, l, r) =>
      Tree.Bin(OperatorOf(op), Prim(0, false, 0, Paren(Bracketed(l))), Prim(0, false, 0, Paren(Bracketed(r))))
  }

  lemma TableEntry(libm: (real, real) -> real, op: ArithOp, a: Value, b: Value)
    ensures Basic(libm).binary(OperatorOf(op), a, b) == RunOp(op, a, b)
  {
    match op
    case Plus => case Minus => case Star => case Over =>
  }

  predicate FourRules(op: BinOp) { op.AddK? || op == MulK(Times) || op == MulK(Slash) }

  /** Trees over integer literals with + - * /, brackets where the writer wants
      them and at most a minus sign before an operand. */
  predicate Arithmetic(t: Tree) {
    match t
    case Prim(n, _, m, base) =>
      n == 0 && m == 0 && ((base.Lit? && base.v.I?) || (base.Paren? && Arithmetic(base.e)))
    case Bin(op, l, r) => FourRules(op) && Arithmetic(l) && Arithmetic(r)
  }

  function OperationOf(op: BinOp): ArithOp
    requires FourRules(op)
  {
    if op == AddK(true) then Plus else if op == AddK(false) then Minus else if op == MulK(Times) then Star else Over
  }

  /** The arithmetic expression behind a tree, brackets forgotten. */
  function Erase(t: Tree): Expr
    requires Arithmetic(t)
  {
    match t
    case Prim(_, minus, _, base) =>
      var e := if base.Lit? then Expr.Lit(base.v.i) else Erase(base.e);
      if minus then Neg(e) else e
    case Bin(op, l, r) => Expr.Bin(OperationOf(op), Erase(l), Erase(r))
  }

  /** The machine's operators on a tree compute what they compute on its
      expression. */
  lemma {:induction false} ErasedMeaning(libm: (real, real) -> real, t: Tree)
    requires Arithmetic(t)
    ensures Meaning(Basic(libm), t) == Run(Erase(t))
  {
    match t
    case Prim(_, _, _, base) =>
      if base.Paren? { ErasedMeaning(libm, base.e); }
    case Bin(op, l, r) =>
      ErasedMeaning(libm, l);
      ErasedMeaning(libm, r);
      var a, b := Run(Erase(l)), Run(Erase(r));
      if a.Ok? && b.Ok? {
        assert OperatorOf(OperationOf(op)) == op;
        TableEntry(libm, OperationOf(op), a.value, b.value);
      }
  }

  /** From token text to rational number: the text of any arithmetic expression,
      grouped by precedence and brackets as its tree says, evaluates to the
      exact value of that grouping whenever no divisor is zero and no quotient
      is the undefined one. */
  lemma EndToEnd(libm: (real, real) -> real, t: Tree, x: Text)
    requires WellFormed(t, true) && Arithmetic(t) && NextPrec(x) == 0 && !HasMinByMinusOne(Erase(t))
    ensures var r := Expression(Basic(libm), Spell(t, x));
            match Exact(Erase(t))
            case Some(q) => r.Read? && Arith.Num(r.v) == q && r.rest == x
            case None => r == Stop(25)
  {
    ErasedMeaning(libm, t);
    MachineMeetsTree(Basic(libm), t, x);
    PromotionExact(Erase(t));
  }

  /** Every expression is the expression of such a tree. */
  lemma {:induction false} EveryExpression(e: Expr)
    ensures Arithmetic(Bracketed(e)) && WellFormed(Bracketed(e), true) && Erase(Bracketed(e)) == e
  {
    match e
    case Lit(n) =>
    case Neg(a) => EveryExpression(a);
    case Bin(op, l, r) =>
      EveryExpression(l);
      EveryExpression(r);
      assert OperationOf(OperatorOf(op)) == op;
  }
}
