/** `eval` of bas3.c: the operator-precedence machine with its six-slot stack,
    unary prefixes and recursive brackets, against a tree evaluator. */
module Eval {
  import opened Words
  import opened Arith

  datatype CmpOp = Eq | Le | Ne | Lt | Ge | Gt | Aprx
  datatype LogicOp = And | Or | Xor | Imp | Eqv
  datatype BinOp = Caret | MulK(m: MulOp) | AddK(plus: bool) | Cmp(c: CmpOp) | Logic(g: LogicOp)

  /** One symbol of the tokenised line. A number, variable or function call is
      `Operand` with its value; a whole string comparison is `Str`. The minus
      sign is the same token as a unary and as a binary operator. */
  datatype Token =
    | Operand(v: Value)
    | Str(named: bool, outcome: int32)
    | NotTok
    | Open
    | Close
    | Op(op: BinOp)
    | Other

  const MINUS: Token := Op(AddK(false))
  const VARREQD: nat := 2

  function Prec(op: BinOp): (i: nat)
    ensures 1 <= i <= 5
  {
    match op
    case Caret => 5
    case MulK(_) => 4
    case AddK(_) => 3
    case Cmp(_) => 2
    case Logic(_) => 1
  }

  /** A minus sign may follow an operator as a unary one unless that operator
      is one of `* / \ MOD + -`. */
  predicate FirstAfter(op: BinOp) { !op.MulK? && !op.AddK? }

  /** The rest of the line from `point` on. */
  datatype Text = End | Sym(c: Token, rest: Text)

  function Len(x: Text): nat {
    match x case End => 0 case Sym(_, rest) => 1 + Len(rest)
  }

  /** Precedence of the next symbol, 0 for anything that ends an expression. */
  function NextPrec(x: Text): (i: nat)
    ensures i <= 5
    ensures i > 0 ==> x.Sym? && x.c.Op? && i == Prec(x.c.op)
  {
    if x.Sym? && x.c.Op? then Prec(x.c.op) else 0
  }

  // ---------------------------------------------------------------- binary operators

  function Holds(c: CmpOp, sign: int): bool {
    match c
    case Eq => sign == 0
    case Le => sign <= 0
    case Ne => sign != 0
    case Lt => sign < 0
    case Ge => sign >= 0
    case Gt => sign > 0
    case Aprx => false
  }

  function Sign(a: Value, b: Value): int {
    if a.I? && b.I? then
      if a.i == b.i then 0 else if a.i < b.i then -1 else 1
    else if Num(a) == Num(b) then 0 else if Num(a) < Num(b) then -1 else 1
  }

  const APRXVAL: real := 0.000000001

  predicate Near(p: real, q: real) {
    p == q ||
    var x := if q == 0.0 then p else if p == 0.0 then q
             else if p / q < 0.0 then p / q + 1.0 else p / q - 1.0;
    -APRXVAL <= x <= APRXVAL
  }

  function Truth(b: bool): Value { I(if b then -1 else 0) }

  function Compare(c: CmpOp, a: Value, b: Value): Value {
    if c != Aprx then Truth(Holds(c, Sign(a, b)))
    else if a.I? && b.I? then Truth(a.i == b.i)
    else Truth(Near(Num(a), Num(b)))
  }

  function BitRule(g: LogicOp): (bool, bool) -> bool {
    match g
    case And => (i, j) => i && j
    case Or => (i, j) => i || j
    case Xor => (i, j) => i != j
    case Imp => (i, j) => !i || (i && j)
    case Eqv => (i, j) => !(i != j)
  }

  function Bitwise(g: LogicOp, x: int32, y: int32): int32 {
    ToSigned(Zip32(BitRule(g), ToWord(x), ToWord(y)))
  }

  function Flag(v: Value): int32 { if Num(v) == 0.0 then 0 else -1 }

  function Combine(g: LogicOp, a: Value, b: Value): Value {
    if a.I? && b.I? then I(Bitwise(g, a.i, b.i)) else I(Bitwise(g, Flag(a), Flag(b)))
  }

  /** The meaning of a binary operator after both operands are brought to one
      type. */
  function Apply(libm: (real, real) -> real, op: BinOp, a: Value, b: Value): Outcome<Value> {
    match op
    case Caret => if a.I? && b.I? then Pow(libm, a.i, b.i) else FPow(libm, Num(a), Num(b))
    case MulK(m) => ApplyMulDiv(m, a, b)
    case AddK(plus) => Ok(ApplyAddSub(plus, a, b))
    case Cmp(c) => Ok(Compare(c, a, b))
    case Logic(g) => Ok(Combine(g, a, b))
  }

  /** `cmp`, after both operands are brought to one type. */
  method CmpValues(p: Value, q: Value) returns (reslt: int)
    requires p.I? == q.I?
    ensures reslt == Sign(p, q)
  {
    if p.I? {
      if p.i == q.i {
        return 0;
      } else if p.i < q.i {
        return -1;
      }
      return 1;
    }
    if p.f == q.f {
      return 0;
    } else if p.f < q.f {
      return -1;
    }
    return 1;
  }

  /** `compare`: the operator against the sign of the difference. */
  method CompareSign(c: CmpOp, reslt: int) returns (r: Outcome<Value>)
    ensures r == if c == Aprx then Err(SYNTAX) else Ok(Truth(Holds(c, reslt)))
  {
    var yes := false;
    if c == Eq {
      yes := reslt == 0;
    } else if c == Le {
      yes := reslt <= 0;
    } else if c == Ne {
      yes := reslt != 0;
    } else if c == Lt {
      yes := reslt < 0;
    } else if c == Ge {
      yes := reslt >= 0;
    } else if c == Gt {
      yes := reslt > 0;
    } else {
      return Err(SYNTAX);
    }
    return Ok(I(if yes then -1 else 0));
  }

  /** `aprx`; what it means is `Operators.NearIs`. */
  method AprxValues(p: Value, q: Value) returns (near: bool)
    requires p.I? == q.I?
    ensures near == if p.I? then p.i == q.i else Near(p.f, q.f)
  {
    if p.I? {
      return p.i == q.i;
    }
    if p.f == q.f {
      return true;
    }
    var x: real;
    if q.f == 0.0 {
      x := p.f;
    } else if p.f == 0.0 {
      x := q.f;
    } else {
      x := p.f / q.f;
      if x < 0.0 {
        x := x + 1.0;
      } else {
        x := x - 1.0;
      }
    }
    if x < 0.0 {
      return x >= -APRXVAL;
    }
    return x <= APRXVAL;
  }

  /** `comop`. */
  method ComOp(p: Value, q: Value, c: CmpOp) returns (r: Outcome<Value>)
    requires p.I? == q.I?
    ensures r == Ok(Compare(c, p, q))
  {
    if c == Aprx {
      var near := AprxValues(p, q);
      return Ok(I(if near then -1 else 0));
    }
    var reslt := CmpValues(p, q);
    r := CompareSign(c, reslt);
  }

  /** `andor`: the operators of C on whole words. */
  method AndOr(p: int32, q: int32, g: LogicOp) returns (r: int32)
    ensures r == Bitwise(g, p, q)
  {
    var i: word, j: word := ToWord(p), ToWord(q);
    WordRules(g, i, j);
    match g
    case And => r := ToSigned(AndBits(i, j));
    case Or => r := ToSigned(OrBits(i, j));
    case Xor => r := ToSigned(XorBits(i, j));
    case Imp => r := ToSigned(OrBits(NotBits(i), AndBits(i, j)));
    case Eqv => r := ToSigned(NotBits(XorBits(i, j)));
  }

  /** The word expressions of `andor` are the bit rules. */
  lemma WordRules(g: LogicOp, i: word, j: word)
    ensures Zip32(BitRule(g), i, j) == match g
                                       case And => AndBits(i, j)
                                       case Or => OrBits(i, j)
                                       case Xor => XorBits(i, j)
                                       case Imp => OrBits(NotBits(i), AndBits(i, j))
                                       case Eqv => NotBits(XorBits(i, j))
  {
    Pow2Of32();
    var or := (a: bool, b: bool) => a || b;
    match g
    case And => ZipSame(BitRule(g), (a, b) => a && b, WIDTH, i, j);
    case Or => OrIsZip(BitRule(g), WIDTH, i, j);
    case Xor => ZipSame(BitRule(g), (a, b) => a != b, WIDTH, i, j);
    case Imp =>
      OrIsZip(or, WIDTH, NotBits(i), AndBits(i, j));
      ZipNested(or, (a, b) => a && b, BitRule(g), WIDTH, i, j);
    case Eqv => ZipComplement((a, b) => a != b, BitRule(g), WIDTH, i, j);
  }

  /** `fandor`: reals count as their truth value. */
  method FAndOr(p: real, q: real, g: LogicOp) returns (r: int32)
    ensures r == Bitwise(g, Flag(R(p)), Flag(R(q)))
  {
    var i: int32 := if p == 0.0 then 0 else -1;
    var j: int32 := if q == 0.0 then 0 else -1;
    r := AndOr(i, j, g);
  }

  /** Conversion to one type and dispatch through the table `mbin`. */
  method MBin(libm: (real, real) -> real, op: BinOp, r1: Value, res: Value) returns (r: Outcome<Value>)
    ensures r == Apply(libm, op, r1, res)
  {
    var p, q := r1, res;
    if p.I? != q.I? {
      if q.I? {
        q := R(q.i as real);
      } else {
        p := R(p.i as real);
      }
    }
    match op
    case Caret =>
      if p.I? {
        r := Ex(libm, p.i, q.i);
      } else {
        r := FPow(libm, p.f, q.f);
      }
    case MulK(m) =>
      if p.I? {
        r := Mdm(p.i, q.i, m);
      } else {
        r := FMulDiv(m, p.f, q.f);
      }
    case AddK(plus) =>
      if p.I? {
        var s := Ads(p.i, q.i, plus);
        r := Ok(s);
      } else {
        r := Ok(R(if plus then p.f + q.f else p.f - q.f));
      }
    case Cmp(c) => r := ComOp(p, q, c);
    case Logic(g) =>
      var l: int32;
      if p.I? {
        l := AndOr(p.i, q.i, g);
      } else {
        l := FAndOr(p.f, q.f, g);
      }
      r := Ok(I(l));
  }

  // ---------------------------------------------------------------- prefixes

  datatype Unary = NoUnary | SetNot | SetMinus

  /** The jump table that `eval` dispatches through: it only ever calls these. */
  datatype Algebra = Algebra(binary: (BinOp, Value, Value) -> Outcome<Value>, unary: (Unary, Value) -> Value)

  function ApplyUnary(u: Unary, v: Value): Value {
    match u case NoUnary => v case SetNot => NotOf(v) case SetMinus => Negate(v)
  }

  /** The interpreter's own table; `MBin` and `NegateRes` compute its entries. */
  function Basic(libm: (real, real) -> real): Algebra {
    Algebra((op, a, b) => Apply(libm, op, a, b), (u, v) => ApplyUnary(u, v))
  }

  function ApplyUnaries(A: Algebra, u0: Unary, u1: Unary, v: Value): Value {
    if u0 == NoUnary then v
    else if u1 == NoUnary then A.unary(u0, v)
    else A.unary(u1, A.unary(u0, v))
  }

  /** The two-cell register of pending prefixes: `u0` is the innermost. */
  datatype Scan = Bad | At(u0: Unary, u1: Unary, first: bool, c: Token, rest: Text)

  /** Reads prefixes up to the operand itself. */
  function ScanPrefix(x: Text, u0: Unary, u1: Unary, first: bool): (s: Scan)
    ensures s.At? ==> Len(s.rest) < Len(x)
  {
    if x.End? then Bad
    else if x.c == MINUS && first then
      if u0 == SetMinus || u1 != NoUnary then Bad
      else ScanPrefix(x.rest, SetMinus, u0, first)
    else if x.c == NotTok then
      if u0 == SetNot then ScanPrefix(x.rest, u1, NoUnary, true)
      else if u1 != NoUnary then Bad
      else ScanPrefix(x.rest, SetNot, u0, true)
    else At(u0, u1, first, x.c, x.rest)
  }

  // ---------------------------------------------------------------- precedence climbing

  /** A value and where reading stopped, or the error that was raised. */
  datatype Result = Read(v: Value, rest: Text) | Stop(code: nat) | Unspecified

  function Ending(v: Outcome<Value>, x: Text): Result {
    match v case Ok(w) => Read(w, x) case Err(c) => Stop(c) case Undefined => Unspecified
  }

  /** One operand with its prefixes. */
  function Primary(A: Algebra, x: Text, first: bool): (r: Result)
    ensures r.Read? ==> Len(r.rest) < Len(x)
    decreases Len(x), 1
  {
    var s := ScanPrefix(x, NoUnary, NoUnary, first);
    if s.Bad? then Stop(SYNTAX)
    else if s.c.Operand? then Read(ApplyUnaries(A, s.u0, s.u1, s.c.v), s.rest)
    else if s.c.Str? then
      if s.first then Read(ApplyUnaries(A, s.u0, s.u1, I(s.c.outcome)), s.rest)
      else Stop(if s.c.named then VARREQD else SYNTAX)
    else if s.c.Open? then
      var e := Phrase(A, 1, s.rest, true);
      if !e.Read? then e
      else if e.rest.Sym? && e.rest.c == Close
      then Read(ApplyUnaries(A, s.u0, s.u1, e.v), e.rest.rest)
      else Stop(SYNTAX)
    else Stop(SYNTAX)
  }

  /** An operand and every following operator of precedence at least `p`. */
  function Phrase(A: Algebra, p: nat, x: Text, first: bool): (r: Result)
    requires 1 <= p
    ensures r.Read? ==> Len(r.rest) < Len(x)
    decreases Len(x), 2
  {
    var o := Primary(A, x, first);
    if !o.Read? then o else Climb(A, p, o.v, o.rest)
  }

  /** Extends the value `v` by every following operator of precedence at least
      `p`, grouping to the left. */
  function Climb(A: Algebra, p: nat, v: Value, x: Text): (r: Result)
    requires 1 <= p
    ensures r.Read? ==> Len(r.rest) <= Len(x)
    decreases Len(x), 0
  {
    if NextPrec(x) < p then Read(v, x)
    else
      var r := Phrase(A, NextPrec(x) + 1, x.rest, FirstAfter(x.c.op));
      if !r.Read? then r
      else
        var w := A.binary(x.c.op, v, r.v);
        if !w.Ok? then Ending(w, x) else Climb(A, p, w.value, r.rest)
  }

  function Expression(A: Algebra, x: Text): Result { Phrase(A, 1, x, true) }

  // ---------------------------------------------------------------- the machine

  /** A slot of `restab`; the kind of `r1` is its `vty`. */
  datatype M = M(r1: Value, lastop: BinOp, mvalue: nat)

  /** The pending operators, innermost first. */
  datatype Stack = Bottom | Push(top: M, below: Stack)

  function TopPrec(st: Stack): nat { if st.Push? then st.top.mvalue else 0 }

  function Depth(st: Stack): nat { if st.Push? then 1 + Depth(st.below) else 0 }

  predicate Rising(st: Stack) {
    st.Push? ==>
      st.top.mvalue == Prec(st.top.lastop) && TopPrec(st.below) < st.top.mvalue && Rising(st.below)
  }

  lemma {:induction false} RisingBounds(st: Stack)
    requires Rising(st)
    ensures Depth(st) <= TopPrec(st) <= 5
  {
    if st.Push? { RisingBounds(st.below); }
  }

  /** Slots 1 to `j` of the array hold the stack, slot 0 the sentinel. */
  predicate Occupies(tab: seq<M>, j: nat, st: Stack) {
    if j == 0 then |tab| > 0 && st.Bottom? && tab[0].mvalue == 0
    else st.Push? && j < |tab| && tab[j] == st.top && Occupies(tab, j - 1, st.below)
  }

  lemma {:induction false} HoldsFrame(tab: seq<M>, tab': seq<M>, j: nat, st: Stack)
    requires Occupies(tab, j, st) && |tab'| == |tab| && forall i | 0 <= i <= j :: tab'[i] == tab[i]
    ensures Occupies(tab', j, st) && Depth(st) == j
  {
    if j > 0 { HoldsFrame(tab, tab', j - 1, st.below); }
  }

  /** What remains to be computed once an operand `o` has been read above the
      pending operators `st`. */
  ghost function Unwind(A: Algebra, st: Stack, o: Result): Result
    decreases st
  {
    if !o.Read? then o
    else if st.Bottom? then Climb(A, 1, o.v, o.rest)
    else
      var r := Climb(A, st.top.mvalue + 1, o.v, o.rest);
      if !r.Read? then r
      else Unwind(A, st.below, Ending(A.binary(st.top.lastop, st.top.r1, r.v), r.rest))
  }

  /** Popping: an operator that binds no tighter than the top one. */
  lemma UnwindReduce(A: Algebra, st: Stack, v: Value, x: Text)
    requires st.Push? && NextPrec(x) <= TopPrec(st)
    ensures Unwind(A, st, Read(v, x)) == Unwind(A, st.below, Ending(A.binary(st.top.lastop, st.top.r1, v), x))
  {
    assert Climb(A, st.top.mvalue + 1, v, x) == Read(v, x);
  }

  /** Pushing: an operator that binds tighter than the top one. */
  lemma UnwindPush(A: Algebra, st: Stack, v: Value, x: Text)
    requires NextPrec(x) > TopPrec(st)
    ensures Unwind(A, st, Read(v, x))
            == Unwind(A, Push(M(v, x.c.op, NextPrec(x)), st), Primary(A, x.rest, FirstAfter(x.c.op)))
  {
    var st' := Push(M(v, x.c.op, NextPrec(x)), st);
    var p := TopPrec(st) + 1;
    var o := Primary(A, x.rest, FirstAfter(x.c.op));
    var r := Phrase(A, NextPrec(x) + 1, x.rest, FirstAfter(x.c.op));
    if r.Read? {
      var w := A.binary(x.c.op, v, r.v);
      assert Climb(A, p, v, x) == if !w.Ok? then Ending(w, x) else Climb(A, p, w.value, r.rest);
      assert Unwind(A, st', o) == Unwind(A, st, Ending(w, r.rest));
    }
  }

  /** The upper half of the loop of `eval`: prefixes, operand, and the pending
      unary operations applied to it. */
  method ReadOperand(A: Algebra, start: Text, firsttime: bool) returns (r: Result)
    ensures r == Primary(A, start, firsttime)
    decreases Len(start), 0
  {
    var point := start;
    var u0, u1 := NoUnary, NoUnary;
    var first := firsttime;
    ghost var scan := ScanPrefix(start, NoUnary, NoUnary, firsttime);
    while true
      invariant Len(point) <= Len(start)
      invariant u0 == NoUnary ==> u1 == NoUnary
      invariant scan == ScanPrefix(point, u0, u1, first)
      decreases Len(point)
    {
      if point.End? {
        return Stop(SYNTAX);
      }
      var c := point.c;
      point := point.rest;
      if c == MINUS && first {
        if u0 == SetMinus || u1 != NoUnary {
          return Stop(SYNTAX);
        }
        u0, u1 := SetMinus, u0;
      } else if c == NotTok {
        if u0 == SetNot {
          u0, u1 := u1, NoUnary;
        } else if u1 != NoUnary {
          return Stop(SYNTAX);
        } else {
          u0, u1 := SetNot, u0;
        }
        first := true;
      } else {
        PrimaryIs(A, start, firsttime, u0, u1, first, c, point);
        r := ReadBase(A, c, point, first);
        if r.Read? {
          var res := r.v;
          if u0 != NoUnary {
            res := A.unary(u0, res);
            if u1 != NoUnary {
              res := A.unary(u1, res);
            }
          }
          r := Read(res, r.rest);
        }
        return;
      }
    }
  }

  /** The operand without its prefixes. */
  function BaseOf(A: Algebra, c: Token, x: Text, first: bool): Result {
    if c.Operand? then Read(c.v, x)
    else if c.Str? then if first then Read(I(c.outcome), x) else Stop(if c.named then VARREQD else SYNTAX)
    else if c.Open? then
      var e := Expression(A, x);
      if !e.Read? then e
      else if e.rest.Sym? && e.rest.c == Close then Read(e.v, e.rest.rest)
      else Stop(SYNTAX)
    else Stop(SYNTAX)
  }

  /** An operand is its base with the pending prefixes applied. */
  lemma PrimaryIs(A: Algebra, x: Text, firsttime: bool, u0: Unary, u1: Unary, first: bool, c: Token, rest: Text)
    requires ScanPrefix(x, NoUnary, NoUnary, firsttime) == At(u0, u1, first, c, rest)
    ensures var b := BaseOf(A, c, rest, first);
            Primary(A, x, firsttime) == if b.Read? then Read(ApplyUnaries(A, u0, u1, b.v), b.rest) else b
  {
  }

  method ReadBase(A: Algebra, c: Token, point: Text, first: bool) returns (r: Result)
    ensures r == BaseOf(A, c, point, first)
    decreases Len(point), 4
  {
    if c.Operand? {
      return Read(c.v, point);
    } else if c.Str? {
      if !first {
        return Stop(if c.named then VARREQD else SYNTAX);
      }
      return Read(I(c.outcome), point);
    } else if c == Open {
      r := EvalMachine(A, point);
      if r.Read? {
        if r.rest.End? || r.rest.c != Close {
          return Stop(SYNTAX);
        }
        r := Read(r.v, r.rest.rest);
      }
    } else {
      return Stop(SYNTAX);
    }
  }

  /** The lower half: execute pending operators until one binds less tightly
      than the next, and stop at the bottom of the stack. */
  method Reduce(A: Algebra, restab: array<M>, top: nat, res0: Value, point: Text, ghost st0: Stack)
    returns (done: Option<Result>, j: nat, res: Value, ghost st: Stack)
    requires restab.Length == 6 && Occupies(restab[..], top, st0) && Rising(st0)
    ensures Occupies(restab[..], j, st) && Rising(st)
    ensures done.None? ==> NextPrec(point) > TopPrec(st)
    ensures Unwind(A, st0, Read(res0, point))
            == if done.Some? then done.value else Unwind(A, st, Read(res, point))
  {
    j, res, st := top, res0, st0;
    ghost var tab := restab[..];
    ghost var goal := Unwind(A, st0, Read(res0, point));
    var i := NextPrec(point);
    while restab[j].mvalue >= i
      invariant Occupies(tab, j, st) && Rising(st)
      invariant goal == Unwind(A, st, Read(res, point))
      decreases j
    {
      if restab[j].mvalue == 0 {
        return Some(Read(res, point)), j, res, st;
      }
      UnwindReduce(A, st, res, point);
      var s := A.binary(restab[j].lastop, restab[j].r1, res);
      if !s.Ok? {
        return Some(Ending(s, point)), j, res, st;
      }
      res := s.value;
      j, st := j - 1, st.below;
    }
    done := None;
  }

  /** The next slot takes an operator that binds tighter than the top one;
      there always is one. */
  method PushSlot(restab: array<M>, j: nat, m: M, ghost st: Stack) returns (ghost st': Stack)
    requires restab.Length == 6 && Occupies(restab[..], j, st) && Rising(st)
    requires m.mvalue == Prec(m.lastop) && TopPrec(st) < m.mvalue
    modifies restab
    ensures j < 5 && st' == Push(m, st) && Occupies(restab[..], j + 1, st') && Rising(st')
  {
    ghost var tab := restab[..];
    HoldsFrame(tab, tab, j, st);
    st' := Push(m, st);
    RisingBounds(st');
    restab[j + 1] := m;
    HoldsFrame(tab, restab[..], j, st);
  }

  /** `eval`: the stack machine agrees with precedence climbing on every token
      string, in its value, in where it stops and in the first error it
      raises; it stays inside the six slots. */
  method EvalMachine(A: Algebra, start: Text) returns (r: Result)
    ensures r == Expression(A, start)
    decreases Len(start), 3
  {
    var restab := new M[6](_ => M(I(0), Caret, 0));
    var j := 0;
    var point := start;
    var firsttime := true;
    ghost var st := Bottom;
    ghost var goal := Expression(A, start);
    while true
      invariant j <= 5 && Occupies(restab[..], j, st) && Rising(st) && Len(point) <= Len(start)
      invariant goal == Unwind(A, st, Primary(A, point, firsttime))
      decreases Len(point)
    {
      var done;
      done, j, point, firsttime, st := Turn(A, restab, j, point, firsttime, st);
      if done.Some? {
        return done.value;
      }
    }
  }

  /** One turn of its loop: an operand, the reductions it allows, and the next
      operator pushed. */
  method Turn(A: Algebra, restab: array<M>, top: nat, start: Text, firsttime: bool, ghost st0: Stack)
    returns (done: Option<Result>, j: nat, point: Text, next: bool, ghost st: Stack)
    requires restab.Length == 6 && Occupies(restab[..], top, st0) && Rising(st0)
    modifies restab
    ensures Unwind(A, st0, Primary(A, start, firsttime)) == if done.Some? then done.value else Unwind(A, st, Primary(A, point, next))
    ensures done.None? ==> j <= 5 && Occupies(restab[..], j, st) && Rising(st) && Len(point) < Len(start)
    decreases Len(start), 1
  {
    j, next, st := top, firsttime, st0;
    var o := ReadOperand(A, start, firsttime);
    if !o.Read? {
      return Some(o), j, start, next, st;
    }
    var res := o.v;
    point := o.rest;
    done, j, res, st := Reduce(A, restab, j, res, point, st);
    if done.Some? {
      return;
    }
    UnwindPush(A, st, res, point);
    st := PushSlot(restab, j, M(res, point.c.op, NextPrec(point)), st);
    j := j + 1;
    next := FirstAfter(point.c.op);
    point := point.rest;
  }
}
