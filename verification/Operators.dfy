/** What the comparison and logical operators of the BASIC interpreter mean:
    relations of numbers, operations on single bits and Boolean logic on truth
    values. */
module Operators {
  import opened Words
  import opened Arith
  import opened Eval

  // ---------------------------------------------------------------- comparisons

  function Size(x: real): real { if x < 0.0 then -x else x }

  /** The sizes differ by at most one part in 10^9 of the second, or the other
      operand is zero and the size is at most 10^-9. Signs play no part. */
  predicate SameSize(p: real, q: real) {
    if q == 0.0 then Size(p) <= 0.000000001
    else if p == 0.0 then Size(q) <= 0.000000001
    else -(0.000000001 * Size(q)) <= Size(p) - Size(q) <= 0.000000001 * Size(q)
  }

  lemma SignOfQuotient(p: real, q: real)
    requires p != 0.0 && q != 0.0
    ensures p / q < 0.0 <==> (p < 0.0) != (q < 0.0)
  {
    var x := p / q;
    assert x * q == p;
    if x < 0.0 {
      if q > 0.0 { assert x * q < 0.0; } else { assert x * q > 0.0; }
    } else {
      if q > 0.0 { assert x * q >= 0.0; } else { assert x * q <= 0.0; }
    }
  }

  lemma NegatedQuotient(p: real, q: real)
    requires q != 0.0
    ensures (-p) / q == -(p / q) && p / (-q) == -(p / q) && (-p) / (-q) == p / q
  {
    var x := p / q;
    assert x * q == p;
    assert (-x) * q == -p && (-x) * (-q) == p && x * (-q) == -p;
  }

  /** The quotient of the sizes. */
  lemma QuotientOfSizes(p: real, q: real)
    requires p != 0.0 && q != 0.0
    ensures Size(p) / Size(q) == if p / q < 0.0 then -(p / q) else p / q
  {
    SignOfQuotient(p, q);
    NegatedQuotient(p, q);
  }

  lemma Scaled(x: real, s: real, e: real)
    requires s > 0.0
    ensures -e <= x / s - 1.0 <= e <==> -(e * s) <= x - s <= e * s
  {
    var d := x / s - 1.0;
    assert d * s == x - s by { Distributed(x, s); }
    Monotone(d, e, s);
    Monotone(-e, d, s);
    assert (-e) * s == -(e * s);
  }

  lemma Distributed(x: real, s: real)
    requires s > 0.0
    ensures (x / s - 1.0) * s == x - s
  {
    var y := x / s;
    assert y * s == x;
    assert (y - 1.0) * s == y * s - s;
  }

  lemma Monotone(a: real, b: real, s: real)
    requires s > 0.0
    ensures a <= b <==> a * s <= b * s
  {
    if a <= b { assert (b - a) * s >= 0.0; } else { assert (a - b) * s > 0.0; }
  }

  /** What the approximate comparison computes, for all reals: it compares sizes
      and ignores signs. */
  lemma NearIs(p: real, q: real)
    ensures Near(p, q) <==> SameSize(p, q)
  {
    if p != 0.0 && q != 0.0 {
      QuotientOfSizes(p, q);
      Scaled(Size(p), Size(q), APRXVAL);
    }
  }

  /** A number is approximately equal to its negative. */
  lemma OppositeSigns(p: real)
    ensures Compare(Aprx, R(p), R(-p)) == Truth(true)
  {
    NearIs(p, -p);
  }

  /** Exactly when that differs from being close as numbers: for operands of
      opposite sign whose sizes agree. */
  lemma NearWrongExactly(p: real, q: real)
    requires p != 0.0 && q != 0.0
    ensures Near(p, q) != (-(APRXVAL * Size(q)) <= p - q <= APRXVAL * Size(q))
            <==> (p < 0.0) != (q < 0.0) && SameSize(p, q)
  {
    NearIs(p, q);
  }

  /** The relation a comparison sign stands for. */
  predicate Related(c: CmpOp, x: real, y: real) {
    match c
    case Eq => x == y
    case Le => x <= y
    case Ne => x != y
    case Lt => x < y
    case Ge => x >= y
    case Gt => x > y
    case Aprx => SameSize(x, y)
  }

  /** A comparison of two values, whatever their representation, compares the
      numbers they stand for; only the approximate one differs on integers. */
  lemma ComparesNumbers(c: CmpOp, a: Value, b: Value)
    requires c != Aprx || a.R? || b.R?
    ensures Compare(c, a, b) == Truth(Related(c, Num(a), Num(b)))
  {
    NearIs(Num(a), Num(b));
  }

  /** Exactly one of less, equal and greater holds. */
  lemma Trichotomy(a: Value, b: Value)
    ensures var n := Compare(Lt, a, b).i + Compare(Eq, a, b).i + Compare(Gt, a, b).i; n == -1
  {
    ComparesNumbers(Lt, a, b);
    ComparesNumbers(Eq, a, b);
    ComparesNumbers(Gt, a, b);
  }

  // ---------------------------------------------------------------- bits

  lemma WordBack(w: word)
    ensures ToWord(ToSigned(w)) == w
  {
  }

  /** The connective an operator stands for. */
  predicate Connective(g: LogicOp, p: bool, q: bool) {
    match g
    case And => p && q
    case Or => p || q
    case Xor => p != q
    case Imp => p ==> q
    case Eqv => p <==> q
  }

  /** AND, OR, XOR, IMP and EQV act on each of the 32 bits as their connective. */
  lemma LogicBits(g: LogicOp, x: int32, y: int32, k: nat)
    requires k < WIDTH
    ensures Bit(ToWord(Bitwise(g, x, y)), k) == Connective(g, Bit(ToWord(x), k), Bit(ToWord(y), k))
  {
    WordBack(Zip32(BitRule(g), ToWord(x), ToWord(y)));
    BitZipBits(BitRule(g), WIDTH, ToWord(x), ToWord(y), k);
  }

  /** NOT of an integer flips every bit. */
  lemma NotFlips(x: int32, k: nat)
    requires k < WIDTH
    ensures NotOf(I(x)).I? && Bit(ToWord(NotOf(I(x)).i), k) == !Bit(ToWord(x), k)
  {
    Pow2Of32();
    assert ToWord(-1 - x) == Pow2(WIDTH) - 1 - ToWord(x);
    BitComplement(WIDTH, ToWord(x), k);
  }

  /** NOT NOT is the identity on integers and the truth value of a real. */
  lemma NotNot(v: Value)
    ensures NotOf(NotOf(v)) == if v.I? then v else Truth(v.f != 0.0)
  {
  }

  // ---------------------------------------------------------------- truth values

  /** The word of `n` equal bits. */
  function Ones(n: nat, b: bool): nat { if n == 0 || !b then 0 else 1 + 2 * Ones(n - 1, b) }

  lemma {:induction false} OnesIs(n: nat)
    ensures Ones(n, true) == Pow2(n) - 1
  {
    if n > 0 { OnesIs(n - 1); }
  }

  lemma {:induction false} ZipOnes(f: (bool, bool) -> bool, n: nat, p: bool, q: bool)
    ensures BitZip(f, n, Ones(n, p), Ones(n, q)) == Ones(n, f(p, q))
  {
    if n > 0 {
      assert Ones(n, p) / 2 == Ones(n - 1, p) && (Ones(n, p) % 2 == 1) == p;
      assert Ones(n, q) / 2 == Ones(n - 1, q) && (Ones(n, q) % 2 == 1) == q;
      ZipOnes(f, n - 1, p, q);
    }
  }

  /** On results of comparisons the operators are Boolean logic. */
  lemma LogicOnTruth(g: LogicOp, p: bool, q: bool)
    ensures Combine(g, Truth(p), Truth(q)) == Truth(Connective(g, p, q))
  {
    Pow2Of32();
    OnesIs(WIDTH);
    assert ToWord(Truth(p).i) == Ones(WIDTH, p);
    assert ToWord(Truth(q).i) == Ones(WIDTH, q);
    ZipOnes(BitRule(g), WIDTH, p, q);
  }

  /** A real operand counts as its truth value. */
  lemma LogicOnReals(g: LogicOp, a: Value, b: Value)
    requires a.R? || b.R?
    ensures Combine(g, a, b) == Truth(Connective(g, Num(a) != 0.0, Num(b) != 0.0))
  {
    LogicOnTruth(g, Num(a) != 0.0, Num(b) != 0.0);
  }

  // ---------------------------------------------------------------- the interpreter's table

  /** Comparison entries of the jump table compare numbers. */
  lemma TableCompares(libm: (real, real) -> real, c: CmpOp, a: Value, b: Value)
    ensures Basic(libm).binary(Cmp(c), a, b)
            == Ok(Truth(if c == Aprx && a.I? && b.I? then Num(a) == Num(b) else Related(c, Num(a), Num(b))))
  {
    if c != Aprx || a.R? || b.R? { ComparesNumbers(c, a, b); }
  }

  /** Logic entries act on bits of integers and on truth values of reals. */
  lemma TableLogic(libm: (real, real) -> real, g: LogicOp, a: Value, b: Value, k: nat)
    requires k < WIDTH
    ensures var r := Basic(libm).binary(Logic(g), a, b);
            && r.Ok? && r.value.I?
            && (a.I? && b.I? ==> Bit(ToWord(r.value.i), k) == Connective(g, Bit(ToWord(a.i), k), Bit(ToWord(b.i), k)))
            && (a.R? || b.R? ==> r.value == Truth(Connective(g, Num(a) != 0.0, Num(b) != 0.0)))
  {
    if a.I? && b.I? {
      LogicBits(g, a.i, b.i, k);
    } else {
      LogicOnReals(g, a, b);
    }
  }

  /** The power entry: exact integer powers where they fit, one for exponent
      zero, zero for base zero, and an error for a negative base. */
  lemma TablePower(libm: (real, real) -> real, a: Value, b: Value)
    ensures var r := Basic(libm).binary(Caret, a, b);
            && (r == Err(41) <==> Num(a) < 0.0) && (r.Err? ==> r.code == 41)
            && (a.I? && b.I? && a.i >= 0 && 0 <= b.i < 31 && Power(a.i, b.i) < 0x8000_0000 ==> r == Ok(I(Power(a.i, b.i))))
            && (Num(a) >= 0.0 && Num(b) == 0.0 ==> r.Ok? && Num(r.value) == 1.0)
            && (Num(a) == 0.0 && Num(b) != 0.0 ==> r.Ok? && Num(r.value) == 0.0)
  {
    if a.I? && b.I? && a.i == 0 && b.i > 0 { assert Power(0, b.i) == 0 * Power(0, b.i - 1); }
  }

  /** Integer divide and MOD entries on integers. */
  lemma TableDivides(libm: (real, real) -> real, p: int32, q: int32)
    requires q != 0 && !(p == MIN_INT && q == -1)
    ensures var d, r := Basic(libm).binary(MulK(Backslash), I(p), I(q)), Basic(libm).binary(MulK(Mod), I(p), I(q));
            && d.Ok? && d.value.I? && r.Ok? && r.value.I?
            && p == d.value.i * q + r.value.i && Abs(r.value.i) < Abs(q) && (r.value.i == 0 || (r.value.i < 0) == (p < 0))
  {
    DivisionLaw(p, q);
  }

  /** The unary entries. */
  lemma TableUnary(libm: (real, real) -> real, v: Value, k: nat)
    requires k < WIDTH
    ensures Num(Basic(libm).unary(SetMinus, v)) == -Num(v)
    ensures var n := Basic(libm).unary(SetNot, v);
            && n.I? && (v.I? ==> Bit(ToWord(n.i), k) == !Bit(ToWord(v.i), k)) && (v.R? ==> n == Truth(v.f == 0.0))
  {
    if v.I? { NotFlips(v.i, k); }
  }
}
