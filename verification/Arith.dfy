/** Integer and real arithmetic of the BASIC interpreter: the operators of
    assist.c, which promote an integer result to a real when it does not fit. */
module Arith {
  import opened Words

  /** A BASIC number: `vartype` selects the member of the union. */
  datatype Value = I(i: int32) | R(f: real)

  /** `error(code)` abandons the evaluation; `Undefined` is the integer
      division of the most negative value by -1, which C leaves undefined. */
  datatype Outcome<+T> = Ok(value: T) | Err(code: nat) | Undefined

  const SYNTAX: nat := 1
  const ZERO_DIVISOR: nat := 25
  const NEGATIVE_POWER: nat := 41

  /** The number a value stands for, whatever its representation. */
  function Num(v: Value): real {
    match v case I(i) => i as real case R(f) => f
  }

  // ---------------------------------------------------------------- overflow test

  /** The top bit of `~(x ^ y) & (l ^ y)`: a bitwise operator acts on the sign
      bits alone. */
  predicate IsOver(x: int32, y: int32, l: int32) {
    !((x < 0) != (y < 0)) && ((l < 0) != (y < 0))
  }

  /** The macro on the raw words: its masked bit is what `IsOver` computes. */
  lemma IsOverBits(x: bv32, y: bv32, l: bv32)
    ensures ((!(x ^ y) & (l ^ y)) & 0x8000_0000 != 0) <==>
            (!((x >= 0x8000_0000) != (y >= 0x8000_0000)) && ((l >= 0x8000_0000) != (y >= 0x8000_0000)))
  {
    assert (x & 0x8000_0000 != 0) <==> (x >= 0x8000_0000);
    assert (y & 0x8000_0000 != 0) <==> (y >= 0x8000_0000);
    assert (l & 0x8000_0000 != 0) <==> (l >= 0x8000_0000);
  }

  /** The test is exact: it fires just when the wrapped sum is not the sum. */
  lemma IsOverExact(x: int32, y: int32)
    ensures IsOver(x, y, Wrap(x + y)) <==> !Fits(x + y)
    ensures IsOver(x, y, Wrap(x + y)) == IsOver(y, x, Wrap(x + y))
  {
  }

  // ---------------------------------------------------------------- multiplication

  /** The shift-and-add loop on magnitudes, with the smaller one as the loop
      variable. No addition or shift of it wraps. */
  method ShiftAdd(p: word, q: word) returns (over: bool, result: word)
    requires p <= TWO31 && q <= TWO31
    ensures over <==> p * q >= TWO31
    ensures !over ==> result == p * q
  {
    var aa: word, bb: word := p, q;
    if bb > aa {
      aa, bb := bb, aa;
    }
    ghost var product := Prod(aa, bb);
    assert product == p * q by { ProdIsProduct(p, q); ProdIsProduct(q, p); }
    result := 0;
    while bb != 0
      invariant result < TWO31
      invariant result + Prod(aa, bb) == product
    {
      HalveStep(aa, bb);
      if aa >= TWO31 {
        return true, 0;
      }
      if bb % 2 == 1 {
        result := ToWord(result + aa);
        if result >= TWO31 {
          return true, 0;
        }
      }
      aa := ToWord(aa * 2);
      bb := bb / 2;
    }
    return false, result;
  }

  ghost function Prod(a: nat, b: nat): nat {
    if b == 0 then 0 else a + Prod(a, b - 1)
  }

  lemma {:induction false} ProdIsProduct(a: nat, b: nat)
    ensures Prod(a, b) == a * b
  {
    if b > 0 {
      ProdIsProduct(a, b - 1);
      assert a * b == a + a * (b - 1);
    }
  }

  lemma {:induction false} HalveStep(a: nat, b: nat)
    ensures Prod(a, b) == (if b % 2 == 1 then a else 0) + Prod(2 * a, b / 2)
    ensures b > 0 ==> a <= Prod(a, b)
  {
    if b >= 2 {
      HalveStep(a, b - 2);
      assert Prod(a, b) == a + (a + Prod(a, b - 2));
    }
  }

  /** `mmult_ply`. `over` stands for the label of that name: the caller then
      either fails or switches to reals. */
  method MmultPly(p: int32, q: int32) returns (over: bool, r: int32)
    ensures over <==> Abs(p * q) >= TWO31
    ensures !over ==> r == p * q
  {
    var minus := false;
    var aa: word, bb: word;
    if p < 0 {
      minus := true;
      aa := ToWord(Wrap(0 - p));
    } else {
      aa := p;
    }
    if q < 0 {
      minus := !minus;
      bb := ToWord(Wrap(0 - q));
    } else {
      bb := q;
    }
    assert aa == Abs(p) && bb == Abs(q);
    AbsProduct(p, q);
    var result;
    over, result := ShiftAdd(aa, bb);
    r := if over then 0 else ToSigned(ToWord(if minus then 0 - result as int else result as int));
  }

  lemma AbsProduct(p: int, q: int)
    ensures Abs(p * q) == Abs(p) * Abs(q)
    ensures (p < 0) != (q < 0) ==> p * q == -(Abs(p) * Abs(q))
    ensures (p < 0) == (q < 0) ==> p * q == Abs(p) * Abs(q)
  {
    if p < 0 {
      assert p * q == -((-p) * q);
      if q < 0 { assert (-p) * q == -((-p) * (-q)); }
    } else if q < 0 {
      assert p * q == -(p * (-q));
    }
  }

  lemma AtLeast(a: nat, b: nat)
    ensures b > 0 ==> a * b >= a
    ensures a * b >= 0
  {
    if b > 0 { assert a * b == a + a * (b - 1); }
  }

  // ---------------------------------------------------------------- C division

  function TDiv(p: int, q: int): int
    requires q != 0
  {
    if (p < 0) == (q < 0) then Abs(p) / Abs(q) else -(Abs(p) / Abs(q))
  }

  function TRem(p: int, q: int): int
    requires q != 0
  {
    if p < 0 then -(Abs(p) % Abs(q)) else Abs(p) % Abs(q)
  }

  lemma NatDivision(a: nat, b: nat)
    requires b != 0
    ensures a == (a / b) * b + a % b && a % b < b
    ensures 0 <= a / b <= a && (b >= 2 ==> 2 * (a / b) <= a)
  {
    var d := a / b;
    assert d >= 0;
    if b == 1 {
      AtLeast(d, b);
    } else {
      assert d * b == d * 2 + d * (b - 2);
      AtLeast(d, b - 2);
    }
  }

  lemma TruncatedDivision(p: int, q: int)
    requires q != 0
    ensures p == TDiv(p, q) * q + TRem(p, q)
    ensures Abs(TRem(p, q)) < Abs(q)
    ensures TRem(p, q) == 0 || (TRem(p, q) < 0) == (p < 0)
    ensures Abs(TDiv(p, q)) <= Abs(p)
    ensures Fits(p) && !(p == MIN_INT && q == -1) ==> Fits(TDiv(p, q))
  {
    var a: nat, b: nat := Abs(p), Abs(q);
    NatDivision(a, b);
    var d: nat, m: nat := a / b, a % b;
    assert q == b || q == 0 - b;
    assert TDiv(p, q) == d || TDiv(p, q) == 0 - d;
    Signs(d, b);
  }

  lemma Signs(d: int, b: int)
    ensures (0 - d) * b == 0 - d * b && d * (0 - b) == 0 - d * b && (0 - d) * (0 - b) == d * b
  {
  }

  // ---------------------------------------------------------------- meanings

  datatype MulOp = Times | Slash | Backslash | Mod

  function Sum(plus: bool, p: int, q: int): int { if plus then p + q else p - q }

  /** `+` and `-` on integers. Subtracting 0 or the most negative value takes
      the real path although the difference may fit. */
  function AddSub(plus: bool, p: int32, q: int32): Value {
    if Fits(Sum(plus, p, q)) && (plus || (q != 0 && q != MIN_INT)) then I(Sum(plus, p, q))
    else R(Sum(plus, p, q) as real)
  }

  function MulDiv(op: MulOp, p: int32, q: int32): Outcome<Value> {
    if op == Times then
      if Abs(p * q) < TWO31 then Ok(I(p * q)) else Ok(R((p * q) as real))
    else if q == 0 then Err(ZERO_DIVISOR)
    else if p == MIN_INT && q == -1 then Undefined
    else
      TruncatedDivision(p, q);
      if op == Mod then Ok(I(TRem(p, q)))
      else if op == Slash && TRem(p, q) != 0 then Ok(R(p as real / q as real))
      else Ok(I(TDiv(p, q)))
  }

  /** `MulDiv` on reals; `fmod` keeps the sign of the dividend. */
  function FMulDiv(op: MulOp, p: real, q: real): Outcome<Value> {
    if op == Times then Ok(R(p * q))
    else if q == 0.0 then Err(ZERO_DIVISOR)
    else if op != Mod then Ok(R(p / q))
    else Ok(R(p - Trunc(p / q) as real * q))
  }

  function Trunc(x: real): int {
    if x >= 0.0 then x.Floor else -((-x).Floor)
  }

  function Power(p: int, q: nat): int {
    if q == 0 then 1 else p * Power(p, q - 1)
  }

  /** Floating power. `libm` stands for `exp(log(p) * q)` with its overflow
      warning, which is not modelled further. */
  function FPow(libm: (real, real) -> real, p: real, q: real): Outcome<Value> {
    if p < 0.0 then Err(NEGATIVE_POWER)
    else if q == 0.0 then Ok(R(1.0))
    else if p == 0.0 then Ok(R(0.0))
    else Ok(R(libm(p, q)))
  }

  function Pow(libm: (real, real) -> real, p: int32, q: int32): Outcome<Value> {
    if p < 0 then Err(NEGATIVE_POWER)
    else if 0 <= q < 31 && Power(p, q) < TWO31 then
      PowerNonNegative(p, q);
      Ok(I(Power(p, q)))
    else FPow(libm, p as real, q as real)
  }

  function Negate(v: Value): Value {
    match v
    case I(i) => if i == 0 || i == MIN_INT then R(-(i as real)) else I(-i)
    case R(f) => R(-f)
  }

  function NotOf(v: Value): Value {
    match v
    case I(i) => I(-1 - i)
    case R(f) => I(if f == 0.0 then -1 else 0)
  }

  // ---------------------------------------------------------------- the operators

  method Ads(p: int32, q: int32, plus: bool) returns (r: Value)
    ensures r == AddSub(plus, p, q)
    ensures Num(r) == if plus then p as real + q as real else p as real - q as real
    ensures r.I? <==> if plus then Fits(p + q) else Fits(p - q) && q != 0 && q != MIN_INT
  {
    var l: int32 := p;
    if plus {
      IsOverExact(q, p);
      l := Wrap(l + q);
      if !IsOver(q, p, l) {
        return I(l);
      }
    } else {
      var ii: int32 := Wrap(0 - q);
      if ii != q {
        IsOverExact(ii, p);
        l := Wrap(l + ii);
        if !IsOver(ii, p, l) {
          return I(l);
        }
      }
    }
    if plus {
      r := R(p as real + q as real);
    } else {
      r := R(p as real - q as real);
    }
  }

  method Mdm(p: int32, q: int32, op: MulOp) returns (r: Outcome<Value>)
    ensures r == MulDiv(op, p, q)
    ensures r.Err? <==> op != Times && q == 0
    ensures r.Undefined? <==> op != Times && p == MIN_INT && q == -1
  {
    if op == Times {
      var over, ll := MmultPly(p, q);
      if over {
        assert p as real * q as real == (p * q) as real;
        return Ok(R(p as real * q as real));
      }
      return Ok(I(ll));
    }
    if q == 0 {
      return Err(ZERO_DIVISOR);
    }
    if p == MIN_INT && q == -1 {
      return Undefined;
    }
    TruncatedDivision(p, q);
    var ll := TRem(p, q);
    if op != Mod {
      if ll != 0 && op == Slash {
        return Ok(R(p as real / q as real));
      }
      return Ok(I(TDiv(p, q)));
    }
    return Ok(I(ll));
  }

  /** Integer divide and MOD belong together: quotient times divisor plus
      remainder is the dividend, the remainder is smaller than the divisor and
      has the sign of the dividend; `/` gives that quotient when it is exact. */
  lemma DivisionLaw(p: int32, q: int32)
    requires q != 0 && !(p == MIN_INT && q == -1)
    ensures var d, r, e := MulDiv(Backslash, p, q), MulDiv(Mod, p, q), MulDiv(Slash, p, q);
            && d.Ok? && d.value.I? && r.Ok? && r.value.I? && e.Ok?
            && p == d.value.i * q + r.value.i && Abs(r.value.i) < Abs(q) && (r.value.i == 0 || (r.value.i < 0) == (p < 0))
            && (e.value.I? <==> r.value.i == 0) && (e.value.I? ==> e.value == d.value)
  {
    TruncatedDivision(p, q);
  }

  /** A product stays an integer exactly when its size is below 2^31. */
  lemma ProductLaw(p: int32, q: int32)
    ensures var r := MulDiv(Times, p, q);
            r.Ok? && Num(r.value) == (p * q) as real && (r.value.I? <==> -0x8000_0000 < p * q < 0x8000_0000)
  {
    var x := p * q;
    assert MulDiv(Times, p, q) == if Abs(x) < TWO31 then Ok(I(x)) else Ok(R(x as real));
  }

  lemma TruncBounds(x: real)
    ensures x >= 0.0 ==> Trunc(x) as real <= x < Trunc(x) as real + 1.0
    ensures x <= 0.0 ==> Trunc(x) as real - 1.0 < x <= Trunc(x) as real
  {
  }

  /** MOD of reals: the dividend less a whole multiple of the divisor, smaller
      than the divisor and with the sign of the dividend; integer divide of
      reals is plain division. */
  lemma RealDivisionLaw(p: real, q: real)
    requires q != 0.0
    ensures FMulDiv(Slash, p, q) == FMulDiv(Backslash, p, q) == Ok(R(p / q))
    ensures var r := FMulDiv(Mod, p, q);
            && r.Ok? && r.value.R? && r.value.f == p - Trunc(p / q) as real * q
            && (q > 0.0 ==> -q < r.value.f < q) && (q < 0.0 ==> q < r.value.f < -q)
            && (p >= 0.0 ==> r.value.f >= 0.0) && (p <= 0.0 ==> r.value.f <= 0.0)
  {
    var x := p / q;
    assert x * q == p;
    TruncBounds(x);
    Remainder(p, q, x, Trunc(x) as real);
  }

  lemma Remainder(p: real, q: real, x: real, t: real)
    requires q != 0.0 && x * q == p
    requires x >= 0.0 ==> t <= x < t + 1.0
    requires x <= 0.0 ==> t - 1.0 < x <= t
    ensures (q > 0.0 ==> -q < p - t * q < q) && (q < 0.0 ==> q < p - t * q < -q)
    ensures (p >= 0.0 ==> p - t * q >= 0.0) && (p <= 0.0 ==> p - t * q <= 0.0)
  {
    var f, r := x - t, p - t * q;
    var g := f * q;
    Spread(x, t, q);
    assert g == r;
    assert -1.0 < f < 1.0;
    SignedProduct(x, q);
    FractionOf(f, q);
    if q > 0.0 { assert -q < g < q; } else { assert q < g < -q; }
    assert x >= 0.0 ==> f >= 0.0;
    assert x <= 0.0 ==> f <= 0.0;
    if p > 0.0 { assert g >= 0.0; } else if p < 0.0 { assert g <= 0.0; } else { assert x == 0.0 by { ZeroFactor(x, q); } }
  }

  lemma ZeroFactor(x: real, q: real)
    requires q != 0.0 && x * q == 0.0
    ensures x == 0.0
  {
    SignedProduct(x, q);
  }

  lemma Spread(x: real, t: real, q: real)
    ensures (x - t) * q == x * q - t * q
  {
  }

  lemma SignedProduct(x: real, q: real)
    requires q != 0.0
    ensures x > 0.0 && q > 0.0 ==> x * q > 0.0
    ensures x > 0.0 && q < 0.0 ==> x * q < 0.0
    ensures x < 0.0 && q > 0.0 ==> x * q < 0.0
    ensures x < 0.0 && q < 0.0 ==> x * q > 0.0
  {
  }

  lemma FractionOf(f: real, q: real)
    requires q != 0.0 && -1.0 < f < 1.0
    ensures q > 0.0 ==> -q < f * q < q
    ensures q < 0.0 ==> q < f * q < -q
    ensures (f >= 0.0 && q > 0.0) || (f <= 0.0 && q < 0.0) ==> f * q >= 0.0
    ensures (f >= 0.0 && q < 0.0) || (f <= 0.0 && q > 0.0) ==> f * q <= 0.0
  {
    if q > 0.0 {
      assert (1.0 - f) * q > 0.0 && (1.0 + f) * q > 0.0;
    } else {
      assert (1.0 - f) * q < 0.0 && (1.0 + f) * q < 0.0;
    }
  }

  lemma {:induction false} PowerNonNegative(p: nat, q: nat)
    ensures Power(p, q) >= 0
  {
    if q > 0 { PowerNonNegative(p, q - 1); }
  }

  lemma {:induction false} PowerMonotone(p: nat, k: nat, q: nat)
    requires k <= q && Power(p, k) >= 1
    ensures p == 0 || Power(p, k) <= Power(p, q)
  {
    if k < q && p != 0 {
      PowerMonotone(p, k, q - 1);
      assert p * Power(p, q - 1) >= Power(p, q - 1) by { PowerNonNegative(p, q - 1); AtLeast(Power(p, q - 1), p); }
    }
  }

  /** Integer power by repeated multiplication, left for reals as soon as one
      product overflows: the result is an integer, and then the exact power,
      exactly when the exponent is below 31 and the power fits. */
  method Ex(libm: (real, real) -> real, p: int32, q: int32) returns (r: Outcome<Value>)
    ensures r == Pow(libm, p, q)
    ensures (r.Ok? && r.value.I?) <==> (p >= 0 && 0 <= q < 31 && Power(p, q) < TWO31)
    ensures r.Ok? && r.value.I? ==> r.value.i == Power(p, q)
    ensures r.Err? <==> p < 0
  {
    if p < 0 {
      return Err(NEGATIVE_POWER);
    }
    if 0 <= q < 31 {
      var ll: int32 := 1;
      var over := false;
      var c := 0;
      while c < q && !over
        invariant 0 <= c <= q
        invariant !over ==> ll == Power(p, c) && ll >= 0
        invariant over ==> Power(p, c) >= TWO31
      {
        PowerNonNegative(p, c + 1);
        over, ll := MmultPly(p, ll);
        assert Power(p, c + 1) == p * Power(p, c);
        c := c + 1;
      }
      if !over {
        return Ok(I(ll));
      }
      PowerMonotone(p, c, q);
      if p == 0 { ZeroPower(c); }
    }
    r := FPow(libm, p as real, q as real);
  }

  lemma ZeroPower(c: nat)
    ensures Power(0, c) <= 1
  {
  }

  method NegateRes(res: Value) returns (r: Value)
    ensures r == Negate(res)
    ensures Num(r) == -Num(res) && (r.I? <==> res.I? && res.i != 0 && res.i != MIN_INT)
  {
    match res
    case I(t) =>
      var m: int32 := Wrap(0 - t);
      if t != m {
        return I(m);
      }
      return R(-(t as real));
    case R(f) =>
      return R(-f);
  }

  // ---------------------------------------------------------------- rounding to integers

  const MAX_REAL: real := 2147483647.0
  const MIN_REAL: real := -2147483648.0

  /** `conv`: out of range is refused, otherwise round half up through a
      truncating conversion and a correction. */
  method Conv(f: real) returns (r: Option<int32>)
    ensures r.None? <==> f > MAX_REAL || f < MIN_REAL
    ensures r.Some? ==> r.value == (f + 0.5).Floor
  {
    if f > MAX_REAL || f < MIN_REAL {
      return None;
    }
    var i: int := Trunc(f);
    if i < 0 {
      if i == MIN_INT {
        return Some(i);
      }
      i := i - 1;
    } else if i == 0 && f < 0.0 {
      i := i - 1;
    }
    if f - i as real >= 0.5 {
      i := i + 1;
    }
    return Some(i);
  }

  // ---------------------------------------------------------------- exactness of promotion

  datatype ArithOp = Plus | Minus | Star | Over

  datatype Expr = Lit(n: int32) | Neg(e: Expr) | Bin(op: ArithOp, l: Expr, r: Expr)

  function ExactOp(op: ArithOp, x: real, y: real): Option<real> {
    match op
    case Plus => Some(x + y)
    case Minus => Some(x - y)
    case Star => Some(x * y)
    case Over => if y == 0.0 then None else Some(x / y)
  }

  /** The rational number an expression denotes; None when a divisor is 0. */
  function Exact(e: Expr): Option<real> {
    match e
    case Lit(n) => Some(n as real)
    case Neg(a) => (match Exact(a) case None => None case Some(x) => Some(-x))
    case Bin(op, l, r) =>
      match (Exact(l), Exact(r))
      case (Some(x), Some(y)) => ExactOp(op, x, y)
      case _ => None
  }

  function ApplyAddSub(plus: bool, a: Value, b: Value): Value {
    if a.I? && b.I? then AddSub(plus, a.i, b.i)
    else R(if plus then Num(a) + Num(b) else Num(a) - Num(b))
  }

  function ApplyMulDiv(op: MulOp, a: Value, b: Value): Outcome<Value> {
    if a.I? && b.I? then MulDiv(op, a.i, b.i) else FMulDiv(op, Num(a), Num(b))
  }

  function RunOp(op: ArithOp, a: Value, b: Value): Outcome<Value> {
    match op
    case Plus => Ok(ApplyAddSub(true, a, b))
    case Minus => Ok(ApplyAddSub(false, a, b))
    case Star => ApplyMulDiv(Times, a, b)
    case Over => ApplyMulDiv(Slash, a, b)
  }

  /** What the interpreter computes for the same expression. */
  function Run(e: Expr): Outcome<Value> {
    match e
    case Lit(n) => Ok(I(n))
    case Neg(a) => (match Run(a) case Ok(v) => Ok(Negate(v)) case x => x)
    case Bin(op, l, r) =>
      match Run(l)
      case Ok(a) => (match Run(r) case Ok(b) => RunOp(op, a, b) case x => x)
      case x => x
  }

  lemma RealQuotient(y: real, z: real)
    requires y != 0.0
    ensures (z * y) / y == z
  {
  }

  lemma QuotientOfMultiple(d: int, q: int)
    requires q != 0
    ensures (d * q) as real / q as real == d as real
  {
    ProductAsReal(d, q);
    RealQuotient(q as real, d as real);
  }

  lemma ExactQuotient(p: int, q: int)
    requires q != 0 && TRem(p, q) == 0
    ensures TDiv(p, q) as real == p as real / q as real
  {
    TruncatedDivision(p, q);
    QuotientOfMultiple(TDiv(p, q), q);
  }

  lemma ProductAsReal(p: int, q: int)
    ensures (p * q) as real == p as real * q as real
  {
  }

  /** What `OperatorExact` says of one operator. */
  predicate ExactlyAs(op: ArithOp, a: Value, b: Value, r: Outcome<Value>) {
    match r
    case Ok(v) => ExactOp(op, Num(a), Num(b)) == Some(Num(v))
    case Err(code) => code == ZERO_DIVISOR && ExactOp(op, Num(a), Num(b)) == None
    case Undefined => op == Over && a == I(MIN_INT) && b == I(-1)
  }

  lemma SumExact(a: Value, b: Value)
    ensures ExactlyAs(Plus, a, b, Ok(ApplyAddSub(true, a, b)))
    ensures ExactlyAs(Minus, a, b, Ok(ApplyAddSub(false, a, b)))
  {
  }

  lemma ProductExact(a: Value, b: Value)
    ensures ExactlyAs(Star, a, b, ApplyMulDiv(Times, a, b))
  {
    if a.I? && b.I? {
      IntProduct(a.i, b.i);
    } else {
      FloatProduct(Num(a), Num(b));
    }
  }

  lemma IntProduct(p: int32, q: int32)
    ensures var r := MulDiv(Times, p, q); r.Ok? && Num(r.value) == p as real * q as real
  {
    ProductAsReal(p, q);
    var x := p * q;
    assert MulDiv(Times, p, q) == if Abs(x) < TWO31 then Ok(I(x)) else Ok(R(x as real));
  }

  lemma FloatProduct(p: real, q: real)
    ensures FMulDiv(Times, p, q) == Ok(R(p * q))
  {
  }

  lemma QuotientExact(a: Value, b: Value)
    ensures ExactlyAs(Over, a, b, ApplyMulDiv(Slash, a, b))
  {
    if a.I? && b.I? && b.i != 0 && TRem(a.i, b.i) == 0 { ExactQuotient(a.i, b.i); }
  }

  /** Each operator is exact on the numbers its operands stand for. */
  lemma OperatorExact(op: ArithOp, a: Value, b: Value)
    ensures ExactlyAs(op, a, b, RunOp(op, a, b))
  {
    match op
    case Star => ProductExact(a, b);
    case Over => QuotientExact(a, b);
    case _ => SumExact(a, b);
  }

  /** Promotion preserves meaning: a run that ends with a number, in either
      representation, ends with the exact rational value; one that ends with
      an error met a zero divisor. Only the undefined quotient escapes. */
  lemma {:induction false} PromotionExact(e: Expr)
    ensures match Run(e)
            case Ok(v) => Exact(e) == Some(Num(v))
            case Err(code) => code == ZERO_DIVISOR && Exact(e) == None
            case Undefined => HasMinByMinusOne(e)
  {
    match e
    case Lit(n) =>
    case Neg(a) => PromotionExact(a);
    case Bin(op, l, r) =>
      PromotionExact(l);
      PromotionExact(r);
      if Run(l).Ok? && Run(r).Ok? {
        OperatorExact(op, Run(l).value, Run(r).value);
      }
  }

  /** The undefined quotient arises in just one way. */
  predicate HasMinByMinusOne(e: Expr) {
    match e
    case Lit(_) => false
    case Neg(a) => HasMinByMinusOne(a)
    case Bin(op, l, r) =>
      HasMinByMinusOne(l) || HasMinByMinusOne(r)
      || (op == Over && Run(l) == Ok(I(MIN_INT)) && Run(r) == Ok(I(-1)))
  }

  /** Hence, without that quotient, a number comes back exactly when no divisor
      is zero. */
  lemma PromotionTotal(e: Expr)
    requires !HasMinByMinusOne(e)
    ensures Run(e).Ok? <==> Exact(e).Some?
    ensures Run(e).Ok? ==> Num(Run(e).value) == Exact(e).value
  {
    PromotionExact(e);
  }
}
