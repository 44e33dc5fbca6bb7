/** Binary time of sys/time.h: seconds and a 64-bit binary fraction, updated in
    place, and its conversions to decimal fractions. */
module BinTime {
  import opened Words

  const TWO63: int := 0x8000_0000_0000_0000
  const TWO64: int := 0x1_0000_0000_0000_0000

  type int64 = x: int | -0x8000_0000_0000_0000 <= x < 0x8000_0000_0000_0000
  type word64 = x: int | 0 <= x < 0x1_0000_0000_0000_0000

  function Wrap64(x: int): int64 { (x + TWO63) % TWO64 - TWO63 }

  function ToWord64(x: int): word64 { x % TWO64 }

  /** A count of 2^-64 second ticks is representable when its seconds are. */
  predicate InRange(ticks: int) { -TWO63 * TWO64 <= ticks < TWO63 * TWO64 }

  /** Reduction of a tick count to the representable range, modulo 2^128. */
  function WrapTicks(ticks: int): int { Wrap64(ticks / TWO64) * TWO64 + ticks % TWO64 }

  function Ticks(sec: int, frac: int): int { sec * TWO64 + frac }

  lemma TicksParts(sec: int, frac: word64)
    ensures Ticks(sec, frac) / TWO64 == sec && Ticks(sec, frac) % TWO64 == frac
  {
  }

  /** In range nothing is lost. */
  lemma WrapExact(ticks: int)
    requires InRange(ticks)
    ensures WrapTicks(ticks) == ticks
  {
    assert -TWO63 <= ticks / TWO64 < TWO63;
  }

  lemma WrapTwice(x: int, y: int)
    ensures Wrap64(Wrap64(x) + y) == Wrap64(x + y)
  {
    var q := (x + TWO63) / TWO64;
    assert Wrap64(x) == x - q * TWO64;
    ModShift(x + y + TWO63, q);
  }

  lemma ModShift(x: int, q: int)
    ensures (x - q * TWO64) % TWO64 == x % TWO64
  {
    var r := x % TWO64;
    assert x == TWO64 * (x / TWO64) + r;
    assert x - q * TWO64 == TWO64 * (x / TWO64 - q) + r;
  }

  /** Seconds may wrap first and be combined later. */
  lemma WrapLate(x: int, frac: word64)
    ensures WrapTicks(Ticks(x, frac)) == Ticks(Wrap64(x), frac)
  {
    TicksParts(x, frac);
  }

  /** The carry test of the source and what the wrapped sum is. */
  lemma Carry(f: word64, g: word64)
    ensures f > ToWord64(f + g) <==> f + g >= TWO64
    ensures ToWord64(f + g) == f + g - (if f + g >= TWO64 then TWO64 else 0)
  {
  }

  lemma Borrow(f: word64, g: word64)
    ensures f < ToWord64(f - g) <==> f < g
    ensures ToWord64(f - g) == f - g + (if f < g then TWO64 else 0)
  {
  }

  /** A sum or product put together from its parts. */
  lemma Combined(s: int, frac: word64, total: int)
    requires total == Ticks(s, frac)
    ensures Ticks(Wrap64(s), frac) == WrapTicks(total)
  {
    WrapLate(s, frac);
  }

  lemma SelfCarry(s: int)
    ensures Wrap64(Wrap64(s + 1) + Wrap64(s + 1)) == Wrap64(2 * s + 2)
  {
    WrapTwice(s + 1, Wrap64(s + 1));
    WrapTwice(s + 1, s + 1);
  }

  class Bintime {
    var sec: int64
    var frac: word64

    function Value(): int
      reads this
    {
      Ticks(sec, frac)
    }

    method AddX(x: word64)
      modifies this
      ensures Value() == WrapTicks(old(Value()) + x)
    {
      var u := frac;
      Carry(u, x);
      frac := ToWord64(frac + x);
      if u > frac {
        sec := Wrap64(sec as int + 1);
      }
      Combined(old(sec) as int + (if u > frac then 1 else 0), frac, old(Value()) + x);
    }

    /** Exact, modulo the range of the seconds, unless a time is added to itself
        with a carry: its seconds then count the carry twice. */
    method Add(bt2: Bintime)
      modifies this
      ensures this != bt2 || old(frac) < TWO63 ==> Value() == WrapTicks(old(Value()) + old(bt2.Value()))
      ensures this == bt2 && old(frac) >= TWO63 ==> Value() == WrapTicks(old(Value()) + old(bt2.Value()) + TWO64)
      ensures this != bt2 ==> bt2.sec == old(bt2.sec) && bt2.frac == old(bt2.frac)
    {
      ghost var s1, s2: int, sum := sec as int, bt2.sec as int, Value() + bt2.Value();
      var u := frac;
      Carry(u, bt2.frac);
      frac := ToWord64(frac + bt2.frac);
      if u > frac {
        sec := Wrap64(sec as int + 1);
      }
      sec := Wrap64(sec as int + bt2.sec);
      if u > frac {
        WrapTwice(s1 + 1, s2);
        SelfCarry(s1);
        Combined(s1 + 1 + s2, frac, sum);
        Combined(s1 + 1 + s2 + 1, frac, sum + TWO64);
      } else {
        Combined(s1 + s2, frac, sum);
      }
    }

    /** Always exact modulo the range of the seconds. */
    method Sub(bt2: Bintime)
      modifies this
      ensures Value() == WrapTicks(old(Value()) - old(bt2.Value()))
      ensures this != bt2 ==> bt2.sec == old(bt2.sec) && bt2.frac == old(bt2.frac)
    {
      ghost var s1, s2: int, diff := sec as int, bt2.sec as int, Value() - bt2.Value();
      var u := frac;
      Borrow(u, bt2.frac);
      frac := ToWord64(frac - bt2.frac);
      if u < frac {
        sec := Wrap64(sec as int - 1);
      }
      sec := Wrap64(sec as int - bt2.sec);
      if u < frac {
        WrapTwice(s1 - 1, 0 - s2);
        Combined(s1 - 1 - s2, frac, diff);
      } else {
        Combined(s1 - s2, frac, diff);
      }
    }

    /** Times an unsigned 32-bit factor. */
    method Mul(x: word)
      modifies this
      ensures Value() == WrapTicks(old(Value()) * x)
    {
      ghost var s, f := sec as int, frac as int;
      var lo: word, hi: word := frac % TWO32, frac / TWO32;
      PartsFit(lo, hi, x);
      var p1: word64 := lo * x;
      var p2: word64 := hi * x + p1 / TWO32;
      sec := Wrap64(sec as int * x);
      sec := Wrap64(sec as int + p2 / TWO32);
      OrHalves(p2 % TWO32, p1 % TWO32);
      frac := Or64(ToWord64(p2 * TWO32), p1 % TWO32);
      HighShifted(p2);
      WrapTwice(s * x, p2 / TWO32);
      Product(f, x, lo, hi, p1, p2);
      assert old(Value()) * x == s * x * TWO64 + f * x by { Spread(s, f, x); }
      Combined(s * x + p2 / TWO32, frac, old(Value()) * x);
    }
  }

  lemma Spread(s: int, f: int, x: int)
    ensures Ticks(s, f) * x == s * x * TWO64 + f * x
  {
  }

  lemma PartsFit(lo: word, hi: word, x: word)
    ensures 0 <= lo * x <= (TWO32 - 1) * (TWO32 - 1) && 0 <= hi * x <= (TWO32 - 1) * (TWO32 - 1)
  {
    Arrange(lo, x);
    Arrange(hi, x);
  }

  lemma Arrange(y: word, x: word)
    ensures 0 <= y * x <= (TWO32 - 1) * (TWO32 - 1)
  {
    Monotone(0, y, x);
    Monotone(y, TWO32 - 1, x);
  }

  lemma Monotone(a: nat, b: nat, x: nat)
    requires a <= b
    ensures a * x <= b * x
  {
    assert (b - a) * x >= 0;
  }

  /** The product of the fraction from its two halves. */
  lemma Product(f: int, x: int, lo: int, hi: int, p1: int, p2: int)
    requires f == hi * TWO32 + lo && p1 == lo * x && p2 == hi * x + p1 / TWO32
    ensures f * x == p2 / TWO32 * TWO64 + p2 % TWO32 * TWO32 + p1 % TWO32
  {
    assert f * x == hi * x * TWO32 + p1;
    assert p1 == p1 / TWO32 * TWO32 + p1 % TWO32;
    assert p2 == p2 / TWO32 * TWO32 + p2 % TWO32;
  }

  // ---------------------------------------------------------------- the word put together with `|`

  const WIDTH64: nat := 64

  lemma Pow2Of64()
    ensures Pow2(WIDTH64) == TWO64 && Pow2(WIDTH) == TWO32
  {
    Pow2Of32();
    assert Pow2(40) == 0x100_0000_0000;
    assert Pow2(48) == 0x1_0000_0000_0000;
    assert Pow2(56) == 0x100_0000_0000_0000;
    assert Pow2(64) == 0x1_0000_0000_0000_0000;
  }

  function Or64(x: word64, y: word64): word64 {
    Pow2Of64();
    BitOr(WIDTH64, x, y)
  }

  lemma OrHalves(hi: word, lo: word)
    ensures Or64(TWO32 * hi, lo) == TWO32 * hi + lo
  {
    Pow2Of64();
    assert WIDTH64 - WIDTH == WIDTH;
    BitOrLow(WIDTH64, WIDTH, hi, lo);
  }

  lemma HighShifted(p: word64)
    ensures ToWord64(p * TWO32) == TWO32 * (p % TWO32)
  {
    var q, r := p / TWO32, p % TWO32;
    assert p * TWO32 == TWO64 * q + TWO32 * r;
  }

  // ---------------------------------------------------------------- laws

  /** Subtracting what was added restores the time, even across a wrap. */
  lemma SubUndoesAdd(a: int, b: int)
    requires InRange(a)
    ensures WrapTicks(WrapTicks(a + b) - b) == a
  {
    var s1, s2 := a / TWO64, b / TWO64;
    var f1: word64, f2: word64 := a % TWO64, b % TWO64;
    Carry(f1, f2);
    var f, c := ToWord64(f1 + f2), if f1 + f2 >= TWO64 then 1 else 0;
    var s := s1 + s2 + c;
    Combined(s, f, a + b);
    Combined(Wrap64(s) - s2 - c, f1, WrapTicks(a + b) - b);
    WrapTwice(s, 0 - s2 - c);
    WrapExact(a);
    WrapLate(s1, f1);
  }

  lemma ValueParts(s: int, f: word64, t: int, g: word64)
    requires Ticks(s, f) == Ticks(t, g)
    ensures s == t && f == g
  {
    TicksParts(s, f);
    TicksParts(t, g);
  }

  /** `bintime_sub` undoes `bintime_add`. */
  method AddThenSub(bt: Bintime, bt2: Bintime)
    requires bt != bt2
    modifies bt
    ensures bt.sec == old(bt.sec) && bt.frac == old(bt.frac)
  {
    ghost var a, b := bt.Value(), bt2.Value();
    bt.Add(bt2);
    bt.Sub(bt2);
    TicksInRange(old(bt.sec), old(bt.frac));
    SubUndoesAdd(a, b);
    ValueParts(bt.sec, bt.frac, old(bt.sec), old(bt.frac));
  }

  lemma TicksInRange(s: int64, f: word64)
    ensures InRange(Ticks(s, f))
  {
  }

  // ---------------------------------------------------------------- decimal fractions

  /** `tv_nsec` and `tv_usec` are the two units. */
  datatype Unit = Nano | Micro

  function PerSecond(u: Unit): int { if u.Nano? then 1000000000 else 1000000 }

  /** Ticks per unit, rounded down. */
  function PerUnit(u: Unit): int { if u.Nano? then 18446744073 else 18446744073709 }

  lemma PerUnitRoundedDown(u: Unit)
    ensures PerUnit(u) == TWO64 / PerSecond(u)
  {
  }

  function ToFrac(u: Unit, n: int): word64 { ToWord64(n * PerUnit(u)) }

  function FromFrac(u: Unit, frac: word64): int { PerSecond(u) * (frac / TWO32) / TWO32 }

  class Decimal {
    var sec: int64
    var part: int
    const unit: Unit

    constructor (u: Unit)
      ensures unit == u
    {
      sec, part, unit := 0, 0, u;
    }

    predicate Normalised()
      reads this
    {
      0 <= part < PerSecond(unit)
    }

    /** `bintime2timespec` and `bintime2timeval`. */
    method FromBintime(bt: Bintime)
      modifies this
      ensures sec == bt.sec && part == FromFrac(unit, bt.frac) && Normalised()
    {
      sec := bt.sec;
      var hi: word := bt.frac / TWO32;
      PartBound(unit, hi);
      part := PerSecond(unit) * hi / TWO32;
    }

    /** `timespec2bintime` and `timeval2bintime`. */
    method ToBintime(bt: Bintime)
      requires Normalised()
      modifies bt
      ensures bt.sec == sec && bt.frac == part * PerUnit(unit)
    {
      bt.sec := sec;
      FracFits(unit, part);
      bt.frac := ToWord64(part * PerUnit(unit));
    }
  }

  lemma PartBound(u: Unit, hi: word)
    ensures 0 <= PerSecond(u) * hi / TWO32 < PerSecond(u)
  {
    assert 0 <= PerSecond(u) * hi < PerSecond(u) * TWO32;
  }

  lemma FracFits(u: Unit, n: int)
    requires 0 <= n < PerSecond(u)
    ensures 0 <= n * PerUnit(u) < TWO64 && ToFrac(u, n) == n * PerUnit(u)
  {
  }

  /** A decimal fraction comes back one unit smaller, except zero, which comes
      back as it is: never more, and never two units less. */
  lemma DecimalRoundTrip(u: Unit, n: int)
    requires 0 <= n < PerSecond(u)
    ensures FromFrac(u, ToFrac(u, n)) == if n == 0 then 0 else n - 1
  {
    FracFits(u, n);
    var h := n * PerUnit(u) / TWO32;
    assert h * TWO32 <= n * PerUnit(u) < (h + 1) * TWO32;
    if n > 0 {
      assert (n - 1) * TWO32 <= PerSecond(u) * h < n * TWO32;
      Quotient(PerSecond(u) * h, n - 1);
    }
  }

  lemma Quotient(x: int, q: int)
    requires q * TWO32 <= x < (q + 1) * TWO32
    ensures x / TWO32 == q
  {
  }

  /** The whole trip through binary time. */
  method ThereAndBack(d: Decimal, bt: Bintime)
    requires d.Normalised()
    modifies d, bt
    ensures d.sec == old(d.sec) && d.Normalised()
    ensures d.part == if old(d.part) == 0 then 0 else old(d.part) - 1
  {
    FracFits(d.unit, d.part);
    DecimalRoundTrip(d.unit, d.part);
    d.ToBintime(bt);
    d.FromBintime(bt);
  }

  /** A binary fraction never gains on its way through a decimal one and loses
      less than two units. */
  lemma BinaryRoundTrip(u: Unit, frac: word64)
    ensures 0 <= FromFrac(u, frac) < PerSecond(u)
    ensures ToFrac(u, FromFrac(u, frac)) <= frac < ToFrac(u, FromFrac(u, frac)) + 2 * PerUnit(u)
  {
    var h: word := frac / TWO32;
    var t := FromFrac(u, frac);
    PartBound(u, h);
    FracFits(u, t);
    assert h * TWO32 <= frac < (h + 1) * TWO32;
    assert t * TWO32 <= PerSecond(u) * h < (t + 1) * TWO32;
  }
}
