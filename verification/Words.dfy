/** Machine words of the 32-bit target: `long`, `unsigned long`, `char` and
    their conversions, as ranges of the unbounded integers. */
module Words {
  const TWO31: int := 0x8000_0000
  const TWO32: int := 0x1_0000_0000
  const MIN_INT: int := -0x8000_0000
  const MAX_INT: int := 0x7fff_ffff

  type int32 = x: int | -0x8000_0000 <= x < 0x8000_0000
  type word = x: int | 0 <= x < 0x1_0000_0000
  type byte = x: int | 0 <= x < 0x100

  predicate Fits(x: int) { MIN_INT <= x <= MAX_INT }

  /** Reduction modulo 2^32 into the unsigned range. */
  function ToWord(x: int): (w: word)
    ensures 0 <= x < TWO32 ==> w == x
    ensures -TWO32 <= x < 0 ==> w == x + TWO32
  {
    x % TWO32
  }

  /** Two's complement reading of an unsigned word. */
  function ToSigned(w: word): int32 {
    if w < TWO31 then w else w - TWO32
  }

  /** The value a signed 32-bit register holds after computing `x`. */
  function Wrap(x: int): (r: int32)
    ensures Fits(x) ==> r == x
    ensures TWO31 <= x < TWO31 + TWO32 ==> r == x - TWO32
    ensures MIN_INT - TWO32 <= x < MIN_INT ==> r == x + TWO32
  {
    ToSigned(ToWord(x))
  }

  function Abs(x: int): nat { if x < 0 then -x else x }

  datatype Option<+T> = None | Some(value: T)

  // ---------------------------------------------------------------- bitwise operators

  const WIDTH: nat := 32

  function Pow2(n: nat): nat { if n == 0 then 1 else 2 * Pow2(n - 1) }

  lemma Pow2Of32()
    ensures Pow2(WIDTH) == TWO32
  {
    assert Pow2(8) == 0x100;
    assert Pow2(16) == 0x1_0000;
    assert Pow2(24) == 0x100_0000;
    assert Pow2(32) == 0x1_0000_0000;
  }

  /** Combines the low `n` bits of two words bit by bit. */
  function BitZip(f: (bool, bool) -> bool, n: nat, x: nat, y: nat): (r: nat)
    ensures r < Pow2(n)
  {
    if n == 0 then 0
    else (if f(x % 2 == 1, y % 2 == 1) then 1 else 0) + 2 * BitZip(f, n - 1, x / 2, y / 2)
  }

  function Zip32(f: (bool, bool) -> bool, x: word, y: word): word {
    Pow2Of32();
    BitZip(f, WIDTH, x, y)
  }

  function AndBits(x: word, y: word): word { Zip32((a, b) => a && b, x, y) }

  /** The inclusive or of the low `n` bits. */
  function BitOr(n: nat, x: nat, y: nat): (r: nat)
    ensures r < Pow2(n)
  {
    if n == 0 then 0
    else (if x % 2 == 1 || y % 2 == 1 then 1 else 0) + 2 * BitOr(n - 1, x / 2, y / 2)
  }

  function OrBits(x: word, y: word): word {
    Pow2Of32();
    BitOr(WIDTH, x, y)
  }

  function XorBits(x: word, y: word): word { Zip32((a, b) => a != b, x, y) }

  /** The ones' complement. */
  function NotBits(x: word): word { 0xffff_ffff - x }

  /** Operators that agree on bits agree on words. */
  lemma {:induction false} ZipSame(f: (bool, bool) -> bool, g: (bool, bool) -> bool, n: nat, x: nat, y: nat)
    requires forall a, b :: f(a, b) == g(a, b)
    ensures BitZip(f, n, x, y) == BitZip(g, n, x, y)
  {
    if n > 0 { ZipSame(f, g, n - 1, x / 2, y / 2); }
  }

  lemma {:induction false} OrIsZip(f: (bool, bool) -> bool, n: nat, x: nat, y: nat)
    requires forall a, b :: f(a, b) == (a || b)
    ensures BitOr(n, x, y) == BitZip(f, n, x, y)
  {
    if n > 0 { OrIsZip(f, n - 1, x / 2, y / 2); }
  }

  lemma HalfComplement(n: nat, x: nat)
    requires n > 0 && x < Pow2(n)
    ensures var m := Pow2(n) - 1 - x; m / 2 == Pow2(n - 1) - 1 - x / 2 && (m % 2 == 1) == (x % 2 == 0)
  {
  }

  /** The complement of a result is the complemented operator. */
  lemma {:induction false} ZipComplement(f: (bool, bool) -> bool, g: (bool, bool) -> bool, n: nat, x: nat, y: nat)
    requires forall a, b :: g(a, b) == !f(a, b)
    ensures Pow2(n) - 1 - BitZip(f, n, x, y) == BitZip(g, n, x, y)
  {
    if n > 0 { ZipComplement(f, g, n - 1, x / 2, y / 2); }
  }

  /** Combining the complement of `x` with a result on `x` and `y`. */
  lemma {:induction false} ZipNested(f: (bool, bool) -> bool, g: (bool, bool) -> bool, h: (bool, bool) -> bool, n: nat, x: nat, y: nat)
    requires x < Pow2(n) && forall a, b :: h(a, b) == f(!a, g(a, b))
    ensures BitZip(f, n, Pow2(n) - 1 - x, BitZip(g, n, x, y)) == BitZip(h, n, x, y)
  {
    if n > 0 {
      HalfComplement(n, x);
      var b := if g(x % 2 == 1, y % 2 == 1) then 1 else 0;
      var rest := BitZip(g, n - 1, x / 2, y / 2);
      assert BitZip(g, n, x, y) == b + 2 * rest;
      assert (b + 2 * rest) / 2 == rest && ((b + 2 * rest) % 2 == 1) == g(x % 2 == 1, y % 2 == 1);
      ZipNested(f, g, h, n - 1, x / 2, y / 2);
    }
  }

  lemma {:induction false} BitOrZero(n: nat, v: nat)
    requires v < Pow2(n)
    ensures BitOr(n, 0, v) == v && BitOr(n, v, 0) == v
  {
    if n > 0 { BitOrZero(n - 1, v / 2); }
  }

  lemma OrZero(v: word)
    ensures OrBits(0, v) == v
  {
    Pow2Of32();
    BitOrZero(WIDTH, v);
  }

  /** Or-ing `d` into `k` cleared low bits adds it. */
  lemma {:induction false} BitOrLow(n: nat, k: nat, z: nat, d: nat)
    requires k <= n && d < Pow2(k) && z < Pow2(n - k)
    ensures BitOr(n, Pow2(k) * z, d) == Pow2(k) * z + d
    decreases k
  {
    if k == 0 {
      BitOrZero(n, z);
    } else {
      var w := Pow2(k - 1) * z;
      assert Pow2(k) * z == 2 * w;
      BitOrLow(n - 1, k - 1, z, d / 2);
    }
  }

  /** `(x << 4) | d` on a 32-bit register. */
  function ShiftIn(x: word, d: int): word { OrBits(ToWord(16 * x), ToWord(d)) }

  lemma ShiftMod(x: word)
    ensures (16 * x) % TWO32 == 16 * (x % 0x1000_0000)
  {
    var q, r := x / 0x1000_0000, x % 0x1000_0000;
    assert 16 * x == TWO32 * q + 16 * r;
  }

  lemma ShiftInNibble(x: word, d: nat)
    requires d < 16
    ensures ShiftIn(x, d) == 16 * (x % 0x1000_0000) + d
  {
    ShiftMod(x);
    Pow2Of32();
    assert Pow2(4) == 16 && Pow2(28) == 0x1000_0000 by { assert Pow2(WIDTH) == 16 * Pow2(28); }
    BitOrLow(WIDTH, 4, x % 0x1000_0000, d);
  }

  // ---------------------------------------------------------------- single bits

  function Bit(x: nat, k: nat): bool
    decreases k
  {
    if k == 0 then x % 2 == 1 else Bit(x / 2, k - 1)
  }

  lemma {:induction false} BitZipBits(f: (bool, bool) -> bool, n: nat, x: nat, y: nat, k: nat)
    requires k < n
    ensures Bit(BitZip(f, n, x, y), k) == f(Bit(x, k), Bit(y, k))
    decreases n
  {
    var b := if f(x % 2 == 1, y % 2 == 1) then 1 else 0;
    var rest := BitZip(f, n - 1, x / 2, y / 2);
    assert BitZip(f, n, x, y) == b + 2 * rest;
    assert (b + 2 * rest) % 2 == b && (b + 2 * rest) / 2 == rest;
    if k > 0 { BitZipBits(f, n - 1, x / 2, y / 2, k - 1); }
  }

  lemma {:induction false} BitOrBits(n: nat, x: nat, y: nat, k: nat)
    requires k < n
    ensures Bit(BitOr(n, x, y), k) == (Bit(x, k) || Bit(y, k))
    decreases n
  {
    var b := if x % 2 == 1 || y % 2 == 1 then 1 else 0;
    var rest := BitOr(n - 1, x / 2, y / 2);
    assert BitOr(n, x, y) == b + 2 * rest;
    assert (b + 2 * rest) % 2 == b && (b + 2 * rest) / 2 == rest;
    if k > 0 { BitOrBits(n - 1, x / 2, y / 2, k - 1); }
  }

  lemma {:induction false} BitComplement(n: nat, w: nat, k: nat)
    requires k < n && w < Pow2(n)
    ensures Bit(Pow2(n) - 1 - w, k) == !Bit(w, k)
    decreases n
  {
    var m := Pow2(n) - 1 - w;
    assert m / 2 == Pow2(n - 1) - 1 - w / 2 && m % 2 == 1 - w % 2;
    if k > 0 { BitComplement(n - 1, w / 2, k - 1); }
  }
}
