/** The binary upload protocol: `sio_load_binary` of boot/rom/loader.c and
    `binboot` of boot/sio/binboot.c. The serial line is a sequence of bytes in
    and a sequence of bytes out. */
module Upload {
  import opened Words

  /** A cell outside the map reads as zero. */
  type Memory = map<word, byte>

  function Get(m: Memory, a: word): byte { if a in m then m[a] else 0 }

  /** The two loaders; the ROM one reads blocks back through plain `char`,
      whose sign is the compiler's choice. */
  datatype Loader = Rom(signedChar: bool) | Sio

  datatype Regs = Regs(base: word, len: word, crc: word, mem: Memory, out: seq<byte>, baud: Option<int>)

  /** The loader jumps into the image, goes back to the hex loader, or waits for
      more input. */
  datatype End = Jump(target: word, r: Regs) | HexLoader(r: Regs) | Blocked(r: Regs)

  function Power(mem: Memory): Regs { Regs(0, 0, 0, mem, [], None) }

  // ---------------------------------------------------------------- the rotate-and-add checksum

  /** `(crc >> 31) | (crc << 1)`. */
  function Rotate(x: word): word { OrBits(x / TWO31, ToWord(2 * x)) }

  function Plus(x: word, y: word): word { ToWord(x + y) }

  function CrcStep(crc: word, b: word): word { Plus(Rotate(crc), b) }

  function Crc(crc: word, bs: seq<byte>): word
    decreases |bs|
  {
    if bs == [] then crc else Crc(CrcStep(crc, bs[0]), bs[1..])
  }

  /** Rotating right and subtracting. */
  function Unrotate(y: word): word { y / 2 + y % 2 * TWO31 }

  function CrcUnstep(crc: word, b: word): word { Unrotate(ToWord(crc - b)) }

  function CrcBack(crc: word, bs: seq<byte>): word
    decreases |bs|
  {
    if bs == [] then crc else CrcUnstep(CrcBack(crc, bs[1..]), bs[0])
  }

  lemma {:induction false} BitOrSwap(n: nat, x: nat, y: nat)
    ensures BitOr(n, x, y) == BitOr(n, y, x)
  {
    if n > 0 { BitOrSwap(n - 1, x / 2, y / 2); }
  }

  lemma DoubleMod(x: word)
    ensures ToWord(2 * x) == 2 * (x % TWO31)
  {
  }

  lemma RotateIs(x: word)
    ensures Rotate(x) == 2 * (x % TWO31) + x / TWO31
  {
    DoubleMod(x);
    Pow2Of32();
    assert Pow2(1) == 2 && Pow2(31) == TWO31 by { assert Pow2(WIDTH) == 2 * Pow2(31); }
    BitOrSwap(WIDTH, x / TWO31, ToWord(2 * x));
    BitOrLow(WIDTH, 1, x % TWO31, x / TWO31);
  }

  lemma Halves(h: nat, l: nat)
    requires h < 2 && l < TWO31
    ensures (TWO31 * h + l) % TWO31 == l && (TWO31 * h + l) / TWO31 == h && (2 * l + h) % 2 == h && (2 * l + h) / 2 == l
  {
  }

  lemma RotateParts(h: nat, l: nat)
    requires h < 2 && l < TWO31
    ensures Rotate(TWO31 * h + l) == 2 * l + h && Unrotate(2 * l + h) == TWO31 * h + l
  {
    Halves(h, l);
    RotateIs(TWO31 * h + l);
  }

  lemma RotateUndone(x: word)
    ensures Unrotate(Rotate(x)) == x
  {
    var h, l := x / TWO31, x % TWO31;
    assert x == TWO31 * h + l;
    RotateParts(h, l);
  }

  lemma UnrotateUndone(x: word)
    ensures Rotate(Unrotate(x)) == x
  {
    var h, l := x % 2, x / 2;
    assert x == 2 * l + h;
    RotateParts(h, l);
  }

  lemma PlusInverse(x: word, y: word)
    ensures ToWord(Plus(x, y) - y) == x && Plus(ToWord(x - y), y) == x
  {
  }

  lemma StepUndone(c: word, b: word)
    ensures CrcUnstep(CrcStep(c, b), b) == c
  {
    PlusInverse(Rotate(c), b);
    RotateUndone(c);
  }

  lemma UnstepUndone(c: word, b: word)
    ensures CrcStep(CrcUnstep(c, b), b) == c
  {
    PlusInverse(c, b);
    UnrotateUndone(ToWord(c - b));
  }

  /** For every suffix of a block the checksum is a bijection of the running
      value: `CrcBack` is its two-sided inverse. */
  lemma {:induction false} CrcBijective(c: word, bs: seq<byte>)
    ensures CrcBack(Crc(c, bs), bs) == c && Crc(CrcBack(c, bs), bs) == c
    decreases |bs|
  {
    if bs != [] {
      CrcBijective(CrcStep(c, bs[0]), bs[1..]);
      StepUndone(c, bs[0]);
      CrcBijective(c, bs[1..]);
      UnstepUndone(CrcBack(c, bs[1..]), bs[0]);
    }
  }

  lemma {:induction false} CrcAppend(c: word, a: seq<byte>, b: seq<byte>)
    ensures Crc(c, a + b) == Crc(Crc(c, a), b)
    decreases |a|
  {
    if a == [] {
      assert a + b == b;
    } else {
      assert (a + b)[0] == a[0] && (a + b)[1..] == a[1..] + b;
      CrcAppend(CrcStep(c, a[0]), a[1..], b);
    }
  }

  lemma SplitAt(c: word, bs: seq<byte>, i: nat)
    requires i < |bs|
    ensures Crc(c, bs) == Crc(CrcStep(Crc(c, bs[..i]), bs[i]), bs[i + 1..])
  {
    assert bs == bs[..i] + bs[i..];
    CrcAppend(c, bs[..i], bs[i..]);
    assert bs[i..][1..] == bs[i + 1..];
  }

  lemma PlusDiffers(x: word, y: word, z: word)
    requires y != z
    ensures Plus(x, y) != Plus(x, z)
  {
  }

  /** Two blocks of the same length that differ in exactly one byte never have
      the same checksum. */
  lemma OneByteDetected(c: word, bs: seq<byte>, i: nat, b: byte)
    requires i < |bs| && b != bs[i]
    ensures Crc(c, bs[i := b]) != Crc(c, bs)
  {
    var after, p := bs[i + 1..], Crc(c, bs[..i]);
    SplitAt(c, bs, i);
    SplitAt(c, bs[i := b], i);
    assert bs[i := b][..i] == bs[..i] && bs[i := b][i + 1..] == after;
    PlusDiffers(Rotate(p), b, bs[i]);
    CrcBijective(CrcStep(p, bs[i]), after);
    CrcBijective(CrcStep(p, b), after);
  }

  /** The checksums of two blocks with a common end agree exactly when the
      values before that end do. */
  lemma SameEnd(p: word, q: word, after: seq<byte>)
    ensures Crc(p, after) == Crc(q, after) <==> p == q
  {
    CrcBijective(p, after);
    CrcBijective(q, after);
  }

  /** Exactly when two changed bytes cancel: the step at the second of them must
      bring the two running values together again. */
  lemma PairMissedExactly(c: word, bs: seq<byte>, i: nat, j: nat, x: byte, y: byte)
    requires i < j < |bs|
    ensures Crc(c, bs[i := x][j := y]) == Crc(c, bs)
            <==> Plus(Rotate(Crc(c, bs[..j][i := x])), y) == Plus(Rotate(Crc(c, bs[..j])), bs[j])
  {
    var changed, after := bs[i := x][j := y], bs[j + 1..];
    SplitAt(c, bs, j);
    SplitAt(c, changed, j);
    assert changed[..j] == bs[..j][i := x] && changed[j + 1..] == after;
    SameEnd(CrcStep(Crc(c, bs[..j][i := x]), y), CrcStep(Crc(c, bs[..j]), bs[j]), after);
  }

  // ---------------------------------------------------------------- short blocks

  /** Each byte weighs twice as much as the next one. */
  function Weighted(bs: seq<byte>): nat
    decreases |bs|
  {
    if bs == [] then 0 else 2 * Weighted(bs[..|bs| - 1]) + bs[|bs| - 1]
  }

  lemma {:induction false} WeightedBound(bs: seq<byte>)
    ensures Weighted(bs) <= 255 * (Pow2(|bs|) - 1)
    decreases |bs|
  {
    if bs != [] { WeightedBound(bs[..|bs| - 1]); }
  }

  lemma {:induction false} Pow2Grows(m: nat, n: nat)
    requires m <= n
    ensures Pow2(m) <= Pow2(n)
    decreases n
  {
    if m < n { Pow2Grows(m, n - 1); }
  }

  /** The longest block whose checksum cannot wrap. */
  const SHORT: nat := 24

  lemma ShortBound(bs: seq<byte>)
    requires |bs| < SHORT
    ensures Weighted(bs) < TWO31 && 2 * Weighted(bs) + 255 < TWO32
  {
    WeightedBound(bs);
    Pow2Grows(|bs|, SHORT - 1);
    assert Pow2(8) == 0x100;
    assert Pow2(16) == 0x1_0000;
    assert Pow2(23) == 0x80_0000;
  }

  lemma SmallStep(v: word, b: byte)
    requires v < TWO31 && 2 * v + b < TWO32
    ensures CrcStep(v, b) == 2 * v + b
  {
    RotateIs(v);
  }

  /** The checksum of a block of at most 24 bytes is the weighted sum. */
  lemma {:induction false} ShortCrc(bs: seq<byte>)
    requires |bs| <= SHORT
    ensures Crc(0, bs) == Weighted(bs)
    decreases |bs|
  {
    if bs != [] {
      var n := |bs| - 1;
      ShortCrc(bs[..n]);
      ShortBound(bs[..n]);
      SmallStep(Weighted(bs[..n]), bs[n]);
      SplitAt(0, bs, n);
      assert bs[n + 1..] == [];
    }
  }

  /** Hence two such blocks collide exactly when their weighted sums agree. */
  lemma ShortCollide(a: seq<byte>, b: seq<byte>)
    requires |a| <= SHORT && |b| <= SHORT
    ensures Crc(0, a) == Crc(0, b) <==> Weighted(a) == Weighted(b)
  {
    ShortCrc(a);
    ShortCrc(b);
  }

  /** `d` times two to the power `n`. */
  function Scale(d: int, n: nat): int { if n == 0 then d else 2 * Scale(d, n - 1) }

  lemma {:induction false} ScaleIs(d: int, n: nat)
    ensures Scale(d, n) == d * Pow2(n)
  {
    if n > 0 {
      ScaleIs(d, n - 1);
      Doubled(d, Pow2(n - 1));
    }
  }

  lemma Doubled(d: int, p: int)
    ensures 2 * (d * p) == d * (2 * p)
  {
  }

  lemma {:induction false} ScaleTwice(d: int, m: nat, n: nat)
    ensures Scale(Scale(d, m), n) == Scale(d, m + n)
    decreases n
  {
    if n > 0 { ScaleTwice(d, m, n - 1); }
  }

  lemma {:induction false} ScaleSum(d: int, e: int, n: nat)
    ensures Scale(d, n) + Scale(e, n) == Scale(d + e, n)
  {
    if n > 0 { ScaleSum(d, e, n - 1); }
  }

  lemma {:induction false} ScaleZero(d: int, n: nat)
    ensures Scale(d, n) == 0 <==> d == 0
  {
    if n > 0 { ScaleZero(d, n - 1); }
  }

  lemma {:induction false} ScaleFar(d: int, n: nat)
    requires d != 0
    ensures n >= 8 ==> Scale(d, n) >= 256 || Scale(d, n) <= -256
    ensures d > 0 ==> Scale(d, n) > 0
    ensures d < 0 ==> Scale(d, n) < 0
  {
    if n > 8 {
      ScaleFar(d, n - 1);
    } else if n > 0 {
      ScaleFar(d, n - 1);
      if n == 8 {
        ScaleIs(d, n);
        assert Pow2(8) == 256;
      }
    }
  }

  lemma {:induction false} WeightedUpdate(bs: seq<byte>, i: nat, x: byte)
    requires i < |bs|
    ensures Weighted(bs[i := x]) == Weighted(bs) + Scale(x - bs[i], |bs| - 1 - i)
    decreases |bs|
  {
    var n := |bs| - 1;
    if i == n {
      assert bs[i := x][..n] == bs[..n];
    } else {
      assert bs[i := x][..n] == bs[..n][i := x];
      WeightedUpdate(bs[..n], i, x);
    }
  }

  lemma WeightedPair(bs: seq<byte>, i: nat, j: nat, x: byte, y: byte)
    requires i < j < |bs|
    ensures Weighted(bs[i := x][j := y]) == Weighted(bs) + Scale(Scale(x - bs[i], j - i) + (y - bs[j]), |bs| - 1 - j)
  {
    var near := |bs| - 1 - j;
    WeightedUpdate(bs, i, x);
    WeightedUpdate(bs[i := x], j, y);
    ScaleTwice(x - bs[i], j - i, near);
    ScaleSum(Scale(x - bs[i], j - i), y - bs[j], near);
  }

  lemma WeightedPairMissed(bs: seq<byte>, i: nat, j: nat, x: byte, y: byte)
    requires i < j < |bs|
    ensures Weighted(bs[i := x][j := y]) == Weighted(bs) <==> Scale(x - bs[i], j - i) == bs[j] - y
  {
    WeightedPair(bs, i, j, x, y);
    ScaleZero(Scale(x - bs[i], j - i) + (y - bs[j]), |bs| - 1 - j);
  }

  /** In a short block two changed bytes cancel exactly when the first change,
      doubled once for each byte from the first to the second, undoes the
      second. */
  lemma ShortPairMissed(bs: seq<byte>, i: nat, j: nat, x: byte, y: byte)
    requires i < j < |bs| <= SHORT
    ensures Crc(0, bs[i := x][j := y]) == Crc(0, bs) <==> Scale(x - bs[i], j - i) == bs[j] - y
  {
    ShortCollide(bs[i := x][j := y], bs);
    WeightedPairMissed(bs, i, j, x, y);
  }

  lemma WeightedFar(bs: seq<byte>, i: nat, j: nat, x: byte, y: byte)
    requires i + 8 <= j < |bs| && x != bs[i]
    ensures Weighted(bs[i := x][j := y]) != Weighted(bs)
  {
    ScaleFar(x - bs[i], j - i);
    WeightedPairMissed(bs, i, j, x, y);
  }

  /** So changes eight or more bytes apart in a short block never cancel. */
  lemma FarPairDetected(bs: seq<byte>, i: nat, j: nat, x: byte, y: byte)
    requires i + 8 <= j < |bs| <= SHORT && x != bs[i]
    ensures Crc(0, bs[i := x][j := y]) != Crc(0, bs)
  {
    WeightedFar(bs, i, j, x, y);
    ShortCollide(bs[i := x][j := y], bs);
  }

  lemma WeightedNeighbours(bs: seq<byte>, i: nat, x: byte, y: byte)
    requires i + 1 < |bs|
    ensures Weighted(bs[i := x][i + 1 := y]) == Weighted(bs) <==> 2 * (x - bs[i]) == bs[i + 1] - y
  {
    var d, n := x - bs[i], i + 1 - i;
    assert Scale(d, n - 1) == d;
    WeightedPairMissed(bs, i, i + 1, x, y);
  }

  /** Neighbouring changes cancel exactly when the second is minus twice the
      first: one less, then two more. */
  lemma TwoBytesMissed(bs: seq<byte>, i: nat, x: byte, y: byte)
    requires i + 1 < |bs| <= SHORT
    ensures Crc(0, bs[i := x][i + 1 := y]) == Crc(0, bs) <==> 2 * (x - bs[i]) == bs[i + 1] - y
  {
    WeightedNeighbours(bs, i, x, y);
    ShortCollide(bs[i := x][i + 1 := y], bs);
  }

  /** The smallest blocks that collide. */
  lemma CollidingBlocks()
    ensures Crc(0, [1, 0]) == Crc(0, [0, 2])
  {
    TwoBytesMissed([1, 0], 0, 0, 2);
    assert [1, 0][0 := 0][1 := 2] == [0, 2];
  }

  // ---------------------------------------------------------------- words on the wire

  function BaseIn(base: word, bs: seq<byte>): word
    decreases |bs|
  {
    if bs == [] then base else BaseIn(ToWord(256 * base + bs[0]), bs[1..])
  }

  /** The `n` top bytes of `t`, the highest first. */
  function TopBytes(t: word, n: nat): (bs: seq<byte>)
    ensures |bs| == n
    decreases n
  {
    if n == 0 then [] else [t / 0x100_0000] + TopBytes(ToWord(256 * t), n - 1)
  }

  const WORD_BYTES: nat := 4

  function Reply(crc: word): seq<byte> { TopBytes(crc, WORD_BYTES) }

  /** The word with the four given bytes, the highest first. */
  function Join(x: byte, y: byte, z: byte, w: byte): word { 0x100_0000 * x + 0x1_0000 * y + 256 * z + w }

  lemma Digits(c: word) returns (x: byte, y: byte, z: byte, w: byte)
    ensures c == Join(x, y, z, w)
  {
    x, y, z, w := c / 0x100_0000, c / 0x1_0000 % 256, c / 256 % 256, c % 256;
    assert c / 256 == c / 0x1_0000 * 256 + z;
    assert c / 0x1_0000 == x * 256 + y;
  }

  lemma ShiftByte(x: byte, y: byte, z: byte, w: byte, b: byte)
    ensures ToWord(256 * Join(x, y, z, w) + b) == Join(y, z, w, b) && Join(x, y, z, w) / 0x100_0000 == x
  {
    assert 256 * Join(x, y, z, w) + b == TWO32 * x + Join(y, z, w, b);
  }

  lemma TopByte(x: byte, y: byte, z: byte, w: byte, n: nat)
    requires n > 0
    ensures TopBytes(Join(x, y, z, w), n) == [x] + TopBytes(Join(y, z, w, 0), n - 1)
  {
    ShiftByte(x, y, z, w, 0);
  }

  lemma ReadByte(x: byte, y: byte, z: byte, w: byte, b: byte, bs: seq<byte>)
    ensures BaseIn(Join(x, y, z, w), [b] + bs) == BaseIn(Join(y, z, w, b), bs)
  {
    ShiftByte(x, y, z, w, b);
    assert ([b] + bs)[0] == b && ([b] + bs)[1..] == bs;
  }

  lemma SendByte(p: byte, q: byte, r: byte, s: byte, x: byte, y: byte, z: byte, w: byte, n: nat)
    requires n > 0
    ensures BaseIn(Join(p, q, r, s), TopBytes(Join(x, y, z, w), n)) == BaseIn(Join(q, r, s, x), TopBytes(Join(y, z, w, 0), n - 1))
  {
    TopByte(x, y, z, w, n);
    ReadByte(p, q, r, s, x, TopBytes(Join(y, z, w, 0), n - 1));
  }

  /** Sending the top `n` bytes of one word into another. */
  lemma {:induction false} SendBytes(p: byte, q: byte, r: byte, s: byte, x: byte, y: byte, z: byte, w: byte, n: nat)
    requires n <= WORD_BYTES
    ensures BaseIn(Join(p, q, r, s), TopBytes(Join(x, y, z, w), n))
            == if n == 0 then Join(p, q, r, s) else if n == 1 then Join(q, r, s, x) else if n == 2 then Join(r, s, x, y)
               else if n == 3 then Join(s, x, y, z) else Join(x, y, z, w)
    decreases n
  {
    if n > 0 {
      SendByte(p, q, r, s, x, y, z, w, n);
      SendBytes(q, r, s, x, y, z, w, 0, n - 1);
    }
  }

  /** The four reply bytes of a read-crc command, sent back as a base address,
      set the base to that crc, whatever it was. */
  lemma ReplyDecodes(base: word, crc: word)
    ensures BaseIn(base, Reply(crc)) == crc
  {
    var p, q, r, s := Digits(base);
    var x, y, z, w := Digits(crc);
    SendBytes(p, q, r, s, x, y, z, w, WORD_BYTES);
  }

  // ---------------------------------------------------------------- the loader

  /** Stores consecutive bytes, wrapping at the end of the address space. */
  function Poke(m: Memory, a: word, bs: seq<byte>): Memory
    decreases |bs|
  {
    if bs == [] then m else Poke(m[a := bs[0]], ToWord(a + 1), bs[1..])
  }

  function Cell(a: word, i: nat): word { ToWord(a + i) }

  function Peek(m: Memory, a: word, n: nat): seq<byte> { seq(n, i requires 0 <= i => Get(m, Cell(a, i))) }

  /** A `char` widened to 32 bits. */
  function Widen(signedChar: bool, b: byte): word { if signedChar && b >= 128 then b + 0xffff_ff00 else b }

  function CharCrc(signedChar: bool, crc: word, bs: seq<byte>): word
    decreases |bs|
  {
    if bs == [] then crc else CharCrc(signedChar, CrcStep(crc, Widen(signedChar, bs[0])), bs[1..])
  }

  function Speed(base: word): int { if base == 3000000 then 15 else if base == 1000000 then 13 else 9 }

  /** One command: go on with the rest of the input, or stop. */
  datatype Served = Next(r: Regs, used: nat) | Stop(end: End)

  function Take(n: nat, input: seq<byte>): (k: nat)
    ensures k <= |input| && k <= n
  {
    if n <= |input| then n else |input|
  }

  function SetBase(r: Regs, input: seq<byte>): Served {
    var n := Take(4, input);
    var r1 := r.(base := BaseIn(r.base, input[..n]));
    if n < 4 then Stop(Blocked(r1)) else Next(r1, 4)
  }

  function WriteBlock(r: Regs, input: seq<byte>): Served {
    var n := Take(r.len, input);
    var r1 := r.(mem := Poke(r.mem, r.base, input[..n]), crc := Crc(0, input[..n]));
    if n < r.len then Stop(Blocked(r1)) else Next(r1, n)
  }

  function ReadBlock(r: Regs, signedChar: bool): Regs {
    var bs := Peek(r.mem, r.base, r.len);
    r.(out := r.out + bs, crc := CharCrc(signedChar, 0, bs))
  }

  function Serve(k: Loader, r: Regs, c: byte, input: seq<byte>): (v: Served)
    ensures v.Next? ==> v.used <= |input|
  {
    if c == 0x80 then SetBase(r, input)
    else if c == 0x81 then Next(r.(out := r.out + Reply(r.crc)), 0)
    else if c == 0x90 then Next(r.(len := r.base), 0)
    else if c == 0x91 then Next(r.(crc := r.base), 0)
    else if c == 0xa0 then WriteBlock(r, input)
    else if c == 0xb1 then Stop(Jump(r.base, r))
    else if k.Sio? then Stop(HexLoader(r))
    else if c == 0xa1 then Next(ReadBlock(r, k.signedChar), 0)
    else if c == 0xb0 then Next(r.(baud := Some(Speed(r.base))), 0)
    else Next(r, 0)
  }

  function Run(k: Loader, r: Regs, input: seq<byte>): End
    decreases |input|
  {
    if input == [] then Blocked(r)
    else
      var v := Serve(k, r, input[0], input[1..]);
      if v.Stop? then v.end else Run(k, v.r, input[1..][v.used..])
  }

  // ---------------------------------------------------------------- the loops

  lemma {:induction false} BaseInAppend(base: word, bs: seq<byte>, b: byte)
    ensures BaseIn(base, bs + [b]) == ToWord(256 * BaseIn(base, bs) + b)
    decreases |bs|
  {
    if bs == [] {
      assert [] + [b] == [b] && [b][1..] == [];
    } else {
      assert (bs + [b])[0] == bs[0] && (bs + [b])[1..] == bs[1..] + [b];
      BaseInAppend(ToWord(256 * base + bs[0]), bs[1..], b);
    }
  }

  method ReceiveBase(base0: word, input: seq<byte>) returns (base: word, n: nat)
    ensures n == Take(4, input) && base == BaseIn(base0, input[..n])
  {
    base, n := base0, 0;
    while n < 4 && n < |input|
      invariant n <= 4 && n <= |input|
      invariant base == BaseIn(base0, input[..n])
    {
      BaseInAppend(base0, input[..n], input[n]);
      assert input[..n] + [input[n]] == input[..n + 1];
      base := ToWord(256 * base + input[n]);
      n := n + 1;
    }
  }

  method SendCrc(crc: word) returns (sent: seq<byte>)
    ensures sent == Reply(crc)
  {
    var t: word, i := crc, 0;
    sent := [];
    while i < WORD_BYTES
      invariant 0 <= i <= WORD_BYTES
      invariant sent + TopBytes(t, WORD_BYTES - i) == Reply(crc)
    {
      assert TopBytes(t, WORD_BYTES - i) == [t / 0x100_0000] + TopBytes(ToWord(256 * t), WORD_BYTES - i - 1);
      sent := sent + [t / 0x100_0000];
      t := ToWord(256 * t);
      i := i + 1;
    }
  }

  lemma CrcFirst(crc: word, bs: seq<byte>)
    requires bs != []
    ensures Crc(crc, bs) == Crc(Plus(Rotate(crc), bs[0]), bs[1..])
  {
  }

  method ReceiveBlock(m0: Memory, base: word, len: word, input: seq<byte>) returns (m: Memory, crc: word, i: nat)
    ensures i == Take(len, input) && m == Poke(m0, base, input[..i]) && crc == Crc(0, input[..i])
  {
    m, crc, i := m0, 0, 0;
    ghost var n := Take(len, input);
    ghost var left := input[..n];
    var at: word := base; // the address of cp[i]
    while i < len && i < |input|
      invariant i <= n && left == input[i..n]
      invariant Poke(m0, base, input[..n]) == Poke(m, at, left)
      invariant Crc(0, input[..n]) == Crc(crc, left)
    {
      var t := input[i];
      CrcFirst(crc, left);
      crc := Rotate(crc);
      m := m[at := t];
      crc := Plus(crc, t);
      i, at := i + 1, ToWord(at + 1);
      left := left[1..];
    }
  }

  lemma {:induction false} CharCrcLast(signedChar: bool, crc: word, bs: seq<byte>, b: byte)
    ensures CharCrc(signedChar, crc, bs + [b]) == CrcStep(CharCrc(signedChar, crc, bs), Widen(signedChar, b))
    decreases |bs|
  {
    if bs == [] {
      assert [] + [b] == [b] && [b][1..] == [];
    } else {
      assert (bs + [b])[0] == bs[0] && (bs + [b])[1..] == bs[1..] + [b];
      CharCrcLast(signedChar, CrcStep(crc, Widen(signedChar, bs[0])), bs[1..], b);
    }
  }

  lemma PeekLast(m: Memory, a: word, i: nat)
    ensures Peek(m, a, i + 1) == Peek(m, a, i) + [Get(m, Cell(a, i))]
  {
  }

  method SendBlock(m: Memory, base: word, len: word, signedChar: bool) returns (sent: seq<byte>, crc: word)
    ensures sent == Peek(m, base, len) && crc == CharCrc(signedChar, 0, sent)
  {
    var i := 0;
    sent, crc := [], 0;
    while i < len
      invariant 0 <= i <= len
      invariant sent == Peek(m, base, i) && crc == CharCrc(signedChar, 0, sent)
    {
      var t := Get(m, Cell(base, i));
      CharCrcLast(signedChar, 0, sent, t);
      PeekLast(m, base, i);
      crc := Rotate(crc);
      sent := sent + [t];
      crc := Plus(crc, Widen(signedChar, t));
      i := i + 1;
    }
  }

  /** The switch of the command loop. */
  method Dispatch(k: Loader, r: Regs, c: byte, rest: seq<byte>) returns (v: Served)
    ensures v == Serve(k, r, c, rest)
  {
    if c == 0x80 {
      var base, n := ReceiveBase(r.base, rest);
      return if n < 4 then Stop(Blocked(r.(base := base))) else Next(r.(base := base), n);
    } else if c == 0x81 {
      var sent := SendCrc(r.crc);
      return Next(r.(out := r.out + sent), 0);
    } else if c == 0x90 {
      return Next(r.(len := r.base), 0);
    } else if c == 0x91 {
      return Next(r.(crc := r.base), 0);
    } else if c == 0xa0 {
      var m, crc, n := ReceiveBlock(r.mem, r.base, r.len, rest);
      return if n < r.len then Stop(Blocked(r.(mem := m, crc := crc))) else Next(r.(mem := m, crc := crc), n);
    } else if c == 0xb1 {
      return Stop(Jump(r.base, r));
    } else if k.Sio? {
      return Stop(HexLoader(r));
    } else if c == 0xa1 {
      var sent, crc := SendBlock(r.mem, r.base, r.len, k.signedChar);
      return Next(r.(out := r.out + sent, crc := crc), 0);
    } else if c == 0xb0 {
      return Next(r.(baud := Some(Speed(r.base))), 0);
    }
    return Next(r, 0);
  }

  /** The command loop. */
  method LoadBinary(k: Loader, mem0: Memory, input: seq<byte>) returns (end: End)
    ensures end == Run(k, Power(mem0), input)
  {
    var r := Power(mem0);
    var line := input;
    while line != []
      invariant Run(k, Power(mem0), input) == Run(k, r, line)
      decreases |line|
    {
      var v := Dispatch(k, r, line[0], line[1..]);
      if v.Stop? {
        return v.end;
      }
      r, line := v.r, line[1..][v.used..];
    }
    return Blocked(r);
  }

  // ---------------------------------------------------------------- sessions

  datatype Command = Base(a: word) | ReadCrc | Len | CrcIs | Write(bytes: seq<byte>)
                   | Read | Baud | Skip(b: byte)

  datatype Commands = Done | Then(c: Command, rest: Commands)

  function Opcode(c: Command): byte {
    match c
    case Base(_) => 0x80
    case ReadCrc => 0x81
    case Len => 0x90
    case CrcIs => 0x91
    case Write(_) => 0xa0
    case Read => 0xa1
    case Baud => 0xb0
    case Skip(b) => b
  }

  function Operand(c: Command): seq<byte> {
    match c
    case Base(a) => Reply(a)
    case Write(bytes) => bytes
    case _ => []
  }

  function Encode(cs: Commands): seq<byte> {
    if cs.Done? then [] else [Opcode(cs.c)] + (Operand(cs.c) + Encode(cs.rest))
  }

  /** Opcodes that the ROM loader ignores. */
  predicate Unknown(b: byte) { b !in {0x80, 0x81, 0x90, 0x91, 0xa0, 0xa1, 0xb0, 0xb1} }

  /** The meaning of a command, without any wire format. */
  function Perform(k: Loader, r: Regs, c: Command): Regs {
    match c
    case Base(a) => r.(base := a)
    case ReadCrc => r.(out := r.out + Reply(r.crc))
    case Len => r.(len := r.base)
    case CrcIs => r.(crc := r.base)
    case Write(bytes) => r.(mem := Poke(r.mem, r.base, bytes), crc := Crc(0, bytes))
    case Read => if k.Rom? then ReadBlock(r, k.signedChar) else r
    case Baud => r.(baud := Some(Speed(r.base)))
    case Skip(_) => r
  }

  /** A block is as long as the length register says; `Read`, `Baud` and unknown
      opcodes belong to the ROM loader. */
  predicate Legal(k: Loader, r: Regs, c: Command) {
    match c
    case Write(bytes) => |bytes| == r.len
    case Read => k.Rom?
    case Baud => k.Rom?
    case Skip(b) => k.Rom? && Unknown(b)
    case _ => true
  }

  predicate AllLegal(k: Loader, r: Regs, cs: Commands)
    decreases cs
  {
    cs.Then? ==> Legal(k, r, cs.c) && AllLegal(k, Perform(k, r, cs.c), cs.rest)
  }

  function PerformAll(k: Loader, r: Regs, cs: Commands): Regs
    decreases cs
  {
    if cs.Done? then r else PerformAll(k, Perform(k, r, cs.c), cs.rest)
  }

  lemma ServeBase(r: Regs, a: word, rest: seq<byte>)
    ensures SetBase(r, Reply(a) + rest) == Next(r.(base := a), 4)
  {
    assert (Reply(a) + rest)[..4] == Reply(a);
    ReplyDecodes(r.base, a);
  }

  lemma ServeWrite(r: Regs, bytes: seq<byte>, rest: seq<byte>)
    requires |bytes| == r.len
    ensures WriteBlock(r, bytes + rest) == Next(r.(mem := Poke(r.mem, r.base, bytes), crc := Crc(0, bytes)), |bytes|)
  {
    assert (bytes + rest)[..|bytes|] == bytes;
  }

  /** The loader does what a legal command means and reads exactly its bytes. */
  lemma ServeLegal(k: Loader, r: Regs, c: Command, rest: seq<byte>)
    requires Legal(k, r, c)
    ensures Serve(k, r, Opcode(c), Operand(c) + rest) == Next(Perform(k, r, c), |Operand(c)|)
  {
    if c.Base? {
      ServeBase(r, c.a, rest);
    } else if c.Write? {
      ServeWrite(r, c.bytes, rest);
    } else {
      ServePlain(k, r, c, rest);
    }
  }

  lemma ServePlain(k: Loader, r: Regs, c: Command, rest: seq<byte>)
    requires Legal(k, r, c) && !c.Base? && !c.Write?
    ensures Serve(k, r, Opcode(c), rest) == Next(Perform(k, r, c), 0)
    ensures Operand(c) + rest == rest && |Operand(c)| == 0
  {
  }

  lemma RunOne(k: Loader, r: Regs, c: Command, rest: seq<byte>)
    requires Legal(k, r, c)
    ensures Run(k, r, [Opcode(c)] + (Operand(c) + rest)) == Run(k, Perform(k, r, c), rest)
  {
    var op := Operand(c);
    var input := [Opcode(c)] + (op + rest);
    assert input[0] == Opcode(c) && input[1..] == op + rest;
    assert (op + rest)[|op|..] == rest;
    ServeLegal(k, r, c, rest);
  }

  lemma EncodeThen(c: Command, more: Commands, rest: seq<byte>)
    ensures Encode(Then(c, more)) + rest == [Opcode(c)] + (Operand(c) + (Encode(more) + rest))
  {
  }

  lemma {:induction false} RunAll(k: Loader, r: Regs, cs: Commands, rest: seq<byte>)
    requires AllLegal(k, r, cs)
    ensures Run(k, r, Encode(cs) + rest) == Run(k, PerformAll(k, r, cs), rest)
    decreases cs
  {
    match cs
    case Done => assert [] + rest == rest;
    case Then(c, more) =>
      EncodeThen(c, more, rest);
      RunOne(k, r, c, Encode(more) + rest);
      RunAll(k, Perform(k, r, c), more, rest);
  }

  // ---------------------------------------------------------------- the ordered overlay

  datatype Block = Block(at: word, bytes: seq<byte>)

  /** The blocks of a session and where they go, from the commands alone. */
  function Blocks(cs: Commands, base: word): seq<Block> {
    match cs
    case Done => []
    case Then(Base(a), rest) => Blocks(rest, a)
    case Then(Write(bytes), rest) => [Block(base, bytes)] + Blocks(rest, base)
    case Then(_, rest) => Blocks(rest, base)
  }

  function LastBase(cs: Commands, base: word): word {
    match cs
    case Done => base
    case Then(Base(a), rest) => LastBase(rest, a)
    case Then(_, rest) => LastBase(rest, base)
  }

  /** How far into a block starting at `base` an address lies. */
  function Offset(a: word, base: word): nat { ToWord(a - base) }

  /** The byte the last covering block puts at `a`, else what was there. */
  function Overlay(bs: seq<Block>, m: Memory, a: word): byte
    decreases |bs|
  {
    if bs == [] then Get(m, a)
    else
      var b := bs[|bs| - 1];
      if Offset(a, b.at) < |b.bytes| then b.bytes[Offset(a, b.at)] else Overlay(bs[..|bs| - 1], m, a)
  }

  lemma OffsetNext(x: word, a: word)
    ensures Offset(x, ToWord(a + 1)) == if x == a then TWO32 - 1 else Offset(x, a) - 1
    ensures (Offset(x, a) == 0) == (x == a)
  {
  }

  lemma {:induction false} PokeGet(m: Memory, a: word, bs: seq<byte>, x: word)
    requires |bs| < TWO32
    ensures Get(Poke(m, a, bs), x) == if Offset(x, a) < |bs| then bs[Offset(x, a)] else Get(m, x)
    decreases |bs|
  {
    if bs != [] {
      OffsetNext(x, a);
      PokeGet(m[a := bs[0]], ToWord(a + 1), bs[1..], x);
    }
  }

  lemma {:induction false} OverlayFirst(b: Block, bs: seq<Block>, m: Memory, a: word)
    requires |b.bytes| < TWO32
    ensures Overlay([b] + bs, m, a) == Overlay(bs, Poke(m, b.at, b.bytes), a)
    decreases |bs|
  {
    var all, n := [b] + bs, |bs|;
    if n == 0 {
      assert all[..0] == [];
      PokeGet(m, b.at, b.bytes, a);
    } else {
      assert all[..n] == [b] + bs[..n - 1] && all[n] == bs[n - 1];
      OverlayFirst(b, bs[..n - 1], m, a);
    }
  }

  lemma {:induction false} MemoryIs(k: Loader, r: Regs, cs: Commands, a: word)
    requires AllLegal(k, r, cs)
    ensures PerformAll(k, r, cs).base == LastBase(cs, r.base)
    ensures Get(PerformAll(k, r, cs).mem, a) == Overlay(Blocks(cs, r.base), r.mem, a)
    decreases cs
  {
    if cs.Then? {
      MemoryIs(k, Perform(k, r, cs.c), cs.rest, a);
      if cs.c.Write? { OverlayFirst(Block(r.base, cs.c.bytes), Blocks(cs.rest, r.base), r.mem, a); }
    }
  }

  lemma RunJump(k: Loader, r: Regs, rest: seq<byte>)
    ensures Run(k, r, [0xb1] + rest) == Jump(r.base, r)
  {
    assert ([0xb1] + rest)[0] == 0xb1;
  }

  /** Every upload session that ends in a jump: the target is the last base, and
      each memory cell holds the byte of the last block that covers it, or is
      as it was. */
  lemma UploadSession(k: Loader, mem0: Memory, cs: Commands, rest: seq<byte>)
    requires AllLegal(k, Power(mem0), cs)
    ensures var end := Run(k, Power(mem0), Encode(cs) + ([0xb1] + rest));
            && end.Jump? && end.target == LastBase(cs, 0)
            && forall a: word :: Get(end.r.mem, a) == Overlay(Blocks(cs, 0), mem0, a)
  {
    var r := Power(mem0);
    RunAll(k, r, cs, [0xb1] + rest);
    RunJump(k, PerformAll(k, r, cs), rest);
    MemoryIs(k, r, cs, 0);
    forall a: word ensures Get(PerformAll(k, r, cs).mem, a) == Overlay(Blocks(cs, 0), mem0, a) {
      MemoryIs(k, r, cs, a);
    }
  }

  // ---------------------------------------------------------------- verification by the host

  lemma CellOffset(a: word, i: nat)
    requires i < TWO32
    ensures Offset(Cell(a, i), a) == i
  {
  }

  lemma PeekPoke(m: Memory, a: word, bs: seq<byte>)
    requires |bs| < TWO32
    ensures Peek(Poke(m, a, bs), a, |bs|) == bs
  {
    forall i: nat | i < |bs| ensures Peek(Poke(m, a, bs), a, |bs|)[i] == bs[i] {
      PokeGet(m, a, bs, Cell(a, i));
      CellOffset(a, i);
    }
  }

  /** A ROM read-block straight after a write-block sends exactly the bytes
      written and leaves memory alone. */
  lemma ReadAfterWrite(signedChar: bool, r: Regs, bs: seq<byte>, rest: seq<byte>)
    requires |bs| == r.len
    ensures var r1 := r.(mem := Poke(r.mem, r.base, bs), out := r.out + bs, crc := CharCrc(signedChar, 0, bs));
            Run(Rom(signedChar), r, Encode(Then(Write(bs), Then(Read, Done))) + rest) == Run(Rom(signedChar), r1, rest)
  {
    var k := Rom(signedChar);
    var w := Perform(k, r, Write(bs));
    PeekPoke(r.mem, r.base, bs);
    var cs := Then(Write(bs), Then(Read, Done));
    assert AllLegal(k, w, Then(Read, Done));
    RunAll(k, r, cs, rest);
    assert PerformAll(k, r, cs) == PerformAll(k, w, Then(Read, Done));
    assert PerformAll(k, w, Then(Read, Done)) == PerformAll(k, ReadBlock(w, signedChar), Done);
  }

  /** Reading the crc after a write tells the host the checksum of the block. */
  lemma CrcAfterWrite(k: Loader, r: Regs, bs: seq<byte>, rest: seq<byte>)
    requires |bs| == r.len
    ensures var r1 := r.(mem := Poke(r.mem, r.base, bs), out := r.out + Reply(Crc(0, bs)), crc := Crc(0, bs));
            Run(k, r, Encode(Then(Write(bs), Then(ReadCrc, Done))) + rest) == Run(k, r1, rest)
    ensures forall base: word :: BaseIn(base, Reply(Crc(0, bs))) == Crc(0, bs)
  {
    var w := Perform(k, r, Write(bs));
    var cs := Then(Write(bs), Then(ReadCrc, Done));
    assert AllLegal(k, w, Then(ReadCrc, Done));
    RunAll(k, r, cs, rest);
    assert PerformAll(k, r, cs) == PerformAll(k, w, Then(ReadCrc, Done));
    assert PerformAll(k, w, Then(ReadCrc, Done)) == PerformAll(k, Perform(k, w, ReadCrc), Done);
    forall base: word ensures BaseIn(base, Reply(Crc(0, bs))) == Crc(0, bs) { ReplyDecodes(base, Crc(0, bs)); }
  }

  predicate Ascii(bs: seq<byte>) { forall i :: 0 <= i < |bs| ==> bs[i] < 128 }

  /** The read-back checksum is the write checksum when `char` is unsigned or no
      byte has its top bit set. */
  lemma {:induction false} CharCrcSame(signedChar: bool, c: word, bs: seq<byte>)
    requires !signedChar || Ascii(bs)
    ensures CharCrc(signedChar, c, bs) == Crc(c, bs)
    decreases |bs|
  {
    if bs != [] { CharCrcSame(signedChar, CrcStep(c, bs[0]), bs[1..]); }
  }

  lemma {:induction false} CharCrcAppend(signedChar: bool, c: word, a: seq<byte>, b: seq<byte>)
    ensures CharCrc(signedChar, c, a + b) == CharCrc(signedChar, CharCrc(signedChar, c, a), b)
    decreases |a|
  {
    if a == [] {
      assert a + b == b;
    } else {
      assert (a + b)[0] == a[0] && (a + b)[1..] == a[1..] + b;
      CharCrcAppend(signedChar, CrcStep(c, Widen(signedChar, a[0])), a[1..], b);
    }
  }

  /** The last byte with its top bit set. */
  function LastHigh(bs: seq<byte>): (o: Option<nat>)
    ensures o.None? <==> Ascii(bs)
    ensures o.Some? ==> o.value < |bs| && bs[o.value] >= 128 && Ascii(bs[o.value + 1..])
    decreases |bs|
  {
    if bs == [] then None
    else
      var n := |bs| - 1;
      if bs[n] >= 128 then Some(n)
      else
        var o := LastHigh(bs[..n]);
        if o.Some? then
          assert forall i :: o.value < i < n ==> bs[i] == bs[..n][o.value + 1..][i - o.value - 1];
          o
        else None
  }

  lemma WidenedStep(p: word, q: word, b: byte)
    requires b >= 128
    ensures CrcStep(p, Widen(true, b)) == CrcStep(q, b) <==> Rotate(p) == Plus(Rotate(q), 256)
  {
    WidenedSum(Rotate(p), Rotate(q), b);
  }

  lemma WidenedSum(x: word, y: word, b: byte)
    ensures Plus(x, b + 0xffff_ff00) == Plus(y, b) <==> x == Plus(y, 256)
  {
  }

  /** Exactly when the checksums of writing and of reading back agree with a
      signed `char`: at the last byte with its top bit set, the rotated running
      values must differ by 256. */
  lemma SignedReadBackExactly(c: word, bs: seq<byte>)
    ensures CharCrc(true, c, bs) == Crc(c, bs)
            <==> LastHigh(bs).None?
                 || var front := bs[..LastHigh(bs).value];
                    Rotate(CharCrc(true, c, front)) == Plus(Rotate(Crc(c, front)), 256)
  {
    if LastHigh(bs).None? {
      CharCrcSame(true, c, bs);
    } else {
      var k := LastHigh(bs).value;
      var after, p, q := bs[k + 1..], CharCrc(true, c, bs[..k]), Crc(c, bs[..k]);
      SplitAt(c, bs, k);
      CharSplitAt(c, bs, k);
      SameEnd(CrcStep(p, Widen(true, bs[k])), CrcStep(q, bs[k]), after);
      WidenedStep(p, q, bs[k]);
    }
  }

  lemma CharSplitAt(c: word, bs: seq<byte>, k: nat)
    requires k < |bs| && Ascii(bs[k + 1..])
    ensures CharCrc(true, c, bs) == Crc(CrcStep(CharCrc(true, c, bs[..k]), Widen(true, bs[k])), bs[k + 1..])
  {
    var p := CharCrc(true, c, bs[..k]);
    assert bs == bs[..k] + bs[k..];
    CharCrcAppend(true, c, bs[..k], bs[k..]);
    assert bs[k..][0] == bs[k] && bs[k..][1..] == bs[k + 1..];
    CharCrcSame(true, CrcStep(p, Widen(true, bs[k])), bs[k + 1..]);
  }

  /** In particular a block with a single high byte always reads back with
      another checksum. */
  lemma SignedReadBackDiffers(c: word, bs: seq<byte>, i: nat)
    requires i < |bs| && bs[i] >= 128 && Ascii(bs[..i]) && Ascii(bs[i + 1..])
    ensures CharCrc(true, c, bs) != Crc(c, bs)
  {
    SignedReadBackExactly(c, bs);
    SingleHigh(bs, i);
    CharCrcSame(true, c, bs[..i]);
    PlusDiffers(Rotate(Crc(c, bs[..i])), 0, 256);
  }

  lemma SingleHigh(bs: seq<byte>, i: nat)
    requires i < |bs| && bs[i] >= 128 && Ascii(bs[..i]) && Ascii(bs[i + 1..])
    ensures LastHigh(bs) == Some(i)
  {
    assert !Ascii(bs);
    assert forall k :: 0 <= k < i ==> bs[k] == bs[..i][k];
    assert forall k :: i < k < |bs| ==> bs[k] == bs[i + 1..][k - i - 1];
  }

  // ---------------------------------------------------------------- sessions byte by byte

  /** Four bytes of an operand, the highest first; by `ReplyDecodes` a reply is
      spelled the same way. */
  lemma FourBytes(base: word, x: byte, y: byte, z: byte, w: byte)
    ensures BaseIn(base, [x, y, z, w]) == 0x100_0000 * x + 0x1_0000 * y + 256 * z + w
  {
    var p, q, r, s := Digits(base);
    ReadByte(p, q, r, s, x, [y, z, w]);
    ReadByte(q, r, s, x, y, [z, w]);
    ReadByte(r, s, x, y, z, [w]);
    ReadByte(s, x, y, z, w, []);
    assert [x, y, z, w] == [x] + [y, z, w] && [y, z, w] == [y] + [z, w] && [z, w] == [z] + [w] && [w] == [w] + [];
  }

  /** Opcode 0x80 with four bytes sets the base; 0x90 makes it the length, 0x91
      the crc; 0x81 sends four bytes that spell the crc. */
  lemma RegisterCommands(k: Loader, r: Regs, x: byte, y: byte, z: byte, w: byte, rest: seq<byte>)
    ensures Serve(k, r, 0x80, [x, y, z, w] + rest) == Next(r.(base := 0x100_0000 * x + 0x1_0000 * y + 256 * z + w), 4)
    ensures Serve(k, r, 0x90, rest) == Next(r.(len := r.base), 0)
    ensures Serve(k, r, 0x91, rest) == Next(r.(crc := r.base), 0)
    ensures Serve(k, r, 0x81, rest) == Next(r.(out := r.out + Reply(r.crc)), 0) && BaseIn(0, Reply(r.crc)) == r.crc
  {
    assert ([x, y, z, w] + rest)[..4] == [x, y, z, w];
    FourBytes(r.base, x, y, z, w);
    ReplyDecodes(0, r.crc);
  }

  /** Byte `i` of a block goes to its base plus `i`. */
  lemma BlockLands(m: Memory, a: word, bs: seq<byte>, i: nat)
    requires i < |bs| < TWO32
    ensures Get(Poke(m, a, bs), (a + i) % 0x1_0000_0000) == bs[i]
  {
    CellOffset(a, i);
    PokeGet(m, a, bs, Cell(a, i));
  }

  /** Opcode 0xa0 stores a block. */
  lemma WriteCommand(k: Loader, r: Regs, bs: seq<byte>, rest: seq<byte>)
    requires |bs| == r.len
    ensures Serve(k, r, 0xa0, bs + rest) == Next(r.(mem := Poke(r.mem, r.base, bs), crc := Crc(0, bs)), |bs|)
  {
    var line := bs + rest;
    ServeWrite(r, bs, rest);
    assert Serve(k, r, 0xa0, line) == WriteBlock(r, line);
  }

  /** Opcode 0xa1 sends a block back in the ROM loader. */
  lemma ReadCommand(signedChar: bool, r: Regs, rest: seq<byte>)
    ensures var sent := Peek(r.mem, r.base, r.len);
            Serve(Rom(signedChar), r, 0xa1, rest) == Next(r.(out := r.out + sent, crc := CharCrc(signedChar, 0, sent)), 0)
  {
  }

  /** Opcode 0xb1 jumps, 0xb0 sets the line speed in the ROM loader; at any other
      opcode the serial loader leaves and the ROM loader goes on. */
  lemma OtherCommands(k: Loader, r: Regs, rest: seq<byte>, c: byte)
    ensures Serve(k, r, 0xb1, rest) == Stop(Jump(r.base, r))
    ensures k.Rom? ==> Serve(k, r, 0xb0, rest)
                       == Next(r.(baud := Some(if r.base == 3000000 then 15 else if r.base == 1000000 then 13 else 9)), 0)
    ensures c !in {0x80, 0x81, 0x90, 0x91, 0xa0, 0xb1} ==> Serve(Sio, r, c, rest) == Stop(HexLoader(r))
    ensures k.Rom? && c !in {0x80, 0x81, 0x90, 0x91, 0xa0, 0xa1, 0xb0, 0xb1} ==> Serve(k, r, c, rest) == Next(r, 0)
  {
  }

  /** Straight after power-on a jump goes to 0, a write-block stores nothing and
      the crc is 0. */
  lemma PowerOn(k: Loader, mem: Memory, rest: seq<byte>)
    ensures Serve(k, Power(mem), 0xb1, rest) == Stop(Jump(0, Power(mem)))
    ensures Serve(k, Power(mem), 0xa0, rest) == Next(Power(mem), 0)
    ensures Serve(k, Power(mem), 0x81, rest).Next? && Serve(k, Power(mem), 0x81, rest).r.out == Reply(0)
  {
    assert rest[..0] == [];
    assert [] + Reply(0) == Reply(0);
  }
}
