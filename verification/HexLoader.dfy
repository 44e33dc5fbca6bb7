/** boot/sio/loader.c: the character-level S-record loader. The serial line is a
    sequence of (signed) characters, memory a map from addresses to bytes. */
module HexLoader {
  import opened Words

  type Memory = map<int, byte>

  /** The variables of the loop. `pos` counts characters after the S, -1 while
      waiting for one; `len` is where the address ends, `cnt` bounds the data. */
  datatype State = State(pos: int, len: int, cnt: int, val: word, cp: word, base: word, mem: Memory)

  datatype Out = More(s: State) | Jump(addr: word, mem: Memory) | Binary(mem: Memory)

  const LETTER_S: int := 83

  function Fresh(s: State): State { s.(pos := -1, len := 255, cnt := 2) }

  function Start(mem: Memory): State { State(-1, 255, 2, 0, 0, 0, mem) }

  /** The value of a character as a digit: nothing is checked. */
  function Digit(c: int): int {
    var u := if c >= 97 then c - 32 else c;
    if u >= 65 then u - 65 + 10 else u - 48
  }

  /** A digit of a record, given the register with that digit shifted in. */
  function Digest(s: State, v: word): Out {
    var t := s.(pos := s.pos + 1, val := v);
    if t.pos == 1 then
      if 7 <= v <= 9 then Jump(s.base, s.mem)
      else More(t.(val := 0, len := if ToSigned(v) <= 3 then Wrap(ToSigned(v) * 2 + 5) else s.len))
    else if t.pos == 3 then More(t.(val := 0, cnt := Wrap(s.cnt + Wrap(2 * ToSigned(v)))))
    else if s.len < 6 then More(t)
    else if t.pos == s.len then More(t.(cp := v, base := if s.base == 0 then v else s.base))
    else if t.pos > s.len && t.pos % 2 == 1 && t.pos < s.cnt
    then More(t.(mem := s.mem[s.cp := v % 256], cp := ToWord(s.cp + 1)))
    else More(t)
  }

  /** How a character enters the register. */
  type Shifter = (word, int) -> word

  /** `val <<= 4` and or-ing in the digit. */
  function CharShifter(): Shifter { (v, c) => ShiftIn(v, Digit(c)) }

  function Step(sh: Shifter, s: State, c: int): Out {
    if s.pos < 0 then
      if c == LETTER_S then More(s.(pos := 0, val := 0))
      else if c == -1 then Binary(s.mem)
      else More(s.(val := 0))
    else if 10 <= c <= 13 then More(Fresh(s))
    else Digest(s, sh(s.val, c))
  }

  function Feed(sh: Shifter, s: State, input: seq<int>): Out
    decreases |input|
  {
    if input == [] then More(s)
    else
      var o := Step(sh, s, input[0]);
      if o.More? then Feed(sh, o.s, input[1..]) else o
  }

  /** The loop of the loader with its variables, until it jumps, hands over to
      the binary loader or runs out of input. */
  method SioBoot(sh: Shifter, input: seq<int>, mem0: Memory) returns (o: Out)
    ensures o == Feed(sh, Start(mem0), input)
  {
    var pos, len, cnt := -1, 255, 2;
    var val: word, cp: word, base: word := 0, 0, 0;
    var mem: Memory := mem0;
    var i := 0;
    while i < |input|
      invariant 0 <= i <= |input|
      invariant Feed(sh, Start(mem0), input) == Feed(sh, State(pos, len, cnt, val, cp, base, mem), input[i..])
    {
      var c := input[i];
      assert input[i..][1..] == input[i + 1..];
      i := i + 1;
      if pos < 0 {
        if c == LETTER_S {
          pos := 0;
        } else if c == -1 {
          return Binary(mem);
        }
        val := 0;
        continue;
      }
      if 10 <= c <= 13 {
        pos, len, cnt := -1, 255, 2;
        continue;
      }
      val := sh(val, c);
      pos := pos + 1;
      if pos == 1 {
        if 7 <= val <= 9 {
          return Jump(base, mem);
        }
        if ToSigned(val) <= 3 {
          len := Wrap(ToSigned(val) * 2 + 5);
        }
        val := 0;
        continue;
      }
      if pos == 3 {
        cnt := Wrap(cnt + Wrap(2 * ToSigned(val)));
        val := 0;
        continue;
      }
      if len < 6 {
        continue;
      }
      if pos == len {
        cp := val;
        if base == 0 {
          base := val;
        }
        continue;
      }
      if pos > len && pos % 2 == 1 && pos < cnt {
        mem := mem[cp := val % 256];
        cp := ToWord(cp + 1);
      }
    }
    return More(State(pos, len, cnt, val, cp, base, mem));
  }

  // ---------------------------------------------------------------- well-formed input

  /** The character `c` is the hexadecimal digit `d`, in either case. */
  predicate Denotes(c: int, d: nat) {
    if d < 10 then c == 48 + d else d < 16 && (c == 55 + d || c == 87 + d)
  }

  /** Two characters per byte. */
  predicate Spells(t: seq<int>, bs: seq<byte>)
    decreases |bs|
  {
    |t| == 2 * |bs| && (bs != [] ==> Denotes(t[0], bs[0] / 16) && Denotes(t[1], bs[0] % 16) && Spells(t[2..], bs[1..]))
  }

  /** A record of type 0 to 3 with its address bytes, data and (unchecked)
      checksum byte; the count byte covers all three. */
  datatype Record = Record(kind: nat, addr: seq<byte>, data: seq<byte>, check: byte)

  predicate WellFormed(r: Record) {
    && r.kind <= 3
    && |r.addr| == (if r.kind == 0 then 2 else r.kind + 1)
    && |r.addr| + |r.data| + 1 <= 255
  }

  function Payload(r: Record): seq<byte>
    requires WellFormed(r)
  {
    [|r.addr| + |r.data| + 1] + (r.addr + (r.data + [r.check]))
  }

  predicate LineEnd(e: seq<int>) { e == [10] || e == [13] || e == [13, 10] }

  /** A line of text for a record. */
  ghost predicate Line(t: seq<int>, r: Record) {
    WellFormed(r) && exists h, e :: t == [LETTER_S, 48 + r.kind] + h + e && Spells(h, Payload(r)) && LineEnd(e)
  }

  ghost predicate Lines(ts: seq<seq<int>>, rs: seq<Record>) {
    |ts| == |rs| && forall i | 0 <= i < |rs| :: Line(ts[i], rs[i])
  }

  function Concat(ts: seq<seq<int>>): seq<int> {
    if ts == [] then [] else ts[0] + Concat(ts[1..])
  }

  // ---------------------------------------------------------------- what records mean

  /** A register with a byte shifted in. */
  function Shift8(v: word, b: byte): word { (v % 0x100_0000) * 256 + b }

  /** Big-endian value, modulo the register width. */
  function Value(v: word, bs: seq<byte>): word
    decreases |bs|
  {
    if bs == [] then v else Value(Shift8(v, bs[0]), bs[1..])
  }

  function Write(mem: Memory, a: word, bs: seq<byte>): Memory
    decreases |bs|
  {
    if bs == [] then mem else Write(mem[a := bs[0]], ToWord(a + 1), bs[1..])
  }

  function Address(r: Record): word { Value(0, r.addr) }

  /** The records' bytes written in order; header records write nothing. */
  function Apply(mem: Memory, rs: seq<Record>): Memory
    decreases |rs|
  {
    if rs == [] then mem
    else Apply(if rs[0].kind == 0 then mem else Write(mem, Address(rs[0]), rs[0].data), rs[1..])
  }

  /** The first non-zero address of a data record, else `b`. */
  function Entry(b: word, rs: seq<Record>): word
    decreases |rs|
  {
    if rs == [] then b
    else Entry(if b == 0 && rs[0].kind != 0 then Address(rs[0]) else b, rs[1..])
  }

  // ---------------------------------------------------------------- reading it

  lemma {:induction false} FeedAppend(sh: Shifter, s: State, a: seq<int>, b: seq<int>)
    ensures Feed(sh, s, a + b) == if Feed(sh, s, a).More? then Feed(sh, Feed(sh, s, a).s, b) else Feed(sh, s, a)
    decreases |a|
  {
    if a == [] {
      assert a + b == b;
    } else {
      assert (a + b)[0] == a[0] && (a + b)[1..] == a[1..] + b;
      if Step(sh, s, a[0]).More? { FeedAppend(sh, Step(sh, s, a[0]).s, a[1..], b); }
    }
  }

  /** The only facts about the register that reading needs: a digit or a byte
      shifted in, and the low byte of the latter. */
  ghost predicate ByteWise(sh: Shifter) {
    && (forall c, d: nat | Denotes(c, d) :: sh(0, c) == d)
    && (forall v: word, c1, c2, b: byte | Denotes(c1, b / 16) && Denotes(c2, b % 16) ::
          sh(sh(v, c1), c2) == Shift8(v, b))
  }

  lemma Shift44(v: word, b: byte)
    ensures 16 * ((16 * (v % 0x1000_0000) + b / 16) % 0x1000_0000) + b % 16 == Shift8(v, b)
  {
    var r := v % 0x1000_0000;
    var q, z := r / 0x100_0000, r % 0x100_0000;
    assert v % 0x100_0000 == z;
    assert 16 * r + b / 16 == 0x1000_0000 * q + (16 * z + b / 16);
    assert (16 * r + b / 16) % 0x1000_0000 == 16 * z + b / 16;
  }

  lemma DigitOf(c: int, d: nat)
    requires Denotes(c, d)
    ensures Digit(c) == d < 16
  {
  }

  lemma CharByteWise()
    ensures ByteWise(CharShifter())
  {
    forall c, d: nat | Denotes(c, d) ensures CharShifter()(0, c) == d {
      DigitOf(c, d);
      ShiftInNibble(0, d);
    }
    forall v: word, c1, c2, b: byte | Denotes(c1, b / 16) && Denotes(c2, b % 16)
      ensures CharShifter()(CharShifter()(v, c1), c2) == Shift8(v, b)
    {
      TwoChars(v, c1, c2, b);
    }
  }

  lemma TwoChars(v: word, c1: int, c2: int, b: byte)
    requires Denotes(c1, b / 16) && Denotes(c2, b % 16)
    ensures ShiftIn(ShiftIn(v, Digit(c1)), Digit(c2)) == Shift8(v, b)
  {
    DigitOf(c1, b / 16);
    DigitOf(c2, b % 16);
    ShiftInNibble(v, b / 16);
    var u := ShiftIn(v, b / 16);
    ShiftInNibble(u, b % 16);
    Shift44(v, b);
  }

  // ---------------------------------------------------------------- byte by byte

  /** The second digit of a byte; the first one, at an even position, only moves
      the register. */
  function ByteStep(s: State, v: word): Out { Digest(s.(pos := s.pos + 1), v) }

  function Bytes(s: State, bs: seq<byte>): Out
    decreases |bs|
  {
    if bs == [] then More(s)
    else
      var o := ByteStep(s, Shift8(s.val, bs[0]));
      if o.More? then Bytes(o.s, bs[1..]) else o
  }

  lemma FirstDigit(s: State, v: word)
    requires s.pos >= 1 && s.pos % 2 == 1 && s.len % 2 == 1
    ensures Digest(s, v) == More(s.(pos := s.pos + 1, val := v))
  {
  }

  lemma SecondDigit(s: State, u: word, v: word)
    requires s.pos >= 1 && s.pos % 2 == 1
    ensures Digest(s.(pos := s.pos + 1, val := u), v) == ByteStep(s, v)
    ensures ByteStep(s, v).More? && ByteStep(s, v).s.pos == s.pos + 2 && ByteStep(s, v).s.len == s.len
  {
  }

  lemma FeedTwo(sh: Shifter, s: State, t: seq<int>, b: byte)
    requires ByteWise(sh) && |t| >= 2 && Denotes(t[0], b / 16) && Denotes(t[1], b % 16)
    requires s.pos >= 1 && s.pos % 2 == 1 && s.len % 2 == 1
    ensures ByteStep(s, Shift8(s.val, b)).More?
    ensures Feed(sh, s, t) == Feed(sh, ByteStep(s, Shift8(s.val, b)).s, t[2..])
  {
    assert t[1..][0] == t[1] && t[1..][1..] == t[2..];
    var u := sh(s.val, t[0]);
    FirstDigit(s, u);
    SecondDigit(s, u, sh(u, t[1]));
    assert sh(u, t[1]) == Shift8(s.val, b);
  }

  /** Reading the digits of some bytes is taking the bytes one by one. */
  lemma {:induction false} FeedBytes(sh: Shifter, s: State, t: seq<int>, bs: seq<byte>)
    requires ByteWise(sh) && Spells(t, bs) && s.pos >= 1 && s.pos % 2 == 1 && s.len % 2 == 1
    ensures Feed(sh, s, t) == Bytes(s, bs)
    decreases |bs|
  {
    if bs == [] {
      assert t == [];
    } else {
      FeedTwo(sh, s, t, bs[0]);
      SecondDigit(s, 0, Shift8(s.val, bs[0]));
      FeedBytes(sh, ByteStep(s, Shift8(s.val, bs[0])).s, t[2..], bs[1..]);
    }
  }

  lemma {:induction false} BytesAppend(s: State, a: seq<byte>, b: seq<byte>)
    ensures Bytes(s, a + b) == if Bytes(s, a).More? then Bytes(Bytes(s, a).s, b) else Bytes(s, a)
    decreases |a|
  {
    if a == [] {
      assert a + b == b;
    } else {
      assert (a + b)[0] == a[0] && (a + b)[1..] == a[1..] + b;
      var o := ByteStep(s, Shift8(s.val, a[0]));
      if o.More? { BytesAppend(o.s, a[1..], b); }
    }
  }

  lemma {:induction false} AddressBytes(s: State, bs: seq<byte>)
    requires 3 <= s.pos && s.len == s.pos + 2 * |bs| && s.len >= 7 && bs != []
    ensures var v := Value(s.val, bs);
            Bytes(s, bs) == More(s.(pos := s.len, val := v, cp := v, base := if s.base == 0 then v else s.base))
    decreases |bs|
  {
    var v := Shift8(s.val, bs[0]);
    if |bs| > 1 {
      assert ByteStep(s, v) == More(s.(pos := s.pos + 2, val := v));
      AddressBytes(s.(pos := s.pos + 2, val := v), bs[1..]);
    } else {
      assert bs[1..] == [];
    }
  }

  lemma {:induction false} DataBytes(s: State, bs: seq<byte>)
    requires s.pos >= s.len >= 7 && s.pos % 2 == 1 && s.pos + 2 * |bs| < s.cnt
    ensures var o := Bytes(s, bs);
            && o.More? && o.s.pos == s.pos + 2 * |bs| && o.s.len == s.len && o.s.cnt == s.cnt && o.s.base == s.base
            && o.s.mem == Write(s.mem, s.cp, bs)
    decreases |bs|
  {
    if bs != [] {
      var v := Shift8(s.val, bs[0]);
      assert v % 256 == bs[0];
      var s1 := s.(pos := s.pos + 2, val := v, mem := s.mem[s.cp := bs[0]], cp := ToWord(s.cp + 1));
      assert ByteStep(s, v) == More(s1);
      DataBytes(s1, bs[1..]);
    }
  }

  /** The checksum byte lies beyond `cnt` and changes nothing but the register. */
  lemma CheckByte(s: State, b: byte)
    requires s.pos >= s.len >= 7 && s.pos % 2 == 1 && s.pos + 2 >= s.cnt
    ensures var o := Bytes(s, [b]); o.More? && o.s.pos == s.pos + 2 && o.s.mem == s.mem && o.s.base == s.base
  {
    assert [b][1..] == [];
  }

  /** Bytes of a header record are counted and dropped. */
  lemma {:induction false} HeaderBytes(s: State, bs: seq<byte>)
    requires s.pos >= 3 && s.pos % 2 == 1 && s.len == 5
    ensures var o := Bytes(s, bs); o.More? && o.s.pos == s.pos + 2 * |bs| && o.s.mem == s.mem && o.s.base == s.base
    decreases |bs|
  {
    if bs != [] {
      var v := Shift8(s.val, bs[0]);
      assert ByteStep(s, v) == More(s.(pos := s.pos + 2, val := v));
      HeaderBytes(s.(pos := s.pos + 2, val := v), bs[1..]);
    }
  }

  lemma CountByte(s: State, n: byte)
    requires s.pos == 1 && s.val == 0 && s.cnt == 2
    ensures Bytes(s, [n]) == More(s.(pos := 3, val := 0, cnt := 2 + 2 * n))
  {
    assert Shift8(0, n) == n && [n][1..] == [];
  }

  /** The state after a record's type digit, and after the whole record. */
  function Typed(s: State, kind: nat): State { s.(pos := 1, len := 2 * kind + 5, val := 0) }

  lemma RecordBytes(s: State, r: Record)
    requires WellFormed(r) && s.cnt == 2
    ensures var o := Bytes(Typed(s, r.kind), Payload(r));
            && o.More? && o.s.pos >= 0
            && o.s.mem == (if r.kind == 0 then s.mem else Write(s.mem, Address(r), r.data))
            && o.s.base == (if s.base == 0 && r.kind != 0 then Address(r) else s.base)
  {
    var n := |r.addr| + |r.data| + 1;
    var s0 := Typed(s, r.kind);
    var s1 := s0.(pos := 3, cnt := 2 + 2 * n);
    CountByte(s0, n);
    BytesAppend(s0, [n], r.addr + (r.data + [r.check]));
    if r.kind == 0 {
      HeaderBytes(s1, r.addr + (r.data + [r.check]));
    } else {
      DataRecordBytes(s1, r);
    }
  }

  /** A data record after its count byte. */
  lemma DataRecordBytes(s: State, r: Record)
    requires WellFormed(r) && r.kind != 0 && s.pos == 3 && s.val == 0
    requires s.len == 2 * r.kind + 5 && s.cnt == 2 + 2 * (|r.addr| + |r.data| + 1)
    ensures var o := Bytes(s, r.addr + (r.data + [r.check]));
            && o.More? && o.s.pos >= 0
            && o.s.mem == Write(s.mem, Address(r), r.data)
            && o.s.base == (if s.base == 0 then Address(r) else s.base)
  {
    DataRecordAt(s, r.addr, r.data, r.check, Address(r));
  }

  lemma DataRecordAt(s: State, addr: seq<byte>, data: seq<byte>, check: byte, v: word)
    requires s.pos == 3 && s.len == 3 + 2 * |addr| && s.len >= 7 && s.cnt == s.len + 1 + 2 * |data| && v == Value(s.val, addr)
    ensures var o := Bytes(s, addr + (data + [check]));
            o.More? && o.s.pos >= 0 && o.s.mem == Write(s.mem, v, data) && o.s.base == (if s.base == 0 then v else s.base)
  {
    AddressThen(s, addr, data + [check]);
    AfterAddress(s, v, data, check);
  }

  lemma AfterAddress(s: State, v: word, data: seq<byte>, check: byte)
    requires s.len >= 7 && s.len % 2 == 1 && s.cnt == s.len + 1 + 2 * |data|
    ensures var o := Bytes(AtData(s, v), data + [check]);
            o.More? && o.s.pos >= 0 && o.s.mem == Write(s.mem, v, data) && o.s.base == (if s.base == 0 then v else s.base)
  {
    DataAndCheck(AtData(s, v), data, check);
  }

  /** The state once the address is complete. */
  function AtData(s: State, v: word): State {
    s.(pos := s.len, val := v, cp := v, base := if s.base == 0 then v else s.base)
  }

  lemma AddressThen(s: State, addr: seq<byte>, rest: seq<byte>)
    requires 3 <= s.pos && s.len == s.pos + 2 * |addr| && s.len >= 7 && addr != []
    ensures Bytes(s, addr + rest) == Bytes(AtData(s, Value(s.val, addr)), rest)
  {
    AddressBytes(s, addr);
    BytesAppend(s, addr, rest);
  }

  lemma OddPlusEven(a: int, b: int)
    requires a % 2 == 1
    ensures (a + 2 * b) % 2 == 1
  {
  }

  lemma DataAndCheck(s: State, data: seq<byte>, check: byte)
    requires s.pos == s.len >= 7 && s.len % 2 == 1 && s.cnt == s.len + 1 + 2 * |data|
    ensures var o := Bytes(s, data + [check]);
            o.More? && o.s.pos >= 0 && o.s.mem == Write(s.mem, s.cp, data) && o.s.base == s.base
  {
    DataBytes(s, data);
    BytesAppend(s, data, [check]);
    var s3 := Bytes(s, data).s;
    OddPlusEven(s.len, |data|);
    CheckByte(s3, check);
  }

  // ---------------------------------------------------------------- line by line

  lemma ReadType(sh: Shifter, s: State, kind: nat)
    requires ByteWise(sh) && s.pos < 0 && s.len == 255 && s.cnt == 2 && kind <= 3
    ensures Feed(sh, s, [LETTER_S, 48 + kind]) == More(Typed(s, kind))
  {
    var t := [LETTER_S, 48 + kind];
    var s0 := s.(pos := 0, val := 0);
    assert Denotes(48 + kind, kind);
    assert Digest(s0, kind) == More(Typed(s, kind));
    assert t[1..] == [48 + kind] && [48 + kind][1..] == [];
    assert Feed(sh, s, t) == Feed(sh, s0, [48 + kind]);
  }

  lemma ReadEnd(sh: Shifter, s: State, e: seq<int>)
    requires LineEnd(e) && s.pos >= 0
    ensures var o := Feed(sh, s, e);
            && o.More? && o.s.pos == -1 && o.s.len == 255 && o.s.cnt == 2 && o.s.mem == s.mem && o.s.base == s.base
  {
    if |e| == 2 {
      assert e[1..] == [10] && [10][1..] == [];
      assert Feed(sh, s, e) == Feed(sh, Fresh(s), [10]);
    } else {
      assert e[1..] == [];
    }
  }

  /** One line of text is one record. */
  lemma ReadLine(sh: Shifter, s: State, t: seq<int>, r: Record)
    requires ByteWise(sh) && Line(t, r) && s.pos == -1 && s.len == 255 && s.cnt == 2
    ensures var o := Feed(sh, s, t);
            && o.More? && o.s.pos == -1 && o.s.len == 255 && o.s.cnt == 2
            && o.s.mem == (if r.kind == 0 then s.mem else Write(s.mem, Address(r), r.data))
            && o.s.base == (if s.base == 0 && r.kind != 0 then Address(r) else s.base)
  {
    var h, e :| t == [LETTER_S, 48 + r.kind] + h + e && Spells(h, Payload(r)) && LineEnd(e);
    assert t == [LETTER_S, 48 + r.kind] + (h + e);
    FeedAppend(sh, s, [LETTER_S, 48 + r.kind], h + e);
    ReadType(sh, s, r.kind);
    ReadRest(sh, s, h, e, r);
  }

  lemma ReadRest(sh: Shifter, s: State, h: seq<int>, e: seq<int>, r: Record)
    requires ByteWise(sh) && WellFormed(r) && Spells(h, Payload(r)) && LineEnd(e) && s.cnt == 2
    ensures var o := Feed(sh, Typed(s, r.kind), h + e);
            && o.More? && o.s.pos == -1 && o.s.len == 255 && o.s.cnt == 2
            && o.s.mem == (if r.kind == 0 then s.mem else Write(s.mem, Address(r), r.data))
            && o.s.base == (if s.base == 0 && r.kind != 0 then Address(r) else s.base)
  {
    var s1 := Typed(s, r.kind);
    FeedAppend(sh, s1, h, e);
    FeedBytes(sh, s1, h, Payload(r));
    RecordBytes(s, r);
    ReadEnd(sh, Bytes(s1, Payload(r)).s, e);
  }

  /** Any number of records, in any text form. */
  lemma {:induction false} ReadLines(sh: Shifter, s: State, ts: seq<seq<int>>, rs: seq<Record>)
    requires ByteWise(sh) && Lines(ts, rs) && s.pos == -1 && s.len == 255 && s.cnt == 2
    ensures var o := Feed(sh, s, Concat(ts));
            && o.More? && o.s.pos == -1 && o.s.len == 255 && o.s.cnt == 2
            && o.s.mem == Apply(s.mem, rs) && o.s.base == Entry(s.base, rs)
    decreases |rs|
  {
    if rs != [] {
      ReadLine(sh, s, ts[0], rs[0]);
      FeedAppend(sh, s, ts[0], Concat(ts[1..]));
      var s1 := Feed(sh, s, ts[0]).s;
      assert forall i | 0 <= i < |rs[1..]| :: ts[1..][i] == ts[i + 1] && rs[1..][i] == rs[i + 1];
      ReadLines(sh, s1, ts[1..], rs[1..]);
    }
  }

  /** The loader: after any sequence of well-formed S0 to S3 records and the
      type digit of a termination record, memory is the image of the records'
      writes in order (checksum bytes excluded, everything else untouched) and
      control goes to the first non-zero address of a data record. */
  lemma LoadsRecords(mem: Memory, ts: seq<seq<int>>, rs: seq<Record>, last: int)
    requires Lines(ts, rs) && 7 <= last <= 9
    ensures Feed(CharShifter(), Start(mem), Concat(ts) + [LETTER_S, 48 + last]) == Jump(Entry(0, rs), Apply(mem, rs))
  {
    var sh := CharShifter();
    CharByteWise();
    ReadLines(sh, Start(mem), ts, rs);
    var s := Feed(sh, Start(mem), Concat(ts)).s;
    var t := [LETTER_S, 48 + last];
    FeedAppend(sh, Start(mem), Concat(ts), t);
    assert Denotes(48 + last, last);
    var s0 := s.(pos := 0, val := 0);
    assert t[1..] == [48 + last];
    assert Feed(sh, s, t) == Feed(sh, s0, [48 + last]);
    assert Digest(s0, last) == Jump(s.base, s.mem);
  }

  // ---------------------------------------------------------------- memory and entry address, cell by cell

  /** How far behind `a` an address lies, around the address space. */
  function Offset(x: word, a: word): nat { ToWord(x - a) }

  predicate Covers(r: Record, x: word) { r.kind != 0 && Offset(x, Address(r)) < |r.data| }

  lemma OffsetNext(x: word, a: word)
    ensures Offset(x, ToWord(a + 1)) == if x == a then TWO32 - 1 else Offset(x, a) - 1
    ensures (Offset(x, a) == 0) == (x == a)
  {
  }

  lemma {:induction false} WriteAt(mem: Memory, a: word, bs: seq<byte>, x: word)
    requires |bs| < TWO32
    ensures var m := Write(mem, a, bs);
            && (Offset(x, a) < |bs| ==> x in m && m[x] == bs[Offset(x, a)])
            && (Offset(x, a) >= |bs| ==> (x in m <==> x in mem) && (x in m ==> m[x] == mem[x]))
    decreases |bs|
  {
    if bs != [] {
      OffsetNext(x, a);
      WriteAt(mem[a := bs[0]], ToWord(a + 1), bs[1..], x);
    }
  }

  /** A cell that no data record covers is as it was. */
  lemma {:induction false} Untouched(mem: Memory, rs: seq<Record>, x: word)
    requires forall j | 0 <= j < |rs| :: |rs[j].data| <= 255 && !Covers(rs[j], x)
    ensures var m := Apply(mem, rs); (x in m <==> x in mem) && (x in m ==> m[x] == mem[x])
    decreases |rs|
  {
    if rs != [] {
      WriteAt(mem, Address(rs[0]), rs[0].data, x);
      Untouched(if rs[0].kind == 0 then mem else Write(mem, Address(rs[0]), rs[0].data), rs[1..], x);
    }
  }

  /** A cell holds the byte of the last record that covers it. */
  lemma {:induction false} LastRecordWins(mem: Memory, rs: seq<Record>, i: nat, x: word)
    requires (forall j | 0 <= j < |rs| :: |rs[j].data| <= 255) && i < |rs| && Covers(rs[i], x)
    requires forall j | i < j < |rs| :: !Covers(rs[j], x)
    ensures x in Apply(mem, rs) && Apply(mem, rs)[x] == rs[i].data[Offset(x, Address(rs[i]))]
    decreases |rs|
  {
    var mem1 := if rs[0].kind == 0 then mem else Write(mem, Address(rs[0]), rs[0].data);
    var t := rs[1..];
    assert forall j | 0 <= j < |t| :: t[j] == rs[j + 1];
    if i == 0 {
      WriteAt(mem, Address(rs[0]), rs[0].data, x);
      Untouched(mem1, t, x);
    } else {
      LastRecordWins(mem1, t, i - 1, x);
    }
  }

  lemma {:induction false} EntryKept(b: word, rs: seq<Record>)
    requires b != 0
    ensures Entry(b, rs) == b
    decreases |rs|
  {
    if rs != [] { EntryKept(b, rs[1..]); }
  }

  /** The entry address is that of the first data record with a non-zero one. */
  lemma {:induction false} EntryIsFirst(rs: seq<Record>, i: nat)
    requires i < |rs| && rs[i].kind != 0 && Address(rs[i]) != 0
    requires forall j | 0 <= j < i :: rs[j].kind == 0 || Address(rs[j]) == 0
    ensures Entry(0, rs) == Address(rs[i])
    decreases |rs|
  {
    if i == 0 {
      EntryKept(Address(rs[0]), rs[1..]);
    } else {
      assert rs[1..][i - 1] == rs[i];
      EntryIsFirst(rs[1..], i - 1);
    }
  }

  /** Byte `i` of a record's data goes to its address plus `i`. */
  lemma DataLands(mem: Memory, a: word, bs: seq<byte>, i: nat)
    requires i < |bs| < TWO32
    ensures var x := (a + i) % 0x1_0000_0000; x in Write(mem, a, bs) && Write(mem, a, bs)[x] == bs[i]
  {
    var x: word := (a + i) % 0x1_0000_0000;
    assert Offset(x, a) == i;
    WriteAt(mem, a, bs, x);
  }

  lemma ValueFront(v: word, b: byte, bs: seq<byte>)
    requires v < 0x100_0000
    ensures Value(v, [b] + bs) == Value(256 * v + b, bs)
  {
    var t := [b] + bs;
    assert t[0] == b && t[1..] == bs;
    ShiftSmall(v, b);
    assert Value(v, t) == Value(Shift8(v, t[0]), t[1..]);
  }

  lemma ShiftSmall(v: word, b: byte)
    requires v < 0x100_0000
    ensures Shift8(v, b) == 256 * v + b
  {
  }

  /** The address field is big-endian. */
  lemma AddressIs(a: byte, b: byte, c: byte, d: byte)
    ensures Value(0, [a] + ([b] + [])) == 256 * a + b
    ensures Value(0, [a] + ([b] + ([c] + []))) == 0x1_0000 * a + 256 * b + c
    ensures Value(0, [a] + ([b] + ([c] + ([d] + [])))) == 0x100_0000 * a + 0x1_0000 * b + 256 * c + d
  {
    var ab: word := 256 * a + b;
    var abc: word := 256 * ab + c;
    LastDigits(a, b);
    ValueFront(0, a, [b] + ([c] + []));
    ValueFront(a, b, [c] + []);
    LastDigits(ab, c);
    ValueFront(0, a, [b] + ([c] + ([d] + [])));
    ValueFront(a, b, [c] + ([d] + []));
    ValueFront(ab, c, [d] + []);
    LastDigits(abc, d);
    ValueFront(0, a, [b] + []);
  }

  lemma LastDigits(v: word, b: byte)
    requires v < 0x100_0000
    ensures Value(v, [b] + []) == 256 * v + b
  {
    ValueFront(v, b, []);
    assert Value(256 * v + b, []) == 256 * v + b;
  }

  /** Between records everything but an S is skipped, and the character 255 hands
      over to the binary loader with memory as it is. */
  lemma {:induction false} HandsOver(sh: Shifter, s: State, junk: seq<int>, rest: seq<int>)
    requires s.pos < 0 && forall i | 0 <= i < |junk| :: junk[i] != 83 && junk[i] != -1
    ensures Feed(sh, s, junk + ([-1] + rest)) == Binary(s.mem)
    decreases |junk|
  {
    if junk == [] {
      assert junk + ([-1] + rest) == [-1] + rest;
    } else {
      assert (junk + ([-1] + rest))[1..] == junk[1..] + ([-1] + rest);
      HandsOver(sh, s.(val := 0), junk[1..], rest);
    }
  }
}
