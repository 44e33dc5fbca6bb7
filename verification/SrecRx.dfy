/** `srec_rx` of examples/cmd/cli.c: the checksummed S-record receiver. Records
    fill a one-megabyte buffer, a termination record writes it to a file. */
module SrecRx {
  import opened Words

  const BUFSIZ: nat := 1048576

  type Buffer = b: seq<byte> | |b| == 1048576 witness seq(1048576, _ => 0)

  /** `typ` and `addr` live from one line to the next, the rest is per line. */
  datatype State = State(col: int, clim: int, csum: int, val: nat, alim: int,
                         typ: int, line: nat, addr: int32, last: int32, data: Buffer, name: map<int, byte>)

  /** The receiver goes on, gives up at a line, is interrupted, or writes a
      file; Overrun is a write that would read past the buffer. */
  datatype Out = More(s: State) | Abort(line: nat) | Interrupted | File(bytes: seq<byte>) | Overrun

  const LETTER_S: int := 83
  const ZERO: int := 48

  function NewLine(s: State): State { s.(col := -1, clim := -1, csum := 0, val := 0, alim := 0) }

  function Start(data: Buffer): State { State(-1, -1, 0, 0, 0, 0, 0, 0, 0, data, map[]) }

  function Hex(c: int): Option<nat> {
    if 48 <= c <= 57 then Some(c - 48) else if 65 <= c <= 70 then Some(c - 65 + 10) else None
  }

  function AddressLimit(typ: int): int {
    if typ == 50 || typ == 56 then 10 else if typ == 51 || typ == 55 then 12 else 8
  }

  /** The loop that writes `data` from `addr` to `last` in pieces of 64 KiB. */
  function Written(data: Buffer, addr: int, last: int): Option<seq<byte>>
    decreases last - addr
  {
    if addr >= last then Some([])
    else
      var n := if last - addr > 65536 then 65536 else last - addr;
      var a := addr % BUFSIZ;
      if a + n > BUFSIZ then None
      else
        var rest := Written(data, addr + n, last);
        if rest.None? then None else Some(data[a..a + n] + rest.value)
  }

  function Finish(s: State): Out {
    var w := Written(s.data, s.addr, s.last);
    if w.None? then Overrun else File(w.value)
  }

  type Slot = x: int | 0 <= x < 1048576

  /** Address arithmetic of the target: `(addr << 8) + val`, `addr++` and
      `addr & (SREC_BUFSIZ - 1)`. */
  datatype Target = Target(shift: (int32, byte) -> int32, next: int32 -> int32, slot: int32 -> Slot)

  function Mips(): Target {
    Target((a, b) => Wrap(a as int * 256 + b), a => Wrap(a as int + 1), a => a % BUFSIZ)
  }

  /** A complete byte of a record, ending at column `s.col`. */
  function Digest(T: Target, s: State, b: byte): Out {
    if s.col == 3 then More(s.(csum := s.csum + b, clim := 2 * b + 3))
    else if s.col < s.alim then More(s.(csum := s.csum + b, addr := T.shift(s.addr, b)))
    else if s.col < s.clim then
      if s.typ == ZERO then More(s.(csum := s.csum + b, name := s.name[T.slot(s.addr) := b], addr := T.next(s.addr)))
      else More(s.(csum := s.csum + b, data := s.data[T.slot(s.addr) := b], addr := T.next(s.addr)))
    else
      var c := 255 - s.csum % 256;
      if c == b then More(s.(csum := c)) else Abort(s.line)
  }

  /** The end of a line. */
  function EndLine(s: State): Out {
    if s.typ == ZERO then More(NewLine(s.(name := s.name[s.addr as int := 0])))
    else if s.typ == 53 then More(NewLine(s))
    else if s.typ <= 51 then More(NewLine(s.(last := s.addr, line := s.line + 1)))
    else Finish(s)
  }

  function Step(T: Target, s0: State, c: int): Out {
    var s := s0.(col := s0.col + 1);
    if c < 0 then Interrupted
    else if c == 13 then More(s)
    else if c == 10 then EndLine(s)
    else if s.col == 0 then if c != LETTER_S then Abort(s.line) else More(s)
    else if s.col == 1 then More(s.(typ := c, alim := AddressLimit(c), addr := 0))
    else if Hex(c).None? then Abort(s.line)
    else
      var v := s.val % 16 * 16 + Hex(c).value;
      if s.col % 2 == 0 then More(s.(val := v)) else Digest(T, s.(val := v), v)
  }

  function Feed(T: Target, s: State, input: seq<int>): Out
    decreases |input|
  {
    if input == [] then More(s)
    else
      var o := Step(T, s, input[0]);
      if o.More? then Feed(T, o.s, input[1..]) else o
  }

  function Prepend(file: seq<byte>, o: Option<seq<byte>>): Option<seq<byte>> {
    if o.None? then None else Some(file + o.value)
  }

  lemma PrependTwice(f: seq<byte>, g: seq<byte>, o: Option<seq<byte>>)
    ensures Prepend(f, Prepend(g, o)) == Prepend(f + g, o)
    ensures Prepend([], o) == o
  {
    if o.Some? {
      assert f + (g + o.value) == f + g + o.value;
      assert [] + o.value == o.value;
    }
  }

  /** The write loop. */
  method WriteFile(data: Buffer, from: int32, last: int32) returns (o: Option<seq<byte>>)
    ensures o == Written(data, from, last)
  {
    var addr: int := from;
    var file := [];
    PrependTwice([], [], Written(data, from, last));
    while addr < last
      invariant Written(data, from, last) == Prepend(file, Written(data, addr, last))
      decreases last - addr
    {
      var clim := last - addr;
      if clim > 65536 {
        clim := 65536;
      }
      var a := addr % BUFSIZ;
      if a + clim > BUFSIZ {
        return None;
      }
      PrependTwice(file, data[a..a + clim], Written(data, addr + clim, last));
      file := file + data[a..a + clim];
      addr := addr + clim;
    }
    assert file + [] == file;
    return Some(file);
  }

  /** The receiver with its variables. */
  method Receive(T: Target, input: seq<int>, data0: Buffer) returns (o: Out)
    ensures o == Feed(T, Start(data0), input)
  {
    var s := Start(data0);
    var i := 0;
    while i < |input|
      invariant 0 <= i <= |input|
      invariant Feed(T, Start(data0), input) == Feed(T, s, input[i..])
    {
      var c := input[i];
      assert input[i..][1..] == input[i + 1..];
      i := i + 1;
      s := s.(col := s.col + 1);
      if c < 0 {
        return Interrupted;
      }
      if c == 13 {
        continue;
      }
      if c == 10 {
        if s.typ == ZERO {
          s := NewLine(s.(name := s.name[s.addr as int := 0]));
          continue;
        }
        if s.typ == 53 {
          s := NewLine(s);
          continue;
        }
        if s.typ <= 51 {
          s := NewLine(s.(last := s.addr, line := s.line + 1));
          continue;
        }
        var w := WriteFile(s.data, s.addr, s.last);
        return if w.None? then Overrun else File(w.value);
      }
      if s.col == 0 {
        if c != LETTER_S {
          return Abort(s.line);
        }
        continue;
      }
      if s.col == 1 {
        s := s.(typ := c, alim := AddressLimit(c), addr := 0);
        continue;
      }
      var d := Hex(c);
      if d.None? {
        return Abort(s.line);
      }
      s := s.(val := s.val % 16 * 16 + d.value);
      if s.col % 2 == 0 {
        continue;
      }
      o := TakeByte(T, s);
      if !o.More? {
        return;
      }
      s := o.s;
    }
    return More(s);
  }

  method TakeByte(T: Target, s0: State) returns (o: Out)
    requires s0.val < 256
    ensures o == Digest(T, s0, s0.val)
  {
    var s, val := s0, s0.val;
    s := s.(csum := s.csum + val);
    if s.col == 3 {
      return More(s.(clim := 2 * val + 3));
    }
    if s.col < s.alim {
      return More(s.(addr := T.shift(s.addr, val)));
    }
    if s.col < s.clim {
      if s.typ == ZERO {
        s := s.(name := s.name[T.slot(s.addr) := val]);
      } else {
        s := s.(data := s.data[T.slot(s.addr) := val]);
      }
      return More(s.(addr := T.next(s.addr)));
    }
    s := s.(csum := 255 - (s.csum - val) % 256);
    if s.csum == val {
      return More(s);
    }
    return Abort(s.line);
  }

  // ---------------------------------------------------------------- encoded records

  /** Upper-case hexadecimal digits. */
  function DigitChar(d: nat): int
    requires d < 16
  {
    if d < 10 then 48 + d else 55 + d
  }

  function Encode(bs: seq<byte>): seq<int>
    decreases |bs|
  {
    if bs == [] then [] else [DigitChar(bs[0] / 16), DigitChar(bs[0] % 16)] + Encode(bs[1..])
  }

  function Total(bs: seq<byte>): nat
    decreases |bs|
  {
    if bs == [] then 0 else bs[0] + Total(bs[1..])
  }

  /** Ones' complement of the low byte of the sum. */
  function Checksum(bs: seq<byte>): byte { Complement(Total(bs)) }

  function Complement(t: nat): byte { 255 - t % 256 }

  // ---------------------------------------------------------------- byte by byte

  lemma {:induction false} FeedAppend(T: Target, s: State, a: seq<int>, b: seq<int>)
    ensures Feed(T, s, a + b) == if Feed(T, s, a).More? then Feed(T, Feed(T, s, a).s, b) else Feed(T, s, a)
    decreases |a|
  {
    if a == [] {
      assert a + b == b;
    } else {
      assert (a + b)[0] == a[0] && (a + b)[1..] == a[1..] + b;
      if Step(T, s, a[0]).More? { FeedAppend(T, Step(T, s, a[0]).s, a[1..], b); }
    }
  }

  /** Taking a byte after an odd column. */
  function ByteStep(T: Target, s: State, b: byte): Out { Digest(T, s.(col := s.col + 2, val := b), b) }

  function Bytes(T: Target, s: State, bs: seq<byte>): Out
    decreases |bs|
  {
    if bs == [] then More(s)
    else
      var o := ByteStep(T, s, bs[0]);
      if o.More? then Bytes(T, o.s, bs[1..]) else o
  }

  lemma HexDigit(d: nat)
    requires d < 16
    ensures Hex(DigitChar(d)) == Some(d) && DigitChar(d) >= 48
  {
  }

  lemma FirstDigit(T: Target, s: State, d: nat)
    requires s.col >= 1 && s.col % 2 == 1 && d < 16
    ensures Step(T, s, DigitChar(d)) == More(s.(col := s.col + 1, val := s.val % 16 * 16 + d))
  {
    HexDigit(d);
  }

  lemma SecondDigit(T: Target, s: State, d: nat)
    requires s.col >= 2 && s.col % 2 == 0 && d < 16
    ensures var v := s.val % 16 * 16 + d; Step(T, s, DigitChar(d)) == Digest(T, s.(col := s.col + 1, val := v), v)
  {
    HexDigit(d);
  }

  lemma DigestColumn(T: Target, s: State, b: byte)
    ensures Digest(T, s, b).More? ==> Digest(T, s, b).s.col == s.col
  {
  }

  lemma TwoDigits(T: Target, s: State, b: byte)
    requires s.col >= 1 && s.col % 2 == 1
    ensures Step(T, s, DigitChar(b / 16)).More?
    ensures Step(T, Step(T, s, DigitChar(b / 16)).s, DigitChar(b % 16)) == ByteStep(T, s, b)
    ensures ByteStep(T, s, b).More? ==> ByteStep(T, s, b).s.col == s.col + 2
  {
    FirstDigit(T, s, b / 16);
    var v := s.val % 16 * 16 + b / 16;
    var s1 := s.(col := s.col + 1, val := v);
    Nibbles(s.val, b);
    SecondDigit(T, s1, b % 16);
    assert s1.(col := s1.col + 1, val := b) == s.(col := s.col + 2, val := b);
    DigestColumn(T, s.(col := s.col + 2, val := b), b);
  }

  lemma Nibbles(v: nat, b: byte)
    ensures (v % 16 * 16 + b / 16) % 16 * 16 + b % 16 == b
  {
    assert (v % 16 * 16 + b / 16) % 16 == b / 16;
  }

  /** Reading the digits of some bytes is taking the bytes one by one. */
  lemma {:induction false} FeedBytes(T: Target, s: State, bs: seq<byte>)
    requires s.col >= 1 && s.col % 2 == 1
    ensures Feed(T, s, Encode(bs)) == Bytes(T, s, bs)
    decreases |bs|
  {
    if bs != [] {
      var t := Encode(bs);
      assert t[0] == DigitChar(bs[0] / 16) && t[1..][0] == DigitChar(bs[0] % 16) && t[1..][1..] == Encode(bs[1..]);
      TwoDigits(T, s, bs[0]);
      var o := ByteStep(T, s, bs[0]);
      if o.More? { FeedBytes(T, o.s, bs[1..]); }
    }
  }

  lemma {:induction false} BytesAppend(T: Target, s: State, a: seq<byte>, b: seq<byte>)
    ensures Bytes(T, s, a + b) == if Bytes(T, s, a).More? then Bytes(T, Bytes(T, s, a).s, b) else Bytes(T, s, a)
    decreases |a|
  {
    if a == [] {
      assert a + b == b;
    } else {
      assert (a + b)[0] == a[0] && (a + b)[1..] == a[1..] + b;
      var o := ByteStep(T, s, a[0]);
      if o.More? { BytesAppend(T, o.s, a[1..], b); }
    }
  }

  // ---------------------------------------------------------------- the checksum rule

  /** Bytes between the count and the checksum: all are taken and summed. */
  lemma {:induction false} Summed(T: Target, s: State, bs: seq<byte>)
    requires s.col >= 3 && s.col + 2 * |bs| < s.clim
    ensures var o := Bytes(T, s, bs);
            && o.More? && o.s.csum == s.csum + Total(bs) && o.s.col == s.col + 2 * |bs|
            && o.s.clim == s.clim && o.s.alim == s.alim && o.s.line == s.line && o.s.typ == s.typ
    decreases |bs|
  {
    if bs != [] { Summed(T, ByteStep(T, s, bs[0]).s, bs[1..]); }
  }

  /** Ready for the count byte of a record. */
  predicate Typed(s: State) { s.col == 1 && s.csum == 0 }

  lemma CheckByte(T: Target, s: State, b: byte)
    requires s.col >= 3 && s.col + 2 == s.clim && s.alim <= s.clim && s.csum >= 0
    ensures Bytes(T, s, [b]).More? <==> b == Complement(s.csum)
    ensures !Bytes(T, s, [b]).More? ==> Bytes(T, s, [b]) == Abort(s.line)
    ensures Bytes(T, s, [b]).More? ==>
              var t := Bytes(T, s, [b]).s; t.addr == s.addr && t.data == s.data && t.name == s.name && t.line == s.line && t.typ == s.typ && t.last == s.last
  {
    assert [b][1..] == [];
  }

  lemma {:induction false} TotalAppend(a: seq<byte>, b: seq<byte>)
    ensures Total(a + b) == Total(a) + Total(b)
    decreases |a|
  {
    if a == [] {
      assert a + b == b;
    } else {
      assert (a + b)[1..] == a[1..] + b;
      TotalAppend(a[1..], b);
    }
  }

  lemma AfterCount(T: Target, s: State, n: byte)
    requires Typed(s)
    ensures Bytes(T, s, [n]) == More(s.(col := 3, val := n, csum := n, clim := 2 * n + 3))
  {
    assert [n][1..] == [];
  }

  /** What follows the count byte. */
  lemma BodyAndCheck(T: Target, s: State, body: seq<byte>, check: byte)
    requires s.col == 3 && s.clim == 5 + 2 * |body| && s.alim <= s.clim && s.csum >= 0
    ensures var o := Bytes(T, s, body + [check]);
            && (o.More? <==> check == Complement(s.csum + Total(body)))
            && (!o.More? ==> o == Abort(s.line))
  {
    BytesAppend(T, s, body, [check]);
    Summed(T, s, body);
    CheckByte(T, Bytes(T, s, body).s, check);
  }

  /** A complete record is accepted exactly when its last byte is the ones'
      complement of the low byte of the sum of the others. */
  lemma CompleteRecord(T: Target, s: State, n: byte, body: seq<byte>, check: byte)
    requires Typed(s) && n == |body| + 1 && s.alim <= 2 * n + 3
    ensures var o := Bytes(T, s, [n] + (body + [check]));
            && (o.More? <==> check == Checksum([n] + body))
            && (o.More? <==> (Total([n] + body) + check) % 256 == 255)
            && (!o.More? ==> o == Abort(s.line))
  {
    ComplementIs(Total([n] + body), check);
    var s1 := s.(col := 3, val := n, csum := n, clim := 2 * n + 3);
    var tail := body + [check];
    AfterCount(T, s, n);
    BytesAppend(T, s, [n], tail);
    assert Bytes(T, s, [n] + tail) == Bytes(T, s1, tail);
    BodyAndCheck(T, s1, body, check);
    TotalFront(n, body);
  }

  /** The ones' complement is what brings the low byte of the sum to 255. */
  lemma ComplementIs(t: nat, c: byte)
    ensures c == Complement(t) <==> (t + c) % 256 == 255
  {
  }

  lemma TotalFront(n: byte, body: seq<byte>)
    ensures Total([n] + body) == n + Total(body)
  {
    var all := [n] + body;
    assert all != [] && all[0] == n;
    assert all[1..] == body;
  }

  lemma {:induction false} TotalUpdate(bs: seq<byte>, i: nat, b: byte)
    requires i < |bs|
    ensures Total(bs[i := b]) == Total(bs) - bs[i] + b
    decreases |bs|
  {
    if i == 0 {
      assert bs[i := b][1..] == bs[1..];
    } else {
      assert bs[i := b][1..] == bs[1..][i - 1 := b];
      TotalUpdate(bs[1..], i - 1, b);
    }
  }

  lemma DifferentMod(t: int, x: byte, y: byte)
    requires x != y
    ensures (t - x + y) % 256 != t % 256
  {
  }

  lemma ChecksumChanges(n: byte, body: seq<byte>, i: nat, b: byte)
    requires i < |body| && b != body[i]
    ensures Checksum([n] + body[i := b]) != Checksum([n] + body)
  {
    TotalFront(n, body);
    TotalFront(n, body[i := b]);
    TotalUpdate(body, i, b);
    DifferentMod(n + Total(body), body[i], b);
  }

  /** Changing any single byte after the count of a correct record, data or
      address or the checksum itself, makes the receiver give up, so nothing is
      written whatever follows. */
  lemma SingleByteChangeAborts(T: Target, s: State, n: byte, body: seq<byte>, i: nat, b: byte, rest: seq<int>)
    requires Typed(s) && n == |body| + 1 && s.alim <= 2 * n + 3 && i <= |body|
    requires b != (body + [Checksum([n] + body)])[i]
    ensures Feed(T, s, Encode([n] + (body + [Checksum([n] + body)])[i := b]) + rest) == Abort(s.line)
  {
    var check := Checksum([n] + body);
    var full := (body + [check])[i := b];
    if i < |body| {
      assert full == body[i := b] + [check];
      ChecksumChanges(n, body, i, b);
      CompleteRecord(T, s, n, body[i := b], check);
    } else {
      assert full == body + [b];
      CompleteRecord(T, s, n, body, b);
    }
    FeedBytes(T, s, [n] + full);
    FeedAppend(T, s, Encode([n] + full), rest);
  }

  // ---------------------------------------------------------------- records and what they do

  function AddrOf(T: Target, v: int32, ab: seq<byte>): int32
    decreases |ab|
  {
    if ab == [] then v else AddrOf(T, T.shift(v, ab[0]), ab[1..])
  }

  function AddrAfter(T: Target, a: int32, bs: seq<byte>): int32
    decreases |bs|
  {
    if bs == [] then a else AddrAfter(T, T.next(a), bs[1..])
  }

  function WriteBuf(T: Target, data: Buffer, a: int32, bs: seq<byte>): Buffer
    decreases |bs|
  {
    if bs == [] then data else WriteBuf(T, data[T.slot(a) := bs[0]], T.next(a), bs[1..])
  }

  /** A header fills the name instead. */
  function WriteName(T: Target, name: map<int, byte>, a: int32, bs: seq<byte>): map<int, byte>
    decreases |bs|
  {
    if bs == [] then name else WriteName(T, name[T.slot(a) := bs[0]], T.next(a), bs[1..])
  }

  /** Everything but the progress through the line. */
  predicate SameBut(s: State, t: State, col: int, csum: int) {
    t.col == col && t.csum == csum && t.clim == s.clim && t.alim == s.alim && t.typ == s.typ && t.line == s.line && t.last == s.last
  }

  lemma {:induction false} AddressBytes(T: Target, s: State, ab: seq<byte>)
    requires s.col >= 3 && s.col + 2 * |ab| < s.alim
    ensures var o := Bytes(T, s, ab);
            && o.More? && SameBut(s, o.s, s.col + 2 * |ab|, s.csum + Total(ab))
            && o.s.addr == AddrOf(T, s.addr, ab) && o.s.data == s.data && o.s.name == s.name
    decreases |ab|
  {
    if ab != [] { AddressBytes(T, ByteStep(T, s, ab[0]).s, ab[1..]); }
  }

  lemma {:induction false} DataBytes(T: Target, s: State, bs: seq<byte>)
    requires s.col >= 3 && s.col + 2 >= s.alim && s.col + 2 * |bs| < s.clim
    ensures var o := Bytes(T, s, bs);
            && o.More? && SameBut(s, o.s, s.col + 2 * |bs|, s.csum + Total(bs))
            && o.s.addr == AddrAfter(T, s.addr, bs)
            && o.s.data == (if s.typ == ZERO then s.data else WriteBuf(T, s.data, s.addr, bs))
            && o.s.name == (if s.typ == ZERO then WriteName(T, s.name, s.addr, bs) else s.name)
    decreases |bs|
  {
    if bs != [] { DataBytes(T, ByteStep(T, s, bs[0]).s, bs[1..]); }
  }

  function Count(ab: seq<byte>, data: seq<byte>): int { |ab| + |data| + 1 }

  predicate Small(ab: seq<byte>, data: seq<byte>) { Count(ab, data) <= 255 }

  /** The bytes of a record: count, address, data, checksum. The count is one
      byte, so a record is sensible only when it is `Small`. */
  function Payload(ab: seq<byte>, data: seq<byte>): seq<byte> {
    var n: byte := Count(ab, data) % 256;
    [n] + ((ab + data) + [Checksum([n] + (ab + data))])
  }

  /** After the count byte: address, then data. */
  lemma AddressAndData(T: Target, s: State, ab: seq<byte>, data: seq<byte>)
    requires s.col == 3 && s.alim == 4 + 2 * |ab| && s.clim == 5 + 2 * (|ab| + |data|)
    ensures var o := Bytes(T, s, ab + data);
            && o.More? && SameBut(s, o.s, 3 + 2 * (|ab| + |data|), s.csum + Total(ab + data))
            && o.s.addr == AddrAfter(T, AddrOf(T, s.addr, ab), data)
            && o.s.data == (if s.typ == ZERO then s.data else WriteBuf(T, s.data, AddrOf(T, s.addr, ab), data))
            && o.s.name == (if s.typ == ZERO then WriteName(T, s.name, AddrOf(T, s.addr, ab), data) else s.name)
  {
    AddressBytes(T, s, ab);
    BytesAppend(T, s, ab, data);
    DataBytes(T, Bytes(T, s, ab).s, data);
    TotalAppend(ab, data);
  }

  /** A correct record moves its data into the buffer. */
  lemma RecordBytes(T: Target, s: State, ab: seq<byte>, data: seq<byte>)
    requires Typed(s) && s.addr == 0 && s.alim == 4 + 2 * |ab| && Small(ab, data)
    ensures var o := Bytes(T, s, Payload(ab, data));
            && o.More? && o.s.typ == s.typ && o.s.line == s.line && o.s.last == s.last
            && o.s.addr == AddrAfter(T, AddrOf(T, 0, ab), data)
            && o.s.data == (if s.typ == ZERO then s.data else WriteBuf(T, s.data, AddrOf(T, 0, ab), data))
            && o.s.name == (if s.typ == ZERO then WriteName(T, s.name, AddrOf(T, 0, ab), data) else s.name)
  {
    var n: byte, body := Count(ab, data), ab + data;
    var check := Checksum([n] + body);
    var s1 := s.(col := 3, val := n, csum := n, clim := 2 * n + 3);
    AfterCount(T, s, n);
    BytesAppend(T, s, [n], body + [check]);
    assert Bytes(T, s, Payload(ab, data)) == Bytes(T, s1, body + [check]);
    AddressAndData(T, s1, ab, data);
    BytesAppend(T, s1, body, [check]);
    TotalFront(n, body);
    CheckByte(T, Bytes(T, s1, body).s, check);
  }

  // ---------------------------------------------------------------- lines

  function LineEnd(crlf: bool): seq<int> { if crlf then [13, 10] else [10] }

  function LineOf(typ: int, ab: seq<byte>, data: seq<byte>, crlf: bool): seq<int> {
    [LETTER_S, typ] + (Encode(Payload(ab, data)) + LineEnd(crlf))
  }

  /** At the start of a line. */
  predicate AtStart(s: State) { s.col == -1 && s.csum == 0 }

  lemma ReadType(T: Target, s: State, typ: int)
    requires AtStart(s) && typ > 13
    ensures Feed(T, s, [LETTER_S, typ]) == More(s.(col := 1, typ := typ, alim := AddressLimit(typ), addr := 0))
  {
    var t := [LETTER_S, typ];
    assert t[1..] == [typ] && [typ][1..] == [];
    assert Step(T, s, LETTER_S) == More(s.(col := 0));
    assert Step(T, s.(col := 0), typ) == More(s.(col := 1, typ := typ, alim := AddressLimit(typ), addr := 0));
    assert Feed(T, s, t) == Feed(T, s.(col := 0), [typ]);
  }

  lemma ReadEnd(T: Target, s: State, crlf: bool)
    ensures exists c :: Feed(T, s, LineEnd(crlf)) == EndLine(s.(col := c))
  {
    if crlf {
      assert [13, 10][1..] == [10] && [10][1..] == [];
      assert Step(T, s, 13) == More(s.(col := s.col + 1));
      assert Feed(T, s, [13, 10]) == Feed(T, s.(col := s.col + 1), [10]);
      FeedOne(T, s.(col := s.col + 1), 10);
      assert Feed(T, s, LineEnd(crlf)) == EndLine(s.(col := s.col + 2));
    } else {
      FeedOne(T, s, 10);
      assert Feed(T, s, LineEnd(crlf)) == EndLine(s.(col := s.col + 1));
    }
  }

  lemma FeedOne(T: Target, s: State, c: int)
    ensures Feed(T, s, [c]) == Step(T, s, c)
  {
    assert [c][1..] == [];
  }

  /** A whole line: the record's effect, then the end of the line. */
  lemma ReadLine(T: Target, s: State, typ: int, ab: seq<byte>, data: seq<byte>, crlf: bool) returns (t: State)
    requires AtStart(s) && typ > 13 && AddressLimit(typ) == 4 + 2 * |ab| && Small(ab, data)
    ensures Feed(T, s, LineOf(typ, ab, data, crlf)) == EndLine(t)
    ensures t.typ == typ && t.line == s.line && t.last == s.last && t.addr == AddrAfter(T, AddrOf(T, 0, ab), data)
    ensures t.data == if typ == ZERO then s.data else WriteBuf(T, s.data, AddrOf(T, 0, ab), data)
    ensures t.name == if typ == ZERO then WriteName(T, s.name, AddrOf(T, 0, ab), data) else s.name
  {
    var s1 := s.(col := 1, typ := typ, alim := AddressLimit(typ), addr := 0);
    var p, e := Encode(Payload(ab, data)), LineEnd(crlf);
    ReadType(T, s, typ);
    FeedAppend(T, s, [LETTER_S, typ], p + e);
    assert Feed(T, s, LineOf(typ, ab, data, crlf)) == Feed(T, s1, p + e);
    RecordBytes(T, s1, ab, data);
    FeedBytes(T, s1, Payload(ab, data));
    FeedAppend(T, s1, p, e);
    var s2 := Bytes(T, s1, Payload(ab, data)).s;
    ReadEnd(T, s2, crlf);
    var c :| Feed(T, s2, e) == EndLine(s2.(col := c));
    t := s2.(col := c);
  }

  // ---------------------------------------------------------------- the round trip

  /** What the round trip needs of the address arithmetic; `Mips` has it. */
  ghost predicate Linear(T: Target) {
    && (forall v: word, b: byte :: v < 0x100_0000 ==> T.shift(v, b) == ToSigned(256 * v + b))
    && (forall a: int32 :: T.next(a) == Wrap(a as int + 1))
    && (forall a: int32 :: T.slot(a) == a % BUFSIZ)
  }

  lemma MipsLinear()
    ensures Linear(Mips())
  {
    forall v: word, b: byte | v < 0x100_0000 ensures Mips().shift(v, b) == ToSigned(256 * v + b) {
      ShiftedIn(v, b);
    }
  }

  lemma ShiftedIn(v: word, b: byte)
    requires v < 0x100_0000
    ensures Wrap(v * 256 + b) == ToSigned(256 * v + b)
  {
  }

  function BigEndian(k: nat, w: nat): (ab: seq<byte>)
    ensures |ab| == k
  {
    if k == 0 then [] else BigEndian(k - 1, w / 256) + [w % 256]
  }

  function Limit(k: nat): nat { if k == 0 then 1 else 256 * Limit(k - 1) }

  lemma {:induction false} AddrOfAppend(T: Target, v: int32, ab: seq<byte>, b: byte)
    ensures AddrOf(T, v, ab + [b]) == T.shift(AddrOf(T, v, ab), b)
    decreases |ab|
  {
    if ab == [] {
      assert [] + [b] == [b] && [b][1..] == [];
    } else {
      assert (ab + [b])[0] == ab[0] && (ab + [b])[1..] == ab[1..] + [b];
      AddrOfAppend(T, T.shift(v, ab[0]), ab[1..], b);
    }
  }

  /** The address field is read back as the address. */
  lemma {:induction false} AddressReadBack(T: Target, k: nat, w: word)
    requires Linear(T) && w < Limit(k)
    ensures AddrOf(T, 0, BigEndian(k, w)) == ToSigned(w)
  {
    if k > 0 {
      var v: word := w / 256;
      AddressReadBack(T, k - 1, v);
      AddrOfAppend(T, 0, BigEndian(k - 1, v), w % 256);
      assert T.shift(v, w % 256) == ToSigned(256 * v + w % 256);
    }
  }

  /** The signed register that holds address `a`. */
  function Reg(a: nat): int32 { Wrap(a) }

  lemma NextReg(a: nat)
    requires a < TWO32
    ensures Wrap(Reg(a) as int + 1) == Reg(a + 1)
  {
  }

  lemma RegSlot(a: nat)
    requires a < TWO32
    ensures Reg(a) % BUFSIZ == a % BUFSIZ
  {
    if Reg(a) != a { assert (a - TWO32) % BUFSIZ == a % BUFSIZ; }
  }

  lemma {:induction false} AddrAfterIs(T: Target, a: nat, bs: seq<byte>)
    requires Linear(T) && a + |bs| <= TWO32
    ensures AddrAfter(T, Reg(a), bs) == Reg(a + |bs|)
    decreases |bs|
  {
    if bs != [] {
      NextReg(a);
      AddrAfterIs(T, a + 1, bs[1..]);
    }
  }

  function Splice(data: Buffer, q: nat, bs: seq<byte>): Buffer
    requires q + |bs| <= BUFSIZ
  {
    data[..q] + bs + data[q + |bs|..]
  }

  lemma SpliceFirst(data: Buffer, q: nat, bs: seq<byte>)
    requires bs != [] && q + |bs| <= BUFSIZ
    ensures Splice(data[q := bs[0]], q + 1, bs[1..]) == Splice(data, q, bs)
  {
    assert data[q := bs[0]][..q + 1] == data[..q] + [bs[0]];
    assert data[q := bs[0]][q + |bs|..] == data[q + |bs|..];
    assert [bs[0]] + bs[1..] == bs;
  }

  /** Address `a` falls on buffer position `q`, or just past the end. */
  predicate Aligned(a: int, q: int) { (a - q) % BUFSIZ == 0 }

  lemma AlignedOn(a: int, q: int, n: int)
    requires Aligned(a, q)
    ensures Aligned(a + n, q + n)
  {
    assert a + n - (q + n) == a - q;
  }

  lemma SameSlot(a: int, q: nat)
    requires Aligned(a, q) && q < BUFSIZ
    ensures a % BUFSIZ == q
  {
  }

  lemma {:induction false} WriteBufIs(T: Target, data: Buffer, a: nat, bs: seq<byte>, q: nat)
    requires Linear(T) && a + |bs| <= TWO32 && Aligned(a, q) && q + |bs| <= BUFSIZ
    ensures WriteBuf(T, data, Reg(a), bs) == Splice(data, q, bs)
    decreases |bs|
  {
    if bs == [] {
      assert data == Splice(data, q, bs);
    } else {
      SameSlot(a, q);
      RegSlot(a);
      NextReg(a);
      AlignedOn(a, q, 1);
      WriteBufIs(T, data[q := bs[0]], a + 1, bs[1..], q + 1);
      SpliceFirst(data, q, bs);
    }
  }

  lemma {:induction false} WrittenIs(data: Buffer, addr: int, last: int, q: nat)
    requires Aligned(addr, q) && addr <= last && q + (last - addr) <= BUFSIZ
    ensures Written(data, addr, last) == Some(data[q..q + (last - addr)])
    decreases last - addr
  {
    if addr == last {
      assert data[q..q] == [];
    } else {
      var n := if last - addr > 65536 then 65536 else last - addr;
      SameSlot(addr, q);
      AlignedOn(addr, q, n);
      WrittenIs(data, addr + n, last, q + n);
      assert q + n + (last - (addr + n)) == q + (last - addr);
      assert data[q..q + n] + data[q + n..q + (last - addr)] == data[q..q + (last - addr)];
    }
  }

  /** A line of a session before the termination record. The width is the
      number of address bytes: two, three or four. */
  datatype Line = Header(text: seq<byte>, crlf: bool)
                | Tally(high: byte, low: byte, crlf: bool)
                | Data(width: nat, bytes: seq<byte>, crlf: bool)

  datatype Lines = End | Then(line: Line, rest: Lines)

  function Content(l: Line): seq<byte> { if l.Data? then l.bytes else [] }

  function Image(ls: Lines): seq<byte> { if ls.End? then [] else Content(ls.line) + Image(ls.rest) }

  predicate HasData(ls: Lines) { ls.Then? && (ls.line.Data? || HasData(ls.rest)) }

  /** An address that can be given in `k` bytes. */
  predicate Addressable(k: nat, a: nat) {
    2 <= k <= 4 && a < TWO32 && (k == 2 ==> a < 0x1_0000) && (k == 3 ==> a < 0x100_0000)
  }

  predicate LineEncodable(l: Line, a: nat) {
    match l
    case Header(text, _) => |text| + 3 <= 255
    case Tally(_, _, _) => true
    case Data(k, bytes, _) => Addressable(k, a) && k + |bytes| + 1 <= 255
  }

  predicate Encodable(ls: Lines, a: nat) {
    ls.Then? ==> LineEncodable(ls.line, a) && Encodable(ls.rest, a + |Content(ls.line)|)
  }

  function LineText(l: Line, a: nat): seq<int> {
    match l
    case Header(text, crlf) => LineOf(ZERO, [0, 0], text, crlf)
    case Tally(high, low, crlf) => LineOf(53, [high, low], [], crlf)
    case Data(k, bytes, crlf) => LineOf(47 + k, BigEndian(k, a), bytes, crlf)
  }

  /** The texts of the lines one after the other, data starting at `a`. */
  function Texts(text: (Line, nat) -> seq<int>, ls: Lines, a: nat): seq<int>
    decreases ls
  {
    if ls.End? then [] else text(ls.line, a) + Texts(text, ls.rest, a + |Content(ls.line)|)
  }

  function Session(ls: Lines, a: nat): seq<int> { Texts(LineText, ls, a) }

  /** S9, S8 or S7 with the base address. */
  function Termination(k: nat, base: nat, crlf: bool): seq<int> {
    LineOf(59 - k, BigEndian(k, base), [], crlf)
  }

  lemma SpliceTwice(data: Buffer, p: nat, a: seq<byte>, b: seq<byte>)
    requires p + |a| + |b| <= BUFSIZ
    ensures Splice(Splice(data, p, a), p + |a|, b) == Splice(data, p, a + b)
  {
    var d := Splice(data, p, a);
    assert d[..p + |a|] == data[..p] + a;
    assert d[p + |a| + |b|..] == data[p + |a| + |b|..];
  }

  lemma SpliceBack(data: Buffer, p: nat, bs: seq<byte>)
    requires p + |bs| <= BUFSIZ
    ensures Splice(data, p, bs)[p..p + |bs|] == bs
  {
  }

  lemma FieldReadBack(T: Target, k: nat, a: nat)
    requires Linear(T) && Addressable(k, a)
    ensures AddrOf(T, 0, BigEndian(k, a)) == Reg(a)
  {
    assert Limit(2) == 0x1_0000;
    assert Limit(3) == 0x100_0000;
    assert Limit(4) == 0x1_0000_0000;
    AddressReadBack(T, k, a);
  }

  /** Where the data of a line goes and where the address ends up. */
  lemma DataEffect(T: Target, data: Buffer, k: nat, a: nat, bytes: seq<byte>, p: nat)
    requires Linear(T) && Aligned(a, p) && Addressable(k, a)
    requires a + |bytes| <= TWO32 && p + |bytes| <= BUFSIZ
    ensures AddrAfter(T, AddrOf(T, 0, BigEndian(k, a)), bytes) == Reg(a + |bytes|)
    ensures WriteBuf(T, data, AddrOf(T, 0, BigEndian(k, a)), bytes) == Splice(data, p, bytes)
  {
    FieldReadBack(T, k, a);
    AddrAfterIs(T, a, bytes);
    WriteBufIs(T, data, a, bytes, p);
  }

  lemma DataLine(T: Target, s: State, l: Line, a: nat, p: nat) returns (t: State)
    requires Linear(T) && AtStart(s) && Aligned(a, p)
    requires l.Data? && LineEncodable(l, a) && a + |l.bytes| <= TWO32 && p + |l.bytes| <= BUFSIZ
    ensures Feed(T, s, LineText(l, a)) == More(t)
    ensures AtStart(t) && t.data == Splice(s.data, p, l.bytes) && t.last == Reg(a + |l.bytes|) && t.line == s.line + 1
  {
    var e := ReadLine(T, s, 47 + l.width, BigEndian(l.width, a), l.bytes, l.crlf);
    DataEffect(T, s.data, l.width, a, l.bytes, p);
    t := NewLine(e.(last := e.addr, line := e.line + 1));
  }

  lemma OtherLine(T: Target, s: State, typ: int, ab: seq<byte>, bytes: seq<byte>, crlf: bool) returns (t: State)
    requires AtStart(s) && |ab| == 2 && Small(ab, bytes)
    requires typ == ZERO || (typ == 53 && bytes == [])
    ensures Feed(T, s, LineOf(typ, ab, bytes, crlf)) == More(t) && AtStart(t) && t.data == s.data && t.last == s.last && t.line == s.line
  {
    var e := ReadLine(T, s, typ, ab, bytes, crlf);
    t := if typ == ZERO then NewLine(e.(name := e.name[e.addr as int := 0])) else NewLine(e);
  }

  /** `last_addr` after a line. */
  function LineLast(l: Line, a: nat, last: int): int { if l.Data? then Reg(a + |l.bytes|) else last }

  function Records(l: Line): nat { if l.Data? then 1 else 0 }

  lemma AnyLine(T: Target, s: State, l: Line, a: nat, p: nat) returns (t: State)
    requires Linear(T) && AtStart(s) && Aligned(a, p)
    requires LineEncodable(l, a) && a + |Content(l)| <= TWO32 && p + |Content(l)| <= BUFSIZ
    ensures Feed(T, s, LineText(l, a)) == More(t)
    ensures AtStart(t) && t.data == Splice(s.data, p, Content(l)) && t.last == LineLast(l, a, s.last)
    ensures t.line == s.line + Records(l)
  {
    match l
    case Header(text, crlf) =>
      t := OtherLine(T, s, ZERO, [0, 0], text, crlf);
      assert Splice(s.data, p, []) == s.data;
    case Tally(high, low, crlf) =>
      t := OtherLine(T, s, 53, [high, low], [], crlf);
      assert Splice(s.data, p, []) == s.data;
    case Data(_, _, _) =>
      t := DataLine(T, s, l, a, p);
  }

  function LastOf(ls: Lines, a: nat, last: int): int
    decreases ls
  {
    if ls.End? then last else LastOf(ls.rest, a + |Content(ls.line)|, LineLast(ls.line, a, last))
  }

  lemma LastFirst(l: Line, rest: Lines, a: nat, last: int)
    ensures LastOf(Then(l, rest), a, last) == LastOf(rest, a + |Content(l)|, LineLast(l, a, last))
  {
  }

  lemma {:induction false} LastOfIs(ls: Lines, a: nat, last: int)
    ensures LastOf(ls, a, last) == if HasData(ls) then Reg(a + |Image(ls)|) else last
    decreases ls
  {
    if ls.Then? {
      var n := |Content(ls.line)|;
      LastOfIs(ls.rest, a + n, LineLast(ls.line, a, last));
      NoData(ls.rest);
      ImageLength(ls.line, ls.rest);
      assert a + n + |Image(ls.rest)| == a + |Image(ls)|;
    }
  }

  lemma SpliceImage(data: Buffer, p: nat, l: Line, rest: Lines)
    requires p + |Content(l)| + |Image(rest)| <= BUFSIZ
    ensures Splice(Splice(data, p, Content(l)), p + |Content(l)|, Image(rest)) == Splice(data, p, Image(Then(l, rest)))
  {
    SpliceTwice(data, p, Content(l), Image(rest));
  }

  /** How a line is read, and how several are. */
  type Reader = (State, Line, nat) -> Out

  function After(read: Reader, s: State, ls: Lines, a: nat): Out
    decreases ls
  {
    if ls.End? then More(s)
    else
      var o := read(s, ls.line, a);
      if o.More? then After(read, o.s, ls.rest, a + |Content(ls.line)|) else o
  }

  predicate Fitting(s: State, l: Line, a: nat, p: nat) {
    && AtStart(s) && Aligned(a, p) && LineEncodable(l, a)
    && a + |Content(l)| <= TWO32 && p + |Content(l)| <= BUFSIZ
  }

  /** The line's content is in the buffer and its end is noted. */
  predicate Took(s: State, l: Line, a: nat, p: nat, o: Out)
    requires p + |Content(l)| <= BUFSIZ
  {
    && o.More? && AtStart(o.s) && o.s.data == Splice(s.data, p, Content(l)) && o.s.last == LineLast(l, a, s.last)
    && o.s.line == s.line + Records(l)
  }

  /** The data records of a session. */
  function RecordCount(ls: Lines): nat { if ls.End? then 0 else Records(ls.line) + RecordCount(ls.rest) }

  ghost predicate Takes(read: Reader) {
    forall s: State, l: Line, a: nat, p: nat :: Fitting(s, l, a, p) ==> Took(s, l, a, p, read(s, l, a))
  }

  /** All the lines: the image lands in the buffer at the place of its address. */
  lemma {:induction false} AfterLines(read: Reader, s: State, ls: Lines, a: nat, p: nat)
    requires Takes(read) && AtStart(s) && Aligned(a, p)
    requires Encodable(ls, a) && a + |Image(ls)| <= TWO32 && p + |Image(ls)| <= BUFSIZ
    ensures var o := After(read, s, ls, a);
            && o.More? && AtStart(o.s) && o.s.data == Splice(s.data, p, Image(ls)) && o.s.last == LastOf(ls, a, s.last)
            && o.s.line == s.line + RecordCount(ls)
    decreases ls
  {
    match ls
    case End =>
      assert Splice(s.data, p, []) == s.data;
    case Then(l, rest) =>
      ImageLength(l, rest);
      assert Fitting(s, l, a, p);
      AlignedOn(a, p, |Content(l)|);
      AfterLines(read, read(s, l, a).s, rest, a + |Content(l)|, p + |Content(l)|);
      SpliceImage(s.data, p, l, rest);
      LastFirst(l, rest, a, s.last);
  }

  /** The receiver for any step function. */
  function Run(step: (State, int) -> Out, s: State, input: seq<int>): Out
    decreases |input|
  {
    if input == [] then More(s)
    else
      var o := step(s, input[0]);
      if o.More? then Run(step, o.s, input[1..]) else o
  }

  lemma {:induction false} FeedIsRun(T: Target, step: (State, int) -> Out, s: State, input: seq<int>)
    requires forall s: State, c: int :: step(s, c) == Step(T, s, c)
    ensures Feed(T, s, input) == Run(step, s, input)
    decreases |input|
  {
    if input != [] {
      var o := step(s, input[0]);
      assert o == Step(T, s, input[0]);
      if o.More? { FeedIsRun(T, step, o.s, input[1..]); }
    }
  }

  lemma {:induction false} RunAppend(step: (State, int) -> Out, s: State, a: seq<int>, b: seq<int>)
    ensures var o := Run(step, s, a); Run(step, s, a + b) == if o.More? then Run(step, o.s, b) else o
    decreases |a|
  {
    if a == [] {
      assert a + b == b;
    } else {
      assert (a + b)[0] == a[0] && (a + b)[1..] == a[1..] + b;
      var o := step(s, a[0]);
      if o.More? { RunAppend(step, o.s, a[1..], b); }
    }
  }

  /** Reading the texts of the lines is reading them line by line. */
  lemma {:induction false} SessionIs(step: (State, int) -> Out, text: (Line, nat) -> seq<int>, read: Reader, s: State, ls: Lines, a: nat)
    requires forall s: State, l: Line, a: nat :: read(s, l, a) == Run(step, s, text(l, a))
    ensures Run(step, s, Texts(text, ls, a)) == After(read, s, ls, a)
    decreases ls
  {
    match ls
    case End =>
    case Then(l, rest) =>
      var o := read(s, l, a);
      RunAppend(step, s, text(l, a), Texts(text, rest, a + |Content(l)|));
      if o.More? { SessionIs(step, text, read, o.s, rest, a + |Content(l)|); }
  }

  lemma FeedSession(T: Target, read: Reader, s: State, ls: Lines, a: nat)
    requires forall s: State, l: Line, a: nat :: read(s, l, a) == Feed(T, s, LineText(l, a))
    ensures Feed(T, s, Session(ls, a)) == After(read, s, ls, a)
  {
    var step := (s: State, c: int) => Step(T, s, c);
    forall s: State, l: Line, a: nat ensures read(s, l, a) == Run(step, s, LineText(l, a)) {
      FeedIsRun(T, step, s, LineText(l, a));
    }
    FeedIsRun(T, step, s, Session(ls, a));
    SessionIs(step, LineText, read, s, ls, a);
  }

  lemma LineTaken(T: Target, s: State, l: Line, a: nat, p: nat)
    requires Linear(T) && Fitting(s, l, a, p)
    ensures Took(s, l, a, p, Feed(T, s, LineText(l, a)))
  {
    var t := AnyLine(T, s, l, a, p);
  }

  lemma ReadSession(T: Target, s: State, ls: Lines, a: nat, p: nat) returns (t: State)
    requires Linear(T) && AtStart(s) && Aligned(a, p)
    requires Encodable(ls, a) && a + |Image(ls)| <= TWO32 && p + |Image(ls)| <= BUFSIZ
    ensures Feed(T, s, Session(ls, a)) == More(t)
    ensures AtStart(t) && t.data == Splice(s.data, p, Image(ls)) && t.last == LastOf(ls, a, s.last)
    ensures t.line == s.line + RecordCount(ls)
  {
    var read: Reader := (s: State, l: Line, a: nat) => Feed(T, s, LineText(l, a));
    forall s: State, l: Line, a: nat, p: nat | Fitting(s, l, a, p) ensures Took(s, l, a, p, read(s, l, a)) {
      LineTaken(T, s, l, a, p);
    }
    AfterLines(read, s, ls, a, p);
    FeedSession(T, read, s, ls, a);
    t := After(read, s, ls, a).s;
  }

  lemma ImageLength(l: Line, rest: Lines)
    ensures |Image(Then(l, rest))| == |Content(l)| + |Image(rest)|
  {
  }

  lemma {:induction false} NoData(ls: Lines)
    ensures !HasData(ls) ==> Image(ls) == []
  {
    if ls.Then? { NoData(ls.rest); }
  }

  /** The address range runs over the signed limit of the register. */
  predicate Crosses(base: nat, n: nat) { base < TWO31 <= base + n }

  lemma RegDistance(base: nat, n: nat)
    requires base < TWO32 && base + n <= TWO32
    ensures Reg(base + n) - Reg(base) == if Crosses(base, n) then n - TWO32 else n
    ensures n <= BUFSIZ && Crosses(base, n) ==> Reg(base + n) < Reg(base)
  {
  }

  lemma AlignedReg(a: nat, q: int)
    requires a < TWO32 && Aligned(a, q)
    ensures Aligned(Reg(a), q)
  {
    assert (a - TWO32 - q) % BUFSIZ == (a - q) % BUFSIZ;
  }

  lemma Terminated(T: Target, s: State, k: nat, crlf: bool, base: nat, n: nat, q: nat)
    requires Linear(T) && AtStart(s) && Aligned(base, q) && q + n <= BUFSIZ
    requires Addressable(k, base) && base + n <= TWO32 && s.last == Reg(base + n)
    ensures Feed(T, s, Termination(k, base, crlf)) == File(if Crosses(base, n) then [] else s.data[q..q + n])
  {
    var e := ReadLine(T, s, 59 - k, BigEndian(k, base), [], crlf);
    FieldReadBack(T, k, base);
    RegDistance(base, n);
    if !Crosses(base, n) {
      AlignedReg(base, q);
      WrittenIs(s.data, Reg(base), s.last, q);
    }
  }

  lemma SpliceSuffix(data: Buffer, q: nat, bs: seq<byte>, d: nat)
    requires q + |bs| <= BUFSIZ && d <= |bs|
    ensures Splice(data, q, bs)[q + d..q + |bs|] == bs[d..]
  {
    SpliceBack(data, q, bs);
    var r := Splice(data, q, bs);
    assert r[q + d..q + |bs|] == r[q..q + |bs|][d..];
  }

  /** Decoding the S-record encoding of a contiguous image that does not wrap
      around the buffer, for every way to cut it into records, every address
      width, every placing of header and count records, both line ends and
      every address in the termination record, on every target with `Linear`
      address arithmetic. The file is the buffer from that
      address to the end of the image: the bytes that were there before the
      image, if any, and the image, or its part from that address on. When the
      range from that address runs over the signed limit of the address
      register, the file is empty. */
  lemma DecodeFrom(T: Target, ls: Lines, base: nat, start: nat, len: nat, k: nat, crlf: bool, data0: Buffer, after: seq<int>, from: nat)
    requires Linear(T) && Encodable(ls, base) && HasData(ls) && Addressable(k, start)
    requires start + len == base + |Image(ls)| <= TWO32
    requires base % BUFSIZ + |Image(ls)| <= BUFSIZ && from == base % BUFSIZ + start - base
    ensures Feed(T, Start(data0), Session(ls, base) + (Termination(k, start, crlf) + after))
            == File(if Crosses(start, len) then [] else Splice(data0, base % BUFSIZ, Image(ls))[from..from + len])
  {
    var q := base % BUFSIZ;
    assert Aligned(base, q);
    AlignedOn(base, q, start - base);
    var t := WholeSession(T, ls, base, data0, q);
    EndSession(T, Start(data0), Session(ls, base), t, start, len, k, crlf, from, after);
  }

  /** From inside the image on, that is the rest of the image. */
  lemma DecodeSuffix(T: Target, ls: Lines, base: nat, d: nat, k: nat, crlf: bool, data0: Buffer, after: seq<int>)
    requires Linear(T) && Encodable(ls, base) && HasData(ls) && d <= |Image(ls)| && Addressable(k, base + d)
    requires base + |Image(ls)| <= TWO32 && base % BUFSIZ + |Image(ls)| <= BUFSIZ && !Crosses(base + d, |Image(ls)| - d)
    ensures Feed(T, Start(data0), Session(ls, base) + (Termination(k, base + d, crlf) + after)) == File(Image(ls)[d..])
  {
    var q := base % BUFSIZ;
    SpliceSuffix(data0, q, Image(ls), d);
    DecodeFrom(T, ls, base, base + d, |Image(ls)| - d, k, crlf, data0, after, q + d);
  }

  lemma WholeSession(T: Target, ls: Lines, base: nat, data0: Buffer, q: nat) returns (t: State)
    requires Linear(T) && Encodable(ls, base) && HasData(ls) && Aligned(base, q)
    requires base + |Image(ls)| <= TWO32 && q + |Image(ls)| <= BUFSIZ
    ensures Feed(T, Start(data0), Session(ls, base)) == More(t) && AtStart(t)
    ensures t.data == Splice(data0, q, Image(ls)) && t.last == Reg(base + |Image(ls)|)
  {
    t := ReadSession(T, Start(data0), ls, base, q);
    LastOfIs(ls, base, Start(data0).last);
  }

  lemma EndSession(T: Target, s: State, x: seq<int>, t: State, start: nat, n: nat, k: nat, crlf: bool, from: nat, after: seq<int>)
    requires Linear(T) && AtStart(t) && Aligned(start, from) && from + n <= BUFSIZ
    requires Addressable(k, start) && start + n <= TWO32 && t.last == Reg(start + n) && Feed(T, s, x) == More(t)
    ensures Feed(T, s, x + (Termination(k, start, crlf) + after)) == File(if Crosses(start, n) then [] else t.data[from..from + n])
  {
    Terminated(T, t, k, crlf, start, n, from);
    FeedThree(T, s, x, t, Termination(k, start, crlf), after);
  }

  /** Nothing after the end of a session matters. */
  lemma FeedThree(T: Target, s: State, x: seq<int>, t: State, y: seq<int>, after: seq<int>)
    requires Feed(T, s, x) == More(t) && !Feed(T, t, y).More?
    ensures Feed(T, s, x + (y + after)) == Feed(T, t, y)
  {
    FeedAppend(T, s, x, y + after);
    FeedAppend(T, t, y, after);
  }

  /** With the base in the termination record exactly the image is written,
      unless its address range runs over the signed limit. */
  lemma RoundTrip(ls: Lines, base: nat, k: nat, crlf: bool, data0: Buffer, after: seq<int>)
    requires Encodable(ls, base) && HasData(ls) && Addressable(k, base)
    requires base + |Image(ls)| <= TWO32 && base % BUFSIZ + |Image(ls)| <= BUFSIZ
    ensures Feed(Mips(), Start(data0), Session(ls, base) + (Termination(k, base, crlf) + after))
            == File(if Crosses(base, |Image(ls)|) then [] else Image(ls))
  {
    MipsLinear();
    DecodeFrom(Mips(), ls, base, base, |Image(ls)|, k, crlf, data0, after, base % BUFSIZ);
    SpliceBack(data0, base % BUFSIZ, Image(ls));
  }

  /** Hence the round trip holds exactly for the images that do not cross. */
  lemma RoundTripExactly(ls: Lines, base: nat, k: nat, crlf: bool, data0: Buffer)
    requires Encodable(ls, base) && HasData(ls) && Addressable(k, base)
    requires base + |Image(ls)| <= TWO32 && base % BUFSIZ + |Image(ls)| <= BUFSIZ
    ensures Feed(Mips(), Start(data0), Session(ls, base) + Termination(k, base, crlf)) == File(Image(ls))
            <==> !Crosses(base, |Image(ls)|)
  {
    RoundTrip(ls, base, k, crlf, data0, []);
    assert Termination(k, base, crlf) + [] == Termination(k, base, crlf);
  }

  /** A failing input: one byte at the highest positive address. */
  lemma TopByteLost(b: byte, data0: Buffer)
    ensures var ls := Then(Data(4, [b], false), End);
            Feed(Mips(), Start(data0), Session(ls, 0x7fff_ffff) + Termination(4, 0x7fff_ffff, false)) == File([])
  {
    var ls := Then(Data(4, [b], false), End);
    assert Image(ls) == [b] + Image(End);
    RoundTrip(ls, 0x7fff_ffff, 4, false, data0, []);
    assert Termination(4, 0x7fff_ffff, false) + [] == Termination(4, 0x7fff_ffff, false);
  }

  /** In a whole session: after any lines, a data record in which one byte after
      the count is changed makes the receiver give up at that record, whatever
      follows, so no file is written. */
  lemma ChangedRecordAborts(T: Target, ls: Lines, base: nat, data0: Buffer, typ: int, ab: seq<byte>, data: seq<byte>, i: nat, b: byte, rest: seq<int>)
    requires Linear(T) && Encodable(ls, base) && base + |Image(ls)| <= TWO32 && base % BUFSIZ + |Image(ls)| <= BUFSIZ
    requires typ > 13 && AddressLimit(typ) == 4 + 2 * |ab| && Small(ab, data) && i <= |ab + data|
    requires b != Payload(ab, data)[i + 1]
    ensures Feed(T, Start(data0), Session(ls, base) + ([LETTER_S, typ] + (Encode(Payload(ab, data)[i + 1 := b]) + rest)))
            == Abort(RecordCount(ls))
  {
    var q := base % BUFSIZ;
    assert Aligned(base, q);
    var t := ReadSession(T, Start(data0), ls, base, q);
    ChangedRecord(T, t, typ, ab, data, i, b, rest);
    FeedAppend(T, Start(data0), Session(ls, base), [LETTER_S, typ] + (Encode(Payload(ab, data)[i + 1 := b]) + rest));
  }

  lemma ChangedRecord(T: Target, t: State, typ: int, ab: seq<byte>, data: seq<byte>, i: nat, b: byte, rest: seq<int>)
    requires AtStart(t) && typ > 13 && AddressLimit(typ) == 4 + 2 * |ab| && Small(ab, data) && i <= |ab + data|
    requires b != Payload(ab, data)[i + 1]
    ensures Feed(T, t, [LETTER_S, typ] + (Encode(Payload(ab, data)[i + 1 := b]) + rest)) == Abort(t.line)
  {
    var n: byte, body := Count(ab, data), ab + data;
    var full := body + [Checksum([n] + body)];
    var s1 := t.(col := 1, typ := typ, alim := AddressLimit(typ), addr := 0);
    assert Payload(ab, data) == [n] + full;
    assert Payload(ab, data)[i + 1 := b] == [n] + full[i := b];
    ReadType(T, t, typ);
    FeedAppend(T, t, [LETTER_S, typ], Encode([n] + full[i := b]) + rest);
    SingleByteChangeAborts(T, s1, n, body, i, b, rest);
  }

  /** The address field is big-endian, and bytes are spelled high digit first. */
  lemma FieldsAre(w: word)
    ensures w < 0x1_0000 ==> BigEndian(2, w) == [w / 256, w % 256]
    ensures w < 0x100_0000 ==> BigEndian(3, w) == [w / 0x1_0000, w / 256 % 256, w % 256]
    ensures BigEndian(4, w) == [w / 0x100_0000, w / 0x1_0000 % 256, w / 256 % 256, w % 256]
  {
    var n := 4;
    FieldStep(w, n);
    FieldStep(w / 256, n - 1);
    FieldStep(w / 256 / 256, n - 2);
    FieldStep(w / 256 / 256 / 256, n - 3);
    FieldStep(w, n - 1);
    FieldStep(w / 256, n - 2);
    FieldStep(w / 256 / 256, n - 3);
    FieldStep(w, n - 2);
    FieldStep(w / 256, n - 3);
    Quarters(w);
  }

  lemma FieldStep(w: nat, k: nat)
    requires k > 0
    ensures BigEndian(k, w) == BigEndian(k - 1, w / 256) + [w % 256]
    ensures k == 1 ==> BigEndian(k, w) == [w % 256]
  {
  }

  lemma Quarters(w: word)
    ensures w / 256 / 256 == w / 0x1_0000 && w / 256 / 256 / 256 == w / 0x100_0000
    ensures w / 0x100_0000 < 256 && w / 0x100_0000 % 256 == w / 0x100_0000
    ensures w < 0x1_0000 ==> w / 256 % 256 == w / 256
    ensures w < 0x100_0000 ==> w / 0x1_0000 % 256 == w / 0x1_0000
  {
  }

  lemma SpelledByte()
    ensures Encode([0xa7]) == ['A' as int, '7' as int]
  {
    assert [0xa7][1..] == [];
  }

  lemma {:induction false} NameAt(T: Target, name: map<int, byte>, a: nat, bs: seq<byte>, x: nat)
    requires Linear(T) && a + |bs| < BUFSIZ && x < BUFSIZ
    ensures var m := WriteName(T, name, a, bs);
            && (a <= x < a + |bs| ==> x in m && m[x] == bs[x - a])
            && (x < a || a + |bs| <= x ==> (x in m <==> x in name) && (x in m ==> m[x] == name[x]))
    decreases |bs|
  {
    if bs != [] { NameAt(T, name[a := bs[0]], a + 1, bs[1..], x); }
  }

  /** A header record sets the file name: its text, ended by a zero. */
  lemma HeaderNames(T: Target, s: State, text: seq<byte>, crlf: bool) returns (t: State)
    requires Linear(T) && AtStart(s) && |text| + 3 <= 255
    ensures Feed(T, s, LineOf(48, [0, 0], text, crlf)) == More(t) && t.data == s.data
    ensures |text| in t.name && t.name[|text|] == 0
    ensures forall i: nat | i < |text| :: i in t.name && t.name[i] == text[i]
  {
    var e := ReadLine(T, s, ZERO, [0, 0], text, crlf);
    assert AddrOf(T, 0, [0, 0]) == 0 by {
      var zero: word := 0;
      assert T.shift(zero, 0) == 0;
      assert [0, 0][1..] == [0] && [0][1..] == [];
    }
    AddrAfterIs(T, 0, text);
    forall i: nat | i < |text| ensures i in e.name && e.name[i] == text[i] { NameAt(T, s.name, 0, text, i); }
    t := NewLine(e.(name := e.name[e.addr as int := 0]));
  }
}
