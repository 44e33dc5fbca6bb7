/** Program lines of the BASIC interpreter: `insert` and `ins_line` of bas1.c,
    the line number scan of `compile`, and the reading of a listing by `readfi`
    of bas8.c. */
module Lines {
  import opened Words

  const CONTLNUMB: nat := 65533
  const MAX_LINE: nat := 65529

  /** A line; continuation lines all carry the number `CONTLNUMB`. */
  datatype Line = Line(num: nat, text: string)

  predicate Numbered(x: Line) { x.num != CONTLNUMB }

  // ---------------------------------------------------------------- line numbers

  function Value(digits: seq<nat>): nat
    decreases |digits|
  {
    if digits == [] then 0 else 10 * Value(digits[..|digits| - 1]) + digits[|digits| - 1]
  }

  lemma {:induction false} ValueGrows(digits: seq<nat>, n: nat)
    requires n <= |digits|
    ensures Value(digits[..n]) <= Value(digits)
    decreases |digits|
  {
    if n == |digits| {
      assert digits[..n] == digits;
    } else {
      var m := |digits| - 1;
      ValueGrows(digits[..m], n);
      assert digits[..m][..n] == digits[..n];
    }
  }

  /** Digits are decimal, the highest first. */
  lemma DecimalValue(a: nat, b: nat, c: nat)
    ensures Value([a, b, c]) == 100 * a + 10 * b + c
  {
    assert [a, b, c][..2] == [a, b] && [a, b][..1] == [a] && [a][..0] == [];
    assert Value([a]) == a;
    assert Value([a, b]) == 10 * Value([a]) + b;
  }

  /** The scan of the leading digits: error 7 exactly for values above 65529. */
  method LineNumber(digits: seq<nat>) returns (lin: Option<nat>)
    requires forall k :: 0 <= k < |digits| ==> digits[k] <= 9
    ensures lin.None? <==> Value(digits) > 65529
    ensures lin.Some? ==> lin.value == Value(digits) && lin.value < CONTLNUMB
  {
    var n, i := 0, 0;
    while i < |digits|
      invariant 0 <= i <= |digits| && n == Value(digits[..i]) && n <= MAX_LINE
    {
      assert digits[..i + 1][..i] == digits[..i];
      assert Value(digits[..i + 1]) == 10 * n + digits[i];
      if n >= 6553 {
        ValueGrows(digits, i + 1);
        return None;
      }
      n := n * 10 + digits[i];
      i := i + 1;
    }
    assert digits[..i] == digits;
    return Some(n);
  }

  // ---------------------------------------------------------------- the store as a sequence

  /** Where the search for line `l` stops. */
  predicate Stops(x: Line, l: nat) { x.num >= l && Numbered(x) }

  function Place(lines: seq<Line>, l: nat): (k: nat)
    ensures k <= |lines| && (k < |lines| ==> Stops(lines[k], l))
    ensures forall j :: 0 <= j < k ==> !Stops(lines[j], l)
  {
    if lines == [] || Stops(lines[0], l) then 0 else 1 + Place(lines[1..], l)
  }

  function Without(lines: seq<Line>, k: nat, l: nat): seq<Line>
    requires k <= |lines|
  {
    if k < |lines| && lines[k].num == l then lines[..k] + lines[k + 1..] else lines
  }

  function With(lines: seq<Line>, k: nat, x: Line): seq<Line>
    requires k <= |lines|
  {
    lines[..k] + [x] + lines[k..]
  }

  /** Entering line `l`: with no text it is deleted, else set. */
  function Entered(lines: seq<Line>, l: nat, text: Option<string>): seq<Line> {
    var k := Place(lines, l);
    var rest := Without(lines, k, l);
    if text.None? then rest else With(rest, k, Line(l, text.value))
  }

  // ---------------------------------------------------------------- the linked list

  function At(nodes: seq<nat>, k: nat): nat { if k < |nodes| then nodes[k] else 0 }

  function Before(nodes: seq<nat>, k: nat): nat
    requires k <= |nodes|
  {
    if k == 0 then 0 else nodes[k - 1]
  }

  ghost predicate Distinct(nodes: seq<nat>) { forall k, m :: 0 <= k < m < |nodes| ==> nodes[k] != nodes[m] }

  /** From `head` the records are `nodes`, in this order. */
  ghost predicate Linked(head: nat, next: map<nat, nat>, nodes: seq<nat>) {
    && head == At(nodes, 0)
    && forall k :: 0 <= k < |nodes| ==> nodes[k] != 0 && nodes[k] in next && next[nodes[k]] == At(nodes, k + 1)
  }

  ghost function Listed(line: map<nat, Line>, nodes: seq<nat>): (s: seq<Line>)
    requires forall k :: 0 <= k < |nodes| ==> nodes[k] in line
    ensures |s| == |nodes| && forall k :: 0 <= k < |nodes| ==> s[k] == line[nodes[k]]
  {
    seq(|nodes|, k requires 0 <= k < |nodes| => line[nodes[k]])
  }

  function Insertion(nodes: seq<nat>, k: nat, p: nat): seq<nat>
    requires k <= |nodes|
  {
    nodes[..k] + [p] + nodes[k..]
  }

  function Deletion(nodes: seq<nat>, k: nat): seq<nat>
    requires k < |nodes|
  {
    nodes[..k] + nodes[k + 1..]
  }

  lemma InsertionAt(nodes: seq<nat>, k: nat, p: nat)
    requires k <= |nodes|
    ensures var r := Insertion(nodes, k, p);
            && |r| == |nodes| + 1 && r[k] == p && (forall n :: n in r ==> n == p || n in nodes)
            && (forall i :: 0 <= i < k ==> r[i] == nodes[i]) && (forall i :: k < i < |r| ==> r[i] == nodes[i - 1])
  {
  }

  lemma LinkInserted(head: nat, next: map<nat, nat>, nodes: seq<nat>, k: nat, p: nat)
    requires Linked(head, next, nodes) && Distinct(nodes) && k <= |nodes| && p != 0 && p !in nodes
    ensures var op := Before(nodes, k);
            && Distinct(Insertion(nodes, k, p))
            && (k == 0 ==> op == 0 && Linked(p, next[p := head], Insertion(nodes, k, p)))
            && (k > 0 ==> op != 0 && op in next && Linked(head, next[p := next[op]][op := p], Insertion(nodes, k, p)))
  {
    InsertionAt(nodes, k, p);
  }

  lemma DeletionAt(nodes: seq<nat>, k: nat)
    requires k < |nodes|
    ensures var r := Deletion(nodes, k);
            && |r| == |nodes| - 1 && (forall n :: n in r ==> n in nodes)
            && (forall i :: 0 <= i < k ==> r[i] == nodes[i]) && (forall i :: k <= i < |r| ==> r[i] == nodes[i + 1])
  {
  }

  lemma LinkDeleted(head: nat, next: map<nat, nat>, nodes: seq<nat>, k: nat)
    requires Linked(head, next, nodes) && Distinct(nodes) && k < |nodes|
    ensures var op, p := Before(nodes, k), nodes[k];
            && Distinct(Deletion(nodes, k)) && p in next
            && (k == 0 ==> op == 0 && Linked(next[p], next, Deletion(nodes, k)))
            && (k > 0 ==> op != 0 && Linked(head, next[op := next[p]], Deletion(nodes, k)))
  {
    DeletionAt(nodes, k);
  }

  lemma ListedInserted(line: map<nat, Line>, nodes: seq<nat>, k: nat, p: nat, x: Line)
    requires (forall i :: 0 <= i < |nodes| ==> nodes[i] in line) && k <= |nodes| && p !in nodes
    ensures (forall i :: 0 <= i < |Insertion(nodes, k, p)| ==> Insertion(nodes, k, p)[i] in line[p := x])
    ensures Listed(line[p := x], Insertion(nodes, k, p)) == With(Listed(line, nodes), k, x)
  {
    InsertionAt(nodes, k, p);
    var r, w := Listed(line[p := x], Insertion(nodes, k, p)), With(Listed(line, nodes), k, x);
    forall i | 0 <= i < |r| ensures r[i] == w[i] {
      if i < k { assert nodes[i] != p; } else if i > k { assert nodes[i - 1] != p; }
    }
  }

  lemma ListedDeleted(line: map<nat, Line>, nodes: seq<nat>, k: nat)
    requires (forall i :: 0 <= i < |nodes| ==> nodes[i] in line) && k < |nodes|
    ensures (forall i :: 0 <= i < |Deletion(nodes, k)| ==> Deletion(nodes, k)[i] in line)
    ensures Listed(line, Deletion(nodes, k)) == Listed(line, nodes)[..k] + Listed(line, nodes)[k + 1..]
  {
    DeletionAt(nodes, k);
  }

  /** The `olin` records as explicit memory; address zero is the null pointer. */
  class Store {
    var program: nat
    var next: map<nat, nat>
    var line: map<nat, Line>
    var lastIns: nat
    ghost var nodes: seq<nat>

    ghost predicate Valid()
      reads this
    {
      && Linked(program, next, nodes) && Distinct(nodes)
      && forall k :: 0 <= k < |nodes| ==> nodes[k] in line
    }

    ghost function Contents(): seq<Line>
      requires Valid()
      reads this
    {
      Listed(line, nodes)
    }

    constructor ()
      ensures Valid() && Contents() == [] && lastIns == 0
    {
      program, next, line, lastIns, nodes := 0, map[], map[], 0, [];
    }

    /** `ins_line`: links a new record behind `op`, or at the front. */
    method InsLine(op: nat, ghost k: nat, p: nat, x: Line)
      requires Valid() && k <= |nodes| && p != 0 && p !in nodes && op == Before(nodes, k)
      modifies this
      ensures Valid() && Contents() == With(old(Contents()), k, x)
      ensures lastIns == p && nodes == Insertion(old(nodes), k, p)
    {
      LinkInserted(program, next, nodes, k, p);
      ListedInserted(line, nodes, k, p, x);
      line := line[p := x];
      if op == 0 {
        next := next[p := program];
        program := p;
      } else {
        next := next[p := next[op]];
        next := next[op := p];
      }
      nodes := Insertion(nodes, k, p);
      lastIns := p;
    }

    /** Unlinks the record behind `op`. */
    method Drop(op: nat, ghost k: nat, p: nat)
      requires Valid() && k < |nodes| && p == nodes[k] && op == Before(nodes, k)
      modifies this
      ensures Valid() && nodes == Deletion(old(nodes), k) && lastIns == old(lastIns)
      ensures Contents() == old(Contents())[..k] + old(Contents())[k + 1..]
    {
      LinkDeleted(program, next, nodes, k);
      ListedDeleted(line, nodes, k);
      if op == 0 {
        program := next[p];
      } else {
        next := next[op := next[p]];
      }
      nodes := Deletion(nodes, k);
    }

    /** The search loop of `insert`: the record at the place and the one before. */
    method Search(l: nat) returns (op: nat, p: nat, ghost k: nat)
      requires Valid() && l < CONTLNUMB
      ensures k == Place(Contents(), l) && k <= |nodes| && p == At(nodes, k) && op == Before(nodes, k)
    {
      op, p, k := 0, program, 0;
      ghost var lines := Contents();
      while p != 0
        invariant k <= |nodes| && p == At(nodes, k) && op == Before(nodes, k)
        invariant Passed(lines, l, k)
        decreases |nodes| - k
      {
        assert k < |nodes| && p == nodes[k];
        assert line[p] == lines[k];
        if line[p].num >= l {
          if line[p].num == l || line[p].num != CONTLNUMB {
            break;
          }
        }
        assert !Stops(lines[k], l);
        op, p := p, next[p];
        k := k + 1;
      }
      PlaceIs(lines, l, k);
    }

    /** `insert`: `record` is the record the allocator hands out. */
    method Insert(l: nat, text: Option<string>, record: nat)
      requires Valid() && l < CONTLNUMB && record != 0 && record !in nodes
      modifies this
      ensures Valid() && Contents() == Entered(old(Contents()), l, text)
      ensures text.None? ==> lastIns == 0
      ensures text.Some? ==> lastIns == record && Place(old(Contents()), l) < |nodes| && nodes[Place(old(Contents()), l)] == record
      ensures forall n :: n in nodes ==> n == record || n in old(nodes)
    {
      lastIns := 0;
      var op, p, k := Search(l);
      DropOld(op, k, p, l);
      if text.None? {
        return;
      }
      InsertionAt(nodes, k, record);
      InsLine(op, k, record, Line(l, text.value));
    }

    /** Removes line `l` if the search stopped at it. */
    method DropOld(op: nat, ghost k: nat, p: nat, l: nat)
      requires Valid() && k <= |nodes| && p == At(nodes, k) && op == Before(nodes, k)
      modifies this
      ensures Valid() && lastIns == old(lastIns) && Contents() == Without(old(Contents()), k, l)
      ensures k <= |nodes| && op == Before(nodes, k)
      ensures forall n :: n in nodes ==> n in old(nodes)
    {
      if p != 0 && line[p].num == l {
        DeletionAt(nodes, k);
        Drop(op, k, p);
      }
    }

    /** The store holds what `r` says and remembers the same line. */
    ghost predicate Shows(r: Reading)
      reads this
    {
      && Valid() && Contents() == r.lines
      && (r.last.None? ==> lastIns == 0)
      && (r.last.Some? ==> r.last.value < |nodes| && lastIns == nodes[r.last.value])
    }

    /** One line of a file, already split into its number, 0 for none, and its
        text; false is error 57. */
    method ReadLine(num: nat, text: string, edit: bool, record: nat, ghost r: Reading) returns (ok: bool)
      requires Shows(r) && r.edit == edit && num < CONTLNUMB && record != 0 && record !in nodes
      modifies this
      ensures ok <==> ReadOne(r, num, text).Some?
      ensures ok ==> Shows(ReadOne(r, num, text).value)
      ensures ok ==> forall n :: n in nodes ==> n == record || n in old(nodes)
      ensures !ok ==> Shows(r)
    {
      if num == 0 {
        if text == "" {
          return true;
        }
        if lastIns == 0 && program != 0 && !edit {
          return false;
        }
        ghost var k := if r.last.None? then 0 else r.last.value + 1;
        InsertionAt(nodes, k, record);
        InsLine(lastIns, k, record, Line(CONTLNUMB, text));
        return true;
      }
      Insert(num, if text == "" then None else Some(text), record);
      return true;
    }
  }

  ghost predicate Passed(lines: seq<Line>, l: nat, k: nat) {
    k <= |lines| && forall j :: 0 <= j < k ==> !Stops(lines[j], l)
  }

  lemma PlaceIs(lines: seq<Line>, l: nat, k: nat)
    requires Passed(lines, l, k) && (k < |lines| ==> Stops(lines[k], l))
    ensures Place(lines, l) == k
  {
  }

  // ---------------------------------------------------------------- what entering a line does

  /** Numbered lines ascend strictly, with continuation lines in between. */
  ghost predicate Ascending(lines: seq<Line>) {
    forall i, j :: 0 <= i < j < |lines| && Numbered(lines[i]) && Numbered(lines[j]) ==> lines[i].num < lines[j].num
  }

  /** The text of line `l`. */
  function Lookup(lines: seq<Line>, l: nat): Option<string> {
    if lines == [] then None else if lines[0].num == l then Some(lines[0].text) else Lookup(lines[1..], l)
  }

  /** All lines but `l`, continuation lines included. */
  function Others(lines: seq<Line>, l: nat): seq<Line> {
    if lines == [] then [] else if lines[0].num == l then Others(lines[1..], l) else [lines[0]] + Others(lines[1..], l)
  }

  lemma {:induction false} OthersAppend(a: seq<Line>, b: seq<Line>, l: nat)
    ensures Others(a + b, l) == Others(a, l) + Others(b, l)
  {
    if a == [] {
      assert a + b == b;
    } else {
      assert (a + b)[0] == a[0] && (a + b)[1..] == a[1..] + b;
      OthersAppend(a[1..], b, l);
    }
  }

  lemma {:induction false} LookupAppend(a: seq<Line>, b: seq<Line>, l: nat)
    ensures Lookup(a + b, l) == if Lookup(a, l).Some? then Lookup(a, l) else Lookup(b, l)
  {
    if a == [] {
      assert a + b == b;
    } else {
      assert (a + b)[0] == a[0] && (a + b)[1..] == a[1..] + b;
      LookupAppend(a[1..], b, l);
    }
  }

  lemma {:induction false} LookupNone(lines: seq<Line>, l: nat)
    requires forall k :: 0 <= k < |lines| ==> lines[k].num != l
    ensures Lookup(lines, l) == None
  {
    if lines != [] { LookupNone(lines[1..], l); }
  }

  lemma One(x: Line, l: nat)
    ensures Lookup([x], l) == if x.num == l then Some(x.text) else None
    ensures Others([x], l) == if x.num == l then [] else [x]
  {
    assert [x][1..] == [];
  }

  /** The lines before the place, the replaced line if any, and the rest. */
  ghost predicate Split(lines: seq<Line>, l: nat, a: seq<Line>, m: seq<Line>, b: seq<Line>) {
    && lines == a + (m + b)
    && (m == [] || (|m| == 1 && m[0].num == l))
    && (forall i :: 0 <= i < |a| ==> !Stops(a[i], l))
    && (m == [] && b != [] ==> Stops(b[0], l) && b[0].num != l)
  }

  function New(l: nat, text: Option<string>): seq<Line> { if text.None? then [] else [Line(l, text.value)] }

  lemma Parts(lines: seq<Line>, l: nat, text: Option<string>) returns (a: seq<Line>, m: seq<Line>, b: seq<Line>)
    requires l < CONTLNUMB
    ensures Split(lines, l, a, m, b) && Entered(lines, l, text) == a + (New(l, text) + b)
  {
    var k := Place(lines, l);
    a := lines[..k];
    CutAt(lines, k);
    if k < |lines| && lines[k].num == l {
      m, b := [lines[k]], lines[k + 1..];
      assert Split(lines, l, a, m, b);
    } else {
      m, b := [], lines[k..];
      assert Split(lines, l, a, m, b);
    }
    EnteredParts(lines, l, text, k, a, b);
  }

  lemma EnteredParts(lines: seq<Line>, l: nat, text: Option<string>, k: nat, a: seq<Line>, b: seq<Line>)
    requires k == Place(lines, l) && a == lines[..k]
    requires b == if k < |lines| && lines[k].num == l then lines[k + 1..] else lines[k..]
    ensures Entered(lines, l, text) == a + (New(l, text) + b)
  {
    CutAt(lines, k);
    assert Without(lines, k, l) == a + b;
    WithParts(a, b, New(l, text));
  }

  lemma CutAt(lines: seq<Line>, k: nat)
    requires k <= |lines|
    ensures lines == lines[..k] + lines[k..] && lines == lines[..k] + ([] + lines[k..])
    ensures k < |lines| ==> lines == lines[..k] + ([lines[k]] + lines[k + 1..])
  {
  }

  lemma WithParts(a: seq<Line>, b: seq<Line>, x: seq<Line>)
    requires |x| <= 1
    ensures x == [] ==> a + b == a + (x + b)
    ensures x != [] ==> With(a + b, |a|, x[0]) == a + (x + b)
  {
    assert (a + b)[..|a|] == a && (a + b)[|a|..] == b;
  }

  /** Every other line, numbered or continuation, keeps its content and its
      place among the others. */
  lemma OthersKept(lines: seq<Line>, l: nat, text: Option<string>)
    requires l < CONTLNUMB
    ensures Others(Entered(lines, l, text), l) == Others(lines, l)
  {
    var a, m, b := Parts(lines, l, text);
    var x := New(l, text);
    OthersAppend(a, m + b, l);
    OthersAppend(m, b, l);
    OthersAppend(a, x + b, l);
    OthersAppend(x, b, l);
    if m != [] {
      assert m == [m[0]];
      One(m[0], l);
    }
    if text.Some? { One(Line(l, text.value), l); }
  }

  ghost predicate NumberedBelow(lines: seq<Line>, l: nat) { forall i :: 0 <= i < |lines| && Numbered(lines[i]) ==> lines[i].num < l }

  ghost predicate NumberedAbove(lines: seq<Line>, l: nat) { forall i :: 0 <= i < |lines| && Numbered(lines[i]) ==> lines[i].num > l }

  /** In an ascending program the numbers before the place are smaller, those
      behind it larger. */
  lemma PartsOrdered(lines: seq<Line>, l: nat, a: seq<Line>, m: seq<Line>, b: seq<Line>)
    requires Ascending(lines) && l < CONTLNUMB && Split(lines, l, a, m, b)
    ensures NumberedBelow(a, l) && NumberedAbove(b, l) && Ascending(a) && Ascending(b)
  {
    FrontOrdered(a, m + b, l);
    BackOrdered(a, m, b, l);
  }

  lemma FrontOrdered(a: seq<Line>, rest: seq<Line>, l: nat)
    requires Ascending(a + rest) && forall i :: 0 <= i < |a| ==> !Stops(a[i], l)
    ensures NumberedBelow(a, l) && Ascending(a)
  {
    forall i, j | 0 <= i < j < |a| && Numbered(a[i]) && Numbered(a[j]) ensures a[i].num < a[j].num {
      assert (a + rest)[i] == a[i] && (a + rest)[j] == a[j];
    }
  }

  lemma BackOrdered(a: seq<Line>, m: seq<Line>, b: seq<Line>, l: nat)
    requires Ascending(a + (m + b)) && l < CONTLNUMB && (m == [] || (|m| == 1 && m[0].num == l))
    requires m == [] && b != [] ==> Stops(b[0], l) && b[0].num != l
    ensures NumberedAbove(b, l) && Ascending(b)
  {
    var n, all := |a| + |m|, a + (m + b);
    forall i, j | 0 <= i < j < |b| && Numbered(b[i]) && Numbered(b[j]) ensures b[i].num < b[j].num {
      assert all[n + i] == b[i] && all[n + j] == b[j];
    }
    forall i | 0 <= i < |b| && Numbered(b[i]) ensures b[i].num > l {
      assert all[n + i] == b[i];
      if m != [] {
        assert all[|a|] == m[0];
      } else if i > 0 {
        assert all[n] == b[0];
      }
    }
  }

  lemma AscendingJoin(a: seq<Line>, x: seq<Line>, b: seq<Line>, l: nat)
    requires NumberedBelow(a, l) && NumberedAbove(b, l) && Ascending(a) && Ascending(b)
    requires x == [] || (|x| == 1 && x[0].num == l)
    ensures Ascending(a + (x + b))
  {
    var n, all := |a| + |x|, a + (x + b);
    assert forall i :: 0 <= i < |a| ==> all[i] == a[i];
    assert forall i :: n <= i < |all| ==> all[i] == b[i - n];
    assert x != [] ==> all[|a|] == x[0];
  }

  /** Entering a line is the update or the deletion of one key, and keeps the
      numbers strictly ascending. */
  lemma EnteredIs(lines: seq<Line>, l: nat, text: Option<string>, key: nat)
    requires Ascending(lines) && l < CONTLNUMB && key < CONTLNUMB
    ensures Ascending(Entered(lines, l, text))
    ensures Lookup(Entered(lines, l, text), key) == if key == l then text else Lookup(lines, key)
  {
    var a, m, b := Parts(lines, l, text);
    var x := New(l, text);
    PartsOrdered(lines, l, a, m, b);
    AscendingJoin(a, x, b, l);
    LookupAppend(a, m + b, key);
    LookupAppend(m, b, key);
    LookupAppend(a, x + b, key);
    LookupAppend(x, b, key);
    if m != [] {
      assert m == [m[0]];
      One(m[0], key);
    }
    if text.Some? { One(Line(l, text.value), key); }
    if key == l {
      LookupNone(a, l);
      LookupNone(b, l);
    }
  }

  // ---------------------------------------------------------------- whose continuation lines are whose

  /** A continuation line with the number of the line it continues. */
  datatype Owned = Owned(owner: Option<nat>, text: string)

  function OwnerAfter(lines: seq<Line>, o: Option<nat>): Option<nat> {
    if lines == [] then o else OwnerAfter(lines[1..], if Numbered(lines[0]) then Some(lines[0].num) else o)
  }

  /** The continuation lines in order, each with its owner. */
  function Continuations(lines: seq<Line>, o: Option<nat>): seq<Owned> {
    if lines == [] then []
    else if Numbered(lines[0]) then Continuations(lines[1..], Some(lines[0].num))
    else [Owned(o, lines[0].text)] + Continuations(lines[1..], o)
  }

  lemma {:induction false} ContinuationsAppend(a: seq<Line>, b: seq<Line>, o: Option<nat>)
    ensures Continuations(a + b, o) == Continuations(a, o) + Continuations(b, OwnerAfter(a, o))
    ensures OwnerAfter(a + b, o) == OwnerAfter(b, OwnerAfter(a, o))
  {
    if a == [] {
      assert a + b == b;
    } else {
      assert (a + b)[0] == a[0] && (a + b)[1..] == a[1..] + b;
      ContinuationsAppend(a[1..], b, if Numbered(a[0]) then Some(a[0].num) else o);
    }
  }

  lemma OneOwner(x: Line, b: seq<Line>, o: Option<nat>)
    requires Numbered(x)
    ensures Continuations([x] + b, o) == Continuations(b, Some(x.num))
  {
    assert ([x] + b)[1..] == b;
  }

  /** Entering a line, new or replacing one, leaves every continuation line with
      the line it continues; deleting a line hands its continuation lines to
      the line before it. */
  lemma OwnersKept(lines: seq<Line>, l: nat, text: Option<string>)
    requires l < CONTLNUMB
    ensures text.Some? ==> Continuations(Entered(lines, l, text), None) == Continuations(lines, None)
    ensures text.None? ==>
              var k := Place(lines, l);
              k < |lines| && lines[k].num == l ==>
                && Continuations(lines, None) == Continuations(lines[..k], None) + Continuations(lines[k + 1..], Some(l))
                && Continuations(Entered(lines, l, text), None)
                   == Continuations(lines[..k], None) + Continuations(lines[k + 1..], OwnerAfter(lines[..k], None))
  {
    var k := Place(lines, l);
    var a := lines[..k];
    var o := OwnerAfter(a, None);
    CutAt(lines, k);
    if k < |lines| && lines[k].num == l {
      var b := lines[k + 1..];
      assert Without(lines, k, l) == a + b;
      ContinuationsAppend(a, [lines[k]] + b, None);
      OneOwner(lines[k], b, o);
      if text.None? {
        ContinuationsAppend(a, b, None);
      } else {
        var x := Line(l, text.value);
        WithParts(a, b, [x]);
        ContinuationsAppend(a, [x] + b, None);
        OneOwner(x, b, o);
      }
    } else if text.Some? {
      var b, x := lines[k..], Line(l, text.value);
      assert Without(lines, k, l) == a + b;
      WithParts(a, b, [x]);
      ContinuationsAppend(a, b, None);
      ContinuationsAppend(a, [x] + b, None);
      OneOwner(x, b, o);
      if b != [] {
        assert b == [b[0]] + b[1..];
        OneOwner(b[0], b[1..], o);
        OneOwner(b[0], b[1..], Some(l));
      }
    }
  }

  // ---------------------------------------------------------------- any run of edits

  datatype Edits = Done | Edit(l: nat, text: Option<string>, rest: Edits)

  predicate Legal(es: Edits) { es.Edit? ==> es.l <= MAX_LINE && Legal(es.rest) }

  function Edited(lines: seq<Line>, es: Edits): seq<Line>
    decreases es
  {
    if es.Done? then lines else Edited(Entered(lines, es.l, es.text), es.rest)
  }

  /** What the last edit of `key` left, or what was there before. */
  function LastEdit(es: Edits, key: nat, was: Option<string>): Option<string>
    decreases es
  {
    if es.Done? then was else LastEdit(es.rest, key, if es.l == key then es.text else was)
  }

  /** After any run of edits the numbers ascend and every line number maps to
      its last edit. */
  lemma {:induction false} EditsRefineMap(lines: seq<Line>, es: Edits, key: nat)
    requires Ascending(lines) && Legal(es) && key < CONTLNUMB
    ensures Ascending(Edited(lines, es))
    ensures Lookup(Edited(lines, es), key) == LastEdit(es, key, Lookup(lines, key))
    decreases es
  {
    if es.Edit? {
      EnteredIs(lines, es.l, es.text, key);
      EditsRefineMap(Entered(lines, es.l, es.text), es.rest, key);
    }
  }

  // ---------------------------------------------------------------- reading a file

  /** The program, the line put in last, and whether this is the return from an
      external editor, before its first numbered line. */
  datatype Reading = Reading(lines: seq<Line>, last: Option<nat>, edit: bool)

  /** One line of the file: its number, 0 when it has none, and its text. */
  datatype Input = Input(num: nat, text: string)

  /** A line without a number continues the line put in last; without one it is
      refused, unless the program is empty or comes from the editor. Empty lines
      are skipped, and delete when numbered. */
  function ReadOne(r: Reading, num: nat, text: string): Option<Reading>
    requires r.last.Some? ==> r.last.value < |r.lines|
  {
    if num != 0 then
      if text == "" then Some(Reading(Entered(r.lines, num, None), None, false))
      else Some(Reading(Entered(r.lines, num, Some(text)), Some(Place(r.lines, num)), false))
    else if text == "" then Some(r)
    else if r.last.None? && r.lines != [] && !r.edit then None
    else
      var k := if r.last.None? then 0 else r.last.value + 1;
      Some(Reading(With(r.lines, k, Line(CONTLNUMB, text)), Some(k), r.edit))
  }

  predicate Sane(r: Reading) { r.last.Some? ==> r.last.value < |r.lines| }

  lemma ReadOneSane(r: Reading, num: nat, text: string)
    requires Sane(r)
    ensures ReadOne(r, num, text).Some? ==> Sane(ReadOne(r, num, text).value)
  {
  }

  function ReadAll(r: Reading, input: seq<Input>): Option<Reading>
    requires Sane(r)
    decreases |input|
  {
    if input == [] then Some(r)
    else
      var o := ReadOne(r, input[0].num, input[0].text);
      ReadOneSane(r, input[0].num, input[0].text);
      if o.None? then None else ReadAll(o.value, input[1..])
  }

  /** What `compile` can number. */
  predicate Numbers(input: seq<Input>) { forall k :: 0 <= k < |input| ==> input[k].num <= MAX_LINE }

  /** The loop of `readfi` over the lines of a file, into any program. */
  method ReadFile(st: Store, input: seq<Input>, edit: bool, brk: nat, ghost r: Reading) returns (ok: bool)
    requires st.Shows(r) && r.edit == edit && Numbers(input) && brk > 0 && forall n :: n in st.nodes ==> n < brk
    modifies st
    ensures ok <==> ReadAll(r, input).Some?
    ensures ok ==> st.Shows(ReadAll(r, input).value)
  {
    var i, isedit := 0, edit;
    ghost var now := r;
    assert input[0..] == input;
    while i < |input|
      invariant 0 <= i <= |input| && st.Shows(now) && now.edit == isedit
      invariant ReadAll(r, input) == ReadAll(now, input[i..])
      invariant forall n :: n in st.nodes ==> n < brk + i
    {
      assert input[i..][0] == input[i] && input[i..][1..] == input[i + 1..];
      var more := st.ReadLine(input[i].num, input[i].text, isedit, brk + i, now);
      if !more {
        return false;
      }
      now := ReadOne(now, input[i].num, input[i].text).value;
      if input[i].num != 0 {
        isedit := false;
      }
      i := i + 1;
    }
    assert input[i..] == [];
    return true;
  }

  lemma ContinuedAscending(lines: seq<Line>, k: nat, text: string)
    requires Ascending(lines) && k <= |lines|
    ensures Ascending(With(lines, k, Line(CONTLNUMB, text)))
  {
    var r := With(lines, k, Line(CONTLNUMB, text));
    assert forall i :: 0 <= i < k ==> r[i] == lines[i];
    assert forall i :: k < i < |r| ==> r[i] == lines[i - 1];
    assert r[k].num == CONTLNUMB;
  }

  lemma ContinuedLookup(lines: seq<Line>, k: nat, text: string, key: nat)
    requires k <= |lines| && key < CONTLNUMB
    ensures Lookup(With(lines, k, Line(CONTLNUMB, text)), key) == Lookup(lines, key)
  {
    var a, b, x := lines[..k], lines[k..], Line(CONTLNUMB, text);
    assert lines == a + b && With(lines, k, x) == a + ([x] + b);
    LookupAppend(a, b, key);
    LookupAppend(a, [x] + b, key);
    LookupAppend([x], b, key);
    One(x, key);
  }

  /** The edits of a file: its numbered lines. */
  function EditsOf(input: seq<Input>): Edits {
    if input == [] then Done
    else if input[0].num == 0 then EditsOf(input[1..])
    else Edit(input[0].num, if input[0].text == "" then None else Some(input[0].text), EditsOf(input[1..]))
  }

  /** Reading any file into any program keeps the numbers ascending and is, on
      the numbered lines, the run of edits it spells. */
  lemma {:induction false} ReadAllIs(r: Reading, input: seq<Input>, key: nat)
    requires Sane(r) && Ascending(r.lines) && Numbers(input) && key < CONTLNUMB && ReadAll(r, input).Some?
    ensures Ascending(ReadAll(r, input).value.lines)
    ensures Lookup(ReadAll(r, input).value.lines, key) == LastEdit(EditsOf(input), key, Lookup(r.lines, key))
    decreases |input|
  {
    if input != [] {
      var num, text := input[0].num, input[0].text;
      var r1 := ReadOne(r, num, text).value;
      ReadOneSane(r, num, text);
      if num != 0 {
        EnteredIs(r.lines, num, if text == "" then None else Some(text), key);
      } else if text != "" {
        ContinuedAscending(r.lines, r1.last.value, text);
        ContinuedLookup(r.lines, r1.last.value, text, key);
      }
      ReadAllIs(r1, input[1..], key);
    }
  }

  // ---------------------------------------------------------------- listings

  /** Lines as a listing can hold them: with text and, when numbered, a number
      that is not zero. */
  predicate Listable(lines: seq<Line>) {
    forall k :: 0 <= k < |lines| ==> lines[k].text != "" && (!Numbered(lines[k]) || 1 <= lines[k].num <= MAX_LINE)
  }

  /** A line as it is listed: continuation lines without a number. */
  function Shown(x: Line): Input { Input(if Numbered(x) then x.num else 0, x.text) }

  function Listing(lines: seq<Line>): seq<Input> { seq(|lines|, k requires 0 <= k < |lines| => Shown(lines[k])) }

  lemma NextLine(lines: seq<Line>, i: nat)
    requires Ascending(lines) && Listable(lines) && i < |lines|
    ensures var r := ReadOne(Reading(lines[..i], if i == 0 then None else Some(i - 1), false), Shown(lines[i]).num, lines[i].text);
            r == Some(Reading(lines[..i + 1], Some(i), false))
  {
    var l := lines[i].num;
    assert With(lines[..i], i, lines[i]) == lines[..i + 1];
    if Numbered(lines[i]) {
      PlaceIs(lines[..i], l, i);
      assert Without(lines[..i], i, l) == lines[..i];
    }
  }

  lemma {:induction false} ReadFrom(lines: seq<Line>, i: nat)
    requires Ascending(lines) && Listable(lines) && i <= |lines|
    ensures var r := Reading(lines[..i], if i == 0 then None else Some(i - 1), false);
            Sane(r) && ReadAll(r, Listing(lines)[i..]) == Some(Reading(lines, if lines == [] then None else Some(|lines| - 1), false))
    decreases |lines| - i
  {
    if i == |lines| {
      assert lines[..i] == lines && Listing(lines)[i..] == [];
    } else {
      var input := Listing(lines)[i..];
      assert input[0] == Shown(lines[i]) && input[1..] == Listing(lines)[i + 1..];
      NextLine(lines, i);
      ReadFrom(lines, i + 1);
    }
  }

  /** Reading the listing of a program into an empty store gives the program
      back, continuation lines included. */
  lemma ListingReadBack(lines: seq<Line>)
    requires Ascending(lines) && Listable(lines)
    ensures var r := ReadAll(Reading([], None, false), Listing(lines)); r.Some? && r.value.lines == lines
  {
    ReadFrom(lines, 0);
    assert lines[..0] == [] && Listing(lines)[0..] == Listing(lines);
  }
}
