/** The frame stack of the BASIC interpreter as it lies in memory: doubly linked
    records between `bstack` and `estack`, pushed by `ffn`, cut by a return and
    `clr_stack`, and thinned by `drop_fns`. */
module FrameList {
  import opened Queues
  import Locals

  /** A frame is a loop or an activation of the function with this identity. */
  datatype Kind = Loop | Fn(id: nat)

  type Kinds = map<nat, Kind>

  function KindOf(kinds: Kinds, n: nat): Kind { if n in kinds then kinds[n] else Loop }

  /** The live activations of a function. */
  function Live(kinds: Kinds, nodes: seq<nat>, id: nat): nat {
    if nodes == [] then 0 else (if KindOf(kinds, nodes[0]) == Fn(id) then 1 else 0) + Live(kinds, nodes[1..], id)
  }

  /** The frames that are not activations, in order. */
  function Loops(kinds: Kinds, nodes: seq<nat>): seq<nat> {
    if nodes == [] then []
    else if KindOf(kinds, nodes[0]).Loop? then [nodes[0]] + Loops(kinds, nodes[1..])
    else Loops(kinds, nodes[1..])
  }

  /** The records `nodes`, oldest first, joined both ways; a missing neighbour
      is the null pointer. */
  ghost predicate Joint(b: Addr, e: Addr, m: Memory, nodes: seq<Addr>) {
    b == FirstOr(nodes, NULL) && e == LastOr(NULL, nodes) && Once(nodes) && Seg(m, true, NULL, nodes, NULL)
  }

  lemma {:induction false} LiveAppend(kinds: Kinds, a: seq<nat>, b: seq<nat>, id: nat)
    ensures Live(kinds, a + b, id) == Live(kinds, a, id) + Live(kinds, b, id)
  {
    if a == [] {
      assert a + b == b;
    } else {
      assert (a + b)[0] == a[0] && (a + b)[1..] == a[1..] + b;
      LiveAppend(kinds, a[1..], b, id);
    }
  }

  lemma LiveOne(kinds: Kinds, n: nat, id: nat)
    ensures Live(kinds, [n], id) == if KindOf(kinds, n) == Fn(id) then 1 else 0
  {
    assert [n][1..] == [];
  }

  lemma {:induction false} LiveFrame(kinds: Kinds, kinds1: Kinds, nodes: seq<nat>, id: nat)
    requires forall n :: n in nodes ==> KindOf(kinds1, n) == KindOf(kinds, n)
    ensures Live(kinds1, nodes, id) == Live(kinds, nodes, id)
  {
    if nodes != [] { LiveFrame(kinds, kinds1, nodes[1..], id); }
  }

  lemma {:induction false} LoopsAppend(kinds: Kinds, a: seq<nat>, b: seq<nat>)
    ensures Loops(kinds, a + b) == Loops(kinds, a) + Loops(kinds, b)
  {
    if a == [] {
      assert a + b == b;
    } else {
      assert (a + b)[0] == a[0] && (a + b)[1..] == a[1..] + b;
      LoopsAppend(kinds, a[1..], b);
    }
  }

  lemma LoopsOne(kinds: Kinds, n: nat)
    ensures Loops(kinds, [n]) == if KindOf(kinds, n).Loop? then [n] else []
  {
    assert [n][1..] == [];
  }

  lemma LoopsStep(kinds: Kinds, done: seq<nat>, fp: nat, rest: seq<nat>)
    ensures done + Loops(kinds, [fp] + rest) == (if KindOf(kinds, fp).Loop? then done + [fp] else done) + Loops(kinds, rest)
  {
    LoopsAppend(kinds, [fp], rest);
    LoopsOne(kinds, fp);
  }

  /** No activation is left among the loops. */
  lemma {:induction false} LoopsLive(kinds: Kinds, nodes: seq<nat>, id: nat)
    ensures Live(kinds, Loops(kinds, nodes), id) == 0
  {
    if nodes != [] {
      LoopsLive(kinds, nodes[1..], id);
      var rest := Loops(kinds, nodes[1..]);
      assert ([nodes[0]] + rest)[1..] == rest;
    }
  }

  /** Which frames are kept; by `LoopsAppend` they keep their order. */
  lemma {:induction false} LoopsMembers(kinds: Kinds, nodes: seq<nat>, n: nat)
    ensures n in Loops(kinds, nodes) <==> n in nodes && KindOf(kinds, n).Loop?
  {
    if nodes != [] {
      LoopsMembers(kinds, nodes[1..], n);
      assert n in nodes <==> n == nodes[0] || n in nodes[1..];
    }
  }

  ghost predicate AllLoops(kinds: Kinds, nodes: seq<nat>) { forall n :: n in nodes ==> KindOf(kinds, n).Loop? }

  // ---------------------------------------------------------------- relinking

  lemma {:induction false} Members(m: Memory, p: Addr, s: seq<Addr>, q: Addr, x: Addr)
    requires Seg(m, true, p, s, q) && x in s
    ensures x in m && x != NULL
    decreases |s|
  {
    if x != s[0] { Members(m, s[0], s[1..], q, x); }
  }

  lemma LastMember(s: seq<Addr>)
    ensures s != [] ==> LastOr(NULL, s) in s
  {
  }

  lemma FirstNotNull(m: Memory, p: Addr, s: seq<Addr>)
    requires Seg(m, true, p, s, NULL)
    ensures s != [] ==> FirstOr(s, NULL) != NULL
  {
  }

  lemma LastNotNull(m: Memory, s: seq<Addr>, q: Addr)
    requires Seg(m, true, NULL, s, q)
    ensures s != [] ==> LastOr(NULL, s) != NULL
  {
    if s != [] { Members(m, NULL, s, q, s[|s| - 1]); }
  }

  /** A record and its neighbours. */
  lemma Between(m: Memory, a: seq<Addr>, fp: Addr, b: seq<Addr>)
    requires Seg(m, true, NULL, a + ([fp] + b), NULL) && Once(a + ([fp] + b))
    ensures fp in m && fp != NULL && m[fp].prev == LastOr(NULL, a) && m[fp].next == FirstOr(b, NULL)
    ensures fp !in a && fp !in b && Apart(a, b) && Once(a) && Once(b)
    ensures a != [] ==> LastOr(NULL, a) in a && LastOr(NULL, a) in m && LastOr(NULL, a) != NULL
    ensures b != [] ==> b[0] in b && b[0] in m && b[0] != NULL
    ensures Seg(m, true, NULL, a, fp) && Seg(m, true, fp, b, NULL)
  {
    SegSplit(m, true, NULL, a, [fp] + b, NULL);
    SegSplit(m, true, LastOr(NULL, a), [fp], b, NULL);
    assert [fp][1..] == [];
    OnceSplit(a, [fp] + b);
    OnceSplit([fp], b);
    assert fp in [fp] + b && fp in [fp];
    LastMember(a);
    if a != [] { Members(m, NULL, a, fp, LastOr(NULL, a)); }
    assert forall x :: x in b ==> x in [fp] + b;
  }

  lemma NextFrame(m: Memory, a: seq<Addr>, fp: Addr, b: seq<Addr>)
    requires Seg(m, true, NULL, a + ([fp] + b), NULL) && Once(a + ([fp] + b))
    ensures fp in m && m[fp].next == FirstOr(b, NULL)
  {
    Between(m, a, fp, b);
  }

  lemma JoinPushed(m: Memory, m': Memory, nodes: seq<Addr>, p: Addr)
    requires Seg(m, true, NULL, nodes, NULL) && Once(nodes) && p != NULL && p !in nodes
    requires forall x | x in nodes && x in m :: x in m' && m'[x].prev == m[x].prev && (x != LastOr(NULL, nodes) ==> m'[x].next == m[x].next)
    requires nodes != [] ==> LastOr(NULL, nodes) in m' && m'[LastOr(NULL, nodes)].next == p
    requires p in m' && m'[p] == Queues.Words(NULL, LastOr(NULL, nodes))
    ensures Seg(m', true, NULL, nodes + [p], NULL) && Once(nodes + [p])
  {
    SegEnd(m, m', true, NULL, nodes, NULL, p);
    SegSnoc(m', true, NULL, nodes, p, NULL);
    OnceSplit(nodes, [p]);
    assert [p][1..] == [] && Once([p]);
  }

  lemma JoinUnlinked(m: Memory, m': Memory, a: seq<Addr>, fp: Addr, b: seq<Addr>)
    requires Seg(m, true, NULL, a + ([fp] + b), NULL) && Once(a + ([fp] + b))
    requires forall x | x in a && x in m :: x in m' && m'[x].prev == m[x].prev && (x != LastOr(NULL, a) ==> m'[x].next == m[x].next)
    requires forall x | x in b && x in m :: x in m' && m'[x].next == m[x].next && (x != b[0] ==> m'[x].prev == m[x].prev)
    requires a != [] ==> LastOr(NULL, a) in m' && m'[LastOr(NULL, a)].next == FirstOr(b, NULL)
    requires b != [] ==> b[0] in m' && m'[b[0]].prev == LastOr(NULL, a)
    ensures Seg(m', true, NULL, a + b, NULL) && Once(a + b)
  {
    Between(m, a, fp, b);
    SegEnd(m, m', true, NULL, a, fp, FirstOr(b, NULL));
    SegStart(m, m', true, fp, b, NULL, LastOr(NULL, a));
    SegSplit(m', true, NULL, a, b, NULL);
    OnceSplit(a, b);
  }

  lemma JoinCut(m: Memory, m': Memory, a: seq<Addr>, fp: Addr, b: seq<Addr>)
    requires Seg(m, true, NULL, a + ([fp] + b), NULL) && Once(a + ([fp] + b))
    requires forall x | x in m && x != LastOr(NULL, a) :: x in m' && m'[x] == m[x]
    requires a != [] ==> LastOr(NULL, a) in m && LastOr(NULL, a) in m' && m'[LastOr(NULL, a)] == m[LastOr(NULL, a)].(next := NULL)
    ensures Seg(m', true, NULL, a, NULL) && Once(a)
    ensures Seg(m', true, LastOr(NULL, a), [fp] + b, NULL)
  {
    Between(m, a, fp, b);
    SegEnd(m, m', true, NULL, a, fp, NULL);
    SegSplit(m, true, NULL, a, [fp] + b, NULL);
    forall x | x in [fp] + b && x in m ensures x != LastOr(NULL, a) {
      if a == [] { Members(m, LastOr(NULL, a), [fp] + b, NULL, x); }
    }
    SegFrame(m, m', true, LastOr(NULL, a), [fp] + b, NULL);
  }

  lemma Split(nodes: seq<Addr>, k: nat)
    requires k < |nodes|
    ensures nodes == nodes[..k] + ([nodes[k]] + nodes[k + 1..])
  {
  }

  // ---------------------------------------------------------------- the stack

  class Stack {
    var bstack: Addr
    var estack: Addr
    var mem: Memory
    var kinds: Kinds
    var ncall: map<nat, int>
    ghost var nodes: seq<Addr>

    function Ncall(id: nat): int
      reads this
    {
      if id in ncall then ncall[id] else 0
    }

    ghost predicate Linked()
      reads this
    {
      Joint(bstack, estack, mem, nodes) && forall n :: n in nodes ==> n in kinds
    }

    /** Every counter is the number of live activations, never above the limit. */
    ghost predicate Valid()
      reads this
    {
      Linked() && forall id: nat :: Ncall(id) == Live(kinds, nodes, id) <= Locals.MAX_FCALLS
    }

    constructor ()
      ensures Valid() && nodes == []
    {
      bstack, estack, mem, kinds, ncall, nodes := NULL, NULL, map[], map[], map[], [];
    }

    /** A new frame at the end; a call past the limit is error 44 and changes
        nothing. `p` is the record the allocator hands out. */
    method Push(p: Addr, kind: Kind) returns (ok: bool)
      requires Valid() && p != NULL && p !in nodes
      modifies this
      ensures Valid()
      ensures ok <==> kind.Loop? || old(Ncall(kind.id)) < 100
      ensures nodes == if ok then old(nodes) + [p] else old(nodes)
      ensures kinds == if ok then old(kinds)[p := kind] else old(kinds)
    {
      if kind.Fn? && Ncall(kind.id) >= Locals.MAX_FCALLS {
        return false;
      }
      PushCount(kinds, nodes, p, kind);
      LinkLast(p);
      kinds := kinds[p := kind];
      if kind.Fn? {
        ncall := ncall[kind.id := Ncall(kind.id) + 1];
      }
      ok := true;
    }

    method LinkLast(p: Addr)
      requires Joint(bstack, estack, mem, nodes) && p != NULL && p !in nodes
      modifies this`bstack, this`estack, this`mem, this`nodes
      ensures Joint(bstack, estack, mem, nodes) && nodes == old(nodes) + [p]
    {
      ghost var m := mem;
      LastMember(nodes);
      if nodes != [] { Members(mem, NULL, nodes, NULL, estack); }
      mem := mem[p := Queues.Words(NULL, estack)];
      if estack != NULL {
        mem := mem[estack := mem[estack].(next := p)];
      } else {
        bstack := p;
      }
      estack := p;
      JoinPushed(m, mem, nodes, p);
      nodes := nodes + [p];
    }

    /** The search for the innermost activation, from the end backwards: the
        frames below it and, above it, only loops. */
    method Innermost() returns (fp: Addr, ghost a: seq<Addr>, ghost b: seq<Addr>)
      requires Valid()
      ensures fp == NULL ==> AllLoops(kinds, nodes)
      ensures fp != NULL ==> nodes == a + ([fp] + b) && KindOf(kinds, fp).Fn? && AllLoops(kinds, b)
    {
      fp, a, b := estack, nodes, [];
      while fp != NULL
        invariant nodes == a + b && fp == LastOr(NULL, a) && AllLoops(kinds, b)
        decreases |a|
      {
        ghost var c := a[..|a| - 1];
        assert a + b == c + ([fp] + b);
        Between(mem, c, fp, b);
        if KindOf(kinds, fp).Fn? {
          a := c;
          return;
        }
        fp := mem[fp].prev;
        a, b := c, [nodes[|c|]] + b;
      }
      SegSplit(mem, true, NULL, a, b, NULL);
      LastNotNull(mem, a, FirstOr(b, NULL));
      assert nodes == b;
    }

    /** `clr_stack` on the records cut off: each activation is counted down. */
    method ClrStack(sptr: Addr, ghost before: Addr, ghost tail: seq<Addr>)
      requires sptr == FirstOr(tail, NULL) && Seg(mem, true, before, tail, NULL)
      modifies this`ncall
      ensures forall id: nat :: Ncall(id) == old(Ncall(id)) - Live(kinds, tail, id)
    {
      var p := sptr;
      ghost var left, back := tail, before;
      while p != NULL
        invariant p == FirstOr(left, NULL) && Seg(mem, true, back, left, NULL)
        invariant forall id: nat :: Ncall(id) - Live(kinds, left, id) == old(Ncall(id)) - Live(kinds, tail, id)
        decreases |left|
      {
        if KindOf(kinds, p).Fn? {
          var id := KindOf(kinds, p).id;
          ncall := ncall[id := Ncall(id) - 1];
        }
        back := p;
        p := mem[p].next;
        left := left[1..];
      }
      FirstNotNull(mem, back, left);
    }

    /** A return cuts the stack at the activation `fp`: it and all frames above
        it go, the frames below stay as they were. */
    method CutFrom(fp: Addr, ghost a: seq<Addr>, ghost b: seq<Addr>)
      requires Valid() && nodes == a + ([fp] + b)
      modifies this
      ensures Valid() && nodes == a && kinds == old(kinds)
    {
      ghost var m := mem;
      Between(mem, a, fp, b);
      CutCount(kinds, a, [fp] + b);
      estack := mem[fp].prev;
      if estack == NULL {
        bstack := NULL;
      } else {
        mem := mem[estack := mem[estack].(next := NULL)];
      }
      JoinCut(m, mem, a, fp, b);
      nodes := a;
      ClrStack(fp, LastOr(NULL, a), [fp] + b);
    }

    /** Unlinks one record. */
    method Unlink(fp: Addr, ghost a: seq<Addr>, ghost b: seq<Addr>)
      requires Joint(bstack, estack, mem, nodes) && nodes == a + ([fp] + b)
      modifies this`bstack, this`estack, this`mem, this`nodes
      ensures Joint(bstack, estack, mem, nodes) && nodes == a + b
    {
      ghost var m := mem;
      Between(mem, a, fp, b);
      var np, op := mem[fp].next, mem[fp].prev;
      if np != NULL {
        mem := mem[np := mem[np].(prev := op)];
      } else {
        estack := op;
      }
      if op != NULL {
        mem := mem[op := mem[op].(next := np)];
      } else {
        bstack := np;
      }
      JoinUnlinked(m, mem, a, fp, b);
      nodes := a + b;
    }

    /** The end of a loop: its frame is the last one and goes. */
    method PopLoop(ghost a: seq<Addr>)
      requires Valid() && nodes == a + [estack] && KindOf(kinds, estack).Loop?
      modifies this
      ensures Valid() && nodes == a && kinds == old(kinds)
    {
      assert a + [estack] == a + ([estack] + []) && a + [] == a;
      DropCount(kinds, a, estack, []);
      Unlink(estack, a, []);
    }

    /** One turn of `drop_fns`. */
    method DropOne(fp: Addr, ghost a: seq<Addr>, ghost b: seq<Addr>)
      requires Valid() && nodes == a + ([fp] + b) && KindOf(kinds, fp).Fn?
      modifies this
      ensures Valid() && kinds == old(kinds) && nodes == a + b
    {
      var id := KindOf(kinds, fp).id;
      DropCount(kinds, a, fp, b);
      ncall := ncall[id := Ncall(id) - 1];
      Unlink(fp, a, b);
    }

    /** `drop_fns`: the frames that are not activations remain, in order, and
        every call counter is zero. */
    method DropFns()
      requires Valid()
      modifies this
      ensures Valid() && kinds == old(kinds) && nodes == Loops(kinds, old(nodes))
      ensures forall id: nat :: Ncall(id) == 0
    {
      ghost var all := nodes;
      ghost var done: seq<Addr>, left := [], nodes;
      var fp := bstack;
      assert done + left == nodes;
      while fp != NULL
        invariant Valid() && kinds == old(kinds) && nodes == done + left && fp == FirstOr(left, NULL)
        invariant Loops(kinds, all) == done + Loops(kinds, left)
        decreases |left|
      {
        ghost var rest := left[1..];
        assert left == [fp] + rest;
        NextFrame(mem, done, fp, rest);
        var nfp := mem[fp].next;
        LoopsStep(kinds, done, fp, rest);
        if KindOf(kinds, fp).Fn? {
          DropOne(fp, done, rest);
        } else {
          assert nodes == (done + [fp]) + rest;
          done := done + [fp];
        }
        fp, left := nfp, rest;
      }
      SegSplit(mem, true, NULL, done, left, NULL);
      FirstNotNull(mem, LastOr(NULL, done), left);
      assert nodes == done;
      forall id: nat ensures Ncall(id) == 0 { LoopsLive(kinds, all, id); }
    }
  }

  lemma PushCount(kinds: Kinds, nodes: seq<Addr>, p: Addr, kind: Kind)
    requires p !in nodes
    ensures forall id: nat :: Live(kinds[p := kind], nodes + [p], id) == Live(kinds, nodes, id) + (if kind == Fn(id) then 1 else 0)
  {
    forall id: nat ensures Live(kinds[p := kind], nodes + [p], id) == Live(kinds, nodes, id) + (if kind == Fn(id) then 1 else 0) {
      LiveAppend(kinds[p := kind], nodes, [p], id);
      LiveOne(kinds[p := kind], p, id);
      LiveFrame(kinds, kinds[p := kind], nodes, id);
    }
  }

  lemma CutCount(kinds: Kinds, a: seq<Addr>, b: seq<Addr>)
    ensures forall id: nat :: Live(kinds, a + b, id) == Live(kinds, a, id) + Live(kinds, b, id)
  {
    forall id: nat ensures Live(kinds, a + b, id) == Live(kinds, a, id) + Live(kinds, b, id) { LiveAppend(kinds, a, b, id); }
  }

  lemma DropCount(kinds: Kinds, a: seq<Addr>, fp: Addr, b: seq<Addr>)
    ensures forall id: nat :: Live(kinds, a + ([fp] + b), id) == Live(kinds, a + b, id) + (if KindOf(kinds, fp) == Fn(id) then 1 else 0)
  {
    CutCount(kinds, a, [fp] + b);
    CutCount(kinds, [fp], b);
    CutCount(kinds, a, b);
    forall id: nat ensures Live(kinds, [fp], id) == if KindOf(kinds, fp) == Fn(id) then 1 else 0 { LiveOne(kinds, fp, id); }
  }
}
