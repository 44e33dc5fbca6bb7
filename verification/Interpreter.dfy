/** The interpreter's memory as a whole: the linked hash table, the linked frame
    list and the save blocks of the activations, with assignment, LOCAL, loop
    frames, and calls with their parameters, proved to run as `Calls` says. */
module Interpreter {
  import opened Words
  import opened Symbols
  import opened SymbolTable
  import opened Locals
  import opened Calls
  import LocalCommands
  import FrameList

  type Addr = nat

  // ---------------------------------------------------------------- frames in memory

  /** What the records hold besides their links. */
  type Records = map<Addr, Frame>

  function FrameOf(recs: Records, n: Addr): Frame { if n in recs then recs[n] else Loop }

  /** The frames of a list of records, oldest first. */
  function FramesOf(recs: Records, nodes: seq<Addr>): Frames
    decreases |nodes|
  {
    if nodes == [] then Empty
    else OnTop(FramesOf(recs, nodes[..|nodes| - 1]), FrameOf(recs, nodes[|nodes| - 1]))
  }

  function KindOf(f: Frame): FrameList.Kind { if f.Loop? then FrameList.Kind.Loop else FrameList.Kind.Fn(f.fn.id) }

  lemma FramesSnoc(recs: Records, a: seq<Addr>, x: Addr)
    ensures FramesOf(recs, a + [x]) == OnTop(FramesOf(recs, a), FrameOf(recs, x))
  {
    assert (a + [x])[..|a|] == a;
  }

  lemma {:induction false} FramesSame(recs: Records, recs': Records, nodes: seq<Addr>)
    requires forall n | n in nodes :: FrameOf(recs', n) == FrameOf(recs, n)
    ensures FramesOf(recs', nodes) == FramesOf(recs, nodes)
    decreases |nodes|
  {
    if nodes != [] { FramesSame(recs, recs', nodes[..|nodes| - 1]); }
  }

  ghost predicate OnlyLoops(recs: Records, nodes: seq<Addr>) { forall n | n in nodes :: FrameOf(recs, n).Loop? }

  lemma {:induction false} NoActivation(recs: Records, nodes: seq<Addr>)
    requires OnlyLoops(recs, nodes)
    ensures Inner(FramesOf(recs, nodes)).Empty?
    decreases |nodes|
  {
    if nodes != [] { NoActivation(recs, nodes[..|nodes| - 1]); }
  }

  /** The innermost activation, below any loops. */
  lemma {:induction false} InnerIs(recs: Records, a: seq<Addr>, fp: Addr, b: seq<Addr>)
    requires OnlyLoops(recs, b) && FrameOf(recs, fp).Call?
    ensures Inner(FramesOf(recs, a + ([fp] + b))) == OnTop(FramesOf(recs, a), FrameOf(recs, fp))
    decreases |b|
  {
    if b == [] {
      assert a + ([fp] + b) == a + [fp];
      FramesSnoc(recs, a, fp);
    } else {
      var c, x := b[..|b| - 1], b[|b| - 1];
      assert a + ([fp] + b) == (a + ([fp] + c)) + [x];
      FramesSnoc(recs, a + ([fp] + c), x);
      InnerIs(recs, a, fp, c);
    }
  }

  /** Recording a save changes the record of the innermost activation only. */
  lemma {:induction false} RecordIs(recs: Records, a: seq<Addr>, fp: Addr, b: seq<Addr>, e: Save)
    requires OnlyLoops(recs, b) && FrameOf(recs, fp).Call? && fp !in a && fp !in b
    ensures var f := FrameOf(recs, fp);
            Record(FramesOf(recs, a + ([fp] + b)), e) == FramesOf(recs[fp := Call(f.fn, AddSave(f.locals, e))], a + ([fp] + b))
    decreases |b|
  {
    var f := FrameOf(recs, fp);
    var recs' := recs[fp := Call(f.fn, AddSave(f.locals, e))];
    if b == [] {
      assert a + ([fp] + b) == a + [fp];
      FramesSnoc(recs, a, fp);
      FramesSnoc(recs', a, fp);
      FramesSame(recs, recs', a);
    } else {
      var c, x := b[..|b| - 1], b[|b| - 1];
      assert a + ([fp] + b) == (a + ([fp] + c)) + [x];
      FramesSnoc(recs, a + ([fp] + c), x);
      FramesSnoc(recs', a + ([fp] + c), x);
      RecordIs(recs, a, fp, c, e);
      assert FrameOf(recs, x).Loop?;
    }
  }

  /** The records agree with the kinds the frame list keeps. */
  ghost predicate Typed(recs: Records, kinds: FrameList.Kinds, nodes: seq<Addr>) {
    forall n | n in nodes :: FrameList.KindOf(kinds, n) == KindOf(FrameOf(recs, n))
  }

  lemma {:induction false} LiveIsCount(recs: Records, kinds: FrameList.Kinds, nodes: seq<Addr>, id: nat)
    requires Typed(recs, kinds, nodes)
    ensures FrameList.Live(kinds, nodes, id) == Count(FramesOf(recs, nodes), id)
    decreases |nodes|
  {
    if nodes != [] {
      var a, x := nodes[..|nodes| - 1], nodes[|nodes| - 1];
      assert nodes == a + [x];
      LiveIsCount(recs, kinds, a, id);
      FrameList.LiveAppend(kinds, a, [x], id);
      FrameList.LiveOne(kinds, x, id);
    }
  }

  // ---------------------------------------------------------------- values in memory

  lemma ChainedValues(h: Heap, h': Heap, heads: seq<Option<Ref>>, tab: Tab)
    requires Chained(h, heads, tab)
    requires forall r | r in h :: r in h' && h'[r].link == h[r].link && h'[r].entry.key == h[r].entry.key
    ensures Chained(h', heads, tab)
  {
    forall i | 0 <= i < HSHTABSIZ ensures Linked(h', heads[i], tab[i]) { LinkedFrame(h, h', heads[i], tab[i]); }
  }

  method StoreValue(t: HashTable, r: Ref, v: Val, ghost s: State)
    requires LocalCommands.Shows(t, s) && r in s.ent
    modifies t
    ensures LocalCommands.Shows(t, SetVal(s, r, v))
  {
    var h := t.heap[r := t.heap[r].(entry := t.heap[r].entry.(val := v))];
    ChainedValues(t.heap, h, t.hasht[..], t.tab);
    t.heap := h;
    assert t.Ent() == SetVal(s, r, v).ent;
  }

  /** The two loops of `ffn` and `recov_parms` that put values into parameters. */
  method StoreParams(t: HashTable, rs: seq<Ref>, vs: seq<Val>, ghost s: State)
    requires LocalCommands.Shows(t, s) && |rs| == |vs| && AllLive(rs, s.ent)
    modifies t
    ensures LocalCommands.Shows(t, SetAll(s, rs, vs))
  {
    var i := 0;
    ghost var now := s;
    assert rs[0..] == rs && vs[0..] == vs;
    while i < |rs|
      invariant 0 <= i <= |rs| && LocalCommands.Shows(t, now) && AllLive(rs[i..], now.ent)
      invariant SetAll(s, rs, vs) == SetAll(now, rs[i..], vs[i..])
    {
      assert rs[i..][0] == rs[i] && rs[i..][1..] == rs[i + 1..] && vs[i..][0] == vs[i] && vs[i..][1..] == vs[i + 1..];
      StoreValue(t, rs[i], vs[i], now);
      now := SetVal(now, rs[i], vs[i]);
      i := i + 1;
    }
  }

  /** The values of the parameters before the call. */
  method SaveParams(t: HashTable, rs: seq<Ref>, ghost s: State) returns (vs: seq<Val>)
    requires LocalCommands.Shows(t, s) && AllLive(rs, s.ent)
    ensures vs == Values(s, rs)
  {
    vs := [];
    var i := 0;
    while i < |rs|
      invariant 0 <= i <= |rs| && |vs| == i && forall j | 0 <= j < i :: vs[j] == s.ent[rs[j]].val
    {
      vs := vs + [t.heap[rs[i]].entry.val];
      i := i + 1;
    }
  }

  /** The state in which a return starts to recover. */
  lemma ReturnReady(s: State, fn: Fn, args: seq<Val>, ks: set<Key>, s4: State) returns (s5: State)
    requires RanBody(s, fn, args, ks, s4)
    ensures Inner(s4.frames) == OnTop(s.frames, Call(fn, MyBlocks(s4))) && AllLive(fn.params, s4.ent) && AllLive(fn.params, s.ent)
    ensures TableOk(s5.tab, s5.ent) && SavesOk(s5.ent, MyBlocks(s4)) && Current(s5, MyBlocks(s4))
    ensures Leave(s4, Values(s, fn.params)) == Recover(s5, MyBlocks(s4))
    ensures var s1 := SetAll(s4, fn.params, Values(s, fn.params));
            s5.tab == s1.tab && s5.ent == s1.ent && s5.brk == s4.brk && s5.frames == s.frames
  {
    LeaveFrame(s, fn, args, ks, s4);
    LeaveParts(s, fn, args, ks, s4);
    s5 := Returning(s, fn, s4);
  }

  lemma BodyStarts(s: State, fn: Fn, args: seq<Val>, body: Body)
    requires Good(s) && |args| == |fn.params| && AllLive(fn.params, s.ent) && Ncall(s, fn.id) < MAX_FCALLS && Careful(body, s.ent)
    ensures Good(Enter(s, fn, args)) && Careful(body, Enter(s, fn, args).ent)
    ensures !Exec(Enter(s, fn, args), body).Ok? ==> Step(s, Invoke(fn, args, body)) == Exec(Enter(s, fn, args), body)
  {
    EnterOk(s, fn, args);
    CarefulGrows(body, s.ent, Enter(s, fn, args).ent);
  }

  lemma BodyEnds(s: State, fn: Fn, args: seq<Val>, body: Body)
    requires Good(s) && Defined(body) && Distinct(fn.params) && |args| == |fn.params|
    requires AllLive(fn.params, s.ent) && Ncall(s, fn.id) < MAX_FCALLS
    requires Exec(Enter(s, fn, args), body).Ok? && !RepeatsWithinSeven(LocalList(body))
    ensures var s4 := Exec(Enter(s, fn, args), body).s;
            && RanBody(s, fn, args, LocalNames(body), s4) && !TwiceInABlock(MyBlocks(s4))
            && Step(s, Invoke(fn, args, body)) == Leave(s4, Values(s, fn.params))
  {
    BodyRan(s, fn, args, body);
    TwiceIffRepeats(MyBlocks(Exec(Enter(s, fn, args), body).s));
    StepInvoke(s, fn, args, body);
  }

  // ---------------------------------------------------------------- the machine

  class Machine {
    const t: HashTable
    const st: FrameList.Stack
    var recs: Records
    var brk: Ref
    var top: Addr

    ghost predicate Framed(frames: Frames)
      reads this, st
    {
      && st.Valid() && frames == FramesOf(recs, st.nodes) && Typed(recs, st.kinds, st.nodes)
      && top > 0 && forall n | n in st.nodes :: n < top
    }

    /** Memory is as the state says. */
    ghost predicate Shows(s: State)
      reads this, t, t.hasht, st
    {
      LocalCommands.Shows(t, s) && s.brk == brk && Framed(s.frames)
    }

    constructor ()
      ensures Shows(Start()) && fresh(t) && fresh(t.hasht) && fresh(st)
    {
      t := new HashTable();
      st := new FrameList.Stack();
      recs, brk, top := map[], 0, 1;
    }

    /** A new record at the end of the frame list. */
    method PushFrame(f: Frame) returns (ok: bool)
      requires Framed(FramesOf(recs, st.nodes)) && (f.Call? ==> f.locals == NoBlock)
      modifies this`recs, this`top, st
      ensures ok <==> f.Loop? || Count(old(FramesOf(recs, st.nodes)), f.fn.id) < 100
      ensures ok ==> Framed(OnTop(old(FramesOf(recs, st.nodes)), f))
      ensures !ok ==> Framed(old(FramesOf(recs, st.nodes)))
    {
      if f.Call? { LiveIsCount(recs, st.kinds, st.nodes, f.fn.id); }
      ghost var nodes, recs0 := st.nodes, recs;
      ok := st.Push(top, KindOf(f));
      if ok {
        recs := recs[top := f];
        FramesSame(recs0, recs, nodes);
        FramesSnoc(recs, nodes, top);
        top := top + 1;
      }
    }

    method LetStmt(k: Key, v: Val, ghost s: State)
      requires Shows(s) && brk !in s.ent
      modifies this`brk, t, t.hasht
      ensures Shows(Assign(s, k, v))
    {
      var found, np := t.GetNm(k);
      if found.Some? {
        StoreValue(t, found.value, v, s);
      } else {
        t.NewEntry(k, v, np, brk);
        brk := brk + 1;
      }
    }

    /** The innermost activation in memory is the one of the state. */
    method FindActivation() returns (fp: Addr, ghost a: seq<Addr>, ghost b: seq<Addr>)
      requires Framed(FramesOf(recs, st.nodes))
      ensures fp == 0 ==> Inner(FramesOf(recs, st.nodes)).Empty?
      ensures fp != 0 ==> st.nodes == a + ([fp] + b) && OnlyLoops(recs, b) && FrameOf(recs, fp).Call?
      ensures fp != 0 ==> fp !in a && fp !in b && Inner(FramesOf(recs, st.nodes)) == OnTop(FramesOf(recs, a), FrameOf(recs, fp))
    {
      fp, a, b := st.Innermost();
      if fp == 0 {
        assert OnlyLoops(recs, st.nodes);
        NoActivation(recs, st.nodes);
      } else {
        FrameList.Between(st.mem, a, fp, b);
        assert fp in st.nodes && forall n | n in b :: n in st.nodes;
        InnerIs(recs, a, fp, b);
      }
    }

    /** LOCAL of one name. */
    method LocalStmt(k: Key, d: Dims, ghost s: State) returns (code: Option<nat>)
      requires Shows(s) && TableOk(s.tab, s.ent) && brk !in s.ent
      modifies this`recs, this`brk, t, t.hasht
      ensures code.None? ==> MakeLocal(s, k, d).Ok? && Shows(MakeLocal(s, k, d).s)
      ensures code.Some? ==> MakeLocal(s, k, d) == Err(code.value)
    {
      var fp, a, b := FindActivation();
      if fp == 0 {
        return Some(54);
      }
      if k.kind == Func {
        return Some(2);
      }
      code := LocalIn(fp, a, b, k, d, s);
    }

    /** LOCAL in the activation found. */
    method LocalIn(fp: Addr, ghost a: seq<Addr>, ghost b: seq<Addr>, k: Key, d: Dims, ghost s: State) returns (code: Option<nat>)
      requires Shows(s) && TableOk(s.tab, s.ent) && brk !in s.ent && k.kind != Func && Inner(s.frames).OnTop?
      requires st.nodes == a + ([fp] + b) && OnlyLoops(recs, b) && FrameOf(recs, fp).Call? && fp !in a && fp !in b
      modifies this`recs, this`brk, t, t.hasht
      ensures code.None? ==> MakeLocal(s, k, d).Ok? && Shows(MakeLocal(s, k, d).s)
      ensures code.Some? ==> MakeLocal(s, k, d) == Err(code.value)
    {
      var e := LocalCommands.BLocal(t, k, d, brk, s);
      if e.None? {
        return Some(1);
      }
      NoteSave(fp, a, b, e.value);
      brk := brk + 1;
      return None;
    }

    /** A save goes into the last block of the activation, or a new one. */
    method NoteSave(fp: Addr, ghost a: seq<Addr>, ghost b: seq<Addr>, e: Save)
      requires Framed(FramesOf(recs, st.nodes)) && st.nodes == a + ([fp] + b)
      requires OnlyLoops(recs, b) && FrameOf(recs, fp).Call? && fp !in a && fp !in b
      modifies this`recs
      ensures Framed(Record(old(FramesOf(recs, st.nodes)), e))
    {
      RecordIs(recs, a, fp, b, e);
      var f := FrameOf(recs, fp);
      recs := recs[fp := Call(f.fn, AddSave(f.locals, e))];
    }

    /** The end of a loop. */
    method EndLoop(ghost s: State) returns (code: Option<nat>)
      requires Shows(s)
      modifies st
      ensures code.None? ==> s.frames.OnTop? && s.frames.f.Loop? && Shows(s.(frames := s.frames.below))
      ensures code.Some? ==> code == Some(18) && !(s.frames.OnTop? && s.frames.f.Loop?)
    {
      if st.estack == 0 {
        FrameList.LastNotNull(st.mem, st.nodes, 0);
        return Some(18);
      }
      ghost var a := st.nodes[..|st.nodes| - 1];
      assert st.nodes == a + [st.estack] && st.estack in st.nodes;
      if FrameOf(recs, st.estack).Call? {
        return Some(18);
      }
      FramesSnoc(recs, a, st.estack);
      assert forall n | n in a :: n in st.nodes;
      st.PopLoop(a);
      return None;
    }

    /** The end of a call: parameters back, the frame and the loops above it
        cut off, the localised names recovered. */
    method Return(olds: seq<Val>, ghost s: State, ghost fn: Fn, ghost args: seq<Val>, ghost ks: set<Key>, ghost s4: State)
      requires Shows(s4) && RanBody(s, fn, args, ks, s4) && olds == Values(s, fn.params) && !TwiceInABlock(MyBlocks(s4))
      modifies t, t.hasht, st
      ensures Leave(s4, olds).Ok? && Shows(Leave(s4, olds).s)
    {
      ghost var s5 := ReturnReady(s, fn, args, ks, s4);
      var f := Leaving(olds, s4, fn, s.frames);
      LocalCommands.RecoverVars(t, f.locals, s5);
    }

    /** Parameters back, then the frame and the loops above it cut off. */
    method Leaving(olds: seq<Val>, ghost s4: State, ghost fn: Fn, ghost below: Frames) returns (f: Frame)
      requires Shows(s4) && Inner(s4.frames) == OnTop(below, Call(fn, MyBlocks(s4)))
      requires |olds| == |fn.params| && AllLive(fn.params, s4.ent)
      modifies t, st
      ensures f == Call(fn, MyBlocks(s4)) && LocalCommands.Shows(t, SetAll(s4, fn.params, olds)) && Framed(below)
    {
      var fp, a, b := FindActivation();
      f := FrameOf(recs, fp);
      StoreParams(t, f.fn.params, olds, s4);
      Cut(fp, a, b);
    }

    /** Cuts the frame list below an activation. */
    method Cut(fp: Addr, ghost a: seq<Addr>, ghost b: seq<Addr>)
      requires Framed(FramesOf(recs, st.nodes)) && st.nodes == a + ([fp] + b)
      modifies st
      ensures Framed(FramesOf(recs, a))
    {
      assert forall n | n in a :: n in st.nodes;
      st.CutFrom(fp, a, b);
    }

    /** A call, with any calls its body makes. */
    method CallFn(fn: Fn, args: seq<Val>, body: Body, ghost s: State) returns (code: Option<nat>)
      requires Shows(s) && Good(s) && Defined(body) && Distinct(fn.params)
      requires !RepeatsWithinSeven(LocalList(body)) && Careful(body, s.ent) && AllLive(fn.params, s.ent)
      modifies this, t, t.hasht, st
      ensures var o := Step(s, Invoke(fn, args, body));
              (code.None? ==> o.Ok? && Shows(o.s)) && (code.Some? ==> o == Err(code.value))
      decreases body, 2
    {
      if |args| != |fn.params| {
        return Some(1);
      }
      var ok, olds := Begin(fn, args, s);
      if !ok {
        return Some(44);
      }
      BodyStarts(s, fn, args, body);
      code := Execute(body, Enter(s, fn, args));
      if code.Some? {
        return;
      }
      BodyEnds(s, fn, args, body);
      Return(olds, s, fn, args, LocalNames(body), Exec(Enter(s, fn, args), body).s);
    }

    /** The start of a call: parameters saved and set, a frame pushed. */
    method Begin(fn: Fn, args: seq<Val>, ghost s: State) returns (ok: bool, olds: seq<Val>)
      requires Shows(s) && Good(s) && |args| == |fn.params| && AllLive(fn.params, s.ent)
      modifies this`recs, this`top, t, st
      ensures ok <==> Ncall(s, fn.id) < 100
      ensures ok ==> olds == Values(s, fn.params) && Shows(Enter(s, fn, args))
      ensures ok && Distinct(fn.params) ==> forall i | 0 <= i < |args| :: fn.params[i] in t.heap && t.heap[fn.params[i]].entry.val == args[i]
    {
      olds := SaveParams(t, fn.params, s);
      StoreParams(t, fn.params, args, s);
      ok := PushFrame(Call(fn, NoBlock));
      assert Ncall(s, fn.id) == Count(s.frames, fn.id);
      if Distinct(fn.params) { ArgumentsSeen(s, fn, args); }
    }

    /** One statement. */
    method ExecuteOne(stmt: Stmt, ghost s: State) returns (code: Option<nat>)
      requires Shows(s) && Good(s) && Defined(Do(stmt, Done)) && Careful(Do(stmt, Done), s.ent)
      modifies this, t, t.hasht, st
      ensures var o := Step(s, stmt);
              (code.None? ==> o.Ok? && Shows(o.s)) && (code.Some? ==> o == Err(code.value))
      decreases stmt, 3
    {
      match stmt
      case Let(k, v) =>
        LetStmt(k, v, s);
        return None;
      case LocalStmt(k, d) =>
        code := LocalStmt(k, d, s);
      case OpenLoop =>
        var ok := PushFrame(Loop);
        return None;
      case CloseLoop =>
        code := EndLoop(s);
      case Invoke(fn, args, body) =>
        code := CallFn(fn, args, body, s);
    }

    /** The statements of an activation: every careful run ends in the state the
        specification gives, or with its error. */
    method Execute(b: Body, ghost s: State) returns (code: Option<nat>)
      requires Shows(s) && Good(s) && Defined(b) && Careful(b, s.ent)
      modifies this, t, t.hasht, st
      ensures var o := Exec(s, b);
              (code.None? ==> o.Ok? && Shows(o.s)) && (code.Some? ==> o == Err(code.value))
      decreases b, 1
    {
      match b
      case Done =>
        return None;
      case Do(stmt, rest) =>
        code := ExecuteOne(stmt, s);
        if code.Some? {
          return;
        }
        StepOk(s, stmt);
        CarefulGrows(rest, s.ent, Step(s, stmt).s.ent);
        code := Execute(rest, Step(s, stmt).s);
    }
  }
}
