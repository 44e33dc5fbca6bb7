/** Runs of BASIC statements with any nesting of multi-line function calls, and
    what a normal return restores. */
module Calls {
  import opened Words
  import opened Symbols
  import opened Locals

  datatype Stmt =
    | Let(k: Key, v: Val)
    | LocalStmt(k: Key, d: Dims)
    | OpenLoop
    | CloseLoop
    | Invoke(fn: Fn, args: seq<Val>, body: Body)

  /** The statements a run executes; a call carries those its activation runs. */
  datatype Body = Done | Do(first: Stmt, rest: Body)

  predicate AllLive(rs: seq<Ref>, ent: Store) { forall r | r in rs :: r in ent }

  function SetAll(s: State, rs: seq<Ref>, vs: seq<Val>): (s': State)
    requires |rs| == |vs| && AllLive(rs, s.ent)
    ensures s'.ent.Keys == s.ent.Keys && s'.tab == s.tab && s'.brk == s.brk && s'.frames == s.frames && s'.ncall == s.ncall
    ensures forall r | r in s.ent :: s'.ent[r].key == s.ent[r].key && (r !in rs ==> s'.ent[r].val == s.ent[r].val)
    decreases |rs|
  {
    if rs == [] then s else SetAll(SetVal(s, rs[0], vs[0]), rs[1..], vs[1..])
  }

  function Values(s: State, rs: seq<Ref>): (vs: seq<Val>)
    requires AllLive(rs, s.ent)
    ensures |vs| == |rs| && forall i | 0 <= i < |rs| :: vs[i] == s.ent[rs[i]].val
  {
    seq(|rs|, i requires 0 <= i < |rs| => s.ent[rs[i]].val)
  }

  /** `ffn` up to the execution of the body. */
  function Enter(s: State, fn: Fn, args: seq<Val>): State
    requires |args| == |fn.params| && AllLive(fn.params, s.ent)
  {
    SetAll(s, fn.params, args)
      .(frames := OnTop(s.frames, Call(fn, NoBlock)), ncall := s.ncall[fn.id := Ncall(s, fn.id) + 1])
  }

  /** Parameters restored, the frame and those above it unlinked. */
  function Unlinked(s: State, fn: Fn, below: Frames, olds: seq<Val>): State
    requires |olds| == |fn.params| && AllLive(fn.params, s.ent) && Ncall(s, fn.id) > 0
  {
    SetAll(s, fn.params, olds).(frames := below, ncall := s.ncall[fn.id := Ncall(s, fn.id) - 1])
  }

  /** `ffn` after the body: recov_parms, then clr_stack from the innermost
      function frame up. */
  function Leave(s: State, olds: seq<Val>): Out
    requires |s.tab| == HSHTABSIZ
  {
    var fs := Inner(s.frames);
    if fs.Empty? then Err(0)
    else if |olds| != |fs.f.fn.params| || !AllLive(fs.f.fn.params, s.ent) || Ncall(s, fs.f.fn.id) == 0
    then Fault
    else Recover(Unlinked(s, fs.f.fn, fs.below, olds), fs.f.locals)
  }

  function Step(s: State, st: Stmt): (o: Out)
    requires |s.tab| == HSHTABSIZ
    ensures o.Ok? ==> |o.s.tab| == HSHTABSIZ
    decreases st
  {
    match st
    case Let(k, v) => Ok(Assign(s, k, v))
    case LocalStmt(k, d) => MakeLocal(s, k, d)
    case OpenLoop => Ok(s.(frames := OnTop(s.frames, Loop)))
    case CloseLoop => if s.frames.OnTop? && s.frames.f.Loop? then Ok(s.(frames := s.frames.below)) else Err(18)
    case Invoke(fn, args, body) =>
      if |args| != |fn.params| then Err(1)
      else if !AllLive(fn.params, s.ent) then Fault
      else if Ncall(s, fn.id) >= MAX_FCALLS then Err(44)
      else
        var o := Exec(Enter(s, fn, args), body);
        if !o.Ok? then o else Leave(o.s, Values(s, fn.params))
  }

  function Exec(s: State, b: Body): (o: Out)
    requires |s.tab| == HSHTABSIZ
    ensures o.Ok? ==> |o.s.tab| == HSHTABSIZ
    decreases b
  {
    match b
    case Done => Ok(s)
    case Do(st, rest) =>
      var o := Step(s, st);
      if !o.Ok? then o else Exec(o.s, rest)
  }

  /** Parameter lists name distinct entries; `def_fn` rejects others. */
  predicate Defined(b: Body) {
    b.Do? ==>
      && (b.first.Invoke? ==> Defined(b.first.body) && Distinct(b.first.fn.params))
      && Defined(b.rest)
  }

  predicate Distinct(rs: seq<Ref>) { forall i, j | 0 <= i < j < |rs| :: rs[i] != rs[j] }

  /** The names a body localises in its own activation. */
  function LocalNames(b: Body): set<Key> {
    if b.Done? then {} else (if b.first.LocalStmt? then {b.first.k} else {}) + LocalNames(b.rest)
  }

  // ---------------------------------------------------------------- invariant

  function MyBlocks(s: State): Blocks {
    var fs := Inner(s.frames);
    if fs.OnTop? then fs.f.locals else NoBlock
  }

  ghost predicate Good(s: State) {
    && TableOk(s.tab, s.ent)
    && (forall r | r in s.ent :: r < s.brk)
    && (forall id :: Ncall(s, id) == Count(s.frames, id) <= MAX_FCALLS)
    && SavesOk(s.ent, MyBlocks(s)) && Current(s, MyBlocks(s)) && Older(MyBlocks(s), s.brk)
  }

  /** Reachable by its name. */
  predicate Visible(s: State, r: Ref)
    requires |s.tab| == HSHTABSIZ
  {
    r in s.ent && At(s, s.ent[r].key) == Some(r)
  }

  predicate SameActivation(fs: Frames, fs': Frames) {
    var a, a' := Inner(fs), Inner(fs');
    (a.Empty? && a'.Empty?) || (a.OnTop? && a'.OnTop? && a.below == a'.below && a.f.fn == a'.f.fn)
  }

  /** What running some statements of one activation, localising the names
      `ks`, leaves alone: entries and their keys, the frames under the
      activation, the value of every shadowed entry, every binding but those of
      `ks`. */
  ghost predicate Keeps(s: State, s': State, ks: set<Key>)
    requires |s.tab| == HSHTABSIZ && |s'.tab| == HSHTABSIZ
  {
    && (forall r | r in s.ent :: r in s'.ent && s'.ent[r].key == s.ent[r].key)
    && s.brk <= s'.brk
    && SameActivation(s.frames, s'.frames)
    && (forall r | r in s.ent && !Visible(s, r) :: !Visible(s', r) && s'.ent[r].val == s.ent[r].val)
    && (forall k | At(s, k).Some? && k !in ks :: At(s', k) == At(s, k))
  }

  /** How its list of saves grows: first saves stand, new ones are of `ks` and
      shadow what was bound before. */
  ghost predicate Grows(s: State, s': State, ks: set<Key>)
    requires |s.tab| == HSHTABSIZ && |s'.tab| == HSHTABSIZ
  {
    var b, b' := MyBlocks(s), MyBlocks(s');
    && (forall k | Base(b, k).Some? :: Base(b', k) == Base(b, k))
    && (forall k | k in ks :: Base(b', k).Some?)
    && (forall k | Base(b, k).None? && Base(b', k).Some? :: NewBase(s, ks, k, Base(b', k).value))
    && (forall n: nat | n <= s.brk && Newer(b, n) :: Newer(b', n))
  }

  predicate NewBase(s: State, ks: set<Key>, k: Key, l: Option<Ref>)
    requires |s.tab| == HSHTABSIZ
  {
    && k in ks
    && (At(s, k).Some? ==> l == At(s, k))
    && (l.Some? ==> (l.value in s.ent ==> At(s, k) == l))
  }

  lemma KeepsTrans(s: State, s1: State, s2: State, ks: set<Key>, js: set<Key>)
    requires |s.tab| == HSHTABSIZ && |s1.tab| == HSHTABSIZ && |s2.tab| == HSHTABSIZ
    requires Keeps(s, s1, ks) && Keeps(s1, s2, js)
    ensures Keeps(s, s2, ks + js)
  {
  }

  lemma GrowsTrans(s: State, s1: State, s2: State, ks: set<Key>, js: set<Key>)
    requires |s.tab| == HSHTABSIZ && |s1.tab| == HSHTABSIZ && |s2.tab| == HSHTABSIZ
    requires Keeps(s, s1, ks) && Grows(s, s1, ks) && Grows(s1, s2, js) && SavesOk(s2.ent, MyBlocks(s2))
    requires forall k | At(s1, k).Some? :: s1.ent[At(s1, k).value].key == k
    ensures Grows(s, s2, ks + js)
  {
    var b, b1, b2 := MyBlocks(s), MyBlocks(s1), MyBlocks(s2);
    forall k | Base(b, k).None? && Base(b2, k).Some?
      ensures NewBase(s, ks + js, k, Base(b2, k).value)
    {
      if Base(b1, k).None? {
        var l := Base(b2, k).value;
        assert k !in ks && NewBase(s1, js, k, l);
        if l.Some? && l.value in s.ent {
          assert At(s1, k) == l && s1.ent[l.value].key == k && s.ent[l.value].key == k;
          assert Visible(s1, l.value);
          assert Visible(s, l.value);
        }
      }
    }
    forall n: nat | n <= s.brk && Newer(b, n) ensures Newer(b2, n) { assert Newer(b1, n); }
  }

  // ---------------------------------------------------------------- lists of saves

  lemma {:induction false} InnerRecord(fs: Frames, e: Save)
    requires Inner(fs).OnTop?
    ensures Inner(Record(fs, e)) == OnTop(Inner(fs).below, Call(Inner(fs).f.fn, AddSave(Inner(fs).f.locals, e)))
    ensures forall id :: Count(Record(fs, e), id) == Count(fs, id)
  {
    if fs.f.Loop? { InnerRecord(fs.below, e); }
  }

  lemma TopInSnoc(es: seq<Save>, e: Save, k: Key)
    ensures TopIn(es + [e], k) == if e.key == k then Some(e.hentry) else TopIn(es, k)
  {
    assert (es + [e])[..|es|] == es;
  }

  lemma {:induction false} BaseInSnoc(es: seq<Save>, e: Save, k: Key)
    ensures BaseIn(es + [e], k) == if BaseIn(es, k).Some? then BaseIn(es, k) else if e.key == k then Some(e.lentry) else None
    decreases |es|
  {
    if es != [] {
      assert (es + [e])[1..] == es[1..] + [e];
      BaseInSnoc(es[1..], e, k);
    } else {
      assert es + [e] == [e];
    }
  }

  lemma AddSaveViews(b: Blocks, e: Save, k: Key)
    ensures Top(AddSave(b, e), k) == if e.key == k then Some(e.hentry) else Top(b, k)
    ensures Base(AddSave(b, e), k) == if Base(b, k).Some? then Base(b, k) else if e.key == k then Some(e.lentry) else None
  {
    if b.NoBlock? || |b.saves| >= LOC_SAV_E {
      NewBlockViews(b, e, k);
    } else {
      TopInSnoc(b.saves, e, k);
      BaseInSnoc(b.saves, e, k);
    }
  }

  lemma NewBlockViews(b: Blocks, e: Save, k: Key)
    ensures Top(Block([e], b), k) == if e.key == k then Some(e.hentry) else Top(b, k)
    ensures Base(Block([e], b), k) == if Base(b, k).Some? then Base(b, k) else if e.key == k then Some(e.lentry) else None
  {
    assert [] + [e] == [e];
    TopInSnoc([], e, k);
    BaseInSnoc([], e, k);
  }

  lemma {:induction false} OlderMono(b: Blocks, m: Ref, n: Ref)
    requires Older(b, m) && m <= n
    ensures Older(b, n)
    decreases b
  {
    if b.Block? { OlderMono(b.next, m, n); }
  }

  lemma AddSaveOlder(b: Blocks, e: Save, n: Ref)
    requires Older(b, n) && e.hentry < n && (e.lentry.Some? ==> e.lentry.value < n)
    ensures Older(AddSave(b, e), n)
  {
  }

  lemma AddSaveNewer(b: Blocks, e: Save, n: Ref)
    requires Newer(b, n) && e.hentry >= n
    ensures Newer(AddSave(b, e), n)
  {
  }

  lemma AddSaveOk(ent: Store, b: Blocks, e: Save)
    requires SavesOk(ent, b) && SaveOk(ent, e) && Older(b, e.hentry)
    requires Top(b, e.key).Some? ==> e.lentry == Top(b, e.key)
    ensures SavesOk(ent, AddSave(b, e))
  {
    var b' := AddSave(b, e);
    if b.NoBlock? || |b.saves| >= LOC_SAV_E {
      assert [e][..0] == [];
      assert TopIn([], e.key).None?;
    } else {
      var es := b.saves + [e];
      assert es[..|b.saves|] == b.saves;
      forall i | 0 <= i < |es| ensures SaveOk(ent, es[i]) && Older(b.next, es[i].hentry) {
        if i < |b.saves| { assert es[i] == b.saves[i]; }
      }
      forall i, j | 0 <= i < j < |es| ensures es[i].hentry < es[j].hentry {
        assert es[i] == b.saves[i];
        if j < |b.saves| { assert es[j] == b.saves[j]; }
      }
      forall i | 0 <= i < |es|
        ensures var t := TopIn(es[..i], es[i].key);
                var below := if t.Some? then t else Top(b.next, es[i].key);
                below.Some? ==> es[i].lentry == below
      {
        if i < |b.saves| { assert es[i] == b.saves[i] && es[..i] == b.saves[..i]; }
      }
    }
  }

  // ---------------------------------------------------------------- statements keep the invariant

  lemma SetValOk(s: State, r: Ref, v: Val)
    requires Good(s) && r in s.ent
    ensures Good(SetVal(s, r, v)) && forall k :: At(SetVal(s, r, v), k) == At(s, k)
  {
    var s' := SetVal(s, r, v);
    TableFrame(s.tab, s.ent, s'.ent);
    SavesFrame(s.ent, s'.ent, MyBlocks(s), s.brk);
  }

  /** An allocation: a fresh entry, not yet linked. */
  lemma AllocOk(s: State, e: Entry)
    requires Good(s)
    ensures var ent' := s.ent[s.brk := e];
            && TableOk(s.tab, ent') && (forall k :: Lookup(s.tab, ent', k) == At(s, k))
            && SavesOk(ent', MyBlocks(s))
            && (forall r | r in s.ent :: r != s.brk)
  {
    var ent' := s.ent[s.brk := e];
    forall i, r | 0 <= i < HSHTABSIZ && r in s.tab[i] ensures r in ent' && ent'[r].key == s.ent[r].key {
      assert r in s.ent;
    }
    TableFrame(s.tab, s.ent, ent');
    SavesFrame(s.ent, ent', MyBlocks(s), s.brk);
  }

  lemma CreateOk(s: State, k: Key, v: Val)
    requires Good(s) && At(s, k) == None
    ensures var s' := Create(s, k, v);
            && TableOk(s'.tab, s'.ent) && At(s', k) == Some(s.brk) && (forall q | q != k :: At(s', q) == At(s, q))
            && SavesOk(s'.ent, MyBlocks(s))
  {
    AllocOk(s, Entry(k, v));
    AddBackOk(s.tab, s.ent[s.brk := Entry(k, v)], s.brk);
  }

  lemma LetNewOk(s: State, k: Key, v: Val)
    requires Good(s) && At(s, k) == None
    ensures var s' := Create(s, k, v); Good(s') && Keeps(s, s', {}) && Grows(s, s', {})
  {
    var s' := Create(s, k, v);
    CreateOk(s, k, v);
    OlderMono(MyBlocks(s), s.brk, s.brk + 1);
    forall q | Top(MyBlocks(s'), q).Some? ensures At(s', q) == Top(MyBlocks(s'), q) {
      assert At(s, q).Some?;
    }
  }

  lemma LetOk(s: State, k: Key, v: Val)
    requires Good(s)
    ensures var s' := Assign(s, k, v); Good(s') && Keeps(s, s', {}) && Grows(s, s', {})
  {
    if At(s, k).Some? {
      SetValOk(s, At(s, k).value, v);
    } else {
      LetNewOk(s, k, v);
    }
  }

  /** LOCAL of a bound name: the new entry takes the place of the old one. */
  lemma ShadowOk(s: State, k: Key, ep: Ref, v: Val)
    requires Good(s) && At(s, k) == Some(ep)
    ensures var ent' := s.ent[s.brk := Entry(k, v)];
            var tab' := Drop(AddFront(s.tab, ent', s.brk), ent', ep);
            && TableOk(tab', ent') && Lookup(tab', ent', k) == Some(s.brk)
            && (forall q | q != k :: Lookup(tab', ent', q) == At(s, q))
  {
    var h, ent' := s.brk, s.ent[s.brk := Entry(k, v)];
    AllocOk(s, Entry(k, v));
    var tab1 := Drop(s.tab, ent', ep);
    DropOk(s.tab, ent', ep);
    AddFrontOk(tab1, ent', h);
    var b := BucketOf(k);
    assert Remove([h] + s.tab[b], ep) == [h] + Remove(s.tab[b], ep) by { assert ([h] + s.tab[b])[1..] == s.tab[b]; }
    assert Drop(AddFront(s.tab, ent', h), ent', ep) == AddFront(tab1, ent', h);
  }

  function SaveFor(s: State, k: Key): Save
    requires |s.tab| == HSHTABSIZ
  {
    Save(k, At(s, k), s.brk)
  }

  lemma LocalParts(s: State, k: Key, d: Dims)
    requires Good(s) && MakeLocal(s, k, d).Ok?
    ensures var s' := MakeLocal(s, k, d).s;
            && TableOk(s'.tab, s'.ent) && At(s', k) == Some(s.brk) && (forall q | q != k :: At(s', q) == At(s, q))
            && SavesOk(s'.ent, MyBlocks(s)) && s'.brk == s.brk + 1 && s'.ncall == s.ncall
            && s'.frames == Record(s.frames, SaveFor(s, k))
            && s'.ent.Keys == s.ent.Keys + {s.brk} && s'.ent[s.brk].key == k
            && (forall r | r in s.ent :: r != s.brk && s'.ent[r] == s.ent[r])
  {
    match At(s, k)
    case None => CreateOk(s, k, NewLocal(k, d));
    case Some(ep) =>
      AllocOk(s, Entry(k, Zeroed(s.ent[ep].val)));
      ShadowOk(s, k, ep, Zeroed(s.ent[ep].val));
  }

  lemma LocalBlocks(s: State, k: Key, d: Dims)
    requires Good(s) && MakeLocal(s, k, d).Ok?
    ensures var s' := MakeLocal(s, k, d).s;
            && MyBlocks(s') == AddSave(MyBlocks(s), SaveFor(s, k))
            && SameActivation(s.frames, s'.frames)
            && (forall id :: Count(s'.frames, id) == Count(s.frames, id))
  {
    LocalParts(s, k, d);
    InnerRecord(s.frames, SaveFor(s, k));
  }

  lemma LocalSaves(s: State, k: Key, d: Dims)
    requires Good(s) && MakeLocal(s, k, d).Ok?
    ensures var s' := MakeLocal(s, k, d).s; SavesOk(s'.ent, MyBlocks(s')) && Older(MyBlocks(s'), s'.brk)
  {
    var e, b := SaveFor(s, k), MyBlocks(s);
    LocalParts(s, k, d);
    LocalBlocks(s, k, d);
    assert SaveOk(MakeLocal(s, k, d).s.ent, e);
    AddSaveOk(MakeLocal(s, k, d).s.ent, b, e);
    OlderMono(b, s.brk, s.brk + 1);
    AddSaveOlder(b, e, s.brk + 1);
  }

  lemma LocalCurrent(s: State, k: Key, d: Dims)
    requires Good(s) && MakeLocal(s, k, d).Ok?
    ensures Current(MakeLocal(s, k, d).s, MyBlocks(MakeLocal(s, k, d).s))
  {
    var s' := MakeLocal(s, k, d).s;
    LocalParts(s, k, d);
    LocalBlocks(s, k, d);
    forall q | Top(MyBlocks(s'), q).Some? ensures At(s', q) == Top(MyBlocks(s'), q) {
      AddSaveViews(MyBlocks(s), SaveFor(s, k), q);
    }
  }

  lemma LocalGood(s: State, k: Key, d: Dims)
    requires Good(s) && MakeLocal(s, k, d).Ok?
    ensures Good(MakeLocal(s, k, d).s)
  {
    LocalParts(s, k, d);
    LocalBlocks(s, k, d);
    LocalSaves(s, k, d);
    LocalCurrent(s, k, d);
  }

  lemma LocalKeeps(s: State, k: Key, d: Dims)
    requires Good(s) && MakeLocal(s, k, d).Ok?
    ensures Keeps(s, MakeLocal(s, k, d).s, {k})
  {
    LocalParts(s, k, d);
    LocalBlocks(s, k, d);
  }

  lemma LocalGrows(s: State, k: Key, d: Dims)
    requires Good(s) && MakeLocal(s, k, d).Ok?
    ensures Grows(s, MakeLocal(s, k, d).s, {k})
  {
    var e, b := SaveFor(s, k), MyBlocks(s);
    LocalParts(s, k, d);
    LocalBlocks(s, k, d);
    forall q
      ensures Base(AddSave(b, e), q) == if Base(b, q).Some? then Base(b, q) else if k == q then Some(At(s, k)) else None
    {
      AddSaveViews(b, e, q);
    }
    forall n: nat | n <= s.brk && Newer(b, n) ensures Newer(AddSave(b, e), n) { AddSaveNewer(b, e, n); }
  }

  // ---------------------------------------------------------------- calls

  lemma {:induction false} SetAllOk(s: State, rs: seq<Ref>, vs: seq<Val>)
    requires Good(s) && |rs| == |vs| && AllLive(rs, s.ent)
    ensures Good(SetAll(s, rs, vs)) && forall k :: At(SetAll(s, rs, vs), k) == At(s, k)
    decreases |rs|
  {
    if rs != [] {
      SetValOk(s, rs[0], vs[0]);
      SetAllOk(SetVal(s, rs[0], vs[0]), rs[1..], vs[1..]);
    }
  }

  lemma {:induction false} SetAllValues(s: State, rs: seq<Ref>, vs: seq<Val>, i: nat)
    requires |rs| == |vs| && AllLive(rs, s.ent) && Distinct(rs) && i < |rs|
    ensures SetAll(s, rs, vs).ent[rs[i]].val == vs[i]
    decreases |rs|
  {
    var s1 := SetVal(s, rs[0], vs[0]);
    forall j | 0 <= j < |rs[1..]| ensures rs[0] != rs[1..][j] { assert rs[0] != rs[j + 1]; }
    if i > 0 {
      forall a, b | 0 <= a < b < |rs[1..]| ensures rs[1..][a] != rs[1..][b] { assert rs[a + 1] != rs[b + 1]; }
      SetAllValues(s1, rs[1..], vs[1..], i - 1);
    }
  }

  lemma EnterOk(s: State, fn: Fn, args: seq<Val>)
    requires Good(s) && |args| == |fn.params| && AllLive(fn.params, s.ent) && Ncall(s, fn.id) < MAX_FCALLS
    ensures Good(Enter(s, fn, args)) && MyBlocks(Enter(s, fn, args)) == NoBlock
    ensures Inner(Enter(s, fn, args).frames) == OnTop(s.frames, Call(fn, NoBlock))
    ensures forall k :: At(Enter(s, fn, args), k) == At(s, k)
  {
    SetAllOk(s, fn.params, args);
    var s1, s2 := SetAll(s, fn.params, args), Enter(s, fn, args);
    forall id ensures Ncall(s2, id) == Count(s2.frames, id) <= MAX_FCALLS {
      assert Ncall(s, id) == Count(s.frames, id);
    }
  }

  /** The body of a call, between `Enter` and `Leave`. */
  ghost predicate RanBody(s: State, fn: Fn, args: seq<Val>, ks: set<Key>, s4: State) {
    && Good(s) && |args| == |fn.params| && AllLive(fn.params, s.ent)
    && Ncall(s, fn.id) < MAX_FCALLS && Distinct(fn.params)
    && Good(s4) && Keeps(Enter(s, fn, args), s4, ks) && Grows(Enter(s, fn, args), s4, ks)
  }

  /** The frame a return finds is the one its call pushed. */
  lemma LeaveFrame(s: State, fn: Fn, args: seq<Val>, ks: set<Key>, s4: State)
    requires RanBody(s, fn, args, ks, s4)
    ensures Inner(s4.frames) == OnTop(s.frames, Call(fn, MyBlocks(s4)))
    ensures Newer(MyBlocks(s4), s.brk)
    ensures forall id :: Ncall(s4, id) == Count(s.frames, id) + (if id == fn.id then 1 else 0)
    ensures forall r | r in s.ent :: r in s4.ent
  {
    EnterOk(s, fn, args);
    assert Newer(NoBlock, s.brk);
    forall id ensures Ncall(s4, id) == Count(s.frames, id) + (if id == fn.id then 1 else 0) {
      InnerCount(s4.frames, id);
      assert Ncall(s4, id) == Count(s4.frames, id);
    }
  }

  ghost function Returning(s: State, fn: Fn, s4: State): State
    requires (forall r | r in fn.params :: r in s.ent && r in s4.ent) && Ncall(s4, fn.id) > 0
  {
    Unlinked(s4, fn, s.frames, Values(s, fn.params))
  }

  /** The only thing that can go wrong in a return is the recovery. */
  lemma LeaveParts(s: State, fn: Fn, args: seq<Val>, ks: set<Key>, s4: State)
    requires RanBody(s, fn, args, ks, s4)
    ensures (forall r | r in fn.params :: r in s.ent && r in s4.ent) && Ncall(s4, fn.id) > 0
    ensures var b, s5 := MyBlocks(s4), Returning(s, fn, s4);
            && Leave(s4, Values(s, fn.params)) == Recover(s5, b)
            && TableOk(s5.tab, s5.ent) && SavesOk(s5.ent, b) && Current(s5, b)
            && (forall k :: At(s5, k) == At(s4, k))
            && (forall id :: Ncall(s5, id) == Count(s.frames, id))
  {
    LeaveFrame(s, fn, args, ks, s4);
    SetAllOk(s4, fn.params, Values(s, fn.params));
    assert Ncall(s4, fn.id) > 0;
    var s1, s5 := SetAll(s4, fn.params, Values(s, fn.params)), Returning(s, fn, s4);
    assert MyBlocks(s1) == MyBlocks(s4);
    assert s5.tab == s1.tab && s5.ent == s1.ent;
    assert forall k :: At(s5, k) == At(s1, k);
  }

  lemma {:induction false} InnerCount(fs: Frames, id: nat)
    ensures Count(fs, id) == Count(Inner(fs), id)
  {
    if fs.OnTop? && fs.f.Loop? { InnerCount(fs.below, id); }
  }

  /** A call whose body ended in `s4` and which then returned to `s'`. */
  ghost predicate Returned(s: State, fn: Fn, args: seq<Val>, ks: set<Key>, s4: State, s': State) {
    RanBody(s, fn, args, ks, s4) && Leave(s4, Values(s, fn.params)) == Ok(s')
  }

  /** Bindings: a localised name goes back to what its first LOCAL shadowed,
      every other one stays as the body left it. */
  lemma ReturnBindings(s: State, fn: Fn, args: seq<Val>, ks: set<Key>, s4: State, s': State)
    requires Returned(s, fn, args, ks, s4, s')
    ensures TableOk(s'.tab, s'.ent) && s'.frames == s.frames && s'.brk == s4.brk
    ensures forall k | Base(MyBlocks(s4), k).Some? :: At(s', k) == Base(MyBlocks(s4), k).value
    ensures forall k | Base(MyBlocks(s4), k).None? :: At(s', k) == At(s4, k)
    ensures forall id :: Ncall(s', id) == Count(s.frames, id)
  {
    LeaveParts(s, fn, args, ks, s4);
    RecoverExactly(Returning(s, fn, s4), MyBlocks(s4));
  }

  /** Entries: those that existed before the call survive it; parameters have
      their old values, the others those the body left. */
  lemma ReturnEntries(s: State, fn: Fn, args: seq<Val>, ks: set<Key>, s4: State, s': State)
    requires Returned(s, fn, args, ks, s4, s')
    ensures forall r | r in s.ent :: r in s'.ent && s'.ent[r].key == s.ent[r].key
    ensures forall r | r in s'.ent :: r in s4.ent && (r !in fn.params ==> s'.ent[r] == s4.ent[r])
    ensures forall r | r in fn.params :: r in s.ent && s'.ent[r].val == s.ent[r].val
  {
    LeaveParts(s, fn, args, ks, s4);
    LeaveFrame(s, fn, args, ks, s4);
    var olds, s5 := Values(s, fn.params), Returning(s, fn, s4);
    RecoverKeeps(s5, MyBlocks(s4), s.brk);
    forall r | r in fn.params ensures s5.ent[r].val == s.ent[r].val {
      var i :| 0 <= i < |fn.params| && fn.params[i] == r;
      SetAllValues(s4, fn.params, olds, i);
    }
  }

  /** Hence a name that was bound before the call is bound to the very same
      entry after it, localised or not. */
  lemma ReturnKeepsBindings(s: State, fn: Fn, args: seq<Val>, ks: set<Key>, s4: State, s': State, k: Key)
    requires Returned(s, fn, args, ks, s4, s') && |s'.tab| == HSHTABSIZ && At(s, k).Some?
    ensures At(s', k) == At(s, k)
  {
    ReturnBindings(s, fn, args, ks, s4, s');
    EnterOk(s, fn, args);
    var s2 := Enter(s, fn, args);
    assert At(s2, k) == At(s, k);
    if Base(MyBlocks(s4), k).Some? {
      assert NewBase(s2, ks, k, Base(MyBlocks(s4), k).value);
    } else {
      assert k !in ks && At(s4, k) == At(s2, k);
    }
  }

  /** And an entry that was shadowed before the call is still, with its value. */
  lemma ReturnKeepsHidden(s: State, fn: Fn, args: seq<Val>, ks: set<Key>, s4: State, s': State, r: Ref)
    requires Returned(s, fn, args, ks, s4, s') && |s'.tab| == HSHTABSIZ && r in s.ent && !Visible(s, r)
    ensures r in s'.ent && !Visible(s', r) && s'.ent[r].val == s.ent[r].val
  {
    ReturnBindings(s, fn, args, ks, s4, s');
    ReturnEntries(s, fn, args, ks, s4, s');
    EnterOk(s, fn, args);
    var s2, k := Enter(s, fn, args), s.ent[r].key;
    assert !Visible(s2, r);
    if Base(MyBlocks(s4), k).Some? {
      assert NewBase(s2, ks, k, Base(MyBlocks(s4), k).value);
    }
  }

  lemma ReturnKeeps(s: State, fn: Fn, args: seq<Val>, ks: set<Key>, s4: State, s': State)
    requires Returned(s, fn, args, ks, s4, s') && |s'.tab| == HSHTABSIZ
    ensures Keeps(s, s', {}) && Grows(s, s', {})
  {
    ReturnBindings(s, fn, args, ks, s4, s');
    ReturnEntries(s, fn, args, ks, s4, s');
    forall k | At(s, k).Some? ensures At(s', k) == At(s, k) { ReturnKeepsBindings(s, fn, args, ks, s4, s', k); }
    forall r | r in s.ent && !Visible(s, r) ensures !Visible(s', r) && s'.ent[r].val == s.ent[r].val {
      ReturnKeepsHidden(s, fn, args, ks, s4, s', r);
    }
  }

  lemma ReturnGood(s: State, fn: Fn, args: seq<Val>, ks: set<Key>, s4: State, s': State)
    requires Returned(s, fn, args, ks, s4, s')
    ensures Good(s')
  {
    ReturnBindings(s, fn, args, ks, s4, s');
    ReturnEntries(s, fn, args, ks, s4, s');
    SavesFrame(s.ent, s'.ent, MyBlocks(s), s.brk);
    OlderMono(MyBlocks(s), s.brk, s'.brk);
    forall k | Top(MyBlocks(s), k).Some? ensures At(s', k) == Top(MyBlocks(s), k) {
      ReturnKeepsBindings(s, fn, args, ks, s4, s', k);
    }
  }

  // ---------------------------------------------------------------- runs

  /** Every statement, and so every run, keeps the invariant and all bindings
      but those its own activation localises. */
  lemma {:induction false} StepOk(s: State, st: Stmt)
    requires Good(s) && Defined(Do(st, Done)) && Step(s, st).Ok?
    ensures var s' := Step(s, st).s;
            Good(s') && Keeps(s, s', LocalNames(Do(st, Done))) && Grows(s, s', LocalNames(Do(st, Done)))
    ensures st.Invoke? ==> Step(s, st).s.frames == s.frames
    decreases st, 1
  {
    match st
    case Let(k, v) => LetOk(s, k, v);
    case LocalStmt(k, d) => LocalGood(s, k, d); LocalKeeps(s, k, d); LocalGrows(s, k, d);
    case OpenLoop => LoopOk(s, OnTop(s.frames, Loop));
    case CloseLoop => LoopOk(s, s.frames.below);
    case Invoke(fn, args, body) => InvokeOk(s, fn, args, body);
  }

  lemma LoopOk(s: State, fs: Frames)
    requires Good(s) && Inner(fs) == Inner(s.frames) && forall id :: Count(fs, id) == Count(s.frames, id)
    ensures var s' := s.(frames := fs); Good(s') && Keeps(s, s', {}) && Grows(s, s', {})
  {
    var s' := s.(frames := fs);
    assert forall k :: At(s', k) == At(s, k);
    assert forall id :: Ncall(s', id) == Ncall(s, id);
  }

  lemma {:induction false} InvokeOk(s: State, fn: Fn, args: seq<Val>, body: Body)
    requires Good(s) && Defined(body) && Distinct(fn.params) && Step(s, Invoke(fn, args, body)).Ok?
    ensures var s' := Step(s, Invoke(fn, args, body)).s; Good(s') && Keeps(s, s', {}) && Grows(s, s', {}) && s'.frames == s.frames
    ensures var s4 := Exec(Enter(s, fn, args), body).s;
            Returned(s, fn, args, LocalNames(body), s4, Step(s, Invoke(fn, args, body)).s)
    decreases body, 2
  {
    var s2 := Enter(s, fn, args);
    EnterOk(s, fn, args);
    ExecOk(s2, body);
    var s4 := Exec(s2, body).s;
    var s', ks := Step(s, Invoke(fn, args, body)).s, LocalNames(body);
    assert Returned(s, fn, args, ks, s4, s');
    ReturnBindings(s, fn, args, ks, s4, s');
    ReturnGood(s, fn, args, ks, s4, s');
    ReturnKeeps(s, fn, args, ks, s4, s');
  }

  lemma {:induction false} ExecOk(s: State, b: Body)
    requires Good(s) && Defined(b) && Exec(s, b).Ok?
    ensures var s' := Exec(s, b).s; Good(s') && Keeps(s, s', LocalNames(b)) && Grows(s, s', LocalNames(b))
    decreases b, 1
  {
    match b
    case Done =>
    case Do(st, rest) =>
      StepOk(s, st);
      var s1 := Step(s, st).s;
      ExecOk(s1, rest);
      var s' := Exec(s, b).s;
      assert LocalNames(b) == LocalNames(Do(st, Done)) + LocalNames(rest);
      KeepsTrans(s, s1, s', LocalNames(Do(st, Done)), LocalNames(rest));
      GrowsTrans(s, s1, s', LocalNames(Do(st, Done)), LocalNames(rest));
  }

  // ---------------------------------------------------------------- what a return restores

  function Append(a: Body, b: Body): Body {
    match a case Done => b case Do(st, rest) => Do(st, Append(rest, b))
  }

  lemma {:induction false} ExecAppend(s: State, a: Body, b: Body)
    requires |s.tab| == HSHTABSIZ
    ensures Exec(s, Append(a, b)) == if Exec(s, a).Ok? then Exec(Exec(s, a).s, b) else Exec(s, a)
    decreases a
  {
    if a.Do? && Step(s, a.first).Ok? { ExecAppend(Step(s, a.first).s, a.rest, b); }
  }

  lemma {:induction false} DefinedAppend(a: Body, b: Body)
    ensures Defined(Append(a, b)) <==> Defined(a) && Defined(b)
    ensures LocalNames(Append(a, b)) == LocalNames(a) + LocalNames(b)
  {
    if a.Do? { DefinedAppend(a.rest, b); }
  }

  /** From the first LOCAL of `k` to the end of the body. */
  lemma FirstLocal(s1: State, k: Key, d: Dims, post: Body)
    requires Good(s1) && Defined(post) && Base(MyBlocks(s1), k).None?
    requires Exec(s1, Do(LocalStmt(k, d), post)).Ok?
    ensures var s4 := Exec(s1, Do(LocalStmt(k, d), post)).s;
            && Base(MyBlocks(s4), k) == Some(At(s1, k))
            && (At(s1, k).Some? ==> At(s1, k).value in s4.ent && s4.ent[At(s1, k).value].val == s1.ent[At(s1, k).value].val)
  {
    var sL := MakeLocal(s1, k, d).s;
    LocalParts(s1, k, d);
    LocalBlocks(s1, k, d);
    LocalGood(s1, k, d);
    AddSaveViews(MyBlocks(s1), SaveFor(s1, k), k);
    ExecOk(sL, post);
    if At(s1, k).Some? { assert !Visible(sL, At(s1, k).value); }
  }

  /** The return theorem. A body runs `pre`, then LOCAL k for the first time,
      then `post`, with calls nested to any depth inside both. After the return
      the frames and call counts are those of before the call; `k` is bound to
      the very entry, with the very value, it had just before its LOCAL (or is
      unbound again), and to the entry of before the call if it had one then;
      parameters have their old values; names not localised are as the body
      left them. */
  lemma CallRestores(s: State, fn: Fn, args: seq<Val>, pre: Body, k: Key, d: Dims, post: Body)
    requires var body := Append(pre, Do(LocalStmt(k, d), post));
             && Good(s) && Defined(body) && Distinct(fn.params) && k !in LocalNames(pre)
             && Step(s, Invoke(fn, args, body)).Ok?
    ensures Exec(Enter(s, fn, args), pre).Ok? && Exec(Enter(s, fn, args), Append(pre, Do(LocalStmt(k, d), post))).Ok?
    ensures var s' := Step(s, Invoke(fn, args, Append(pre, Do(LocalStmt(k, d), post)))).s;
            var s1 := Exec(Enter(s, fn, args), pre).s;
            var s4 := Exec(Enter(s, fn, args), Append(pre, Do(LocalStmt(k, d), post))).s;
            && s'.frames == s.frames && (forall id :: Ncall(s', id) == Ncall(s, id))
            && At(s', k) == At(s1, k) && (At(s, k).Some? ==> At(s', k) == At(s, k))
            && (At(s1, k).Some? && At(s1, k).value !in fn.params ==>
                  s'.ent[At(s1, k).value].val == s1.ent[At(s1, k).value].val)
            && (forall p | p in fn.params :: p in s.ent && p in s'.ent && s'.ent[p].val == s.ent[p].val)
            && (forall q | q !in LocalNames(Append(pre, Do(LocalStmt(k, d), post))) :: At(s', q) == At(s4, q))
            && (forall r | r in s'.ent && r !in fn.params :: r in s4.ent && s'.ent[r] == s4.ent[r])
  {
    var body := Append(pre, Do(LocalStmt(k, d), post));
    var s', ks := Step(s, Invoke(fn, args, body)).s, LocalNames(body);
    SplitBody(s, fn, args, pre, k, d, post);
    InvokeOk(s, fn, args, body);
    var s4 := Exec(Enter(s, fn, args), body).s;
    ReturnBindings(s, fn, args, ks, s4, s');
    ReturnEntries(s, fn, args, ks, s4, s');
    if At(s, k).Some? { ReturnKeepsBindings(s, fn, args, ks, s4, s', k); }
    forall q | q !in ks ensures At(s', q) == At(s4, q) { NotLocalised(s, fn, args, ks, s4, q); }
  }

  lemma NotLocalised(s: State, fn: Fn, args: seq<Val>, ks: set<Key>, s4: State, q: Key)
    requires RanBody(s, fn, args, ks, s4) && q !in ks
    ensures Base(MyBlocks(s4), q).None?
  {
    EnterOk(s, fn, args);
    assert Base(NoBlock, q).None?;
  }

  lemma SplitBody(s: State, fn: Fn, args: seq<Val>, pre: Body, k: Key, d: Dims, post: Body)
    requires var body := Append(pre, Do(LocalStmt(k, d), post));
             && Good(s) && Defined(body) && Distinct(fn.params) && k !in LocalNames(pre)
             && Step(s, Invoke(fn, args, body)).Ok?
    ensures Exec(Enter(s, fn, args), pre).Ok? && Exec(Enter(s, fn, args), Append(pre, Do(LocalStmt(k, d), post))).Ok?
    ensures var s1 := Exec(Enter(s, fn, args), pre).s;
            var s4 := Exec(Enter(s, fn, args), Append(pre, Do(LocalStmt(k, d), post))).s;
            && Base(MyBlocks(s4), k) == Some(At(s1, k))
            && (At(s1, k).Some? ==> At(s1, k).value in s4.ent && s4.ent[At(s1, k).value].val == s1.ent[At(s1, k).value].val)
  {
    var s2 := Enter(s, fn, args);
    ExecAppend(s2, pre, Do(LocalStmt(k, d), post));
    DefinedAppend(pre, Do(LocalStmt(k, d), post));
    EnterOk(s, fn, args);
    ExecOk(s2, pre);
    var s1 := Exec(s2, pre).s;
    assert RanBody(s, fn, args, LocalNames(pre), s1);
    NotLocalised(s, fn, args, LocalNames(pre), s1, k);
    FirstLocal(s1, k, d, post);
  }

  // ---------------------------------------------------------------- when a return is safe

  /** The names a body localises in its own activation, in order. */
  function LocalList(b: Body): seq<Key> {
    if b.Done? then [] else (if b.first.LocalStmt? then [b.first.k] else []) + LocalList(b.rest)
  }

  /** Two LOCALs of one name among the same seven consecutive LOCALs. */
  predicate RepeatsWithinSeven(ks: seq<Key>) {
    exists i, j | 0 <= i < j < |ks| :: ks[i] == ks[j] && i / 7 == j / 7
  }

  function KeysIn(es: seq<Save>): (ks: seq<Key>)
    ensures |ks| == |es| && forall i | 0 <= i < |es| :: ks[i] == es[i].key
  {
    seq(|es|, i requires 0 <= i < |es| => es[i].key)
  }

  function AllKeys(b: Blocks): seq<Key> {
    if b.NoBlock? then [] else AllKeys(b.next) + KeysIn(b.saves)
  }

  /** Every block but the newest is full. */
  predicate Packed(b: Blocks) { b.Block? ==> 1 <= |b.saves| <= 7 && Full(b.next) }

  predicate Full(b: Blocks) { b.Block? ==> |b.saves| == 7 && Full(b.next) }

  lemma {:induction false} FullLength(b: Blocks)
    requires Full(b)
    ensures |AllKeys(b)| % 7 == 0
  {
    if b.Block? { FullLength(b.next); }
  }

  lemma AddSavePacked(b: Blocks, e: Save)
    requires Packed(b)
    ensures Packed(AddSave(b, e)) && AllKeys(AddSave(b, e)) == AllKeys(b) + [e.key]
  {
    var b' := AddSave(b, e);
    if b.NoBlock? || |b.saves| >= LOC_SAV_E {
      assert KeysIn([e]) == [e.key];
    } else {
      assert KeysIn(b.saves + [e]) == KeysIn(b.saves) + [e.key];
    }
  }

  predicate Repeats(ks: seq<Key>) { exists i, j | 0 <= i < j < |ks| :: ks[i] == ks[j] }

  lemma SameGroup(n: nat, i: nat, j: nat)
    requires n % 7 == 0 && i < j < n + 7
    ensures i >= n ==> i / 7 == j / 7
    ensures i < n <= j ==> i / 7 != j / 7
  {
  }

  /** A last group of at most seven behind whole groups of seven. */
  lemma RepeatsAppend(early: seq<Key>, late: seq<Key>)
    requires |early| % 7 == 0 && |late| <= 7
    ensures RepeatsWithinSeven(early + late) <==> RepeatsWithinSeven(early) || Repeats(late)
  {
    var all, n := early + late, |early|;
    if RepeatsWithinSeven(all) {
      var i, j :| 0 <= i < j < |all| && all[i] == all[j] && i / 7 == j / 7;
      SameGroup(n, i, j);
      if j < n { assert early[i] == early[j]; } else { assert late[i - n] == late[j - n]; }
    }
    if RepeatsWithinSeven(early) {
      var i, j :| 0 <= i < j < n && early[i] == early[j] && i / 7 == j / 7;
      assert all[i] == all[j];
    }
    if Repeats(late) {
      var i, j :| 0 <= i < j < |late| && late[i] == late[j];
      SameGroup(n, n + i, n + j);
      assert all[n + i] == all[n + j];
    }
  }

  lemma {:induction false} TwiceIffRepeats(b: Blocks)
    requires Packed(b)
    ensures TwiceInABlock(b) <==> RepeatsWithinSeven(AllKeys(b))
  {
    if b.Block? {
      TwiceIffRepeats(b.next);
      FullLength(b.next);
      RepeatsAppend(AllKeys(b.next), KeysIn(b.saves));
      KeysRepeat(b.saves);
    }
  }

  lemma KeysRepeat(es: seq<Save>)
    ensures Twice(es) <==> Repeats(KeysIn(es))
  {
    if Twice(es) {
      var i, j :| 0 <= i < j < |es| && es[i].key == es[j].key;
      assert KeysIn(es)[i] == KeysIn(es)[j];
    }
  }

  lemma StepNames(s: State, st: Stmt)
    requires Good(s) && Defined(Do(st, Done)) && Step(s, st).Ok?
    ensures MyBlocks(Step(s, st).s) == if st.LocalStmt? then AddSave(MyBlocks(s), SaveFor(s, st.k)) else MyBlocks(s)
  {
    match st
    case LocalStmt(k, d) => LocalBlocks(s, k, d);
    case Invoke(_, _, _) => StepOk(s, st);
    case _ =>
  }

  lemma BlockNames(b: Blocks, b': Blocks, st: Stmt, e: Save, rest: Body)
    requires Packed(b) && b' == (if st.LocalStmt? then AddSave(b, e) else b) && (st.LocalStmt? ==> e.key == st.k)
    ensures Packed(b') && AllKeys(b') + LocalList(rest) == AllKeys(b) + LocalList(Do(st, rest))
  {
    var mine, more := AllKeys(b), LocalList(rest);
    if st.LocalStmt? {
      AddSavePacked(b, e);
      assert (mine + [st.k]) + more == mine + ([st.k] + more);
    } else {
      assert [] + more == more;
    }
  }

  lemma FirstNames(s: State, st: Stmt, rest: Body)
    requires Good(s) && Defined(Do(st, Done)) && Step(s, st).Ok? && Packed(MyBlocks(s))
    ensures Packed(MyBlocks(Step(s, st).s))
    ensures AllKeys(MyBlocks(Step(s, st).s)) + LocalList(rest) == AllKeys(MyBlocks(s)) + LocalList(Do(st, rest))
  {
    var b, b' := MyBlocks(s), MyBlocks(Step(s, st).s);
    StepNames(s, st);
    if st.LocalStmt? {
      BlockNames(b, b', st, SaveFor(s, st.k), rest);
    } else {
      BlockNames(b, b, st, Save(Key("", IntT, Scalar), None, 0), rest);
    }
  }

  /** The saves of an activation are its LOCALs, in order. */
  lemma {:induction false} ExecNames(s: State, b: Body)
    requires Good(s) && Defined(b) && Exec(s, b).Ok? && Packed(MyBlocks(s))
    ensures Packed(MyBlocks(Exec(s, b).s)) && AllKeys(MyBlocks(Exec(s, b).s)) == AllKeys(MyBlocks(s)) + LocalList(b)
    decreases b
  {
    if b.Do? {
      var s1 := Step(s, b.first).s;
      FirstNames(s, b.first, b.rest);
      StepOk(s, b.first);
      ExecNames(s1, b.rest);
    }
  }

  lemma BodyRan(s: State, fn: Fn, args: seq<Val>, body: Body)
    requires Good(s) && Defined(body) && Distinct(fn.params) && |args| == |fn.params|
    requires AllLive(fn.params, s.ent) && Ncall(s, fn.id) < MAX_FCALLS
    requires Exec(Enter(s, fn, args), body).Ok?
    ensures var s4 := Exec(Enter(s, fn, args), body).s;
            && RanBody(s, fn, args, LocalNames(body), s4)
            && Packed(MyBlocks(s4)) && AllKeys(MyBlocks(s4)) == LocalList(body)
  {
    var s2 := Enter(s, fn, args);
    EnterOk(s, fn, args);
    ExecOk(s2, body);
    ExecNames(s2, body);
    assert AllKeys(NoBlock) + LocalList(body) == LocalList(body);
  }

  lemma StepInvoke(s: State, fn: Fn, args: seq<Val>, body: Body)
    requires |s.tab| == HSHTABSIZ && |args| == |fn.params|
    requires AllLive(fn.params, s.ent) && Ncall(s, fn.id) < MAX_FCALLS
    requires Exec(Enter(s, fn, args), body).Ok?
    ensures Step(s, Invoke(fn, args, body)) == Leave(Exec(Enter(s, fn, args), body).s, Values(s, fn.params))
  {
    var o, olds := Exec(Enter(s, fn, args), body), Values(s, fn.params);
    var r := Leave(o.s, olds);
    assert Step(s, Invoke(fn, args, body)) == r;
  }

  lemma LeaveExactly(s: State, fn: Fn, args: seq<Val>, ks: set<Key>, s4: State)
    requires RanBody(s, fn, args, ks, s4)
    ensures Leave(s4, Values(s, fn.params)) == Fault <==> TwiceInABlock(MyBlocks(s4))
    ensures !Leave(s4, Values(s, fn.params)).Err?
  {
    LeaveParts(s, fn, args, ks, s4);
    RecoverExactly(Returning(s, fn, s4), MyBlocks(s4));
  }

  /** Exactly when a return uses freed memory: when its body ran the LOCALs of
      one name twice within the same seven. Anything further apart is safe. */
  lemma ReturnFaultsExactly(s: State, fn: Fn, args: seq<Val>, body: Body)
    requires Good(s) && Defined(body) && Distinct(fn.params) && |args| == |fn.params|
    requires AllLive(fn.params, s.ent) && Ncall(s, fn.id) < MAX_FCALLS
    requires Exec(Enter(s, fn, args), body).Ok?
    ensures Step(s, Invoke(fn, args, body)) == Fault <==> RepeatsWithinSeven(LocalList(body))
    ensures !Step(s, Invoke(fn, args, body)).Err?
  {
    var s4 := Exec(Enter(s, fn, args), body).s;
    StepInvoke(s, fn, args, body);
    BodyRan(s, fn, args, body);
    LeaveExactly(s, fn, args, LocalNames(body), s4);
    TwiceIffRepeats(MyBlocks(s4));
  }

  /** No activation of the run repeats a name within seven, and every function
      called has live parameters. */
  predicate Careful(b: Body, ent: Store) {
    b.Do? ==>
      && (b.first.Invoke? ==>
            && !RepeatsWithinSeven(LocalList(b.first.body)) && Careful(b.first.body, ent)
            && AllLive(b.first.fn.params, ent))
      && Careful(b.rest, ent)
  }

  lemma {:induction false} CarefulGrows(b: Body, ent: Store, ent': Store)
    requires Careful(b, ent) && forall r | r in ent :: r in ent'
    ensures Careful(b, ent')
    decreases b
  {
    if b.Do? {
      CarefulGrows(b.rest, ent, ent');
      if b.first.Invoke? { CarefulGrows(b.first.body, ent, ent'); }
    }
  }

  /** Hence no such run, however deeply its calls nest, ever touches an entry
      after it was freed. */
  lemma {:induction false} CarefulNeverFaults(s: State, b: Body)
    requires Good(s) && Defined(b) && Careful(b, s.ent)
    ensures Exec(s, b) != Fault
    decreases b
  {
    if b.Do? {
      var st := b.first;
      if st.Invoke? && |st.args| == |st.fn.params| && Ncall(s, st.fn.id) < MAX_FCALLS {
        var s2 := Enter(s, st.fn, st.args);
        EnterOk(s, st.fn, st.args);
        CarefulGrows(st.body, s.ent, s2.ent);
        CarefulNeverFaults(s2, st.body);
        if Exec(s2, st.body).Ok? { ReturnFaultsExactly(s, st.fn, st.args, st.body); }
      }
      if Step(s, st).Ok? {
        StepOk(s, st);
        CarefulGrows(b.rest, s.ent, Step(s, st).s.ent);
        CarefulNeverFaults(Step(s, st).s, b.rest);
      }
    }
  }

  /** No activation of the run, at any nesting, repeats a name within seven. */
  predicate Clean(b: Body) {
    b.Do? ==>
      && (b.first.Invoke? ==> !RepeatsWithinSeven(LocalList(b.first.body)) && Clean(b.first.body))
      && Clean(b.rest)
  }

  /** Conversely every run that ends well was clean: for whole runs without an
      error, use of freed memory and repetition within seven are the same. */
  lemma {:induction false} OkIsClean(s: State, b: Body)
    requires Good(s) && Defined(b) && Exec(s, b).Ok?
    ensures Clean(b)
    decreases b
  {
    if b.Do? {
      var st := b.first;
      if st.Invoke? {
        var s2 := Enter(s, st.fn, st.args);
        EnterOk(s, st.fn, st.args);
        OkIsClean(s2, st.body);
        ReturnFaultsExactly(s, st.fn, st.args, st.body);
      }
      StepOk(s, st);
      OkIsClean(Step(s, st).s, b.rest);
    }
  }

  function Start(): State { State(seq(HSHTABSIZ, _ => []), map[], 0, Empty, map[]) }

  /** The state of a fresh interpreter satisfies the invariant. */
  lemma StartGood()
    ensures Good(Start())
  {
  }

  lemma LocalSucceeds(s: State, k: Key)
    requires |s.tab| == HSHTABSIZ && Inner(s.frames).OnTop? && k.kind != Func
    ensures MakeLocal(s, k, None).Ok? && Inner(MakeLocal(s, k, None).s.frames).OnTop?
  {
    InnerRecord(s.frames, SaveFor(s, k));
  }

  lemma TwoNames(k: Key)
    ensures RepeatsWithinSeven(LocalList(Do(LocalStmt(k, None), Do(LocalStmt(k, None), Done))))
  {
    var last := Do(LocalStmt(k, None), Done);
    var body := Do(LocalStmt(k, None), last);
    assert LocalList(Done) == [];
    assert LocalList(last) == [k] + [];
    assert LocalList(body) == [k] + ([k] + []);
    assert LocalList(body)[0] == k && LocalList(body)[1] == k;
  }

  /** The smallest failing input: LOCAL of one name twice in a row. */
  lemma LocalTwiceFaults(s: State, fn: Fn, k: Key)
    requires Good(s) && fn.params == [] && Ncall(s, fn.id) < MAX_FCALLS && k.kind != Func
    ensures Step(s, Invoke(fn, [], Do(LocalStmt(k, None), Do(LocalStmt(k, None), Done)))) == Fault
  {
    var last := Do(LocalStmt(k, None), Done);
    var body := Do(LocalStmt(k, None), last);
    var s2 := Enter(s, fn, []);
    LocalSucceeds(s2, k);
    LocalSucceeds(MakeLocal(s2, k, None).s, k);
    assert Exec(MakeLocal(s2, k, None).s, last).Ok?;
    assert Exec(s2, body).Ok?;
    TwoNames(k);
    ReturnFaultsExactly(s, fn, [], body);
  }

  // ---------------------------------------------------------------- what a body starts with

  /** The body of a call sees its arguments in the parameters; every other entry
      and every binding is as before, and the call is on top of the frames with
      no name localised. */
  lemma ArgumentsSeen(s: State, fn: Fn, args: seq<Val>)
    requires |args| == |fn.params| && AllLive(fn.params, s.ent) && Distinct(fn.params)
    ensures var s' := Enter(s, fn, args);
            && (forall i | 0 <= i < |args| :: fn.params[i] in s'.ent && s'.ent[fn.params[i]].val == args[i])
            && (forall r | r in s.ent && r !in fn.params :: r in s'.ent && s'.ent[r].val == s.ent[r].val)
            && s'.tab == s.tab && s'.frames == OnTop(s.frames, Call(fn, NoBlock))
  {
    forall i | 0 <= i < |args| ensures Enter(s, fn, args).ent[fn.params[i]].val == args[i] {
      SetAllValues(s, fn.params, args, i);
    }
  }

  /** The hundred and first live activation of a function is refused, any earlier
      one goes ahead. */
  lemma CallLimit(s: State, fn: Fn, args: seq<Val>, body: Body)
    requires Good(s) && |args| == |fn.params| && AllLive(fn.params, s.ent)
    ensures Count(s.frames, fn.id) <= 100
    ensures Count(s.frames, fn.id) == 100 ==> Step(s, Invoke(fn, args, body)) == Err(44)
    ensures Count(s.frames, fn.id) < 100 && !Exec(Enter(s, fn, args), body).Ok? ==> Step(s, Invoke(fn, args, body)) == Exec(Enter(s, fn, args), body)
    ensures Count(s.frames, fn.id) < 100 && Exec(Enter(s, fn, args), body).Ok?
            ==> Step(s, Invoke(fn, args, body)) == Leave(Exec(Enter(s, fn, args), body).s, Values(s, fn.params))
  {
    assert Ncall(s, fn.id) == Count(s.frames, fn.id);
    if Count(s.frames, fn.id) < 100 && Exec(Enter(s, fn, args), body).Ok? { StepInvoke(s, fn, args, body); }
  }

  /** A loop frame goes as it came, and only from the top. */
  lemma LoopUndone(s: State)
    requires |s.tab| == HSHTABSIZ
    ensures Step(s, OpenLoop).Ok? && Step(Step(s, OpenLoop).s, CloseLoop) == Ok(s)
    ensures s.frames.Empty? || s.frames.f.Call? ==> Step(s, CloseLoop) == Err(18)
  {
  }
}
