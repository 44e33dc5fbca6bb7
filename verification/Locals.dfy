/** LOCAL, multi-line function calls and returns: saving, shadowing and
    restoring the entries of the symbol table through the frame stack. */
module Locals {
  import opened Words
  import opened Symbols

  const LOC_SAV_E: nat := 7
  const MAX_FCALLS: nat := 100

  // ---------------------------------------------------------------- state

  /** One LOCAL: the entry it shadowed, if any, and the entry it installed.
      `key` is auxiliary, the key of both. */
  datatype Save = Save(key: Key, lentry: Option<Ref>, hentry: Ref)

  /** `fnLOCAL`: blocks of up to seven saves, the newest block first, the oldest
      save of a block first. */
  datatype Blocks = NoBlock | Block(saves: seq<Save>, next: Blocks)

  /** A user function; its parameters are entries, fixed when it was defined. */
  datatype Fn = Fn(id: nat, params: seq<Ref>)

  datatype Frame = Loop | Call(fn: Fn, locals: Blocks)

  /** The frame stack from `estack` down. */
  datatype Frames = Empty | OnTop(below: Frames, f: Frame)

  datatype State = State(tab: Tab, ent: Store, brk: Ref, frames: Frames, ncall: map<nat, nat>)

  /** `error(code)` leaves through longjmp; `Fault` is the use of freed memory. */
  datatype Out = Ok(s: State) | Err(code: nat) | Fault

  function At(s: State, k: Key): Option<Ref>
    requires |s.tab| == HSHTABSIZ
  {
    Lookup(s.tab, s.ent, k)
  }

  /** The frames from the innermost function frame down. */
  function Inner(fs: Frames): (a: Frames)
    ensures a.OnTop? ==> a.f.Call?
  {
    if fs.OnTop? && fs.f.Loop? then Inner(fs.below) else fs
  }

  function Count(fs: Frames, id: nat): nat {
    if fs.Empty? then 0
    else (if fs.f.Call? && fs.f.fn.id == id then 1 else 0) + Count(fs.below, id)
  }

  function Ncall(s: State, id: nat): nat { if id in s.ncall then s.ncall[id] else 0 }

  function ZeroOf(k: Key): Val { if k.kind == Array then Cells([10], seq(10, _ => 0)) else Cell(0) }

  /** The value of a new local: a scalar, or an array of the dimensions given in
      the statement or of the default one. */
  function NewLocal(k: Key, d: Dims): Val {
    if k.kind == Array && d.Some? then Cells(d.value, seq(Volume(d.value), _ => 0)) else ZeroOf(k)
  }

  /** The dimensions in a LOCAL statement, if any, as `dim_one` accepted them. */
  type Dims = Option<seq<nat>>

  function Volume(dims: seq<nat>): nat { if dims == [] then 1 else dims[0] * Volume(dims[1..]) }

  function Zeroed(v: Val): Val {
    match v case Cell(_) => Cell(0) case Cells(dims, xs) => Cells(dims, seq(|xs|, _ => 0))
  }

  // ---------------------------------------------------------------- statements

  function SetVal(s: State, r: Ref, v: Val): State
    requires r in s.ent
  {
    s.(ent := s.ent[r := s.ent[r].(val := v)])
  }

  /** `new_entry`: a fresh entry at the end of its chain. */
  function Create(s: State, k: Key, v: Val): State
    requires |s.tab| == HSHTABSIZ
  {
    var ent' := s.ent[s.brk := Entry(k, v)];
    s.(ent := ent', tab := AddBack(s.tab, ent', s.brk), brk := s.brk + 1)
  }

  /** Assignment through `getname`, which defines a missing variable. */
  function Assign(s: State, k: Key, v: Val): State
    requires |s.tab| == HSHTABSIZ
  {
    match At(s, k) case Some(r) => SetVal(s, r, v) case None => Create(s, k, v)
  }

  function AddSave(b: Blocks, e: Save): Blocks {
    if b.NoBlock? || |b.saves| >= LOC_SAV_E then Block([e], b) else Block(b.saves + [e], b.next)
  }

  function Record(fs: Frames, e: Save): Frames {
    match fs
    case Empty => Empty
    case OnTop(below, Loop) => OnTop(Record(below, e), Loop)
    case OnTop(below, Call(fn, b)) => OnTop(below, Call(fn, AddSave(b, e)))
  }

  /** `blocal` for one name. The branch for functions is dead in the source:
      `getnm` does not return one here. */
  function MakeLocal(s: State, k: Key, d: Dims): Out
    requires |s.tab| == HSHTABSIZ
  {
    if Inner(s.frames).Empty? then Err(54)
    else if k.kind == Func then Err(2)
    else match At(s, k)
      case None =>
        var s1 := Create(s, k, NewLocal(k, d));
        Ok(s1.(frames := Record(s.frames, Save(k, None, s.brk))))
      case Some(ep) =>
        if k.kind == Array && d.Some? then Err(1)
        else
          var h := s.brk;
          var ent' := s.ent[h := Entry(k, Zeroed(s.ent[ep].val))];
          var tab' := Drop(AddFront(s.tab, ent', h), ent', ep);
          Ok(State(tab', ent', h + 1, Record(s.frames, Save(k, Some(ep), h)), s.ncall))
  }

  /** Every number of a value is zero, in the given shape. */
  predicate AllZero(v: Val, d: Dims) {
    match v
    case Cell(x) => x == 0 && d.None?
    case Cells(dims, xs) => d == Some(dims) && forall i | 0 <= i < |xs| :: xs[i] == 0
  }

  function ShapeOf(v: Val): Dims { match v case Cell(_) => None case Cells(dims, _) => Some(dims) }

  function Extent(v: Val): nat { match v case Cell(_) => 1 case Cells(_, xs) => |xs| }

  /** What a local starts as: a new entry, bound to the name, all zero, with the
      shape of the entry it shadows or of its declaration; the shadowed entry
      and all others keep their values. */
  lemma LocalStartsZero(s: State, k: Key, d: Dims)
    requires |s.tab| == HSHTABSIZ && s.brk !in s.ent && MakeLocal(s, k, d).Ok?
    ensures var s', was := MakeLocal(s, k, d).s, At(s, k);
            && s.brk in s'.ent && s'.ent[s.brk].key == k
            && (was.Some? ==> AllZero(s'.ent[s.brk].val, ShapeOf(s.ent[was.value].val)) && Extent(s'.ent[s.brk].val) == Extent(s.ent[was.value].val))
            && (was.None? && k.kind == Scalar ==> s'.ent[s.brk].val == Cell(0))
            && (was.None? && k.kind == Array ==> AllZero(s'.ent[s.brk].val, if d.Some? then d else Some([10])))
            && (was.None? && k.kind == Array ==> Extent(s'.ent[s.brk].val) == if d.Some? then Volume(d.value) else 10)
            && forall r | r in s.ent :: r in s'.ent && s'.ent[r] == s.ent[r]
  {
  }

  lemma {:induction false} VolumeAppend(a: seq<nat>, b: seq<nat>)
    ensures Volume(a + b) == Volume(a) * Volume(b)
  {
    if a == [] {
      assert a + b == b;
    } else {
      assert (a + b)[0] == a[0] && (a + b)[1..] == a[1..] + b;
      VolumeAppend(a[1..], b);
      assert a[0] * (Volume(a[1..]) * Volume(b)) == a[0] * Volume(a[1..]) * Volume(b);
    }
  }

  /** An assignment: the name is bound, to its entry if it had one, and holds the
      value; every other entry and binding is as it was. */
  lemma AssignSets(s: State, k: Key, v: Val)
    requires TableOk(s.tab, s.ent) && s.brk !in s.ent
    ensures var s', r := Assign(s, k, v), if At(s, k).Some? then At(s, k).value else s.brk;
            && |s'.tab| == HSHTABSIZ && At(s', k) == Some(r) && r in s'.ent && s'.ent[r].val == v
            && (forall q | q in s.ent && q != r :: q in s'.ent && s'.ent[q] == s.ent[q])
            && (forall j | j != k :: At(s', j) == At(s, j))
  {
    if At(s, k).Some? {
      TableFrame(s.tab, s.ent, SetVal(s, At(s, k).value, v).ent);
    } else {
      var ent' := s.ent[s.brk := Entry(k, v)];
      TableFrame(s.tab, s.ent, ent');
      AddBackOk(s.tab, ent', s.brk);
    }
  }

  // ---------------------------------------------------------------- recovery

  /** One save: drop the local entry, relink the shadowed one, free the local
      one; each needs its entry to be live. */
  function RecoverOne(s: State, e: Save): Out
    requires |s.tab| == HSHTABSIZ
  {
    if e.hentry !in s.ent then Fault
    else
      var tab1 := Drop(s.tab, s.ent, e.hentry);
      if e.lentry.Some? && e.lentry.value !in s.ent then Fault
      else
        var tab2 := if e.lentry.Some? then AddFront(tab1, s.ent, e.lentry.value) else tab1;
        Ok(s.(tab := tab2, ent := s.ent - {e.hentry}))
  }

  function RecoverBlock(s: State, es: seq<Save>): (o: Out)
    requires |s.tab| == HSHTABSIZ
    ensures o.Ok? ==> |o.s.tab| == HSHTABSIZ && o.s.ent.Keys <= s.ent.Keys
    ensures o.Ok? ==> o.s.frames == s.frames && o.s.ncall == s.ncall && o.s.brk == s.brk
    decreases |es|
  {
    if es == [] then Ok(s)
    else
      var o := RecoverOne(s, es[0]);
      if !o.Ok? then o else RecoverBlock(o.s, es[1..])
  }

  /** `recover_vars(sptr, 1)`. */
  function Recover(s: State, b: Blocks): (o: Out)
    requires |s.tab| == HSHTABSIZ
    ensures o.Ok? ==> |o.s.tab| == HSHTABSIZ && o.s.ent.Keys <= s.ent.Keys
    ensures o.Ok? ==> o.s.frames == s.frames && o.s.ncall == s.ncall && o.s.brk == s.brk
    decreases b
  {
    match b
    case NoBlock => Ok(s)
    case Block(es, next) =>
      var o := RecoverBlock(s, es);
      if !o.Ok? then o else Recover(o.s, next)
  }

  // ---------------------------------------------------------------- what the saves of an activation look like

  function TopIn(es: seq<Save>, k: Key): (o: Option<Ref>)
    ensures o.Some? <==> exists i | 0 <= i < |es| :: es[i].key == k
    decreases |es|
  {
    if es == [] then None
    else if es[|es| - 1].key == k then Some(es[|es| - 1].hentry)
    else TopIn(es[..|es| - 1], k)
  }

  /** The entry the latest LOCAL of `k` installed. */
  function Top(b: Blocks, k: Key): Option<Ref> {
    match b
    case NoBlock => None
    case Block(es, next) => if TopIn(es, k).Some? then TopIn(es, k) else Top(next, k)
  }

  function BaseIn(es: seq<Save>, k: Key): Option<Option<Ref>>
    decreases |es|
  {
    if es == [] then None else if es[0].key == k then Some(es[0].lentry) else BaseIn(es[1..], k)
  }

  /** What the first LOCAL of `k` shadowed. */
  function Base(b: Blocks, k: Key): Option<Option<Ref>> {
    match b
    case NoBlock => None
    case Block(es, next) => if Base(next, k).Some? then Base(next, k) else BaseIn(es, k)
  }

  predicate Twice(es: seq<Save>) { exists i, j | 0 <= i < j < |es| :: es[i].key == es[j].key }

  /** Some block holds two saves of one name. */
  predicate TwiceInABlock(b: Blocks) { b.Block? && (Twice(b.saves) || TwiceInABlock(b.next)) }

  /** All entries of the saves are older than `n`. */
  predicate Older(b: Blocks, n: Ref) {
    b.Block? ==>
      && (forall i | 0 <= i < |b.saves| :: b.saves[i].hentry < n && (b.saves[i].lentry.Some? ==> b.saves[i].lentry.value < n))
      && Older(b.next, n)
  }

  predicate Newer(b: Blocks, n: Ref) {
    b.Block? ==> (forall i | 0 <= i < |b.saves| :: b.saves[i].hentry >= n) && Newer(b.next, n)
  }

  predicate SaveOk(ent: Store, e: Save) {
    && e.hentry in ent && ent[e.hentry].key == e.key
    && (e.lentry.Some? ==> e.lentry.value in ent && ent[e.lentry.value].key == e.key && e.lentry.value < e.hentry)
  }

  /** Entries are live and of the right name, installed in increasing order, and
      each save shadows what the previous one of its name installed. */
  predicate SavesOk(ent: Store, b: Blocks) {
    b.Block? ==>
      && (forall i | 0 <= i < |b.saves| :: SaveOk(ent, b.saves[i]) && Older(b.next, b.saves[i].hentry))
      && (forall i, j | 0 <= i < j < |b.saves| :: b.saves[i].hentry < b.saves[j].hentry)
      && (forall i | 0 <= i < |b.saves| ::
            var t := TopIn(b.saves[..i], b.saves[i].key);
            var below := if t.Some? then t else Top(b.next, b.saves[i].key);
            below.Some? ==> b.saves[i].lentry == below)
      && SavesOk(ent, b.next)
  }

  /** Every name localised by the activation is bound to its latest entry. */
  ghost predicate Current(s: State, b: Blocks)
    requires |s.tab| == HSHTABSIZ
  {
    forall k :: Top(b, k).Some? ==> At(s, k) == Top(b, k)
  }

  lemma {:induction false} SavesFrame(ent: Store, ent': Store, b: Blocks, n: Ref)
    requires SavesOk(ent, b) && Older(b, n)
    requires forall r | r in ent && r < n :: r in ent' && ent'[r].key == ent[r].key
    ensures SavesOk(ent', b)
    decreases b
  {
    if b.Block? { SavesFrame(ent, ent', b.next, n); }
  }

  lemma {:induction false} BaseIffTop(b: Blocks, k: Key)
    ensures Base(b, k).Some? <==> Top(b, k).Some?
    decreases b
  {
    if b.Block? { BaseIffTop(b.next, k); BaseInIff(b.saves, k); }
  }

  lemma {:induction false} BaseInIff(es: seq<Save>, k: Key)
    ensures BaseIn(es, k).Some? <==> TopIn(es, k).Some?
    ensures forall i | 0 <= i < |es| && es[i].key == k && (forall j | 0 <= j < i :: es[j].key != k) :: BaseIn(es, k) == Some(es[i].lentry)
    decreases |es|
  {
    if es != [] {
      var t := es[1..];
      BaseInIff(t, k);
      assert forall i | 0 <= i < |t| :: t[i] == es[i + 1];
      if TopIn(t, k).Some? {
        var i :| 0 <= i < |t| && t[i].key == k;
        assert es[i + 1].key == k;
      }
      forall i | 0 <= i < |es| && es[i].key == k && (forall j | 0 <= j < i :: es[j].key != k)
        ensures BaseIn(es, k) == Some(es[i].lentry)
      {
        if i > 0 {
          assert es[0].key != k;
          assert t[i - 1].key == k;
        }
      }
    }
  }

  // ---------------------------------------------------------------- recovery restores, or faults

  /** A block without repetition, with what is under it. */
  ghost predicate Ready(s: State, es: seq<Save>)
    requires |s.tab| == HSHTABSIZ
  {
    && TableOk(s.tab, s.ent)
    && !Twice(es)
    && (forall i | 0 <= i < |es| :: SaveOk(s.ent, es[i]) && At(s, es[i].key) == Some(es[i].hentry))
    && (forall i, j | 0 <= i < j < |es| :: es[i].hentry != es[j].hentry)
  }

  /** What one save of a block achieves. */
  lemma RecoverOneOk(s: State, e: Save)
    requires TableOk(s.tab, s.ent) && SaveOk(s.ent, e) && At(s, e.key) == Some(e.hentry)
    ensures var o := RecoverOne(s, e);
            && o.Ok? && TableOk(o.s.tab, o.s.ent) && o.s.ent == s.ent - {e.hentry}
            && At(o.s, e.key) == e.lentry
            && forall k | k != e.key :: At(o.s, k) == At(s, k)
  {
    var tab1 := Drop(s.tab, s.ent, e.hentry);
    DropOk(s.tab, s.ent, e.hentry);
    var tab2 := if e.lentry.Some? then AddFront(tab1, s.ent, e.lentry.value) else tab1;
    if e.lentry.Some? { AddFrontOk(tab1, s.ent, e.lentry.value); }
    var ent' := s.ent - {e.hentry};
    forall i, r | 0 <= i < HSHTABSIZ && r in tab2[i] ensures r in ent' && ent'[r].key == s.ent[r].key {
      assert r in s.ent && r != e.hentry;
    }
    TableFrame(tab2, s.ent, ent');
  }

  lemma NotTwice(es: seq<Save>, i: nat, j: nat)
    requires !Twice(es) && i < |es| && j < |es| && es[i].key == es[j].key
    ensures i == j
  {
  }

  lemma ReadyRest(s: State, es: seq<Save>)
    requires |s.tab| == HSHTABSIZ && Ready(s, es) && es != []
    ensures RecoverOne(s, es[0]).Ok? && Ready(RecoverOne(s, es[0]).s, es[1..])
    ensures TopIn(es[1..], es[0].key).None?
  {
    var e, t := es[0], es[1..];
    RecoverOneOk(s, e);
    var s1 := RecoverOne(s, e).s;
    forall i | 0 <= i < |t|
      ensures t[i].key != e.key && SaveOk(s1.ent, t[i]) && At(s1, t[i].key) == Some(t[i].hentry)
    {
      assert t[i] == es[i + 1];
      assert es[0].key != es[i + 1].key;
    }
    assert !Twice(t) by {
      forall i, j | 0 <= i < j < |t| ensures t[i].key != t[j].key {
        assert es[i + 1].key != es[j + 1].key;
      }
    }
    forall i, j | 0 <= i < j < |t| ensures t[i].hentry != t[j].hentry {
      assert es[i + 1].hentry != es[j + 1].hentry;
    }
  }

  lemma TopInTail(es: seq<Save>, k: Key)
    requires es != [] && TopIn(es, k).None?
    ensures es[0].key != k && TopIn(es[1..], k).None?
  {
    forall i | 0 <= i < |es[1..]| ensures es[1..][i].key != k { assert es[i + 1].key != k; }
  }

  lemma {:induction false} RecoverBlockOk(s: State, es: seq<Save>)
    requires |s.tab| == HSHTABSIZ && Ready(s, es)
    ensures var o := RecoverBlock(s, es);
            && o.Ok? && TableOk(o.s.tab, o.s.ent)
            && (forall i | 0 <= i < |es| :: At(o.s, es[i].key) == es[i].lentry)
            && (forall k | TopIn(es, k).None? :: At(o.s, k) == At(s, k))
    decreases |es|
  {
    if es != [] {
      var e, t := es[0], es[1..];
      ReadyRest(s, es);
      RecoverOneOk(s, e);
      var s1 := RecoverOne(s, e).s;
      RecoverBlockOk(s1, t);
      var s' := RecoverBlock(s, es).s;
      assert At(s', e.key) == At(s1, e.key);
      forall i | 0 <= i < |es| ensures At(s', es[i].key) == es[i].lentry {
        if i > 0 { assert t[i - 1] == es[i]; }
      }
      forall k | TopIn(es, k).None? ensures At(s', k) == At(s, k) {
        TopInTail(es, k);
      }
    }
  }

  /** A block frees its own entries and changes no others. */
  lemma {:induction false} RecoverBlockKeeps(s: State, es: seq<Save>, n: Ref)
    requires |s.tab| == HSHTABSIZ && (forall i | 0 <= i < |es| :: es[i].hentry >= n) && RecoverBlock(s, es).Ok?
    ensures forall r | r in s.ent && r < n :: r in RecoverBlock(s, es).s.ent
    ensures forall r | r in RecoverBlock(s, es).s.ent :: r in s.ent && RecoverBlock(s, es).s.ent[r] == s.ent[r]
    decreases |es|
  {
    if es != [] { RecoverBlockKeeps(RecoverOne(s, es[0]).s, es[1..], n); }
  }

  /** Once an entry is gone, a save that shadows it cannot be undone. */
  lemma {:induction false} GoneFaults(s: State, es: seq<Save>, r: Ref, j: nat)
    requires |s.tab| == HSHTABSIZ && j < |es| && r !in s.ent && es[j].lentry == Some(r)
    ensures RecoverBlock(s, es) == Fault
    decreases |es|
  {
    if j > 0 && RecoverOne(s, es[0]).Ok? {
      GoneFaults(RecoverOne(s, es[0]).s, es[1..], r, j - 1);
    }
  }

  lemma {:induction false} RepeatFaults(s: State, es: seq<Save>, i: nat, j: nat)
    requires |s.tab| == HSHTABSIZ && i < j < |es| && es[j].lentry == Some(es[i].hentry)
    ensures RecoverBlock(s, es) == Fault
    decreases |es|
  {
    var o := RecoverOne(s, es[0]);
    if o.Ok? {
      if i == 0 {
        GoneFaults(o.s, es[1..], es[0].hentry, j - 1);
      } else {
        RepeatFaults(o.s, es[1..], i - 1, j - 1);
      }
    }
  }

  lemma {:induction false} TopInIndex(es: seq<Save>, k: Key) returns (i: nat)
    requires TopIn(es, k).Some?
    ensures i < |es| && es[i].key == k && TopIn(es, k) == Some(es[i].hentry)
    ensures forall j | i < j < |es| :: es[j].key != k
    decreases |es|
  {
    if es[|es| - 1].key == k {
      i := |es| - 1;
    } else {
      i := TopInIndex(es[..|es| - 1], k);
    }
  }

  lemma TwiceFaults(s: State, b: Blocks)
    requires |s.tab| == HSHTABSIZ && b.Block? && SavesOk(s.ent, b) && Twice(b.saves)
    ensures RecoverBlock(s, b.saves) == Fault
  {
    var es := b.saves;
    var i, j :| 0 <= i < j < |es| && es[i].key == es[j].key;
    assert es[..j][i].key == es[j].key;
    var i' := TopInIndex(es[..j], es[j].key);
    RepeatFaults(s, es, i', j);
  }

  lemma ReadyBlock(s: State, b: Blocks)
    requires TableOk(s.tab, s.ent) && b.Block? && SavesOk(s.ent, b) && Current(s, b) && !Twice(b.saves)
    ensures Ready(s, b.saves)
  {
    var es := b.saves;
    forall i | 0 <= i < |es|
      ensures At(s, es[i].key) == Some(es[i].hentry)
    {
      var i' := TopInIndex(es, es[i].key);
      NotTwice(es, i, i');
      assert Top(b, es[i].key) == Some(es[i].hentry);
    }
  }

  /** What is left for the older blocks after the newest one is undone. */
  lemma OlderSavesOk(s: State, b: Blocks, s1: State)
    requires |s.tab| == HSHTABSIZ && b.Block? && SavesOk(s.ent, b) && RecoverBlock(s, b.saves) == Ok(s1)
    ensures SavesOk(s1.ent, b.next)
  {
    if b.saves == [] {
      assert s1 == s;
    } else {
      var n := b.saves[0].hentry;
      forall i | 0 <= i < |b.saves| ensures b.saves[i].hentry >= n {
        if i > 0 { assert b.saves[0].hentry < b.saves[i].hentry; }
      }
      RecoverBlockKeeps(s, b.saves, n);
      SavesFrame(s.ent, s1.ent, b.next, n);
    }
  }

  /** The only save of a name in a block shadows what lies under the block. */
  lemma OnlySave(ent: Store, b: Blocks, i: nat)
    requires b.Block? && SavesOk(ent, b) && !Twice(b.saves) && i < |b.saves|
    ensures Top(b.next, b.saves[i].key).Some? ==> b.saves[i].lentry == Top(b.next, b.saves[i].key)
    ensures BaseIn(b.saves, b.saves[i].key) == Some(b.saves[i].lentry)
  {
    var k, pre := b.saves[i].key, b.saves[..i];
    forall j | 0 <= j < i ensures b.saves[j].key != k { }
    assert forall j | 0 <= j < |pre| :: pre[j].key != k;
    assert TopIn(pre, k).None?;
    BaseInIff(b.saves, k);
  }

  /** A name saved once in the block goes back to what it shadowed. */
  lemma BlockKey(s: State, b: Blocks, s1: State, k: Key)
    requires |s.tab| == HSHTABSIZ && b.Block? && SavesOk(s.ent, b) && Ready(s, b.saves)
    requires RecoverBlock(s, b.saves) == Ok(s1) && TopIn(b.saves, k).Some?
    ensures Top(b.next, k).Some? ==> At(s1, k) == Top(b.next, k)
    ensures BaseIn(b.saves, k) == Some(At(s1, k))
  {
    RecoverBlockOk(s, b.saves);
    var i := TopInIndex(b.saves, k);
    OnlySave(s.ent, b, i);
  }

  lemma AfterBlock(s: State, b: Blocks, s1: State)
    requires TableOk(s.tab, s.ent) && b.Block? && SavesOk(s.ent, b) && Current(s, b) && !Twice(b.saves)
    requires RecoverBlock(s, b.saves) == Ok(s1)
    ensures TableOk(s1.tab, s1.ent) && Current(s1, b.next)
    ensures forall k | TopIn(b.saves, k).None? :: At(s1, k) == At(s, k)
    ensures forall k | TopIn(b.saves, k).Some? :: BaseIn(b.saves, k) == Some(At(s1, k))
  {
    ReadyBlock(s, b);
    RecoverBlockOk(s, b.saves);
    forall k | TopIn(b.saves, k).Some?
      ensures Top(b.next, k).Some? ==> At(s1, k) == Top(b.next, k)
      ensures BaseIn(b.saves, k) == Some(At(s1, k))
    {
      BlockKey(s, b, s1, k);
    }
    forall k | Top(b.next, k).Some? ensures At(s1, k) == Top(b.next, k) {
      if TopIn(b.saves, k).None? { assert At(s, k) == Top(b, k); }
    }
  }

  /** The exact condition for a return to work: it uses freed memory if and only
      if some block of seven saves holds two of one name. When it works, every
      localised name is bound again to the very entry its first LOCAL shadowed,
      or unbound, and every other name is as it was. */
  lemma {:induction false} RecoverExactly(s: State, b: Blocks)
    requires TableOk(s.tab, s.ent) && SavesOk(s.ent, b) && Current(s, b)
    ensures Recover(s, b) == Fault <==> TwiceInABlock(b)
    ensures !Recover(s, b).Err?
    ensures var o := Recover(s, b);
            o.Ok? ==>
              && TableOk(o.s.tab, o.s.ent)
              && (forall k | Base(b, k).Some? :: At(o.s, k) == Base(b, k).value)
              && (forall k | Base(b, k).None? :: At(o.s, k) == At(s, k))
    decreases b
  {
    if b.Block? {
      if Twice(b.saves) {
        TwiceFaults(s, b);
      } else {
        ReadyBlock(s, b);
        RecoverBlockOk(s, b.saves);
        var s1 := RecoverBlock(s, b.saves).s;
        AfterBlock(s, b, s1);
        OlderSavesOk(s, b, s1);
        RecoverExactly(s1, b.next);
        forall k ensures BaseIn(b.saves, k).Some? <==> TopIn(b.saves, k).Some? { BaseInIff(b.saves, k); }
      }
    }
  }

  /** Recovery only frees the entries that LOCAL installed. */
  lemma {:induction false} RecoverKeeps(s: State, b: Blocks, n: Ref)
    requires |s.tab| == HSHTABSIZ && Newer(b, n) && Recover(s, b).Ok?
    ensures forall r | r in s.ent && r < n :: r in Recover(s, b).s.ent
    ensures forall r | r in Recover(s, b).s.ent :: r in s.ent && Recover(s, b).s.ent[r] == s.ent[r]
    decreases b
  {
    if b.Block? {
      RecoverBlockKeeps(s, b.saves, n);
      RecoverKeeps(RecoverBlock(s, b.saves).s, b.next, n);
    }
  }
}
