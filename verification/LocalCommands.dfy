/** `blocal` and `recover_vars` on the linked hash table, proved to do what the
    state functions of `Locals` say. */
module LocalCommands {
  import opened Words
  import opened Symbols
  import opened SymbolTable
  import opened Locals

  /** The state `s` describes the table `t`. */
  ghost predicate Shows(t: HashTable, s: State)
    reads t, t.hasht
  {
    t.Valid() && s.tab == t.tab && s.ent == t.Ent()
  }

  /** An allocated entry, in no chain yet. */
  method NewNode(t: HashTable, r: Ref, e: Entry)
    requires t.Valid() && r !in t.heap
    modifies t
    ensures t.Valid() && t.tab == old(t.tab) && t.Ent() == old(t.Ent())[r := e] && r in t.heap && t.heap[r].entry == e
  {
    ChainedFrame(t.heap, t.heap[r := Node(None, e)], t.hasht[..], t.tab);
    t.heap := t.heap[r := Node(None, e)];
    assert t.Ent() == old(t.Ent())[r := e];
  }

  /** One name of a LOCAL statement; `brk` is the entry the allocator hands out.
      Dimensions for an array that exists are a syntax error. */
  method BLocal(t: HashTable, k: Key, d: Dims, brk: Ref, ghost s: State) returns (o: Option<Save>)
    requires Shows(t, s) && s.brk == brk && TableOk(s.tab, s.ent) && brk !in s.ent
    requires Inner(s.frames).OnTop? && k.kind != Func
    modifies t, t.hasht
    ensures o.Some? ==> t.Valid() && MakeLocal(s, k, d) == Ok(State(t.tab, t.Ent(), brk + 1, Record(s.frames, o.value), s.ncall))
    ensures o.None? ==> MakeLocal(s, k, d) == Err(1)
  {
    var ep, np := t.GetNm(k);
    if ep.None? {
      Introduce(t, k, NewLocal(k, d), np, brk, s);
      return Some(Save(k, None, brk));
    }
    if k.kind == Array && d.Some? {
      return None;
    }
    Shadow(t, ep.value, brk, s);
    return Some(Save(k, ep, brk));
  }

  /** A new name is appended to its chain. */
  method Introduce(t: HashTable, k: Key, v: Val, np: Option<Ref>, brk: Ref, ghost s: State)
    requires Shows(t, s) && s.brk == brk && brk !in s.ent
    requires np == (var c := t.tab[BucketOf(k)]; if c == [] then None else Some(c[|c| - 1]))
    modifies t, t.hasht
    ensures t.Valid() && Create(s, k, v) == s.(tab := t.tab, ent := t.Ent(), brk := brk + 1)
  {
    t.NewEntry(k, v, np, brk);
  }

  /** A zeroed duplicate goes in front of the chain, the original leaves it. */
  method Shadow(t: HashTable, ep: Ref, brk: Ref, ghost s: State)
    requires Shows(t, s) && TableOk(s.tab, s.ent) && brk !in s.ent && ep in s.ent
    modifies t, t.hasht
    ensures t.Valid() && t.Ent() == s.ent[brk := Entry(s.ent[ep].key, Zeroed(s.ent[ep].val))]
    ensures t.tab == Drop(AddFront(s.tab, t.Ent(), brk), t.Ent(), ep)
  {
    NotInTable(s, brk);
    NewNode(t, brk, Entry(t.heap[ep].entry.key, Zeroed(t.heap[ep].entry.val)));
    t.AddEntry(brk);
    t.DropVal(ep, false);
  }

  lemma NotInTable(s: State, r: Ref)
    requires TableOk(s.tab, s.ent) && r !in s.ent
    ensures forall i | 0 <= i < HSHTABSIZ :: r !in s.tab[i]
  {
  }

  /** After the drop the name is unbound, so the shadowed entry is in no chain. */
  lemma Unshadowed(s: State, e: Save)
    requires TableOk(s.tab, s.ent) && SaveOk(s.ent, e) && At(s, e.key) == Some(e.hentry)
    ensures var tab1 := Drop(s.tab, s.ent, e.hentry);
            && |tab1| == HSHTABSIZ && (forall i | 0 <= i < HSHTABSIZ :: e.hentry !in tab1[i])
            && (e.lentry.Some? ==> e.lentry.value !in tab1[BucketOf(e.key)] && e.lentry.value != e.hentry)
  {
    DropOk(s.tab, s.ent, e.hentry);
    var tab1 := Drop(s.tab, s.ent, e.hentry);
    if e.lentry.Some? { LookupIff(tab1, s.ent, e.key, e.lentry.value); }
  }

  /** One save undone. */
  method Undo(t: HashTable, e: Save, ghost s: State)
    requires Shows(t, s) && TableOk(s.tab, s.ent) && SaveOk(s.ent, e) && At(s, e.key) == Some(e.hentry)
    modifies t, t.hasht
    ensures RecoverOne(s, e).Ok? && Shows(t, RecoverOne(s, e).s)
  {
    Unshadowed(s, e);
    t.DropVal(e.hentry, false);
    if e.lentry.Some? {
      t.AddEntry(e.lentry.value);
    }
    t.Free(e.hentry);
  }

  /** The inner loop of `recover_vars`, oldest save first. */
  method UndoBlock(t: HashTable, es: seq<Save>, ghost s: State)
    requires Shows(t, s) && Ready(s, es)
    modifies t, t.hasht
    ensures RecoverBlock(s, es).Ok? && Shows(t, RecoverBlock(s, es).s)
  {
    var i := 0;
    ghost var now := s;
    assert es[0..] == es;
    while i < |es|
      invariant 0 <= i <= |es| && Shows(t, now) && Ready(now, es[i..])
      invariant RecoverBlock(s, es) == RecoverBlock(now, es[i..])
    {
      assert es[i..][0] == es[i] && es[i..][1..] == es[i + 1..];
      ReadyRest(now, es[i..]);
      Undo(t, es[i], now);
      now := RecoverOne(now, es[i]).s;
      i := i + 1;
    }
    assert es[i..] == [];
  }

  /** `recover_vars(sptr, 1)`: never touches a freed entry when no block holds a
      name twice. */
  method RecoverVars(t: HashTable, b: Blocks, ghost s: State)
    requires Shows(t, s) && TableOk(s.tab, s.ent) && SavesOk(s.ent, b) && Current(s, b) && !TwiceInABlock(b)
    modifies t, t.hasht
    ensures Recover(s, b).Ok? && Shows(t, Recover(s, b).s)
  {
    var ls := b;
    ghost var now := s;
    while ls.Block?
      invariant Shows(t, now) && TableOk(now.tab, now.ent) && SavesOk(now.ent, ls) && Current(now, ls) && !TwiceInABlock(ls)
      invariant Recover(s, b) == Recover(now, ls)
      decreases ls
    {
      ReadyBlock(now, ls);
      UndoBlock(t, ls.saves, now);
      ghost var next := RecoverBlock(now, ls.saves).s;
      AfterBlock(now, ls, next);
      OlderSavesOk(now, ls, next);
      now := next;
      ls := ls.next;
    }
  }
}
