/** The hash table itself: 37 chain heads and link fields, walked and relinked
    in place. Entries live at addresses of an explicit store. */
module SymbolTable {
  import opened Words
  import opened Symbols

  /** An entry with its link field. */
  datatype Node = Node(link: Option<Ref>, entry: Entry)

  type Heap = map<Ref, Node>

  /** Following links from `first` visits exactly the entries of `c`. */
  predicate Linked(h: Heap, first: Option<Ref>, c: Chain)
    decreases |c|
  {
    if c == [] then first == None
    else first == Some(c[0]) && c[0] in h && Linked(h, h[c[0]].link, c[1..])
  }

  predicate NoDup(c: Chain) { forall i, j | 0 <= i < j < |c| :: c[i] != c[j] }

  function Entries(h: Heap): (ent: Store)
    ensures ent.Keys == h.Keys && forall r | r in h :: ent[r] == h[r].entry
  {
    map r | r in h :: h[r].entry
  }

  lemma {:induction false} LinkedFrame(h: Heap, h': Heap, first: Option<Ref>, c: Chain)
    requires Linked(h, first, c) && forall r | r in c && r in h :: r in h' && h'[r].link == h[r].link
    ensures Linked(h', first, c)
    decreases |c|
  {
    if c != [] { LinkedFrame(h, h', h[c[0]].link, c[1..]); }
  }

  /** Storing `x` into the link of the last entry visited replaces the rest of
      the chain by one that starts at `x`. */
  lemma {:induction false} LinkedSplice(h: Heap, h': Heap, first: Option<Ref>, pre: Chain, rest: Chain, rest': Chain)
    requires Linked(h, first, pre + rest) && pre != [] && NoDup(pre)
    requires forall r | r in pre && r in h :: r in h' && (r != pre[|pre| - 1] ==> h'[r].link == h[r].link)
    requires pre[|pre| - 1] in h' && Linked(h', h'[pre[|pre| - 1]].link, rest')
    ensures Linked(h', first, pre + rest')
    decreases |pre|
  {
    assert (pre + rest)[1..] == pre[1..] + rest && (pre + rest')[1..] == pre[1..] + rest';
    if |pre| == 1 {
      assert pre[1..] + rest' == rest';
    } else {
      assert pre[0] != pre[|pre| - 1];
      assert pre[1..][|pre| - 2] == pre[|pre| - 1];
      LinkedSplice(h, h', h[pre[0]].link, pre[1..], rest, rest');
    }
  }

  lemma {:induction false} RemoveAbsent(c: Chain, r: Ref)
    requires r !in c
    ensures Remove(c, r) == c
    decreases |c|
  {
    if c != [] { RemoveAbsent(c[1..], r); }
  }

  lemma {:induction false} RemoveIn(c: Chain, r: Ref, q: Ref)
    requires q in Remove(c, r)
    ensures q in c
    decreases |c|
  {
    if c[0] != r && q != c[0] { RemoveIn(c[1..], r, q); }
  }

  /** The whole table: every chain is linked, without repetition, and holds
      entries of its bucket only. */
  predicate Chained(h: Heap, heads: seq<Option<Ref>>, tab: Tab) {
    && |heads| == HSHTABSIZ && |tab| == HSHTABSIZ
    && (forall i | 0 <= i < HSHTABSIZ :: Linked(h, heads[i], tab[i]) && NoDup(tab[i]))
    && (forall i, r | 0 <= i < HSHTABSIZ && r in tab[i] :: r in h && BucketOf(h[r].entry.key) == i)
  }

  /** A change confined to bucket `b`: links of other chains are untouched. */
  lemma OneBucket(h: Heap, heads: seq<Option<Ref>>, tab: Tab, h': Heap, first: Option<Ref>, b: nat, c: Chain)
    requires Chained(h, heads, tab) && b < HSHTABSIZ
    requires forall r | r in h :: r in h' && h'[r].entry == h[r].entry
    requires forall r | r in h && BucketOf(h[r].entry.key) != b :: h'[r].link == h[r].link
    requires Linked(h', first, c) && NoDup(c) && forall r | r in c :: r in h' && BucketOf(h'[r].entry.key) == b
    ensures Chained(h', heads[b := first], tab[b := c])
  {
    forall i | 0 <= i < HSHTABSIZ && i != b ensures Linked(h', heads[i], tab[i]) { LinkedFrame(h, h', heads[i], tab[i]); }
  }

  lemma AppendLinked(h: Heap, h': Heap, first: Option<Ref>, c: Chain, r: Ref)
    requires Linked(h, first, c) && NoDup(c) && r !in c && r in h' && h'[r].link == None
    requires forall q | q in c :: q in h && q in h' && (q != c[|c| - 1] ==> h'[q].link == h[q].link)
    requires c != [] ==> h'[c[|c| - 1]].link == Some(r)
    ensures Linked(h', if c == [] then Some(r) else first, c + [r]) && NoDup(c + [r])
  {
    assert Linked(h', Some(r), [r]) by { assert [r][1..] == []; }
    if c == [] {
      assert c + [r] == [r];
    } else {
      assert c + [] == c;
      LinkedSplice(h, h', first, c, [], [r]);
    }
  }

  lemma {:induction false} UnlinkLinked(h: Heap, h': Heap, first: Option<Ref>, c: Chain, n: nat)
    requires Linked(h, first, c) && NoDup(c) && n < |c|
    requires forall q | q in c :: q in h && q in h' && ((n > 0 && q == c[n - 1]) || h'[q].link == h[q].link)
    requires n > 0 ==> h'[c[n - 1]].link == h[c[n]].link
    ensures Linked(h', if n == 0 then h[c[n]].link else first, Remove(c, c[n]))
    decreases |c|
  {
    var t := c[1..];
    assert forall i | 0 <= i < |t| :: t[i] == c[i + 1];
    if n == 0 {
      LinkedFrame(h, h', h[c[0]].link, t);
    } else {
      assert c[0] != c[n];
      if n > 1 { assert c[0] != c[n - 1]; }
      UnlinkLinked(h, h', h[c[0]].link, t, n - 1);
      assert ([c[0]] + Remove(t, c[n]))[1..] == Remove(t, c[n]);
    }
  }

  lemma {:induction false} RemoveNoDup(c: Chain, r: Ref)
    requires NoDup(c)
    ensures NoDup(Remove(c, r))
    decreases |c|
  {
    if c != [] && c[0] != r {
      var t := c[1..];
      RemoveNoDup(t, r);
      var d := Remove(t, r);
      forall j | 0 <= j < |d| ensures d[j] != c[0] {
        RemoveIn(t, r, d[j]);
        var i :| 0 <= i < |t| && t[i] == d[j];
        assert c[0] != c[i + 1];
      }
    }
  }

  lemma ChainedFrame(h: Heap, h': Heap, heads: seq<Option<Ref>>, tab: Tab)
    requires Chained(h, heads, tab)
    requires forall i, r | 0 <= i < HSHTABSIZ && r in tab[i] :: r in h' && h'[r] == h[r]
    ensures Chained(h', heads, tab)
  {
    forall i | 0 <= i < HSHTABSIZ ensures Linked(h', heads[i], tab[i]) { LinkedFrame(h, h', heads[i], tab[i]); }
  }

  /** An entry removed from a chain without repetition is not in it. */
  lemma {:induction false} Gone(c: Chain, r: Ref)
    requires NoDup(c)
    ensures r !in Remove(c, r)
  {
    if c != [] {
      var t := c[1..];
      assert forall i | 0 <= i < |t| :: t[i] == c[i + 1];
      if c[0] == r {
        forall i | 0 <= i < |t| ensures t[i] != r { assert c[0] != c[i + 1]; }
      } else {
        Gone(t, r);
      }
    }
  }

  class HashTable {
    var heap: Heap
    const hasht: array<Option<Ref>>
    ghost var tab: Tab

    ghost predicate Valid()
      reads this, hasht
    {
      Chained(heap, hasht[..], tab)
    }

    ghost function Ent(): Store
      reads this
    {
      Entries(heap)
    }

    constructor ()
      ensures Valid() && heap == map[] && tab == seq(HSHTABSIZ, _ => []) && fresh(hasht)
    {
      hasht := new Option<Ref>[HSHTABSIZ](_ => None);
      heap := map[];
      tab := seq(HSHTABSIZ, _ => []);
    }

    /** The walk of `getnm`: the entry of that key, if any, and the last entry
        visited before it (or at the end of the chain). */
    method GetNm(k: Key) returns (found: Option<Ref>, np: Option<Ref>)
      requires Valid()
      ensures found == Lookup(tab, Ent(), k)
      ensures found.None? ==> np == (var c := tab[BucketOf(k)]; if c == [] then None else Some(c[|c| - 1]))
    {
      var b := BucketOf(k);
      var ep := hasht[b];
      np := None;
      ghost var c, n := tab[b], 0;
      while ep.Some?
        invariant 0 <= n <= |c| && Linked(heap, ep, c[n..])
        invariant np == if n == 0 then None else Some(c[n - 1])
        invariant Find(Ent(), c, k) == Find(Ent(), c[n..], k)
        decreases |c| - n
      {
        assert ep.value == c[n] && c[n..][1..] == c[n + 1..];
        if heap[ep.value].entry.key == k {
          return ep, np;
        }
        np := ep;
        ep := heap[ep.value].link;
        n := n + 1;
      }
      assert c[n..] == [];
      found := None;
    }

    /** `new_entry` after a failed walk: appended to its chain. */
    method NewEntry(k: Key, v: Val, np: Option<Ref>, r: Ref)
      requires Valid() && r !in heap
      requires np == (var c := tab[BucketOf(k)]; if c == [] then None else Some(c[|c| - 1]))
      modifies this, hasht
      ensures Valid() && Ent() == old(Ent())[r := Entry(k, v)] && tab == AddBack(old(tab), Ent(), r)
      ensures heap[r].link == None && (np.Some? ==> np.value in heap && heap[np.value].link == Some(r))
      ensures np.None? ==> hasht[BucketOf(k)] == Some(r)
    {
      var b := BucketOf(k);
      ghost var c, h0, heads := tab[b], heap, hasht[..];
      heap := heap[r := Node(None, Entry(k, v))];
      if np.None? {
        hasht[b] := Some(r);
      } else {
        heap := heap[np.value := heap[np.value].(link := Some(r))];
      }
      AppendLinked(h0, heap, heads[b], c, r);
      OneBucket(h0, heads, tab, heap, if np.None? then Some(r) else heads[b], b, c + [r]);
      assert hasht[..] == heads[b := if np.None? then Some(r) else heads[b]];
      tab := tab[b := c + [r]];
      assert Ent() == old(Ent())[r := Entry(k, v)];
    }

    /** `add_entry`: pushed in front of its chain. */
    method AddEntry(r: Ref)
      requires Valid() && r in heap && r !in tab[BucketOf(heap[r].entry.key)]
      modifies this, hasht
      ensures Valid() && Ent() == old(Ent()) && tab == AddFront(old(tab), Ent(), r)
      ensures hasht[BucketOf(heap[r].entry.key)] == Some(r) && heap[r].link == old(hasht[BucketOf(heap[r].entry.key)])
    {
      var b := BucketOf(heap[r].entry.key);
      ghost var c, h0, heads := tab[b], heap, hasht[..];
      heap := heap[r := heap[r].(link := hasht[b])];
      hasht[b] := Some(r);
      LinkedFrame(h0, heap, heads[b], c);
      assert ([r] + c)[1..] == c;
      OneBucket(h0, heads, tab, heap, Some(r), b, [r] + c);
      assert hasht[..] == heads[b := Some(r)];
      tab := tab[b := [r] + c];
      assert Ent() == old(Ent());
    }

    /** `drop_val`: unlinked from its chain if it is there, and then freed if
        asked for. */
    method DropVal(dap: Ref, tofree: bool)
      requires Valid() && dap in heap
      modifies this, hasht
      ensures Valid() && tab == Drop(old(tab), old(Ent()), dap)
      ensures var there := dap in old(tab)[BucketOf(old(heap)[dap].entry.key)];
              Ent() == if there && tofree then old(Ent()) - {dap} else old(Ent())
    {
      var i := BucketOf(heap[dap].entry.key);
      var ep := hasht[i];
      var np: Option<Ref> := None;
      ghost var c, n := tab[i], 0;
      while ep.Some?
        invariant 0 <= n <= |c| && Linked(heap, ep, c[n..]) && dap !in c[..n]
        invariant np == if n == 0 then None else Some(c[n - 1])
        invariant heap == old(heap) && tab == old(tab) && hasht[..] == old(hasht[..])
        decreases |c| - n
      {
        assert ep.value == c[n] && c[n..][1..] == c[n + 1..];
        if ep.value == dap {
          Unlink(i, np, dap, n);
          if tofree {
            Gone(c, dap);
            Free(dap);
          }
          return;
        }
        np := ep;
        ep := heap[ep.value].link;
        n := n + 1;
      }
      assert c[..n] == c;
      RemoveAbsent(c, dap);
      assert tab[i := c] == tab;
    }

    /** `mfree` of an entry that is in no chain. */
    method Free(r: Ref)
      requires Valid() && forall i | 0 <= i < HSHTABSIZ :: r !in tab[i]
      modifies this
      ensures Valid() && tab == old(tab) && Ent() == old(Ent()) - {r}
    {
      ChainedFrame(heap, heap - {r}, hasht[..], tab);
      heap := heap - {r};
      assert Ent() == old(Ent()) - {r};
    }

    /** `getname` for a variable: the bound entry, or a new one with value `v`. */
    method GetName(k: Key, v: Val, r: Ref) returns (e: Ref)
      requires Valid() && r !in heap
      modifies this, hasht
      ensures Valid() && (tab, Ent()) == ApplyTab(old(tab), old(Ent()), Define(k, r, v))
      ensures var o := Lookup(old(tab), old(Ent()), k); e == if o.Some? then o.value else r
    {
      var found, np := GetNm(k);
      if found.Some? {
        return found.value;
      }
      NewEntry(k, v, np, r);
      return r;
    }

    /** `getname` where a function may be meant: a function of that name and of
        the right sort, procedure or not, comes first, then the variable, then
        a new variable. */
    method GetNameFn(k: Key, proc: bool, procs: set<Ref>, v: Val, r: Ref) returns (e: Ref, isFn: bool)
      requires Valid() && TableOk(tab, Ent()) && k.kind != Func && r !in heap
      modifies this, hasht
      ensures var f := Lookup(old(tab), old(Ent()), k.(kind := Func));
              && Valid() && (isFn <==> f.Some? && (f.value in procs) == proc)
              && (isFn ==> e == f.value && tab == old(tab) && Ent() == old(Ent()))
              && (!isFn ==> (tab, Ent()) == ApplyTab(old(tab), old(Ent()), Define(k, r, v)))
              && (!isFn ==> var o := Lookup(old(tab), old(Ent()), k); e == if o.Some? then o.value else r)
    {
      var b, fk := BucketOf(k), k.(kind := Func);
      var ep, np: Option<Ref>, xap: Option<Ref> := hasht[b], None, None;
      ghost var c, n := tab[b], 0;
      while ep.Some?
        invariant 0 <= n <= |c| && Linked(heap, ep, c[n..])
        invariant np == if n == 0 then None else Some(c[n - 1])
        invariant xap.Some? ==> xap.value in c && Ent()[xap.value].key == k
        invariant xap.None? ==> forall i | 0 <= i < n :: Ent()[c[i]].key != k
        invariant forall i | 0 <= i < n :: Ent()[c[i]].key == fk ==> (c[i] in procs) != proc
        decreases |c| - n
      {
        assert ep.value == c[n] && c[n..][1..] == c[n + 1..];
        var key := heap[ep.value].entry.key;
        if key == fk {
          if (ep.value in procs) == proc {
            FindIff(Ent(), c, fk, ep.value);
            return ep.value, true;
          }
        } else if key == k {
          xap := ep;
        }
        np := ep;
        ep := heap[ep.value].link;
        n := n + 1;
      }
      assert c[n..] == [];
      if xap.Some? {
        FindIff(Ent(), c, k, xap.value);
        return xap.value, false;
      }
      NewEntry(k, v, np, r);
      return r, false;
    }

    method Unlink(i: nat, np: Option<Ref>, dap: Ref, ghost n: nat)
      requires Valid() && dap in heap && i == BucketOf(heap[dap].entry.key)
      requires n < |tab[i]| && tab[i][n] == dap
      requires np == if n == 0 then None else Some(tab[i][n - 1])
      modifies this, hasht
      ensures Valid() && Ent() == old(Ent()) && tab == Drop(old(tab), Ent(), dap)
    {
      ghost var c, h0, heads := tab[i], heap, hasht[..];
      if np.None? {
        hasht[i] := heap[dap].link;
      } else {
        heap := heap[np.value := heap[np.value].(link := heap[dap].link)];
      }
      ghost var first := if np.None? then h0[dap].link else heads[i];
      UnlinkLinked(h0, heap, heads[i], c, n);
      RemoveNoDup(c, dap);
      forall r | r in Remove(c, dap) ensures r in c { RemoveIn(c, dap, r); }
      OneBucket(h0, heads, tab, heap, first, i, Remove(c, dap));
      assert hasht[..] == heads[i := first];
      tab := tab[i := Remove(c, dap)];
      assert Ent() == old(Ent());
    }
  }

  // ---------------------------------------------------------------- the table as a map

  /** Operations of the interpreter on the table: define a name, unlink an
      entry, relink one. */
  datatype TableOp = Define(k: Key, r: Ref, v: Val) | Unbind(r: Ref) | Rebind(r: Ref)

  /** What the callers guarantee: addresses of new entries are unused, and an
      entry is relinked only while its name is unbound. */
  predicate Allowed(tab: Tab, ent: Store, op: TableOp)
    requires |tab| == HSHTABSIZ
  {
    match op
    case Define(k, r, _) => r !in ent
    case Unbind(r) => r in ent
    case Rebind(r) => r in ent && Lookup(tab, ent, ent[r].key) == None
  }

  function ApplyTab(tab: Tab, ent: Store, op: TableOp): (Tab, Store)
    requires |tab| == HSHTABSIZ && Allowed(tab, ent, op)
  {
    match op
    case Define(k, r, v) =>
      if Lookup(tab, ent, k).Some? then (tab, ent)
      else (AddBack(tab, ent[r := Entry(k, v)], r), ent[r := Entry(k, v)])
    case Unbind(r) => (Drop(tab, ent, r), ent)
    case Rebind(r) => (AddFront(tab, ent, r), ent)
  }

  function ApplyMap(m: map<Key, Ref>, ent: Store, op: TableOp): map<Key, Ref> {
    match op
    case Define(k, r, _) => if k in m then m else m[k := r]
    case Unbind(r) => if r in ent && ent[r].key in m && m[ent[r].key] == r then m - {ent[r].key} else m
    case Rebind(r) => if r in ent then m[ent[r].key := r] else m
  }

  ghost predicate TableRun(tab: Tab, ent: Store, ops: seq<TableOp>, tab': Tab, ent': Store)
    requires |tab| == HSHTABSIZ
    decreases |ops|
  {
    if ops == [] then tab' == tab && ent' == ent
    else
      Allowed(tab, ent, ops[0]) &&
      var (t1, e1) := ApplyTab(tab, ent, ops[0]);
      TableRun(t1, e1, ops[1..], tab', ent')
  }

  /** The store next to the map: only a definition of an unbound key adds to it. */
  function ApplyStore(m: map<Key, Ref>, ent: Store, op: TableOp): Store {
    if op.Define? && op.k !in m then ent[op.r := Entry(op.k, op.v)] else ent
  }

  /** The run on the finite map alone, without any chain. */
  function MapRun(m: map<Key, Ref>, ent: Store, ops: seq<TableOp>): map<Key, Ref>
    decreases |ops|
  {
    if ops == [] then m else MapRun(ApplyMap(m, ent, ops[0]), ApplyStore(m, ent, ops[0]), ops[1..])
  }

  lemma DefineRefinesMap(m: map<Key, Ref>, tab: Tab, ent: Store, op: TableOp)
    requires TableOk(tab, ent) && Looks(tab, ent, m) && Allowed(tab, ent, op) && op.Define?
    ensures var (t1, e1) := ApplyTab(tab, ent, op);
            TableOk(t1, e1) && Looks(t1, e1, ApplyMap(m, ent, op)) && e1 == ApplyStore(m, ent, op)
  {
    assert Lookup(tab, ent, op.k) == if op.k in m then Some(m[op.k]) else None;
    if op.k !in m {
      var e1 := ent[op.r := Entry(op.k, op.v)];
      TableFrame(tab, ent, e1);
      AddBackOk(tab, e1, op.r);
    }
  }

  lemma UnbindRefinesMap(m: map<Key, Ref>, tab: Tab, ent: Store, r: Ref)
    requires TableOk(tab, ent) && Looks(tab, ent, m) && r in ent
    ensures TableOk(Drop(tab, ent, r), ent) && Looks(Drop(tab, ent, r), ent, ApplyMap(m, ent, Unbind(r)))
  {
    assert Lookup(tab, ent, ent[r].key) == if ent[r].key in m then Some(m[ent[r].key]) else None;
    DropOk(tab, ent, r);
  }

  lemma RebindRefinesMap(m: map<Key, Ref>, tab: Tab, ent: Store, r: Ref)
    requires TableOk(tab, ent) && Looks(tab, ent, m) && r in ent && Lookup(tab, ent, ent[r].key) == None
    ensures TableOk(AddFront(tab, ent, r), ent) && Looks(AddFront(tab, ent, r), ent, ApplyMap(m, ent, Rebind(r)))
  {
    AddFrontOk(tab, ent, r);
  }

  /** Each operation on the chains is the operation on the map. */
  lemma OpRefinesMap(m: map<Key, Ref>, tab: Tab, ent: Store, op: TableOp)
    requires TableOk(tab, ent) && Looks(tab, ent, m) && Allowed(tab, ent, op)
    ensures var (t1, e1) := ApplyTab(tab, ent, op);
            TableOk(t1, e1) && Looks(t1, e1, ApplyMap(m, ent, op)) && e1 == ApplyStore(m, ent, op)
  {
    match op
    case Define(_, _, _) => DefineRefinesMap(m, tab, ent, op);
    case Unbind(r) => UnbindRefinesMap(m, tab, ent, r);
    case Rebind(r) => RebindRefinesMap(m, tab, ent, r);
  }

  /** Over every sequence of operations the chains answer every lookup as a
      finite map would, keys stay unique and each entry stays in its bucket. */
  lemma {:induction false} RunRefinesMap(m: map<Key, Ref>, tab: Tab, ent: Store, ops: seq<TableOp>, tab': Tab, ent': Store)
    requires TableOk(tab, ent) && Looks(tab, ent, m) && TableRun(tab, ent, ops, tab', ent')
    ensures TableOk(tab', ent') && Looks(tab', ent', MapRun(m, ent, ops))
    decreases |ops|
  {
    if ops != [] {
      OpRefinesMap(m, tab, ent, ops[0]);
      var (t1, e1) := ApplyTab(tab, ent, ops[0]);
      RunRefinesMap(ApplyMap(m, ent, ops[0]), t1, e1, ops[1..], tab', ent');
    }
  }
}
