/** `ch_clear` of bas1.c: before a chained program starts, every hash chain is
    divided in place into the entries to keep and those that `clear_htab` then
    frees. */
module ChainClear {
  import opened Words
  import opened Symbols
  import opened SymbolTable

  /** The entries of a chain in (or not in) a set, in order. */
  function Only(c: Chain, s: set<Ref>, within: bool): Chain {
    if c == [] then [] else if (c[0] in s) == within then [c[0]] + Only(c[1..], s, within) else Only(c[1..], s, within)
  }

  lemma {:induction false} OnlySnoc(c: Chain, r: Ref, s: set<Ref>, within: bool)
    ensures Only(c + [r], s, within) == if (r in s) == within then Only(c, s, within) + [r] else Only(c, s, within)
  {
    if c == [] {
      assert c + [r] == [r] && [r][1..] == [];
    } else {
      assert (c + [r])[0] == c[0] && (c + [r])[1..] == c[1..] + [r];
      OnlySnoc(c[1..], r, s, within);
    }
  }

  lemma {:induction false} OnlyMembers(c: Chain, s: set<Ref>, within: bool, r: Ref)
    ensures r in Only(c, s, within) <==> r in c && (r in s) == within
  {
    if c != [] {
      OnlyMembers(c[1..], s, within, r);
      assert r in c <==> r == c[0] || r in c[1..];
    }
  }

  lemma {:induction false} OnlyNoDup(c: Chain, s: set<Ref>, within: bool)
    requires NoDup(c)
    ensures NoDup(Only(c, s, within))
  {
    if c != [] {
      var t := c[1..];
      assert forall i | 0 <= i < |t| :: t[i] == c[i + 1];
      OnlyNoDup(t, s, within);
      var d := Only(t, s, within);
      forall j | 0 <= j < |d| ensures d[j] != c[0] {
        OnlyMembers(t, s, within, d[j]);
      }
    }
  }

  /** Each entry goes to exactly one of the two parts. */
  lemma {:induction false} OnlyConserves(c: Chain, s: set<Ref>)
    ensures multiset(c) == multiset(Only(c, s, true)) + multiset(Only(c, s, false))
  {
    if c != [] {
      OnlyConserves(c[1..], s);
      assert c == [c[0]] + c[1..];
    }
  }

  ghost predicate Separate(a: Chain, b: Chain) { forall r | r in a :: r !in b }

  /** Only links of entries of `c` were written. */
  ghost predicate LinksOnly(h: Heap, h': Heap, c: Chain) {
    h'.Keys == h.Keys && forall r | r in h :: h'[r].entry == h[r].entry && (r !in c ==> h'[r].link == h[r].link)
  }

  /** A list being built: its first entry and its last cell. */
  datatype Tail = Tail(first: Option<Ref>, last: Option<Ref>)

  ghost predicate Built(h: Heap, t: Tail, c: Chain) {
    && Linked(h, t.first, c) && NoDup(c) && LiveHeap(h, c)
    && t.last == (if c == [] then None else Some(c[|c| - 1]))
  }

  ghost predicate LiveHeap(h: Heap, c: Chain) { forall r | r in c :: r in h }

  /** Storing through the pointer to the last cell: the chain head at first, then the
      link of the last entry. */
  method Append(h: Heap, t: Tail, r: Ref, ghost c: Chain) returns (h': Heap, t': Tail)
    requires Built(h, t, c) && r in h && r !in c && h[r].link == None
    ensures Built(h', t', c + [r]) && LinksOnly(h, h', c)
  {
    h' := h;
    if t.last.None? {
      t' := Tail(Some(r), Some(r));
    } else {
      h' := h[t.last.value := h[t.last.value].(link := Some(r))];
      t' := Tail(t.first, Some(r));
    }
    AppendLinked(h, h', t.first, c, r);
  }

  lemma BuiltFrame(h: Heap, h': Heap, t: Tail, c: Chain, touched: Chain)
    requires Built(h, t, c) && LinksOnly(h, h', touched) && Separate(c, touched)
    ensures Built(h', t, c)
  {
    LinkedFrame(h, h', t.first, c);
  }

  /** Moves the first entry of what is left of a chain to the end of list `t`;
      the other list `o` stays. */
  method Move(h: Heap, r: Ref, t: Tail, ghost a: Chain, ghost o: Tail, ghost b: Chain, ghost rest: Chain)
    returns (h': Heap, t': Tail, ep: Option<Ref>)
    requires Linked(h, Some(r), [r] + rest) && Built(h, t, a) && Built(h, o, b)
    requires r !in a && r !in b && r !in rest && Separate(b, a) && Separate(rest, a)
    ensures Linked(h', ep, rest) && Built(h', t', a + [r]) && Built(h', o, b) && LinksOnly(h, h', a + [r])
  {
    assert ([r] + rest)[1..] == rest;
    ep := h[r].link;
    var h1 := h[r := h[r].(link := None)];
    LinkedFrame(h, h1, ep, rest);
    BuiltFrame(h, h1, t, a, [r]);
    BuiltFrame(h, h1, o, b, [r]);
    h', t' := Append(h1, t, r, a);
    BuiltFrame(h1, h', o, b, a);
    LinkedFrame(h1, h', ep, rest);
  }

  /** One chain divided: the entries to keep and those to free, both in order. */
  method Divide(h: Heap, first: Option<Ref>, kept: set<Ref>, ghost c: Chain) returns (h': Heap, freed: Option<Ref>, keep: Option<Ref>)
    requires Linked(h, first, c) && NoDup(c) && LiveHeap(h, c)
    ensures Linked(h', keep, Only(c, kept, true)) && Linked(h', freed, Only(c, kept, false))
    ensures LinksOnly(h, h', c)
  {
    h' := h;
    var ep := first;
    var ft, kt := Tail(None, None), Tail(None, None);
    ghost var n := 0;
    ghost var f: Chain, k: Chain := [], [];
    while ep.Some?
      invariant n <= |c| && Linked(h', ep, c[n..]) && LinksOnly(h, h', c)
      invariant f == Only(c[..n], kept, false) && k == Only(c[..n], kept, true)
      invariant Built(h', ft, f) && Built(h', kt, k)
      decreases |c| - n
    {
      var r := ep.value;
      Position(c, n, kept);
      if r !in kept {
        h', ft, ep := Move(h', r, ft, f, kt, k, c[n + 1..]);
        f := f + [r];
      } else {
        h', kt, ep := Move(h', r, kt, k, ft, f, c[n + 1..]);
        k := k + [r];
      }
      n := n + 1;
    }
    assert c[..n] == c;
    freed, keep := ft.first, kt.first;
  }

  /** Where the entries are when entry `n` is reached. */
  lemma Position(c: Chain, n: nat, kept: set<Ref>)
    requires NoDup(c) && n <= |c|
    ensures n < |c| ==>
              var f, k, rest := Only(c[..n], kept, false), Only(c[..n], kept, true), c[n + 1..];
              && c[n..] == [c[n]] + rest && c[n] !in f && c[n] !in k && c[n] !in rest
              && Separate(f, k) && Separate(k, f) && Separate(rest, f) && Separate(rest, k)
              && (forall r | r in f || r in k :: r in c)
              && Only(c[..n + 1], kept, false) == (if c[n] in kept then f else f + [c[n]])
              && Only(c[..n + 1], kept, true) == (if c[n] in kept then k + [c[n]] else k)
  {
    if n < |c| {
      assert c[..n + 1] == c[..n] + [c[n]];
      OnlySnoc(c[..n], c[n], kept, false);
      OnlySnoc(c[..n], c[n], kept, true);
      forall r ensures r in Only(c[..n], kept, false) <==> r in c[..n] && r !in kept { OnlyMembers(c[..n], kept, false, r); }
      forall r ensures r in Only(c[..n], kept, true) <==> r in c[..n] && r in kept { OnlyMembers(c[..n], kept, true, r); }
    }
  }

  // ---------------------------------------------------------------- the table afterwards

  function Kept(tab: Tab, kept: set<Ref>): Tab { seq(|tab|, i requires 0 <= i < |tab| => Only(tab[i], kept, true)) }

  /** The kept entries, and no others, are found under their names as before. */
  lemma KeptLookup(tab: Tab, ent: Store, kept: set<Ref>, k: Key)
    requires TableOk(tab, ent)
    ensures TableOk(Kept(tab, kept), ent)
    ensures var o := Lookup(tab, ent, k); Lookup(Kept(tab, kept), ent, k) == if o.Some? && o.value in kept then o else None
  {
    var t := Kept(tab, kept);
    forall i | 0 <= i < HSHTABSIZ ensures Unique(ent, t[i]) && forall r :: r in t[i] <==> r in tab[i] && r in kept {
      forall r ensures r in t[i] <==> r in tab[i] && r in kept { OnlyMembers(tab[i], kept, true, r); }
      OnlyUnique(ent, tab[i], kept);
    }
    var o, o' := Lookup(tab, ent, k), Lookup(t, ent, k);
    if o.Some? { LookupIff(tab, ent, k, o.value); LookupIff(t, ent, k, o.value); }
    if o'.Some? { LookupIff(tab, ent, k, o'.value); LookupIff(t, ent, k, o'.value); }
  }

  lemma {:induction false} OnlyUnique(ent: Store, c: Chain, kept: set<Ref>)
    requires Unique(ent, c)
    ensures Unique(ent, Only(c, kept, true))
  {
    if c != [] {
      var t := c[1..];
      assert forall i | 0 <= i < |t| :: t[i] == c[i + 1];
      OnlyUnique(ent, t, kept);
      var d := Only(t, kept, true);
      forall j | 0 <= j < |d| ensures ent[d[j]].key != ent[c[0]].key {
        OnlyMembers(t, kept, true, d[j]);
        var i :| 0 <= i < |t| && t[i] == d[j];
        assert ent[c[0]].key != ent[c[i + 1]].key;
      }
    }
  }

  // ---------------------------------------------------------------- the whole table

  /** `clear_htab` on one chain: every entry is freed. */
  method FreeChain(h: Heap, first: Option<Ref>, ghost c: Chain) returns (h': Heap)
    requires Linked(h, first, c) && NoDup(c) && LiveHeap(h, c)
    ensures h' == h - (set r | r in c)
  {
    h' := h;
    var ep := first;
    ghost var left := c;
    while ep.Some?
      invariant Linked(h', ep, left) && NoDup(left) && (forall r | r in left :: r in c)
      invariant h' == h - (set r | r in c && r !in left)
      decreases |left|
    {
      var r := ep.value;
      assert left == [r] + left[1..] && forall i | 0 <= i < |left[1..]| :: left[1..][i] == left[i + 1];
      ep := h'[r].link;
      LinkedFrame(h', h' - {r}, ep, left[1..]);
      h' := h' - {r};
      left := left[1..];
    }
  }

  ghost predicate Sound(h: Heap, tab: Tab) {
    && |tab| == HSHTABSIZ
    && (forall i | 0 <= i < HSHTABSIZ :: NoDup(tab[i]) && LiveHeap(h, tab[i]))
    && (forall i, j, r | 0 <= i < j < HSHTABSIZ && r in tab[i] :: r !in tab[j])
  }

  /** Buckets below `n` are divided, the others as they were. */
  ghost predicate Divided(h: Heap, heads: seq<Option<Ref>>, tmp: seq<Option<Ref>>, tab: Tab, kept: set<Ref>, n: nat) {
    && Sound(h, tab) && n <= HSHTABSIZ && |heads| == HSHTABSIZ && |tmp| == HSHTABSIZ
    && (forall i | 0 <= i < n :: Linked(h, heads[i], Only(tab[i], kept, false)) && Linked(h, tmp[i], Only(tab[i], kept, true)))
    && (forall i | n <= i < HSHTABSIZ :: Linked(h, heads[i], tab[i]))
  }

  lemma OnlyIn(c: Chain, s: set<Ref>, within: bool)
    ensures forall r | r in Only(c, s, within) :: r in c && (r in s) == within
  {
    forall r | r in Only(c, s, within) ensures r in c && (r in s) == within { OnlyMembers(c, s, within, r); }
  }

  lemma OthersFramed(h: Heap, h': Heap, heads: seq<Option<Ref>>, tmp: seq<Option<Ref>>, tab: Tab, kept: set<Ref>, n: nat, i: nat)
    requires Divided(h, heads, tmp, tab, kept, n) && n < HSHTABSIZ && i < HSHTABSIZ && i != n && LinksOnly(h, h', tab[n])
    ensures i < n ==> Linked(h', heads[i], Only(tab[i], kept, false)) && Linked(h', tmp[i], Only(tab[i], kept, true))
    ensures i > n ==> Linked(h', heads[i], tab[i])
  {
    if i < n {
      OnlyIn(tab[i], kept, false);
      OnlyIn(tab[i], kept, true);
      LinkedFrame(h, h', heads[i], Only(tab[i], kept, false));
      LinkedFrame(h, h', tmp[i], Only(tab[i], kept, true));
    } else {
      LinkedFrame(h, h', heads[i], tab[i]);
    }
  }

  lemma DividedNext(h: Heap, h': Heap, heads: seq<Option<Ref>>, tmp: seq<Option<Ref>>, tab: Tab, kept: set<Ref>, n: nat, freed: Option<Ref>, keep: Option<Ref>)
    requires Divided(h, heads, tmp, tab, kept, n) && n < HSHTABSIZ && LinksOnly(h, h', tab[n])
    requires Linked(h', keep, Only(tab[n], kept, true)) && Linked(h', freed, Only(tab[n], kept, false))
    ensures Divided(h', heads[n := freed], tmp[n := keep], tab, kept, n + 1)
  {
    forall i | 0 <= i < HSHTABSIZ && i != n
      ensures i < n ==> Linked(h', heads[i], Only(tab[i], kept, false)) && Linked(h', tmp[i], Only(tab[i], kept, true))
      ensures i > n ==> Linked(h', heads[i], tab[i])
    {
      OthersFramed(h, h', heads, tmp, tab, kept, n, i);
    }
  }

  /** The first loop of `ch_clear`. */
  method DivideAll(h: Heap, heads: seq<Option<Ref>>, kept: set<Ref>, ghost tab: Tab) returns (h': Heap, hs: seq<Option<Ref>>, tmp: seq<Option<Ref>>)
    requires Sound(h, tab) && |heads| == HSHTABSIZ && forall i | 0 <= i < HSHTABSIZ :: Linked(h, heads[i], tab[i])
    ensures Divided(h', hs, tmp, tab, kept, HSHTABSIZ) && h'.Keys == h.Keys && forall r | r in h :: h'[r].entry == h[r].entry
  {
    h', hs, tmp := h, heads, seq(HSHTABSIZ, _ => None);
    var n := 0;
    while n < HSHTABSIZ
      invariant 0 <= n <= HSHTABSIZ && Divided(h', hs, tmp, tab, kept, n)
      invariant h'.Keys == h.Keys && forall r | r in h :: h'[r].entry == h[r].entry
    {
      ghost var h1 := h';
      var freed, keep;
      h', freed, keep := Divide(h', hs[n], kept, tab[n]);
      DividedNext(h1, h', hs, tmp, tab, kept, n, freed, keep);
      hs, tmp := hs[n := freed], tmp[n := keep];
      n := n + 1;
    }
  }

  /** The entries of the table that are not kept. */
  ghost function Doomed(tab: Tab, kept: set<Ref>, n: nat): set<Ref>
    requires n <= |tab|
  {
    set i, r | 0 <= i < n && r in tab[i] && r !in kept :: r
  }

  /** `clear_htab`: frees the chains of entries that are not kept. */
  method FreeAll(h: Heap, hs: seq<Option<Ref>>, ghost tmp: seq<Option<Ref>>, ghost tab: Tab, ghost kept: set<Ref>) returns (h': Heap)
    requires Divided(h, hs, tmp, tab, kept, HSHTABSIZ)
    ensures h' == h - Doomed(tab, kept, HSHTABSIZ)
  {
    h' := h;
    var n := 0;
    while n < HSHTABSIZ
      invariant 0 <= n <= HSHTABSIZ && h' == h - Doomed(tab, kept, n)
    {
      ghost var c := Only(tab[n], kept, false);
      OnlyIn(tab[n], kept, false);
      OnlyNoDup(tab[n], kept, false);
      forall r | r in c ensures r in h' && h'[r] == h[r] { NotYetFreed(tab, kept, n, r); }
      LinkedFrame(h, h', hs[n], c);
      h' := FreeChain(h', hs[n], c);
      DoomedNext(tab, kept, n);
      n := n + 1;
    }
  }

  lemma NotYetFreed(tab: Tab, kept: set<Ref>, n: nat, r: Ref)
    requires n < |tab| && r in tab[n] && forall i, j, q | 0 <= i < j < |tab| && q in tab[i] :: q !in tab[j]
    ensures r !in Doomed(tab, kept, n)
  {
  }

  lemma DoomedNext(tab: Tab, kept: set<Ref>, n: nat)
    requires n < |tab|
    ensures Doomed(tab, kept, n + 1) == Doomed(tab, kept, n) + (set r | r in Only(tab[n], kept, false))
  {
    forall r ensures r in Only(tab[n], kept, false) <==> r in tab[n] && r !in kept { OnlyMembers(tab[n], kept, false, r); }
  }

  /** The kept chains are untouched by the freeing. */
  lemma KeptChained(h: Heap, h': Heap, hs: seq<Option<Ref>>, tmp: seq<Option<Ref>>, tab: Tab, kept: set<Ref>)
    requires Divided(h, hs, tmp, tab, kept, HSHTABSIZ) && h' == h - Doomed(tab, kept, HSHTABSIZ)
    requires forall i, r | 0 <= i < HSHTABSIZ && r in tab[i] :: BucketOf(h[r].entry.key) == i
    ensures Chained(h', tmp, Kept(tab, kept))
  {
    var k := Kept(tab, kept);
    forall i | 0 <= i < HSHTABSIZ
      ensures Linked(h', tmp[i], k[i]) && NoDup(k[i]) && forall r | r in k[i] :: r in h' && BucketOf(h'[r].entry.key) == i
    {
      OnlyIn(tab[i], kept, true);
      OnlyNoDup(tab[i], kept, true);
      LinkedFrame(h, h', tmp[i], k[i]);
    }
  }

  lemma ChainedSound(h: Heap, heads: seq<Option<Ref>>, tab: Tab)
    requires Chained(h, heads, tab)
    ensures Sound(h, tab)
  {
  }

  /** `ch_clear`: keeps the COMMON entries, or all of them, in their chains and
      in order; every other entry of the table is freed, once. */
  method ChClear(t: HashTable, common: set<Ref>, doall: bool)
    requires t.Valid()
    modifies t, t.hasht
    ensures t.Valid()
    ensures var kept := if doall then old(t.heap).Keys else common;
            && t.tab == Kept(old(t.tab), kept)
            && t.heap.Keys == old(t.heap).Keys - Doomed(old(t.tab), kept, HSHTABSIZ)
            && forall r | r in t.heap :: t.heap[r].entry == old(t.heap)[r].entry
  {
    var kept := if doall then t.heap.Keys else common;
    ghost var tab := t.tab;
    ChainedSound(t.heap, t.hasht[..], tab);
    var h, hs, tmp := DivideAll(t.heap, t.hasht[..], kept, tab);
    var h' := FreeAll(h, hs, tmp, tab, kept);
    KeptChained(h, h', hs, tmp, tab, kept);
    t.heap := h';
    t.tab := Kept(tab, kept);
    CopyBack(t.hasht, tmp);
  }

  /** `hshtab = tmphshtab`. */
  method CopyBack(a: array<Option<Ref>>, s: seq<Option<Ref>>)
    requires a.Length == |s|
    modifies a
    ensures a[..] == s
  {
    var i := 0;
    while i < a.Length
      invariant 0 <= i <= a.Length && a[..i] == s[..i]
    {
      a[i] := s[i];
      assert a[..i + 1] == a[..i] + [a[i]] && s[..i + 1] == s[..i] + [s[i]];
      i := i + 1;
    }
  }
}
