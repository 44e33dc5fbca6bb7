/** The variables of the BASIC interpreter: entries in 37 hash chains, keyed by
    name, type and kind. Entries are addresses into an explicit store, so that
    freeing one and using a freed one can be told apart. */
module Symbols {
  import opened Words

  const HSHTABSIZ: nat := 37

  type Ref = nat
  datatype Type = RealT | IntT | StrT
  datatype Kind = Scalar | Array | Func
  datatype Key = Key(name: string, vt: Type, kind: Kind)

  /** The data of an entry: one cell, or the cells of an array. */
  datatype Val = Cell(x: int) | Cells(dims: seq<nat>, xs: seq<int>)
  datatype Entry = Entry(key: Key, val: Val)

  type Store = map<Ref, Entry>
  type Chain = seq<Ref>

  /** Sum of the characters of the name. */
  function NameHash(name: string): nat {
    if name == "" then 0 else name[0] as int + NameHash(name[1..])
  }

  function BucketOf(k: Key): (i: nat)
    ensures i < HSHTABSIZ
  {
    NameHash(k.name) % HSHTABSIZ
  }

  /** The hash as `nam_read` accumulates it. */
  method HashOf(name: string) returns (i: nat)
    ensures i == BucketOf(Key(name, IntT, Scalar)) && i == NameHash(name) % 37
  {
    var l, n := 0, 0;
    while n < |name|
      invariant 0 <= n <= |name| && l == NameHash(name[..n])
    {
      assert name[..n + 1] == name[..n] + [name[n]];
      HashAppend(name[..n], [name[n]]);
      HashChar(name[n]);
      l := l + name[n] as int;
      n := n + 1;
    }
    assert name[..n] == name;
    i := l % HSHTABSIZ;
  }

  lemma HashChar(c: char)
    ensures NameHash([c]) == c as int
  {
    assert [c][1..] == "";
  }

  /** The hash is the sum over the characters, so it depends neither on their
      order nor on type or kind. */
  lemma {:induction false} HashAppend(a: string, b: string)
    ensures NameHash(a + b) == NameHash(a) + NameHash(b)
  {
    if a == "" {
      assert a + b == b;
    } else {
      assert (a + b)[0] == a[0] && (a + b)[1..] == a[1..] + b;
      HashAppend(a[1..], b);
    }
  }

  // ---------------------------------------------------------------- one chain

  predicate LiveChain(ent: Store, c: Chain) { forall r | r in c :: r in ent }

  /** The scan of `getnm`: the first entry of that key. */
  function Find(ent: Store, c: Chain, k: Key): (o: Option<Ref>)
    ensures o.Some? ==> o.value in c && o.value in ent && ent[o.value].key == k
  {
    if c == [] then None
    else if c[0] in ent && ent[c[0]].key == k then Some(c[0])
    else Find(ent, c[1..], k)
  }

  function Remove(c: Chain, r: Ref): Chain {
    if c == [] then [] else if c[0] == r then c[1..] else [c[0]] + Remove(c[1..], r)
  }

  /** Keys occur once in a chain, hence entries do. */
  predicate Unique(ent: Store, c: Chain) {
    && LiveChain(ent, c)
    && forall i, j | 0 <= i < j < |c| :: ent[c[i]].key != ent[c[j]].key
  }

  lemma {:induction false} FindIff(ent: Store, c: Chain, k: Key, r: Ref)
    requires Unique(ent, c)
    ensures Find(ent, c, k) == Some(r) <==> r in c && ent[r].key == k
  {
    if c != [] {
      forall i, j | 0 <= i < j < |c[1..]|
        ensures ent[c[1..][i]].key != ent[c[1..][j]].key
      {
        assert ent[c[i + 1]].key != ent[c[j + 1]].key;
      }
      FindIff(ent, c[1..], k, r);
      if r in c[1..] {
        var j :| 0 <= j < |c[1..]| && c[1..][j] == r;
        assert ent[c[0]].key != ent[c[j + 1]].key;
      }
    }
  }

  lemma {:induction false} RemoveMembers(ent: Store, c: Chain, r: Ref)
    requires Unique(ent, c)
    ensures Unique(ent, Remove(c, r))
    ensures forall q :: q in Remove(c, r) <==> q in c && q != r
  {
    if c != [] {
      var t := c[1..];
      assert forall i | 0 <= i < |t| :: t[i] == c[i + 1];
      assert c == [c[0]] + t;
      forall j | 0 <= j < |t|
        ensures ent[c[0]].key != ent[t[j]].key
      {
        assert ent[c[0]].key != ent[c[j + 1]].key;
      }
      assert Unique(ent, t);
      RemoveMembers(ent, t, r);
      if c[0] != r {
        var d := Remove(t, r);
        forall j | 0 <= j < |d|
          ensures ent[c[0]].key != ent[d[j]].key
        {
          assert d[j] in t;
        }
      }
    }
  }

  // ---------------------------------------------------------------- the table

  type Tab = seq<Chain>

  predicate TableOk(tab: Tab, ent: Store) {
    && |tab| == HSHTABSIZ
    && (forall i | 0 <= i < HSHTABSIZ :: Unique(ent, tab[i]))
    && (forall i, r | 0 <= i < HSHTABSIZ && r in tab[i] :: r in ent && BucketOf(ent[r].key) == i)
  }

  function Lookup(tab: Tab, ent: Store, k: Key): (o: Option<Ref>)
    requires |tab| == HSHTABSIZ
    ensures o.Some? ==> o.value in ent && ent[o.value].key == k
  {
    Find(ent, tab[BucketOf(k)], k)
  }

  function AddFront(tab: Tab, ent: Store, r: Ref): Tab
    requires |tab| == HSHTABSIZ && r in ent
  {
    var i := BucketOf(ent[r].key);
    tab[i := [r] + tab[i]]
  }

  function AddBack(tab: Tab, ent: Store, r: Ref): Tab
    requires |tab| == HSHTABSIZ && r in ent
  {
    var i := BucketOf(ent[r].key);
    tab[i := tab[i] + [r]]
  }

  function Drop(tab: Tab, ent: Store, r: Ref): Tab
    requires |tab| == HSHTABSIZ && r in ent
  {
    var i := BucketOf(ent[r].key);
    tab[i := Remove(tab[i], r)]
  }

  /** A table is the finite map it looks up. */
  ghost predicate Looks(tab: Tab, ent: Store, m: map<Key, Ref>)
    requires |tab| == HSHTABSIZ
  {
    forall k :: Lookup(tab, ent, k) == if k in m then Some(m[k]) else None
  }

  lemma LookupIff(tab: Tab, ent: Store, k: Key, r: Ref)
    requires TableOk(tab, ent)
    ensures Lookup(tab, ent, k) == Some(r) <==> r in tab[BucketOf(k)] && ent[r].key == k
  {
    FindIff(ent, tab[BucketOf(k)], k, r);
  }

  /** Same chain up to one entry `r` of key `k`: other keys are unaffected. */
  lemma SameElsewhere(tab: Tab, tab': Tab, ent: Store, r: Ref, q: Key)
    requires TableOk(tab, ent) && TableOk(tab', ent) && r in ent && q != ent[r].key
    requires forall i, x | 0 <= i < HSHTABSIZ && x != r :: x in tab[i] <==> x in tab'[i]
    ensures Lookup(tab', ent, q) == Lookup(tab, ent, q)
  {
    var o, o' := Lookup(tab, ent, q), Lookup(tab', ent, q);
    if o.Some? { LookupIff(tab, ent, q, o.value); LookupIff(tab', ent, q, o.value); }
    if o'.Some? { LookupIff(tab, ent, q, o'.value); LookupIff(tab', ent, q, o'.value); }
  }

  lemma AddFrontOk(tab: Tab, ent: Store, r: Ref)
    requires TableOk(tab, ent) && r in ent && Lookup(tab, ent, ent[r].key) == None
    ensures var tab' := AddFront(tab, ent, r);
            && TableOk(tab', ent) && Lookup(tab', ent, ent[r].key) == Some(r)
            && forall q | q != ent[r].key :: Lookup(tab', ent, q) == Lookup(tab, ent, q)
  {
    var tab' := AddFront(tab, ent, r);
    var b := BucketOf(ent[r].key);
    forall x | x in tab[b] ensures ent[x].key != ent[r].key { LookupIff(tab, ent, ent[r].key, x); }
    assert forall x :: x in tab'[b] <==> x == r || x in tab[b];
    assert forall j | 0 < j < |tab'[b]| :: tab'[b][j] == tab[b][j - 1];
    assert Unique(ent, tab'[b]);
    LookupIff(tab', ent, ent[r].key, r);
    forall q | q != ent[r].key ensures Lookup(tab', ent, q) == Lookup(tab, ent, q) {
      SameElsewhere(tab, tab', ent, r, q);
    }
  }

  lemma AddBackOk(tab: Tab, ent: Store, r: Ref)
    requires TableOk(tab, ent) && r in ent && Lookup(tab, ent, ent[r].key) == None
    ensures var tab' := AddBack(tab, ent, r);
            && TableOk(tab', ent) && Lookup(tab', ent, ent[r].key) == Some(r)
            && forall q | q != ent[r].key :: Lookup(tab', ent, q) == Lookup(tab, ent, q)
  {
    var tab' := AddBack(tab, ent, r);
    var b := BucketOf(ent[r].key);
    forall x | x in tab[b] ensures ent[x].key != ent[r].key { LookupIff(tab, ent, ent[r].key, x); }
    assert forall x :: x in tab'[b] <==> x == r || x in tab[b];
    assert Unique(ent, tab'[b]);
    LookupIff(tab', ent, ent[r].key, r);
    forall q | q != ent[r].key ensures Lookup(tab', ent, q) == Lookup(tab, ent, q) {
      SameElsewhere(tab, tab', ent, r, q);
    }
  }

  lemma DropOk(tab: Tab, ent: Store, r: Ref)
    requires TableOk(tab, ent) && r in ent
    ensures var tab' := Drop(tab, ent, r);
            && TableOk(tab', ent)
            && (forall i | 0 <= i < HSHTABSIZ :: r !in tab'[i])
            && Lookup(tab', ent, ent[r].key) == (if Lookup(tab, ent, ent[r].key) == Some(r) then None else Lookup(tab, ent, ent[r].key))
            && forall q | q != ent[r].key :: Lookup(tab', ent, q) == Lookup(tab, ent, q)
  {
    var tab' := Drop(tab, ent, r);
    var k := ent[r].key;
    RemoveMembers(ent, tab[BucketOf(k)], r);
    forall q | q != k ensures Lookup(tab', ent, q) == Lookup(tab, ent, q) {
      SameElsewhere(tab, tab', ent, r, q);
    }
    var o, o' := Lookup(tab, ent, k), Lookup(tab', ent, k);
    if o.Some? { LookupIff(tab, ent, k, o.value); LookupIff(tab', ent, k, o.value); }
    if o'.Some? { LookupIff(tab, ent, k, o'.value); LookupIff(tab', ent, k, o'.value); }
    LookupIff(tab, ent, k, r);
  }

  /** Changes to the store that keep the keys of the entries in the table. */
  lemma {:induction false} FindFrame(ent: Store, ent': Store, c: Chain, k: Key)
    requires forall r | r in c :: r in ent && r in ent' && ent'[r].key == ent[r].key
    ensures Find(ent', c, k) == Find(ent, c, k)
  {
    if c != [] { FindFrame(ent, ent', c[1..], k); }
  }

  lemma TableFrame(tab: Tab, ent: Store, ent': Store)
    requires TableOk(tab, ent)
    requires forall i, r | 0 <= i < HSHTABSIZ && r in tab[i] :: r in ent' && ent'[r].key == ent[r].key
    ensures TableOk(tab, ent') && forall k :: Lookup(tab, ent', k) == Lookup(tab, ent, k)
  {
    forall k ensures Lookup(tab, ent', k) == Lookup(tab, ent, k) { FindFrame(ent, ent', tab[BucketOf(k)], k); }
  }
}
