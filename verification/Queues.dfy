/** sys/queue.h on raw link cells. A head and an entry of a tail queue have the
    same layout, a pointer to the next element followed by the address of a
    pointer cell. Memory maps the address of such a pair to its two words; the
    pointer cell of a head or entry is its first word and has its address. */
module Queues {
  type Addr = nat

  const NULL: Addr := 0

  /** tqh_first / tqe_next, stqh_first / stqe_next, lh_first / le_next, and
      tqh_last / tqe_prev, stqh_last, le_prev. */
  datatype Words = Words(next: Addr, prev: Addr)

  type Memory = map<Addr, Words>

  ghost function FirstOr(s: seq<Addr>, q: Addr): Addr { if s == [] then q else s[0] }

  ghost function LastOr(p: Addr, s: seq<Addr>): Addr { if s == [] then p else s[|s| - 1] }

  /** Elements `s` follow the cell of `p` and lead to `q`: with `back`, each
      knows the cell pointing at it; its own cell points at the next one. */
  ghost predicate Seg(m: Memory, back: bool, p: Addr, s: seq<Addr>, q: Addr)
    decreases |s|
  {
    s == [] ||
      (s[0] in m && s[0] != NULL && (back ==> m[s[0]].prev == p) && m[s[0]].next == FirstOr(s[1..], q) && Seg(m, back, s[0], s[1..], q))
  }

  /** No element twice. */
  ghost predicate Once(s: seq<Addr>)
    decreases |s|
  {
    s == [] || (s[0] !in s[1..] && Once(s[1..]))
  }

  ghost predicate Apart(a: seq<Addr>, b: seq<Addr>) { forall x | x in a :: x !in b }

  /** A list with (LIST, TAILQ) or without (STAILQ) back pointers. */
  ghost predicate Chain(m: Memory, back: bool, head: Addr, s: seq<Addr>) {
    head in m && head != NULL && head !in s && Once(s) && m[head].next == FirstOr(s, NULL) && Seg(m, back, head, s, NULL)
  }

  // ---------------------------------------------------------------- the three shapes

  ghost predicate List(m: Memory, head: Addr, s: seq<Addr>) { Chain(m, true, head, s) }

  /** The head of a tail queue also knows the terminal cell. */
  ghost predicate STailQ(m: Memory, head: Addr, s: seq<Addr>) { Chain(m, false, head, s) && m[head].prev == LastOr(head, s) }

  ghost predicate TailQ(m: Memory, head: Addr, s: seq<Addr>) { Chain(m, true, head, s) && m[head].prev == LastOr(head, s) }

  /** An element that can be inserted: allocated, in none of the cells. */
  ghost predicate Free(m: Memory, head: Addr, s: seq<Addr>, elm: Addr) {
    elm in m && elm != NULL && elm != head && elm !in s
  }

  /** Memory outside the given cells is the same. */
  ghost predicate Untouched(m: Memory, m': Memory, cells: seq<Addr>) {
    m'.Keys == m.Keys && forall x | x in m && x !in cells :: m'[x] == m[x]
  }

  // ---------------------------------------------------------------- segments

  lemma {:induction false} SegSplit(m: Memory, back: bool, p: Addr, a: seq<Addr>, b: seq<Addr>, q: Addr)
    ensures Seg(m, back, p, a + b, q) <==> Seg(m, back, p, a, FirstOr(b, q)) && Seg(m, back, LastOr(p, a), b, q)
    decreases |a|
  {
    if a == [] {
      assert a + b == b;
    } else {
      assert (a + b)[1..] == a[1..] + b;
      SegSplit(m, back, a[0], a[1..], b, q);
    }
  }

  /** Splitting off the last element. */
  lemma SegSnoc(m: Memory, back: bool, p: Addr, a: seq<Addr>, x: Addr, q: Addr)
    ensures Seg(m, back, p, a + [x], q) <==>
            Seg(m, back, p, a, x) && x in m && x != NULL && (back ==> m[x].prev == LastOr(p, a)) && m[x].next == q
  {
    SegSplit(m, back, p, a, [x], q);
    assert [x][1..] == [];
  }

  lemma {:induction false} OnceSplit(a: seq<Addr>, b: seq<Addr>)
    ensures Once(a + b) <==> Once(a) && Once(b) && Apart(a, b)
    decreases |a|
  {
    if a == [] {
      assert a + b == b;
    } else {
      assert (a + b)[1..] == a[1..] + b;
      OnceSplit(a[1..], b);
      assert a == [a[0]] + a[1..];
    }
  }

  lemma {:induction false} SegFrame(m: Memory, m': Memory, back: bool, p: Addr, s: seq<Addr>, q: Addr)
    requires Seg(m, back, p, s, q) && forall x | x in s && x in m :: x in m' && m'[x] == m[x]
    ensures Seg(m', back, p, s, q)
    decreases |s|
  {
    if s != [] { SegFrame(m, m', back, s[0], s[1..], q); }
  }

  /** Only the outgoing pointer of the last element differs. */
  lemma {:induction false} SegEnd(m: Memory, m': Memory, back: bool, p: Addr, a: seq<Addr>, q: Addr, q': Addr)
    requires Seg(m, back, p, a, q) && Once(a)
    requires forall x | x in a && x in m :: x in m' && m'[x].prev == m[x].prev && (x != LastOr(p, a) ==> m'[x].next == m[x].next)
    requires a != [] ==> a[|a| - 1] in m' && m'[a[|a| - 1]].next == q'
    ensures Seg(m', back, p, a, q')
    decreases |a|
  {
    if |a| > 1 {
      assert a[1..][|a| - 2] == a[|a| - 1] && a[0] !in a[1..];
      SegEnd(m, m', back, a[0], a[1..], q, q');
    }
  }

  /** Only the back pointer of the first element differs. */
  lemma SegStart(m: Memory, m': Memory, back: bool, p: Addr, b: seq<Addr>, q: Addr, p': Addr)
    requires Seg(m, back, p, b, q) && Once(b)
    requires forall x | x in b && x in m :: x in m' && m'[x].next == m[x].next && (x != b[0] ==> m'[x].prev == m[x].prev)
    requires back && b != [] ==> b[0] in m' && m'[b[0]].prev == p'
    ensures Seg(m', back, p', b, q)
  {
    if b != [] {
      assert m'[b[0]].next == m[b[0]].next;
      SegFrame(m, m', back, b[0], b[1..], q);
    }
  }

  // ---------------------------------------------------------------- changes at one place

  /** Outside the seam between `a` and `b` nothing was written. */
  ghost predicate SeamOnly(m: Memory, m': Memory, head: Addr, a: seq<Addr>, b: seq<Addr>) {
    && head in m && head in m' && (a != [] ==> m'[head].next == m[head].next)
    && (forall x | x in a && x in m :: x in m' && m'[x].prev == m[x].prev && (x != LastOr(head, a) ==> m'[x].next == m[x].next))
    && (forall x | x in b && x in m :: x in m' && m'[x].next == m[x].next && (x != b[0] ==> m'[x].prev == m[x].prev))
  }

  /** Linking `elm` at the seam inserts it there. */
  lemma Inserted(m: Memory, m': Memory, back: bool, head: Addr, elm: Addr, a: seq<Addr>, b: seq<Addr>)
    requires Chain(m, back, head, a + b) && elm != head && elm !in a && elm !in b && SeamOnly(m, m', head, a, b)
    requires LastOr(head, a) in m' && m'[LastOr(head, a)].next == elm
    requires elm in m' && elm != NULL && (back ==> m'[elm].prev == LastOr(head, a)) && m'[elm].next == FirstOr(b, NULL)
    requires back && b != [] ==> b[0] in m' && m'[b[0]].prev == elm
    ensures Chain(m', back, head, a + [elm] + b)
  {
    OnceSplit(a, b);
    SegSplit(m, back, head, a, b, NULL);
    SegEnd(m, m', back, head, a, FirstOr(b, NULL), elm);
    SegStart(m, m', back, LastOr(head, a), b, NULL, elm);
    SegSnoc(m', back, head, a, elm, FirstOr(b, NULL));
    SegSplit(m', back, head, a + [elm], b, NULL);
    OnceSplit(a, [elm]);
    assert [elm] == [elm] + [] && Once([elm]);
    OnceSplit(a + [elm], b);
    assert m'[head].next == FirstOr(a + [elm] + b, NULL) by {
      if a != [] { assert (a + b)[0] == a[0] && (a + [elm] + b)[0] == a[0]; }
    }
  }

  /** Linking the two sides of `elm` removes it. */
  lemma Removed(m: Memory, m': Memory, back: bool, head: Addr, elm: Addr, a: seq<Addr>, b: seq<Addr>)
    requires Chain(m, back, head, a + ([elm] + b)) && SeamOnly(m, m', head, a, b)
    requires LastOr(head, a) in m' && m'[LastOr(head, a)].next == FirstOr(b, NULL)
    requires back && b != [] ==> b[0] in m' && m'[b[0]].prev == LastOr(head, a)
    ensures Chain(m', back, head, a + b)
  {
    OnceSplit(a, [elm] + b);
    OnceSplit([elm], b);
    SegSplit(m, back, head, a, [elm] + b, NULL);
    SegSplit(m, back, LastOr(head, a), [elm], b, NULL);
    assert [elm][1..] == [];
    SegEnd(m, m', back, head, a, elm, FirstOr(b, NULL));
    SegStart(m, m', back, elm, b, NULL, LastOr(head, a));
    SegSplit(m', back, head, a, b, NULL);
    OnceSplit(a, b);
  }

  /** Redirecting the terminal cell of one list to the elements of another
      appends them. */
  lemma Joined(m: Memory, m': Memory, back: bool, h1: Addr, h2: Addr, s1: seq<Addr>, s2: seq<Addr>)
    requires Chain(m, back, h1, s1) && Chain(m, back, h2, s2) && Apart([h1] + s1, [h2] + s2) && s2 != []
    requires SeamOnly(m, m', h1, s1, s2)
    requires LastOr(h1, s1) in m' && m'[LastOr(h1, s1)].next == s2[0]
    requires back ==> s2[0] in m' && m'[s2[0]].prev == LastOr(h1, s1)
    ensures Chain(m', back, h1, s1 + s2)
  {
    assert forall x | x in s1 :: x in [h1] + s1;
    assert h1 in [h1] + s1 && forall x | x in s2 :: x in [h2] + s2;
    SegEnd(m, m', back, h1, s1, NULL, s2[0]);
    SegStart(m, m', back, h2, s2, NULL, LastOr(h1, s1));
    SegSplit(m', back, h1, s1, s2, NULL);
    OnceSplit(s1, s2);
  }

  /** A list whose first element is made to hang off another head. */
  lemma Rehung(m: Memory, m': Memory, back: bool, h1: Addr, h2: Addr, s: seq<Addr>)
    requires Chain(m, back, h2, s) && h1 in m' && h1 != NULL && h1 !in s && m'[h1].next == FirstOr(s, NULL)
    requires forall x | x in s && x in m :: x in m' && m'[x].next == m[x].next && (x != s[0] ==> m'[x].prev == m[x].prev)
    requires back && s != [] ==> s[0] in m' && m'[s[0]].prev == h1
    ensures Chain(m', back, h1, s)
  {
    SegStart(m, m', back, h2, s, NULL, h1);
  }

  /** What a list looks like around the seam between `a` and `b`. */
  lemma Seam(m: Memory, back: bool, head: Addr, a: seq<Addr>, b: seq<Addr>)
    requires Chain(m, back, head, a + b)
    ensures LastOr(head, a) in m && LastOr(head, a) != NULL && m[LastOr(head, a)].next == FirstOr(b, NULL)
    ensures b != [] ==> b[0] in m && b[0] != NULL && (back ==> m[b[0]].prev == LastOr(head, a))
    ensures Once(a) && Once(b) && Apart(a, b)
    ensures LastOr(head, a + b) == LastOr(LastOr(head, a), b)
  {
    OnceSplit(a, b);
    SegSplit(m, back, head, a, b, NULL);
    if a != [] {
      assert a == a[..|a| - 1] + [a[|a| - 1]];
      SegSnoc(m, back, head, a[..|a| - 1], a[|a| - 1], FirstOr(b, NULL));
    }
  }

  /** The same before the first element. */
  lemma FrontSeam(m: Memory, back: bool, head: Addr, s: seq<Addr>)
    requires Chain(m, back, head, s)
    ensures s != [] ==> s[0] in m && s[0] != NULL && (back ==> m[s[0]].prev == head)
    ensures m[head].next == FirstOr(s, NULL)
  {
  }

  lemma InsertedFirst(m: Memory, m': Memory, back: bool, head: Addr, elm: Addr, s: seq<Addr>)
    requires Chain(m, back, head, s) && elm != head && elm !in s && elm != NULL && head in m' && elm in m'
    requires forall x | x in s && x in m :: x in m' && m'[x].next == m[x].next && (x != s[0] ==> m'[x].prev == m[x].prev)
    requires m'[head].next == elm && (back ==> m'[elm].prev == head) && m'[elm].next == FirstOr(s, NULL)
    requires back && s != [] ==> s[0] in m' && m'[s[0]].prev == elm
    ensures Chain(m', back, head, [elm] + s)
  {
    assert [] + s == s && [] + [elm] + s == [elm] + s;
    Inserted(m, m', back, head, elm, [], s);
  }

  /** The elements on either side of a seam belong to one side each. */
  lemma Around(head: Addr, a: seq<Addr>, b: seq<Addr>)
    requires Apart(a, b) && head !in a + b
    ensures head !in a && head !in b
    ensures a != [] ==> LastOr(head, a) in a && LastOr(head, a) !in b
    ensures b != [] ==> b[0] in b && b[0] !in a
  {
  }

  /** An element and its two neighbours. */
  lemma Beside(m: Memory, back: bool, head: Addr, elm: Addr, a: seq<Addr>, b: seq<Addr>)
    requires Chain(m, back, head, a + ([elm] + b))
    ensures elm in m && elm != NULL && m[elm].next == FirstOr(b, NULL) && (back ==> m[elm].prev == LastOr(head, a))
    ensures elm !in a && elm !in b && elm != head && head !in a && head !in b && Apart(a, b)
    ensures LastOr(head, a) in m && LastOr(head, a) != NULL && m[LastOr(head, a)].next == elm
    ensures b != [] ==> b[0] in m && b[0] != NULL && b[0] in b && b[0] !in a && (back ==> m[b[0]].prev == elm)
    ensures a != [] ==> LastOr(head, a) in a && LastOr(head, a) !in b
    ensures LastOr(head, a + ([elm] + b)) == LastOr(elm, b) && LastOr(head, a + b) == LastOr(LastOr(head, a), b)
  {
    Seam(m, back, head, a, [elm] + b);
    assert a + ([elm] + b) == (a + [elm]) + b;
    Seam(m, back, head, a + [elm], b);
    OnceSplit(a, [elm]);
    assert elm in [elm] + b && elm in a + [elm];
    forall x | x in a ensures x !in b { assert x in a + [elm]; }
  }

  /** First elements and terminal cells of two separate lists. */
  lemma Ends(m: Memory, back: bool, h1: Addr, h2: Addr, s1: seq<Addr>, s2: seq<Addr>)
    requires Chain(m, back, h1, s1) && Chain(m, back, h2, s2) && Apart([h1] + s1, [h2] + s2)
    ensures h1 != h2 && h1 !in s1 && h1 !in s2 && h2 !in s1 && h2 !in s2 && Apart(s1, s2)
    ensures s1 != [] ==> s1[0] in m && s1[0] != NULL && s1[0] in s1 && s1[0] !in s2
    ensures s2 != [] ==> s2[0] in m && s2[0] != NULL && s2[0] in s2 && s2[0] !in s1
    ensures LastOr(h1, s1) in m && (s1 != [] ==> LastOr(h1, s1) in s1 && LastOr(h1, s1) !in s2)
    ensures LastOr(h2, s2) in m && (s2 != [] ==> LastOr(h2, s2) in s2 && LastOr(h2, s2) !in s1)
  {
    assert h1 in [h1] + s1 && h2 in [h2] + s2;
    assert forall x | x in s1 :: x in [h1] + s1;
    assert forall x | x in s2 :: x in [h2] + s2;
    assert s1 + [] == s1 && s2 + [] == s2;
    Seam(m, back, h1, s1, []);
    Seam(m, back, h2, s2, []);
  }

  /** Two words of the terminal cell, and of any cell before the seam. */
  lemma PrevCell(m: Memory, head: Addr, a: seq<Addr>, b: seq<Addr>)
    requires TailQ(m, head, a + b)
    ensures var w := LastOr(head, a); w in m && (a != [] ==> m[w].prev in m && m[m[w].prev].next == w)
    ensures m[head].prev in m && m[m[head].prev].next == NULL
    ensures a != [] ==> head != LastOr(head, a)
  {
    Seam(m, true, head, a, b);
    if a != [] {
      var a0, w := a[..|a| - 1], a[|a| - 1];
      assert a + b == a0 + ([w] + b);
      Beside(m, true, head, w, a0, b);
    }
    var s := a + b;
    assert s + [] == s;
    Seam(m, true, head, s, []);
  }

  lemma LastCell(m: Memory, head: Addr, s: seq<Addr>)
    requires TailQ(m, head, s)
    ensures m[head].prev in m && m[m[head].prev].prev in m && m[m[m[head].prev].prev].next == LastOr(NULL, s)
  {
    assert s + [] == s;
    PrevCell(m, head, s, []);
  }

  lemma NotNull(m: Memory, head: Addr, s: seq<Addr>, k: nat)
    requires Chain(m, true, head, s) && k <= |s| && LastOr(NULL, s[..k]) == NULL
    ensures k == 0
  {
    if k > 0 {
      assert s == s[..k - 1] + ([s[k - 1]] + s[k..]);
      Beside(m, true, head, s[k - 1], s[..k - 1], s[k..]);
    }
  }

  /** Cells 0 to |a| of a list: where each points. */
  lemma StepTo(m: Memory, head: Addr, elm: Addr, a: seq<Addr>, b: seq<Addr>, k: nat)
    requires Chain(m, false, head, a + ([elm] + b)) && k <= |a|
    ensures LastOr(head, a[..k]) in m && m[LastOr(head, a[..k])].next == (if k < |a| then a[k] else elm)
    ensures k < |a| ==> a[k] in m && a[k] != elm
  {
    var s := a + ([elm] + b);
    assert s == a[..k] + (a[k..] + ([elm] + b));
    Seam(m, false, head, a[..k], a[k..] + ([elm] + b));
    if k < |a| {
      Beside(m, false, head, elm, a, b);
      assert a[k] in a && (a[k..] + ([elm] + b))[0] == a[k];
    }
  }

  lemma OnlyAtFront(m: Memory, head: Addr, elm: Addr, a: seq<Addr>, b: seq<Addr>)
    requires Chain(m, false, head, a + ([elm] + b)) && m[head].next == elm
    ensures a == []
  {
    StepTo(m, head, elm, a, b, 0);
  }

  // ---------------------------------------------------------------- the operations

  class Cells {
    var mem: Memory

    constructor (m: Memory)
      ensures mem == m
    {
      mem := m;
    }

    /** `a->next = x` and `a->prev = x`. */
    method SetNext(a: Addr, x: Addr)
      requires a in mem
      modifies this
      ensures mem == old(mem)[a := old(mem)[a].(next := x)]
    {
      mem := mem[a := mem[a].(next := x)];
    }

    method SetPrev(a: Addr, x: Addr)
      requires a in mem
      modifies this
      ensures mem == old(mem)[a := old(mem)[a].(prev := x)]
    {
      mem := mem[a := mem[a].(prev := x)];
    }

    // -------------------------------------------------------------- TAILQ

    method TailqInit(head: Addr)
      requires head in mem && head != NULL
      modifies this
      ensures TailQ(mem, head, []) && Untouched(old(mem), mem, [head])
    {
      SetNext(head, NULL);
      SetPrev(head, head);
    }

    method TailqInsertHead(head: Addr, elm: Addr, ghost s: seq<Addr>)
      requires TailQ(mem, head, s) && Free(mem, head, s, elm)
      modifies this
      ensures TailQ(mem, head, [elm] + s) && Untouched(old(mem), mem, [head, elm] + s)
    {
      FrontSeam(mem, true, head, s);
      SetNext(elm, mem[head].next);
      if mem[elm].next != NULL {
        SetPrev(mem[head].next, elm);
      } else {
        SetPrev(head, elm);
      }
      SetNext(head, elm);
      SetPrev(elm, head);
      assert mem[head].prev == LastOr(elm, s);
      InsertedFirst(old(mem), mem, true, head, elm, s);
    }

    method TailqInsertTail(head: Addr, elm: Addr, ghost s: seq<Addr>)
      requires TailQ(mem, head, s) && Free(mem, head, s, elm)
      modifies this
      ensures TailQ(mem, head, s + [elm]) && Untouched(old(mem), mem, [head, elm] + s)
    {
      assert s + [] == s && s + [elm] + [] == s + [elm];
      Seam(mem, true, head, s, []);
      Around(head, s, []);
      SetNext(elm, NULL);
      SetPrev(elm, mem[head].prev);
      SetNext(mem[head].prev, elm);
      SetPrev(head, elm);
      Inserted(old(mem), mem, true, head, elm, s, []);
    }

    /** After the last element of `a`. */
    method TailqInsertAfter(head: Addr, listelm: Addr, elm: Addr, ghost a: seq<Addr>, ghost b: seq<Addr>)
      requires TailQ(mem, head, a + b) && Free(mem, head, a + b, elm) && a != [] && LastOr(head, a) == listelm
      modifies this
      ensures TailQ(mem, head, a + [elm] + b) && Untouched(old(mem), mem, [head, elm] + (a + b))
    {
      Seam(mem, true, head, a, b);
      Around(head, a, b);
      SetNext(elm, mem[listelm].next);
      if mem[elm].next != NULL {
        SetPrev(mem[elm].next, elm);
      } else {
        SetPrev(head, elm);
      }
      SetNext(listelm, elm);
      SetPrev(elm, listelm);
      Inserted(old(mem), mem, true, head, elm, a, b);
    }

    /** Before the first element of `b`; the head is not consulted. */
    method TailqInsertBefore(listelm: Addr, elm: Addr, ghost head: Addr, ghost a: seq<Addr>, ghost b: seq<Addr>)
      requires TailQ(mem, head, a + b) && Free(mem, head, a + b, elm) && b != [] && b[0] == listelm
      modifies this
      ensures TailQ(mem, head, a + [elm] + b) && Untouched(old(mem), mem, [head, elm] + (a + b))
    {
      Seam(mem, true, head, a, b);
      Around(head, a, b);
      SetPrev(elm, mem[listelm].prev);
      SetNext(elm, listelm);
      SetNext(mem[listelm].prev, elm);
      SetPrev(listelm, elm);
      Inserted(old(mem), mem, true, head, elm, a, b);
    }

    method TailqRemove(head: Addr, elm: Addr, ghost a: seq<Addr>, ghost b: seq<Addr>)
      requires TailQ(mem, head, a + ([elm] + b))
      modifies this
      ensures TailQ(mem, head, a + b) && Untouched(old(mem), mem, [head] + (a + b))
    {
      Beside(mem, true, head, elm, a, b);
      if mem[elm].next != NULL {
        SetPrev(mem[elm].next, mem[elm].prev);
      } else {
        SetPrev(head, mem[elm].prev);
      }
      SetNext(mem[elm].prev, mem[elm].next);
      Removed(old(mem), mem, true, head, elm, a, b);
    }

    /** Everything moves to the first queue, in order. */
    method TailqConcat(head1: Addr, head2: Addr, ghost s1: seq<Addr>, ghost s2: seq<Addr>)
      requires TailQ(mem, head1, s1) && TailQ(mem, head2, s2) && Apart([head1] + s1, [head2] + s2)
      modifies this
      ensures TailQ(mem, head1, s1 + s2) && TailQ(mem, head2, [])
      ensures Untouched(old(mem), mem, [head1] + s1 + ([head2] + s2))
    {
      Ends(mem, true, head1, head2, s1, s2);
      if mem[head2].next != NULL {
        SetNext(mem[head1].prev, mem[head2].next);
        SetPrev(mem[head2].next, mem[head1].prev);
        SetPrev(head1, mem[head2].prev);
        TailqInit(head2);
        Joined(old(mem), mem, true, head1, head2, s1, s2);
      } else {
        assert s1 + s2 == s1;
      }
    }

    method TailqSwap(head1: Addr, head2: Addr, ghost s1: seq<Addr>, ghost s2: seq<Addr>)
      requires TailQ(mem, head1, s1) && TailQ(mem, head2, s2) && Apart([head1] + s1, [head2] + s2)
      modifies this
      ensures TailQ(mem, head1, s2) && TailQ(mem, head2, s1)
      ensures Untouched(old(mem), mem, [head1] + s1 + ([head2] + s2))
    {
      Ends(mem, true, head1, head2, s1, s2);
      var swapFirst, swapLast := mem[head1].next, mem[head1].prev;
      SetNext(head1, mem[head2].next);
      SetPrev(head1, mem[head2].prev);
      SetNext(head2, swapFirst);
      SetPrev(head2, swapLast);
      swapFirst := mem[head1].next;
      if swapFirst != NULL {
        SetPrev(swapFirst, head1);
      } else {
        SetPrev(head1, head1);
      }
      swapFirst := mem[head2].next;
      if swapFirst != NULL {
        SetPrev(swapFirst, head2);
      } else {
        SetPrev(head2, head2);
      }
      Rehung(old(mem), mem, true, head1, head2, s2);
      Rehung(old(mem), mem, true, head2, head1, s1);
    }

    /** TAILQ_LAST: the terminal cell, read as a head, leads to the cell pointing
        at the last element; on an empty queue it is the head itself. */
    method TailqLast(head: Addr, ghost s: seq<Addr>) returns (e: Addr)
      requires TailQ(mem, head, s)
      ensures e == LastOr(NULL, s)
    {
      LastCell(mem, head, s);
      e := mem[mem[mem[head].prev].prev].next;
    }

    method TailqPrev(elm: Addr, ghost head: Addr, ghost a: seq<Addr>, ghost b: seq<Addr>) returns (e: Addr)
      requires TailQ(mem, head, a + ([elm] + b))
      ensures e == LastOr(NULL, a)
    {
      Beside(mem, true, head, elm, a, b);
      assert a + ([elm] + b) == a + [elm] + b;
      PrevCell(mem, head, a, [elm] + b);
      e := mem[mem[mem[elm].prev].prev].next;
    }

    /** TAILQ_FOREACH_REVERSE visits the elements in reverse order, and stops. */
    method TailqForeachReverse(head: Addr, ghost s: seq<Addr>) returns (visited: seq<Addr>)
      requires TailQ(mem, head, s)
      ensures |visited| == |s| && forall i | 0 <= i < |s| :: visited[i] == s[|s| - 1 - i]
    {
      visited := [];
      var e := TailqLast(head, s);
      ghost var k := |s|;
      while e != NULL
        invariant 0 <= k <= |s| && |visited| == |s| - k
        invariant forall i | 0 <= i < |visited| :: visited[i] == s[|s| - 1 - i]
        invariant e == LastOr(NULL, s[..k])
        decreases k
      {
        assert s == s[..k - 1] + ([s[k - 1]] + s[k..]);
        visited := visited + [e];
        e := TailqPrev(e, head, s[..k - 1], s[k..]);
        k := k - 1;
      }
      NotNull(mem, head, s, k);
    }

    // -------------------------------------------------------------- STAILQ

    method StailqInsertHead(head: Addr, elm: Addr, ghost s: seq<Addr>)
      requires STailQ(mem, head, s) && Free(mem, head, s, elm)
      modifies this
      ensures STailQ(mem, head, [elm] + s) && Untouched(old(mem), mem, [head, elm])
    {
      assert [] + s == s && [] + [elm] + s == [elm] + s;
      Seam(mem, false, head, [], s);
      Around(head, [], s);
      SetNext(elm, mem[head].next);
      if mem[elm].next == NULL {
        SetPrev(head, elm);
      }
      SetNext(head, elm);
      Inserted(old(mem), mem, false, head, elm, [], s);
    }

    method StailqInsertTail(head: Addr, elm: Addr, ghost s: seq<Addr>)
      requires STailQ(mem, head, s) && Free(mem, head, s, elm)
      modifies this
      ensures STailQ(mem, head, s + [elm]) && Untouched(old(mem), mem, [head, elm] + s)
    {
      assert s + [] == s && s + [elm] + [] == s + [elm];
      Seam(mem, false, head, s, []);
      Around(head, s, []);
      SetNext(elm, NULL);
      SetNext(mem[head].prev, elm);
      SetPrev(head, elm);
      Inserted(old(mem), mem, false, head, elm, s, []);
    }

    method StailqInsertAfter(head: Addr, tqelm: Addr, elm: Addr, ghost a: seq<Addr>, ghost b: seq<Addr>)
      requires STailQ(mem, head, a + b) && Free(mem, head, a + b, elm) && a != [] && LastOr(head, a) == tqelm
      modifies this
      ensures STailQ(mem, head, a + [elm] + b) && Untouched(old(mem), mem, [head, elm, tqelm])
    {
      Seam(mem, false, head, a, b);
      Around(head, a, b);
      SetNext(elm, mem[tqelm].next);
      if mem[elm].next == NULL {
        SetPrev(head, elm);
      }
      SetNext(tqelm, elm);
      Inserted(old(mem), mem, false, head, elm, a, b);
    }

    /** STAILQ_REMOVE: walks from the first element to the one before `elm`. */
    method StailqRemove(head: Addr, elm: Addr, ghost a: seq<Addr>, ghost b: seq<Addr>)
      requires STailQ(mem, head, a + ([elm] + b))
      modifies this
      ensures STailQ(mem, head, a + b) && Untouched(old(mem), mem, [head] + a)
    {
      Beside(mem, false, head, elm, a, b);
      var curelm := head;
      if mem[head].next != elm {
        curelm := StailqFindBefore(head, elm, a, b);
      } else {
        OnlyAtFront(mem, head, elm, a, b);
      }
      SetNext(curelm, mem[mem[curelm].next].next);
      if mem[curelm].next == NULL {
        SetPrev(head, curelm);
      }
      Removed(old(mem), mem, false, head, elm, a, b);
    }

    method StailqFindBefore(head: Addr, elm: Addr, ghost a: seq<Addr>, ghost b: seq<Addr>) returns (curelm: Addr)
      requires STailQ(mem, head, a + ([elm] + b)) && mem[head].next != elm
      ensures a != [] && curelm == a[|a| - 1]
    {
      ghost var k := 0;
      curelm := mem[head].next;
      StepTo(mem, head, elm, a, b, 0);
      while mem[curelm].next != elm
        invariant 0 <= k < |a| && curelm == a[k] && curelm in mem
        decreases |a| - k
      {
        StepTo(mem, head, elm, a, b, k + 1);
        curelm := mem[curelm].next;
        k := k + 1;
      }
      StepTo(mem, head, elm, a, b, k + 1);
    }

    method StailqConcat(head1: Addr, head2: Addr, ghost s1: seq<Addr>, ghost s2: seq<Addr>)
      requires STailQ(mem, head1, s1) && STailQ(mem, head2, s2) && Apart([head1] + s1, [head2] + s2)
      modifies this
      ensures STailQ(mem, head1, s1 + s2) && STailQ(mem, head2, [])
      ensures Untouched(old(mem), mem, [head1, head2] + s1)
    {
      Ends(mem, false, head1, head2, s1, s2);
      if mem[head2].next != NULL {
        SetNext(mem[head1].prev, mem[head2].next);
        SetPrev(head1, mem[head2].prev);
        SetNext(head2, NULL);
        SetPrev(head2, head2);
        Joined(old(mem), mem, false, head1, head2, s1, s2);
      } else {
        assert s1 + s2 == s1;
      }
    }

    method StailqSwap(head1: Addr, head2: Addr, ghost s1: seq<Addr>, ghost s2: seq<Addr>)
      requires STailQ(mem, head1, s1) && STailQ(mem, head2, s2) && Apart([head1] + s1, [head2] + s2)
      modifies this
      ensures STailQ(mem, head1, s2) && STailQ(mem, head2, s1) && Untouched(old(mem), mem, [head1, head2])
    {
      Ends(mem, false, head1, head2, s1, s2);
      var swapFirst, swapLast := mem[head1].next, mem[head1].prev;
      SetNext(head1, mem[head2].next);
      SetPrev(head1, mem[head2].prev);
      SetNext(head2, swapFirst);
      SetPrev(head2, swapLast);
      if mem[head1].next == NULL {
        SetPrev(head1, head1);
      }
      if mem[head2].next == NULL {
        SetPrev(head2, head2);
      }
      Rehung(old(mem), mem, false, head1, head2, s2);
      Rehung(old(mem), mem, false, head2, head1, s1);
    }

    /** STAILQ_LAST: the owner of the terminal cell, unless that is the head. */
    method StailqLast(head: Addr, ghost s: seq<Addr>) returns (e: Addr)
      requires STailQ(mem, head, s)
      ensures e == LastOr(NULL, s)
    {
      assert [] + s == s;
      Seam(mem, false, head, [], s);
      e := if mem[head].next == NULL then NULL else mem[head].prev;
    }

    // -------------------------------------------------------------- LIST

    method ListInsertHead(head: Addr, elm: Addr, ghost s: seq<Addr>)
      requires List(mem, head, s) && Free(mem, head, s, elm)
      modifies this
      ensures List(mem, head, [elm] + s) && Untouched(old(mem), mem, [head, elm] + s)
    {
      assert [] + s == s && [] + [elm] + s == [elm] + s;
      Seam(mem, true, head, [], s);
      Around(head, [], s);
      SetNext(elm, mem[head].next);
      if mem[elm].next != NULL {
        SetPrev(mem[head].next, elm);
      }
      SetNext(head, elm);
      SetPrev(elm, head);
      Inserted(old(mem), mem, true, head, elm, [], s);
    }

    method ListInsertAfter(listelm: Addr, elm: Addr, ghost head: Addr, ghost a: seq<Addr>, ghost b: seq<Addr>)
      requires List(mem, head, a + b) && Free(mem, head, a + b, elm) && a != [] && LastOr(head, a) == listelm
      modifies this
      ensures List(mem, head, a + [elm] + b) && Untouched(old(mem), mem, [elm] + (a + b))
    {
      Seam(mem, true, head, a, b);
      Around(head, a, b);
      SetNext(elm, mem[listelm].next);
      if mem[elm].next != NULL {
        SetPrev(mem[listelm].next, elm);
      }
      SetNext(listelm, elm);
      SetPrev(elm, listelm);
      Inserted(old(mem), mem, true, head, elm, a, b);
    }

    method ListInsertBefore(listelm: Addr, elm: Addr, ghost head: Addr, ghost a: seq<Addr>, ghost b: seq<Addr>)
      requires List(mem, head, a + b) && Free(mem, head, a + b, elm) && b != [] && b[0] == listelm
      modifies this
      ensures List(mem, head, a + [elm] + b) && Untouched(old(mem), mem, [head, elm] + (a + b))
    {
      Seam(mem, true, head, a, b);
      Around(head, a, b);
      SetPrev(elm, mem[listelm].prev);
      SetNext(elm, listelm);
      SetNext(mem[listelm].prev, elm);
      SetPrev(listelm, elm);
      Inserted(old(mem), mem, true, head, elm, a, b);
    }

    /** LIST_REMOVE needs neither the head nor a walk. */
    method ListRemove(elm: Addr, ghost head: Addr, ghost a: seq<Addr>, ghost b: seq<Addr>)
      requires List(mem, head, a + ([elm] + b))
      modifies this
      ensures List(mem, head, a + b) && Untouched(old(mem), mem, [head] + (a + b))
    {
      Beside(mem, true, head, elm, a, b);
      if mem[elm].next != NULL {
        SetPrev(mem[elm].next, mem[elm].prev);
      }
      SetNext(mem[elm].prev, mem[elm].next);
      Removed(old(mem), mem, true, head, elm, a, b);
    }

    method ListSwap(head1: Addr, head2: Addr, ghost s1: seq<Addr>, ghost s2: seq<Addr>)
      requires List(mem, head1, s1) && List(mem, head2, s2) && Apart([head1] + s1, [head2] + s2)
      modifies this
      ensures List(mem, head1, s2) && List(mem, head2, s1)
      ensures Untouched(old(mem), mem, [head1] + s1 + ([head2] + s2))
    {
      Ends(mem, true, head1, head2, s1, s2);
      var swapTmp := mem[head1].next;
      SetNext(head1, mem[head2].next);
      SetNext(head2, swapTmp);
      swapTmp := mem[head1].next;
      if swapTmp != NULL {
        SetPrev(swapTmp, head1);
      }
      swapTmp := mem[head2].next;
      if swapTmp != NULL {
        SetPrev(swapTmp, head2);
      }
      Rehung(old(mem), mem, true, head1, head2, s2);
      Rehung(old(mem), mem, true, head2, head1, s1);
    }

    /** LIST_PREV: the owner of the cell pointing at the element, unless that is
        the head. */
    method ListPrev(elm: Addr, head: Addr, ghost a: seq<Addr>, ghost b: seq<Addr>) returns (e: Addr)
      requires List(mem, head, a + ([elm] + b))
      ensures e == LastOr(NULL, a)
    {
      Beside(mem, true, head, elm, a, b);
      e := if mem[elm].prev == head then NULL else mem[elm].prev;
    }
  }
}
