/** Integer matrix product of the BASIC interpreter: `matmuli` of bas3.c, on
    the flat element buffers it walks with strided pointers. */
module MatMul {
  import opened Words
  import opened Arith
  import Arrays

  /** The sum over the first `k` steps of the products met by a pointer that
      starts at `v` and steps by one and a pointer that starts at `x` and steps
      by `stride`. */
  function Sum(a: seq<int32>, b: seq<int32>, v: nat, x: nat, stride: nat, k: nat): int
    requires v + k <= |a| && (k > 0 ==> x + (k - 1) * stride < |b|)
  {
    if k == 0 then 0
    else
      Reach(x, stride, k - 1);
      Sum(a, b, v, x, stride, k - 1) + a[v + (k - 1)] as int * b[x + (k - 1) * stride]
  }

  lemma Reach(x: nat, stride: nat, k: nat)
    ensures k > 0 ==> 0 <= x + (k - 1) * stride <= x + k * stride
    ensures x <= x + k * stride
  {
    assert k * stride >= 0;
    if k > 0 { assert k * stride == (k - 1) * stride + stride; }
  }

  /** Every product and every partial sum up to step `k` is accepted. */
  predicate Accepted(a: seq<int32>, b: seq<int32>, v: nat, x: nat, stride: nat, k: nat)
    requires v + k <= |a| && (k > 0 ==> x + (k - 1) * stride < |b|)
  {
    k > 0 ==>
      (Reach(x, stride, k - 1);
       && Accepted(a, b, v, x, stride, k - 1)
       && Abs(a[v + (k - 1)] as int * b[x + (k - 1) * stride]) < TWO31
       && Fits(Sum(a, b, v, x, stride, k)))
  }

  lemma {:induction false} AcceptedPrefix(a: seq<int32>, b: seq<int32>, v: nat, x: nat, stride: nat, k: nat, n: nat)
    requires k <= n && v + n <= |a| && (n > 0 ==> x + (n - 1) * stride < |b|) && (k > 0 ==> x + (k - 1) * stride < |b|)
    ensures Accepted(a, b, v, x, stride, n) ==> Accepted(a, b, v, x, stride, k)
    decreases n
  {
    if k < n {
      Reach(x, stride, n - 1);
      AcceptedPrefix(a, b, v, x, stride, k, n - 1);
    }
  }

  lemma Swapped(p: int, q: int)
    ensures p * q == q * p
  {
  }

  /** The innermost loop. */
  method Dot(a: array<int32>, b: array<int32>, v: nat, x: nat, stride: nat, n: nat) returns (ok: bool, r: int32)
    requires v + n <= a.Length && (n > 0 ==> x + (n - 1) * stride < b.Length)
    ensures ok <==> Accepted(a[..], b[..], v, x, stride, n)
    ensures ok ==> r == Sum(a[..], b[..], v, x, stride, n)
  {
    var vp, xp, k := v, x, 0;
    ok, r := true, 0;
    ghost var aa, bb := a[..], b[..];
    while k < n
      invariant 0 <= k <= n && vp == v + k && xp == x + k * stride
      invariant k > 0 ==> x + (k - 1) * stride < b.Length
      invariant Accepted(aa, bb, v, x, stride, k) && r == Sum(aa, bb, v, x, stride, k)
    {
      Bounded(x, stride, k, n, b.Length);
      var over, l := MmultPly(b[xp], a[vp]);
      Swapped(b[xp], a[vp]);
      assert k + 1 - 1 == k;
      if over {
        AcceptedPrefix(aa, bb, v, x, stride, k + 1, n);
        return false, 0;
      }
      var ll := Wrap(r + l);
      IsOverExact(r, l);
      assert Sum(aa, bb, v, x, stride, k + 1) == r + l;
      if IsOver(r, l, ll) {
        AcceptedPrefix(aa, bb, v, x, stride, k + 1, n);
        return false, 0;
      }
      r := ll;
      NextStep(x, stride, k);
      xp := xp + stride;
      vp, k := vp + 1, k + 1;
    }
  }

  lemma NextStep(x: nat, stride: nat, k: nat)
    ensures x + k * stride + stride == x + (k + 1) * stride
  {
  }

  lemma Bounded(x: nat, stride: nat, k: nat, n: nat, len: nat)
    requires k < n && x + (n - 1) * stride < len
    ensures 0 <= x + k * stride < len
  {
    assert (n - 1 - k) * stride >= 0;
    assert k * stride >= 0;
  }

  // ---------------------------------------------------------------- the whole product

  /** Row-major buffers of a `da1` by `da2` and a `da2` by `db2` matrix. */
  predicate Sized(a: seq<int32>, b: seq<int32>, da1: nat, da2: nat, db2: nat) {
    |a| == da1 * da2 && |b| == da2 * db2
  }

  lemma Distribute(i: int, d: int, m: int)
    ensures (i + 1 + d) * m == i * m + m + d * m
  {
  }

  lemma NonNegative(i: nat, m: nat)
    ensures i * m >= 0
  {
  }

  lemma RowEnd(n: nat, m: nat, i: nat)
    requires i < n
    ensures 0 <= i * m && i * m + m <= n * m
  {
    Distribute(i, n - 1 - i, m);
    NonNegative(n - 1 - i, m);
    NonNegative(i, m);
  }

  /** Row `i` and column `j` can be walked without leaving the buffers. */
  lemma Walkable(da1: nat, da2: nat, db2: nat, i: nat, j: nat)
    requires i < da1 && j < db2
    ensures 0 <= i * da2 && i * da2 + da2 <= da1 * da2
    ensures da2 > 0 ==> 0 <= j + (da2 - 1) * db2 < da2 * db2
    ensures 0 <= i * db2 + j < da1 * db2
  {
    RowEnd(da1, da2, i);
    RowEnd(da1, db2, i);
    if da2 > 0 { RowEnd(da2, db2, da2 - 1); }
  }

  /** The exact inner product of row `i` and column `j`. */
  function Entry(a: seq<int32>, b: seq<int32>, da1: nat, da2: nat, db2: nat, i: nat, j: nat): int
    requires Sized(a, b, da1, da2, db2) && i < da1 && j < db2
  {
    Walkable(da1, da2, db2, i, j);
    Sum(a, b, i * da2, j, db2, da2)
  }

  predicate EntryAccepted(a: seq<int32>, b: seq<int32>, da1: nat, da2: nat, db2: nat, i: nat, j: nat)
    requires Sized(a, b, da1, da2, db2) && i < da1 && j < db2
  {
    Walkable(da1, da2, db2, i, j);
    Accepted(a, b, i * da2, j, db2, da2)
  }

  /** The cells in the order in which they are computed. */
  predicate Before(i: nat, j: nat, i1: nat, j1: nat) { i < i1 || (i == i1 && j < j1) }

  /** Cells before (i1, j1) hold their entries, and these were accepted. */
  ghost predicate Computed(z: seq<int32>, a: seq<int32>, b: seq<int32>, da1: nat, da2: nat, db2: nat, i1: nat, j1: nat)
    requires Sized(a, b, da1, da2, db2) && |z| == da1 * db2
  {
    forall i: nat, j: nat :: i < da1 && j < db2 && Before(i, j, i1, j1) ==>
      (Walkable(da1, da2, db2, i, j);
       EntryAccepted(a, b, da1, da2, db2, i, j) && z[i * db2 + j] == Entry(a, b, da1, da2, db2, i, j))
  }

  lemma SamePlace(db2: nat, i: nat, j: nat, i1: nat, j1: nat)
    requires j < db2 && j1 < db2
    ensures i * db2 + j == i1 * db2 + j1 ==> i == i1 && j == j1
  {
    Arrays.Multiple(db2, i - i1);
    assert db2 * (i - i1) == i * db2 - i1 * db2;
  }

  lemma ComputedOne(z: seq<int32>, a: seq<int32>, b: seq<int32>, da1: nat, da2: nat, db2: nat, i1: nat, j1: nat, x: int32)
    requires Sized(a, b, da1, da2, db2) && |z| == da1 * db2 && i1 < da1 && j1 < db2
    requires Computed(z, a, b, da1, da2, db2, i1, j1)
    requires EntryAccepted(a, b, da1, da2, db2, i1, j1) && x == Entry(a, b, da1, da2, db2, i1, j1)
    ensures 0 <= i1 * db2 + j1 < |z| && Computed(z[i1 * db2 + j1 := x], a, b, da1, da2, db2, i1, j1 + 1)
  {
    Walkable(da1, da2, db2, i1, j1);
    forall i: nat, j: nat | i < da1 && j < db2 && Before(i, j, i1, j1 + 1)
      ensures 0 <= i * db2 + j < |z| && EntryAccepted(a, b, da1, da2, db2, i, j) && z[i1 * db2 + j1 := x][i * db2 + j] == Entry(a, b, da1, da2, db2, i, j)
    {
      Walkable(da1, da2, db2, i, j);
      SamePlace(db2, i, j, i1, j1);
    }
  }

  lemma NextRow(z: seq<int32>, a: seq<int32>, b: seq<int32>, da1: nat, da2: nat, db2: nat, i: nat)
    requires Sized(a, b, da1, da2, db2) && |z| == da1 * db2 && Computed(z, a, b, da1, da2, db2, i, db2)
    ensures Computed(z, a, b, da1, da2, db2, i + 1, 0)
  {
  }

  /** The product of two matrices. With `ok` every cell holds the exact sum of
      products. It fails, with `INTOVER`, exactly when a product or a partial
      sum of some cell is not accepted; the cells before that one are then
      computed and the others as before. */
  method MatMulI(z: array<int32>, a: array<int32>, b: array<int32>, da1: nat, da2: nat, db2: nat) returns (ok: bool, i: nat, j: nat)
    requires z != a && z != b && Sized(a[..], b[..], da1, da2, db2) && z.Length == da1 * db2
    modifies z
    ensures Computed(z[..], a[..], b[..], da1, da2, db2, i, j)
    ensures ok ==> i == da1 && j == 0
    ensures !ok ==> i < da1 && j < db2 && !EntryAccepted(a[..], b[..], da1, da2, db2, i, j)
    ensures forall n :: i * db2 + j <= n < z.Length ==> z[n] == old(z[n])
  {
    ghost var aa, bb := a[..], b[..];
    var vpp, zpp := 0, 0;
    i, j := 0, 0;
    while i < da1
      invariant i <= da1 && j == 0 && vpp == i * da2 && zpp == i * db2
      invariant a[..] == aa && b[..] == bb
      invariant Computed(z[..], aa, bb, da1, da2, db2, i, 0)
      invariant forall n :: i * db2 <= n < z.Length ==> z[n] == old(z[n])
    {
      var zp, xpp := zpp, 0;
      while j < db2
        invariant j <= db2 && zp == zpp + j && xpp == j
        invariant a[..] == aa && b[..] == bb
        invariant Computed(z[..], aa, bb, da1, da2, db2, i, j)
        invariant forall n :: i * db2 + j <= n < z.Length ==> z[n] == old(z[n])
      {
        Walkable(da1, da2, db2, i, j);
        var fine, x := Dot(a, b, vpp, xpp, db2, da2);
        if !fine {
          return false, i, j;
        }
        ComputedOne(z[..], aa, bb, da1, da2, db2, i, j, x);
        ghost var before := z[..];
        z[zp] := x;
        assert z[..] == before[zp := x];
        zp, xpp, j := zp + 1, xpp + 1, j + 1;
      }
      NextRow(z[..], aa, bb, da1, da2, db2, i);
      NextStep(0, da2, i);
      NextStep(0, db2, i);
      vpp := vpp + da2;
      zpp := zpp + db2;
      i, j := i + 1, 0;
    }
    ok := true;
  }

  // ---------------------------------------------------------------- laws of the product

  /** The column walked is zero up to step `k`, except for a one at step `j`. */
  ghost predicate UnitColumn(b: seq<int32>, x: nat, stride: nat, j: nat, n: nat) {
    forall k :: 0 <= k < n ==> 0 <= x + k * stride < |b| && b[x + k * stride] == if k == j then 1 else 0
  }

  lemma {:induction false} SumUnit(a: seq<int32>, b: seq<int32>, v: nat, x: nat, stride: nat, j: nat, k: nat)
    requires v + k <= |a| && (k > 0 ==> x + (k - 1) * stride < |b|) && UnitColumn(b, x, stride, j, k)
    ensures Sum(a, b, v, x, stride, k) == if j < k then a[v + j] as int else 0
    decreases k
  {
    if k > 0 {
      Reach(x, stride, k - 1);
      SumUnit(a, b, v, x, stride, j, k - 1);
      assert b[x + (k - 1) * stride] == if k - 1 == j then 1 else 0;
    }
  }

  /** Multiplying by the identity matrix from the right gives the matrix. */
  lemma TimesIdentity(a: seq<int32>, b: seq<int32>, da1: nat, n: nat, i: nat, j: nat)
    requires Sized(a, b, da1, n, n) && i < da1 && j < n && UnitColumn(b, j, n, j, n)
    ensures 0 <= i * n + j < |a| && Entry(a, b, da1, n, n, i, j) == a[i * n + j] as int
  {
    Walkable(da1, n, n, i, j);
    SumUnit(a, b, i * n, j, n, j, n);
  }

  /** The sum is linear in the first matrix. */
  lemma {:induction false} SumLinear(a: seq<int32>, a1: seq<int32>, a2: seq<int32>, b: seq<int32>, v: nat, x: nat, stride: nat, k: nat)
    requires |a| == |a1| == |a2| && v + k <= |a| && (k > 0 ==> x + (k - 1) * stride < |b|)
    requires forall i :: v <= i < v + k ==> a[i] as int == a1[i] as int + a2[i] as int
    ensures Sum(a, b, v, x, stride, k) == Sum(a1, b, v, x, stride, k) + Sum(a2, b, v, x, stride, k)
    decreases k
  {
    if k > 0 {
      Reach(x, stride, k - 1);
      SumLinear(a, a1, a2, b, v, x, stride, k - 1);
      Spread(a1[v + (k - 1)], a2[v + (k - 1)], b[x + (k - 1) * stride]);
    }
  }

  lemma Spread(p: int, q: int, m: int)
    ensures (p + q) * m == p * m + q * m
  {
  }
}
