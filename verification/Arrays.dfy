/** Array storage of the BASIC interpreter: `dim_one` and `getarray` of
    bas2.c. Subscripts arrive evaluated: a list of values separated by commas
    and whether a closing bracket follows the last one. */
module Arrays {
  import opened Words
  import opened Arith

  const MAX_ARRAY: int := 200000000
  const MAXDIMS: nat := 64
  const BAD_COUNT: nat := 16
  const BAD_SUBSCRIPT: nat := 17
  const NO_MEMORY: nat := 24

  /** The bytes of an element: real, integer or string descriptor. */
  datatype ElementType = RVal | IVal | SVal

  function Size(t: ElementType): int { match t case RVal => 8 case IVal => 4 case SVal => 8 }

  function Product(dims: seq<int>): int
    decreases |dims|
  {
    if dims == [] then 1 else Product(dims[..|dims| - 1]) * dims[|dims| - 1]
  }

  /** Dimensions in the order of the declaration. */
  ghost predicate Shape(dims: seq<int>) {
    && 1 <= |dims| <= MAXDIMS && Product(dims) <= MAX_ARRAY
    && forall k :: 0 <= k < |dims| ==> dims[k] >= 1
  }

  /** A declared array: the dimensions lie behind the elements, last one first. */
  datatype Array = Array(stored: seq<int32>, elem: ElementType)

  function Reversed(s: seq<int32>): (r: seq<int32>)
    ensures |r| == |s| && forall k :: 0 <= k < |s| ==> r[k] == s[|s| - 1 - k]
  {
    seq(|s|, k requires 0 <= k < |s| => s[|s| - 1 - k])
  }

  // ---------------------------------------------------------------- the index of a tuple

  /** Zero-based subscripts of an element, in the order of the declaration. */
  ghost predicate Within(dims: seq<int>, subs: seq<int>) {
    |subs| == |dims| && forall k :: 0 <= k < |dims| ==> 0 <= subs[k] < dims[k]
  }

  /** The place of an element. */
  function Index(dims: seq<int>, subs: seq<int>): int
    requires |dims| == |subs|
    decreases |dims|
  {
    if dims == [] then 0
    else
      var n := |dims| - 1;
      subs[n] + Index(dims[..n], subs[..n]) * dims[n]
  }

  /** The tuple at a place. */
  function Tuple(dims: seq<int>, place: int): (subs: seq<int>)
    requires forall k :: 0 <= k < |dims| ==> dims[k] >= 1
    ensures |subs| == |dims|
    decreases |dims|
  {
    if dims == [] then []
    else
      var n := |dims| - 1;
      Tuple(dims[..n], place / dims[n]) + [place % dims[n]]
  }

  lemma {:induction false} ProductPositive(dims: seq<int>)
    requires forall k :: 0 <= k < |dims| ==> dims[k] >= 1
    ensures Product(dims) >= 1
    decreases |dims|
  {
    if dims != [] {
      var n := |dims| - 1;
      ProductPositive(dims[..n]);
      assert Product(dims[..n]) * dims[n] >= 1;
    }
  }

  lemma Horner(s: int, j: int, m: int, p: int)
    requires 0 <= s < m && 0 <= j < p
    ensures 0 <= s + j * m < p * m
    ensures (s + j * m) / m == j && (s + j * m) % m == s
  {
    Ordered(p, j + 1, m);
    Ordered(j, 0, m);
    assert (j + 1) * m == j * m + m;
    DivModUnique(s + j * m, m, j, s);
  }

  lemma DivModUnique(x: int, m: int, q: int, r: int)
    requires m > 0 && 0 <= r < m && x == r + q * m
    ensures x / m == q && x % m == r
  {
    var d := x / m - q;
    assert x == m * (x / m) + x % m;
    assert m * d == r - x % m;
    Multiple(m, d);
  }

  lemma Multiple(m: int, d: int)
    requires m > 0
    ensures d >= 1 ==> m * d >= m
    ensures d <= -1 ==> m * d <= -m
  {
    if d >= 1 { assert m * (d - 1) >= 0; }
    if d <= -1 { assert m * (-d - 1) >= 0; }
  }

  /** Tuples within range go to places below the product, and `Tuple` finds
      them again. */
  lemma {:induction false} IndexOfTuple(dims: seq<int>, subs: seq<int>)
    requires Within(dims, subs)
    ensures 0 <= Index(dims, subs) < Product(dims)
    ensures Tuple(dims, Index(dims, subs)) == subs
    decreases |dims|
  {
    if dims != [] {
      var n := |dims| - 1;
      IndexOfTuple(dims[..n], subs[..n]);
      Horner(subs[n], Index(dims[..n], subs[..n]), dims[n], Product(dims[..n]));
      assert subs == subs[..n] + [subs[n]];
    }
  }

  lemma Ordered(a: int, b: int, m: int)
    requires m >= 0
    ensures a >= b ==> a * m >= b * m
  {
    if a >= b { assert (a - b) * m >= 0; }
  }

  lemma DivBelow(x: int, p: int, m: int)
    requires 0 <= x < p * m && m >= 1
    ensures 0 <= x / m < p && x % m + x / m * m == x
  {
    assert x == m * (x / m) + x % m;
    Ordered(x / m, p, m);
  }

  /** Every place below the product is the place of a tuple within range. */
  lemma {:induction false} TupleOfIndex(dims: seq<int>, place: int)
    requires forall k :: 0 <= k < |dims| ==> dims[k] >= 1
    requires 0 <= place < Product(dims)
    ensures Within(dims, Tuple(dims, place)) && Index(dims, Tuple(dims, place)) == place
    decreases |dims|
  {
    if dims != [] {
      var n := |dims| - 1;
      DivBelow(place, Product(dims[..n]), dims[n]);
      TupleOfIndex(dims[..n], place / dims[n]);
      var t := Tuple(dims, place);
      assert t[..n] == Tuple(dims[..n], place / dims[n]);
      assert t[n] == place % dims[n];
    }
  }

  /** Dropping dimensions never enlarges the product. */
  lemma {:induction false} ProductPrefix(dims: seq<int>, n: nat)
    requires n <= |dims| && forall k :: 0 <= k < |dims| ==> dims[k] >= 1
    ensures 1 <= Product(dims[..n]) <= Product(dims)
    decreases |dims| - n
  {
    ProductPositive(dims[..n]);
    if n == |dims| {
      assert dims[..n] == dims;
    } else {
      ProductPrefix(dims, n + 1);
      assert dims[..n + 1][..n] == dims[..n];
      assert Product(dims[..n + 1]) == Product(dims[..n]) * dims[n];
      assert Product(dims[..n]) * (dims[n] - 1) >= 0;
    }
  }

  /** One step in subscript `k` moves by the number of elements in the dimensions
      after it: the last subscript runs fastest. */
  lemma {:induction false} Stride(dims: seq<int>, subs: seq<int>, k: nat)
    requires |subs| == |dims| && k < |dims|
    ensures Index(dims, subs[k := subs[k] + 1]) == Index(dims, subs) + Product(dims[k + 1..])
    decreases |dims|
  {
    var n := |dims| - 1;
    var next := subs[k := subs[k] + 1];
    if k == n {
      assert next[..n] == subs[..n] && dims[k + 1..] == [];
    } else {
      assert next[..n] == subs[..n][k := subs[k] + 1] && next[n] == subs[n];
      Stride(dims[..n], subs[..n], k);
      var after := dims[k + 1..];
      assert after[..|after| - 1] == dims[..n][k + 1..] && after[|after| - 1] == dims[n];
      Distribute(Index(dims[..n], subs[..n]), Product(dims[..n][k + 1..]), dims[n]);
    }
  }

  lemma Distribute(x: int, y: int, m: int)
    ensures (x + y) * m == x * m + y * m
  {
  }

  lemma {:induction false} FirstElement(dims: seq<int>, subs: seq<int>)
    requires |subs| == |dims| && forall k :: 0 <= k < |subs| ==> subs[k] == 0
    ensures Index(dims, subs) == 0
    decreases |dims|
  {
    if dims != [] { FirstElement(dims[..|dims| - 1], subs[..|dims| - 1]); }
  }

  // ---------------------------------------------------------------- getarray

  function Zero(base: int, vs: seq<int32>): seq<int> { seq(|vs|, k requires 0 <= k < |vs| => vs[k] - base) }

  /** Some subscript that is read lies outside its dimension. */
  ghost predicate OutOfRange(dims: seq<int>, subs: seq<int>) {
    exists k :: 0 <= k < |subs| && k < |dims| && !(0 <= subs[k] < dims[k])
  }

  /** What an access must give: a byte offset, or the error. */
  ghost function Access(a: Array, base: int, vs: seq<int32>, closed: bool): Outcome<int> {
    var dims, subs := Reversed(a.stored), Zero(base, vs);
    if OutOfRange(dims, subs) then Err(BAD_SUBSCRIPT)
    else if |subs| != |dims| || !closed then Err(BAD_COUNT)
    else Ok(Size(a.elem) * Index(dims, subs))
  }

  lemma IndexStep(dims: seq<int>, subs: seq<int>, i: nat)
    requires i < |dims| && i < |subs|
    ensures Index(dims[..i + 1], subs[..i + 1]) == subs[i] + Index(dims[..i], subs[..i]) * dims[i]
  {
    assert dims[..i + 1][..i] == dims[..i] && subs[..i + 1][..i] == subs[..i];
  }

  lemma IndexBound(dims: seq<int>, subs: seq<int>, i: nat)
    requires Shape(dims) && i <= |dims| && i <= |subs|
    requires forall k :: 0 <= k < i ==> 0 <= subs[k] < dims[k]
    ensures 0 <= Index(dims[..i], subs[..i]) < MAX_ARRAY
  {
    IndexOfTuple(dims[..i], subs[..i]);
    ProductPrefix(dims, i);
  }

  ghost predicate Below(dims: seq<int>, subs: seq<int>, i: nat) {
    i <= |dims| && i <= |subs| && forall k :: 0 <= k < i ==> 0 <= subs[k] < dims[k]
  }

  /** One subscript further. */
  lemma Advance(dims: seq<int>, subs: seq<int>, i: nat, j: int)
    requires Shape(dims) && i < |dims| && i < |subs| && Below(dims, subs, i) && 0 <= subs[i] < dims[i]
    requires j == Index(dims[..i], subs[..i])
    ensures Below(dims, subs, i + 1)
    ensures subs[i] + j * dims[i] == Index(dims[..i + 1], subs[..i + 1])
    ensures 0 <= subs[i] + j * dims[i] < MAX_ARRAY
  {
    IndexStep(dims, subs, i);
    IndexBound(dims, subs, i + 1);
  }

  lemma Refused(dims: seq<int>, subs: seq<int>, i: nat)
    requires Shape(dims) && i < |dims| && i < |subs| && !(0 <= subs[i] < dims[i])
    ensures OutOfRange(dims, subs)
  {
  }

  /** `l` wraps only where the subscript is refused either way. */
  lemma Subscript(v: int32, base: int32, dim: int)
    requires 1 <= dim <= MAX_ARRAY && (base == 0 || base == 1)
    ensures var l := Wrap(v - base); (l >= dim || l < 0 <==> !(0 <= v - base < dim)) && (0 <= l < dim ==> l == v - base)
  {
  }

  /** The subscript loop; `j` and the byte offset stay in their 32 bits. */
  method GetArray(a: Array, base: int32, vs: seq<int32>, closed: bool) returns (r: Outcome<int>)
    requires Shape(Reversed(a.stored)) && (base == 0 || base == 1) && |vs| >= 1
    ensures r == Access(a, base, vs, closed)
    ensures r.Ok? ==> Fits(r.value)
  {
    ghost var dims: seq<int>, subs: seq<int> := Reversed(a.stored), Zero(base, vs);
    var m, i := |a.stored| - 1, 0;
    var j: int32 := 0;
    while i < |vs| && i < |a.stored|
      invariant Below(dims, subs, i) && m == |a.stored| - 1 - i
      invariant j == Index(dims[..i], subs[..i])
    {
      var l := Wrap(vs[i] - base);
      DimensionSmall(dims, i);
      Subscript(vs[i], base, dims[i]);
      if l >= a.stored[m] || l < 0 {
        Refused(dims, subs, i);
        return Err(BAD_SUBSCRIPT);
      }
      Advance(dims, subs, i, j);
      j := l + j * a.stored[m];
      m, i := m - 1, i + 1;
    }
    if i != |a.stored| || i != |vs| || !closed {
      return Err(BAD_COUNT);
    }
    assert dims[..i] == dims && subs[..i] == subs;
    IndexBound(dims, subs, i);
    var bytes: int32 := Size(a.elem) * j;
    return Ok(bytes);
  }

  lemma DimensionSmall(dims: seq<int>, i: nat)
    requires Shape(dims) && i < |dims|
    ensures 1 <= dims[i] <= MAX_ARRAY
  {
    ProductPrefix(dims, i + 1);
    ProductPrefix(dims, i);
    assert dims[..i + 1][..i] == dims[..i];
    assert (Product(dims[..i]) - 1) * dims[i] >= 0;
  }

  /** An access succeeds exactly on the tuples within range, whatever the base
      was when the array was declared. */
  lemma AccessExactly(a: Array, base: int, vs: seq<int32>, closed: bool)
    ensures Access(a, base, vs, closed).Ok? <==> closed && Within(Reversed(a.stored), Zero(base, vs))
  {
  }

  /** Error 17 exactly when a subscript that is read is out of range, else 16 for
      a wrong number of subscripts or a missing bracket. */
  lemma AccessErrors(a: Array, base: int, vs: seq<int32>, closed: bool)
    ensures Access(a, base, vs, closed) == Err(17)
            <==> exists k :: 0 <= k < |vs| && k < |a.stored| && !(0 <= vs[k] - base < a.stored[|a.stored| - 1 - k])
    ensures Access(a, base, vs, closed).Err? && Access(a, base, vs, closed) != Err(17)
            ==> Access(a, base, vs, closed) == Err(16) && (|vs| != |a.stored| || !closed)
  {
    var dims, subs := Reversed(a.stored), Zero(base, vs);
    if OutOfRange(dims, subs) {
      var k :| 0 <= k < |subs| && k < |dims| && !(0 <= subs[k] < dims[k]);
      assert !(0 <= vs[k] - base < a.stored[|a.stored| - 1 - k]);
    }
    forall k | 0 <= k < |vs| && k < |a.stored| && !(0 <= vs[k] - base < a.stored[|a.stored| - 1 - k])
      ensures OutOfRange(dims, subs)
    {
      assert !(0 <= subs[k] < dims[k]);
    }
  }

  /** Different tuples get separate elements, each inside the data area. */
  lemma AccessSeparate(a: Array, base: int, vs: seq<int32>, ws: seq<int32>)
    requires Access(a, base, vs, true).Ok? && Access(a, base, ws, true).Ok?
    ensures var p, q := Access(a, base, vs, true).value, Access(a, base, ws, true).value;
            && 0 <= p && p + Size(a.elem) <= Size(a.elem) * Product(Reversed(a.stored))
            && (vs != ws ==> p + Size(a.elem) <= q || q + Size(a.elem) <= p)
  {
    var dims, s, t := Reversed(a.stored), Zero(base, vs), Zero(base, ws);
    IndexOfTuple(dims, s);
    IndexOfTuple(dims, t);
    SizeTimes(a.elem, Index(dims, s), Product(dims));
    ZeroInjective(base, vs, ws);
  }

  lemma ZeroInjective(base: int, vs: seq<int32>, ws: seq<int32>)
    ensures Zero(base, vs) == Zero(base, ws) ==> vs == ws
  {
    var s, t := Zero(base, vs), Zero(base, ws);
    if s == t {
      forall k | 0 <= k < |vs| ensures vs[k] == ws[k] { assert s[k] == t[k]; }
    }
  }

  /** The first element is at the start, and in one dimension neighbours are
      eight bytes apart for reals and string descriptors, four for integers. */
  lemma Neighbours(a: Array, base: int, v: int32, w: int32)
    requires |a.stored| == 1 && base <= v && w == v + 1 && w < base + a.stored[0]
    ensures v == base ==> Access(a, base, [v], true) == Ok(0)
    ensures Access(a, base, [v], true).Ok? && Access(a, base, [w], true).Ok?
    ensures Access(a, base, [w], true).value - Access(a, base, [v], true).value
            == match a.elem case RVal => 8 case IVal => 4 case SVal => 8
  {
    var dims := Reversed(a.stored);
    assert dims == [a.stored[0]];
    assert Zero(base, [v]) == [v - base] && Zero(base, [w]) == [w - base];
    PlaceInLine(dims, v - base);
    PlaceInLine(dims, w - base);
  }

  lemma PlaceInLine(dims: seq<int>, i: int)
    requires |dims| == 1
    ensures Index(dims, [i]) == i
  {
    assert [i][..0] == [] && dims[..0] == [];
  }

  lemma SizeTimes(e: ElementType, i: int, p: int)
    requires 0 <= i < p
    ensures 0 <= Size(e) * i && Size(e) * i + Size(e) <= Size(e) * p
  {
  }

  function Subscripts(dims: seq<int>, base: int, place: int): (vs: seq<int>)
    requires forall k :: 0 <= k < |dims| ==> dims[k] >= 1
    ensures |vs| == |dims|
  {
    seq(|dims|, k requires 0 <= k < |dims| => Tuple(dims, place)[k] + base)
  }

  /** Every element of the data area is the element of some tuple. */
  lemma AccessOnto(a: Array, base: int, place: int) returns (vs: seq<int32>)
    requires Shape(Reversed(a.stored)) && (base == 0 || base == 1) && 0 <= place < Product(Reversed(a.stored))
    ensures Access(a, base, vs, true) == Ok(Size(a.elem) * place)
  {
    var dims: seq<int> := Reversed(a.stored);
    TupleOfIndex(dims, place);
    var subs := Tuple(dims, place);
    var us := Subscripts(dims, base, place);
    forall k | 0 <= k < |us| ensures Fits(us[k]) { DimensionSmall(dims, k); }
    vs := us;
    assert Zero(base, vs) == subs;
  }

  // ---------------------------------------------------------------- dim_one

  /** Base zero gives one element more per dimension. */
  function Declared(base: int, vs: seq<int32>): (d: seq<int>)
    ensures |d| == |vs|
  {
    seq(|vs|, k requires 0 <= k < |vs| => if base == 0 then vs[k] as int + 1 else vs[k])
  }

  /** Dimension `k` is positive and does not make the array too big. */
  ghost predicate DimFine(base: int, vs: seq<int32>, k: nat)
    requires k < |vs|
  {
    vs[k] > 0 && Product(Declared(base, vs)[..k + 1]) <= MAX_ARRAY
  }

  ghost predicate DimsFine(base: int, vs: seq<int32>, n: nat)
    requires n <= |vs|
  {
    forall k :: 0 <= k < n ==> DimFine(base, vs, k)
  }

  /** Some dimension that is read is refused. */
  ghost predicate TooBig(base: int, vs: seq<int32>) {
    exists k :: 0 <= k < |vs| && k < MAXDIMS && !DimFine(base, vs, k)
  }

  lemma FineShape(base: int, vs: seq<int32>)
    requires DimsFine(base, vs, |vs|) && 1 <= |vs| <= MAXDIMS
    ensures Shape(Declared(base, vs)) && forall k :: 0 <= k < |vs| ==> vs[k] > 0
  {
    var d := Declared(base, vs);
    forall k | 0 <= k < |vs| ensures d[k] >= 1 && vs[k] > 0 { assert DimFine(base, vs, k); }
    assert DimFine(base, vs, |vs| - 1);
    assert d[..|vs| - 1 + 1] == d;
  }

  lemma ShapeFine(base: int, vs: seq<int32>)
    requires Shape(Declared(base, vs)) && forall k :: 0 <= k < |vs| ==> vs[k] > 0
    ensures DimsFine(base, vs, |vs|)
  {
    forall k | 0 <= k < |vs| ensures DimFine(base, vs, k) {
      ProductPrefix(Declared(base, vs), k + 1);
    }
  }

  lemma ProductLast(d: seq<int>, i: nat)
    requires i < |d|
    ensures Product(d[..i + 1]) == Product(d[..i]) * d[i]
  {
    assert d[..i + 1][..i] == d[..i];
  }

  /** After a declaration the subscripts that work run from the base to the
      number given, in every dimension. */
  lemma DeclaredRange(a: Array, base: int, vs: seq<int32>, ws: seq<int32>)
    requires (base == 0 || base == 1) && Reversed(a.stored) == Declared(base, vs)
    ensures Access(a, base, ws, true).Ok? <==> |ws| == |vs| && forall k :: 0 <= k < |vs| ==> base <= ws[k] <= vs[k]
  {
    AccessExactly(a, base, ws, true);
    var dims, subs := Reversed(a.stored), Zero(base, ws);
    if |ws| == |vs| {
      forall k | 0 <= k < |vs| ensures 0 <= subs[k] < dims[k] <==> base <= ws[k] <= vs[k] { }
    }
  }

  /** The subscripts from the base to the numbers given work, and no others. */
  ghost predicate Usable(a: Array, base: int, vs: seq<int32>) {
    forall ws: seq<int32> ::
      Access(a, base, ws, true).Ok? <==> |ws| == |vs| && forall k :: 0 <= k < |vs| ==> base <= ws[k] <= vs[k]
  }

  lemma DeclaredUsable(a: Array, base: int, vs: seq<int32>)
    requires (base == 0 || base == 1) && Reversed(a.stored) == Declared(base, vs)
    ensures Usable(a, base, vs)
  {
    forall ws: seq<int32> ensures Access(a, base, ws, true).Ok? <==> |ws| == |vs| && forall k :: 0 <= k < |vs| ==> base <= ws[k] <= vs[k] {
      DeclaredRange(a, base, vs, ws);
    }
  }

  /** `mtestalloc`: whether so many bytes can be had. */
  type Room = int -> bool

  function Bytes(dims: seq<int>, t: ElementType): int { Size(t) * Product(dims) + 4 * |dims| }

  /** `mmult_ply` with error 17, then the bound. */
  method Enlarge(j: int32, m: int32, ghost dim: int) returns (r: Option<int32>)
    requires 1 <= j <= MAX_ARRAY && dim >= 1 && m == Wrap(dim) && dim <= TWO31
    ensures r.Some? <==> j * dim <= MAX_ARRAY
    ensures r.Some? ==> r.value == j * dim && m == dim && r.value >= 1
  {
    var over, p := MmultPly(j, m);
    EnlargeBound(j, m, dim);
    return if over || p > MAX_ARRAY then None else Some(p);
  }

  lemma EnlargeBound(j: int, m: int, dim: int)
    requires 1 <= j && dim >= 1 && (m == dim || (m == MIN_INT && dim == TWO31))
    ensures j * dim >= dim && j * dim >= j
    ensures Abs(j * m) == j * dim && (m == dim ==> j * m == j * dim)
  {
    assert (j - 1) * dim >= 0 && j * (dim - 1) >= 0;
    if m != dim { assert j * m == -(j * dim); }
  }

  /** The reading loop: the dimensions, how many, and their product. */
  method ReadDims(vs: seq<int32>, base: int32, dims: array<int32>) returns (fine: bool, n: nat, j: int32)
    requires |vs| >= 1 && dims.Length == MAXDIMS
    modifies dims
    ensures fine <==> !TooBig(base, vs)
    ensures fine ==> n == (if |vs| <= MAXDIMS then |vs| else MAXDIMS) && DimsFine(base, vs, n)
    ensures fine ==> j == Product(Declared(base, vs)[..n]) && 1 <= j <= MAX_ARRAY
    ensures fine ==> forall k :: 0 <= k < n ==> dims[k] == Declared(base, vs)[k]
  {
    ghost var d := Declared(base, vs);
    n, j := 0, 1;
    assert d[..0] == [];
    while n < MAXDIMS && n < |vs|
      invariant n <= MAXDIMS && n <= |vs| && DimsFine(base, vs, n)
      invariant forall k :: 0 <= k < n ==> dims[k] == d[k]
      invariant j == Product(d[..n]) && 1 <= j <= MAX_ARRAY
    {
      dims[n] := vs[n];
      if dims[n] <= 0 {
        assert !DimFine(base, vs, n);
        return false, n, j;
      }
      if base == 0 {
        dims[n] := Wrap(dims[n] as int + 1);
      }
      ProductLast(d, n);
      var e := Enlarge(j, dims[n], d[n]);
      if e.None? {
        assert !DimFine(base, vs, n);
        return false, n, j;
      }
      assert DimFine(base, vs, n);
      j := e.value;
      n := n + 1;
    }
    fine := true;
  }

  /** Declares an array. It succeeds exactly when the dimensions are positive,
      at most 64, closed by a bracket, their product is at most `MAX_ARRAY` and
      the memory can be had; the storage size then fits 32 bits. */
  method DimOne(vs: seq<int32>, closed: bool, base: int32, t: ElementType, room: Room) returns (r: Outcome<Array>)
    requires |vs| >= 1
    ensures r.Ok? <==> closed && (forall k :: 0 <= k < |vs| ==> vs[k] > 0) && |vs| <= 64 && Product(Declared(base, vs)) <= 200000000
                       && room(Bytes(Declared(base, vs), t))
    ensures r.Ok? ==> Reversed(r.value.stored) == Declared(base, vs) && r.value.elem == t && Fits(Bytes(Declared(base, vs), t))
    ensures r == Err(17) <==> TooBig(base, vs)
    ensures r == Err(16) <==> !TooBig(base, vs) && (|vs| > 64 || !closed)
    ensures r.Ok? ==> Shape(Reversed(r.value.stored))
    ensures r.Ok? && (base == 0 || base == 1) ==> Usable(r.value, base, vs)
  {
    ghost var d := Declared(base, vs);
    var dims := new int32[MAXDIMS];
    var fine, n, j := ReadDims(vs, base, dims);
    AcceptedExactly(base, vs);
    if !fine {
      return Err(BAD_SUBSCRIPT);
    }
    if n < |vs| || !closed {
      return Err(BAD_COUNT);
    }
    assert d[..n] == d;
    var bytes: int32 := Size(t) * j;
    if !room(bytes + n * 4) {
      return Err(NO_MEMORY);
    }
    var stored: seq<int32> := [];
    var i, ii := n - 1, 0;
    while i >= 0
      invariant -1 <= i < n && ii == n - 1 - i && |stored| == ii
      invariant forall k :: 0 <= k < ii ==> stored[k] == dims[n - 1 - k]
    {
      stored := stored + [dims[i]];
      i, ii := i - 1, ii + 1;
    }
    assert Reversed(stored) == d;
    r := Ok(Array(stored, t));
    if base == 0 || base == 1 {
      DeclaredUsable(r.value, base, vs);
    }
  }

  lemma AcceptedExactly(base: int, vs: seq<int32>)
    requires |vs| >= 1
    ensures !TooBig(base, vs) && |vs| <= MAXDIMS <==> (forall k :: 0 <= k < |vs| ==> vs[k] > 0) && Shape(Declared(base, vs))
  {
    if !TooBig(base, vs) && |vs| <= MAXDIMS {
      FineShape(base, vs);
    }
    if (forall k :: 0 <= k < |vs| ==> vs[k] > 0) && Shape(Declared(base, vs)) {
      ShapeFine(base, vs);
    }
  }
}
