/** The fragmentation method that splits only the dimensions with the largest strides. */
module ContiguousSplitting {
  import opened Options
  import opened MixedRadix
  import opened Geometry
  import opened CubeSets
  import opened Dataspaces
  import opened CopyPlan
  import opened Splitting

  /** The box that is whole in the first m dimensions of the order and one long in the others. */
  ghost function Inner(size: seq<int>, pos: seq<int>, m: int): (w: seq<int>)
    requires |pos| == |size|
    ensures |w| == |size| && forall d :: 0 <= d < |w| ==> w[d] == if pos[d] < m then size[d] else 1
  {
    seq(|size|, d requires 0 <= d < |size| => if pos[d] < m then size[d] else 1)
  }

  lemma {:induction false} ProdOnes(w: seq<int>)
    requires forall d :: 0 <= d < |w| ==> w[d] == 1
    ensures Prod(w) == 1
  {
    if w != [] { ProdOnes(w[1..]); }
  }

  lemma {:induction false} ProdReplace(w: seq<int>, d: nat, x: int)
    requires d < |w| && w[d] == 1
    ensures Prod(w[d := x]) == Prod(w) * x
  {
    if d == 0 {
      assert w[d := x][1..] == w[1..];
    } else {
      assert w[d := x][1..] == w[1..][d - 1 := x];
      ProdReplace(w[1..], d - 1, x);
      assert w[0] * (Prod(w[1..]) * x) == w[0] * Prod(w[1..]) * x;
    }
  }

  lemma InnerStep(size: seq<int>, order: seq<int>, pos: seq<int>, m: nat)
    requires Inverse(order, pos) && |pos| == |size| && m < |size|
    ensures Prod(Inner(size, pos, m + 1)) == Prod(Inner(size, pos, m)) * size[order[m]]
  {
    var w, d := Inner(size, pos, m), order[m];
    assert pos[d] == m;
    ProdReplace(w, d, size[d]);
    assert Inner(size, pos, m + 1) == w[d := size[d]] by {
      forall e | 0 <= e < |size| && e != d ensures pos[e] != m { assert order[pos[e]] == e; }
    }
  }

  lemma InnerEnds(size: seq<int>, order: seq<int>, pos: seq<int>)
    requires Inverse(order, pos) && |pos| == |size|
    ensures Prod(Inner(size, pos, 0)) == 1 && Inner(size, pos, |size|) == size
  {
    ProdOnes(Inner(size, pos, 0));
  }

  lemma {:induction false} ZeroProd(size: seq<int>, d: nat)
    requires d < |size| && size[d] == 0
    ensures Prod(size) == 0
  {
    if d > 0 { ZeroProd(size[1..], d - 1); }
  }

  lemma TimesInside(e: int, p: int, n: int)
    ensures e * (p * n) == e * p * n
  {}

  /** Finds the first dimension that makes the fragment too large. */
  method FindSplitDim(size: seq<int>, elementSize: int, maxBytes: int, order: seq<int>, ghost pos: seq<int>)
    returns (m: nat, fragmentSize: int)
    requires Inverse(order, pos) && |pos| == |size| && AllPositive(size)
    requires 1 <= elementSize <= maxBytes <= elementSize * Prod(size) && size != []
    ensures m < |size| && elementSize <= fragmentSize <= maxBytes <= fragmentSize * size[order[m]]
    ensures fragmentSize == elementSize * Prod(Inner(size, pos, m))
    ensures forall j :: 0 <= j < m ==> elementSize * Prod(Inner(size, pos, j)) * size[order[j]] < maxBytes
  {
    m, fragmentSize := 0, elementSize;
    InnerEnds(size, order, pos);
    while m < |size|
      invariant m <= |size| && elementSize <= fragmentSize <= maxBytes
      invariant m > 0 ==> fragmentSize < maxBytes
      invariant fragmentSize == elementSize * Prod(Inner(size, pos, m))
      invariant forall j :: 0 <= j < m ==> elementSize * Prod(Inner(size, pos, j)) * size[order[j]] < maxBytes
    {
      if fragmentSize * size[order[m]] >= maxBytes { break; }
      InnerStep(size, order, pos, m);
      MulMonotone(1, size[order[m]], fragmentSize);
      TimesInside(elementSize, Prod(Inner(size, pos, m)), size[order[m]]);
      fragmentSize := fragmentSize * size[order[m]];
      m := m + 1;
    }
  }

  ghost function Factors(size: seq<int>, order: seq<int>, m: nat, slices: int): (f: seq<int>)
    requires forall i :: 0 <= i < |order| ==> 0 <= order[i] < |size|
    ensures |f| == |order|
    ensures forall i :: 0 <= i < |f| ==> f[i] == if i < m then 1 else if i == m then slices else size[order[i]]
  {
    seq(|order|, i requires 0 <= i < |order| => if i < m then 1 else if i == m then slices else size[order[i]])
  }

  lemma OtherDims(s: Scheme, j: nat, cube: Cube, r: Range)
    requires s.Valid() && j < |s.size| == |cube|
    ensures forall i :: 0 <= i < j ==> cube[s.order[j] := r][s.order[i]] == cube[s.order[i]]
  {
    forall i | 0 <= i < j ensures s.order[i] != s.order[j] { assert s.pos[s.order[i]] == i && s.pos[s.order[j]] == j; }
  }

  /** Sets the ranges of the split dimension and of those behind it; the others stay whole. */
  method MakeFragment(ghost s: Scheme, offset: seq<int>, size: seq<int>, order: seq<int>, m: nat, slices: int, coords: seq<int>, whole: Cube)
    returns (cube: Cube)
    requires s.Valid() && m < |size| == |coords| == |whole| && s.offset == offset && s.size == size && s.order == order
    requires s.factors == Factors(size, order, m, slices)
    requires forall i :: 0 <= i < m ==> coords[i] == 0 && whole[order[i]] == Range(offset[order[i]], offset[order[i]] + size[order[i]])
    ensures cube == s.BoxAt(coords)
    ensures forall i :: 0 <= i < m ==> cube[order[i]] == whole[order[i]]
  {
    var d := order[m];
    s.PositiveFactors();
    assert s.pos[d] == m && s.factors[m] == slices;
    cube := whole[d := Range(offset[d] + coords[m] * size[d] / slices, offset[d] + (coords[m] + 1) * size[d] / slices)];
    OtherDims(s, m, whole, cube[d]);
    for j := m + 1 to |size|
      invariant |cube| == |size|
      invariant forall i :: 0 <= i < j ==> cube[order[i]] == SimplePiece(s, m, coords, i)
    {
      var e := order[j];
      OtherDims(s, j, cube, Range(offset[e] + coords[j], offset[e] + coords[j] + 1));
      cube := cube[e := Range(offset[e] + coords[j], offset[e] + coords[j] + 1)];
    }
    FragmentIsBox(s, m, slices, coords, cube);
  }

  /** The simple formulas for whole and for single slices agree with the general one. */
  lemma FragmentIsBox(s: Scheme, m: nat, slices: int, coords: seq<int>, cube: Cube)
    requires s.Valid() && m < |s.size| == |coords| == |cube| && s.factors == Factors(s.size, s.order, m, slices)
    requires forall i :: 0 <= i < |coords| ==> cube[s.order[i]] == SimplePiece(s, m, coords, i)
    ensures cube == s.BoxAt(coords)
  {
    forall e | 0 <= e < |s.size| ensures cube[e] == s.BoxAt(coords)[e] {
      var i := s.pos[e];
      assert s.order[i] == e && 1 <= s.factors[i];
      CutEnds(s.size[e], 1);
      UnitPieces(s.size[e], coords[i]);
    }
  }

  ghost function SimplePiece(s: Scheme, m: nat, coords: seq<int>, i: nat): Range
    requires s.Valid() && i < |s.size| == |coords|
  {
    var e := s.order[i];
    assert s.pos[e] == i;
    if i < m && coords[i] == 0 then Range(s.offset[e], s.offset[e] + s.size[e])
    else if i <= m then Piece(s.offset[e], s.size[e], s.factors[i], coords[i])
    else Range(s.offset[e] + coords[i], s.offset[e] + coords[i] + 1)
  }

  lemma UnitPieces(n: int, k: int)
    requires n > 0
    ensures Cut(n, n, k) == k && Cut(n, n, k + 1) == k + 1
  {
    DivModOf(k, n, 0);
    DivModOf(k + 1, n, 0);
    assert k * n + 0 == k * n && (k + 1) * n + 0 == (k + 1) * n;
  }

  /** The odometer that never touches the whole dimensions; it ends when the split dimension overflows. */
  method NextFragment(coords: seq<int>, size: seq<int>, order: seq<int>, m: nat, slices: int, ghost factors: seq<int>)
    returns (next: seq<int>)
    requires forall i :: 0 <= i < |order| ==> 0 <= order[i] < |size|
    requires factors == Factors(size, order, m, slices) && m < |order| && InBox(coords, factors)
    ensures |next| == |coords| && Rank(next, factors) == Rank(coords, factors) + 1
    ensures next[m] < slices ==> InBox(next, factors)
    ensures next[m] >= slices ==> Rank(next, factors) == Prod(factors)
  {
    next := coords;
    var i := |order|;
    while i > m + 1
      invariant m + 1 <= i <= |order| == |next|
      invariant forall l :: i <= l < |order| ==> coords[l] == factors[l] - 1 && next[l] == 0
      invariant forall l :: 0 <= l < i ==> next[l] == coords[l]
    {
      i := i - 1;
      next := next[i := next[i] + 1];
      if next[i] < size[order[i]] {
        assert next == Carried(coords, i);
        RankCarried(coords, factors, i);
        return;
      }
      next := next[i := 0];
    }
    next := next[m := next[m] + 1];
    assert next == Carried(coords, m);
    RankCarried(coords, factors, m);
    if next[m] >= slices { RankLast(coords, factors); }
  }

  /** Whole in the dimensions before m of the order, one long in those behind it. */
  ghost predicate Layered(c: Cube, size: seq<int>, order: seq<int>, m: nat) {
    && |c| == |size| == |order| && m < |order|
    && (forall i :: 0 <= i < |order| ==> 0 <= order[i] < |size|)
    && (forall i :: 0 <= i < m ==> c[order[i]].Size() == size[order[i]])
    && (forall i :: m < i < |order| ==> c[order[i]].Size() == 1)
  }

  lemma BoxIsLayered(s: Scheme, m: nat, slices: int, coords: seq<int>)
    requires s.Valid() && s.factors == Factors(s.size, s.order, m, slices) && m < |s.size| && InBox(coords, s.factors)
    ensures Layered(s.BoxAt(coords), s.size, s.order, m)
  {
    var c := s.BoxAt(coords);
    forall i | 0 <= i < |s.order|
      ensures i < m ==> c[s.order[i]].Size() == s.size[s.order[i]]
      ensures i > m ==> c[s.order[i]].Size() == 1
    {
      var d := s.order[i];
      assert s.pos[d] == i && 1 <= s.factors[i];
      CutEnds(s.size[d], 1);
      UnitPieces(s.size[d], coords[i]);
    }
  }

  lemma LayeredSize(s: Scheme, m: nat, slices: int, coords: seq<int>, thickness: int)
    requires s.Valid() && s.factors == Factors(s.size, s.order, m, slices) && m < |s.size| && InBox(coords, s.factors)
    requires s.size[s.order[m]] <= thickness * slices
    ensures CubeSize(s.BoxAt(coords)) <= Prod(Inner(s.size, s.pos, m)) * thickness
  {
    var c, d := s.BoxAt(coords), s.order[m];
    assert s.pos[d] == m && s.factors[m] == slices;
    BoxIsLayered(s, m, slices, coords);
    var w := Inner(s.size, s.pos, m);
    PieceSize(s.size[d], slices, coords[m], thickness);
    PieceSize(s.size[d], slices, coords[m], 0);
    assert Sizes(c) == w[d := c[d].Size()] by {
      forall e | 0 <= e < |c| && e != d ensures Sizes(c)[e] == w[e] { assert s.order[s.pos[e]] == e; }
    }
    ProdReplace(w, d, c[d].Size());
    CubeSizeIsProd(c);
    assert AllPositive(w);
    ProdPositive(w);
    MulMonotone(c[d].Size(), thickness, Prod(w));
  }

  lemma WholeBytes(size: seq<int>, elementSize: int, maxBytes: int)
    requires (forall d :: 0 <= d < |size| ==> size[d] >= 0) && 1 <= elementSize <= maxBytes <= elementSize * Prod(size)
    ensures AllPositive(size)
  {
    forall d | 0 <= d < |size| ensures size[d] > 0 {
      if size[d] == 0 { ZeroProd(size, d); }
    }
  }

  lemma SliceBytes(elementSize: int, p: int, thickness: int, maxBytes: int, n: int)
    requires elementSize >= 1 && n <= p * thickness && (elementSize * p) * thickness <= maxBytes
    ensures elementSize * n <= maxBytes
  {
    MulMonotone(n, p * thickness, elementSize);
    assert elementSize * (p * thickness) == (elementSize * p) * thickness;
  }

  /** m is the first dimension of the order with which the bytes of a fragment reach the limit, and slices is the least
      number of pieces of it that keep the limit. */
  ghost predicate SplitAt(size: seq<int>, elementSize: int, maxBytes: int, order: seq<int>, pos: seq<int>, m: nat, slices: int) {
    && |order| == |pos| == |size| && m < |size| && (forall i :: 0 <= i < |order| ==> 0 <= order[i] < |size|)
    && (forall j :: 0 <= j < m ==> elementSize * Prod(Inner(size, pos, j)) * size[order[j]] < maxBytes)
    && var bytes := elementSize * Prod(Inner(size, pos, m));
       1 <= bytes <= maxBytes <= bytes * size[order[m]] && IsLeast(slices, size[order[m]], maxBytes / bytes)
  }

  /** order is whatever qsort() makes of the dimensions: sorted by absolute stride, ties in any order. */
  method SplitContiguous(offset: seq<int>, size: seq<int>, stride: seq<int>, elementSize: int, maxBytes: int, order: seq<int>, ghost pos: seq<int>)
    returns (cubes: seq<Cube>, ghost m: nat, ghost slices: int)
    requires |offset| == |size| == |stride| == |order| && Inverse(order, pos)
    requires Sorted(order, stride)
    requires (forall d :: 0 <= d < |size| ==> size[d] >= 0) && 1 <= elementSize <= maxBytes
    requires size == [] ==> elementSize < maxBytes
    ensures elementSize * Prod(size) < maxBytes ==> cubes == [Space(offset, size, None).Extents()]
    ensures elementSize * Prod(size) >= maxBytes ==> Partition(cubes, Space(offset, size, None).Extents())
    ensures forall r :: 0 <= r < |cubes| ==> elementSize * CubeSize(cubes[r]) <= maxBytes
    ensures elementSize * Prod(size) >= maxBytes ==> forall r :: 0 <= r < |cubes| ==> Layered(cubes[r], size, order, m)
    ensures elementSize * Prod(size) >= maxBytes ==> SplitAt(size, elementSize, maxBytes, order, pos, m, slices) && |cubes| == Prod(Factors(size, order, m, slices))
    ensures elementSize * Prod(size) >= maxBytes ==> var s := Scheme(offset, size, order, pos, Factors(size, order, m, slices)); s.Valid() && cubes == s.Boxes(|cubes|)
    ensures stride == ContiguousStride(size) ==> forall r :: 0 <= r < |cubes| ==> |cubes[r]| == |size| && OneBlock(cubes[r], Space(offset, size, None))
  {
    var whole := Space(offset, size, None).Extents();
    m, slices := 0, 1;
    if elementSize * Prod(size) < maxBytes {
      CubeSizeIsProd(whole);
      assert Sizes(whole) == size;
      WholeIsOneBlock(Space(offset, size, None));
      return [whole], 0, 1;
    }
    WholeBytes(size, elementSize, maxBytes);
    var splitDim, fragmentSize := FindSplitDim(size, elementSize, maxBytes, order, pos);
    var d := order[splitDim];
    Thickness(maxBytes, fragmentSize, size[d]);
    var thickness := maxBytes / fragmentSize;
    var splitSlices := (size[d] + thickness - 1) / thickness;
    m, slices := splitDim, splitSlices;
    CeilIsLeast(size[d], thickness);
    ghost var s := Scheme(offset, size, order, pos, Factors(size, order, splitDim, splitSlices));
    SchemeIsValid(s, m, slices);
    cubes := SliceUp(s, offset, size, order, splitDim, splitSlices, whole);
    s.BoxesPartition(whole);
    FragmentsFit(s, m, slices, thickness, elementSize, maxBytes);
    if stride == ContiguousStride(size) { AllOneBlock(cubes, Space(offset, size, None), order, pos, m); }
  }

  lemma AllOneBlock(cubes: seq<Cube>, space: Space, order: seq<int>, pos: seq<int>, m: nat)
    requires space.Valid() && space.stride.None? && AllPositive(space.size) && Inverse(order, pos)
    requires |order| == |space.size| && Sorted(order, ContiguousStride(space.size)) && Partition(cubes, space.Extents())
    requires forall r :: 0 <= r < |cubes| ==> Layered(cubes[r], space.size, order, m)
    ensures forall r :: 0 <= r < |cubes| ==> |cubes[r]| == |space.size| && OneBlock(cubes[r], space)
  {
    forall r | 0 <= r < |cubes| ensures |cubes[r]| == |space.size| && OneBlock(cubes[r], space) {
      forall p | Contains(cubes[r], p) ensures Contains(space.Extents(), p) { assert Covers(cubes, p); }
      LayeredIsOneBlock(cubes[r], space, order, pos, m);
    }
  }

  lemma FragmentsFit(s: Scheme, m: nat, slices: int, thickness: int, elementSize: int, maxBytes: int)
    requires s.Valid() && s.factors == Factors(s.size, s.order, m, slices) && m < |s.size| && Prod(s.factors) >= 0
    requires s.size[s.order[m]] <= thickness * slices && elementSize >= 1
    requires (elementSize * Prod(Inner(s.size, s.pos, m))) * thickness <= maxBytes
    ensures forall r :: 0 <= r < Prod(s.factors) ==> elementSize * CubeSize(s.Boxes(Prod(s.factors))[r]) <= maxBytes
    ensures forall r :: 0 <= r < Prod(s.factors) ==> Layered(s.Boxes(Prod(s.factors))[r], s.size, s.order, m)
  {
    s.PositiveFactors();
    forall r | 0 <= r < Prod(s.factors)
      ensures elementSize * CubeSize(s.BoxAt(Unrank(r, s.factors))) <= maxBytes
      ensures Layered(s.BoxAt(Unrank(r, s.factors)), s.size, s.order, m)
    {
      var k := Unrank(r, s.factors);
      RankUnrank(r, s.factors);
      LayeredSize(s, m, slices, k, thickness);
      BoxIsLayered(s, m, slices, k);
      SliceBytes(elementSize, Prod(Inner(s.size, s.pos, m)), thickness, maxBytes, CubeSize(s.BoxAt(k)));
    }
  }

  lemma Thickness(maxBytes: int, fragmentSize: int, n: int)
    requires 1 <= fragmentSize <= maxBytes && n >= 1
    ensures maxBytes / fragmentSize >= 1 && fragmentSize * (maxBytes / fragmentSize) <= maxBytes
    ensures 1 <= (n + maxBytes / fragmentSize - 1) / (maxBytes / fragmentSize) <= n
    ensures n <= (maxBytes / fragmentSize) * ((n + maxBytes / fragmentSize - 1) / (maxBytes / fragmentSize))
  {
    DivAtMost(maxBytes, fragmentSize, 0);
    CeilDiv(n, maxBytes / fragmentSize);
  }

  lemma SchemeIsValid(s: Scheme, m: nat, slices: int)
    requires |s.offset| == |s.size| == |s.order| && Inverse(s.order, s.pos) && AllPositive(s.size) && m < |s.size|
    requires s.factors == Factors(s.size, s.order, m, slices) && 1 <= slices <= s.size[s.order[m]]
    ensures s.Valid()
  {
    forall d | 0 <= d < |s.size| ensures 1 <= s.factors[s.pos[d]] <= s.size[d] { assert s.order[s.pos[d]] == d; }
  }

  method SliceUp(ghost s: Scheme, offset: seq<int>, size: seq<int>, order: seq<int>, m: nat, slices: int, extents: Cube)
    returns (cubes: seq<Cube>)
    requires s.Valid() && m < |size| && s.offset == offset && s.size == size && s.order == order
    requires s.factors == Factors(size, order, m, slices) && extents == Space(offset, size, None).Extents()
    ensures |cubes| == Prod(s.factors) && cubes == s.Boxes(|cubes|)
  {
    s.PositiveFactors();
    ProdPositive(s.factors);
    RankZeros(s.factors);
    assert s.factors[m] == slices;
    var coords, cube := Zeros(|size|), extents;
    cubes := [];
    while coords[m] < slices
      invariant |coords| == |cube| == |size|
      invariant coords[m] < slices ==> InBox(coords, s.factors)
      invariant coords[m] >= slices ==> |cubes| == Prod(s.factors)
      invariant Rank(coords, s.factors) == |cubes| <= Prod(s.factors)
      invariant cubes == s.Boxes(|cubes|)
      invariant forall i :: 0 <= i < m ==> cube[order[i]] == extents[order[i]]
      decreases Prod(s.factors) - |cubes|
    {
      RankBounds(coords, s.factors);
      forall i | 0 <= i < m ensures coords[i] == 0 { assert 0 <= coords[i] < s.factors[i]; }
      cube := MakeFragment(s, offset, size, order, m, slices, coords, cube);
      AppendBox(s, cubes, coords);
      cubes := cubes + [cube];
      coords := NextFragment(coords, size, order, m, slices, s.factors);
    }
  }

  // ----- fragments of a contiguous dataspace are contiguous

  /** The elements of c fill one stretch of memory without gaps. */
  ghost predicate OneBlock(c: Cube, space: Space)
    requires space.Valid() && |c| == |space.size|
  {
    exists a :: BlockFrom(c, space, a)
  }

  ghost predicate BlockFrom(c: Cube, space: Space, a: int)
    requires space.Valid() && |c| == |space.size|
  {
    forall p :: Contains(c, p) ==> a <= space.ElementIndex(p) < a + CubeSize(c)
  }

  lemma WholeIsOneBlock(space: Space)
    requires space.Valid() && space.stride.None? && forall d :: 0 <= d < |space.size| ==> space.size[d] >= 0
    ensures OneBlock(space.Extents(), space)
  {
    var c := space.Extents();
    CubeSizeIsProd(c);
    assert Sizes(c) == space.size;
    forall p | Contains(c, p) ensures 0 <= space.ElementIndex(p) < CubeSize(c) { ContiguousBounds(space, p); }
    assert BlockFrom(c, space, 0);
  }

  lemma {:induction false} BlockSpan(k: seq<int>, lo: seq<int>, w: seq<int>, size: seq<int>, q: nat)
    requires q < |k| == |lo| == |w| == |size|
    requires forall d :: 0 <= d < q ==> k[d] == lo[d] && w[d] == 1
    requires lo[q] <= k[q] < lo[q] + w[q]
    requires forall d :: q < d < |k| ==> lo[d] == 0 && w[d] == size[d] && 0 <= k[d] < size[d]
    ensures Rank(lo, size) <= Rank(k, size) < Rank(lo, size) + Prod(w)
  {
    if q > 0 {
      BlockSpan(k[1..], lo[1..], w[1..], size[1..], q - 1);
    } else {
      var p := Prod(size[1..]);
      assert w[1..] == size[1..] && lo[1..] == Zeros(|size[1..]|);
      RankZeros(size[1..]);
      RankBounds(k[1..], size[1..]);
      DigitBounds(Rank(k[1..], size[1..]), p, k[0] - lo[0], w[0]);
      assert (k[0] - lo[0]) * p == k[0] * p - lo[0] * p;
    }
  }

  lemma StrideOrder(size: seq<int>, d: nat, e: nat)
    requires AllPositive(size) && d < e < |size|
    ensures ContiguousStride(size)[e] >= 1
    ensures size[e] * ContiguousStride(size)[e] <= ContiguousStride(size)[d]
  {
    var a, b := size[d + 1..e], size[e..];
    assert size[d + 1..] == a + b && b[1..] == size[e + 1..];
    ProdConcat(a, b);
    ProdPositive(a);
    ProdPositive(b);
    ProdPositive(size[e + 1..]);
    MulMonotone(1, Prod(a), Prod(b));
  }

  ghost predicate Sorted(order: seq<int>, stride: seq<int>)
    requires forall i :: 0 <= i < |order| ==> 0 <= order[i] < |stride|
  {
    forall i, j :: 0 <= i < j < |order| ==> Abs(stride[order[i]]) <= Abs(stride[order[j]])
  }

  /** Behind the first dimension in which the fragment is longer than one, it is whole. */
  lemma WholeBehind(c: Cube, size: seq<int>, order: seq<int>, pos: seq<int>, m: nat, d: nat, e: nat)
    requires AllPositive(size) && Inverse(order, pos) && Layered(c, size, order, m) && Sorted(order, ContiguousStride(size))
    requires forall i :: 0 <= i < |c| ==> 1 <= c[i].Size() <= size[i]
    requires d < e < |size| && c[d].Size() > 1
    ensures c[e].Size() == size[e]
  {
    var st := ContiguousStride(size);
    assert order[pos[d]] == d && order[pos[e]] == e && pos[d] <= m;
    if pos[e] >= m {
      assert pos[d] < pos[e];
      StrideOrder(size, d, e);
      assert st[d] <= st[e];
      if size[e] > 1 { MulStrict(1, size[e], st[e]); }
    }
  }

  ghost function FirstLong(c: Cube): (d: nat)
    requires c != []
    ensures d < |c| && (forall i :: 0 <= i < d ==> c[i].Size() <= 1) && (c[d].Size() > 1 || d == |c| - 1)
  {
    if |c| == 1 || c[0].Size() > 1 then 0 else 1 + FirstLong(c[1..])
  }

  lemma LayeredIsOneBlock(c: Cube, space: Space, order: seq<int>, pos: seq<int>, m: nat)
    requires space.Valid() && space.stride.None? && AllPositive(space.size) && Inverse(order, pos)
    requires Layered(c, space.size, order, m) && Sorted(order, ContiguousStride(space.size))
    requires !IsEmptyCube(c) && forall p :: Contains(c, p) ==> Contains(space.Extents(), p)
    ensures OneBlock(c, space)
  {
    CubeInside(c, space.Extents());
    var q, lo := FirstLong(c), Minus(Corner(c), space.offset);
    forall e | q < e < |c| ensures c[e].Size() == space.size[e] {
      WholeBehind(c, space.size, order, pos, m, q, e);
    }
    forall p | Contains(c, p) ensures Rank(lo, space.size) <= space.ElementIndex(p) < Rank(lo, space.size) + CubeSize(c) {
      PointInBlock(c, space, q, p);
    }
    assert BlockFrom(c, space, Rank(lo, space.size));
  }

  lemma PointInBlock(c: Cube, space: Space, q: nat, p: Point)
    requires space.Valid() && space.stride.None? && q < |c| == |space.size| && Contains(c, p)
    requires forall d :: 0 <= d < |c| ==> space.offset[d] <= c[d].start < c[d].end <= space.offset[d] + space.size[d]
    requires forall d :: 0 <= d < q ==> c[d].Size() <= 1
    requires forall d :: q < d < |c| ==> c[d].Size() == space.size[d]
    ensures Rank(Minus(Corner(c), space.offset), space.size) <= space.ElementIndex(p)
    ensures space.ElementIndex(p) < Rank(Minus(Corner(c), space.offset), space.size) + CubeSize(c)
  {
    var k, lo := Minus(p, space.offset), Minus(Corner(c), space.offset);
    forall d | 0 <= d < |c| ensures c[d].start <= p[d] < c[d].end { assert c[d].Has(p[d]); }
    BlockSpan(k, lo, Sizes(c), space.size, q);
    ContiguousIsRank(k, space.size);
    CubeSizeIsProd(c);
  }

  lemma CubeInside(c: Cube, x: Cube)
    requires |c| == |x| && !IsEmptyCube(c) && forall p :: Contains(c, p) ==> Contains(x, p)
    ensures forall d :: 0 <= d < |c| ==> x[d].start <= c[d].start < c[d].end <= x[d].end
  {
    var lo, hi := Corner(c), seq(|c|, d requires 0 <= d < |c| => c[d].end - 1);
    forall d | 0 <= d < |c| ensures c[d].Has(lo[d]) && c[d].Has(hi[d]) { assert !c[d].IsEmpty(); }
    assert Contains(c, lo) && Contains(c, hi);
    forall d | 0 <= d < |c| ensures x[d].start <= c[d].start < c[d].end <= x[d].end {
      assert x[d].Has(lo[d]) && x[d].Has(hi[d]);
    }
  }
}
