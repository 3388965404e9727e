/** Splitting a dataspace into fragments: the two fragmentation methods of the write path. */
module Splitting {
  import opened MixedRadix
  import opened Geometry
  import opened CubeSets
  import opened Dataspaces

  // ----- one dimension, cut into a number of pieces

  /** Where piece k starts, relative to the start of the dimension. */
  function Cut(size: int, factor: int, k: int): int
    requires factor > 0
  {
    k * size / factor
  }

  function Piece(offset: int, size: int, factor: int, k: int): Range
    requires factor > 0
  {
    Range(offset + Cut(size, factor, k), offset + Cut(size, factor, k + 1))
  }

  /** The piece that holds x. */
  ghost function Which(size: int, factor: int, x: int): int
    requires size > 0
  {
    ((x + 1) * factor - 1) / size
  }

  lemma DivAtMost(a: int, b: int, x: int)
    requires b > 0
    ensures a / b <= x <==> a < (x + 1) * b
  {
    var q := a / b;
    assert a == q * b + a % b;
    if q <= x { MulMonotone(q + 1, x + 1, b); } else { MulMonotone(x + 1, q, b); }
    assert (q + 1) * b == q * b + b;
  }

  lemma DivBetween(a: int, b: int, c: int)
    requires b > 0
    ensures (a + b) / b == a / b + 1
    ensures a <= c ==> a / b <= c / b
  {
    DivModOf(a / b + 1, b, a % b);
    assert (a / b + 1) * b + a % b == a + b;
    DivAtMost(a, b, c / b);
    DivAtMost(c, b, c / b);
  }

  /** The pieces tile the dimension: x is in piece k exactly if k is Which(x). */
  lemma PieceOf(size: int, factor: int, k: int, x: int)
    requires factor > 0 && size > 0
    ensures Cut(size, factor, k) <= x < Cut(size, factor, k + 1) <==> k == Which(size, factor, x)
  {
    var t := (x + 1) * factor;
    DivAtMost(k * size, factor, x);
    DivAtMost((k + 1) * size, factor, x);
    DivAtMost(t - 1, size, k);
    DivAtMost(t - 1, size, k - 1);
  }

  lemma WhichInRange(size: int, factor: int, x: int)
    requires factor > 0 && 0 <= x < size
    ensures 0 <= Which(size, factor, x) < factor
  {
    var t := (x + 1) * factor;
    MulMonotone(1, x + 1, factor);
    MulMonotone(x + 1, size, factor);
    DivAtMost(t - 1, size, factor - 1);
    DivAtMost(t - 1, size, -1);
    assert size * factor == factor * size;
  }

  lemma CutEnds(size: int, factor: int)
    requires factor > 0
    ensures Cut(size, factor, 0) == 0 && Cut(size, factor, factor) == size
  {
    DivModOf(size, factor, 0);
    DivModOf(0, factor, 0);
    assert factor * size == size * factor + 0;
    assert 0 * size == 0 * factor + 0;
  }

  lemma CutMonotone(size: int, factor: int, k: int, l: int)
    requires factor > 0 && size >= 0 && k <= l
    ensures Cut(size, factor, k) <= Cut(size, factor, l)
  {
    MulMonotone(k, l, size);
    DivBetween(k * size, factor, l * size);
  }

  /** All pieces of a dimension have nearly the same length. */
  lemma PieceSize(size: int, factor: int, k: int, q: int)
    requires 0 < factor && 0 <= size
    ensures factor <= size ==> Cut(size, factor, k + 1) - Cut(size, factor, k) >= 1
    ensures size <= q * factor ==> Cut(size, factor, k + 1) - Cut(size, factor, k) <= q
    ensures q * factor <= size ==> Cut(size, factor, k + 1) - Cut(size, factor, k) >= q
  {
    var a := k * size;
    assert (k + 1) * size == a + size;
    DivModOf(a / factor + q, factor, a % factor);
    assert (a / factor + q) * factor + a % factor == a + q * factor;
    DivBetween(a + q * factor, factor, a + size);
    DivBetween(a + size, factor, a + q * factor);
    DivBetween(a, factor, a + size);
    DivBetween(a + factor, factor, a + size);
  }

  lemma CeilDiv(s: int, t: int)
    requires s >= 0 && t >= 1
    ensures s <= t * ((s + t - 1) / t)
    ensures s >= 1 ==> 1 <= (s + t - 1) / t <= s
  {
    var f := (s + t - 1) / t;
    assert s + t - 1 == f * t + (s + t - 1) % t;
    DivAtMost(s + t - 1, t, 0);
    DivAtMost(s + t - 1, t, s);
    MulMonotone(1, t, s);
    assert (s + 1) * t == t * s + t;
  }

  // ----- all dimensions

  /** pos is the inverse of the permutation order. */
  predicate Inverse(order: seq<int>, pos: seq<int>) {
    && |order| == |pos|
    && (forall i :: 0 <= i < |order| ==> 0 <= order[i] < |pos| && pos[order[i]] == i)
    && (forall d :: 0 <= d < |pos| ==> 0 <= pos[d] < |order| && order[pos[d]] == d)
  }

  /** A way to split a box: dimension order[i] is cut into factors[i] pieces. */
  datatype Scheme = Scheme(offset: seq<int>, size: seq<int>, order: seq<int>, pos: seq<int>, factors: seq<int>) {
    ghost predicate Valid() {
      && |offset| == |size| == |order| == |factors| && Inverse(order, pos)
      && forall d :: 0 <= d < |size| ==> 1 <= factors[pos[d]] <= size[d]
    }

    ghost function BoxAt(coords: seq<int>): (c: Cube)
      requires Valid() && |coords| == |factors|
      ensures |c| == |size|
      ensures forall d :: 0 <= d < |size| ==> c[d] == Piece(offset[d], size[d], factors[pos[d]], coords[pos[d]])
    {
      seq(|size|, d requires 0 <= d < |size| => Piece(offset[d], size[d], factors[pos[d]], coords[pos[d]]))
    }

    lemma PositiveFactors()
      requires Valid()
      ensures AllPositive(factors)
    {
      forall i | 0 <= i < |factors| ensures factors[i] > 0 { assert pos[order[i]] == i; }
    }

    /** The boxes in row-major order of their coordinates. */
    ghost function Boxes(n: nat): (cs: seq<Cube>)
      requires Valid() && n <= Prod(factors)
      ensures |cs| == n
      ensures forall r :: 0 <= r < n ==> AllPositive(factors) && cs[r] == BoxAt(Unrank(r, factors))
    {
      PositiveFactors();
      seq(n, r requires 0 <= r < n => BoxAt(Unrank(r, factors)))
    }

    ghost function CoordsOf(p: Point): (k: seq<int>)
      requires Valid() && |p| == |size|
      ensures |k| == |factors|
      ensures forall d :: 0 <= d < |size| ==> k[pos[d]] == Which(size[d], factors[pos[d]], p[d] - offset[d])
    {
      seq(|factors|, i requires 0 <= i < |factors| => Which(size[order[i]], factors[i], p[order[i]] - offset[order[i]]))
    }

    /** Every point belongs to exactly one box. */
    lemma BoxOf(coords: seq<int>, p: Point)
      requires Valid() && |coords| == |factors| && |p| == |size|
      ensures Contains(BoxAt(coords), p) <==> coords == CoordsOf(p)
    {
      var c, k := BoxAt(coords), CoordsOf(p);
      forall d | 0 <= d < |size| ensures c[d].Has(p[d]) <==> coords[pos[d]] == k[pos[d]] {
        PieceOf(size[d], factors[pos[d]], coords[pos[d]], p[d] - offset[d]);
      }
      if Contains(c, p) {
        forall i | 0 <= i < |coords| ensures coords[i] == k[i] { assert c[order[i]].Has(p[order[i]]); }
      }
    }

    lemma CoordsInBox(p: Point, extents: Cube)
      requires Valid() && extents == Space(offset, size, Options.None).Extents() && |p| == |size|
      ensures Contains(extents, p) <==> InBox(CoordsOf(p), factors)
    {
      var k := CoordsOf(p);
      if Contains(extents, p) {
        forall i | 0 <= i < |k| ensures 0 <= k[i] < factors[i] {
          var d := order[i];
          assert extents[d].Has(p[d]) && pos[d] == i;
          WhichInRange(size[d], factors[i], p[d] - offset[d]);
        }
      }
      if InBox(k, factors) {
        forall d | 0 <= d < |size| ensures extents[d].Has(p[d]) {
          var x, f := p[d] - offset[d], factors[pos[d]];
          assert 0 <= k[pos[d]] < f;
          PieceOf(size[d], f, k[pos[d]], x);
          CutMonotone(size[d], f, 0, k[pos[d]]);
          CutMonotone(size[d], f, k[pos[d]] + 1, f);
          CutEnds(size[d], f);
        }
      }
    }

    lemma BoxNonEmpty(coords: seq<int>)
      requires Valid() && |coords| == |factors|
      ensures !IsEmptyCube(BoxAt(coords))
    {
      var c := BoxAt(coords);
      forall d | 0 <= d < |size| ensures !c[d].IsEmpty() {
        PieceSize(size[d], factors[pos[d]], coords[pos[d]], 0);
      }
    }

    lemma BoxesDisjoint(i: nat, j: nat)
      requires Valid() && i < Prod(factors) && j < Prod(factors) && i != j
      ensures !Overlapping(Boxes(Prod(factors))[i], Boxes(Prod(factors))[j])
    {
      PositiveFactors();
      RankUnrank(i, factors);
      RankUnrank(j, factors);
      var cs := Boxes(Prod(factors));
      forall p ensures !(Contains(cs[i], p) && Contains(cs[j], p)) {
        if |p| == |size| {
          BoxOf(Unrank(i, factors), p);
          BoxOf(Unrank(j, factors), p);
        }
      }
    }

    lemma BoxesCover(p: Point, extents: Cube)
      requires Valid() && extents == Space(offset, size, Options.None).Extents()
      ensures Prod(factors) >= 0 && (Covers(Boxes(Prod(factors)), p) <==> Contains(extents, p))
    {
      PositiveFactors();
      ProdPositive(factors);
      var cs := Boxes(Prod(factors));
      if |p| == |size| {
        CoordsInBox(p, extents);
        if Contains(extents, p) {
          var k := CoordsOf(p);
          RankBounds(k, factors);
          UnrankRank(k, factors);
          BoxOf(k, p);
          assert cs[Rank(k, factors)] == BoxAt(k);
        }
        if Covers(cs, p) {
          var r :| 0 <= r < |cs| && Contains(cs[r], p);
          BoxOf(Unrank(r, factors), p);
          RankUnrank(r, factors);
        }
      }
    }

    lemma BoxesPartition(extents: Cube)
      requires Valid() && extents == Space(offset, size, Options.None).Extents()
      ensures Prod(factors) >= 1 && Partition(Boxes(Prod(factors)), extents)
    {
      PositiveFactors();
      ProdPositive(factors);
      var cs := Boxes(Prod(factors));
      forall p ensures Covers(cs, p) <==> Contains(extents, p) { BoxesCover(p, extents); }
      forall i, j | 0 <= i < |cs| && 0 <= j < |cs| && i != j ensures !Overlapping(cs[i], cs[j]) { BoxesDisjoint(i, j); }
      forall r | 0 <= r < |cs| ensures !IsEmptyCube(cs[r]) { BoxNonEmpty(Unrank(r, factors)); }
    }
  }

  /** The cubes are non-empty, do not overlap, and together are exactly the whole. */
  ghost predicate Partition(cs: seq<Cube>, whole: Cube) {
    AllNonEmpty(cs) && PairwiseDisjoint(cs) && forall p :: Covers(cs, p) <==> Contains(whole, p)
  }

  lemma {:induction false} CubeSizeIsProd(c: Cube)
    ensures CubeSize(c) == Prod(Sizes(c))
  {
    if c != [] {
      assert Sizes(c)[1..] == Sizes(c[1..]);
      CubeSizeIsProd(c[1..]);
    }
  }

  /** The odometer over all split coordinates. */
  method Increment(coords: seq<int>, factors: seq<int>) returns (next: seq<int>, done: bool)
    requires InBox(coords, factors)
    ensures done ==> Rank(coords, factors) == Prod(factors) - 1
    ensures !done ==> InBox(next, factors) && Rank(next, factors) == Rank(coords, factors) + 1
  {
    next := coords;
    var i := |factors|;
    while i > 0
      invariant 0 <= i <= |factors| == |next|
      invariant forall m :: i <= m < |factors| ==> coords[m] == factors[m] - 1 && next[m] == 0
      invariant forall m :: 0 <= m < i ==> next[m] == coords[m]
    {
      i := i - 1;
      next := next[i := next[i] + 1];
      if next[i] < factors[i] {
        assert next == Carried(coords, i);
        RankCarried(coords, factors, i);
        return next, false;
      }
      next := next[i := 0];
    }
    RankLast(coords, factors);
    done := true;
  }

  function Identity(n: nat): (r: seq<int>)
    ensures |r| == n && forall i :: 0 <= i < n ==> r[i] == i
  {
    seq(n, i => i)
  }

  // ----- balanced fragments

  function Power(b: int, e: nat): int { if e == 0 then 1 else b * Power(b, e - 1) }

  function CountLong(size: seq<int>): nat {
    if size == [] then 0 else CountLong(size[1..]) + if size[0] > 1 then 1 else 0
  }

  /** A box whose edges are at most edge long, and one long where the dimension is. */
  lemma {:induction false} BoxFits(c: Cube, size: seq<int>, edge: int)
    requires |c| == |size| && edge >= 1
    requires forall d :: 0 <= d < |c| ==> 1 <= c[d].Size() <= if size[d] > 1 then edge else 1
    ensures 1 <= CubeSize(c) <= Power(edge, CountLong(size))
  {
    if c != [] {
      forall d | 0 <= d < |c| - 1 ensures 1 <= c[1..][d].Size() <= if size[1..][d] > 1 then edge else 1 {
        assert c[1..][d] == c[d + 1] && size[1..][d] == size[d + 1];
      }
      BoxFits(c[1..], size[1..], edge);
      PowerOfRest(size, edge);
      ProductOrder(c[0].Size(), CubeSize(c[1..]), if size[0] > 1 then edge else 1, Power(edge, CountLong(size[1..])));
      ProductAtLeast(c[0].Size(), CubeSize(c[1..]));
    }
  }

  lemma PowerOfRest(size: seq<int>, edge: int)
    requires size != []
    ensures Power(edge, CountLong(size)) == (if size[0] > 1 then edge else 1) * Power(edge, CountLong(size[1..]))
  {}

  lemma ProductAtLeast(a: int, b: int)
    requires a >= 1 && b >= 1
    ensures a * b >= 1
  {
    MulAtLeast(a, b);
  }

  method CountSplitDims(size: seq<int>) returns (n: nat)
    ensures n == CountLong(size)
    ensures n == 0 <==> forall d :: 0 <= d < |size| ==> size[d] <= 1
  {
    n := 0;
    var k := 0;
    assert size[0..] == size;
    while k < |size|
      invariant 0 <= k <= |size|
      invariant n + CountLong(size[k..]) == CountLong(size)
      invariant n == 0 <==> forall d :: 0 <= d < k ==> size[d] <= 1
    {
      assert size[k..][1..] == size[k + 1..];
      if size[k] > 1 { n := n + 1; }
      k := k + 1;
    }
  }

  /** n pieces of the given width are enough for a length, and fewer are not. */
  ghost predicate IsLeast(n: int, length: int, width: int) {
    length <= width * n && forall k :: k < n ==> width * k < length
  }

  lemma CeilIsLeast(length: int, width: int)
    requires length >= 1 && width >= 1
    ensures IsLeast((length + width - 1) / width, length, width)
  {
    var n := (length + width - 1) / width;
    CeilDiv(length, width);
    assert length + width - 1 == n * width + (length + width - 1) % width;
    forall k | k < n ensures width * k < length {
      MulMonotone(k, n - 1, width);
      assert k * width == width * k && (n - 1) * width == n * width - width;
    }
  }

  method SplitFactors(size: seq<int>, edge: int) returns (factors: seq<int>)
    requires edge >= 1 && AllPositive(size)
    ensures |factors| == |size|
    ensures forall d :: 0 <= d < |size| ==> 1 <= factors[d] <= size[d] && IsLeast(factors[d], size[d], edge)
  {
    factors := [];
    for d := 0 to |size|
      invariant |factors| == d
      invariant forall e :: 0 <= e < d ==> 1 <= factors[e] <= size[e] && IsLeast(factors[e], size[e], edge)
    {
      CeilDiv(size[d], edge);
      CeilIsLeast(size[d], edge);
      factors := factors + [(size[d] + edge - 1) / edge];
    }
  }

  method MakeBox(ghost s: Scheme, offset: seq<int>, size: seq<int>, factors: seq<int>, coords: seq<int>) returns (cube: Cube)
    requires s.Valid() && s == Scheme(offset, size, Identity(|size|), Identity(|size|), factors) && |coords| == |factors|
    ensures cube == s.BoxAt(coords)
  {
    cube := [];
    for d := 0 to |size|
      invariant |cube| == d
      invariant forall e :: 0 <= e < d ==> cube[e] == Piece(offset[e], size[e], factors[e], coords[e])
    {
      assert 1 <= factors[s.pos[d]];
      cube := cube + [Range(offset[d] + coords[d] * size[d] / factors[d], offset[d] + (coords[d] + 1) * size[d] / factors[d])];
    }
  }

  lemma AppendBox(s: Scheme, cubes: seq<Cube>, coords: seq<int>)
    requires s.Valid() && InBox(coords, s.factors) && Rank(coords, s.factors) == |cubes| < Prod(s.factors)
    requires cubes == s.Boxes(|cubes|)
    ensures cubes + [s.BoxAt(coords)] == s.Boxes(|cubes| + 1)
  {
    UnrankRank(coords, s.factors);
  }

  lemma BalancedSizes(s: Scheme, coords: seq<int>, edge: int)
    requires s.Valid() && |coords| == |s.factors| && edge >= 1
    requires forall d :: 0 <= d < |s.size| ==> s.size[d] <= edge * s.factors[s.pos[d]]
    ensures CubeSize(s.BoxAt(coords)) <= Power(edge, CountLong(s.size))
  {
    var c := s.BoxAt(coords);
    forall d | 0 <= d < |c| ensures 1 <= c[d].Size() <= if s.size[d] > 1 then edge else 1 {
      var f := s.factors[s.pos[d]];
      PieceSize(s.size[d], f, coords[s.pos[d]], edge);
      PieceSize(s.size[d], f, coords[s.pos[d]], 1);
    }
    BoxFits(c, s.size, edge);
  }

  /** Splits every dimension into equal pieces no longer than the edge length. The edge length is the integer
      root that the source computes in floating point. */
  method SplitBalanced(offset: seq<int>, size: seq<int>, edge: int) returns (cubes: seq<Cube>, ghost factors: seq<int>)
    requires |offset| == |size| && edge >= 1
    requires CountLong(size) > 0 ==> AllPositive(size)
    ensures CountLong(size) == 0 ==> cubes == [Space(offset, size, Options.None).Extents()]
    ensures CountLong(size) > 0 ==> Partition(cubes, Space(offset, size, Options.None).Extents())
    ensures CountLong(size) > 0 ==> forall r :: 0 <= r < |cubes| ==> CubeSize(cubes[r]) <= Power(edge, CountLong(size))
    ensures CountLong(size) > 0 ==> NearlyEqual(cubes)
    ensures CountLong(size) > 0 ==> |factors| == |size| && (forall d :: 0 <= d < |size| ==> IsLeast(factors[d], size[d], edge))
    ensures CountLong(size) > 0 ==> AllPositive(factors) && |cubes| == Prod(factors)
    ensures CountLong(size) > 0 ==> forall r, d :: 0 <= r < |cubes| && 0 <= d < |size| ==> |cubes[r]| == |size| && cubes[r][d] == Piece(offset[d], size[d], factors[d], Unrank(r, factors)[d])
  {
    var splitDims := CountSplitDims(size);
    if splitDims == 0 { return [Space(offset, size, Options.None).Extents()], []; }
    cubes, factors := CutBoxes(offset, size, edge);
  }

  method CutBoxes(offset: seq<int>, size: seq<int>, edge: int) returns (cubes: seq<Cube>, ghost fs: seq<int>)
    requires |offset| == |size| && edge >= 1 && AllPositive(size)
    ensures Partition(cubes, Space(offset, size, Options.None).Extents())
    ensures forall r :: 0 <= r < |cubes| ==> CubeSize(cubes[r]) <= Power(edge, CountLong(size))
    ensures NearlyEqual(cubes)
    ensures |fs| == |size| && (forall d :: 0 <= d < |size| ==> IsLeast(fs[d], size[d], edge)) && AllPositive(fs) && |cubes| == Prod(fs)
    ensures forall r, d :: 0 <= r < |cubes| && 0 <= d < |size| ==> |cubes[r]| == |size| && cubes[r][d] == Piece(offset[d], size[d], fs[d], Unrank(r, fs)[d])
  {
    var factors := SplitFactors(size, edge);
    fs := factors;
    ghost var s := Scheme(offset, size, Identity(|size|), Identity(|size|), factors);
    assert s.Valid();
    s.PositiveFactors();
    ProdPositive(factors);
    RankZeros(factors);
    var coords, done := Zeros(|size|), false;
    cubes := [];
    while !done
      invariant done ==> |cubes| == Prod(factors)
      invariant !done ==> InBox(coords, factors) && Rank(coords, factors) == |cubes| < Prod(factors)
      invariant |cubes| <= Prod(factors) && cubes == s.Boxes(|cubes|)
      decreases Prod(factors) - |cubes|, !done
    {
      var cube := MakeBox(s, offset, size, factors, coords);
      AppendBox(s, cubes, coords);
      cubes := cubes + [cube];
      var next;
      next, done := Increment(coords, factors);
      if !done { RankBounds(next, factors); }
      coords := next;
    }
    s.BoxesPartition(Space(offset, size, Options.None).Extents());
    forall r | 0 <= r < |cubes| ensures CubeSize(cubes[r]) <= Power(edge, CountLong(size)) {
      BalancedSizes(s, Unrank(r, factors), edge);
    }
    NearlyEqualBoxes(s);
  }

  /** In every dimension, no cube is more than one longer than another. */
  ghost predicate NearlyEqual(cs: seq<Cube>) {
    forall i, j, d :: 0 <= i < |cs| && 0 <= j < |cs| && 0 <= d < |cs[i]| && 0 <= d < |cs[j]| ==> cs[i][d].Size() <= cs[j][d].Size() + 1
  }

  lemma NearlyEqualPieces(n: int, f: int, k: int, l: int)
    requires 1 <= f <= n
    ensures Cut(n, f, k + 1) - Cut(n, f, k) <= Cut(n, f, l + 1) - Cut(n, f, l) + 1
  {
    var q := n / f;
    assert n == q * f + n % f;
    assert (q + 1) * f == q * f + f;
    PieceSize(n, f, k, q + 1);
    PieceSize(n, f, l, q);
  }

  lemma NearlyEqualBoxes(s: Scheme)
    requires s.Valid() && Prod(s.factors) >= 0
    ensures NearlyEqual(s.Boxes(Prod(s.factors)))
  {
    var cs: seq<Cube> := s.Boxes(Prod(s.factors));
    forall i: nat, j: nat, d: nat | i < |cs| && j < |cs| && d < |cs[i]| && d < |cs[j]|
      ensures cs[i][d].Size() <= cs[j][d].Size() + 1
    {
      var x, y := Unrank(i, s.factors), Unrank(j, s.factors);
      assert |x| == |s.factors| == |y|;
      EqualSizes(s, x, y, d);
    }
  }

  lemma EqualSizes(s: Scheme, x: seq<int>, y: seq<int>, d: nat)
    requires s.Valid() && |x| == |y| == |s.factors| && d < |s.size|
    ensures s.BoxAt(x)[d].Size() <= s.BoxAt(y)[d].Size() + 1
  {
    var n, f := s.size[d], s.factors[s.pos[d]];
    NearlyEqualPieces(n, f, x[s.pos[d]], y[s.pos[d]]);
    PieceSize(n, f, x[s.pos[d]], 1);
    PieceSize(n, f, y[s.pos[d]], 1);
  }
}
