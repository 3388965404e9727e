/** Dividing a dataspace among backends according to their throughput. */
module BackendSplitting {
  import opened Options
  import opened MixedRadix
  import opened Geometry
  import opened CubeSets
  import opened Dataspaces
  import opened CopyPlan
  import opened Splitting
  import opened Axes
  import opened GridCells

  // ----- where one backend's share ends and the next begins

  function Cumulated(weights: seq<real>, i: nat): (w: real)
    requires i <= |weights| && forall k :: 0 <= k < |weights| ==> weights[k] >= 0.0
    ensures w >= 0.0
  {
    if i == 0 then 0.0 else Cumulated(weights, i - 1) + weights[i - 1]
  }

  /** Rounding to the nearest integer, for values that are not negative. */
  function Round(x: real): int { (x + 0.5).Floor }

  function Portion(a: real, n: real, t: real): real
    requires t > 0.0
  {
    (a * n) / t
  }

  function Share(weights: seq<real>, size: int, i: nat): int
    requires i <= |weights| && (forall k :: 0 <= k < |weights| ==> weights[k] >= 0.0) && Cumulated(weights, |weights|) > 0.0
  {
    Round(Portion(Cumulated(weights, i), size as real, Cumulated(weights, |weights|)))
  }

  lemma ShareGrows(weights: seq<real>, size: int, i: nat)
    requires i < |weights| && size >= 0 && (forall k :: 0 <= k < |weights| ==> weights[k] >= 0.0) && Cumulated(weights, |weights|) > 0.0
    ensures Share(weights, size, i) <= Share(weights, size, i + 1)
  {
    var a, b, n, t := Cumulated(weights, i), Cumulated(weights, i + 1), size as real, Cumulated(weights, |weights|);
    ScaledOrder(a, b, n, t);
    RoundOrder(Portion(a, n, t), Portion(b, n, t));
  }

  /** The bound is the integer next to the exact place. */
  lemma ShareIsNearest(weights: seq<real>, size: int, i: nat)
    requires i <= |weights| && (forall k :: 0 <= k < |weights| ==> weights[k] >= 0.0) && Cumulated(weights, |weights|) > 0.0
    ensures Near(Share(weights, size, i), Portion(Cumulated(weights, i), size as real, Cumulated(weights, |weights|)))
  {
    RoundIsNear(Portion(Cumulated(weights, i), size as real, Cumulated(weights, |weights|)));
  }

  ghost predicate Near(n: int, x: real) { x - 0.5 < n as real <= x + 0.5 }

  lemma RoundIsNear(x: real)
    ensures Near(Round(x), x)
  {
    var f := (x + 0.5).Floor;
    assert f as real <= x + 0.5 < f as real + 1.0;
  }

  /** The width differs by less than one from the share that the backend's weight stands for. */
  ghost predicate Proportional(weights: seq<real>, size: int, i: nat, width: int)
    requires i < |weights| && (forall k :: 0 <= k < |weights| ==> weights[k] >= 0.0) && Cumulated(weights, |weights|) > 0.0
  {
    var exact := Portion(weights[i], size as real, Cumulated(weights, |weights|));
    exact - 1.0 < width as real < exact + 1.0
  }

  lemma WidthIsProportional(weights: seq<real>, size: int, i: nat)
    requires i < |weights| && (forall k :: 0 <= k < |weights| ==> weights[k] >= 0.0) && Cumulated(weights, |weights|) > 0.0
    ensures Proportional(weights, size, i, Share(weights, size, i + 1) - Share(weights, size, i))
  {
    ShareIsNearest(weights, size, i);
    ShareIsNearest(weights, size, i + 1);
    var n, t := size as real, Cumulated(weights, |weights|);
    SumOfPortions(Cumulated(weights, i), weights[i], n, t);
    NearDifference(Share(weights, size, i), Share(weights, size, i + 1), Portion(Cumulated(weights, i), n, t), Portion(weights[i], n, t));
  }

  lemma NearDifference(a: int, b: int, x: real, w: real)
    requires Near(a, x) && Near(b, x + w)
    ensures w - 1.0 < (b - a) as real < w + 1.0
  {
    assert (b - a) as real == b as real - a as real;
  }

  lemma SumOfPortions(a: real, w: real, n: real, t: real)
    requires t > 0.0
    ensures Portion(a + w, n, t) == Portion(a, n, t) + Portion(w, n, t)
  {
    assert (a + w) * n == a * n + w * n;
    SumOfQuotients(a * n, w * n, t);
  }

  lemma SumOfQuotients(x: real, y: real, t: real)
    requires t > 0.0
    ensures (x + y) / t == x / t + y / t
  {
    Quotient(x, t);
    Quotient(y, t);
    Quotient(x + y, t);
    Distribute((x + y) / t, x / t + y / t, t);
    var d := (x + y) / t - (x / t + y / t);
    assert (x / t + y / t) * t == x + y;
    assert d * t == 0.0;
    if d > 0.0 { PositiveProduct(d, t); }
    if d < 0.0 { PositiveProduct(-d, t); }
  }

  lemma RoundOrder(x: real, y: real)
    requires x <= y
    ensures Round(x) <= Round(y)
  {
    var f, g := Round(x), Round(y);
    assert f as real <= x + 0.5 && y + 0.5 < (g + 1) as real;
  }

  lemma PositiveProduct(x: real, t: real)
    requires x > 0.0 && t > 0.0
    ensures x * t > 0.0
  {}

  lemma Quotient(a: real, t: real)
    requires t > 0.0
    ensures (a / t) * t == a
  {}

  lemma CancelFactor(x: real, y: real, t: real)
    requires t > 0.0 && x * t <= y * t
    ensures x <= y
  {
    Distribute(x, y, t);
    if x > y { PositiveProduct(x - y, t); }
  }

  lemma Distribute(x: real, y: real, t: real)
    ensures (x - y) * t == x * t - y * t
  {
  }

  lemma ScaledOrder(a: real, b: real, n: real, t: real)
    requires a <= b && n >= 0.0 && t > 0.0
    ensures Portion(a, n, t) <= Portion(b, n, t)
  {
    assert (b - a) * n >= 0.0;
    assert b * n == a * n + (b - a) * n;
    Quotient(a * n, t);
    Quotient(b * n, t);
    CancelFactor(Portion(a, n, t), Portion(b, n, t), t);
  }

  lemma ShareEnds(weights: seq<real>, size: int)
    requires (forall k :: 0 <= k < |weights| ==> weights[k] >= 0.0) && Cumulated(weights, |weights|) > 0.0
    ensures Share(weights, size, 0) == 0 && Share(weights, size, |weights|) == size
  {
    var n, t := size as real, Cumulated(weights, |weights|);
    WholeQuotient(t, n);
    assert Portion(0.0, n, t) == 0.0;
    assert Round(n) == size;
  }

  lemma WholeQuotient(t: real, n: real)
    requires t > 0.0
    ensures Portion(t, n, t) == n
  {
    Quotient(t * n, t);
    CancelFactor(Portion(t, n, t), n, t);
    CancelFactor(n, Portion(t, n, t), t);
  }

  // ----- cutting one dimension

  ghost function Slices(whole: Cube, d: nat, b: Bounds): (cs: seq<Cube>)
    requires d < |whole| && |b| >= 1
    ensures |cs| == |b| - 1 && forall i :: 0 <= i < |cs| ==> cs[i] == whole[d := Range(b[i], b[i + 1])]
  {
    seq(|b| - 1, i requires 0 <= i < |b| - 1 => whole[d := Range(b[i], b[i + 1])])
  }

  /** Strictly increasing bounds from one end of a dimension to the other cut a cube into a partition. */
  lemma SlicesPartition(whole: Cube, d: nat, b: Bounds)
    requires d < |whole| && StrictBounds(b) && whole[d] == Range(b[0], b[|b| - 1]) && !IsEmptyCube(whole)
    ensures Partition(Slices(whole, d, b), whole)
  {
    var cs := Slices(whole, d, b);
    forall i | 0 <= i < |cs| ensures !IsEmptyCube(cs[i]) { assert forall e :: 0 <= e < |whole| ==> !whole[e].IsEmpty(); }
    forall i, j | 0 <= i < |cs| && 0 <= j < |cs| && i != j ensures !Overlapping(cs[i], cs[j]) {
      forall p ensures !(Contains(cs[i], p) && Contains(cs[j], p)) {
        ReplacedRange(whole, d, Range(b[i], b[i + 1]), p);
        ReplacedRange(whole, d, Range(b[j], b[j + 1]), p);
        if Contains(cs[i], p) && Contains(cs[j], p) { IntervalUnique(b, i, j, p[d]); }
      }
    }
    forall p ensures Covers(cs, p) <==> Contains(whole, p) { SliceOf(whole, d, b, p); }
  }

  lemma SliceOf(whole: Cube, d: nat, b: Bounds, p: Point)
    requires d < |whole| && StrictBounds(b) && whole[d] == Range(b[0], b[|b| - 1])
    ensures Covers(Slices(whole, d, b), p) <==> Contains(whole, p)
  {
    var cs := Slices(whole, d, b);
    if Contains(whole, p) {
      assert whole[d].Has(p[d]);
      var i := IntervalOf(b, p[d], |b| - 2);
      ReplacedRange(whole, d, Range(b[i], b[i + 1]), p);
      assert Contains(cs[i], p);
    }
    if Covers(cs, p) {
      var i :| 0 <= i < |cs| && Contains(cs[i], p);
      ReplacedRange(whole, d, Range(b[i], b[i + 1]), p);
      assert b[0] <= b[i] && b[i + 1] <= b[|b| - 1];
    }
  }

  // ----- the division

  /** No dimension with more than one slice has a larger stride, and no later one has an equal stride. */
  ghost predicate LargestStride(size: seq<int>, stride: seq<int>, best: nat) {
    && best < |size| == |stride|
    && forall d :: 0 <= d < |size| && size[d] > 1 ==> Abs(stride[d]) <= Abs(stride[best]) && (d > best ==> Abs(stride[d]) < Abs(stride[best]))
  }

  /** The fastest backend; the last one of equally fast ones. */
  method BestBackend(weights: seq<real>) returns (backend: nat)
    requires |weights| >= 1 && forall k :: 0 <= k < |weights| ==> weights[k] >= 0.0
    ensures IsFastest(weights, backend)
  {
    backend := 0;
    var bestWeight := 0.0;
    for i := 0 to |weights|
      invariant backend < |weights| && bestWeight >= 0.0 && (i > 0 ==> backend < i && bestWeight == weights[backend])
      invariant forall k :: 0 <= k < i ==> weights[k] <= bestWeight && (k > backend ==> weights[k] < bestWeight)
    {
      if bestWeight <= weights[i] || i == 0 { bestWeight, backend := weights[i], i; }
    }
  }

  ghost predicate IsFastest(weights: seq<real>, b: nat) {
    b < |weights| && forall k :: 0 <= k < |weights| ==> weights[k] <= weights[b] && (k > b ==> weights[k] < weights[b])
  }

  /** The dimension with the largest stride that has more than one slice, or -1. */
  method BestDim(size: seq<int>, stride: seq<int>) returns (best: int)
    requires |stride| == |size|
    ensures best == -1 <==> forall d :: 0 <= d < |size| ==> size[d] <= 1
    ensures best != -1 ==> 0 <= best < |size| && size[best] > 1 && LargestStride(size, stride, best)
  {
    best := -1;
    var bestStride := 0;
    for i := 0 to |size|
      invariant best == -1 ==> bestStride == 0 && forall d :: 0 <= d < i ==> size[d] <= 1
      invariant best != -1 ==> 0 <= best < i && size[best] > 1 && bestStride == Abs(stride[best])
      invariant forall d :: 0 <= d < i && size[d] > 1 ==> Abs(stride[d]) <= bestStride && (d > best ==> Abs(stride[d]) < bestStride)
      invariant bestStride >= 0
    {
      if Abs(stride[i]) >= bestStride && size[i] > 1 {
        bestStride, best := Abs(stride[i]), i;
      }
    }
  }

  /** Bounds between the shares. */
  method ShareBounds(start: int, size: int, weights: seq<real>) returns (b: Bounds)
    requires size >= 0 && (forall k :: 0 <= k < |weights| ==> weights[k] >= 0.0) && Cumulated(weights, |weights|) > 0.0
    ensures |b| == |weights| + 1 && forall i :: 0 <= i <= |weights| ==> b[i] == start + Share(weights, size, i)
    ensures b[0] == start && b[|weights|] == start + size && forall i :: 0 <= i < |weights| ==> b[i] <= b[i + 1]
  {
    ShareEnds(weights, size);
    b := [];
    for i := 0 to |weights| + 1
      invariant |b| == i && forall k :: 0 <= k < i ==> b[k] == start + Share(weights, size, k)
    {
      b := b + [start + Share(weights, size, i)];
    }
    forall i | 0 <= i < |weights| ensures b[i] <= b[i + 1] { ShareGrows(weights, size, i); }
  }

  /** The shares, or None if the function loses its output array: an empty share overwrites the pointer to the array
      instead of the entry. */
  method CutShares(whole: Cube, d: nat, b: Bounds) returns (r: Option<seq<Cube>>)
    requires d < |whole| && |b| >= 2 && forall i :: 0 <= i < |b| - 1 ==> b[i] <= b[i + 1]
    ensures r.Some? <==> forall i :: 0 <= i < |b| - 1 ==> b[i] != b[i + 1]
    ensures r.Some? ==> r.value == Slices(whole, d, b)
  {
    var cs: seq<Cube> := [];
    for i := 0 to |b| - 1
      invariant |cs| == i && forall k :: 0 <= k < i ==> b[k] != b[k + 1] && cs[k] == whole[d := Range(b[k], b[k + 1])]
    {
      if b[i] == b[i + 1] { return None; }
      cs := cs + [whole[d := Range(b[i], b[i + 1])]];
    }
    r := Some(cs);
  }

  /** Divides the dataspace in its best dimension. The shares partition it, provided that no share is empty. */
  method SplitToBackends(offset: seq<int>, size: seq<int>, stride: seq<int>, weights: seq<real>) returns (best: int, r: Option<seq<Cube>>, backend: nat)
    requires |offset| == |size| == |stride| && AllPositive(size)
    requires |weights| >= 1 && (forall k :: 0 <= k < |weights| ==> weights[k] >= 0.0) && Cumulated(weights, |weights|) > 0.0
    ensures best == -1 <==> forall d :: 0 <= d < |size| ==> size[d] <= 1
    ensures best == -1 ==> r == Some([Space(offset, size, None).Extents()]) && IsFastest(weights, backend)
    ensures best != -1 ==> 0 <= best < |size| && size[best] > 1 && LargestStride(size, stride, best)
    ensures best != -1 ==> (r.Some? <==> forall i :: 0 <= i < |weights| ==> Share(weights, size[best], i) != Share(weights, size[best], i + 1))
    ensures r.Some? && best != -1 ==> |r.value| == |weights| && Partition(r.value, Space(offset, size, None).Extents())
    ensures r.Some? && best != -1 ==> forall i :: 0 <= i < |weights| ==> |r.value[i]| == |size| && Proportional(weights, size[best], i, r.value[i][best].Size())
  {
    var whole := Space(offset, size, None).Extents();
    best := BestDim(size, stride);
    backend := 0;
    if best == -1 {
      backend := BestBackend(weights);
      return best, Some([whole]), backend;
    }
    var b := ShareBounds(offset[best], size[best], weights);
    r := CutShares(whole, best, b);
    if r.Some? {
      StrictFromSteps(b);
      SlicesPartition(whole, best, b);
      forall i | 0 <= i < |weights| ensures Proportional(weights, size[best], i, b[i + 1] - b[i]) { WidthIsProportional(weights, size[best], i); }
    }
  }

  /** Three equally fast backends and two slices: rounding leaves the second backend without a share, and the output is lost. */
  method EmptyShare() returns (best: int, r: Option<seq<Cube>>)
    ensures best == 0 && r.None?
  {
    var w := [1.0, 1.0, 1.0];
    SecondShareIsEmpty(w);
    var backend;
    best, r, backend := SplitToBackends([0], [2], [1], w);
    assert [2][0] > 1;
  }

  lemma SecondShareIsEmpty(w: seq<real>)
    requires w == [1.0, 1.0, 1.0]
    ensures Cumulated(w, 3) > 0.0 && Share(w, 2, 1) == Share(w, 2, 2)
  {
    assert Cumulated(w, 1) == Cumulated(w, 0) + w[0] == 1.0;
    assert Cumulated(w, 2) == Cumulated(w, 1) + w[1] == 2.0;
    assert Cumulated(w, 3) == Cumulated(w, 2) + w[2] == 3.0;
    assert Portion(1.0, 2.0, 3.0) + 0.5 == 7.0 / 6.0 && Portion(2.0, 2.0, 3.0) + 0.5 == 11.0 / 6.0;
  }
}
