/** The cells of one grid: numbering, extents, and lookup by extents. */
module GridCells {
  import opened Options
  import opened MixedRadix
  import opened Geometry
  import opened CubeSets
  import opened Splitting
  import opened Axes
  import CopyPlan

  predicate AxesOk(axes: seq<Bounds>) {
    forall d :: 0 <= d < |axes| ==> StrictBounds(axes[d])
  }

  function Intervals(axes: seq<Bounds>): (n: seq<int>)
    ensures |n| == |axes| && forall d :: 0 <= d < |axes| ==> n[d] == |axes[d]| - 1
    ensures AxesOk(axes) ==> AllPositive(n)
  {
    seq(|axes|, d requires 0 <= d < |axes| => |axes[d]| - 1)
  }

  function Domain(axes: seq<Bounds>): (c: Cube)
    requires AxesOk(axes)
    ensures |c| == |axes| && forall d :: 0 <= d < |axes| ==> c[d] == Range(axes[d][0], axes[d][|axes[d]| - 1])
  {
    seq(|axes|, d requires 0 <= d < |axes| => Range(axes[d][0], axes[d][|axes[d]| - 1]))
  }

  function CellBox(axes: seq<Bounds>, k: seq<int>): (c: Cube)
    requires InBox(k, Intervals(axes))
    ensures |c| == |axes| && forall d :: 0 <= d < |axes| ==> 0 <= k[d] < |axes[d]| - 1 && c[d] == Range(axes[d][k[d]], axes[d][k[d] + 1])
  {
    seq(|axes|, d requires 0 <= d < |axes| => Range(axes[d][k[d]], axes[d][k[d] + 1]))
  }

  /** The number of cells. */
  method CellCount(axes: seq<Bounds>) returns (n: int)
    ensures n == Prod(Intervals(axes))
  {
    n := 1;
    var m := Intervals(axes);
    assert m[..|axes|] == m;
    for i := 0 to |axes|
      invariant n == Prod(m[..i])
    {
      assert m[..i + 1] == m[..i] + [m[i]];
      CopyPlan.ProdSnoc(m[..i], m[i]);
      n := n * (|axes[i]| - 1);
    }
  }

  lemma RankSnoc(k: seq<int>, n: seq<int>, i: nat)
    requires |k| == |n| && i < |k|
    ensures Rank(k[..i + 1], n[..i + 1]) == Rank(k[..i], n[..i]) * n[i] + k[i]
  {
    assert k[..i + 1] == k[..i] + [k[i]] && n[..i + 1] == n[..i] + [n[i]];
    RankConcat(k[..i], [k[i]], n[..i], [n[i]]);
    assert [k[i]][1..] == [] && [n[i]][1..] == [];
    assert Prod([]) == 1 && Rank([], []) == 0;
    assert Prod([n[i]]) == n[i] && Rank([k[i]], [n[i]]) == k[i];
  }

  /** The row-major number of a cell, or -1 for an index that is out of range. */
  method LinearIndex(axes: seq<Bounds>, index: seq<int>) returns (r: int)
    requires |index| == |axes|
    ensures r == if InBox(index, Intervals(axes)) then Rank(index, Intervals(axes)) else -1
    ensures r >= 0 <==> InBox(index, Intervals(axes))
    ensures r >= 0 ==> r < Prod(Intervals(axes))
  {
    var n := Intervals(axes);
    r := 0;
    for i := 0 to |axes|
      invariant r == Rank(index[..i], n[..i]) && forall d :: 0 <= d < i ==> 0 <= index[d] < n[d]
    {
      if index[i] < 0 || index[i] >= |axes[i]| - 1 { return -1; }
      RankSnoc(index, n, i);
      r := r * (|axes[i]| - 1) + index[i];
    }
    assert index[..|axes|] == index && n[..|axes|] == n;
    RankBounds(index, n);
  }

  /** The coordinates of a cell from its number. */
  method IndexCoordinates(axes: seq<Bounds>, linearIndex: int) returns (index: seq<int>)
    requires AxesOk(axes) && 0 <= linearIndex < Prod(Intervals(axes))
    ensures InBox(index, Intervals(axes)) && Rank(index, Intervals(axes)) == linearIndex
  {
    var n := Intervals(axes);
    ghost var k := Unrank(linearIndex, n);
    RankUnrank(linearIndex, n);
    index := Zeros(|axes|);
    var rest, d := linearIndex, |axes|;
    assert k[..d] == k && n[..d] == n;
    while d > 0
      invariant 0 <= d <= |axes| == |index| && rest == Rank(k[..d], n[..d])
      invariant forall e :: d <= e < |axes| ==> index[e] == k[e]
    {
      d := d - 1;
      RankSnoc(k, n, d);
      assert 0 <= k[d] < n[d];
      DivModOf(Rank(k[..d], n[..d]), n[d], k[d]);
      index := index[d := rest % (|axes[d]| - 1)];
      rest := rest / (|axes[d]| - 1);
    }
    assert index == k;
  }

  /** Offset and end of a cell, or an error for an index that is out of range. */
  method CellSize(axes: seq<Bounds>, index: seq<int>) returns (r: Option<Cube>)
    requires |index| == |axes|
    ensures r.Some? <==> InBox(index, Intervals(axes))
    ensures r.Some? ==> r.value == CellBox(axes, index)
  {
    var cube: Cube := [];
    for d := 0 to |axes|
      invariant |cube| == d && forall e :: 0 <= e < d ==> 0 <= index[e] < |axes[e]| - 1 && cube[e] == Range(axes[e][index[e]], axes[e][index[e] + 1])
    {
      if index[d] < 0 || index[d] >= |axes[d]| - 1 { return None; }
      cube := cube + [Range(axes[d][index[d]], axes[d][index[d] + 1])];
    }
    r := Some(cube);
  }

  // ----- the cells tile the domain

  ghost function IntervalOf(b: Bounds, x: int, hi: nat): (i: nat)
    requires hi < |b| - 1 && b[0] <= x < b[hi + 1]
    ensures InInterval(b, i, x)
  {
    if b[hi] <= x then hi else IntervalOf(b, x, hi - 1)
  }

  ghost function CellAt(axes: seq<Bounds>, p: Point): (k: seq<int>)
    requires AxesOk(axes) && Contains(Domain(axes), p)
    ensures InBox(k, Intervals(axes)) && forall d :: 0 <= d < |axes| ==> InInterval(axes[d], k[d], p[d])
  {
    assert forall d :: 0 <= d < |axes| ==> Domain(axes)[d].Has(p[d]);
    seq(|axes|, d requires 0 <= d < |axes| => IntervalOf(axes[d], p[d], |axes[d]| - 2))
  }

  lemma CellContains(axes: seq<Bounds>, k: seq<int>, p: Point)
    requires AxesOk(axes) && InBox(k, Intervals(axes))
    ensures Contains(CellBox(axes, k), p) <==> Contains(Domain(axes), p) && k == CellAt(axes, p)
  {
    var c := CellBox(axes, k);
    if Contains(c, p) {
      forall d | 0 <= d < |axes| ensures Domain(axes)[d].Has(p[d]) {
        assert c[d].Has(p[d]);
        assert k[d] > 0 ==> axes[d][0] < axes[d][k[d]];
        assert k[d] + 1 < |axes[d]| - 1 ==> axes[d][k[d] + 1] < axes[d][|axes[d]| - 1];
      }
      forall d | 0 <= d < |axes| ensures k[d] == CellAt(axes, p)[d] {
        assert c[d].Has(p[d]);
        IntervalUnique(axes[d], k[d], CellAt(axes, p)[d], p[d]);
      }
    }
  }

  lemma CellNonEmpty(axes: seq<Bounds>, k: seq<int>)
    requires AxesOk(axes) && InBox(k, Intervals(axes))
    ensures !IsEmptyCube(CellBox(axes, k))
  {
    forall d | 0 <= d < |axes| ensures !CellBox(axes, k)[d].IsEmpty() { assert axes[d][k[d]] < axes[d][k[d] + 1]; }
  }

  /** All cells in the order of their numbers. */
  ghost function Cells(axes: seq<Bounds>): (cs: seq<Cube>)
    requires AxesOk(axes)
    ensures |cs| == Prod(Intervals(axes)) >= 1
    ensures forall r :: 0 <= r < |cs| ==> InBox(Unrank(r, Intervals(axes)), Intervals(axes)) && cs[r] == CellBox(axes, Unrank(r, Intervals(axes)))
  {
    var n := Intervals(axes);
    ProdPositive(n);
    assert forall r :: 0 <= r < Prod(n) ==> InBox(Unrank(r, n), n) by {
      forall r | 0 <= r < Prod(n) ensures InBox(Unrank(r, n), n) { RankUnrank(r, n); }
    }
    seq(Prod(n), r requires 0 <= r < Prod(n) => CellBox(axes, Unrank(r, n)))
  }

  lemma CellWithNumber(axes: seq<Bounds>, k: seq<int>)
    requires AxesOk(axes) && InBox(k, Intervals(axes))
    ensures 0 <= Rank(k, Intervals(axes)) < Prod(Intervals(axes)) && Cells(axes)[Rank(k, Intervals(axes))] == CellBox(axes, k)
  {
    RankBounds(k, Intervals(axes));
    UnrankRank(k, Intervals(axes));
  }

  lemma CellsPartition(axes: seq<Bounds>)
    requires AxesOk(axes)
    ensures Partition(Cells(axes), Domain(axes))
  {
    var cs := Cells(axes);
    forall r | 0 <= r < |cs| ensures !IsEmptyCube(cs[r]) { CellNonEmpty(axes, Unrank(r, Intervals(axes))); }
    forall i, j | 0 <= i < |cs| && 0 <= j < |cs| && i != j ensures !Overlapping(cs[i], cs[j]) { CellsDisjoint(axes, i, j); }
    forall p ensures Covers(cs, p) <==> Contains(Domain(axes), p) {
      if Contains(Domain(axes), p) { DomainIsCovered(axes, p); }
      if Covers(cs, p) { CellsAreInside(axes, p); }
    }
  }

  lemma DomainIsCovered(axes: seq<Bounds>, p: Point)
    requires AxesOk(axes) && Contains(Domain(axes), p)
    ensures Covers(Cells(axes), p)
  {
    CellWithNumber(axes, CellAt(axes, p));
    CellContains(axes, CellAt(axes, p), p);
  }

  lemma CellsAreInside(axes: seq<Bounds>, p: Point)
    requires AxesOk(axes) && Covers(Cells(axes), p)
    ensures Contains(Domain(axes), p)
  {
    var r :| 0 <= r < |Cells(axes)| && Contains(Cells(axes)[r], p);
    CellContains(axes, Unrank(r, Intervals(axes)), p);
  }

  lemma CellsDisjoint(axes: seq<Bounds>, i: nat, j: nat)
    requires AxesOk(axes) && i < Prod(Intervals(axes)) && j < Prod(Intervals(axes)) && i != j
    ensures !Overlapping(Cells(axes)[i], Cells(axes)[j])
  {
    var n := Intervals(axes);
    RankUnrank(i, n);
    RankUnrank(j, n);
    forall p ensures !(Contains(Cells(axes)[i], p) && Contains(Cells(axes)[j], p)) {
      CellContains(axes, Unrank(i, n), p);
      CellContains(axes, Unrank(j, n), p);
    }
  }

  // ----- lookup by extents

  /** x lies in cell k. */
  ghost predicate Encloses(axes: seq<Bounds>, k: seq<int>, x: Cube) {
    && |x| == |axes| == |k|
    && forall d :: 0 <= d < |axes| ==> 0 <= k[d] < |axes[d]| - 1 && axes[d][k[d]] <= x[d].start < x[d].end <= axes[d][k[d] + 1]
  }

  predicate InPlace(b: Bounds, i: int, r: Range) { 0 <= i < |b| - 1 && b[i] <= r.start < r.end <= b[i + 1] }

  /** The intervals found for the first dimensions, and whether the extents are shorter than one of them. */
  ghost predicate Matched(axes: seq<Bounds>, x: Cube, index: seq<int>, tooSmall: bool) {
    && |index| <= |axes| == |x|
    && (forall e :: 0 <= e < |index| ==> InPlace(axes[e], index[e], x[e]))
    && (tooSmall <==> exists e :: 0 <= e < |index| && x[e] != Range(axes[e][index[e]], axes[e][index[e] + 1]))
  }

  lemma NothingEncloses(axes: seq<Bounds>, x: Cube, d: nat)
    requires d < |axes| == |x| && !exists i :: 0 <= i < |axes[d]| - 1 && axes[d][i] <= x[d].start < x[d].end <= axes[d][i + 1]
    ensures forall k :: !Encloses(axes, k, x)
  {
    forall k: seq<int> ensures !Encloses(axes, k, x) {
      if |k| == |axes| && 0 <= k[d] < |axes[d]| - 1 { assert !(axes[d][k[d]] <= x[d].start < x[d].end <= axes[d][k[d] + 1]); }
    }
  }

  lemma OneMore(axes: seq<Bounds>, x: Cube, index: seq<int>, i: int, tooSmall: bool, short: bool)
    requires Matched(axes, x, index, tooSmall) && |index| < |axes| && InPlace(axes[|index|], i, x[|index|])
    requires short <==> x[|index|] != Range(axes[|index|][i], axes[|index|][i + 1])
    ensures Matched(axes, x, index + [i], tooSmall || short)
  {
    var k, n := index + [i], |index|;
    forall e | 0 <= e < n ensures k[e] == index[e] {}
    if short { assert x[n] != Range(axes[n][k[n]], axes[n][k[n] + 1]); }
    if tooSmall {
      var e :| 0 <= e < n && x[e] != Range(axes[e][index[e]], axes[e][index[e] + 1]);
      assert x[e] != Range(axes[e][k[e]], axes[e][k[e] + 1]);
    }
  }

  lemma AllMatched(axes: seq<Bounds>, x: Cube, index: seq<int>, tooSmall: bool)
    requires Matched(axes, x, index, tooSmall) && |index| == |axes|
    ensures Encloses(axes, index, x) && InBox(index, Intervals(axes)) && (tooSmall <==> x != CellBox(axes, index))
  {
    forall e | 0 <= e < |axes| ensures 0 <= index[e] < Intervals(axes)[e] { assert InPlace(axes[e], index[e], x[e]); }
    var c := CellBox(axes, index);
    if !tooSmall { assert forall e :: 0 <= e < |x| ==> x[e] == c[e]; }
  }

  /** The cell that encloses the extents; tooSmall if they are only a part of it. */
  method FindCell(axes: seq<Bounds>, x: Cube) returns (r: Option<seq<int>>, tooSmall: bool)
    requires AxesOk(axes) && |x| == |axes|
    ensures r.Some? <==> exists k :: Encloses(axes, k, x)
    ensures r.Some? ==> Encloses(axes, r.value, x) && InBox(r.value, Intervals(axes))
    ensures r.Some? ==> (tooSmall <==> x != CellBox(axes, r.value))
  {
    tooSmall := false;
    var index: seq<int> := [];
    for d := 0 to |axes|
      invariant |index| == d && Matched(axes, x, index, tooSmall)
    {
      var i, short := MatchInterval(axes[d], x[d].start, x[d].end);
      if i < 0 {
        NothingEncloses(axes, x, d);
        return None, tooSmall;
      }
      OneMore(axes, x, index, i, tooSmall, short);
      index := index + [i];
      tooSmall := tooSmall || short;
    }
    AllMatched(axes, x, index, tooSmall);
    r := Some(index);
  }

  lemma EnclosesUnique(axes: seq<Bounds>, k: seq<int>, l: seq<int>, x: Cube)
    requires AxesOk(axes) && Encloses(axes, k, x) && Encloses(axes, l, x)
    ensures k == l
  {
    forall d | 0 <= d < |axes| ensures k[d] == l[d] { IntervalUnique(axes[d], k[d], l[d], x[d].start); }
  }
}
