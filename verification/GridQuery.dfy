/** The fragments of a complete grid that intersect a region. */
module GridQuery {
  import opened Options
  import opened MixedRadix
  import opened Geometry
  import opened CubeSets
  import opened Dataspaces
  import opened Axes
  import opened GridCells
  import opened Grids
  import opened GridLeaves
  import opened GridWalk

  // ----- cells that overlap a region form a box of indices

  /** The region is not empty and reaches into the domain in every dimension. */
  predicate Meets(axes: seq<Bounds>, region: Cube) {
    AxesOk(axes) && |region| == |axes| && forall d :: 0 <= d < |axes| ==> region[d].start < region[d].end && region[d].start < axes[d][|axes[d]| - 1] && axes[d][0] < region[d].end
  }

  ghost predicate Between(k: seq<int>, first: seq<int>, last: seq<int>) {
    |k| == |first| == |last| && forall d :: 0 <= d < |k| ==> first[d] <= k[d] < last[d]
  }

  function Clip(x: int, lo: int, hi: int): int { if x < lo then lo else if x > hi then hi else x }

  /** The cells between first and last are those that the region overlaps. */
  ghost predicate IndexBox(axes: seq<Bounds>, region: Cube, first: seq<int>, last: seq<int>) {
    && |first| == |last| == |axes| && (forall d :: 0 <= d < |axes| ==> 0 <= first[d] < last[d] <= |axes[d]| - 1)
    && (forall k :: InBox(k, Intervals(axes)) ==> (Between(k, first, last) <==> Overlapping(CellBox(axes, k), region)))
  }

  /** The half-open range of cell indices for the region, after it was clipped to the domain. */
  method IndexRange(axes: seq<Bounds>, region: Cube) returns (first: seq<int>, last: seq<int>)
    requires AxesOk(axes) && |region| == |axes|
    ensures ClippedRange(axes, region, first, last)
    ensures Meets(axes, region) ==> IndexBox(axes, region, first, last)
  {
    first, last := [], [];
    for d := 0 to |axes|
      invariant |first| == |last| == d
      invariant forall e :: 0 <= e < d ==> Clipped(axes[e], region[e], first[e], last[e])
    {
      var i, j := IntervalRange(axes[d], region[d]);
      first, last := first + [i], last + [j];
    }
    if Meets(axes, region) { RangeIsIndexBox(axes, region, first, last); }
  }

  /** first and last delimit the intervals that the clipped range reaches into. */
  ghost predicate Touched(b: Bounds, r: Range, first: int, last: int) {
    |b| >= 2 && InInterval(b, first, Clip(r.start, b[0], b[|b| - 1])) && InInterval(b, last - 1, Clip(r.end, b[0], b[|b| - 1]) - 1)
  }

  /** The same for any range; an end that is clipped away has no interval. */
  ghost predicate Clipped(b: Bounds, r: Range, first: int, last: int) {
    && |b| >= 2
    && (if Clip(r.start, b[0], b[|b| - 1]) < b[|b| - 1] then InInterval(b, first, Clip(r.start, b[0], b[|b| - 1])) else first == -1)
    && (if b[0] < Clip(r.end, b[0], b[|b| - 1]) then InInterval(b, last - 1, Clip(r.end, b[0], b[|b| - 1]) - 1) else last == 0)
  }

  ghost predicate ClippedRange(axes: seq<Bounds>, region: Cube, first: seq<int>, last: seq<int>) {
    |first| == |last| == |axes| == |region| && forall d :: 0 <= d < |axes| ==> Clipped(axes[d], region[d], first[d], last[d])
  }

  method IntervalRange(b: Bounds, r: Range) returns (first: int, last: int)
    requires StrictBounds(b)
    ensures Clipped(b, r, first, last)
  {
    var lo, hi := b[0], b[|b| - 1];
    first := FindInterval(b, Clip(r.start, lo, hi));
    last := FindInterval(b, Clip(r.end, lo, hi) - 1);
    last := last + 1;
  }

  // ----- regions outside of the domain

  predicate BeforeDomain(b: Bounds, r: Range) { |b| >= 2 && r.end <= b[0] }
  predicate BehindDomain(b: Bounds, r: Range) { |b| >= 2 && r.start >= b[|b| - 1] }

  lemma ClippedShape(b: Bounds, r: Range, first: int, last: int)
    requires StrictBounds(b) && r.start < r.end && Clipped(b, r, first, last)
    ensures BeforeDomain(b, r) ==> first == last == 0
    ensures BehindDomain(b, r) ==> first == -1 && last == |b| - 1
    ensures !BeforeDomain(b, r) && !BehindDomain(b, r) ==> Touched(b, r, first, last) && 0 <= first < last <= |b| - 1
  {
    if BeforeDomain(b, r) { IntervalUnique(b, first, 0, b[0]); }
    if BehindDomain(b, r) { IntervalUnique(b, last - 1, |b| - 2, b[|b| - 1] - 1); }
  }

  ghost predicate IsEmptyRange(first: seq<int>, last: seq<int>) {
    |first| == |last| && exists d :: 0 <= d < |first| && first[d] >= last[d]
  }

  /** Clipping yields an empty index range exactly if the region lies before the domain in some dimension; a region that
      lies behind the domain does not have one. */
  lemma EmptyRange(axes: seq<Bounds>, region: Cube, first: seq<int>, last: seq<int>)
    requires AxesOk(axes) && ClippedRange(axes, region, first, last) && forall d :: 0 <= d < |region| ==> region[d].start < region[d].end
    ensures IsEmptyRange(first, last) <==> exists d :: 0 <= d < |axes| && BeforeDomain(axes[d], region[d])
  {
    forall d | 0 <= d < |axes| ensures first[d] >= last[d] <==> BeforeDomain(axes[d], region[d]) {
      ClippedShape(axes[d], region[d], first[d], last[d]);
    }
  }

  ghost predicate HoldsOverlapped(axes: seq<Bounds>, region: Cube, first: seq<int>, last: seq<int>) {
    forall k: seq<int> :: Between(k, first, last) <==> InBox(k, Intervals(axes)) && Overlapping(CellBox(axes, k), region)
  }

  /** The index range holds exactly the cells that overlap the region, exactly if the region lies before the domain in some
      dimension, or behind it in none. */
  lemma RangeIsExact(axes: seq<Bounds>, region: Cube, first: seq<int>, last: seq<int>)
    requires AxesOk(axes) && ClippedRange(axes, region, first, last) && forall d :: 0 <= d < |region| ==> region[d].start < region[d].end
    ensures HoldsOverlapped(axes, region, first, last)
      <==> (exists d :: 0 <= d < |axes| && BeforeDomain(axes[d], region[d])) || (forall d :: 0 <= d < |axes| ==> !BehindDomain(axes[d], region[d]))
  {
    if d :| 0 <= d < |axes| && BeforeDomain(axes[d], region[d]) {
      NothingBefore(axes, region, first, last, d);
    } else if d :| 0 <= d < |axes| && BehindDomain(axes[d], region[d]) {
      CornerBehind(axes, region, first, last, d);
    } else {
      InsideIsExact(axes, region, first, last);
    }
  }

  lemma NothingBefore(axes: seq<Bounds>, region: Cube, first: seq<int>, last: seq<int>, d: nat)
    requires AxesOk(axes) && ClippedRange(axes, region, first, last) && (forall e :: 0 <= e < |region| ==> region[e].start < region[e].end)
    requires d < |axes| && BeforeDomain(axes[d], region[d])
    ensures HoldsOverlapped(axes, region, first, last)
  {
    ClippedShape(axes[d], region[d], first[d], last[d]);
    forall k: seq<int>
      ensures !Between(k, first, last) && !(InBox(k, Intervals(axes)) && Overlapping(CellBox(axes, k), region))
    {
      if InBox(k, Intervals(axes)) {
        OverlappingIffMeets(CellBox(axes, k), region);
        assert axes[d][0] <= axes[d][k[d]];
        assert MeetCube(CellBox(axes, k), region)[d].IsEmpty();
      }
    }
  }

  lemma CornerBehind(axes: seq<Bounds>, region: Cube, first: seq<int>, last: seq<int>, d: nat)
    requires AxesOk(axes) && ClippedRange(axes, region, first, last) && (forall e :: 0 <= e < |region| ==> region[e].start < region[e].end)
    requires d < |axes| && BehindDomain(axes[d], region[d]) && forall e :: 0 <= e < |axes| ==> !BeforeDomain(axes[e], region[e])
    ensures !HoldsOverlapped(axes, region, first, last)
  {
    forall e | 0 <= e < |axes| ensures first[e] < last[e] { ClippedShape(axes[e], region[e], first[e], last[e]); }
    ClippedShape(axes[d], region[d], first[d], last[d]);
    assert Between(first, first, last) && !InBox(first, Intervals(axes));
  }

  lemma InsideIsExact(axes: seq<Bounds>, region: Cube, first: seq<int>, last: seq<int>)
    requires AxesOk(axes) && ClippedRange(axes, region, first, last) && (forall e :: 0 <= e < |region| ==> region[e].start < region[e].end)
    requires forall e :: 0 <= e < |axes| ==> !BeforeDomain(axes[e], region[e]) && !BehindDomain(axes[e], region[e])
    ensures HoldsOverlapped(axes, region, first, last)
  {
    forall e | 0 <= e < |axes| ensures region[e].start < axes[e][|axes[e]| - 1] && axes[e][0] < region[e].end {
      assert !BeforeDomain(axes[e], region[e]) && !BehindDomain(axes[e], region[e]);
    }
    RangeIsIndexBox(axes, region, first, last);
    forall k: seq<int> | Between(k, first, last) ensures InBox(k, Intervals(axes)) {
      forall d | 0 <= d < |axes| ensures 0 <= k[d] < Intervals(axes)[d] { assert first[d] <= k[d] < last[d]; }
    }
  }

  /** The index range for a region right behind a grid of one cell starts at -1. */
  method BehindTheDomain() returns (first: seq<int>, last: seq<int>)
    ensures first == [-1] && last == [1]
  {
    var axes, region := [[0, 1]], [Range(1, 2)];
    assert StrictBounds(axes[0]);
    first, last := IndexRange(axes, region);
    ClippedShape(axes[0], region[0], first[0], last[0]);
  }

  lemma RangeIsIndexBox(axes: seq<Bounds>, region: Cube, first: seq<int>, last: seq<int>)
    requires Meets(axes, region) && ClippedRange(axes, region, first, last)
    ensures IndexBox(axes, region, first, last)
  {
    forall d | 0 <= d < |axes| ensures Touched(axes[d], region[d], first[d], last[d]) { ClippedShape(axes[d], region[d], first[d], last[d]); }
    forall d | 0 <= d < |axes| ensures 0 <= first[d] < last[d] <= |axes[d]| - 1 { RangeOrder(axes[d], region[d], first[d], last[d]); }
    forall k | InBox(k, Intervals(axes)) ensures Between(k, first, last) <==> Overlapping(CellBox(axes, k), region) {
      BetweenIffOverlapping(axes, region, first, last, k);
    }
  }

  lemma RangeOrder(b: Bounds, r: Range, first: int, last: int)
    requires StrictBounds(b) && r.start < r.end && r.start < b[|b| - 1] && b[0] < r.end
    requires Touched(b, r, first, last)
    ensures 0 <= first < last <= |b| - 1
  {}

  /** One dimension: the interval overlaps the range exactly if its index is in the index range. */
  lemma IntervalOverlaps(b: Bounds, r: Range, first: int, last: int, i: int)
    requires StrictBounds(b) && r.start < r.end && r.start < b[|b| - 1] && b[0] < r.end && 0 <= i < |b| - 1
    requires Touched(b, r, first, last)
    ensures first <= i < last <==> !Meet(Range(b[i], b[i + 1]), r).IsEmpty()
  {
    assert i < first ==> b[i + 1] <= b[first];
    assert first < i ==> b[first + 1] <= b[i];
    assert last <= i ==> b[last] <= b[i];
    assert i + 1 < last ==> b[i + 1] <= b[last - 1];
  }

  lemma BetweenIffOverlapping(axes: seq<Bounds>, region: Cube, first: seq<int>, last: seq<int>, k: seq<int>)
    requires Meets(axes, region) && |first| == |last| == |axes| && InBox(k, Intervals(axes))
    requires forall e :: 0 <= e < |axes| ==> Touched(axes[e], region[e], first[e], last[e])
    ensures Between(k, first, last) <==> Overlapping(CellBox(axes, k), region)
  {
    var c := CellBox(axes, k);
    OverlappingIffMeets(c, region);
    forall d | 0 <= d < |axes| ensures first[d] <= k[d] < last[d] <==> !MeetCube(c, region)[d].IsEmpty() {
      IntervalOverlaps(axes[d], region[d], first[d], last[d], k[d]);
    }
  }

  // ----- row-major order of a box of indices inside the whole

  predicate Lex(k: seq<int>, l: seq<int>)
    requires |k| == |l|
  {
    k != [] && (k[0] < l[0] || (k[0] == l[0] && Lex(k[1..], l[1..])))
  }

  /** Row-major numbers are ordered like the vectors. */
  lemma {:induction false} RankOrder(k: seq<int>, l: seq<int>, n: seq<int>)
    requires InBox(k, n) && InBox(l, n)
    ensures Rank(k, n) < Rank(l, n) <==> Lex(k, l)
  {
    if k != [] {
      var p := Prod(n[1..]);
      RankBounds(k[1..], n[1..]);
      RankBounds(l[1..], n[1..]);
      RankOrder(k[1..], l[1..], n[1..]);
      if k[0] < l[0] { MulMonotone(k[0] + 1, l[0], p); assert (k[0] + 1) * p == k[0] * p + p; }
      if l[0] < k[0] { MulMonotone(l[0] + 1, k[0], p); assert (l[0] + 1) * p == l[0] * p + p; }
    }
  }

  lemma {:induction false} LexShift(k: seq<int>, l: seq<int>, a: seq<int>, m: seq<int>, o: seq<int>)
    requires |k| == |l| == |a| == |m| == |o|
    requires forall d :: 0 <= d < |k| ==> m[d] == k[d] - a[d] && o[d] == l[d] - a[d]
    ensures Lex(k, l) <==> Lex(m, o)
  {
    if k != [] { LexShift(k[1..], l[1..], a[1..], m[1..], o[1..]); }
  }

  lemma {:induction false} RankUpdate(k: seq<int>, n: seq<int>, d: nat, x: int)
    requires |k| == |n| && d < |k|
    ensures Rank(k[d := x], n) == Rank(k, n) + (x - k[d]) * Prod(n[d + 1..])
  {
    if d == 0 {
      assert k[d := x][1..] == k[1..];
      assert (x - k[0]) * Prod(n[1..]) == x * Prod(n[1..]) - k[0] * Prod(n[1..]);
    } else {
      assert k[d := x][1..] == k[1..][d - 1 := x];
      RankUpdate(k[1..], n[1..], d - 1, x);
      assert n[1..][d..] == n[d + 1..];
    }
  }

  /** The number of an index vector inside the box of indices. */
  ghost function Inner(k: seq<int>, first: seq<int>, last: seq<int>): int
    requires |k| == |first| == |last|
  {
    Rank(Minus(k, first), Minus(last, first))
  }

  /** Moves to the next index vector of the box; linear stays the number of the vector inside the whole. */
  method NextIndex(n: seq<int>, current: seq<int>, first: seq<int>, last: seq<int>, linear: int) returns (next: seq<int>, linear': int, more: bool)
    requires |n| == |current| && Between(current, first, last) && linear == Rank(current, n)
    ensures |next| == |n| && linear' == Rank(next, n)
    ensures more ==> Between(next, first, last) && Inner(next, first, last) == Inner(current, first, last) + 1
    ensures !more ==> Inner(current, first, last) == Prod(Minus(last, first)) - 1
  {
    next, linear' := current, linear;
    var increment, dim := 1, |n|;
    assert n[dim..] == [];
    while dim > 0
      invariant 0 <= dim <= |n| == |next| && increment == Prod(n[dim..]) && linear' == Rank(next, n)
      invariant forall e :: dim <= e < |n| ==> current[e] == last[e] - 1 && next[e] == first[e]
      invariant forall e :: 0 <= e < dim ==> next[e] == current[e]
    {
      dim := dim - 1;
      RankUpdate(next, n, dim, next[dim] + 1);
      linear' := linear' + increment;
      next := next[dim := next[dim] + 1];
      if next[dim] != last[dim] {
        SuccessorInBox(current, next, first, last, dim);
        return next, linear', true;
      }
      RankUpdate(next, n, dim, first[dim]);
      assert (first[dim] - next[dim]) * increment == -((next[dim] - first[dim]) * increment);
      linear' := linear' - (next[dim] - first[dim]) * increment;
      next := next[dim := first[dim]];
      assert n[dim..][1..] == n[dim + 1..];
      increment := increment * n[dim];
    }
    RankLast(Minus(current, first), Minus(last, first));
    more := false;
  }

  lemma SuccessorInBox(current: seq<int>, next: seq<int>, first: seq<int>, last: seq<int>, d: nat)
    requires Between(current, first, last) && |next| == |current| && d < |next| && next[d] == current[d] + 1 && next[d] != last[d]
    requires forall e :: d < e < |next| ==> current[e] == last[e] - 1 && next[e] == first[e]
    requires forall e :: 0 <= e < d ==> next[e] == current[e]
    ensures Between(next, first, last) && Inner(next, first, last) == Inner(current, first, last) + 1
  {
    var k := Minus(current, first);
    assert Minus(next, first) == Carried(k, d);
    RankCarried(k, Minus(last, first), d);
  }

  /** Between the numbers of two successive vectors of the box there is no other vector of the box. */
  lemma NothingBetween(n: seq<int>, k: seq<int>, l: seq<int>, m: seq<int>, first: seq<int>, last: seq<int>)
    requires InBox(k, n) && InBox(l, n) && InBox(m, n) && Between(k, first, last) && Between(l, first, last) && Between(m, first, last)
    ensures Rank(k, n) < Rank(m, n) < Rank(l, n) ==> Inner(k, first, last) < Inner(m, first, last) < Inner(l, first, last)
  {
    SameOrder(n, k, m, first, last);
    SameOrder(n, m, l, first, last);
  }

  lemma SameOrder(n: seq<int>, k: seq<int>, l: seq<int>, first: seq<int>, last: seq<int>)
    requires InBox(k, n) && InBox(l, n) && Between(k, first, last) && Between(l, first, last)
    ensures Rank(k, n) < Rank(l, n) <==> Inner(k, first, last) < Inner(l, first, last)
  {
    RankOrder(k, l, n);
    LexShift(k, l, first, Minus(k, first), Minus(l, first));
    RankOrder(Minus(k, first), Minus(l, first), Minus(last, first));
  }

  // ----- the query

  ghost predicate Hits(s: Store, g: nat, i: nat, region: Cube)
    requires g < |s.grids|
  {
    AxesOk(s.grids[g].axes) && i < Prod(Intervals(s.grids[g].axes)) && Overlapping(Cells(s.grids[g].axes)[i], region)
  }

  /** The fragments of the leaves that overlap the region, depth first, from cell i of g on. */
  ghost function QueryFrom(s: Store, g: nat, region: Cube, i: nat): seq<int>
    requires g < |s.grids|
    decreases |s.grids| - g, Cellular(s, g) - i
  {
    if i >= Cellular(s, g) then [] else CellQuery(s, g, region, i) + QueryFrom(s, g, region, i + 1)
  }

  ghost function CellQuery(s: Store, g: nat, region: Cube, i: nat): seq<int>
    requires g < |s.grids| && i < Cellular(s, g)
    decreases |s.grids| - g, Cellular(s, g) - i, 0
  {
    if !Hits(s, g, i, region) then []
    else if SubgridAt(s, g, i) != NULL then QueryFrom(s, SubgridAt(s, g, i), region, 0)
    else [s.grids[g].cells.value[i].fragment]
  }

  lemma {:induction false} SkipMisses(s: Store, g: nat, region: Cube, i: nat, j: nat)
    requires g < |s.grids| && i <= j <= Cellular(s, g) && AllMiss(s, g, region, i, j)
    ensures QueryFrom(s, g, region, i) == QueryFrom(s, g, region, j)
    decreases j - i
  {
    if i < j {
      SkipMisses(s, g, region, i + 1, j);
      assert CellQuery(s, g, region, i) == [];
    }
  }

  lemma HitIffBetween(s: Store, g: nat, region: Cube, first: seq<int>, last: seq<int>, i: nat) returns (k: seq<int>)
    requires g < |s.grids| && AxesOk(s.grids[g].axes) && IndexBox(s.grids[g].axes, region, first, last) && i < Prod(Intervals(s.grids[g].axes))
    ensures InBox(k, Intervals(s.grids[g].axes)) && Rank(k, Intervals(s.grids[g].axes)) == i
    ensures Hits(s, g, i, region) <==> Between(k, first, last)
  {
    k := NumberedCell(s.grids[g].axes, i);
  }

  lemma BetweenInBox(axes: seq<Bounds>, region: Cube, first: seq<int>, last: seq<int>, k: seq<int>)
    requires IndexBox(axes, region, first, last) && Between(k, first, last)
    ensures InBox(k, Intervals(axes))
  {
    forall d | 0 <= d < |k| ensures 0 <= k[d] < Intervals(axes)[d] { assert first[d] <= k[d] < last[d]; }
  }

  lemma MissesBetween(s: Store, g: nat, region: Cube, first: seq<int>, last: seq<int>, k: seq<int>, l: seq<int>, i: nat)
    requires g < |s.grids| && AxesOk(s.grids[g].axes) && IndexBox(s.grids[g].axes, region, first, last)
    requires Between(k, first, last) && Between(l, first, last) && Inner(l, first, last) == Inner(k, first, last) + 1
    requires Rank(k, Intervals(s.grids[g].axes)) < i < Rank(l, Intervals(s.grids[g].axes)) && i < Prod(Intervals(s.grids[g].axes))
    ensures !Hits(s, g, i, region)
  {
    var axes := s.grids[g].axes;
    var m := HitIffBetween(s, g, region, first, last, i);
    BetweenInBox(axes, region, first, last, k);
    BetweenInBox(axes, region, first, last, l);
    if Between(m, first, last) { NothingBetween(Intervals(axes), k, l, m, first, last); }
  }

  lemma MissesBefore(s: Store, g: nat, region: Cube, first: seq<int>, last: seq<int>, i: nat)
    requires g < |s.grids| && AxesOk(s.grids[g].axes) && IndexBox(s.grids[g].axes, region, first, last)
    requires i < Rank(first, Intervals(s.grids[g].axes)) && i < Prod(Intervals(s.grids[g].axes))
    ensures !Hits(s, g, i, region)
  {
    var axes := s.grids[g].axes;
    var m := HitIffBetween(s, g, region, first, last, i);
    if Between(m, first, last) {
      BetweenInBox(axes, region, first, last, first);
      SameOrder(Intervals(axes), m, first, first, last);
      assert Minus(first, first) == Zeros(|first|);
      RankZeros(Minus(last, first));
      RankBounds(Minus(m, first), Minus(last, first));
    }
  }

  lemma MissesBehind(s: Store, g: nat, region: Cube, first: seq<int>, last: seq<int>, k: seq<int>, i: nat)
    requires g < |s.grids| && AxesOk(s.grids[g].axes) && IndexBox(s.grids[g].axes, region, first, last)
    requires Between(k, first, last) && Inner(k, first, last) == Prod(Minus(last, first)) - 1
    requires Rank(k, Intervals(s.grids[g].axes)) < i < Prod(Intervals(s.grids[g].axes))
    ensures !Hits(s, g, i, region)
  {
    var axes := s.grids[g].axes;
    var m := HitIffBetween(s, g, region, first, last, i);
    if Between(m, first, last) {
      BetweenInBox(axes, region, first, last, k);
      SameOrder(Intervals(axes), k, m, first, last);
      RankBounds(Minus(m, first), Minus(last, first));
    }
  }

  /** The region meets the subgrid of every cell that it overlaps. */
  lemma MeetsSubgrid(s: Store, g: nat, i: nat, region: Cube)
    requires s.Linked() && g < |s.grids| && i < Cellular(s, g) && Hits(s, g, i, region) && SubgridAt(s, g, i) != NULL
    requires Meets(s.grids[g].axes, region)
    ensures Meets(s.grids[SubgridAt(s, g, i)].axes, region)
  {
    SubgridIsLinked(s, g, i);
    var c := SubgridAt(s, g, i);
    assert s.ParentOk(c) && s.GridOk(c);
    var box := Cells(s.grids[g].axes)[i];
    var p :| Contains(box, p) && Contains(region, p);
    var k := NumberedCell(s.grids[g].axes, i);
    assert Domain(s.grids[c].axes) == box == CellBox(s.grids[g].axes, k);
    forall d | 0 <= d < |region| ensures region[d].start < Domain(s.grids[c].axes)[d].end && Domain(s.grids[c].axes)[d].start < region[d].end {
      assert box[d].Has(p[d]) && region[d].Has(p[d]);
    }
  }

  /** A cell of the query: its fragment, or what the query finds in its subgrid; None if the cell is empty. */
  method VisitCell(store: GridStore, g: nat, region: Cube, i: nat) returns (r: Option<seq<int>>)
    requires store.Value().Linked() && g < |store.grids| && i < Cellular(store.Value(), g) && Hits(store.Value(), g, i, region)
    requires FullyAllocated(store.Value(), g) && Meets(store.grids[g].axes, region)
    ensures r.None? <==> NULL in CellQuery(store.Value(), g, region, i)
    ensures r.Some? ==> r.value == CellQuery(store.Value(), g, region, i)
    decreases |store.grids| - g, 0
  {
    ghost var s := store.Value();
    var cell := store.grids[g].cells.value[i];
    SubgridIsLinked(s, g, i);
    assert s.GridOk(g) && s.CellOk(g, i);
    if cell.fragment != NULL {
      r := Some([cell.fragment]);
    } else if cell.subgrid != NULL {
      AllocatedBelow(s, g, cell.subgrid);
      MeetsSubgrid(s, g, i, region);
      r := FragmentsInRegion(store, cell.subgrid, region);
    } else {
      r := None;
    }
  }

  /** None of the cells from i to j overlaps the region. */
  ghost predicate AllMiss(s: Store, g: nat, region: Cube, i: int, j: int)
    requires g < |s.grids|
  {
    forall k: nat :: i <= k < j ==> !Hits(s, g, k, region)
  }

  lemma FirstIndex(s: Store, g: nat, region: Cube, first: seq<int>, last: seq<int>)
    requires g < |s.grids| && AxesOk(s.grids[g].axes) && IndexBox(s.grids[g].axes, region, first, last)
    ensures 0 <= Rank(first, Intervals(s.grids[g].axes)) < Prod(Intervals(s.grids[g].axes))
    ensures AllMiss(s, g, region, 0, Rank(first, Intervals(s.grids[g].axes)))
    ensures Between(first, first, last) && InBox(first, Intervals(s.grids[g].axes))
    ensures 0 <= Inner(first, first, last) < Prod(Minus(last, first))
  {
    BetweenInBox(s.grids[g].axes, region, first, last, first);
    var r := Rank(first, Intervals(s.grids[g].axes));
    RankBounds(first, Intervals(s.grids[g].axes));
    RankBounds(Minus(first, first), Minus(last, first));
    forall k: nat | 0 <= k < r ensures !Hits(s, g, k, region) { MissesBefore(s, g, region, first, last, k); }
  }

  lemma FollowingNumbers(axes: seq<Bounds>, region: Cube, first: seq<int>, last: seq<int>, k: seq<int>, l: seq<int>)
    requires AxesOk(axes) && IndexBox(axes, region, first, last)
    requires Between(k, first, last) && Between(l, first, last) && Inner(l, first, last) == Inner(k, first, last) + 1
    ensures 0 <= Rank(k, Intervals(axes)) < Rank(l, Intervals(axes)) < Prod(Intervals(axes)) && Inner(l, first, last) < Prod(Minus(last, first))
  {
    var n := Intervals(axes);
    BetweenInBox(axes, region, first, last, k);
    BetweenInBox(axes, region, first, last, l);
    RankBounds(k, n);
    RankBounds(l, n);
    SameOrder(n, k, l, first, last);
    RankBounds(Minus(l, first), Minus(last, first));
  }

  lemma FollowingIndex(s: Store, g: nat, region: Cube, first: seq<int>, last: seq<int>, k: seq<int>, l: seq<int>, r: int, t: int)
    requires g < |s.grids| && AxesOk(s.grids[g].axes) && IndexBox(s.grids[g].axes, region, first, last)
    requires Between(k, first, last) && Between(l, first, last) && Inner(l, first, last) == Inner(k, first, last) + 1
    requires r == Rank(k, Intervals(s.grids[g].axes)) && t == Rank(l, Intervals(s.grids[g].axes))
    ensures 0 <= r < t < Prod(Intervals(s.grids[g].axes)) && AllMiss(s, g, region, r + 1, t)
    ensures Inner(l, first, last) < Prod(Minus(last, first))
  {
    FollowingNumbers(s.grids[g].axes, region, first, last, k, l);
    forall i: nat | r + 1 <= i < t ensures !Hits(s, g, i, region) { MissesBetween(s, g, region, first, last, k, l, i); }
  }

  lemma LastIndex(s: Store, g: nat, region: Cube, first: seq<int>, last: seq<int>, k: seq<int>, r: int)
    requires g < |s.grids| && AxesOk(s.grids[g].axes) && IndexBox(s.grids[g].axes, region, first, last)
    requires Between(k, first, last) && Inner(k, first, last) == Prod(Minus(last, first)) - 1 && r == Rank(k, Intervals(s.grids[g].axes))
    ensures AllMiss(s, g, region, r + 1, Prod(Intervals(s.grids[g].axes)))
  {
    forall i: nat | r + 1 <= i < Prod(Intervals(s.grids[g].axes)) ensures !Hits(s, g, i, region) { MissesBehind(s, g, region, first, last, k, i); }
  }

  lemma ToNext(s: Store, g: nat, region: Cube, first: seq<int>, last: seq<int>, k: seq<int>, l: seq<int>, r: int, t: int)
    requires g < |s.grids| && AxesOk(s.grids[g].axes) && IndexBox(s.grids[g].axes, region, first, last) && Cellular(s, g) == Prod(Intervals(s.grids[g].axes))
    requires Between(k, first, last) && Between(l, first, last) && Inner(l, first, last) == Inner(k, first, last) + 1
    requires r == Rank(k, Intervals(s.grids[g].axes)) && t == Rank(l, Intervals(s.grids[g].axes))
    ensures 0 <= r < t < Cellular(s, g) && QueryFrom(s, g, region, r + 1) == QueryFrom(s, g, region, t)
    ensures Inner(l, first, last) < Prod(Minus(last, first))
  {
    FollowingIndex(s, g, region, first, last, k, l, r, t);
    assert QueryFrom(s, g, region, r + 1) == QueryFrom(s, g, region, t) by { SkipMisses(s, g, region, r + 1, t); }
  }

  lemma ToEnd(s: Store, g: nat, region: Cube, first: seq<int>, last: seq<int>, k: seq<int>, r: int)
    requires g < |s.grids| && AxesOk(s.grids[g].axes) && IndexBox(s.grids[g].axes, region, first, last) && Cellular(s, g) == Prod(Intervals(s.grids[g].axes))
    requires Between(k, first, last) && Inner(k, first, last) == Prod(Minus(last, first)) - 1 && r == Rank(k, Intervals(s.grids[g].axes)) && 0 <= r < Cellular(s, g)
    ensures QueryFrom(s, g, region, r + 1) == []
  {
    LastIndex(s, g, region, first, last, k, r);
    SkipMisses(s, g, region, r + 1, Cellular(s, g));
  }

  lemma Collect(s: Store, g: nat, region: Cube, found: seq<int>, i: nat)
    requires g < |s.grids| && i < Cellular(s, g) && found + QueryFrom(s, g, region, i) == QueryFrom(s, g, region, 0)
    ensures (found + CellQuery(s, g, region, i)) + QueryFrom(s, g, region, i + 1) == QueryFrom(s, g, region, 0)
  {
    var a, b := CellQuery(s, g, region, i), QueryFrom(s, g, region, i + 1);
    assert (found + a) + b == found + (a + b);
  }

  /** Visits the cells of the index box one by one. */
  method VisitCells(store: GridStore, g: nat, region: Cube, first: seq<int>, last: seq<int>) returns (r: Option<seq<int>>)
    requires store.Value().Linked() && g < |store.grids| && FullyAllocated(store.Value(), g) && Meets(store.grids[g].axes, region)
    requires IndexBox(store.grids[g].axes, region, first, last) && Cellular(store.Value(), g) == Prod(Intervals(store.grids[g].axes))
    ensures r.None? <==> NULL in QueryFrom(store.Value(), g, region, 0)
    ensures r.Some? ==> r.value == QueryFrom(store.Value(), g, region, 0)
    decreases |store.grids| - g, 1
  {
    ghost var s := store.Value();
    var axes := store.grids[g].axes;
    FirstIndex(s, g, region, first, last);
    var current, found, more := first, [], true;
    var linear := LinearIndex(axes, first);
    SkipMisses(s, g, region, 0, linear);
    ghost var all := QueryFrom(s, g, region, 0);
    assert found + QueryFrom(s, g, region, linear) == all;
    while more
      invariant more ==> Between(current, first, last) && linear == Rank(current, Intervals(axes)) && 0 <= linear < Cellular(s, g)
      invariant if more then found + QueryFrom(s, g, region, linear) == all else found == all
      invariant NULL !in found
      decreases if more then 1 + Prod(Minus(last, first)) - Inner(current, first, last) else 0
    {
      HitAt(s, g, region, first, last, current);
      var part := VisitCell(store, g, region, linear);
      Collect(s, g, region, found, linear);
      if part.None? {
        assert NULL in found + CellQuery(s, g, region, linear);
        return None;
      }
      ghost var before, number := current, linear;
      found := found + part.value;
      assert found + QueryFrom(s, g, region, number + 1) == all;
      current, linear, more := NextIndex(Intervals(axes), current, first, last, linear);
      if more {
        ToNext(s, g, region, first, last, before, current, number, linear);
      } else {
        ToEnd(s, g, region, first, last, before, number);
        assert found + [] == found;
      }
    }
    r := Some(found);
  }

  /** All fragments of the hierarchy that overlap the region, or None if one of the overlapped leaves is empty. */
  method FragmentsInRegion(store: GridStore, g: nat, region: Cube) returns (r: Option<seq<int>>)
    requires store.Value().Linked() && g < |store.grids| && FullyAllocated(store.Value(), g) && Meets(store.grids[g].axes, region)
    ensures r.None? <==> NULL in QueryFrom(store.Value(), g, region, 0)
    ensures r.Some? ==> r.value == QueryFrom(store.Value(), g, region, 0)
    decreases |store.grids| - g, 2
  {
    assert store.Value().GridOk(g) && Under(store.Value(), g, g);
    var first, last := IndexRange(store.grids[g].axes, region);
    r := VisitCells(store, g, region, first, last);
  }

  lemma HitAt(s: Store, g: nat, region: Cube, first: seq<int>, last: seq<int>, k: seq<int>)
    requires g < |s.grids| && AxesOk(s.grids[g].axes) && IndexBox(s.grids[g].axes, region, first, last) && Between(k, first, last)
    ensures Rank(k, Intervals(s.grids[g].axes)) >= 0 && Hits(s, g, Rank(k, Intervals(s.grids[g].axes)), region)
    ensures 0 <= Inner(k, first, last) < Prod(Minus(last, first))
  {
    BetweenInBox(s.grids[g].axes, region, first, last, k);
    CellWithNumber(s.grids[g].axes, k);
    RankBounds(Minus(k, first), Minus(last, first));
  }

  // ----- the query finds exactly the fragments of the overlapped leaves

  /** The leaves that overlap the region. */
  ghost function Overlapped(s: Store, leaves: seq<(nat, nat)>, region: Cube): seq<(nat, nat)>
    requires Listed(s, leaves)
  {
    if leaves == [] then []
    else IfOverlapped(s, leaves[0], region) + Overlapped(s, leaves[1..], region)
  }

  ghost function IfOverlapped(s: Store, leaf: (nat, nat), region: Cube): seq<(nat, nat)>
    requires AllocatedLeaf(s, leaf)
  {
    if Overlapping(BoxOf(s, leaf), region) then [leaf] else []
  }

  ghost predicate AllocatedLeaf(s: Store, leaf: (nat, nat)) {
    LeafPair(s, leaf) && s.grids[leaf.0].cells.Some?
  }

  ghost predicate Listed(s: Store, leaves: seq<(nat, nat)>) {
    forall j :: 0 <= j < |leaves| ==> AllocatedLeaf(s, leaves[j])
  }

  ghost function FragmentOf(s: Store, leaf: (nat, nat)): int
    requires AllocatedLeaf(s, leaf)
  {
    s.grids[leaf.0].cells.value[leaf.1].fragment
  }

  ghost function FragmentsOf(s: Store, leaves: seq<(nat, nat)>): (r: seq<int>)
    requires Listed(s, leaves)
    ensures |r| == |leaves| && forall j :: 0 <= j < |leaves| ==> r[j] == FragmentOf(s, leaves[j])
  {
    seq(|leaves|, j requires 0 <= j < |leaves| => FragmentOf(s, leaves[j]))
  }

  lemma {:induction false} OverlappedConcat(s: Store, a: seq<(nat, nat)>, b: seq<(nat, nat)>, region: Cube)
    requires Listed(s, a) && Listed(s, b)
    ensures Listed(s, a + b) && Overlapped(s, a + b, region) == Overlapped(s, a, region) + Overlapped(s, b, region)
  {
    ListedConcat(s, a, b);
    if a == [] {
      assert a + b == b;
    } else {
      assert (a + b)[1..] == a[1..] + b && (a + b)[0] == a[0];
      OverlappedConcat(s, a[1..], b, region);
      Associate(IfOverlapped(s, a[0], region), Overlapped(s, a[1..], region), Overlapped(s, b, region));
    }
  }

  lemma ListedConcat(s: Store, a: seq<(nat, nat)>, b: seq<(nat, nat)>)
    requires Listed(s, a) && Listed(s, b)
    ensures Listed(s, a + b)
  {}

  lemma {:induction false} OverlappedListed(s: Store, a: seq<(nat, nat)>, region: Cube)
    requires Listed(s, a)
    ensures Listed(s, Overlapped(s, a, region))
  {
    if a != [] { OverlappedListed(s, a[1..], region); }
  }

  lemma {:induction false} NoneOverlapped(s: Store, a: seq<(nat, nat)>, region: Cube)
    requires Listed(s, a) && forall j :: 0 <= j < |a| ==> !Overlapping(BoxOf(s, a[j]), region)
    ensures Overlapped(s, a, region) == []
  {
    if a != [] { NoneOverlapped(s, a[1..], region); }
  }

  lemma LeavesListed(s: Store, g: nat, i: nat)
    requires s.Linked() && g < |s.grids| && FullyAllocated(s, g)
    ensures Listed(s, LeavesFrom(s, g, i))
  {
    ListedAreLeaves(s, g, i);
    var leaves := LeavesFrom(s, g, i);
    forall j | 0 <= j < |leaves| ensures AllocatedLeaf(s, leaves[j]) { UnderAtLeast(s, g, leaves[j].0); }
  }

  /** No leaf of a subgrid overlaps a region that does not overlap the cell of the subgrid. */
  lemma SubgridMissed(s: Store, g: nat, i: nat, region: Cube)
    requires s.Linked() && g < |s.grids| && FullyAllocated(s, g) && i < Cellular(s, g) && SubgridAt(s, g, i) != NULL
    requires AxesOk(s.grids[g].axes) && i < Prod(Intervals(s.grids[g].axes)) && !Hits(s, g, i, region)
    ensures FullyAllocated(s, SubgridAt(s, g, i)) && Listed(s, LeavesFrom(s, SubgridAt(s, g, i), 0))
    ensures Overlapped(s, LeavesFrom(s, SubgridAt(s, g, i), 0), region) == []
  {
    SubgridIsLinked(s, g, i);
    var c := SubgridAt(s, g, i);
    AllocatedBelow(s, g, c);
    LeavesListed(s, c, 0);
    assert s.GridOk(c) && s.ParentOk(c);
    LeavesPartition(s, c);
    var leaves := LeavesFrom(s, c, 0);
    var boxes := Boxes(s, leaves);
    forall j | 0 <= j < |leaves| ensures !Overlapping(BoxOf(s, leaves[j]), region) {
      forall p ensures !(Contains(boxes[j], p) && Contains(region, p)) {
        if Contains(boxes[j], p) { assert Covers(boxes, p); }
      }
    }
    NoneOverlapped(s, leaves, region);
  }

  lemma {:induction false} QueryIsExact(s: Store, g: nat, region: Cube, i: nat)
    requires s.Linked() && g < |s.grids| && FullyAllocated(s, g)
    ensures Listed(s, LeavesFrom(s, g, i)) && Listed(s, Overlapped(s, LeavesFrom(s, g, i), region))
    ensures QueryFrom(s, g, region, i) == FragmentsOf(s, Overlapped(s, LeavesFrom(s, g, i), region))
    decreases |s.grids| - g, Cellular(s, g) - i
  {
    LeavesListed(s, g, i);
    OverlappedListed(s, LeavesFrom(s, g, i), region);
    if i < Cellular(s, g) {
      assert s.GridOk(g);
      LeavesListed(s, g, i + 1);
      QueryIsExact(s, g, region, i + 1);
      CellQueryIsExact(s, g, region, i);
      var a, b := CellLeaves(s, g, i), LeavesFrom(s, g, i + 1);
      OverlappedConcat(s, a, b, region);
      assert LeavesFrom(s, g, i) == a + b;
      FragmentsConcat(s, Overlapped(s, a, region), Overlapped(s, b, region));
    }
  }

  ghost function CellLeaves(s: Store, g: nat, i: nat): seq<(nat, nat)>
    requires g < |s.grids| && i < Cellular(s, g)
  {
    if SubgridAt(s, g, i) != NULL then LeavesFrom(s, SubgridAt(s, g, i), 0) else [(g, i)]
  }

  lemma FragmentsConcat(s: Store, a: seq<(nat, nat)>, b: seq<(nat, nat)>)
    requires Listed(s, a) && Listed(s, b)
    ensures Listed(s, a + b) && FragmentsOf(s, a + b) == FragmentsOf(s, a) + FragmentsOf(s, b)
  {}

  lemma {:induction false} CellQueryIsExact(s: Store, g: nat, region: Cube, i: nat)
    requires s.Linked() && g < |s.grids| && FullyAllocated(s, g) && i < Cellular(s, g)
    ensures Listed(s, CellLeaves(s, g, i)) && Listed(s, Overlapped(s, CellLeaves(s, g, i), region))
    ensures CellQuery(s, g, region, i) == FragmentsOf(s, Overlapped(s, CellLeaves(s, g, i), region))
    decreases |s.grids| - g, Cellular(s, g) - i, 0
  {
    assert s.GridOk(g) && s.CellOk(g, i);
    SubgridIsLinked(s, g, i);
    var c := SubgridAt(s, g, i);
    if c != NULL {
      AllocatedBelow(s, g, c);
      if Hits(s, g, i, region) { QueryIsExact(s, c, region, 0); } else { SubgridMissed(s, g, i, region); }
    } else {
      assert [(g, i)][1..] == [];
      assert BoxOf(s, (g, i)) == Cells(s.grids[g].axes)[i];
      assert Overlapped(s, [(g, i)], region) == if Hits(s, g, i, region) then [(g, i)] else [];
    }
  }
}
