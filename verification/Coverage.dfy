/** Which fragments answer a read request, and which part of the region has no data. */
module Coverage {
  import opened MixedRadix
  import opened Geometry
  import opened CubeSets
  import opened Axes
  import opened GridCells
  import opened Grids
  import opened GridOps
  import opened GridLeaves
  import opened GridAccess
  import opened GridWalk
  import opened GridQuery

  // ----- fragments from the dataset's table

  ghost predicate ValidIds(ids: seq<int>, table: seq<Cube>) {
    forall j :: 0 <= j < |ids| ==> 0 <= ids[j] < |table|
  }

  function ExtentsOf(ids: seq<int>, table: seq<Cube>): (cs: seq<Cube>)
    requires ValidIds(ids, table)
    ensures |cs| == |ids| && forall j :: 0 <= j < |ids| ==> cs[j] == table[ids[j]]
  {
    seq(|ids|, j requires 0 <= j < |ids| => table[ids[j]])
  }

  ghost predicate Distinct(table: seq<Cube>) {
    forall j, k :: 0 <= j < k < |table| ==> table[j] != table[k]
  }

  /** Registers a fragment; refused if the table has one with the same extents. */
  method AddFragment(store: GridStore, x: Cube) returns (ok: bool)
    requires store.Value().Inv()
    modifies store`fragments
    ensures store.Value().Inv() && (ok <==> x !in old(store.fragments))
    ensures store.fragments == if ok then old(store.fragments) + [x] else old(store.fragments)
    ensures Distinct(old(store.fragments)) ==> Distinct(store.fragments)
  {
    var f := LookupFragment(store, x);
    ok := f == NULL;
    if ok {
      MoreFragmentsInv(store.Value(), x);
      store.fragments := store.fragments + [x];
    }
  }

  /** Subtracts all fragments from the region; what remains is not covered. */
  method FragmentsCoverRegion(region: Cube, fragments: seq<Cube>) returns (fully: bool, uncovered: HypercubeSet)
    requires AllOfRank(fragments, |region|)
    ensures fresh(uncovered) && forall p :: Covers(uncovered.cubes, p) <==> Contains(region, p) && !Covers(fragments, p)
    ensures !IsEmptyCube(region) ==> AllNonEmpty(uncovered.cubes) && PairwiseDisjoint(uncovered.cubes)
    ensures !IsEmptyCube(region) ==> (fully <==> forall p :: Contains(region, p) ==> Covers(fragments, p))
  {
    uncovered := new HypercubeSet();
    uncovered.Add(region);
    assert forall p :: Covers(uncovered.cubes, p) <==> Contains(uncovered.cubes[0], p);
    if |fragments| == 0 {
      assert !IsEmptyCube(region) ==> Contains(region, Corner(region));
      return false, uncovered;
    }
    var i := 0;
    while i < |fragments|
      invariant 0 <= i <= |fragments| && fresh(uncovered) && AllOfRank(uncovered.cubes, |region|)
      invariant forall p :: Covers(uncovered.cubes, p) <==> Contains(region, p) && !Covers(fragments[..i], p)
      invariant !IsEmptyCube(region) ==> AllNonEmpty(uncovered.cubes)
      invariant PairwiseDisjoint(uncovered.cubes)
    {
      forall p ensures Covers(fragments[..i + 1], p) <==> Covers(fragments[..i], p) || Contains(fragments[i], p) { CoversNext(fragments, i, p); }
      uncovered.Subtract(fragments[i]);
      i := i + 1;
    }
    assert fragments[..i] == fragments;
    fully := uncovered.IsEmptySet();
    if !IsEmptyCube(region) && !fully {
      assert Contains(uncovered.cubes[0], Corner(uncovered.cubes[0]));
      assert Covers(uncovered.cubes, Corner(uncovered.cubes[0]));
    }
  }

  lemma CoversNext(cs: seq<Cube>, i: nat, p: Point)
    requires i < |cs|
    ensures Covers(cs[..i + 1], p) <==> Covers(cs[..i], p) || Contains(cs[i], p)
  {
    assert cs[..i + 1] == cs[..i] + [cs[i]];
    CoversConcat(cs[..i], [cs[i]], p);
    assert Covers([cs[i]], p) <==> Contains(cs[i], p) by {
      if Contains(cs[i], p) { assert [cs[i]][0] == cs[i]; }
    }
  }

  function Ids(n: nat): (r: set<int>)
    ensures forall i :: i in r <==> 0 <= i < n
  {
    if n == 0 then {} else Ids(n - 1) + {n - 1}
  }

  /** The fragments of the table that matter for a region: the one with exactly these extents if there is one,
      else all that overlap, in whatever order the hash table has them. */
  method MakeSetCoveringRegion(store: GridStore, region: Cube) returns (ids: seq<int>)
    requires AllOfRank(store.fragments, |region|)
    ensures ValidIds(ids, store.fragments) && forall j, k :: 0 <= j < k < |ids| ==> ids[j] != ids[k]
    ensures region in store.fragments ==> |ids| == 1 && store.fragments[ids[0]] == region
    ensures region !in store.fragments ==> forall f :: 0 <= f < |store.fragments| ==> (f in ids <==> Overlapping(store.fragments[f], region))
  {
    var single := LookupFragment(store, region);
    if single != NULL { return [single]; }
    var todo := Ids(|store.fragments|);
    ids := [];
    while todo != {}
      invariant todo <= Ids(|store.fragments|) && ValidIds(ids, store.fragments)
      invariant forall f :: f in todo ==> f !in ids
      invariant forall f :: 0 <= f < |store.fragments| && f !in todo ==> (f in ids <==> Overlapping(store.fragments[f], region))
      invariant forall j, k :: 0 <= j < k < |ids| ==> ids[j] != ids[k]
    {
      var f :| f in todo;
      todo := todo - {f};
      var overlap := Overlap(store.fragments[f], region);
      if overlap != 0 { ids := ids + [f]; }
    }
  }

  /** Inside the region, the selected fragments hold the same points as the whole table. */
  lemma SelectionIsEnough(table: seq<Cube>, ids: seq<int>, region: Cube, p: Point)
    requires ValidIds(ids, table) && Contains(region, p)
    requires region in table ==> |ids| == 1 && table[ids[0]] == region
    requires region !in table ==> forall f :: 0 <= f < |table| ==> (f in ids <==> Overlapping(table[f], region))
    ensures Covers(ExtentsOf(ids, table), p) <==> Covers(table, p)
  {
    var cs := ExtentsOf(ids, table);
    if Covers(cs, p) {
      var j :| 0 <= j < |cs| && Contains(cs[j], p);
      assert Contains(table[ids[j]], p);
    }
    if Covers(table, p) {
      if region in table {
        assert Contains(cs[0], p);
      } else {
        var f :| 0 <= f < |table| && Contains(table[f], p);
        assert Overlapping(table[f], region);
        var j :| 0 <= j < |ids| && ids[j] == f;
        assert Contains(cs[j], p);
      }
    }
  }

  // ----- fragments from a complete grid

  lemma {:induction false} OverlappedMember(s: Store, leaves: seq<(nat, nat)>, region: Cube, j: nat) returns (m: nat)
    requires Listed(s, leaves) && j < |leaves| && Overlapping(BoxOf(s, leaves[j]), region)
    ensures m < |Overlapped(s, leaves, region)| && Overlapped(s, leaves, region)[m] == leaves[j]
  {
    if j == 0 {
      m := 0;
    } else {
      var k := OverlappedMember(s, leaves[1..], region, j - 1);
      m := k + if Overlapping(BoxOf(s, leaves[0]), region) then 1 else 0;
    }
  }

  /** a can be had from b by leaving out elements. */
  ghost predicate Subsequence<T>(a: seq<T>, b: seq<T>) {
    a == [] || (b != [] && ((a[0] == b[0] && Subsequence(a[1..], b[1..])) || Subsequence(a, b[1..])))
  }

  lemma {:induction false} OverlappedOrder(s: Store, leaves: seq<(nat, nat)>, region: Cube)
    requires Listed(s, leaves)
    ensures Subsequence(Overlapped(s, leaves, region), leaves)
  {
    if leaves != [] {
      OverlappedOrder(s, leaves[1..], region);
      var hit, rest := Overlapped(s, leaves, region), Overlapped(s, leaves[1..], region);
      if Overlapping(BoxOf(s, leaves[0]), region) { assert hit[1..] == rest; } else { assert hit == rest; }
    }
  }

  lemma {:induction false} PlaceOf<T>(a: seq<T>, b: seq<T>, n: nat) returns (k: nat)
    requires Subsequence(a, b) && n < |a|
    ensures k < |b| && b[k] == a[n]
    decreases |b|
  {
    if a[0] == b[0] && Subsequence(a[1..], b[1..]) {
      if n == 0 { return 0; }
      k := PlaceOf(a[1..], b[1..], n - 1);
    } else {
      k := PlaceOf(a, b[1..], n);
    }
    k := k + 1;
  }

  lemma {:induction false} OverlappedOverlap(s: Store, leaves: seq<(nat, nat)>, region: Cube)
    requires Listed(s, leaves)
    ensures forall leaf :: leaf in Overlapped(s, leaves, region) ==> AllocatedLeaf(s, leaf) && Overlapping(BoxOf(s, leaf), region)
  {
    if leaves != [] { OverlappedOverlap(s, leaves[1..], region); }
  }

  lemma OverlappedFrom(s: Store, leaves: seq<(nat, nat)>, region: Cube, m: nat) returns (j: nat)
    requires Listed(s, leaves) && m < |Overlapped(s, leaves, region)|
    ensures j < |leaves| && leaves[j] == Overlapped(s, leaves, region)[m] && Overlapping(BoxOf(s, leaves[j]), region)
  {
    OverlappedOrder(s, leaves, region);
    j := PlaceOf(Overlapped(s, leaves, region), leaves, m);
    OverlappedOverlap(s, leaves, region);
  }

  /** A subsequence keeps the order. */
  lemma {:induction false} PlacesOf<T>(a: seq<T>, b: seq<T>, m: nat, n: nat) returns (j: nat, k: nat)
    requires Subsequence(a, b) && m < n < |a|
    ensures j < k < |b| && b[j] == a[m] && b[k] == a[n]
    decreases |b|
  {
    if a[0] == b[0] && Subsequence(a[1..], b[1..]) {
      if m == 0 {
        k := PlaceOf(a[1..], b[1..], n - 1);
        return 0, k + 1;
      }
      j, k := PlacesOf(a[1..], b[1..], m - 1, n - 1);
    } else {
      j, k := PlacesOf(a, b[1..], m, n);
    }
    j, k := j + 1, k + 1;
  }

  /** The fragment of a leaf of a complete grid has the extents of the leaf. */
  lemma LeafHasFragment(s: Store, g: nat, leaf: (nat, nat))
    requires s.Inv() && g <= leaf.0 < |s.grids| && s.grids[g].IsComplete() && Under(s, g, leaf.0) && AllocatedLeaf(s, leaf)
    ensures 0 <= FragmentOf(s, leaf) < |s.fragments| && s.fragments[FragmentOf(s, leaf)] == BoxOf(s, leaf)
  {
    CompleteMeansFilled(s, g, leaf.0);
    assert s.GridOk(leaf.0) && s.CellOk(leaf.0, leaf.1);
  }

  /** The query on a complete grid returns existing fragments only. */
  lemma QueryIds(s: Store, g: nat, region: Cube)
    requires s.Inv() && g < |s.grids| && s.grids[g].IsComplete()
    ensures ValidIds(QueryFrom(s, g, region, 0), s.fragments)
  {
    CompleteIsAllocated(s, g);
    QueryIsExact(s, g, region, 0);
    ListedAreLeaves(s, g, 0);
    var leaves := LeavesFrom(s, g, 0);
    var hit, ids := Overlapped(s, leaves, region), QueryFrom(s, g, region, 0);
    forall m | 0 <= m < |ids| ensures 0 <= ids[m] < |s.fragments| {
      var j := OverlappedFrom(s, leaves, region, m);
      UnderAtLeast(s, g, hit[m].0);
      LeafHasFragment(s, g, hit[m]);
    }
  }

  /** Leaf (h, i) of grid g overlaps the region and holds fragment f. */
  ghost predicate HeldAt(s: Store, g: nat, region: Cube, f: int, h: nat, i: nat) {
    g <= h < |s.grids| && Under(s, g, h) && AllocatedLeaf(s, (h, i)) && Overlapping(BoxOf(s, (h, i)), region) && FragmentOf(s, (h, i)) == f
  }

  ghost predicate HeldIn(s: Store, g: nat, region: Cube, f: int) {
    exists h: nat, i: nat :: HeldAt(s, g, region, f, h, i)
  }

  lemma FoundIsHeld(s: Store, g: nat, region: Cube, m: nat)
    requires s.Inv() && g < |s.grids| && s.grids[g].IsComplete() && m < |QueryFrom(s, g, region, 0)|
    ensures HeldIn(s, g, region, QueryFrom(s, g, region, 0)[m])
  {
    CompleteIsAllocated(s, g);
    QueryIsExact(s, g, region, 0);
    ListedAreLeaves(s, g, 0);
    var leaves := LeavesFrom(s, g, 0);
    var j := OverlappedFrom(s, leaves, region, m);
    UnderAtLeast(s, g, leaves[j].0);
    assert HeldAt(s, g, region, QueryFrom(s, g, region, 0)[m], leaves[j].0, leaves[j].1);
  }

  lemma HeldIsFound(s: Store, g: nat, region: Cube, f: int, h: nat, i: nat)
    requires s.Inv() && g < |s.grids| && s.grids[g].IsComplete() && HeldAt(s, g, region, f, h, i)
    ensures f in QueryFrom(s, g, region, 0)
  {
    CompleteIsAllocated(s, g);
    QueryIsExact(s, g, region, 0);
    WalkIsExact(s, g);
    var leaves := LeavesFrom(s, g, 0);
    assert (h, i) in leaves;
    var j :| 0 <= j < |leaves| && leaves[j] == (h, i);
    var m := OverlappedMember(s, leaves, region, j);
    assert QueryFrom(s, g, region, 0)[m] == f;
  }

  /** The query on a complete grid returns exactly the fragments of the leaves that overlap the region ... */
  lemma FoundIffHeld(s: Store, g: nat, region: Cube, f: int)
    requires s.Inv() && g < |s.grids| && s.grids[g].IsComplete()
    ensures f in QueryFrom(s, g, region, 0) <==> HeldIn(s, g, region, f)
  {
    var ids := QueryFrom(s, g, region, 0);
    if f in ids {
      var m :| 0 <= m < |ids| && ids[m] == f;
      FoundIsHeld(s, g, region, m);
    }
    if HeldIn(s, g, region, f) {
      var h: nat, i: nat :| HeldAt(s, g, region, f, h, i);
      HeldIsFound(s, g, region, f, h, i);
    }
  }

  /** ... and each of them once. */
  lemma FoundOnce(s: Store, g: nat, region: Cube, m: nat, n: nat)
    requires s.Inv() && g < |s.grids| && s.grids[g].IsComplete() && m < n < |QueryFrom(s, g, region, 0)|
    ensures QueryFrom(s, g, region, 0)[m] != QueryFrom(s, g, region, 0)[n]
  {
    CompleteIsAllocated(s, g);
    QueryIsExact(s, g, region, 0);
    assert s.GridOk(g);
    LeavesPartition(s, g);
    var leaves := LeavesFrom(s, g, 0);
    OverlappedOrder(s, leaves, region);
    var j, k := PlacesOf(Overlapped(s, leaves, region), leaves, m, n);
    UnderAtLeast(s, g, leaves[j].0);
    UnderAtLeast(s, g, leaves[k].0);
    LeafHasFragment(s, g, leaves[j]);
    LeafHasFragment(s, g, leaves[k]);
    DisjointDiffer(Boxes(s, leaves), j, k);
  }

  lemma DisjointDiffer(cs: seq<Cube>, j: nat, k: nat)
    requires j < k < |cs| && AllNonEmpty(cs) && PairwiseDisjoint(cs)
    ensures cs[j] != cs[k]
  {
    assert Contains(cs[j], Corner(cs[j]));
    assert !Overlapping(cs[j], cs[k]);
  }

  /** The fragments that the query on a complete grid returns hold all points of the region inside the domain. */
  lemma QueryCovers(s: Store, g: nat, region: Cube, p: Point)
    requires s.Inv() && g < |s.grids| && s.grids[g].IsComplete() && AxesOk(s.grids[g].axes)
    requires Contains(region, p) && Contains(Domain(s.grids[g].axes), p) && ValidIds(QueryFrom(s, g, region, 0), s.fragments)
    ensures Covers(ExtentsOf(QueryFrom(s, g, region, 0), s.fragments), p)
  {
    CompleteIsAllocated(s, g);
    QueryIsExact(s, g, region, 0);
    LeavesPartition(s, g);
    var leaves := LeavesFrom(s, g, 0);
    var boxes := Boxes(s, leaves);
    var j :| 0 <= j < |boxes| && Contains(boxes[j], p);
    var m := OverlappedMember(s, leaves, region, j);
    UnderAtLeast(s, g, leaves[j].0);
    LeafHasFragment(s, g, leaves[j]);
    assert Contains(ExtentsOf(QueryFrom(s, g, region, 0), s.fragments)[m], p);
  }

  // ----- choosing the grid

  /** How many points of the region lie in the domain of the grid. */
  method CoverRegionSize(axes: seq<Bounds>, region: Cube) returns (n: int)
    requires AxesOk(axes) && |region| == |axes|
    ensures n == CubeSize(MeetCube(Domain(axes), region))
  {
    n := 1;
    ghost var m := MeetCube(Domain(axes), region);
    for d := 0 to |axes|
      invariant n == CubeSize(m[..d])
    {
      CubeSizeSplit(m, d);
      var start := if region[d].start > axes[d][0] then region[d].start else axes[d][0];
      var end := if region[d].end < axes[d][|axes[d]| - 1] then region[d].end else axes[d][|axes[d]| - 1];
      n := n * if end - start > 0 then end - start else 0;
    }
    assert m[..|axes|] == m;
  }

  /** The sizes agree exactly if the region lies in the domain. */
  lemma SameSizeMeansInside(domain: Cube, region: Cube)
    requires |domain| == |region|
    ensures CubeSize(MeetCube(domain, region)) == CubeSize(region) <==> forall p :: Contains(region, p) ==> Contains(domain, p)
  {
    var m := MeetCube(domain, region);
    PointCount(m);
    PointCount(region);
    PointsOfMeet(domain, region);
    if CubeSize(m) == CubeSize(region) {
      SameSizeSubset(Points(m), Points(region));
      forall p | Contains(region, p) ensures Contains(domain, p) {
        PointsAreMembers(region, p);
        PointsAreMembers(domain, p);
      }
    }
    if forall p :: Contains(region, p) ==> Contains(domain, p) {
      forall p ensures p in Points(m) <==> p in Points(region) {
        PointsAreMembers(m, p);
        PointsAreMembers(region, p);
      }
      assert Points(m) == Points(region);
    }
  }

  lemma SameSizeSubset<T>(a: set<T>, b: set<T>)
    requires a <= b && |a| == |b|
    ensures a == b
  {
    assert b == a + (b - a);
  }

  ghost predicate Within(axes: seq<Bounds>, region: Cube) {
    AxesOk(axes) && |region| == |axes| && forall d :: 0 <= d < |axes| ==> axes[d][0] <= region[d].start < region[d].end <= axes[d][|axes[d]| - 1]
  }

  ghost function FetchedRange(b: Bounds, r: Range): Range
    requires StrictBounds(b) && b[0] <= r.start < r.end <= b[|b| - 1]
  {
    Range(b[IntervalOf(b, r.start, |b| - 2)], b[IntervalOf(b, r.end - 1, |b| - 2) + 1])
  }

  /** The box of all cells that the region touches: what a read through the grid has to fetch. */
  ghost function Fetched(axes: seq<Bounds>, region: Cube): (c: Cube)
    requires Within(axes, region)
    ensures |c| == |axes| && forall d :: 0 <= d < |axes| ==> c[d] == FetchedRange(axes[d], region[d])
  {
    seq(|axes|, d requires 0 <= d < |axes| => FetchedRange(axes[d], region[d]))
  }

  /** A cell is part of what is fetched exactly if it overlaps the region. */
  lemma FetchedIsTouched(axes: seq<Bounds>, region: Cube, p: Point)
    requires Within(axes, region) && Contains(Domain(axes), p)
    ensures Contains(Fetched(axes, region), p) <==> Overlapping(CellBox(axes, CellAt(axes, p)), region)
  {
    var k := CellAt(axes, p);
    var c := CellBox(axes, k);
    OverlappingIffMeets(c, region);
    forall d | 0 <= d < |axes| ensures Fetched(axes, region)[d].Has(p[d]) <==> !MeetCube(c, region)[d].IsEmpty() {
      TouchedRange(axes[d], region[d], k[d], p[d]);
    }
  }

  lemma TouchedRange(b: Bounds, r: Range, i: int, x: int)
    requires StrictBounds(b) && b[0] <= r.start < r.end <= b[|b| - 1] && InInterval(b, i, x)
    ensures FetchedRange(b, r).Has(x) <==> !Meet(Range(b[i], b[i + 1]), r).IsEmpty()
  {
    var first, last := IntervalOf(b, r.start, |b| - 2), IntervalOf(b, r.end - 1, |b| - 2);
    assert i < first ==> b[i + 1] <= b[first];
    assert first <= i ==> b[first] <= b[i];
    assert last < i ==> b[last + 1] <= b[i];
    assert i <= last ==> b[i + 1] <= b[last + 1];
  }

  predicate MeetsAxis(b: Bounds, r: Range) {
    StrictBounds(b) && r.start < r.end && r.start < b[|b| - 1] && b[0] < r.end
  }

  method TouchedWidth(b: Bounds, r: Range) returns (covered: int, fetched: int)
    requires MeetsAxis(b, r)
    ensures var m := Meet(Range(b[0], b[|b| - 1]), r);
      b[0] <= m.start < m.end <= b[|b| - 1] && covered == m.Size() && fetched == FetchedRange(b, m).Size()
  {
    var start := if r.start > b[0] then r.start else b[0];
    var end := if r.end < b[|b| - 1] then r.end else b[|b| - 1];
    covered := if end - start > 0 then end - start else 0;
    var i := FindInterval(b, start);
    var j := FindInterval(b, end - 1);
    IntervalUnique(b, i, IntervalOf(b, start, |b| - 2), start);
    IntervalUnique(b, j, IntervalOf(b, end - 1, |b| - 2), end - 1);
    fetched := b[j + 1] - b[i];
    assert b[i] <= start < b[j + 1];
  }

  /** The part of the region in the domain. */
  function Clipping(axes: seq<Bounds>, region: Cube): Cube
    requires Meets(axes, region)
  {
    MeetCube(Domain(axes), region)
  }

  lemma ClippingIsWithin(axes: seq<Bounds>, region: Cube)
    requires Meets(axes, region)
    ensures Within(axes, Clipping(axes, region))
    ensures Within(axes, region) ==> Clipping(axes, region) == region
  {}

  lemma WidthStep(c: Cube, d: nat, size: int, width: int)
    requires d < |c| && size == CubeSize(c[..d]) && width == c[d].Size()
    ensures size * width == CubeSize(c[..d + 1])
  {
    CubeSizeSplit(c, d);
  }

  /** The cell of p overlaps the region. */
  ghost predicate InTouchedCell(axes: seq<Bounds>, region: Cube, p: Point) {
    exists k :: InBox(k, Intervals(axes)) && Contains(CellBox(axes, k), p) && Overlapping(CellBox(axes, k), region)
  }

  /** The points of the domain that a read of the region through the grid fetches in vain. */
  ghost function InVain(axes: seq<Bounds>, region: Cube): set<Point>
    requires AxesOk(axes)
  {
    set p | p in Points(Domain(axes)) && InTouchedCell(axes, region, p) && !Contains(region, p)
  }

  lemma TouchedIffFetched(axes: seq<Bounds>, region: Cube, p: Point)
    requires Meets(axes, region) && Within(axes, Clipping(axes, region)) && Contains(Domain(axes), p)
    ensures InTouchedCell(axes, region, p) <==> Contains(Fetched(axes, Clipping(axes, region)), p)
  {
    var k := CellAt(axes, p);
    CellContains(axes, k, p);
    FetchedIsTouched(axes, Clipping(axes, region), p);
    SameOverlap(axes, k, region);
    forall l | InBox(l, Intervals(axes)) && Contains(CellBox(axes, l), p) ensures l == k { CellContains(axes, l, p); }
  }

  lemma SameOverlap(axes: seq<Bounds>, k: seq<int>, region: Cube)
    requires Meets(axes, region) && InBox(k, Intervals(axes))
    ensures Overlapping(CellBox(axes, k), region) <==> Overlapping(CellBox(axes, k), Clipping(axes, region))
  {
    var c, m := CellBox(axes, k), Clipping(axes, region);
    forall p | Contains(c, p) ensures Contains(region, p) <==> Contains(m, p) {
      CellContains(axes, k, p);
      MeetContains(Domain(axes), region, p);
    }
  }

  lemma MeetContains(a: Cube, b: Cube, p: Point)
    requires |a| == |b|
    ensures Contains(MeetCube(a, b), p) <==> Contains(a, p) && Contains(b, p)
  {
    forall d | 0 <= d < |a| && |p| == |a| ensures MeetCube(a, b)[d].Has(p[d]) <==> a[d].Has(p[d]) && b[d].Has(p[d]) {}
  }

  lemma FetchedInDomain(axes: seq<Bounds>, region: Cube, p: Point)
    requires Within(axes, region) && Contains(Fetched(axes, region), p)
    ensures Contains(Domain(axes), p)
  {
    forall d | 0 <= d < |axes| ensures Domain(axes)[d].Has(p[d]) { assert Fetched(axes, region)[d].Has(p[d]); }
  }

  lemma RegionIsFetched(axes: seq<Bounds>, region: Cube, p: Point)
    requires Within(axes, region) && Contains(region, p)
    ensures Contains(Fetched(axes, region), p)
  {
    forall d | 0 <= d < |axes| ensures Fetched(axes, region)[d].Has(p[d]) { assert region[d].Has(p[d]); }
  }

  /** What is fetched in vain is what is fetched without the region. */
  lemma InVainCount(axes: seq<Bounds>, region: Cube)
    requires Meets(axes, region) && Within(axes, Clipping(axes, region))
    ensures |InVain(axes, region)| == CubeSize(Fetched(axes, Clipping(axes, region))) - CubeSize(Clipping(axes, region))
  {
    var m := Clipping(axes, region);
    var a, b := Points(Fetched(axes, m)), Points(m);
    forall p ensures p in InVain(axes, region) <==> p in a && p !in b { InVainPoint(axes, region, p); }
    assert InVain(axes, region) == a - b;
    forall p | p in b ensures p in a {
      PointsAreMembers(m, p);
      PointsAreMembers(Fetched(axes, m), p);
      RegionIsFetched(axes, m, p);
    }
    assert a == (a - b) + b;
    PointCount(Fetched(axes, m));
    PointCount(m);
  }

  lemma InVainPoint(axes: seq<Bounds>, region: Cube, p: Point)
    requires Meets(axes, region) && Within(axes, Clipping(axes, region))
    ensures var m := Clipping(axes, region); p in InVain(axes, region) <==> p in Points(Fetched(axes, m)) && p !in Points(m)
  {
    var m := Clipping(axes, region);
    PointsAreMembers(Domain(axes), p);
    PointsAreMembers(m, p);
    PointsAreMembers(Fetched(axes, m), p);
    MeetContains(Domain(axes), region, p);
    if Contains(Fetched(axes, m), p) { FetchedInDomain(axes, m, p); }
    if Contains(Domain(axes), p) { TouchedIffFetched(axes, region, p); }
  }

  /** m is the part of the range on the axis, and f the intervals that it touches. */
  ghost predicate TouchedDim(b: Bounds, r: Range, m: Range, f: Range) {
    MeetsAxis(b, r) && m == Meet(Range(b[0], b[|b| - 1]), r) && b[0] <= m.start < m.end <= b[|b| - 1] && f == FetchedRange(b, m)
  }

  lemma TouchedAt(axes: seq<Bounds>, region: Cube, d: nat)
    requires Meets(axes, region) && Within(axes, Clipping(axes, region)) && d < |axes|
    ensures TouchedDim(axes[d], region[d], Clipping(axes, region)[d], Fetched(axes, Clipping(axes, region))[d])
  {}

  method TouchedSize(b: Bounds, r: Range, ghost m: Range, ghost f: Range) returns (covered: int, fetched: int)
    requires TouchedDim(b, r, m, f)
    ensures covered == m.Size() && fetched == f.Size()
  {
    covered, fetched := TouchedWidth(b, r);
  }

  method TouchedProducts(axes: seq<Bounds>, region: Cube, ghost m: Cube, ghost f: Cube) returns (covered: int, fetched: int)
    requires |m| == |f| == |region| == |axes| && forall d :: 0 <= d < |axes| ==> TouchedDim(axes[d], region[d], m[d], f[d])
    ensures covered == CubeSize(m) && fetched == CubeSize(f)
  {
    covered, fetched := 1, 1;
    for d := 0 to |axes|
      invariant covered == CubeSize(m[..d]) && fetched == CubeSize(f[..d])
    {
      var c, w := TouchedSize(axes[d], region[d], m[d], f[d]);
      WidthStep(m, d, covered, c);
      WidthStep(f, d, fetched, w);
      covered, fetched := covered * c, fetched * w;
    }
    assert m[..|axes|] == m && f[..|axes|] == f;
  }

  /** The sizes of the part of the region in the domain, and of all cells that it touches. */
  method TouchedSizes(axes: seq<Bounds>, region: Cube) returns (covered: int, fetched: int)
    requires Meets(axes, region) && Within(axes, Clipping(axes, region))
    ensures covered == CubeSize(Clipping(axes, region)) && fetched == CubeSize(Fetched(axes, Clipping(axes, region)))
  {
    ghost var m := Clipping(axes, region);
    ghost var f := Fetched(axes, m);
    forall d | 0 <= d < |axes| ensures TouchedDim(axes[d], region[d], m[d], f[d]) { TouchedAt(axes, region, d); }
    covered, fetched := TouchedProducts(axes, region, m, f);
  }

  /** How many points a read of the region through the grid would fetch in vain. */
  method CoverRegionOverhead(axes: seq<Bounds>, region: Cube) returns (overhead: int)
    requires Meets(axes, region)
    ensures overhead == |InVain(axes, region)|
  {
    ClippingIsWithin(axes, region);
    var covered, fetched := TouchedSizes(axes, region);
    InVainCount(axes, region);
    overhead := fetched - covered;
  }

  ghost predicate Covering(s: Store, g: int, region: Cube) {
    && 0 <= g < |s.grids| && AxesOk(s.grids[g].axes) && |s.grids[g].axes| == |region| && s.grids[g].IsComplete() && s.grids[g].parent == NULL
    && forall p :: Contains(region, p) ==> Contains(Domain(s.grids[g].axes), p)
  }

  ghost function Waste(s: Store, g: int, region: Cube): nat
    requires 0 <= g < |s.grids| && AxesOk(s.grids[g].axes)
  {
    |InVain(s.grids[g].axes, region)|
  }

  ghost predicate NoBetter(s: Store, best: int, g: int, region: Cube)
    requires 0 <= best < |s.grids| && AxesOk(s.grids[best].axes)
  {
    Covering(s, g, region) ==> Waste(s, best, region) <= Waste(s, g, region)
  }

  /** The chosen grid is the last one in the list that fetches as little. */
  ghost predicate LastOfBest(s: Store, region: Cube, best: int, i: nat)
    requires 0 <= best < |s.grids| && AxesOk(s.grids[best].axes) && i <= |s.order|
  {
    forall j, l :: 0 <= j < l < i && s.order[j] == best && Covering(s, s.order[l], region) ==>
      Waste(s, best, region) < Waste(s, s.order[l], region)
  }

  /** What reading through grid g wastes; negative if the grid does not hold the region. */
  ghost function Cost(s: Store, g: int, region: Cube): int {
    if Covering(s, g, region) then Waste(s, g, region) else -1
  }

  /** at is the last place with the smallest cost that is not negative, or -1 if there is none. */
  ghost predicate BestAt(costs: seq<int>, at: int) {
    && -1 <= at < |costs|
    && (at == -1 ==> forall j :: 0 <= j < |costs| ==> costs[j] < 0)
    && (at >= 0 ==> costs[at] >= 0 && forall j :: 0 <= j < |costs| && costs[j] >= 0 ==> costs[at] <= costs[j])
    && (at >= 0 ==> forall j :: at < j < |costs| && costs[j] >= 0 ==> costs[at] < costs[j])
  }

  lemma BestStep(costs: seq<int>, at: int, c: int)
    requires BestAt(costs, at)
    ensures BestAt(costs + [c], if c >= 0 && (at < 0 || c <= costs[at]) then |costs| else at)
  {
    assert forall j :: 0 <= j < |costs| ==> (costs + [c])[j] == costs[j];
  }

  /** Whether a grid holds the region, and what it wastes then. */
  method Evaluate(store: GridStore, g: nat, region: Cube, regionSize: int) returns (covers: bool, overhead: int)
    requires store.Value().Inv() && g < |store.grids| && |store.grids[g].axes| == |region| && regionSize == CubeSize(region)
    requires store.grids[g].IsComplete() && store.grids[g].parent == NULL && !IsEmptyCube(region)
    ensures covers <==> Cost(store.Value(), g, region) >= 0
    ensures covers ==> overhead == Cost(store.Value(), g, region)
  {
    covers := CoversFully(store, g, region, regionSize);
    overhead := 0;
    if covers {
      InsideIsWithin(store.grids[g].axes, region);
      overhead := CoverRegionOverhead(store.grids[g].axes, region);
    }
  }

  lemma ListedGrid(s: Store, i: nat)
    requires s.Inv() && i < s.complete
    ensures i < |s.order| && 0 <= s.order[i] < |s.grids| && s.grids[s.order[i]].IsComplete() && s.grids[s.order[i]].parent == NULL
  {}

  /** The grids at the front of the list have these costs. */
  ghost predicate Costs(s: Store, region: Cube, costs: seq<int>) {
    |costs| <= |s.order| && forall j :: 0 <= j < |costs| ==> costs[j] == Cost(s, s.order[j], region)
  }

  lemma CostsStep(s: Store, region: Cube, costs: seq<int>)
    requires Costs(s, region, costs) && |costs| < |s.order|
    ensures Costs(s, region, costs + [Cost(s, s.order[|costs|], region)])
  {}

  /** Looks at all complete grids in the order of the list. */
  method ChooseGrid(store: GridStore, region: Cube) returns (best: int, ghost costs: seq<int>, ghost at: int)
    requires store.Value().Inv() && !IsEmptyCube(region) && |region| > 0
    requires forall g :: 0 <= g < |store.grids| ==> |store.grids[g].axes| == |region|
    ensures |costs| == store.gridCount && BestAt(costs, at) && Costs(store.Value(), region, costs)
    ensures best == if at < 0 then NULL else store.order[at]
  {
    ghost var s := store.Value();
    best, costs, at := NULL, [], -1;
    var regionSize := SizeOf(region);
    var smallest, i := 0, 0;
    while i < store.gridCount
      invariant 0 <= i == |costs| <= store.gridCount && BestAt(costs, at) && Costs(s, region, costs)
      invariant if at < 0 then best == NULL else best == store.order[at] != NULL && smallest == costs[at]
    {
      var g := store.order[i];
      ListedGrid(s, i);
      var covers, overhead := Evaluate(store, g, region, regionSize);
      BestStep(costs, at, Cost(s, g, region));
      CostsStep(s, region, costs);
      costs := costs + [Cost(s, g, region)];
      if covers && (best == NULL || overhead <= smallest) { smallest, best, at := overhead, g, i; }
      i := i + 1;
    }
  }

  /** A complete grid whose domain holds the whole region, if there is one: one that fetches as little as possible. */
  method GridCoveringRegion(store: GridStore, region: Cube) returns (best: int)
    requires store.Value().Inv() && !IsEmptyCube(region) && |region| > 0
    requires forall g :: 0 <= g < |store.grids| ==> |store.grids[g].axes| == |region|
    ensures best == NULL ==> forall g :: !Covering(store.Value(), g, region)
    ensures best != NULL ==> Covering(store.Value(), best, region) && forall g :: NoBetter(store.Value(), best, g, region)
    ensures best != NULL ==> best in store.order[..store.gridCount] && LastOfBest(store.Value(), region, best, store.gridCount)
  {
    ghost var costs, at;
    best, costs, at := ChooseGrid(store, region);
    AllGridsSeen(store.Value(), region, costs, at);
  }

  /** The complete top-level grids are listed first, so the search has seen every grid that counts. */
  lemma AllGridsSeen(s: Store, region: Cube, costs: seq<int>, at: int)
    requires s.Inv() && |costs| == s.complete && BestAt(costs, at) && Costs(s, region, costs)
    ensures at == -1 ==> forall g :: !Covering(s, g, region)
    ensures at != -1 ==> Covering(s, s.order[at], region) && (forall g :: NoBetter(s, s.order[at], g, region))
    ensures at != -1 ==> s.order[at] in s.order[..s.complete] && LastOfBest(s, region, s.order[at], s.complete)
  {
    forall g | Covering(s, g, region) ensures at != -1 && NoBetter(s, s.order[at], g, region) {
      ListedAsComplete(s, g);
      var j :| 0 <= j < s.complete && s.order[j] == g;
      assert costs[j] == Cost(s, g, region) >= 0;
    }
    if at != -1 {
      assert s.order[..s.complete][at] == s.order[at];
      LastIsBest(s, region, costs, at);
    }
  }

  lemma LastIsBest(s: Store, region: Cube, costs: seq<int>, at: nat)
    requires |costs| == s.complete <= |s.order| && BestAt(costs, at) && forall j :: 0 <= j < |costs| ==> costs[j] == Cost(s, s.order[j], region)
    requires Covering(s, s.order[at], region) && forall j, k :: 0 <= j < k < |s.order| ==> s.order[j] != s.order[k]
    ensures LastOfBest(s, region, s.order[at], s.complete)
  {
    forall j, l | 0 <= j < l < s.complete && s.order[j] == s.order[at] && Covering(s, s.order[l], region)
      ensures Waste(s, s.order[at], region) < Waste(s, s.order[l], region)
    {
      assert j == at && costs[l] == Cost(s, s.order[l], region);
    }
  }

  lemma ListedAsComplete(s: Store, g: nat)
    requires s.Inv() && g < |s.grids| && s.grids[g].IsComplete() && s.grids[g].parent == NULL
    ensures exists j :: 0 <= j < s.complete && s.order[j] == g
  {
    CompletionIsExact(s, g);
    var j :| 0 <= j < s.complete && s.order[..s.complete][j] == g;
    assert s.order[j] == g;
  }

  method CoversFully(store: GridStore, g: nat, region: Cube, regionSize: int) returns (r: bool)
    requires store.Value().Inv() && g < |store.grids| && |store.grids[g].axes| == |region| && regionSize == CubeSize(region)
    requires store.grids[g].IsComplete() && store.grids[g].parent == NULL
    ensures r <==> Covering(store.Value(), g, region)
    ensures AxesOk(store.grids[g].axes)
  {
    assert store.Value().GridOk(g);
    var coverage := CoverRegionSize(store.grids[g].axes, region);
    SameSizeMeansInside(Domain(store.grids[g].axes), region);
    r := coverage == regionSize;
  }

  lemma InsideIsWithin(axes: seq<Bounds>, region: Cube)
    requires AxesOk(axes) && |region| == |axes| && !IsEmptyCube(region) && forall p :: Contains(region, p) ==> Contains(Domain(axes), p)
    ensures Within(axes, region) && Meets(axes, region)
  {
    var lo, hi := Corner(region), seq(|region|, d requires 0 <= d < |region| => region[d].end - 1);
    forall d | 0 <= d < |region| ensures region[d].Has(lo[d]) && region[d].Has(hi[d]) { assert !region[d].IsEmpty(); }
    assert Contains(region, lo) && Contains(region, hi);
    forall d | 0 <= d < |axes| ensures axes[d][0] <= region[d].start < region[d].end <= axes[d][|axes[d]| - 1] {
      assert Domain(axes)[d].Has(lo[d]) && Domain(axes)[d].Has(hi[d]);
    }
  }

  /** The answer to a read request: fragments, and the part of the region that no fragment of the dataset holds. */
  method FragmentsCoveringRegion(store: GridStore, region: Cube) returns (ids: seq<int>, uncovered: HypercubeSet, fully: bool, ghost grid: int)
    requires store.Value().Inv() && !IsEmptyCube(region) && |region| > 0 && AllOfRank(store.fragments, |region|)
    requires forall g :: 0 <= g < |store.grids| ==> |store.grids[g].axes| == |region|
    ensures ValidIds(ids, store.fragments) && fresh(uncovered)
    ensures forall j, k :: 0 <= j < k < |ids| ==> ids[j] != ids[k]
    ensures forall j :: 0 <= j < |ids| ==> Overlapping(store.fragments[ids[j]], region)
    ensures forall p :: Contains(region, p) ==> Covers(ExtentsOf(ids, store.fragments), p) || Covers(uncovered.cubes, p)
    ensures forall p :: Covers(uncovered.cubes, p) ==> Contains(region, p) && !Covers(ExtentsOf(ids, store.fragments), p)
    ensures forall p :: Covers(uncovered.cubes, p) <==> Contains(region, p) && !Covers(store.fragments, p)
    ensures fully <==> forall p :: !Covers(uncovered.cubes, p)
    ensures AllNonEmpty(uncovered.cubes) && PairwiseDisjoint(uncovered.cubes)
    ensures grid == NULL ==> forall g :: !Covering(store.Value(), g, region)
    ensures grid != NULL ==> Covering(store.Value(), grid, region) && forall g :: NoBetter(store.Value(), grid, g, region)
    ensures grid != NULL ==> forall f :: f in ids <==> HeldIn(store.Value(), grid, region, f)
    ensures grid == NULL && region in store.fragments ==> |ids| == 1 && store.fragments[ids[0]] == region
    ensures grid == NULL && region !in store.fragments ==> forall f :: 0 <= f < |store.fragments| ==> (f in ids <==> Overlapping(store.fragments[f], region))
  {
    ghost var s := store.Value();
    var g := GridCoveringRegion(store, region);
    grid := g;
    if g != NULL {
      forall f ensures f in QueryFrom(s, g, region, 0) <==> HeldIn(s, g, region, f) { FoundIffHeld(s, g, region, f); }
      InsideIsWithin(store.grids[g].axes, region);
      CompleteIsAllocated(s, g);
      QueryIds(s, g, region);
      QueryIsMinimal(s, g, region);
      var found := FragmentsInRegion(store, g, region);
      assert NULL !in QueryFrom(s, g, region, 0);
      ids := found.value;
      uncovered := new HypercubeSet();
      fully := true;
      forall p | Contains(region, p) ensures Covers(ExtentsOf(ids, s.fragments), p) && Covers(s.fragments, p) {
        QueryCovers(s, g, region, p);
        IdsAreFragments(s.fragments, ids, p);
      }
    } else {
      ids := MakeSetCoveringRegion(store, region);
      SelectionOverlaps(s.fragments, ids, region);
      var cs := ExtentsOf(ids, store.fragments);
      fully, uncovered := FragmentsCoverRegion(region, cs);
      forall p | Contains(region, p) ensures Covers(cs, p) <==> Covers(s.fragments, p) { SelectionIsEnough(s.fragments, ids, region, p); }
    }
  }

  lemma QueryIsMinimal(s: Store, g: nat, region: Cube)
    requires s.Inv() && g < |s.grids| && s.grids[g].IsComplete() && ValidIds(QueryFrom(s, g, region, 0), s.fragments)
    ensures forall j, k :: 0 <= j < k < |QueryFrom(s, g, region, 0)| ==> QueryFrom(s, g, region, 0)[j] != QueryFrom(s, g, region, 0)[k]
    ensures forall j :: 0 <= j < |QueryFrom(s, g, region, 0)| ==> Overlapping(s.fragments[QueryFrom(s, g, region, 0)[j]], region)
  {
    var ids := QueryFrom(s, g, region, 0);
    forall j, k | 0 <= j < k < |ids| ensures ids[j] != ids[k] { FoundOnce(s, g, region, j, k); }
    forall j | 0 <= j < |ids| ensures Overlapping(s.fragments[ids[j]], region) {
      FoundIsHeld(s, g, region, j);
      var h: nat, i: nat :| HeldAt(s, g, region, ids[j], h, i);
      LeafHasFragment(s, g, (h, i));
    }
  }

  lemma SelectionOverlaps(table: seq<Cube>, ids: seq<int>, region: Cube)
    requires ValidIds(ids, table) && !IsEmptyCube(region)
    requires region in table ==> |ids| == 1 && table[ids[0]] == region
    requires region !in table ==> forall f :: 0 <= f < |table| ==> (f in ids <==> Overlapping(table[f], region))
    ensures forall j :: 0 <= j < |ids| ==> Overlapping(table[ids[j]], region)
  {
    assert Contains(region, Corner(region));
  }

  lemma IdsAreFragments(table: seq<Cube>, ids: seq<int>, p: Point)
    requires ValidIds(ids, table) && Covers(ExtentsOf(ids, table), p)
    ensures Covers(table, p)
  {
    var cs := ExtentsOf(ids, table);
    var j :| 0 <= j < |cs| && Contains(cs[j], p);
    assert Contains(table[ids[j]], p);
  }
}
