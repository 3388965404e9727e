/** Creating, dividing, reading and writing grids. */
module GridAccess {
  import opened Options
  import opened MixedRadix
  import opened Geometry
  import opened Splitting
  import opened Axes
  import opened GridCells
  import opened Grids
  import opened GridOps
  import opened GridLeaves

  datatype Status = Success | Failure | InvalidArgument | InvalidState

  function BoxAxes(offset: seq<int>, size: seq<int>): (axes: seq<Bounds>)
    requires |offset| == |size|
    ensures |axes| == |size| && forall d :: 0 <= d < |size| ==> axes[d] == [offset[d], offset[d] + size[d]]
  {
    seq(|size|, d requires 0 <= d < |size| => [offset[d], offset[d] + size[d]])
  }

  /** A new top-level grid with a single cell, registered as incomplete. */
  method CreateGrid(store: GridStore, offset: seq<int>, size: seq<int>) returns (g: nat)
    requires store.Value().Inv() && |offset| == |size| && AllPositive(size)
    modifies store
    ensures store.Value().Inv() && store.Value() == Created(old(store.Value()), BoxAxes(offset, size)) && g == |old(store.grids)|
    ensures store.grids[..g] == old(store.grids) && |store.grids| == g + 1 && !store.grids[g].IsComplete() && store.order == old(store.order) + [g]
    ensures AxesOk(store.grids[g].axes) && |store.grids[g].axes| == |size| && (forall d :: 0 <= d < |size| ==> |store.grids[g].axes[d]| == 2)
    ensures forall d :: 0 <= d < |size| ==> Domain(store.grids[g].axes)[d] == Range(offset[d], offset[d] + size[d])
  {
    var axes := BoxAxes(offset, size);
    CreatedInv(store.Value(), axes);
    g := |store.grids|;
    store.grids := store.grids + [Fresh(axes, NULL)];
    store.slots := store.slots + [NULL];
    store.order := store.order + [g];
  }

  /** Allocates the cells of a grid once; from then on its axes are settled. */
  method EnsureGrid(store: GridStore, g: nat)
    requires store.Value().Inv() && g < |store.grids|
    modifies store`grids
    ensures store.Value().Inv() && AxesOk(store.grids[g].axes)
    ensures AxesOk(old(store.grids[g].axes)) && store.Value() == Ensured(old(store.Value()), g)
  {
    assert store.Value().GridOk(g);
    if store.grids[g].cells.Some? { return; }
    AllocatedInv(store.Value(), g);
    ProdPositive(Intervals(store.grids[g].axes));
    var n := CellCount(store.grids[g].axes);
    store.grids := store.grids[g := store.grids[g].(emptyCells := n, cells := Some(Blank(n)))];
  }

  /** The cell holds nothing yet. */
  ghost predicate IsVacant(grid: Grid, index: seq<int>) {
    grid.cells.Some? && |index| == |grid.axes| && 0 <= Rank(index, Intervals(grid.axes)) < |grid.cells.value| ==> grid.cells.value[Rank(index, Intervals(grid.axes))] == EMPTY
  }

  /** The new store after a subgrid was put into the cell: the parent has cells, that one holds the new grid, and nothing
      else is different. */
  ghost predicate SubgridPut(s: Store, t: Store, p: nat, index: seq<int>) {
    && p < |s.grids| && AxesOk(s.grids[p].axes) && |index| == |s.grids[p].axes| && InBox(index, Intervals(s.grids[p].axes))
    && var e, i := Ensured(s, p), Rank(index, Intervals(s.grids[p].axes));
       0 <= i < |e.grids[p].cells.value| == Prod(Intervals(s.grids[p].axes)) && e.grids[p].cells.value[i] == EMPTY && t == WithSubgrid(e, p, i)
  }

  predicate SameCell(a: Grid, b: Grid, j: nat)
    requires b.cells.Some? && j < |b.cells.value|
  {
    if a.cells.None? then b.cells.value[j] == EMPTY else j < |a.cells.value| && b.cells.value[j] == a.cells.value[j]
  }

  /** b is as a, apart from its counter and from cell i if it is the target. */
  ghost predicate SameGrid(a: Grid, b: Grid, target: bool, i: nat) {
    && b.axes == a.axes && b.parent == a.parent && b.isFixed == a.isFixed && (!target ==> b.cells == a.cells)
    && (target && b.cells.Some? ==> forall j :: 0 <= j < |b.cells.value| && j != i ==> SameCell(a, b, j))
  }

  /** Cell i of grid p got the last grid, which is new; everything else is as before. */
  ghost predicate OnlySubgrid(s: Store, t: Store, p: nat, i: int) {
    && p < |s.grids| < |t.grids| == |s.grids| + 1 && t.order == s.order && t.complete == s.complete && t.fragments == s.fragments
    && (forall g :: 0 <= g < |s.grids| && g != p ==> t.grids[g] == s.grids[g])
    && i >= 0 && SameGrid(s.grids[p], t.grids[p], true, i)
    && t.grids[p].cells.Some? && i < |t.grids[p].cells.value| && t.grids[p].cells.value[i] == Cell(|s.grids|, NULL)
    && t.grids[|s.grids|].parent == p && !t.grids[|s.grids|].isFixed && forall d :: 0 <= d < |t.grids[|s.grids|].axes| ==> |t.grids[|s.grids|].axes[d]| == 2
  }

  lemma PutIsOnly(s: Store, t: Store, p: nat, index: seq<int>)
    requires s.Inv() && SubgridPut(s, t, p, index)
    ensures OnlySubgrid(s, t, p, Rank(index, Intervals(s.grids[p].axes)))
  {
    assert s.GridOk(p);
  }

  /** Puts a new grid into an empty cell. */
  method CreateSubgrid(store: GridStore, p: nat, index: seq<int>) returns (status: Status, c: int)
    requires store.Value().Inv() && p < |store.grids| && |index| == |store.grids[p].axes|
    modifies store
    ensures store.Value().Inv()
    ensures old(store.grids[p].isFixed) ==> status == InvalidState
    ensures !old(store.grids[p].isFixed) && !InBox(index, Intervals(old(store.grids[p].axes))) ==> status == InvalidArgument
    ensures status != Success ==> store.Value() == old(store.Value())
    ensures status == Success ==> SubgridPut(old(store.Value()), store.Value(), p, index)
    ensures status == Success ==> c == |old(store.grids)| && |store.grids| == c + 1 && store.grids[c].parent == p && store.grids[c].cells.None?
    ensures status == Success ==> InBox(index, Intervals(old(store.grids[p].axes))) && AxesOk(store.grids[c].axes) && Domain(store.grids[c].axes) == CellBox(old(store.grids[p].axes), index)
    ensures status == Success ==> OnlySubgrid(old(store.Value()), store.Value(), p, Rank(index, Intervals(old(store.grids[p].axes))))
    ensures status == Success <==> !old(store.grids[p].isFixed) && InBox(index, Intervals(old(store.grids[p].axes))) && old(IsVacant(store.grids[p], index))
    ensures status == InvalidState <==> old(store.grids[p].isFixed) || (InBox(index, Intervals(old(store.grids[p].axes))) && !old(IsVacant(store.grids[p], index)))
  {
    c := NULL;
    if store.grids[p].isFixed { return InvalidState, c; }
    var i := LinearIndex(store.grids[p].axes, index);
    if i < 0 { return InvalidArgument, c; }
    assert store.Value().GridOk(p);
    EnsureGrid(store, p);
    ghost var s := store.Value();
    assert s.GridOk(p) && s.CellOk(p, i);
    var cell := store.grids[p].cells.value[i];
    if cell.subgrid != NULL || cell.fragment != NULL { return InvalidState, c; }
    c := PutSubgrid(store, p, index, i);
    status := Success;
    PutIsOnly(old(store.Value()), store.Value(), p, index);
  }

  /** Makes the grid for an empty cell. */
  method PutSubgrid(store: GridStore, p: nat, index: seq<int>, i: nat) returns (c: int)
    requires store.Value().Inv() && p < |store.grids| && AxesOk(store.grids[p].axes) && InBox(index, Intervals(store.grids[p].axes))
    requires i == Rank(index, Intervals(store.grids[p].axes)) && store.grids[p].cells.Some? && i < |store.grids[p].cells.value| == Prod(Intervals(store.grids[p].axes))
    requires !store.grids[p].isFixed && store.grids[p].cells.value[i] == EMPTY
    modifies store`grids, store`slots
    ensures store.Value().Inv() && c == |old(store.grids)| && |store.grids| == c + 1 && store.grids[c].parent == p && store.grids[c].cells.None?
    ensures AxesOk(store.grids[c].axes) && Domain(store.grids[c].axes) == CellBox(old(store.grids[p].axes), index)
    ensures store.Value() == WithSubgrid(old(store.Value()), p, i)
  {
    ghost var s := store.Value();
    var box := CellSize(store.grids[p].axes, index);
    CellWithNumber(store.grids[p].axes, index);
    CellIsNotEmpty(store.grids[p].axes, i);
    CellAxesOk(box.value);
    WithSubgridInv(s, p, i);
    c := |store.grids|;
    store.grids := store.grids[p := store.grids[p].(cells := Some(store.grids[p].cells.value[i := Cell(c, NULL)]))] + [Fresh(CellAxes(box.value), p)];
    store.slots := store.slots + [i];
    assert store.Value() == WithSubgrid(s, p, i);
  }

  /** Which way an axis is divided. */
  datatype Division = Fixed(size: int, allowIncomplete: bool) | Flexible(count: int) | Explicit(bounds: Bounds)

  predicate Sensible(division: Division) {
    match division
    case Fixed(size, _) => size >= 1
    case Flexible(count) => count >= 1
    case Explicit(bounds) => |bounds| >= 2
  }

  /** The division fits the axis. */
  ghost predicate Divisible(axis: Bounds, division: Division)
    requires StrictBounds(axis) && Sensible(division)
  {
    var length := axis[|axis| - 1] - axis[0];
    match division
    case Fixed(size, allowIncomplete) => size <= length && (allowIncomplete || length % size == 0)
    case Flexible(count) => count <= length
    case Explicit(bounds) => StrictBounds(bounds) && SameEnds(axis, bounds)
  }

  /** b divides the axis as asked for: into intervals of one size, of which the last may be shorter; into a number of
      nearly equal intervals; or at the given bounds. */
  ghost predicate DividedAs(axis: Bounds, division: Division, b: Bounds)
    requires StrictBounds(axis) && Sensible(division)
  {
    && StrictBounds(b) && SameEnds(axis, b)
    && match division
       case Fixed(size, allowIncomplete) =>
         && (forall i :: 0 <= i < |b| - 2 ==> b[i + 1] - b[i] == size)
         && b[|b| - 1] - b[|b| - 2] <= size && (!allowIncomplete ==> b[|b| - 1] - b[|b| - 2] == size)
       case Flexible(count) => |b| == count + 1 && forall k :: 0 <= k <= count ==> b[k] == axis[0] + Cut(axis[|axis| - 1] - axis[0], count, k)
       case Explicit(bounds) => b == bounds
  }

  method Divide(axis: Bounds, division: Division) returns (b: Option<Bounds>)
    requires StrictBounds(axis) && Sensible(division)
    ensures b.Some? <==> Divisible(axis, division)
    ensures b.Some? ==> DividedAs(axis, division, b.value)
  {
    match division {
      case Fixed(size, allowIncomplete) => b := SubdivideFixed(axis, size, allowIncomplete);
      case Flexible(count) => b := SubdivideFlexible(axis, count);
      case Explicit(bounds) => b := Subdivide(axis, bounds);
    }
  }

  /** The grids have the same axes apart from one, and are the same otherwise. */
  ghost predicate OnlyAxis(a: Grid, b: Grid, dim: int) {
    && |b.axes| == |a.axes| && (forall d :: 0 <= d < |a.axes| && d != dim ==> b.axes[d] == a.axes[d])
    && b.parent == a.parent && b.isFixed == a.isFixed && b.emptyCells == a.emptyCells && b.cells == a.cells
  }

  /** Divides an axis anew; refused once the cells of the grid are allocated. */
  method SubdivideAxis(store: GridStore, g: nat, dim: int, division: Division) returns (status: Status)
    requires store.Value().Inv() && g < |store.grids| && Sensible(division)
    modifies store`grids
    ensures store.Value().Inv() && AxesOk(old(store.grids[g].axes))
    ensures status != Success ==> store.Value() == old(store.Value())
    ensures status == Success <==> 0 <= dim < |old(store.grids[g].axes)| && old(store.grids[g].cells.None?) && Divisible(old(store.grids[g].axes)[dim], division)
    ensures status == InvalidState <==> 0 <= dim < |old(store.grids[g].axes)| && old(store.grids[g].cells.Some?)
    ensures |store.grids| == |old(store.grids)| && |store.grids[g].axes| == |old(store.grids[g].axes)|
    ensures status == Success ==> DividedAs(old(store.grids[g].axes)[dim], division, store.grids[g].axes[dim])
    ensures status == Success ==> store.Value() == Redivided(old(store.Value()), g, dim, store.grids[g].axes[dim])
    ensures status == Success ==> OnlyAxis(old(store.grids[g]), store.grids[g], dim)
    ensures store.grids[..g] == old(store.grids[..g]) && store.grids[g + 1..] == old(store.grids[g + 1..])
  {
    ghost var s := store.Value();
    assert s.GridOk(g);
    if dim < 0 || dim >= |store.grids[g].axes| { return InvalidArgument; }
    if store.grids[g].cells.Some? { return InvalidState; }
    var b := Divide(store.grids[g].axes[dim], division);
    if b.None? { return InvalidArgument; }
    RedividedInv(s, g, dim, b.value);
    store.grids := store.grids[g := store.grids[g].(axes := store.grids[g].axes[dim := b.value])];
    assert store.Value() == Redivided(s, g, dim, b.value);
    status := Success;
  }

  /** The leaf cell with exactly the given extents; found whenever the hierarchy has one. */
  method FindCellInHierarchy(store: GridStore, g: nat, x: Cube) returns (found: bool, h: nat, i: nat)
    requires store.Value().Inv() && g < |store.grids| && |x| == |store.grids[g].axes|
    modifies store`grids
    ensures store.Value().Inv()
    ensures found <==> HasLeaf(old(store.Value()), g, x)
    ensures !found ==> store.Value() == old(store.Value())
    ensures found ==> LeafWith(old(store.Value()), g, h, i, x) && old(store.Value()).GridOk(h)
    ensures found ==> store.Value() == if old(store.grids[h].cells.Some?) then old(store.Value()) else Allocated(old(store.Value()), h)
  {
    ghost var s := store.Value();
    h, i := g, 0;
    while true
      invariant store.Value() == s && g <= h < |s.grids| && Under(s, g, h) && |x| == |s.grids[h].axes|
      invariant HasLeaf(s, g, x) <==> HasLeaf(s, h, x)
      decreases |s.grids| - h
    {
      assert s.GridOk(h);
      var axes := store.grids[h].axes;
      var index, tooSmall := FindCell(axes, x);
      if index.None? {
        NoLeaf(s, h, x);
        return false, h, 0;
      }
      var r := LinearIndex(axes, index.value);
      CellWithNumber(axes, index.value);
      if store.grids[h].cells.None? && tooSmall {
        TooSmall(s, h, index.value, x);
        return false, h, 0;
      }
      EnsureGrid(store, h);
      var cell := store.grids[h].cells.value[r];
      if cell.subgrid == NULL {
        if tooSmall {
          TooSmall(s, h, index.value, x);
          return false, h, 0;
        }
        assert LeafWith(s, h, h, r, x) && LeafWith(s, g, h, r, x);
        return true, h, r;
      }
      LeafFollows(s, h, index.value, x);
      assert s.ParentOk(cell.subgrid) && s.GridOk(cell.subgrid);
      SameRank(s, h, cell.subgrid);
      UnderStep(s, g, h, cell.subgrid);
      h := cell.subgrid;
    }
  }

  lemma UnderStep(s: Store, g: nat, h: nat, c: nat)
    requires h < c < |s.grids| && Under(s, g, h) && s.grids[c].parent == h
    ensures Under(s, g, c)
  {}

  lemma NoLeaf(s: Store, h: nat, x: Cube)
    requires s.Linked() && h < |s.grids| && AxesOk(s.grids[h].axes) && !exists k :: Encloses(s.grids[h].axes, k, x)
    ensures !HasLeaf(s, h, x)
  {
    forall g: nat, i: nat ensures !LeafWith(s, h, g, i, x) {
      if LeafWith(s, h, g, i, x) { LeafIsEnclosed(s, h, g, i, x); }
    }
  }

  /** A part of an undivided cell is not a leaf. */
  lemma TooSmall(s: Store, h: nat, k: seq<int>, x: Cube)
    requires s.Linked() && h < |s.grids| && AxesOk(s.grids[h].axes) && Encloses(s.grids[h].axes, k, x) && InBox(k, Intervals(s.grids[h].axes))
    requires x != CellBox(s.grids[h].axes, k)
    requires s.grids[h].cells.Some? ==> 0 <= Rank(k, Intervals(s.grids[h].axes)) < |s.grids[h].cells.value| && s.grids[h].cells.value[Rank(k, Intervals(s.grids[h].axes))].subgrid == NULL
    ensures !HasLeaf(s, h, x)
  {
    forall g: nat, i: nat ensures !LeafWith(s, h, g, i, x) {
      if LeafWith(s, h, g, i, x) {
        if g == h {
          var l := ExactCellEncloses(s.grids[h].axes, i);
          EnclosesUnique(s.grids[h].axes, k, l, x);
          CellWithNumber(s.grids[h].axes, k);
        } else {
          var c := FirstStep(s, h, g);
          assert s.ParentOk(c) && s.GridOk(c) && s.GridOk(g);
          EnclosedBySlot(s, c, g, i, k);
        }
      }
    }
  }

  // ----- filling cells

  ghost predicate StillComplete(s: Store, t: Store) {
    |s.grids| <= |t.grids| && forall g :: 0 <= g < |s.grids| && s.grids[g].IsComplete() ==> t.grids[g].IsComplete()
  }

  ghost predicate CellHolds(s: Store, h: nat, i: nat, x: Cube) {
    && h < |s.grids| && s.grids[h].cells.Some? && i < |s.grids[h].cells.value|
    && 0 <= s.grids[h].cells.value[i].fragment < |s.fragments| && s.fragments[s.grids[h].cells.value[i].fragment] == x
  }

  /** The cell holds a fragment. */
  predicate IsHeld(s: Store, h: nat, i: nat) {
    h < |s.grids| && s.grids[h].cells.Some? && i < |s.grids[h].cells.value| && s.grids[h].cells.value[i].fragment != NULL
  }

  /** The dataset has the data of the cell with extents x. */
  predicate HasData(s: Store, h: nat, i: nat, x: Cube) {
    IsHeld(s, h, i) || x in s.fragments
  }

  /** Only cell i of grid h got something new; apart from that only counters changed. */
  ghost predicate OnlyCell(s: Store, t: Store, h: nat, i: nat) {
    && |t.grids| == |s.grids| && t.slots == s.slots && s.fragments <= t.fragments
    && forall g :: 0 <= g < |s.grids| ==> SameGrid(s.grids[g], t.grids[g], g == h, i)
  }

  /** Putting something into the cell, and changing the counter, leaves the rest as it was. */
  lemma SameAfterFill(a: Grid, b: Grid, c: Grid, target: bool, i: nat, cell: Cell)
    requires SameGrid(a, b, target, i) && c == (if target && b.cells.Some? && i < |b.cells.value| then b.(cells := Some(b.cells.value[i := cell])) else b).(emptyCells := c.emptyCells)
    ensures SameGrid(a, c, target, i)
  {
    if target && c.cells.Some? {
      forall j | 0 <= j < |c.cells.value| && j != i ensures SameCell(a, c, j) { assert SameCell(a, b, j); }
    }
  }

  method FillCell(store: GridStore, h: nat, i: nat, f: nat)
    requires store.Value().Inv() && h < |store.grids| && AxesOk(store.grids[h].axes) && store.grids[h].cells.Some?
    requires i < |store.grids[h].cells.value| == Prod(Intervals(store.grids[h].axes)) && store.grids[h].cells.value[i] == EMPTY
    requires f < |store.fragments| && store.fragments[f] == Cells(store.grids[h].axes)[i]
    modifies store`grids, store`order, store`gridCount
    ensures store.Value().Inv() && StillComplete(old(store.Value()), store.Value())
    ensures Advances(WithFragment(old(store.Value()), h, i, f), store.Value())
  {
    ghost var s := store.Value();
    WithFragmentInv(s, h, i, f);
    StillOpen(s, h, i);
    store.grids := store.grids[h := store.grids[h].(cells := Some(store.grids[h].cells.value[i := Cell(NULL, f)]))];
    assert store.Value() == WithFragment(s, h, i, f);
    store.RegisterCompletedCell(h);
  }

  lemma StillOpen(s: Store, h: nat, i: nat)
    requires s.Inv() && h < |s.grids| && s.grids[h].cells.Some? && i < |s.grids[h].cells.value| && s.grids[h].cells.value[i] == EMPTY
    ensures !s.grids[h].IsComplete()
  {
    assert s.CountOk(h, NULL);
    CountPositive(s, s.grids[h].cells.value, i);
  }

  /** The fragment of the dataset that has exactly these extents. */
  method LookupFragment(store: GridStore, x: Cube) returns (f: int)
    ensures f == NULL <==> x !in store.fragments
    ensures f != NULL ==> 0 <= f < |store.fragments| && store.fragments[f] == x
  {
    f := 0;
    while f < |store.fragments|
      invariant 0 <= f <= |store.fragments| && forall k :: 0 <= k < f ==> store.fragments[k] != x
    {
      if store.fragments[f] == x { return; }
      f := f + 1;
    }
    f := NULL;
  }

  lemma FoundCell(s: Store, t: Store, g: nat, h: nat, i: nat, x: Cube)
    requires s.Inv() && LeafWith(s, g, h, i, x) && s.GridOk(h) && t == if s.grids[h].cells.Some? then s else Allocated(s, h)
    ensures h < |t.grids| && t.grids[h].cells.Some? && i < |t.grids[h].cells.value| == Prod(Intervals(t.grids[h].axes))
    ensures t.grids[h].axes == s.grids[h].axes && t.grids[h].cells.value[i].subgrid == NULL
    ensures StillComplete(s, t) && OnlyCell(s, t, h, i) && t.fragments == s.fragments
    ensures t.grids[h].cells.value[i].fragment >= NULL
    ensures t.grids[h].cells.value[i].fragment != NULL ==> CellHolds(t, h, i, x)
  {
    if s.grids[h].cells.Some? { assert s.CellOk(h, i); }
  }

  /** The cell has its place in the hierarchy s, and is ready to take a fragment with extents x. */
  ghost predicate Located(s: Store, t: Store, g: nat, h: nat, i: nat, x: Cube) {
    && LeafWith(s, g, h, i, x) && h < |t.grids| && AxesOk(t.grids[h].axes) && t.grids[h].cells.Some?
    && i < |t.grids[h].cells.value| == Prod(Intervals(t.grids[h].axes)) && Cells(t.grids[h].axes)[i] == x
    && t.grids[h].cells.value[i].subgrid == NULL && StillComplete(s, t) && OnlyCell(s, t, h, i)
    && (t.grids[h].cells.value[i].fragment == NULL || CellHolds(t, h, i, x))
  }

  method Locate(store: GridStore, g: nat, x: Cube) returns (found: bool, h: nat, i: nat)
    requires store.Value().Inv() && g < |store.grids|
    modifies store`grids
    ensures store.Value().Inv() && (found <==> |x| == |old(store.grids[g].axes)| && HasLeaf(old(store.Value()), g, x))
    ensures !found ==> store.Value() == old(store.Value())
    ensures found ==> Located(old(store.Value()), store.Value(), g, h, i, x)
    ensures found ==> (store.grids[h].cells.value[i].fragment != NULL <==> IsHeld(old(store.Value()), h, i))
    ensures found && IsHeld(old(store.Value()), h, i) ==> store.Value() == old(store.Value())
  {
    if |store.grids[g].axes| != |x| { return false, 0, 0; }
    ghost var s := store.Value();
    found, h, i := FindCellInHierarchy(store, g, x);
    if found { FoundCell(s, store.Value(), g, h, i, x); }
  }

  /** Gives the cell the fragment of the dataset that has its extents. */
  method Adopt(store: GridStore, h: nat, i: nat, x: Cube, ghost s: Store, ghost g: nat) returns (f: int)
    requires store.Value().Inv() && Located(s, store.Value(), g, h, i, x) && store.grids[h].cells.value[i].fragment == NULL
    modifies store`grids, store`order, store`gridCount
    ensures store.Value().Inv() && StillComplete(s, store.Value()) && OnlyCell(s, store.Value(), h, i)
    ensures f == NULL <==> x !in store.fragments
    ensures if f == NULL then store.Value() == old(store.Value()) else CellHolds(store.Value(), h, i, x)
  {
    f := LookupFragment(store, x);
    if f != NULL { FillAndCheck(store, h, i, f, s, x); }
  }

  /** Gives the cell a new fragment. */
  method Create(store: GridStore, h: nat, i: nat, x: Cube, ghost s: Store, ghost g: nat)
    requires store.Value().Inv() && Located(s, store.Value(), g, h, i, x) && store.grids[h].cells.value[i].fragment == NULL
    modifies store
    ensures store.Value().Inv() && StillComplete(s, store.Value()) && OnlyCell(s, store.Value(), h, i) && CellHolds(store.Value(), h, i, x)
    ensures store.fragments == old(store.fragments) + [x]
  {
    MoreFragmentsInv(store.Value(), x);
    store.fragments := store.fragments + [x];
    FillAndCheck(store, h, i, |store.fragments| - 1, s, x);
  }

  /** Writes the data of one leaf cell, unless it has data already. createFails and writeFails stand for what the
      backends do. */
  method WriteGrid(store: GridStore, g: nat, x: Cube, createFails: bool, writeFails: bool) returns (status: Status, ghost h: nat, ghost i: nat)
    requires store.Value().Inv() && g < |store.grids|
    modifies store
    ensures store.Value().Inv() && StillComplete(old(store.Value()), store.Value())
    ensures status == InvalidArgument <==> |x| != |old(store.grids[g].axes)| || !HasLeaf(old(store.Value()), g, x)
    ensures status == InvalidArgument ==> store.Value() == old(store.Value())
    ensures status != InvalidArgument ==> LeafWith(old(store.Value()), g, h, i, x) && OnlyCell(old(store.Value()), store.Value(), h, i)
    ensures status != InvalidArgument && IsHeld(old(store.Value()), h, i) ==> store.Value() == old(store.Value())
    ensures status != InvalidArgument ==> (CellHolds(store.Value(), h, i, x) <==> HasData(old(store.Value()), h, i, x) || !createFails)
    ensures status == Failure <==> status != InvalidArgument && !HasData(old(store.Value()), h, i, x) && (createFails || writeFails)
    ensures status == Success <==> status != InvalidArgument && status != Failure
    ensures store.fragments == old(store.fragments) + if status != InvalidArgument && !HasData(old(store.Value()), h, i, x) && !createFails then [x] else []
  {
    ghost var s := store.Value();
    var found, h', i' := Locate(store, g, x);
    h, i := h', i';
    if !found { return InvalidArgument, h', i'; }
    if store.grids[h'].cells.value[i'].fragment != NULL { return Success, h', i'; }
    var f := Adopt(store, h', i', x, s, g);
    if f != NULL { return Success, h', i'; }
    if createFails { return Failure, h', i'; }
    Create(store, h', i', x, s, g);
    status := if writeFails then Failure else Success;
  }

  method FillAndCheck(store: GridStore, h: nat, i: nat, f: nat, ghost s: Store, ghost x: Cube)
    requires store.Value().Inv() && h < |store.grids| && AxesOk(store.grids[h].axes) && store.grids[h].cells.Some?
    requires i < |store.grids[h].cells.value| == Prod(Intervals(store.grids[h].axes)) && store.grids[h].cells.value[i] == EMPTY
    requires f < |store.fragments| && store.fragments[f] == Cells(store.grids[h].axes)[i] == x
    requires OnlyCell(s, store.Value(), h, i) && StillComplete(s, store.Value())
    modifies store`grids, store`order, store`gridCount
    ensures store.Value().Inv() && StillComplete(s, store.Value()) && OnlyCell(s, store.Value(), h, i) && CellHolds(store.Value(), h, i, x)
  {
    ghost var mid := store.Value();
    FillCell(store, h, i, f);
    AfterFill(s, mid, store.Value(), h, i, f, x);
  }

  lemma AfterFill(s: Store, mid: Store, t: Store, h: nat, i: nat, f: nat, x: Cube)
    requires h < |mid.grids| && mid.grids[h].cells.Some? && i < |mid.grids[h].cells.value| && f < |mid.fragments| && mid.fragments[f] == x
    requires OnlyCell(s, mid, h, i) && Advances(WithFragment(mid, h, i, f), t)
    ensures OnlyCell(s, t, h, i) && CellHolds(t, h, i, x)
  {
    var w := WithFragment(mid, h, i, f);
    forall g | 0 <= g < |s.grids| ensures SameGrid(s.grids[g], t.grids[g], g == h, i) {
      assert t.grids[g] == w.grids[g].(emptyCells := t.grids[g].emptyCells);
      SameAfterFill(s.grids[g], mid.grids[g], t.grids[g], g == h, i, Cell(NULL, f));
    }
    assert t.grids[h] == w.grids[h].(emptyCells := t.grids[h].emptyCells);
  }

  /** Reads one leaf cell; the data that had to be assembled from other fragments becomes the cell's own fragment. */
  method ReadGrid(store: GridStore, g: nat, x: Cube, readFails: bool, createFails: bool) returns (status: Status, ghost h: nat, ghost i: nat)
    requires store.Value().Inv() && g < |store.grids|
    modifies store
    ensures store.Value().Inv() && StillComplete(old(store.Value()), store.Value())
    ensures status == InvalidArgument <==> |x| != |old(store.grids[g].axes)| || !HasLeaf(old(store.Value()), g, x)
    ensures status == InvalidArgument ==> store.Value() == old(store.Value())
    ensures status != InvalidArgument ==> LeafWith(old(store.Value()), g, h, i, x) && OnlyCell(old(store.Value()), store.Value(), h, i)
    ensures status != InvalidArgument && IsHeld(old(store.Value()), h, i) ==> store.Value() == old(store.Value())
    ensures status != InvalidArgument ==> (CellHolds(store.Value(), h, i, x) <==> HasData(old(store.Value()), h, i, x) || (!readFails && !createFails))
    ensures status == Failure <==> status != InvalidArgument && (readFails || (!HasData(old(store.Value()), h, i, x) && createFails))
    ensures status == Success <==> status != InvalidArgument && status != Failure
    ensures store.fragments == old(store.fragments)
      + if status != InvalidArgument && !HasData(old(store.Value()), h, i, x) && !readFails && !createFails then [x] else []
  {
    ghost var s := store.Value();
    var found, h', i' := Locate(store, g, x);
    h, i := h', i';
    if !found { return InvalidArgument, h', i'; }
    var hasData := store.grids[h'].cells.value[i'].fragment != NULL;
    if !hasData {
      var f := Adopt(store, h', i', x, s, g);
      hasData := f != NULL;
    }
    if hasData { return if readFails then Failure else Success, h', i'; }
    if readFails || createFails { return Failure, h', i'; }
    Create(store, h', i', x, s, g);
    status := Success;
  }

  // ----- what completeness means

  /** Every cell of grid h is allocated, and has a fragment or a subgrid. */
  ghost predicate AllTaken(s: Store, h: nat)
    requires h < |s.grids|
  {
    s.grids[h].cells.Some? && forall i :: 0 <= i < |s.grids[h].cells.value| ==> s.grids[h].cells.value[i] != EMPTY
  }

  lemma {:induction false} CompleteMeansFilled(s: Store, g: nat, h: nat)
    requires s.Inv() && g <= h < |s.grids| && Under(s, g, h) && s.grids[g].IsComplete()
    ensures AllTaken(s, h)
    decreases |s.grids| - g
  {
    assert s.CountOk(g, NULL) && s.GridOk(g);
    var cells := s.grids[g].cells.value;
    CountZero(s, cells);
    if h == g {
      forall i | 0 <= i < |cells| ensures cells[i] != EMPTY { assert !s.IsOpen(cells[i]); }
    } else {
      var c := FirstStep(s, g, h);
      assert s.ParentOk(c);
      assert !s.IsOpen(cells[s.slots[c]]) && s.CellOk(g, s.slots[c]);
      CompleteMeansFilled(s, c, h);
    }
  }

  lemma {:induction false} FilledMeansComplete(s: Store, g: nat)
    requires s.Inv() && g < |s.grids| && forall h: nat :: g <= h < |s.grids| && Under(s, g, h) ==> AllTaken(s, h)
    ensures s.grids[g].IsComplete()
    decreases |s.grids| - g
  {
    assert Under(s, g, g) && AllTaken(s, g);
    assert s.CountOk(g, NULL) && s.GridOk(g);
    var cells := s.grids[g].cells.value;
    forall i | 0 <= i < |cells| ensures !s.IsOpen(cells[i]) {
      assert s.CellOk(g, i);
      var c := cells[i].subgrid;
      if c != NULL {
        forall h: nat | c <= h < |s.grids| && Under(s, c, h) ensures AllTaken(s, h) { UnderTransitive(s, g, c, h); }
        FilledMeansComplete(s, c);
      }
    }
    CountZero(s, cells);
  }

  /** The counters tell the truth: a grid counts as complete exactly if no cell in its whole hierarchy is empty,
      and the dataset lists exactly the complete top-level grids as complete. */
  lemma CompletionIsExact(s: Store, g: nat)
    requires s.Inv() && g < |s.grids|
    ensures s.grids[g].IsComplete() <==> forall h: nat :: g <= h < |s.grids| && Under(s, g, h) ==> AllTaken(s, h)
    ensures s.grids[g].parent == NULL ==> (g in s.order[..s.complete] <==> s.grids[g].IsComplete())
  {
    if s.grids[g].IsComplete() {
      forall h: nat | g <= h < |s.grids| && Under(s, g, h) ensures AllTaken(s, h) { CompleteMeansFilled(s, g, h); }
    }
    if forall h: nat :: g <= h < |s.grids| && Under(s, g, h) ==> AllTaken(s, h) { FilledMeansComplete(s, g); }
    if s.grids[g].parent == NULL {
      var j :| 0 <= j < |s.order| && s.order[j] == g;
      if j < s.complete { assert s.order[..s.complete][j] == g; }
      if g in s.order[..s.complete] {
        var k :| 0 <= k < s.complete && s.order[..s.complete][k] == g;
        assert s.order[k] == g;
      }
    }
  }
}
