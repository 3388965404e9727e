/** Walking over all leaf cells of a complete grid hierarchy, depth first. */
module GridWalk {
  import opened Options
  import opened MixedRadix
  import opened Geometry
  import opened CubeSets
  import opened Splitting
  import opened Axes
  import opened GridCells
  import opened Grids
  import opened GridOps
  import opened GridLeaves
  import GridAccess

  /** The number of cells of grid g, as far as they are allocated. */
  ghost function Cellular(s: Store, g: nat): nat
    requires g < |s.grids|
  {
    if s.grids[g].cells.Some? then |s.grids[g].cells.value| else 0
  }

  /** The subgrid in a cell, or NULL. */
  ghost function SubgridAt(s: Store, g: nat, i: nat): (c: int)
    requires g < |s.grids| && i < Cellular(s, g)
    ensures c == NULL || g < c < |s.grids|
  {
    if g < s.grids[g].cells.value[i].subgrid < |s.grids| then s.grids[g].cells.value[i].subgrid else NULL
  }

  lemma SubgridIsLinked(s: Store, g: nat, i: nat)
    requires s.Linked() && g < |s.grids| && i < Cellular(s, g)
    ensures SubgridAt(s, g, i) == s.grids[g].cells.value[i].subgrid
    ensures SubgridAt(s, g, i) != NULL ==> s.grids[SubgridAt(s, g, i)].parent == g && s.slots[SubgridAt(s, g, i)] == i
  {
    assert s.GridOk(g) && s.CellOk(g, i);
  }

  /** The leaf cells of g from its cell i on, depth first. */
  ghost function LeavesFrom(s: Store, g: nat, i: nat): seq<(nat, nat)>
    requires g < |s.grids|
    decreases |s.grids| - g, Cellular(s, g) - i
  {
    if i >= Cellular(s, g) then []
    else (if SubgridAt(s, g, i) != NULL then LeavesFrom(s, SubgridAt(s, g, i), 0) else [(g, i)]) + LeavesFrom(s, g, i + 1)
  }

  ghost predicate LeafPair(s: Store, leaf: (nat, nat)) {
    leaf.0 < |s.grids| && IsLeaf(s, leaf.0, leaf.1)
  }

  ghost function BoxOf(s: Store, leaf: (nat, nat)): Cube
    requires LeafPair(s, leaf)
  {
    Cells(s.grids[leaf.0].axes)[leaf.1]
  }

  ghost predicate AllLeaves(s: Store, g: nat, leaves: seq<(nat, nat)>) {
    forall j :: 0 <= j < |leaves| ==> LeafPair(s, leaves[j]) && Under(s, g, leaves[j].0)
  }

  lemma AllLeavesConcat(s: Store, g: nat, a: seq<(nat, nat)>, b: seq<(nat, nat)>)
    requires AllLeaves(s, g, a) && AllLeaves(s, g, b)
    ensures AllLeaves(s, g, a + b)
  {}

  lemma AllLeavesUp(s: Store, g: nat, c: nat, a: seq<(nat, nat)>)
    requires c < |s.grids| && 0 <= s.grids[c].parent < c && s.grids[c].parent == g && AllLeaves(s, c, a)
    ensures AllLeaves(s, g, a)
  {
    forall j | 0 <= j < |a| ensures Under(s, g, a[j].0) { UnderTransitive(s, g, c, a[j].0); }
  }

  /** Everything that the walk lists is a leaf of the hierarchy. */
  lemma {:induction false} ListedAreLeaves(s: Store, g: nat, i: nat)
    requires s.Linked() && g < |s.grids|
    ensures AllLeaves(s, g, LeavesFrom(s, g, i))
    decreases |s.grids| - g, Cellular(s, g) - i
  {
    if i < Cellular(s, g) {
      assert s.GridOk(g);
      SubgridIsLinked(s, g, i);
      ListedAreLeaves(s, g, i + 1);
      var c := SubgridAt(s, g, i);
      if c != NULL {
        ListedAreLeaves(s, c, 0);
        AllLeavesUp(s, g, c, LeavesFrom(s, c, 0));
        AllLeavesConcat(s, g, LeavesFrom(s, c, 0), LeavesFrom(s, g, i + 1));
      } else {
        assert AllLeaves(s, g, [(g, i)]);
        AllLeavesConcat(s, g, [(g, i)], LeavesFrom(s, g, i + 1));
      }
    }
  }

  /** Every leaf of an allocated part of the hierarchy is listed. */
  lemma {:induction false} LeavesAreListed(s: Store, g: nat, h: nat, i: nat, from: nat)
    requires s.Linked() && g <= h < |s.grids| && Under(s, g, h) && IsLeaf(s, h, i) && s.grids[h].cells.Some?
    requires h == g ==> from <= i
    requires h != g ==> var c := FirstChild(s, g, h); from <= s.slots[c]
    ensures (h, i) in LeavesFrom(s, g, from)
    decreases |s.grids| - g, Cellular(s, g) - from
  {
    if h == g {
      OwnLeaf(s, g, i);
      LaterLeaf(s, g, from, i, (h, i));
    } else {
      var c := FirstChild(s, g, h);
      ChildInSlot(s, c);
      UnderAtLeast(s, c, h);
      NonNegativeSlot(s, c, h);
      LeavesAreListed(s, c, h, i, 0);
      LeafOfSubgrid(s, g, s.slots[c], c, (h, i));
      LaterLeaf(s, g, from, s.slots[c], (h, i));
    }
  }

  lemma LeavesStep(s: Store, g: nat, i: nat) returns (first: seq<(nat, nat)>)
    requires g < |s.grids| && i < Cellular(s, g)
    ensures LeavesFrom(s, g, i) == first + LeavesFrom(s, g, i + 1)
  {
    first := if SubgridAt(s, g, i) != NULL then LeavesFrom(s, SubgridAt(s, g, i), 0) else [(g, i)];
  }

  lemma {:induction false} LaterLeaves(s: Store, g: nat, from: nat, i: nat) returns (front: seq<(nat, nat)>)
    requires g < |s.grids| && from <= i <= Cellular(s, g)
    ensures LeavesFrom(s, g, from) == front + LeavesFrom(s, g, i)
    decreases i - from
  {
    if from == i {
      front := [];
    } else {
      var first := LeavesStep(s, g, from);
      var more := LaterLeaves(s, g, from + 1, i);
      Associate(first, more, LeavesFrom(s, g, i));
      front := first + more;
    }
  }

  lemma Associate<T>(a: seq<T>, b: seq<T>, c: seq<T>)
    ensures a + (b + c) == (a + b) + c
  {}

  lemma LaterLeaf(s: Store, g: nat, from: nat, i: nat, leaf: (nat, nat))
    requires g < |s.grids| && from <= i <= Cellular(s, g) && leaf in LeavesFrom(s, g, i)
    ensures leaf in LeavesFrom(s, g, from)
  {
    var front := LaterLeaves(s, g, from, i);
    InBack(front, LeavesFrom(s, g, i), leaf);
  }

  lemma InBack<T>(a: seq<T>, b: seq<T>, x: T)
    requires x in b
    ensures x in a + b
  {}

  lemma LeafOfSubgrid(s: Store, g: nat, i: nat, c: nat, leaf: (nat, nat))
    requires g < |s.grids| && i < Cellular(s, g) && SubgridAt(s, g, i) == c && leaf in LeavesFrom(s, c, 0)
    ensures leaf in LeavesFrom(s, g, i)
  {
    assert LeavesFrom(s, g, i) == LeavesFrom(s, c, 0) + LeavesFrom(s, g, i + 1);
  }

  lemma OwnLeaf(s: Store, g: nat, i: nat)
    requires s.Linked() && g < |s.grids| && i < Cellular(s, g) && IsLeaf(s, g, i)
    ensures (g, i) in LeavesFrom(s, g, i)
  {
    SubgridIsLinked(s, g, i);
    assert LeavesFrom(s, g, i) == [(g, i)] + LeavesFrom(s, g, i + 1);
  }

  lemma ChildInSlot(s: Store, c: nat)
    requires s.Linked() && c < |s.grids| && s.grids[c].parent != NULL
    ensures var g := s.grids[c].parent; 0 <= g < c && 0 <= s.slots[c] < Cellular(s, g) && SubgridAt(s, g, s.slots[c]) == c
  {
    assert s.ParentOk(c);
  }

  lemma NonNegativeSlot(s: Store, g: nat, h: nat)
    requires s.Linked() && h < |s.grids| && Under(s, g, h)
    ensures h != g ==> 0 <= s.slots[FirstChild(s, g, h)]
  {
    if h != g { assert s.ParentOk(FirstChild(s, g, h)); }
  }

  /** The subgrid of g on the way down to h. */
  ghost function FirstChild(s: Store, g: nat, h: nat): (c: nat)
    requires s.Linked() && h < |s.grids| && Under(s, g, h) && h != g
    ensures c <= h && s.grids[c].parent == g < c && Under(s, c, h)
    decreases h
  {
    assert s.GridOk(h);
    if s.grids[h].parent == g then h else FirstChild(s, g, s.grids[h].parent)
  }

  // ----- the leaves tile the domain

  ghost function Boxes(s: Store, leaves: seq<(nat, nat)>): (cs: seq<Cube>)
    requires forall j :: 0 <= j < |leaves| ==> LeafPair(s, leaves[j])
    ensures |cs| == |leaves| && forall j :: 0 <= j < |leaves| ==> cs[j] == BoxOf(s, leaves[j])
  {
    seq(|leaves|, j requires 0 <= j < |leaves| => BoxOf(s, leaves[j]))
  }

  /** cs are disjoint, non-empty, and together the same points as ds. */
  ghost predicate Refines(cs: seq<Cube>, ds: seq<Cube>) {
    AllNonEmpty(cs) && PairwiseDisjoint(cs) && forall p :: Covers(cs, p) <==> Covers(ds, p)
  }

  lemma RefinesConcat(a: seq<Cube>, b: seq<Cube>, c: seq<Cube>, d: seq<Cube>)
    requires Refines(a, c) && Refines(b, d) && forall p :: !(Covers(c, p) && Covers(d, p))
    ensures Refines(a + b, c + d)
  {
    var ab := a + b;
    forall p ensures Covers(ab, p) <==> Covers(c + d, p) {
      CoversConcat(a, b, p);
      CoversConcat(c, d, p);
    }
    forall k | 0 <= k < |ab| ensures !IsEmptyCube(ab[k]) { assert ab[k] == if k < |a| then a[k] else b[k - |a|]; }
    forall i, j | 0 <= i < |ab| && 0 <= j < |ab| && i != j ensures !Overlapping(ab[i], ab[j]) {
      ConcatDisjoint(a, b, c, d, i, j);
    }
  }

  lemma ConcatDisjoint(a: seq<Cube>, b: seq<Cube>, c: seq<Cube>, d: seq<Cube>, i: nat, j: nat)
    requires Refines(a, c) && Refines(b, d) && forall p :: !(Covers(c, p) && Covers(d, p))
    requires i < |a + b| && j < |a + b| && i != j
    ensures !Overlapping((a + b)[i], (a + b)[j])
  {
    if i < |a| && j < |a| {
      assert !Overlapping(a[i], a[j]);
    } else if i >= |a| && j >= |a| {
      assert !Overlapping(b[i - |a|], b[j - |a|]);
    } else {
      var x, y := if i < |a| then i else j, (if i < |a| then j else i) - |a|;
      forall p ensures !(Contains(a[x], p) && Contains(b[y], p)) {
        if Contains(a[x], p) && Contains(b[y], p) { assert Covers(a, p) && Covers(b, p); }
      }
    }
  }

  lemma BoxesConcat(s: Store, a: seq<(nat, nat)>, b: seq<(nat, nat)>)
    requires forall j :: 0 <= j < |a| ==> LeafPair(s, a[j])
    requires forall j :: 0 <= j < |b| ==> LeafPair(s, b[j])
    ensures Boxes(s, a + b) == Boxes(s, a) + Boxes(s, b)
  {}

  lemma CellApart(axes: seq<Bounds>, i: nat)
    requires AxesOk(axes) && i < Prod(Intervals(axes))
    ensures Refines([Cells(axes)[i]], [Cells(axes)[i]])
    ensures forall p :: !(Covers([Cells(axes)[i]], p) && Covers(Cells(axes)[i + 1..], p))
    ensures [Cells(axes)[i]] + Cells(axes)[i + 1..] == Cells(axes)[i..]
  {
    CellIsNotEmpty(axes, i);
    var cs := Cells(axes);
    forall p ensures !(Covers([cs[i]], p) && Covers(cs[i + 1..], p)) { PointApart(axes, i, p); }
  }

  lemma PointApart(axes: seq<Bounds>, i: nat, p: Point)
    requires AxesOk(axes) && i < Prod(Intervals(axes))
    ensures !(Covers([Cells(axes)[i]], p) && Covers(Cells(axes)[i + 1..], p))
  {
    var cs := Cells(axes);
    forall k: nat | k < |cs| && k != i ensures !Overlapping(cs[i], cs[k]) { CellsDisjoint(axes, i, k); }
    ApartFromRest(cs, i, p);
  }

  lemma ApartFromRest(cs: seq<Cube>, i: nat, p: Point)
    requires i < |cs| && forall k: nat :: k < |cs| && k != i ==> !Overlapping(cs[i], cs[k])
    ensures !(Covers([cs[i]], p) && Covers(cs[i + 1..], p))
  {
    var tail := cs[i + 1..];
    forall k: nat | k < |tail| ensures !(Contains(cs[i], p) && Contains(tail[k], p)) {
      assert tail[k] == cs[i + 1 + k] && !Overlapping(cs[i], cs[i + 1 + k]);
    }
  }

  lemma SubgridCovers(s: Store, c: nat)
    requires s.Linked() && c < |s.grids| && s.grids[c].parent != NULL
    ensures s.ParentOk(c) && s.GridOk(c)
    ensures forall p :: Covers(Cells(s.grids[c].axes), p) <==> Covers([Cells(s.grids[s.grids[c].parent].axes)[s.slots[c]]], p)
  {
    assert s.ParentOk(c) && s.GridOk(c);
    CellsPartition(s.grids[c].axes);
    var x := Cells(s.grids[s.grids[c].parent].axes)[s.slots[c]];
    forall p ensures Covers([x], p) <==> Contains(x, p) { if Contains(x, p) { assert [x][0] == x; } }
  }

  ghost predicate FullyAllocated(s: Store, g: nat) {
    forall h: nat :: g <= h < |s.grids| && Under(s, g, h) ==> s.grids[h].cells.Some?
  }

  lemma AllocatedBelow(s: Store, g: nat, c: nat)
    requires FullyAllocated(s, g) && g < c < |s.grids| && s.grids[c].parent == g
    ensures FullyAllocated(s, c)
  {
    forall h: nat | c <= h < |s.grids| && Under(s, c, h) ensures s.grids[h].cells.Some? { UnderTransitive(s, g, c, h); }
  }

  lemma {:induction false} LeavesRefine(s: Store, g: nat, i: nat)
    requires s.Linked() && g < |s.grids| && AxesOk(s.grids[g].axes) && i <= Prod(Intervals(s.grids[g].axes)) && FullyAllocated(s, g)
    ensures AllLeaves(s, g, LeavesFrom(s, g, i)) && Refines(Boxes(s, LeavesFrom(s, g, i)), Cells(s.grids[g].axes)[i..])
    decreases |s.grids| - g, Cellular(s, g) - i
  {
    assert s.GridOk(g) && Under(s, g, g);
    ListedAreLeaves(s, g, i);
    var axes := s.grids[g].axes;
    if i < Cellular(s, g) {
      LeavesRefine(s, g, i + 1);
      CellApart(axes, i);
      SubgridIsLinked(s, g, i);
      var c, rest := SubgridAt(s, g, i), LeavesFrom(s, g, i + 1);
      if c != NULL {
        AllocatedBelow(s, g, c);
        SubgridCovers(s, c);
        LeavesRefine(s, c, 0);
        assert Cells(s.grids[c].axes)[0..] == Cells(s.grids[c].axes);
        BoxesConcat(s, LeavesFrom(s, c, 0), rest);
        RefinesConcat(Boxes(s, LeavesFrom(s, c, 0)), Boxes(s, rest), [Cells(axes)[i]], Cells(axes)[i + 1..]);
      } else {
        BoxesConcat(s, [(g, i)], rest);
        assert Boxes(s, [(g, i)]) == [Cells(axes)[i]];
        RefinesConcat([Cells(axes)[i]], Boxes(s, rest), [Cells(axes)[i]], Cells(axes)[i + 1..]);
      }
    }
  }

  /** The leaves of a hierarchy partition the domain of its grid. */
  lemma LeavesPartition(s: Store, g: nat)
    requires s.Linked() && g < |s.grids| && AxesOk(s.grids[g].axes) && FullyAllocated(s, g)
    ensures AllLeaves(s, g, LeavesFrom(s, g, 0)) && Partition(Boxes(s, LeavesFrom(s, g, 0)), Domain(s.grids[g].axes))
  {
    var axes := s.grids[g].axes;
    ProdPositive(Intervals(axes));
    LeavesRefine(s, g, 0);
    CellsPartition(axes);
    assert Cells(axes)[0..] == Cells(axes);
  }

  // ----- the depth-first iteration

  /** A level of the iteration: the cell of the grid that was visited last, -1 before the first. */
  datatype Frame = Frame(grid: nat, lastIndex: int, cellCount: int)

  ghost predicate FrameOk(s: Store, f: Frame) {
    f.grid < |s.grids| && FullyAllocated(s, f.grid) && f.cellCount == Cellular(s, f.grid) && -1 <= f.lastIndex < f.cellCount
  }

  ghost predicate StackOk(s: Store, stack: seq<Frame>) {
    forall j :: 0 <= j < |stack| ==> FrameOk(s, stack[j])
  }

  /** The leaves that the iteration has not delivered yet. */
  ghost function Remaining(s: Store, stack: seq<Frame>): seq<(nat, nat)>
    requires StackOk(s, stack)
  {
    if stack == [] then []
    else
      var top := stack[|stack| - 1];
      assert FrameOk(s, top);
      LeavesFrom(s, top.grid, top.lastIndex + 1) + Remaining(s, stack[..|stack| - 1])
  }

  /** The number of moves left on a level: visits of cells, the moves in their subgrids, and the way up. */
  ghost function MovesFrom(s: Store, g: nat, i: nat): nat
    requires g < |s.grids|
    decreases |s.grids| - g, Cellular(s, g) - i
  {
    if i >= Cellular(s, g) then 1
    else 1 + (if SubgridAt(s, g, i) != NULL then MovesFrom(s, SubgridAt(s, g, i), 0) else 0) + MovesFrom(s, g, i + 1)
  }

  ghost function Moves(s: Store, stack: seq<Frame>): nat
    requires StackOk(s, stack)
  {
    if stack == [] then 0
    else
      var top := stack[|stack| - 1];
      assert FrameOk(s, top);
      MovesFrom(s, top.grid, top.lastIndex + 1) + Moves(s, stack[..|stack| - 1])
  }

  lemma Unpushed(s: Store, stack: seq<Frame>, f: Frame)
    requires StackOk(s, stack) && FrameOk(s, f)
    ensures StackOk(s, stack + [f])
    ensures Remaining(s, stack + [f]) == LeavesFrom(s, f.grid, f.lastIndex + 1) + Remaining(s, stack)
    ensures Moves(s, stack + [f]) == MovesFrom(s, f.grid, f.lastIndex + 1) + Moves(s, stack)
  {
    assert (stack + [f])[..|stack|] == stack;
  }

  lemma PushedOk(s: Store, f: Frame, i: nat)
    requires s.Linked() && FrameOk(s, f) && i < f.cellCount
    ensures var c := SubgridAt(s, f.grid, i);
      c == s.grids[f.grid].cells.value[i].subgrid && (c != NULL ==> FrameOk(s, Frame(c, -1, Cellular(s, c))))
  {
    SubgridIsLinked(s, f.grid, i);
    var c := SubgridAt(s, f.grid, i);
    if c != NULL { AllocatedBelow(s, f.grid, c); }
  }

  /** Starts an iteration; refused while the grid has empty cells. */
  method IteratorCreate(store: GridStore, g: nat) returns (stack: Option<seq<Frame>>)
    requires store.Value().Inv() && g < |store.grids|
    ensures stack.Some? <==> store.grids[g].emptyCells == 0
    ensures stack.Some? && store.grids[g].cells.Some? ==> StackOk(store.Value(), stack.value) && Remaining(store.Value(), stack.value) == LeavesFrom(store.Value(), g, 0)
  {
    if store.grids[g].emptyCells != 0 { return None; }
    ghost var s := store.Value();
    assert s.GridOk(g);
    var n := CellCount(store.grids[g].axes);
    stack := Some([Frame(g, -1, n)]);
    if s.grids[g].cells.Some? {
      CompleteIsAllocated(s, g);
      assert [] + [Frame(g, -1, n)] == [Frame(g, -1, n)];
      Unpushed(s, [], Frame(g, -1, n));
    }
  }

  lemma CompleteIsAllocated(s: Store, g: nat)
    requires s.Inv() && g < |s.grids| && s.grids[g].IsComplete()
    ensures FullyAllocated(s, g)
  {
    forall h: nat | g <= h < |s.grids| && Under(s, g, h) ensures s.grids[h].cells.Some? {
      GridAccess.CompleteMeansFilled(s, g, h);
    }
  }

  ghost function Current(stack: seq<Frame>): (nat, nat)
    requires stack != [] && stack[|stack| - 1].lastIndex >= 0
  {
    (stack[|stack| - 1].grid, stack[|stack| - 1].lastIndex)
  }

  /** One move: to the next cell of the level, into the subgrid of that cell, or up from a level that is done. */
  ghost function Moved(s: Store, below: seq<Frame>, top: Frame): (seq<Frame>, bool)
    requires FrameOk(s, top)
  {
    var i := top.lastIndex + 1;
    if i >= top.cellCount then (below, false)
    else
      var c := SubgridAt(s, top.grid, i);
      if c == NULL then (below + [top.(lastIndex := i)], true)
      else (below + [top.(lastIndex := i)] + [Frame(c, -1, Cellular(s, c))], false)
  }

  /** A move reaches the next leaf, or changes nothing about the leaves to come; either way fewer moves are left. */
  ghost predicate Progress(s: Store, stack: seq<Frame>, r: (seq<Frame>, bool)) {
    && StackOk(s, stack) && StackOk(s, r.0) && Moves(s, r.0) < Moves(s, stack)
    && (if r.1 then r.0 != [] && r.0[|r.0| - 1].lastIndex >= 0 && Remaining(s, stack) == [Current(r.0)] + Remaining(s, r.0)
        else Remaining(s, r.0) == Remaining(s, stack))
  }

  lemma MovedUp(s: Store, below: seq<Frame>, top: Frame)
    requires StackOk(s, below) && FrameOk(s, top) && top.lastIndex + 1 >= top.cellCount
    ensures Progress(s, below + [top], (below, false))
  {
    Unpushed(s, below, top);
  }

  lemma MovedOn(s: Store, below: seq<Frame>, top: Frame)
    requires StackOk(s, below) && FrameOk(s, top) && top.lastIndex + 1 < top.cellCount
    requires SubgridAt(s, top.grid, top.lastIndex + 1) == NULL
    ensures Progress(s, below + [top], (below + [top.(lastIndex := top.lastIndex + 1)], true))
  {
    var next := top.(lastIndex := top.lastIndex + 1);
    Unpushed(s, below, top);
    Unpushed(s, below, next);
    var leaf, b := (top.grid, next.lastIndex), LeavesFrom(s, top.grid, next.lastIndex + 1);
    assert LeavesFrom(s, top.grid, next.lastIndex) == [leaf] + b;
    assert MovesFrom(s, top.grid, next.lastIndex) == 1 + MovesFrom(s, top.grid, next.lastIndex + 1);
    LeafReached(s, below + [top], below + [next], leaf, b, Remaining(s, below));
  }

  lemma LeafReached(s: Store, stack: seq<Frame>, next: seq<Frame>, leaf: (nat, nat), b: seq<(nat, nat)>, r: seq<(nat, nat)>)
    requires StackOk(s, stack) && StackOk(s, next) && Moves(s, next) < Moves(s, stack)
    requires next != [] && next[|next| - 1].lastIndex >= 0 && leaf == Current(next)
    requires Remaining(s, stack) == ([leaf] + b) + r && Remaining(s, next) == b + r
    ensures Progress(s, stack, (next, true))
  {
    Associate([leaf], b, r);
  }

  lemma MovedDown(s: Store, below: seq<Frame>, top: Frame, c: nat)
    requires StackOk(s, below) && FrameOk(s, top) && top.lastIndex + 1 < top.cellCount
    requires SubgridAt(s, top.grid, top.lastIndex + 1) == c && FrameOk(s, Frame(c, -1, Cellular(s, c)))
    ensures Progress(s, below + [top], (below + [top.(lastIndex := top.lastIndex + 1)] + [Frame(c, -1, Cellular(s, c))], false))
  {
    var next, sub := top.(lastIndex := top.lastIndex + 1), Frame(c, -1, Cellular(s, c));
    Unpushed(s, below, top);
    Unpushed(s, below, next);
    Unpushed(s, below + [next], sub);
    var a, b := LeavesFrom(s, c, 0), LeavesFrom(s, top.grid, top.lastIndex + 2);
    assert LeavesFrom(s, top.grid, top.lastIndex + 1) == a + b;
    assert MovesFrom(s, top.grid, top.lastIndex + 1) == 1 + MovesFrom(s, c, 0) + MovesFrom(s, top.grid, top.lastIndex + 2);
    MovesOn(s, below + [top], below + [next] + [sub], a, b, Remaining(s, below));
  }

  lemma MovesOn(s: Store, stack: seq<Frame>, next: seq<Frame>, a: seq<(nat, nat)>, b: seq<(nat, nat)>, r: seq<(nat, nat)>)
    requires StackOk(s, stack) && StackOk(s, next) && Moves(s, next) < Moves(s, stack)
    requires Remaining(s, stack) == (a + b) + r && Remaining(s, next) == a + (b + r)
    ensures Progress(s, stack, (next, false))
  {
    assert (a + b) + r == a + (b + r);
  }

  method Move(store: GridStore, stack: seq<Frame>) returns (next: seq<Frame>, atLeaf: bool)
    requires store.Value().Linked() && stack != [] && FrameOk(store.Value(), stack[|stack| - 1])
    ensures (next, atLeaf) == Moved(store.Value(), stack[..|stack| - 1], stack[|stack| - 1])
  {
    ghost var s := store.Value();
    var below, top := stack[..|stack| - 1], stack[|stack| - 1];
    var i := top.lastIndex + 1;
    if i >= top.cellCount { return below, false; }
    PushedOk(s, top, i);
    var c := store.grids[top.grid].cells.value[i].subgrid;
    next := below + [top.(lastIndex := i)];
    if c == NULL { return next, true; }
    assert s.GridOk(c) && Under(s, c, c);
    var n := CellCount(store.grids[c].axes);
    next, atLeaf := next + [Frame(c, -1, n)], false;
  }

  lemma MovedProgress(s: Store, stack: seq<Frame>)
    requires s.Linked() && StackOk(s, stack) && stack != [] && FrameOk(s, stack[|stack| - 1])
    ensures Progress(s, stack, Moved(s, stack[..|stack| - 1], stack[|stack| - 1]))
  {
    var below, top := stack[..|stack| - 1], stack[|stack| - 1];
    assert stack == below + [top];
    if top.lastIndex + 1 >= top.cellCount {
      MovedUp(s, below, top);
    } else {
      PushedOk(s, top, top.lastIndex + 1);
      var c := SubgridAt(s, top.grid, top.lastIndex + 1);
      if c == NULL { MovedOn(s, below, top); } else { MovedDown(s, below, top, c); }
    }
  }

  /** n of the leaves have been delivered, the last of them by the latest move. */
  ghost predicate Delivered(s: Store, stack: seq<Frame>, all: seq<(nat, nat)>, n: nat) {
    StackOk(s, stack) && n <= |all| && Remaining(s, stack) == all[n..]
  }

  ghost predicate AtLeaf(stack: seq<Frame>, all: seq<(nat, nat)>, n: nat) {
    stack != [] && stack[|stack| - 1].lastIndex >= 0 && 1 <= n <= |all| && Current(stack) == all[n - 1]
  }

  lemma MoveDelivers(s: Store, stack: seq<Frame>, all: seq<(nat, nat)>, n: nat, r: (seq<Frame>, bool))
    requires Delivered(s, stack, all, n) && Progress(s, stack, r)
    ensures Delivered(s, r.0, all, if r.1 then n + 1 else n) && (r.1 ==> AtLeaf(r.0, all, n + 1))
  {
    if r.1 {
      assert all[n..][0] == Current(r.0);
      assert all[n + 1..] == all[n..][1..];
    }
  }

  method NextMove(store: GridStore, stack: seq<Frame>, ghost all: seq<(nat, nat)>, ghost n: nat) returns (next: seq<Frame>, atLeaf: bool)
    requires store.Value().Linked() && stack != [] && Delivered(store.Value(), stack, all, n)
    ensures Delivered(store.Value(), next, all, if atLeaf then n + 1 else n) && (atLeaf ==> AtLeaf(next, all, n + 1))
    ensures Moves(store.Value(), next) < Moves(store.Value(), stack)
  {
    MovedProgress(store.Value(), stack);
    next, atLeaf := Move(store, stack);
    MoveDelivers(store.Value(), stack, all, n, (next, atLeaf));
  }

  /** What holds while moving on by a number of leaves, with some of them left. */
  ghost predicate MovingOn(s: Store, stack: seq<Frame>, all: seq<(nat, nat)>, increment: nat, left: int) {
    0 <= left <= increment && Delivered(s, stack, all, increment - left) && (left < increment && left == 0 ==> AtLeaf(stack, all, increment))
  }

  method MoveOnce(store: GridStore, stack: seq<Frame>, ghost all: seq<(nat, nat)>, ghost increment: nat, left: nat) returns (next: seq<Frame>, rest: nat)
    requires store.Value().Linked() && stack != [] && left > 0 && MovingOn(store.Value(), stack, all, increment, left)
    ensures MovingOn(store.Value(), next, all, increment, rest) && Moves(store.Value(), next) < Moves(store.Value(), stack)
  {
    var atLeaf;
    next, atLeaf := NextMove(store, stack, all, increment - left);
    rest := if atLeaf then left - 1 else left;
  }

  method MoveOn(store: GridStore, start: seq<Frame>, ghost all: seq<(nat, nat)>, increment: nat) returns (stack: seq<Frame>, ghost left: nat)
    requires store.Value().Linked() && MovingOn(store.Value(), start, all, increment, increment)
    ensures MovingOn(store.Value(), stack, all, increment, left) && (left == 0 || stack == []) && (increment == 0 ==> stack == start)
  {
    var todo := increment;
    stack := start;
    while todo > 0 && stack != []
      invariant MovingOn(store.Value(), stack, all, increment, todo) && (increment == 0 ==> stack == start)
      decreases Moves(store.Value(), stack)
    {
      stack, todo := MoveOnce(store, stack, all, increment, todo);
    }
    left := todo;
  }

  /** Moves on by a number of leaves. The iteration delivers the leaves in order, and ends behind the last one. */
  method Advance(store: GridStore, start: seq<Frame>, increment: nat) returns (stack: seq<Frame>)
    requires store.Value().Linked() && StackOk(store.Value(), start)
    ensures increment == 0 ==> stack == start
    ensures increment >= 1 ==> (stack == [] <==> increment > |Remaining(store.Value(), start)|)
    ensures stack != [] ==> Delivered(store.Value(), stack, Remaining(store.Value(), start), increment)
    ensures stack != [] && increment >= 1 ==> AtLeaf(stack, Remaining(store.Value(), start), increment)
  {
    ghost var all := Remaining(store.Value(), start);
    ghost var left;
    stack, left := MoveOn(store, start, all, increment);
    if increment >= 1 { Outcome(store.Value(), stack, all, increment, left); }
  }

  lemma Outcome(s: Store, stack: seq<Frame>, all: seq<(nat, nat)>, increment: nat, left: nat)
    requires left <= increment && Delivered(s, stack, all, increment - left) && (left == 0 || stack == [])
    requires left == 0 ==> AtLeaf(stack, all, increment)
    ensures stack == [] <==> increment > |all|
  {
    if stack == [] { assert Remaining(s, stack) == []; }
  }

  /** Moving on one leaf at a time reaches the same leaf, with the same leaves to come, as moving on by all of them at once. */
  method AdvanceOneByOne(store: GridStore, start: seq<Frame>, count: nat) returns (stack: seq<Frame>)
    requires store.Value().Linked() && StackOk(store.Value(), start) && start != [] && count >= 1
    ensures stack == [] <==> count > |Remaining(store.Value(), start)|
    ensures stack != [] ==> Delivered(store.Value(), stack, Remaining(store.Value(), start), count)
    ensures stack != [] ==> AtLeaf(stack, Remaining(store.Value(), start), count)
  {
    ghost var s := store.Value();
    ghost var all := Remaining(s, start);
    stack := start;
    var i := 0;
    while i < count && stack != []
      invariant 0 <= i <= count && (stack == [] ==> i > |all|)
      invariant stack != [] ==> Delivered(s, stack, all, i) && (i > 0 ==> AtLeaf(stack, all, i))
    {
      ghost var before := stack;
      stack := Advance(store, stack, 1);
      Compose(s, before, stack, all, i);
      i := i + 1;
    }
  }

  lemma Compose(s: Store, before: seq<Frame>, after: seq<Frame>, all: seq<(nat, nat)>, i: nat)
    requires Delivered(s, before, all, i) && (after == [] <==> 1 > |Remaining(s, before)|)
    requires after != [] ==> Delivered(s, after, Remaining(s, before), 1) && AtLeaf(after, Remaining(s, before), 1)
    ensures after == [] ==> i + 1 > |all|
    ensures after != [] ==> Delivered(s, after, all, i + 1) && AtLeaf(after, all, i + 1)
  {
    var rest := Remaining(s, before);
    assert rest == all[i..];
    if after != [] { assert rest[1..] == all[i + 1..] && rest[0] == all[i]; }
  }

  /** The extents of the cell that the iteration has reached. */
  method CurrentCell(store: GridStore, stack: seq<Frame>) returns (box: Option<Cube>)
    requires store.Value().Linked() && StackOk(store.Value(), stack) && stack != [] && stack[|stack| - 1].lastIndex >= 0
    ensures box.Some? && store.Value().GridOk(stack[|stack| - 1].grid)
    ensures box.value == Cells(store.grids[stack[|stack| - 1].grid].axes)[stack[|stack| - 1].lastIndex]
  {
    var top := stack[|stack| - 1];
    assert FrameOk(store.Value(), top) && store.Value().GridOk(top.grid) && Under(store.Value(), top.grid, top.grid);
    var axes := store.grids[top.grid].axes;
    var index := IndexCoordinates(axes, top.lastIndex);
    CellWithNumber(axes, index);
    box := CellSize(axes, index);
  }

  /** The iteration from the start lists every leaf of the hierarchy exactly once, and nothing else. */
  lemma WalkIsExact(s: Store, g: nat)
    requires s.Linked() && g < |s.grids| && FullyAllocated(s, g)
    ensures AllLeaves(s, g, LeavesFrom(s, g, 0))
    ensures forall h: nat, i: nat :: g <= h < |s.grids| && Under(s, g, h) && IsLeaf(s, h, i) ==> (h, i) in LeavesFrom(s, g, 0)
    ensures forall j, k :: 0 <= j < k < |LeavesFrom(s, g, 0)| ==> LeavesFrom(s, g, 0)[j] != LeavesFrom(s, g, 0)[k]
  {
    assert s.GridOk(g);
    LeavesPartition(s, g);
    var leaves := LeavesFrom(s, g, 0);
    forall h: nat, i: nat | g <= h < |s.grids| && Under(s, g, h) && IsLeaf(s, h, i) ensures (h, i) in leaves {
      NonNegativeSlot(s, g, h);
      LeavesAreListed(s, g, h, i, 0);
    }
    forall j, k | 0 <= j < k < |leaves| ensures leaves[j] != leaves[k] { DistinctLeaves(s, leaves, j, k); }
  }

  lemma DistinctLeaves(s: Store, leaves: seq<(nat, nat)>, j: nat, k: nat)
    requires (forall l :: 0 <= l < |leaves| ==> LeafPair(s, leaves[l])) && j < k < |leaves|
    requires AllNonEmpty(Boxes(s, leaves)) && PairwiseDisjoint(Boxes(s, leaves))
    ensures leaves[j] != leaves[k]
  {
    var cs := Boxes(s, leaves);
    assert Contains(cs[j], Corner(cs[j]));
    assert !Overlapping(cs[j], cs[k]);
  }

  // ----- the order of the iteration

  /** The cells on the way from grid g down to leaf (h, i). */
  ghost function Way(s: Store, g: nat, h: nat): (w: seq<int>)
    requires h < |s.grids| == |s.slots|
    decreases h
  {
    if h != g && 0 <= s.grids[h].parent < h then Way(s, g, s.grids[h].parent) + [s.slots[h]] else []
  }

  ghost function WayTo(s: Store, g: nat, leaf: (nat, nat)): seq<int>
    requires leaf.0 < |s.grids| == |s.slots|
  {
    Way(s, g, leaf.0) + [leaf.1]
  }

  /** a comes before b: it is smaller at the first place where they differ. */
  ghost predicate Earlier(a: seq<int>, b: seq<int>) {
    a != [] && b != [] && (a[0] < b[0] || (a[0] == b[0] && Earlier(a[1..], b[1..])))
  }

  lemma {:induction false} WayThrough(s: Store, g: nat, c: nat, h: nat)
    requires s.Linked() && c < |s.grids| && s.grids[c].parent == g < c && h < |s.grids| && Under(s, c, h) && g != h
    ensures Way(s, g, h) == [s.slots[c]] + Way(s, c, h)
    decreases h
  {
    if h == c {
      assert Way(s, g, g) == [] && [] + [s.slots[c]] == [s.slots[c]] + [];
    } else {
      var p := s.grids[h].parent;
      UnderAtLeast(s, c, p);
      WayThrough(s, g, c, p);
      Associate([s.slots[c]], Way(s, c, p), [s.slots[h]]);
    }
  }

  /** All leaves are listed in order, and start in cell i or a later one. */
  ghost predicate ListedInOrder(s: Store, g: nat, leaves: seq<(nat, nat)>, i: int) {
    && |s.slots| == |s.grids|
    && (forall j :: 0 <= j < |leaves| ==> leaves[j].0 < |s.grids| && WayTo(s, g, leaves[j])[0] >= i)
    && (forall j, k :: 0 <= j < k < |leaves| ==> Earlier(WayTo(s, g, leaves[j]), WayTo(s, g, leaves[k])))
  }

  lemma InOrderConcat(s: Store, g: nat, a: seq<(nat, nat)>, b: seq<(nat, nat)>, i: int)
    requires ListedInOrder(s, g, a, i) && ListedInOrder(s, g, b, i + 1) && forall j :: 0 <= j < |a| ==> WayTo(s, g, a[j])[0] == i
    ensures ListedInOrder(s, g, a + b, i)
  {
    var c := a + b;
    forall j | 0 <= j < |c| ensures c[j].0 < |s.grids| && WayTo(s, g, c[j])[0] >= i { assert c[j] == if j < |a| then a[j] else b[j - |a|]; }
    forall j, k | 0 <= j < k < |c| ensures Earlier(WayTo(s, g, c[j]), WayTo(s, g, c[k])) {
      assert c[j] == (if j < |a| then a[j] else b[j - |a|]) && c[k] == if k < |a| then a[k] else b[k - |a|];
    }
  }

  /** The leaves of a subgrid, seen from its parent. */
  lemma InOrderUp(s: Store, g: nat, c: nat, leaves: seq<(nat, nat)>)
    requires s.Linked() && c < |s.grids| && s.grids[c].parent == g < c && AllLeaves(s, c, leaves) && ListedInOrder(s, c, leaves, 0)
    ensures ListedInOrder(s, g, leaves, s.slots[c]) && forall j :: 0 <= j < |leaves| ==> WayTo(s, g, leaves[j])[0] == s.slots[c]
  {
    forall j | 0 <= j < |leaves| ensures WayTo(s, g, leaves[j]) == [s.slots[c]] + WayTo(s, c, leaves[j]) {
      UnderAtLeast(s, c, leaves[j].0);
      WayThrough(s, g, c, leaves[j].0);
      Associate([s.slots[c]], Way(s, c, leaves[j].0), [leaves[j].1 as int]);
    }
    forall j, k | 0 <= j < k < |leaves| ensures Earlier(WayTo(s, g, leaves[j]), WayTo(s, g, leaves[k])) {
      assert WayTo(s, g, leaves[j])[1..] == WayTo(s, c, leaves[j]) && WayTo(s, g, leaves[k])[1..] == WayTo(s, c, leaves[k]);
    }
  }

  lemma {:induction false} LeavesInOrder(s: Store, g: nat, i: nat)
    requires s.Linked() && g < |s.grids|
    ensures ListedInOrder(s, g, LeavesFrom(s, g, i), i)
    decreases |s.grids| - g, Cellular(s, g) - i
  {
    if i < Cellular(s, g) {
      SubgridIsLinked(s, g, i);
      LeavesInOrder(s, g, i + 1);
      var c := SubgridAt(s, g, i);
      if c != NULL {
        LeavesInOrder(s, c, 0);
        ListedAreLeaves(s, c, 0);
        InOrderUp(s, g, c, LeavesFrom(s, c, 0));
        InOrderConcat(s, g, LeavesFrom(s, c, 0), LeavesFrom(s, g, i + 1), i);
      } else {
        assert WayTo(s, g, (g, i)) == [i];
        InOrderConcat(s, g, [(g, i)], LeavesFrom(s, g, i + 1), i);
      }
    }
  }

  /** The iteration lists the leaves depth first: ordered by the cells on the way down to them. */
  lemma WalkIsOrdered(s: Store, g: nat, j: nat, k: nat)
    requires s.Linked() && g < |s.grids| && j < k < |LeavesFrom(s, g, 0)|
    ensures LeavesFrom(s, g, 0)[j].0 < |s.grids| && LeavesFrom(s, g, 0)[k].0 < |s.grids|
    ensures Earlier(WayTo(s, g, LeavesFrom(s, g, 0)[j]), WayTo(s, g, LeavesFrom(s, g, 0)[k]))
  {
    LeavesInOrder(s, g, 0);
  }

  /** The test that admits an iteration accepts complete grids, and also grids whose cells were never allocated. */
  lemma IteratorTest(s: Store, g: nat)
    requires s.Inv() && g < |s.grids|
    ensures s.grids[g].emptyCells == 0 <==> s.grids[g].IsComplete() || s.grids[g].cells.None?
  {
    assert s.CountOk(g, NULL);
  }

  /** Any new grid passes the test, although it has no cells and no data. */
  method NewGridIsAdmitted(store: GridStore, offset: seq<int>, size: seq<int>) returns (g: nat, stack: Option<seq<Frame>>)
    requires store.Value().Inv() && |offset| == |size| && AllPositive(size)
    modifies store
    ensures g < |store.grids| && store.grids[g].cells.None? && !store.grids[g].IsComplete() && stack.Some?
  {
    g := GridAccess.CreateGrid(store, offset, size);
    stack := IteratorCreate(store, g);
  }
}
