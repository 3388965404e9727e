/** The grid hierarchy of a dataset: grids whose cells hold fragments or subgrids, and the counting of completed cells. */
module Grids {
  import opened Options
  import opened MixedRadix
  import opened Geometry
  import opened Axes
  import opened GridCells

  const NULL := -1

  /** A cell refers to a subgrid, to a fragment, or to nothing. */
  datatype Cell = Cell(subgrid: int, fragment: int)

  const EMPTY := Cell(NULL, NULL)

  datatype Grid = Grid(axes: seq<Bounds>, parent: int, isFixed: bool, emptyCells: int, cells: Option<seq<Cell>>) {
    predicate IsComplete() { cells.Some? && emptyCells == 0 }
  }

  /** grids are numbered in the order of their creation; order lists the top-level grids, the complete ones first;
      fragments holds the extents of the dataset's fragments; slots[g] is the cell of the parent that refers to g. */
  datatype Store = Store(grids: seq<Grid>, slots: seq<int>, order: seq<int>, complete: int, fragments: seq<Cube>) {

    /** Cell i of grid g refers to a later grid that refers back, or to a fragment of its own extents, not to both. */
    ghost predicate CellOk(g: nat, i: nat)
      requires g < |grids| && grids[g].cells.Some? && i < |grids[g].cells.value| && AxesOk(grids[g].axes)
    {
      var cell := grids[g].cells.value[i];
      && cell.subgrid >= NULL && cell.fragment >= NULL && (cell.subgrid == NULL || cell.fragment == NULL)
      && i < Prod(Intervals(grids[g].axes))
      && (cell.subgrid != NULL ==> g < cell.subgrid < |grids| && |slots| == |grids| && grids[cell.subgrid].parent == g && slots[cell.subgrid] == i)
      && (cell.fragment != NULL ==> cell.fragment < |fragments| && fragments[cell.fragment] == Cells(grids[g].axes)[i])
    }

    ghost predicate GridOk(g: nat)
      requires g < |grids|
    {
      && AxesOk(grids[g].axes) && NULL <= grids[g].parent < g
      && (grids[g].cells.Some? ==>
            |grids[g].cells.value| == Prod(Intervals(grids[g].axes)) && forall i :: 0 <= i < |grids[g].cells.value| ==> CellOk(g, i))
    }

    /** A subgrid is in the cell of its parent that it was made for. */
    ghost predicate ParentOk(g: nat)
      requires g < |grids|
    {
      var p := grids[g].parent;
      p != NULL ==>
        && AxesOk(grids[g].axes) && 0 <= p < g && |slots| == |grids| && grids[p].cells.Some? && AxesOk(grids[p].axes)
        && 0 <= slots[g] < |grids[p].cells.value| && slots[g] < Prod(Intervals(grids[p].axes))
        && grids[p].cells.value[slots[g]].subgrid == g
        && Domain(grids[g].axes) == Cells(grids[p].axes)[slots[g]]
    }

    ghost predicate Linked() {
      && |slots| == |grids|
      && (forall g :: 0 <= g < |grids| ==> GridOk(g))
      && (forall g :: 0 <= g < |grids| ==> ParentOk(g))
    }

    // ----- completion

    /** The cell still lacks data. */
    predicate IsOpen(cell: Cell) {
      cell.fragment == NULL && !(0 <= cell.subgrid < |grids| && grids[cell.subgrid].IsComplete())
    }

    function CountOpen(cells: seq<Cell>): nat {
      if cells == [] then 0 else CountOpen(cells[..|cells| - 1]) + if IsOpen(cells[|cells| - 1]) then 1 else 0
    }

    /** emptyCells counts the open cells; in grid hole it still counts one that has just been closed. */
    ghost predicate CountOk(g: nat, hole: int)
      requires g < |grids|
    {
      if grids[g].cells.Some? then grids[g].emptyCells == CountOpen(grids[g].cells.value) + if g == hole then 1 else 0
      else grids[g].emptyCells == 0
    }

    ghost predicate Counted(hole: int) {
      forall g :: 0 <= g < |grids| ==> CountOk(g, hole)
    }

    /** order lists each top-level grid once, exactly the complete ones before position complete. */
    ghost predicate Registered() {
      && 0 <= complete <= |order|
      && (forall j :: 0 <= j < |order| ==> 0 <= order[j] < |grids| && grids[order[j]].parent == NULL)
      && (forall j :: 0 <= j < |order| ==> (j < complete <==> grids[order[j]].IsComplete()))
      && (forall j, k :: 0 <= j < k < |order| ==> order[j] != order[k])
      && (forall g :: 0 <= g < |grids| && grids[g].parent == NULL ==> g in order)
    }

    ghost predicate Inv() { Linked() && Counted(NULL) && Registered() }
  }

  lemma {:induction false} CountSame(s: Store, t: Store, cells: seq<Cell>)
    requires forall i :: 0 <= i < |cells| ==> s.IsOpen(cells[i]) == t.IsOpen(cells[i])
    ensures s.CountOpen(cells) == t.CountOpen(cells)
  {
    if cells != [] { CountSame(s, t, cells[..|cells| - 1]); }
  }

  /** Closing one cell lowers the count by one. */
  lemma {:induction false} CountClosed(s: Store, t: Store, before: seq<Cell>, after: seq<Cell>, i: nat)
    requires i < |before| == |after| && s.IsOpen(before[i]) && !t.IsOpen(after[i])
    requires forall j :: 0 <= j < |before| && j != i ==> s.IsOpen(before[j]) == t.IsOpen(after[j])
    ensures s.CountOpen(before) == t.CountOpen(after) + 1
  {
    var l := |before| - 1;
    if i == l {
      CountPointwise(s, t, before[..l], after[..l]);
    } else {
      CountClosed(s, t, before[..l], after[..l], i);
    }
  }

  lemma {:induction false} CountPointwise(s: Store, t: Store, before: seq<Cell>, after: seq<Cell>)
    requires |before| == |after| && forall j :: 0 <= j < |before| ==> s.IsOpen(before[j]) == t.IsOpen(after[j])
    ensures s.CountOpen(before) == t.CountOpen(after)
  {
    if before != [] { CountPointwise(s, t, before[..|before| - 1], after[..|before| - 1]); }
  }

  lemma {:induction false} CountAllOpen(s: Store, cells: seq<Cell>)
    requires forall i :: 0 <= i < |cells| ==> cells[i] == EMPTY
    ensures s.CountOpen(cells) == |cells|
  {
    if cells != [] { CountAllOpen(s, cells[..|cells| - 1]); }
  }

  lemma {:induction false} CountPositive(s: Store, cells: seq<Cell>, i: nat)
    requires i < |cells| && s.IsOpen(cells[i])
    ensures s.CountOpen(cells) >= 1
  {
    if i < |cells| - 1 { CountPositive(s, cells[..|cells| - 1], i); }
  }

  lemma {:induction false} CountZero(s: Store, cells: seq<Cell>)
    ensures s.CountOpen(cells) == 0 <==> forall i :: 0 <= i < |cells| ==> !s.IsOpen(cells[i])
  {
    if cells != [] {
      CountZero(s, cells[..|cells| - 1]);
      assert forall i :: 0 <= i < |cells| - 1 ==> cells[..|cells| - 1][i] == cells[i];
    }
  }

  // ----- changing only the counters

  ghost predicate SameButCounters(s: Store, t: Store) {
    && |t.grids| == |s.grids| && t.slots == s.slots && t.fragments == s.fragments
    && forall g :: 0 <= g < |s.grids| ==> t.grids[g] == s.grids[g].(emptyCells := t.grids[g].emptyCells)
  }

  lemma LinkedDespiteCounters(s: Store, t: Store)
    requires s.Linked() && SameButCounters(s, t)
    ensures t.Linked()
  {
    forall g | 0 <= g < |t.grids| ensures t.GridOk(g) {
      assert s.GridOk(g);
      if t.grids[g].cells.Some? {
        forall i | 0 <= i < |t.grids[g].cells.value| ensures t.CellOk(g, i) { assert s.CellOk(g, i); }
      }
    }
    forall g | 0 <= g < |t.grids| ensures t.ParentOk(g) { assert s.ParentOk(g) && s.GridOk(g); }
  }

  function Lowered(s: Store, g: nat): (t: Store)
    requires g < |s.grids|
    ensures SameButCounters(s, t) && t.order == s.order && t.complete == s.complete
  {
    s.(grids := s.grids[g := s.grids[g].(emptyCells := s.grids[g].emptyCells - 1)])
  }

  /** Lowering the counter of the grid with the hole fills the hole; if that completes the grid, the hole moves to the parent. */
  lemma LowerFillsHole(s: Store, g: nat)
    requires s.Linked() && g < |s.grids| && s.Counted(g) && s.grids[g].cells.Some?
    ensures Lowered(s, g).Counted(if s.grids[g].emptyCells == 1 then s.grids[g].parent else NULL)
    ensures s.grids[g].emptyCells >= 1
  {
    var t, p := Lowered(s, g), s.grids[g].parent;
    assert s.CountOk(g, g);
    var hole := if s.grids[g].emptyCells == 1 then p else NULL;
    forall h | 0 <= h < |t.grids| ensures t.CountOk(h, hole) {
      LowerOne(s, g, h, hole);
    }
  }

  lemma LowerOne(s: Store, g: nat, h: nat, hole: int)
    requires s.Linked() && g < |s.grids| && s.Counted(g) && s.grids[g].cells.Some? && h < |s.grids| && s.grids[g].emptyCells >= 1
    requires hole == if s.grids[g].emptyCells == 1 then s.grids[g].parent else NULL
    ensures Lowered(s, g).CountOk(h, hole)
  {
    var t, p := Lowered(s, g), s.grids[g].parent;
    assert s.CountOk(h, g) && s.GridOk(h) && s.GridOk(g) && s.ParentOk(g);
    if s.grids[h].cells.Some? {
      var cells := s.grids[h].cells.value;
      assert forall c :: 0 <= c < |s.grids| && c != g ==> t.grids[c] == s.grids[c];
      if hole != NULL && h == p {
        var i := s.slots[g];
        forall j | 0 <= j < |cells| && j != i ensures s.IsOpen(cells[j]) == t.IsOpen(cells[j]) { assert s.CellOk(h, j); }
        assert s.CellOk(h, i);
        CountClosed(s, t, cells, cells, i);
      } else {
        forall j | 0 <= j < |cells| ensures s.IsOpen(cells[j]) == t.IsOpen(cells[j]) { assert s.CellOk(h, j); }
        CountSame(s, t, cells);
      }
    }
  }

  // ----- registration of complete grids

  /** Position j of the order and the first incomplete one change places, and the complete part grows by one. */
  function Promoted(s: Store, j: nat): Store
    requires 0 <= s.complete <= j < |s.order|
  {
    s.(order := s.order[j := s.order[s.complete]][s.complete := s.order[j]], complete := s.complete + 1)
  }

  /** All but grid g are listed correctly, and g, which is complete, is still among the incomplete ones. */
  ghost predicate RegisteredBut(s: Store, g: nat) {
    && 0 <= s.complete <= |s.order| && g < |s.grids| && s.grids[g].IsComplete() && s.grids[g].parent == NULL
    && (forall j :: 0 <= j < |s.order| ==> 0 <= s.order[j] < |s.grids| && s.grids[s.order[j]].parent == NULL)
    && (forall j :: 0 <= j < |s.order| && s.order[j] != g ==> (j < s.complete <==> s.grids[s.order[j]].IsComplete()))
    && (forall j :: 0 <= j < s.complete ==> s.order[j] != g)
    && (forall j, k :: 0 <= j < k < |s.order| ==> s.order[j] != s.order[k])
    && (forall h :: 0 <= h < |s.grids| && s.grids[h].parent == NULL ==> h in s.order)
  }

  lemma PromotionRegisters(s: Store, g: nat, j: nat)
    requires RegisteredBut(s, g) && s.complete <= j < |s.order| && s.order[j] == g
    ensures Promoted(s, j).Registered()
  {
    var t := Promoted(s, j);
    forall k | 0 <= k < |t.order|
      ensures 0 <= t.order[k] < |t.grids| && t.grids[t.order[k]].parent == NULL && (k < t.complete <==> t.grids[t.order[k]].IsComplete())
    {
      var l := Swapped(s.complete, j, k);
      assert t.order[k] == s.order[l] && (l == j || s.order[l] != g);
    }
    forall k, l | 0 <= k < l < |t.order| ensures t.order[k] != t.order[l] {
      assert t.order[k] == s.order[Swapped(s.complete, j, k)] && t.order[l] == s.order[Swapped(s.complete, j, l)];
    }
    forall h | 0 <= h < |t.grids| && t.grids[h].parent == NULL ensures h in t.order { StillListed(s, j, h); }
  }

  function Swapped(c: nat, j: nat, k: nat): nat { if k == c then j else if k == j then c else k }

  lemma StillListed(s: Store, j: nat, h: int)
    requires 0 <= s.complete <= j < |s.order| && h in s.order
    ensures h in Promoted(s, j).order
  {
    var k :| 0 <= k < |s.order| && s.order[k] == h;
    assert Promoted(s, j).order[Swapped(s.complete, j, k)] == h;
  }

  lemma LoweredRegistration(s: Store, g: nat)
    requires s.Registered() && g < |s.grids| && s.grids[g].cells.Some? && s.grids[g].emptyCells >= 1
    ensures s.grids[g].emptyCells > 1 || s.grids[g].parent != NULL ==> Lowered(s, g).Registered()
    ensures s.grids[g].emptyCells == 1 && s.grids[g].parent == NULL ==> RegisteredBut(Lowered(s, g), g)
  {
    var t := Lowered(s, g);
    assert forall h :: 0 <= h < |s.grids| && h != g ==> t.grids[h] == s.grids[h];
  }

  /** What happens between two stores when cells are completed: counters only go down, complete grids stay complete. */
  ghost predicate Advances(s: Store, t: Store) {
    && SameButCounters(s, t) && |t.order| == |s.order|
    && forall g :: 0 <= g < |s.grids| && s.grids[g].IsComplete() ==> t.grids[g].IsComplete()
  }

  /** Links and counts do not depend on the list of top-level grids. */
  lemma OrderIsSeparate(s: Store, t: Store, hole: int)
    requires s.Linked() && s.Counted(hole) && t.grids == s.grids && t.slots == s.slots && t.fragments == s.fragments
    ensures t.Linked() && t.Counted(hole)
  {
    LinkedDespiteCounters(s, t);
    forall g | 0 <= g < |t.grids| ensures t.CountOk(g, hole) {
      assert s.CountOk(g, hole);
      if t.grids[g].cells.Some? { CountSame(s, t, t.grids[g].cells.value); }
    }
  }

  class GridStore {
    var grids: seq<Grid>
    var order: seq<int>
    var gridCount: int
    var fragments: seq<Cube>
    ghost var slots: seq<int>

    ghost function Value(): Store
      reads this
    {
      Store(grids, slots, order, gridCount, fragments)
    }

    constructor ()
      ensures Value() == Store([], [], [], 0, []) && Value().Inv()
    {
      grids, order, gridCount, fragments, slots := [], [], 0, [], [];
    }

    /** Moves a grid from the incomplete to the complete part of the dataset's list. */
    method RegisterGridCompletion(g: nat)
      requires RegisteredBut(Value(), g)
      modifies this`order, this`gridCount
      ensures Value().Registered() && |order| == |old(order)|
      ensures exists j :: 0 <= old(gridCount) <= j < |old(order)| && old(order)[j] == g && Value() == Promoted(old(Value()), j)
    {
      var index := gridCount;
      while index < |order| && order[index] != g
        invariant gridCount <= index <= |order| && forall k :: gridCount <= k < index ==> order[k] != g
      {
        index := index + 1;
      }
      assert index < |order| by {
        assert g in order;
        var k :| 0 <= k < |order| && order[k] == g;
      }
      PromotionRegisters(Value(), g, index);
      var temp := order[index];
      order := order[index := order[gridCount]];
      order := order[gridCount := temp];
      gridCount := gridCount + 1;
    }

    /** Counts a cell as completed; a grid without open cells completes its cell in the parent, or is registered. */
    method RegisterCompletedCell(g: nat)
      requires Value().Linked() && Value().Registered() && g < |grids| && grids[g].cells.Some? && Value().Counted(g)
      modifies this`grids, this`order, this`gridCount
      ensures Value().Inv() && Advances(old(Value()), Value())
      decreases g
    {
      ghost var s := Value();
      LowerFillsHole(s, g);
      LoweredRegistration(s, g);
      LinkedDespiteCounters(s, Lowered(s, g));
      var last := grids[g].emptyCells == 1;
      grids := grids[g := grids[g].(emptyCells := grids[g].emptyCells - 1)];
      assert Value() == Lowered(s, g);
      if last {
        if grids[g].parent != NULL {
          assert s.ParentOk(g);
          RegisterCompletedCell(grids[g].parent);
        } else {
          RegisterGridCompletion(g);
          OrderIsSeparate(Lowered(s, g), Value(), NULL);
        }
      }
    }
  }
}
