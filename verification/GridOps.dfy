/** The operations that change a grid hierarchy, and why they keep its invariant. */
module GridOps {
  import opened Options
  import opened MixedRadix
  import opened Geometry
  import opened Axes
  import opened GridCells
  import opened Grids

  /** t has all grids of s with their parents and slots, and no grid became complete or incomplete. */
  ghost predicate Extends(s: Store, t: Store) {
    && |s.slots| == |s.grids| <= |t.grids| == |t.slots| && s.slots <= t.slots && s.fragments <= t.fragments
    && forall g :: 0 <= g < |s.grids| ==> t.grids[g].parent == s.grids[g].parent && t.grids[g].IsComplete() == s.grids[g].IsComplete()
  }

  lemma OpenInBoth(s: Store, t: Store, g: nat, i: nat)
    requires Extends(s, t) && s.Linked() && g < |s.grids| && s.grids[g].cells.Some? && i < |s.grids[g].cells.value|
    ensures s.IsOpen(s.grids[g].cells.value[i]) == t.IsOpen(s.grids[g].cells.value[i])
  {
    assert s.GridOk(g) && s.CellOk(g, i);
  }

  /** An unchanged grid is as good as before. */
  lemma UnchangedGrid(s: Store, t: Store, g: nat, hole: int)
    requires Extends(s, t) && s.Linked() && s.Counted(hole) && g < |s.grids| && t.grids[g] == s.grids[g]
    ensures t.GridOk(g) && t.CountOk(g, hole)
  {
    assert s.GridOk(g) && s.CountOk(g, hole);
    if t.grids[g].cells.Some? {
      var cells := t.grids[g].cells.value;
      forall i | 0 <= i < |cells| ensures t.CellOk(g, i) && s.IsOpen(cells[i]) == t.IsOpen(cells[i]) {
        assert s.CellOk(g, i);
        OpenInBoth(s, t, g, i);
      }
      CountSame(s, t, cells);
    }
  }

  /** A subgrid keeps its place as long as its domain and the cell of the parent stay. */
  lemma UnchangedParent(s: Store, t: Store, g: nat)
    requires Extends(s, t) && s.Linked() && g < |s.grids|
    requires AxesOk(s.grids[g].axes) && AxesOk(t.grids[g].axes) && Domain(t.grids[g].axes) == Domain(s.grids[g].axes)
    requires var p := s.grids[g].parent; p != NULL ==>
      0 <= p < |s.grids| && t.grids[p].axes == s.grids[p].axes && t.grids[p].cells.Some? && s.grids[p].cells.Some?
      && |t.grids[p].cells.value| == |s.grids[p].cells.value|
      && forall i :: 0 <= i < |s.grids[p].cells.value| && s.grids[p].cells.value[i].subgrid != NULL ==> t.grids[p].cells.value[i].subgrid == s.grids[p].cells.value[i].subgrid
    ensures t.ParentOk(g)
  {
    assert s.ParentOk(g) && s.GridOk(g);
    assert t.slots[g] == s.slots[g];
  }

  // ----- creating a top-level grid

  function Fresh(axes: seq<Bounds>, parent: int): Grid { Grid(axes, parent, false, 0, None) }

  function Created(s: Store, axes: seq<Bounds>): Store {
    s.(grids := s.grids + [Fresh(axes, NULL)], slots := s.slots + [NULL], order := s.order + [|s.grids|])
  }

  lemma CreatedInv(s: Store, axes: seq<Bounds>)
    requires s.Inv() && AxesOk(axes)
    ensures Created(s, axes).Inv()
  {
    var t := Created(s, axes);
    forall g | 0 <= g < |t.grids| ensures t.GridOk(g) && t.CountOk(g, NULL) {
      if g < |s.grids| { UnchangedGrid(s, t, g, NULL); }
    }
    forall g | 0 <= g < |t.grids| ensures t.ParentOk(g) {
      if g < |s.grids| {
        assert s.GridOk(g) && s.ParentOk(g);
        UnchangedParent(s, t, g);
      }
    }
    forall g | 0 <= g < |t.grids| && t.grids[g].parent == NULL ensures g in t.order {
      if g == |s.grids| { assert t.order[|s.order|] == g; }
    }
  }

  // ----- allocating the cells of a grid

  function Blank(n: nat): (cells: seq<Cell>)
    ensures |cells| == n && forall i :: 0 <= i < n ==> cells[i] == EMPTY
  {
    seq(n, _ => EMPTY)
  }

  function Allocated(s: Store, g: nat): Store
    requires g < |s.grids| && AxesOk(s.grids[g].axes)
  {
    var n := Prod(Intervals(s.grids[g].axes));
    ProdPositive(Intervals(s.grids[g].axes));
    s.(grids := s.grids[g := s.grids[g].(emptyCells := n, cells := Some(Blank(n)))])
  }

  /** The store once grid g has cells. */
  function Ensured(s: Store, g: nat): Store
    requires g < |s.grids| && AxesOk(s.grids[g].axes)
  {
    if s.grids[g].cells.Some? then s else Allocated(s, g)
  }

  lemma AllocatedInv(s: Store, g: nat)
    requires s.Inv() && g < |s.grids| && s.grids[g].cells.None? && AxesOk(s.grids[g].axes)
    ensures Allocated(s, g).Inv()
  {
    var t := Allocated(s, g);
    ProdPositive(Intervals(s.grids[g].axes));
    assert Extends(s, t);
    forall h | 0 <= h < |t.grids| ensures t.GridOk(h) && t.CountOk(h, NULL) {
      if h != g {
        UnchangedGrid(s, t, h, NULL);
      } else {
        assert s.GridOk(g);
        CountAllOpen(t, t.grids[g].cells.value);
      }
    }
    forall h | 0 <= h < |t.grids| ensures t.ParentOk(h) {
      assert s.GridOk(h) && s.ParentOk(h);
      UnchangedParent(s, t, h);
    }
  }

  // ----- a new subgrid in an empty cell

  function CellAxes(box: Cube): (axes: seq<Bounds>)
    ensures |axes| == |box| && forall d :: 0 <= d < |box| ==> axes[d] == [box[d].start, box[d].end]
  {
    seq(|box|, d requires 0 <= d < |box| => [box[d].start, box[d].end])
  }

  lemma CellAxesOk(box: Cube)
    requires !IsEmptyCube(box)
    ensures AxesOk(CellAxes(box)) && Domain(CellAxes(box)) == box
  {
    forall d | 0 <= d < |box| ensures StrictBounds(CellAxes(box)[d]) { assert !box[d].IsEmpty(); }
  }

  ghost function WithSubgrid(s: Store, p: nat, i: nat): Store
    requires p < |s.grids| && AxesOk(s.grids[p].axes) && s.grids[p].cells.Some? && i < |s.grids[p].cells.value| == Prod(Intervals(s.grids[p].axes))
  {
    var c := |s.grids|;
    var parent := s.grids[p].(cells := Some(s.grids[p].cells.value[i := Cell(c, NULL)]));
    s.(grids := s.grids[p := parent] + [Fresh(CellAxes(Cells(s.grids[p].axes)[i]), p)], slots := s.slots + [i])
  }

  lemma CellIsNotEmpty(axes: seq<Bounds>, i: nat)
    requires AxesOk(axes) && i < Prod(Intervals(axes))
    ensures !IsEmptyCube(Cells(axes)[i])
  {
    RankUnrank(i, Intervals(axes));
    var k := Unrank(i, Intervals(axes));
    CellNonEmpty(axes, k);
    assert Cells(axes)[i] == CellBox(axes, k);
  }

  lemma WithSubgridInv(s: Store, p: nat, i: nat)
    requires s.Inv() && p < |s.grids| && AxesOk(s.grids[p].axes) && s.grids[p].cells.Some?
    requires i < |s.grids[p].cells.value| == Prod(Intervals(s.grids[p].axes)) && s.grids[p].cells.value[i] == EMPTY
    ensures WithSubgrid(s, p, i).Inv()
  {
    var t, c := WithSubgrid(s, p, i), |s.grids|;
    CellIsNotEmpty(s.grids[p].axes, i);
    CellAxesOk(Cells(s.grids[p].axes)[i]);
    assert Extends(s, t);
    forall h | 0 <= h < |t.grids| ensures t.GridOk(h) && t.CountOk(h, NULL) {
      if h == p {
        SubgridParent(s, p, i);
      } else if h < c {
        UnchangedGrid(s, t, h, NULL);
      }
    }
    forall h | 0 <= h < |t.grids| ensures t.ParentOk(h) {
      if h < c {
        assert s.GridOk(h) && s.ParentOk(h);
        UnchangedParent(s, t, h);
      }
    }
  }

  lemma SubgridParent(s: Store, p: nat, i: nat)
    requires s.Linked() && s.Counted(NULL) && p < |s.grids| && AxesOk(s.grids[p].axes) && s.grids[p].cells.Some?
    requires i < |s.grids[p].cells.value| == Prod(Intervals(s.grids[p].axes)) && s.grids[p].cells.value[i] == EMPTY
    requires Extends(s, WithSubgrid(s, p, i))
    ensures WithSubgrid(s, p, i).GridOk(p) && WithSubgrid(s, p, i).CountOk(p, NULL)
  {
    var t, c := WithSubgrid(s, p, i), |s.grids|;
    var before, after := s.grids[p].cells.value, t.grids[p].cells.value;
    assert s.GridOk(p) && s.CountOk(p, NULL);
    forall j | 0 <= j < |after| ensures t.CellOk(p, j) && s.IsOpen(before[j]) == t.IsOpen(after[j]) {
      assert s.CellOk(p, j);
      OpenInBoth(s, t, p, j);
    }
    CountPointwise(s, t, before, after);
  }

  // ----- a new division of an axis

  function Redivided(s: Store, g: nat, d: nat, b: Bounds): Store
    requires g < |s.grids| && d < |s.grids[g].axes|
  {
    s.(grids := s.grids[g := s.grids[g].(axes := s.grids[g].axes[d := b])])
  }

  lemma RedividedInv(s: Store, g: nat, d: nat, b: Bounds)
    requires s.Inv() && g < |s.grids| && d < |s.grids[g].axes| && s.grids[g].cells.None?
    requires StrictBounds(b) && SameEnds(s.grids[g].axes[d], b)
    ensures Redivided(s, g, d, b).Inv()
  {
    var t := Redivided(s, g, d, b);
    assert Extends(s, t);
    assert s.GridOk(g) && s.CountOk(g, NULL);
    assert AxesOk(t.grids[g].axes) && Domain(t.grids[g].axes) == Domain(s.grids[g].axes);
    forall h | 0 <= h < |t.grids| ensures t.GridOk(h) && t.CountOk(h, NULL) {
      if h != g { UnchangedGrid(s, t, h, NULL); }
    }
    forall h | 0 <= h < |t.grids| ensures t.ParentOk(h) {
      assert s.GridOk(h) && s.ParentOk(h);
      UnchangedParent(s, t, h);
    }
  }

  // ----- a fragment in an empty cell

  function WithFragment(s: Store, g: nat, i: nat, f: nat): Store
    requires g < |s.grids| && s.grids[g].cells.Some? && i < |s.grids[g].cells.value|
  {
    s.(grids := s.grids[g := s.grids[g].(cells := Some(s.grids[g].cells.value[i := Cell(NULL, f)]))])
  }

  lemma WithFragmentInv(s: Store, g: nat, i: nat, f: nat)
    requires s.Inv() && g < |s.grids| && AxesOk(s.grids[g].axes) && s.grids[g].cells.Some?
    requires i < |s.grids[g].cells.value| == Prod(Intervals(s.grids[g].axes)) && s.grids[g].cells.value[i] == EMPTY
    requires f < |s.fragments| && s.fragments[f] == Cells(s.grids[g].axes)[i]
    ensures var t := WithFragment(s, g, i, f); t.Linked() && t.Counted(g) && t.Registered()
  {
    var t := WithFragment(s, g, i, f);
    assert s.CountOk(g, NULL) && s.GridOk(g);
    CountPositive(s, s.grids[g].cells.value, i);
    assert Extends(s, t);
    forall h | 0 <= h < |t.grids| ensures t.GridOk(h) && t.CountOk(h, g) {
      if h == g { FragmentParent(s, g, i, f); } else { UnchangedGrid(s, t, h, NULL); }
    }
    forall h | 0 <= h < |t.grids| ensures t.ParentOk(h) {
      assert s.GridOk(h) && s.ParentOk(h);
      UnchangedParent(s, t, h);
    }
  }

  lemma FragmentParent(s: Store, g: nat, i: nat, f: nat)
    requires s.Linked() && s.Counted(NULL) && g < |s.grids| && AxesOk(s.grids[g].axes) && s.grids[g].cells.Some?
    requires i < |s.grids[g].cells.value| == Prod(Intervals(s.grids[g].axes)) && s.grids[g].cells.value[i] == EMPTY
    requires f < |s.fragments| && s.fragments[f] == Cells(s.grids[g].axes)[i]
    requires Extends(s, WithFragment(s, g, i, f))
    ensures WithFragment(s, g, i, f).GridOk(g) && WithFragment(s, g, i, f).CountOk(g, g)
  {
    var t := WithFragment(s, g, i, f);
    var before, after := s.grids[g].cells.value, t.grids[g].cells.value;
    assert s.GridOk(g) && s.CountOk(g, NULL);
    forall j | 0 <= j < |after| ensures t.CellOk(g, j) && (j != i ==> s.IsOpen(before[j]) == t.IsOpen(after[j])) {
      assert s.CellOk(g, j);
      OpenInBoth(s, t, g, j);
    }
    CountClosed(s, t, before, after, i);
  }

  /** A new fragment in the dataset. */
  lemma MoreFragmentsInv(s: Store, x: Cube)
    requires s.Inv()
    ensures s.(fragments := s.fragments + [x]).Inv()
  {
    var t := s.(fragments := s.fragments + [x]);
    assert Extends(s, t);
    forall g | 0 <= g < |t.grids| ensures t.GridOk(g) && t.CountOk(g, NULL) { UnchangedGrid(s, t, g, NULL); }
    forall g | 0 <= g < |t.grids| ensures t.ParentOk(g) {
      assert s.GridOk(g) && s.ParentOk(g);
      UnchangedParent(s, t, g);
    }
  }
}
