/** The leaf cells of a grid hierarchy: those that are not divided any further by a subgrid. */
module GridLeaves {
  import opened MixedRadix
  import opened Geometry
  import opened Axes
  import opened GridCells
  import opened Grids

  /** h is g or one of its direct or indirect subgrids. */
  ghost predicate Under(s: Store, g: nat, h: nat)
    requires h < |s.grids|
    decreases h
  {
    h == g || (0 <= s.grids[h].parent < h && Under(s, g, s.grids[h].parent))
  }

  /** Cell i of grid h is not divided any further. */
  ghost predicate IsLeaf(s: Store, h: nat, i: nat)
    requires h < |s.grids|
  {
    && AxesOk(s.grids[h].axes) && i < Prod(Intervals(s.grids[h].axes))
    && (s.grids[h].cells.Some? ==> i < |s.grids[h].cells.value| && s.grids[h].cells.value[i].subgrid == NULL)
  }

  ghost predicate LeafWith(s: Store, g: nat, h: nat, i: nat, x: Cube) {
    h < |s.grids| && Under(s, g, h) && IsLeaf(s, h, i) && Cells(s.grids[h].axes)[i] == x
  }

  ghost predicate HasLeaf(s: Store, g: nat, x: Cube) {
    exists h: nat, i: nat :: LeafWith(s, g, h, i, x)
  }

  lemma {:induction false} UnderAtLeast(s: Store, g: nat, h: nat)
    requires h < |s.grids| && Under(s, g, h)
    ensures g <= h
    decreases h
  {
    if h != g { UnderAtLeast(s, g, s.grids[h].parent); }
  }

  /** The way down from g to h starts with a subgrid of g. */
  lemma {:induction false} FirstStep(s: Store, g: nat, h: nat) returns (c: nat)
    requires h < |s.grids| && Under(s, g, h) && h != g
    ensures c <= h && s.grids[c].parent == g && Under(s, c, h)
    decreases h
  {
    var p := s.grids[h].parent;
    if p == g {
      c := h;
    } else {
      c := FirstStep(s, g, p);
    }
  }

  lemma {:induction false} UnderTransitive(s: Store, g: nat, c: nat, h: nat)
    requires h < |s.grids| && c < |s.grids| && 0 <= s.grids[c].parent < c && s.grids[c].parent == g && Under(s, c, h)
    ensures Under(s, g, h)
    decreases h
  {
    if h != c { UnderTransitive(s, g, c, s.grids[h].parent); }
  }

  lemma NumberedCell(axes: seq<Bounds>, i: nat) returns (k: seq<int>)
    requires AxesOk(axes) && i < Prod(Intervals(axes))
    ensures InBox(k, Intervals(axes)) && Rank(k, Intervals(axes)) == i && Cells(axes)[i] == CellBox(axes, k)
  {
    RankUnrank(i, Intervals(axes));
    k := Unrank(i, Intervals(axes));
  }

  lemma BoxRange(axes: seq<Bounds>, k: seq<int>, d: nat)
    requires AxesOk(axes) && InBox(k, Intervals(axes)) && d < |axes|
    ensures axes[d][0] <= CellBox(axes, k)[d].start < CellBox(axes, k)[d].end <= axes[d][|axes[d]| - 1]
  {
    assert 0 <= k[d] < |axes[d]| - 1;
    assert StrictBounds(axes[d]);
  }

  lemma CellRanges(axes: seq<Bounds>, i: nat, d: nat)
    requires AxesOk(axes) && i < Prod(Intervals(axes)) && d < |axes|
    ensures |Cells(axes)[i]| == |axes|
    ensures axes[d][0] <= Cells(axes)[i][d].start < Cells(axes)[i][d].end <= axes[d][|axes[d]| - 1]
  {
    var k := NumberedCell(axes, i);
    BoxRange(axes, k, d);
  }

  lemma {:induction false} SameRank(s: Store, g: nat, h: nat)
    requires s.Linked() && g <= h < |s.grids| && Under(s, g, h)
    ensures |s.grids[h].axes| == |s.grids[g].axes|
    decreases h
  {
    if h != g {
      assert s.ParentOk(h) && s.GridOk(h);
      var p := s.grids[h].parent;
      UnderAtLeast(s, g, p);
      SameRank(s, g, p);
      var k := NumberedCell(s.grids[p].axes, s.slots[h]);
      assert |Domain(s.grids[h].axes)| == |CellBox(s.grids[p].axes, k)|;
    }
  }

  /** The extents of every cell below g lie inside the domain of g. */
  lemma {:induction false} InsideDomain(s: Store, g: nat, h: nat, i: nat, d: nat)
    requires s.Linked() && g <= h < |s.grids| && Under(s, g, h) && AxesOk(s.grids[h].axes) && AxesOk(s.grids[g].axes)
    requires i < Prod(Intervals(s.grids[h].axes)) && d < |s.grids[g].axes|
    ensures |s.grids[h].axes| == |s.grids[g].axes|
    ensures Domain(s.grids[g].axes)[d].start <= Cells(s.grids[h].axes)[i][d].start
    ensures Cells(s.grids[h].axes)[i][d].start < Cells(s.grids[h].axes)[i][d].end <= Domain(s.grids[g].axes)[d].end
    decreases h
  {
    if h == g {
      CellRanges(s.grids[g].axes, i, d);
    } else {
      assert s.ParentOk(h) && s.GridOk(h);
      var p := s.grids[h].parent;
      UnderAtLeast(s, g, p);
      InsideDomain(s, g, p, s.slots[h], d);
      SameRank(s, g, h);
      CellRanges(s.grids[h].axes, i, d);
    }
  }

  lemma EnclosedBySlot(s: Store, c: nat, h: nat, i: nat, k: seq<int>)
    requires s.Linked() && c <= h < |s.grids| && Under(s, c, h) && AxesOk(s.grids[h].axes) && i < Prod(Intervals(s.grids[h].axes))
    requires 0 <= s.grids[c].parent < c && AxesOk(s.grids[s.grids[c].parent].axes)
    requires Encloses(s.grids[s.grids[c].parent].axes, k, Cells(s.grids[h].axes)[i])
    ensures Rank(k, Intervals(s.grids[s.grids[c].parent].axes)) == s.slots[c]
  {
    assert s.ParentOk(c) && s.GridOk(c);
    var axes := s.grids[s.grids[c].parent].axes;
    var l := SlotEncloses(s, c, h, i);
    EnclosesUnique(axes, k, l, Cells(s.grids[h].axes)[i]);
  }

  /** Everything below a subgrid is enclosed by the cell of the subgrid. */
  lemma SlotEncloses(s: Store, c: nat, h: nat, i: nat) returns (l: seq<int>)
    requires s.Linked() && c <= h < |s.grids| && Under(s, c, h) && AxesOk(s.grids[h].axes) && i < Prod(Intervals(s.grids[h].axes))
    requires 0 <= s.grids[c].parent < c && AxesOk(s.grids[s.grids[c].parent].axes)
    ensures Encloses(s.grids[s.grids[c].parent].axes, l, Cells(s.grids[h].axes)[i])
    ensures Rank(l, Intervals(s.grids[s.grids[c].parent].axes)) == s.slots[c]
  {
    assert s.ParentOk(c) && s.GridOk(c);
    var axes, x := s.grids[s.grids[c].parent].axes, Cells(s.grids[h].axes)[i];
    l := NumberedCell(axes, s.slots[c]);
    SameRank(s, c, h);
    var m := NumberedCell(s.grids[h].axes, i);
    assert CellBox(axes, l) == Domain(s.grids[c].axes) && |x| == |axes|;
    forall d | 0 <= d < |axes|
      ensures 0 <= l[d] < |axes[d]| - 1 && axes[d][l[d]] <= x[d].start < x[d].end <= axes[d][l[d] + 1]
    {
      InsideDomain(s, c, h, i, d);
    }
  }

  lemma ExactCellEncloses(axes: seq<Bounds>, i: nat) returns (k: seq<int>)
    requires AxesOk(axes) && i < Prod(Intervals(axes))
    ensures Encloses(axes, k, Cells(axes)[i]) && InBox(k, Intervals(axes)) && Rank(k, Intervals(axes)) == i
  {
    k := NumberedCell(axes, i);
    forall d | 0 <= d < |axes| ensures axes[d][k[d]] < axes[d][k[d] + 1] { BoxRange(axes, k, d); }
  }

  /** A leaf with extents x below g lies in the one cell of g that encloses x. */
  lemma LeafIsEnclosed(s: Store, g: nat, h: nat, i: nat, x: Cube)
    requires s.Linked() && g < |s.grids| && AxesOk(s.grids[g].axes) && LeafWith(s, g, h, i, x)
    ensures exists k :: Encloses(s.grids[g].axes, k, x)
  {
    if h == g {
      var k := ExactCellEncloses(s.grids[g].axes, i);
    } else {
      var c := FirstStep(s, g, h);
      assert s.ParentOk(c) && s.GridOk(c);
      var l := SlotEncloses(s, c, h, i);
    }
  }

  /** Following x into the subgrid of the cell that encloses it loses no leaf with extents x. */
  lemma LeafFollows(s: Store, g: nat, k: seq<int>, x: Cube)
    requires s.Linked() && g < |s.grids| && AxesOk(s.grids[g].axes) && s.grids[g].cells.Some? && Encloses(s.grids[g].axes, k, x)
    requires InBox(k, Intervals(s.grids[g].axes)) && 0 <= Rank(k, Intervals(s.grids[g].axes)) < |s.grids[g].cells.value|
    requires s.grids[g].cells.value[Rank(k, Intervals(s.grids[g].axes))].subgrid != NULL
    ensures var c := s.grids[g].cells.value[Rank(k, Intervals(s.grids[g].axes))].subgrid;
      g < c < |s.grids| && s.grids[c].parent == g && (HasLeaf(s, g, x) <==> HasLeaf(s, c, x))
  {
    var r := Rank(k, Intervals(s.grids[g].axes));
    var c := s.grids[g].cells.value[r].subgrid;
    assert s.GridOk(g) && s.CellOk(g, r) && s.ParentOk(c) && s.GridOk(c);
    if HasLeaf(s, g, x) {
      var h: nat, i: nat :| LeafWith(s, g, h, i, x);
      LeafBelow(s, g, h, i, k, x);
      assert LeafWith(s, c, h, i, x);
    }
    if HasLeaf(s, c, x) {
      var h: nat, i: nat :| LeafWith(s, c, h, i, x);
      UnderTransitive(s, g, c, h);
      assert LeafWith(s, g, h, i, x);
    }
  }

  lemma LeafBelow(s: Store, g: nat, h: nat, i: nat, k: seq<int>, x: Cube)
    requires s.Linked() && g < |s.grids| && AxesOk(s.grids[g].axes) && s.grids[g].cells.Some? && Encloses(s.grids[g].axes, k, x)
    requires InBox(k, Intervals(s.grids[g].axes)) && 0 <= Rank(k, Intervals(s.grids[g].axes)) < |s.grids[g].cells.value|
    requires s.grids[g].cells.value[Rank(k, Intervals(s.grids[g].axes))].subgrid != NULL && LeafWith(s, g, h, i, x)
    ensures var c := s.grids[g].cells.value[Rank(k, Intervals(s.grids[g].axes))].subgrid; 0 <= c && Under(s, c, h)
  {
    var r := Rank(k, Intervals(s.grids[g].axes));
    assert s.GridOk(g) && s.CellOk(g, r);
    if h == g {
      var l := ExactCellEncloses(s.grids[g].axes, i);
      EnclosesUnique(s.grids[g].axes, k, l, x);
    } else {
      var e := FirstStep(s, g, h);
      assert s.ParentOk(e) && s.GridOk(e);
      EnclosedBySlot(s, e, h, i, k);
    }
  }
}
