/** Storing a grid hierarchy as a JSON tree and rebuilding it. */
module GridJson {
  import opened Options
  import opened MixedRadix
  import opened Axes
  import opened GridCells
  import opened Grids
  import opened GridOps
  import opened GridLeaves
  import opened GridAccess
  import opened GridWalk

  /** A hierarchy as a value. Fragments stand for their metadata. */
  datatype Tree = Tree(axes: seq<Bounds>, id: string, emptyCells: int, cells: seq<Entry>)
  datatype Entry = Vacant | Data(fragment: int) | Sub(tree: Tree)

  /** The JSON objects: a cell may have the keys "grid" and "fragment". */
  datatype JsonGrid = JsonGrid(axes: seq<seq<int>>, id: string, cells: seq<JsonCell>)
  datatype JsonCell = JsonCell(grid: Option<JsonGrid>, fragment: Option<int>)

  // ----- serialising

  function ToJson(t: Tree): JsonGrid
    decreases t
  {
    JsonGrid(t.axes, t.id, CellsToJson(t.cells))
  }

  function CellsToJson(cells: seq<Entry>): (js: seq<JsonCell>)
    ensures |js| == |cells|
    decreases cells
  {
    if cells == [] then [] else [EntryToJson(cells[0])] + CellsToJson(cells[1..])
  }

  function EntryToJson(e: Entry): JsonCell
    decreases e
  {
    match e
    case Vacant => JsonCell(None, None)
    case Data(f) => JsonCell(None, Some(f))
    case Sub(tree) => JsonCell(Some(ToJson(tree)), None)
  }

  /** What is written for a grid with two cells, one of which holds fragment 7. */
  lemma JsonOfTwoCells()
    ensures ToJson(Tree([[0, 1, 2]], "id", 1, [Data(7), Vacant])) == JsonGrid([[0, 1, 2]], "id", [JsonCell(None, Some(7)), JsonCell(None, None)])
  {
    var cells := [Data(7), Vacant];
    assert cells[1..] == [Vacant] && [Vacant][1..] == [];
    assert CellsToJson([Vacant]) == [JsonCell(None, None)];
  }

  // ----- rebuilding

  predicate AxesReadable(axes: seq<seq<int>>) {
    forall d :: 0 <= d < |axes| ==> |axes[d]| >= 2
  }

  /** What becomes of a JSON tree; None if it is rejected. */
  function FromJson(j: JsonGrid): Option<Tree>
    decreases j
  {
    if !AxesReadable(j.axes) || |j.cells| != Prod(Intervals(j.axes)) then None
    else
      var cells := CellsFromJson(j.cells);
      if cells.None? then None else Some(Tree(j.axes, j.id, CountVacant(cells.value), cells.value))
  }

  function CellsFromJson(js: seq<JsonCell>): Option<seq<Entry>>
    decreases js
  {
    if js == [] then Some([])
    else
      var first, rest := CellFromJson(js[0]), CellsFromJson(js[1..]);
      if first.None? || rest.None? then None else Some([first.value] + rest.value)
  }

  function CellFromJson(c: JsonCell): Option<Entry>
    decreases c
  {
    if c.grid.Some? && c.fragment.Some? then None
    else if c.grid.Some? then
      var t := FromJson(c.grid.value);
      if t.None? then None else Some(Sub(t.value))
    else if c.fragment.Some? then Some(Data(c.fragment.value))
    else Some(Vacant)
  }

  function CountVacant(cells: seq<Entry>): nat {
    if cells == [] then 0 else (if cells[0] == Vacant then 1 else 0) + CountVacant(cells[1..])
  }

  lemma {:induction false} CellsFromJsonSnoc(js: seq<JsonCell>, c: JsonCell)
    ensures CellsFromJson(js + [c]) ==
      if CellsFromJson(js).None? || CellFromJson(c).None? then None else Some(CellsFromJson(js).value + [CellFromJson(c).value])
  {
    if js == [] {
      assert (js + [c])[1..] == [] && (js + [c])[0] == c;
      if CellFromJson(c).Some? {
        var d := [CellFromJson(c).value];
        assert d + [] == [] + d;
      }
    } else {
      assert (js + [c])[1..] == js[1..] + [c] && (js + [c])[0] == js[0];
      CellsFromJsonSnoc(js[1..], c);
      if CellsFromJson(js).Some? && CellFromJson(c).Some? {
        var a, b, d := [CellFromJson(js[0]).value], CellsFromJson(js[1..]).value, [CellFromJson(c).value];
        assert a + (b + d) == (a + b) + d;
      }
    }
  }

  lemma {:induction false} CellsFromJsonPrefix(js: seq<JsonCell>, i: nat)
    requires i <= |js| && CellsFromJson(js[..i]).None?
    ensures CellsFromJson(js).None?
    decreases |js| - i
  {
    if i == |js| {
      assert js[..i] == js;
    } else {
      assert js[..i + 1] == js[..i] + [js[i]];
      CellsFromJsonSnoc(js[..i], js[i]);
      CellsFromJsonPrefix(js, i + 1);
    }
  }

  lemma {:induction false} CountVacantSnoc(cells: seq<Entry>, e: Entry)
    ensures CountVacant(cells + [e]) == CountVacant(cells) + if e == Vacant then 1 else 0
  {
    if cells != [] {
      assert (cells + [e])[1..] == cells[1..] + [e];
      CountVacantSnoc(cells[1..], e);
    } else {
      assert (cells + [e])[1..] == [];
    }
  }

  /** Rebuilds a grid, checking as it goes. */
  method CreateFromJson(j: JsonGrid) returns (r: Option<Tree>)
    ensures r == FromJson(j)
    decreases j
  {
    for d := 0 to |j.axes|
      invariant forall e :: 0 <= e < d ==> |j.axes[e]| >= 2
    {
      if |j.axes[d]| < 2 { return None; }
    }
    var n := CellCount(j.axes);
    if |j.cells| != n { return None; }
    var cells, emptyCells: int, i := [], 0, 0;
    while i < |j.cells|
      invariant 0 <= i <= |j.cells| && CellsFromJson(j.cells[..i]) == Some(cells) && emptyCells == CountVacant(cells)
    {
      var c := j.cells[i];
      assert j.cells[..i + 1] == j.cells[..i] + [c];
      CellsFromJsonSnoc(j.cells[..i], c);
      var entry: Entry := Vacant;
      if c.grid.Some? && c.fragment.Some? {
        CellsFromJsonPrefix(j.cells, i + 1);
        return None;
      } else if c.grid.Some? {
        var t := CreateFromJson(c.grid.value);
        if t.None? {
          CellsFromJsonPrefix(j.cells, i + 1);
          return None;
        }
        entry := Sub(t.value);
      } else if c.fragment.Some? {
        entry := Data(c.fragment.value);
      } else {
        emptyCells := emptyCells + 1;
      }
      CountVacantSnoc(cells, entry);
      cells := cells + [entry];
      i := i + 1;
    }
    assert j.cells[..i] == j.cells;
    r := Some(Tree(j.axes, j.id, emptyCells, cells));
  }

  // ----- the round trip

  ghost predicate WellFormed(t: Tree)
    decreases t
  {
    AxesReadable(t.axes) && |t.cells| == Prod(Intervals(t.axes)) && CellsWellFormed(t.cells)
  }

  ghost predicate CellsWellFormed(cells: seq<Entry>)
    decreases cells
  {
    cells != [] ==> EntryWellFormed(cells[0]) && CellsWellFormed(cells[1..])
  }

  ghost predicate EntryWellFormed(e: Entry)
    decreases e
  {
    e.Sub? ==> WellFormed(e.tree)
  }

  /** The hierarchy with every counter set to the number of vacant cells. */
  function Recounted(t: Tree): Tree
    decreases t
  {
    Tree(t.axes, t.id, CountVacant(t.cells), CellsRecounted(t.cells))
  }

  function CellsRecounted(cells: seq<Entry>): (r: seq<Entry>)
    ensures |r| == |cells|
    decreases cells
  {
    if cells == [] then [] else [EntryRecounted(cells[0])] + CellsRecounted(cells[1..])
  }

  function EntryRecounted(e: Entry): Entry
    decreases e
  {
    if e.Sub? then Sub(Recounted(e.tree)) else e
  }

  lemma {:induction false} RecountKeepsVacant(cells: seq<Entry>)
    ensures CountVacant(CellsRecounted(cells)) == CountVacant(cells)
  {
    if cells != [] { RecountKeepsVacant(cells[1..]); }
  }

  /** Rebuilding what was serialised gives the same axes, cells and subgrids; only the counters are made anew. */
  lemma {:induction false} RoundTrip(t: Tree)
    requires WellFormed(t)
    ensures FromJson(ToJson(t)) == Some(Recounted(t))
    decreases t
  {
    CellsRoundTrip(t.cells);
    RecountKeepsVacant(t.cells);
  }

  lemma {:induction false} CellsRoundTrip(cells: seq<Entry>)
    requires CellsWellFormed(cells)
    ensures CellsFromJson(CellsToJson(cells)) == Some(CellsRecounted(cells))
    decreases cells
  {
    if cells != [] {
      CellsRoundTrip(cells[1..]);
      EntryRoundTrip(cells[0]);
      assert CellsToJson(cells)[1..] == CellsToJson(cells[1..]);
    }
  }

  lemma {:induction false} EntryRoundTrip(e: Entry)
    requires EntryWellFormed(e)
    ensures CellFromJson(EntryToJson(e)) == Some(EntryRecounted(e))
    decreases e
  {
    if e.Sub? { RoundTrip(e.tree); }
  }

  /** The other way: a JSON tree that is accepted is what serialising writes for the hierarchy that was built. */
  lemma {:induction false} AcceptedIsWritten(j: JsonGrid)
    requires FromJson(j).Some?
    ensures WellFormed(FromJson(j).value) && ToJson(FromJson(j).value) == j
    decreases j
  {
    CellsAcceptedAreWritten(j.cells);
  }

  lemma {:induction false} CellsAcceptedAreWritten(js: seq<JsonCell>)
    requires CellsFromJson(js).Some?
    ensures |CellsFromJson(js).value| == |js| && CellsWellFormed(CellsFromJson(js).value) && CellsToJson(CellsFromJson(js).value) == js
    decreases js
  {
    if js != [] {
      CellAcceptedIsWritten(js[0]);
      CellsAcceptedAreWritten(js[1..]);
      var cells := CellsFromJson(js).value;
      assert cells[0] == CellFromJson(js[0]).value && cells[1..] == CellsFromJson(js[1..]).value;
    }
  }

  lemma {:induction false} CellAcceptedIsWritten(c: JsonCell)
    requires CellFromJson(c).Some?
    ensures EntryWellFormed(CellFromJson(c).value) && EntryToJson(CellFromJson(c).value) == c
    decreases c
  {
    if c.grid.Some? { AcceptedIsWritten(c.grid.value); }
  }

  /** A JSON tree is accepted exactly if serialising some hierarchy writes it. */
  lemma AcceptedIffWritten(j: JsonGrid)
    ensures FromJson(j).Some? <==> exists t :: WellFormed(t) && ToJson(t) == j
  {
    if FromJson(j).Some? { AcceptedIsWritten(j); }
    if t :| WellFormed(t) && ToJson(t) == j { RoundTrip(t); }
  }

  // ----- when the counters survive as well

  function CountOpenEntries(cells: seq<Entry>): nat {
    if cells == [] then 0
    else (if cells[0] == Vacant || (cells[0].Sub? && cells[0].tree.emptyCells != 0) then 1 else 0) + CountOpenEntries(cells[1..])
  }

  /** The counters count what lacks data, as the operations on grids keep them. */
  ghost predicate Honest(t: Tree)
    decreases t
  {
    t.emptyCells == CountOpenEntries(t.cells) && CellsHonest(t.cells)
  }

  ghost predicate CellsHonest(cells: seq<Entry>)
    decreases cells
  {
    cells != [] ==> EntryHonest(cells[0]) && CellsHonest(cells[1..])
  }

  ghost predicate EntryHonest(e: Entry)
    decreases e
  {
    e.Sub? ==> Honest(e.tree)
  }

  /** No subgrid anywhere in the hierarchy is incomplete. */
  ghost predicate SubgridsComplete(cells: seq<Entry>)
    decreases cells
  {
    cells != [] ==> EntryComplete(cells[0]) && SubgridsComplete(cells[1..])
  }

  ghost predicate EntryComplete(e: Entry)
    decreases e
  {
    e.Sub? ==> e.tree.emptyCells == 0 && SubgridsComplete(e.tree.cells)
  }

  lemma {:induction false} VacantAtMostOpen(cells: seq<Entry>)
    ensures CountVacant(cells) <= CountOpenEntries(cells)
    ensures SubgridsComplete(cells) ==> CountVacant(cells) == CountOpenEntries(cells)
    ensures CountVacant(cells) == CountOpenEntries(cells) ==> forall i :: 0 <= i < |cells| && cells[i].Sub? ==> cells[i].tree.emptyCells == 0
  {
    if cells != [] {
      VacantAtMostOpen(cells[1..]);
      assert SubgridsComplete(cells) ==> EntryComplete(cells[0]) && SubgridsComplete(cells[1..]);
      assert forall i :: 0 < i < |cells| ==> cells[i] == cells[1..][i - 1];
    }
  }

  /** The rebuilt hierarchy is the same in all respects exactly if no subgrid is incomplete. */
  lemma {:induction false} CountersSurvive(t: Tree)
    requires Honest(t)
    ensures Recounted(t) == t <==> SubgridsComplete(t.cells)
    decreases t
  {
    VacantAtMostOpen(t.cells);
    CellsSurvive(t.cells);
  }

  lemma {:induction false} CellsSurvive(cells: seq<Entry>)
    requires CellsHonest(cells)
    ensures SubgridsComplete(cells) ==> CellsRecounted(cells) == cells
    ensures CellsRecounted(cells) == cells && (forall i :: 0 <= i < |cells| && cells[i].Sub? ==> cells[i].tree.emptyCells == 0) ==> SubgridsComplete(cells)
    decreases cells
  {
    if cells != [] {
      CellsSurvive(cells[1..]);
      EntrySurvives(cells[0]);
      var r := CellsRecounted(cells);
      assert r[1..] == CellsRecounted(cells[1..]);
      assert forall i :: 0 < i < |cells| ==> cells[i] == cells[1..][i - 1];
    }
  }

  lemma {:induction false} EntrySurvives(e: Entry)
    requires EntryHonest(e)
    ensures EntryComplete(e) ==> EntryRecounted(e) == e
    ensures EntryRecounted(e) == e && (e.Sub? ==> e.tree.emptyCells == 0) ==> EntryComplete(e)
    decreases e
  {
    if e.Sub? { CountersSurvive(e.tree); }
  }

  /** A grid with one cell, which holds a subgrid without data: the outer counter is lost on the way. */
  lemma CounterIsLost(inner: Tree, outer: Tree)
    requires inner == Tree([[0, 1]], "inner", 1, [Vacant]) && outer == Tree([[0, 1]], "outer", 1, [Sub(inner)])
    ensures WellFormed(outer) && Honest(outer)
    ensures FromJson(ToJson(outer)) == Some(Tree(outer.axes, outer.id, 0, outer.cells)) && outer.emptyCells == 1
  {
    OneCell(inner);
    OneCell(outer);
    assert EntryHonest(outer.cells[0]);
    RoundTrip(outer);
    assert inner.cells[1..] == [] && CellsRecounted(inner.cells) == inner.cells;
    assert Recounted(inner) == inner;
    assert outer.cells[1..] == [] && CellsRecounted(outer.cells) == outer.cells;
  }

  lemma OneCell(t: Tree)
    requires t.axes == [[0, 1]] && |t.cells| == 1 && EntryWellFormed(t.cells[0])
    ensures WellFormed(t) && CountVacant(t.cells) == (if t.cells[0] == Vacant then 1 else 0)
    ensures CountOpenEntries(t.cells) == (if t.cells[0] == Vacant || (t.cells[0].Sub? && t.cells[0].tree.emptyCells != 0) then 1 else 0)
  {
    var n := Intervals(t.axes);
    assert n == [1] && n[1..] == [] && Prod(n) == 1 * Prod(n[1..]);
    assert t.cells[1..] == [];
  }

  // ----- the hierarchy of a store, as a value

  function Vacancies(n: nat): (es: seq<Entry>)
    ensures |es| == n && forall i :: 0 <= i < n ==> es[i] == Vacant
  {
    seq(n, _ => Vacant)
  }

  /** What serialising writes; it allocates the cells of grids that have none. */
  ghost function TreeOf(s: Store, ids: seq<string>, g: nat): Tree
    requires g < |s.grids| == |ids|
    decreases |s.grids| - g, Cellular(s, g) + 1
  {
    var axes := s.grids[g].axes;
    if s.grids[g].cells.Some? then Tree(axes, ids[g], s.grids[g].emptyCells, EntriesFrom(s, ids, g, 0))
    else if AxesOk(axes) then
      ProdPositive(Intervals(axes));
      Tree(axes, ids[g], Prod(Intervals(axes)), Vacancies(Prod(Intervals(axes))))
    else Tree(axes, ids[g], 0, [])
  }

  ghost function EntriesFrom(s: Store, ids: seq<string>, g: nat, i: nat): (es: seq<Entry>)
    requires g < |s.grids| == |ids| && i <= Cellular(s, g)
    ensures |es| == Cellular(s, g) - i
    decreases |s.grids| - g, Cellular(s, g) - i
  {
    if i >= Cellular(s, g) then []
    else
      var cell := s.grids[g].cells.value[i];
      [if SubgridAt(s, g, i) != NULL then Sub(TreeOf(s, ids, SubgridAt(s, g, i))) else if cell.fragment != NULL then Data(cell.fragment) else Vacant]
        + EntriesFrom(s, ids, g, i + 1)
  }

  lemma {:induction false} VacanciesAreHonest(cells: seq<Entry>)
    requires forall i :: 0 <= i < |cells| ==> cells[i] == Vacant
    ensures CellsWellFormed(cells) && CellsHonest(cells) && CountOpenEntries(cells) == |cells|
  {
    if cells != [] { VacanciesAreHonest(cells[1..]); }
  }

  /** Whatever was done to the store, its hierarchies meet what the laws above ask for. */
  lemma {:induction false} StoreTreeIsHonest(s: Store, ids: seq<string>, g: nat)
    requires s.Inv() && g < |s.grids| == |ids|
    ensures WellFormed(TreeOf(s, ids, g)) && Honest(TreeOf(s, ids, g))
    ensures TreeOf(s, ids, g).emptyCells == 0 <==> s.grids[g].IsComplete()
    decreases |s.grids| - g, Cellular(s, g) + 1
  {
    assert s.GridOk(g) && s.CountOk(g, NULL);
    if s.grids[g].cells.Some? {
      EntriesAreHonest(s, ids, g, 0);
      assert s.grids[g].cells.value[..0] == [] && s.CountOpen([]) == 0;
    } else {
      ProdPositive(Intervals(s.grids[g].axes));
      VacanciesAreHonest(Vacancies(Prod(Intervals(s.grids[g].axes))));
    }
  }

  lemma {:induction false} EntriesAreHonest(s: Store, ids: seq<string>, g: nat, i: nat)
    requires s.Inv() && g < |s.grids| == |ids| && i <= Cellular(s, g) && s.grids[g].cells.Some?
    ensures CellsWellFormed(EntriesFrom(s, ids, g, i)) && CellsHonest(EntriesFrom(s, ids, g, i))
    ensures CountOpenEntries(EntriesFrom(s, ids, g, i)) + s.CountOpen(s.grids[g].cells.value[..i]) == s.CountOpen(s.grids[g].cells.value)
    decreases |s.grids| - g, Cellular(s, g) - i
  {
    var cells, es := s.grids[g].cells.value, EntriesFrom(s, ids, g, i);
    if i == |cells| {
      assert cells[..i] == cells;
    } else {
      EntriesAreHonest(s, ids, g, i + 1);
      assert es[1..] == EntriesFrom(s, ids, g, i + 1);
      assert cells[..i + 1][..i] == cells[..i];
      SubgridIsLinked(s, g, i);
      assert s.GridOk(g) && s.CellOk(g, i);
      var c := SubgridAt(s, g, i);
      if c != NULL { StoreTreeIsHonest(s, ids, c); }
    }
  }

  /** Allocating cells does not change what is written. */
  lemma {:induction false} AllocationKeepsTree(s: Store, ids: seq<string>, h: nat, g: nat)
    requires s.Inv() && h < |s.grids| == |ids| && g < |s.grids| && s.grids[h].cells.None? && AxesOk(s.grids[h].axes)
    ensures TreeOf(Allocated(s, h), ids, g) == TreeOf(s, ids, g)
    decreases |s.grids| - g, Cellular(s, g) + 1
  {
    ProdPositive(Intervals(s.grids[h].axes));
    if g == h {
      NewCellsAreVacant(Allocated(s, h), ids, g, 0);
    } else if s.grids[g].cells.Some? {
      AllocationKeepsEntries(s, ids, h, g, 0);
    }
  }

  lemma {:induction false} NewCellsAreVacant(s: Store, ids: seq<string>, g: nat, i: nat)
    requires g < |s.grids| == |ids| && s.grids[g].cells.Some? && i <= |s.grids[g].cells.value|
    requires forall j :: 0 <= j < |s.grids[g].cells.value| ==> s.grids[g].cells.value[j] == EMPTY
    ensures EntriesFrom(s, ids, g, i) == Vacancies(|s.grids[g].cells.value| - i)
    decreases |s.grids[g].cells.value| - i
  {
    if i < |s.grids[g].cells.value| {
      NewCellsAreVacant(s, ids, g, i + 1);
      assert SubgridAt(s, g, i) == NULL;
    }
  }

  lemma {:induction false} AllocationKeepsEntries(s: Store, ids: seq<string>, h: nat, g: nat, i: nat)
    requires s.Inv() && h < |s.grids| == |ids| && g < |s.grids| && g != h && s.grids[h].cells.None? && AxesOk(s.grids[h].axes)
    requires s.grids[g].cells.Some? && i <= Cellular(s, g)
    ensures EntriesFrom(Allocated(s, h), ids, g, i) == EntriesFrom(s, ids, g, i)
    decreases |s.grids| - g, Cellular(s, g) - i
  {
    if i < Cellular(s, g) {
      AllocationKeepsEntries(s, ids, h, g, i + 1);
      assert SubgridAt(Allocated(s, h), g, i) == SubgridAt(s, g, i);
      if SubgridAt(s, g, i) != NULL { AllocationKeepsTree(s, ids, h, SubgridAt(s, g, i)); }
    }
  }

  // ----- what is written are the cells of the store

  /** Grid h is reached from grid g through the subgrids in the cells of the path. */
  ghost predicate LeadsTo(s: Store, g: nat, path: seq<nat>, h: nat)
    requires g < |s.grids|
    decreases |path|
  {
    if path == [] then h == g
    else path[0] < Cellular(s, g) && SubgridAt(s, g, path[0]) != NULL && LeadsTo(s, SubgridAt(s, g, path[0]), path[1..], h)
  }

  /** The subtree that the same path leads to. */
  function Follow(t: Tree, path: seq<nat>): Option<Tree>
    decreases |path|
  {
    if path == [] then Some(t)
    else if path[0] < |t.cells| && t.cells[path[0]].Sub? then Follow(t.cells[path[0]].tree, path[1..])
    else None
  }

  /** The tree has the axes, the id and the cells of grid h: where the grid has a subgrid, a fragment or nothing, so does
      the tree. */
  ghost predicate Depicts(s: Store, ids: seq<string>, h: nat, t: Tree) {
    && h < |s.grids| == |ids| && AxesOk(s.grids[h].axes) && t.axes == s.grids[h].axes && t.id == ids[h]
    && |t.cells| == Prod(Intervals(s.grids[h].axes))
    && (forall i :: 0 <= i < |t.cells| ==> DepictsCell(s, h, i, t.cells[i]))
  }

  ghost predicate DepictsCell(s: Store, h: nat, i: nat, e: Entry)
    requires h < |s.grids|
  {
    if i >= Cellular(s, h) then e == Vacant
    else
      var cell := s.grids[h].cells.value[i];
      && (e.Sub? <==> cell.subgrid != NULL)
      && (cell.subgrid == NULL ==> e == if cell.fragment != NULL then Data(cell.fragment) else Vacant)
  }

  lemma {:induction false} EntryAt(s: Store, ids: seq<string>, g: nat, i: nat, j: nat)
    requires g < |s.grids| == |ids| && i <= j < Cellular(s, g)
    ensures EntriesFrom(s, ids, g, i)[j - i] == EntriesFrom(s, ids, g, j)[0]
    decreases j - i
  {
    if i < j {
      EntryAt(s, ids, g, i + 1, j);
      assert EntriesFrom(s, ids, g, i)[1..] == EntriesFrom(s, ids, g, i + 1);
    }
  }

  lemma {:induction false} RecountedAt(cells: seq<Entry>, i: nat)
    requires i < |cells|
    ensures CellsRecounted(cells)[i] == EntryRecounted(cells[i])
  {
    if i > 0 { RecountedAt(cells[1..], i - 1); }
  }

  /** The cell of what is rebuilt from grid g. */
  lemma RebuiltCell(s: Store, ids: seq<string>, g: nat, i: nat)
    requires s.Inv() && g < |s.grids| == |ids| && i < Cellular(s, g)
    ensures var t := Recounted(TreeOf(s, ids, g));
      && i < |t.cells| && DepictsCell(s, g, i, t.cells[i])
      && (SubgridAt(s, g, i) != NULL ==> t.cells[i] == Sub(Recounted(TreeOf(s, ids, SubgridAt(s, g, i)))))
  {
    SubgridIsLinked(s, g, i);
    EntryAt(s, ids, g, 0, i);
    RecountedAt(EntriesFrom(s, ids, g, 0), i);
  }

  lemma RebuiltGrid(s: Store, ids: seq<string>, g: nat)
    requires s.Inv() && g < |s.grids| == |ids|
    ensures Depicts(s, ids, g, Recounted(TreeOf(s, ids, g)))
  {
    assert s.GridOk(g);
    var t := Recounted(TreeOf(s, ids, g));
    if s.grids[g].cells.Some? {
      forall i | 0 <= i < |t.cells| ensures DepictsCell(s, g, i, t.cells[i]) {
        RebuiltCell(s, ids, g, i);
      }
    } else {
      ProdPositive(Intervals(s.grids[g].axes));
      var n := Prod(Intervals(s.grids[g].axes));
      forall i: nat | i < n ensures |t.cells| == n && t.cells[i] == Vacant { RecountedAt(Vacancies(n), i); }
    }
  }

  lemma {:induction false} FollowRebuilt(s: Store, ids: seq<string>, g: nat, path: seq<nat>, h: nat)
    requires s.Inv() && g < |s.grids| == |ids| && LeadsTo(s, g, path, h)
    ensures h < |s.grids| && Follow(Recounted(TreeOf(s, ids, g)), path) == Some(Recounted(TreeOf(s, ids, h)))
    decreases |path|
  {
    if path != [] {
      RebuiltCell(s, ids, g, path[0]);
      FollowRebuilt(s, ids, SubgridAt(s, g, path[0]), path[1..], h);
    }
  }

  /** Every grid of the hierarchy comes back, at the same place, with its axes, its id, and its cells. */
  lemma GridComesBack(s: Store, ids: seq<string>, g: nat, path: seq<nat>, h: nat)
    requires s.Inv() && g < |s.grids| == |ids| && LeadsTo(s, g, path, h)
    ensures var t := FromJson(ToJson(TreeOf(s, ids, g)));
      t.Some? && Follow(t.value, path).Some? && Depicts(s, ids, h, Follow(t.value, path).value)
  {
    StoreTreeIsHonest(s, ids, g);
    RoundTrip(TreeOf(s, ids, g));
    FollowRebuilt(s, ids, g, path, h);
    RebuiltGrid(s, ids, h);
  }

  /** And nothing else comes back: a path in the rebuilt hierarchy is one in the store. */
  lemma {:induction false} NothingElseComesBack(s: Store, ids: seq<string>, g: nat, path: seq<nat>) returns (h: nat)
    requires s.Inv() && g < |s.grids| == |ids| && Follow(Recounted(TreeOf(s, ids, g)), path).Some?
    ensures LeadsTo(s, g, path, h)
    decreases |path|
  {
    if path == [] { return g; }
    RebuiltGrid(s, ids, g);
    assert DepictsCell(s, g, path[0], Recounted(TreeOf(s, ids, g)).cells[path[0]]);
    SubgridIsLinked(s, g, path[0]);
    RebuiltCell(s, ids, g, path[0]);
    h := NothingElseComesBack(s, ids, SubgridAt(s, g, path[0]), path[1..]);
  }

  lemma {:induction false} LeadsOn(s: Store, g: nat, path: seq<nat>, p: nat, i: nat)
    requires g < |s.grids| && p < |s.grids| && LeadsTo(s, g, path, p) && i < Cellular(s, p) && SubgridAt(s, p, i) != NULL
    ensures LeadsTo(s, g, path + [i], SubgridAt(s, p, i))
    decreases |path|
  {
    var more := path + [i];
    if path == [] {
      assert more[1..] == [];
    } else {
      assert more[1..] == path[1..] + [i];
      LeadsOn(s, SubgridAt(s, g, path[0]), path[1..], p, i);
    }
  }

  /** A path leads to every grid below g. */
  lemma {:induction false} PathTo(s: Store, g: nat, h: nat) returns (path: seq<nat>)
    requires s.Linked() && g < |s.grids| && h < |s.grids| && Under(s, g, h)
    ensures LeadsTo(s, g, path, h)
    decreases h
  {
    if h == g { return []; }
    var p := s.grids[h].parent;
    path := PathTo(s, g, p);
    ChildInSlot(s, h);
    LeadsOn(s, g, path, p, s.slots[h]);
    path := path + [s.slots[h]];
  }

  /** The fragment of every leaf of the hierarchy comes back at the place of the leaf, and so does the lack of one. */
  lemma LeafComesBack(s: Store, ids: seq<string>, g: nat, h: nat, i: nat) returns (path: seq<nat>)
    requires s.Inv() && g < |s.grids| == |ids| && h < |s.grids| && Under(s, g, h) && IsLeaf(s, h, i)
    ensures LeadsTo(s, g, path, h)
    ensures var t := FromJson(ToJson(TreeOf(s, ids, g)));
      && t.Some? && Follow(t.value, path).Some? && i < |Follow(t.value, path).value.cells|
      && Follow(t.value, path).value.cells[i] == if IsHeld(s, h, i) then Data(s.grids[h].cells.value[i].fragment) else Vacant
  {
    path := PathTo(s, g, h);
    GridComesBack(s, ids, g, path, h);
    var t := Follow(FromJson(ToJson(TreeOf(s, ids, g))).value, path).value;
    assert DepictsCell(s, h, i, t.cells[i]);
  }
}
