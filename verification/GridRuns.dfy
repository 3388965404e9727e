/** Whole runs of the operations on a dataset's grids. */
module GridRuns {
  import opened MixedRadix
  import opened Geometry
  import opened Axes
  import opened GridCells
  import opened Grids
  import opened GridOps
  import opened GridLeaves
  import opened GridAccess

  /** A call, with the failures of the backend that it meets. */
  datatype Operation =
    | NewGrid(offset: seq<int>, size: seq<int>)
    | Subdivision(g: nat, dim: int, division: Division)
    | NewSubgrid(p: nat, index: seq<int>)
    | Write(g: nat, x: Cube, createFails: bool, writeFails: bool)
    | Read(g: nat, x: Cube, readFails: bool, createFails: bool)

  /** The call is one that a caller may make. */
  predicate Admissible(s: Store, op: Operation) {
    match op
    case NewGrid(offset, size) => |offset| == |size| && AllPositive(size)
    case Subdivision(g, _, division) => g < |s.grids| && Sensible(division)
    case NewSubgrid(p, index) => p < |s.grids| && |index| == |s.grids[p].axes|
    case Write(g, _, _, _) => g < |s.grids|
    case Read(g, _, _, _) => g < |s.grids|
  }

  ghost predicate RedividedAs(s: Store, t: Store, g: nat, dim: int, division: Division, b: Bounds) {
    && g < |s.grids| && 0 <= dim < |s.grids[g].axes| && AxesOk(s.grids[g].axes) && s.grids[g].cells.None? && Sensible(division)
    && DividedAs(s.grids[g].axes[dim], division, b) && t == Redivided(s, g, dim, b)
  }

  /** Leaf (h, i) had no fragment, and only that cell got something new. */
  ghost predicate AccessedAt(s: Store, t: Store, g: nat, x: Cube, h: nat, i: nat) {
    LeafWith(s, g, h, i, x) && !IsHeld(s, h, i) && OnlyCell(s, t, h, i) && StillComplete(s, t) && t.Inv()
  }

  ghost predicate Accessed(s: Store, t: Store, g: nat, x: Cube) {
    t == s || exists h: nat, i: nat :: AccessedAt(s, t, g, x, h, i)
  }

  /** What a call may do to the grids. */
  ghost predicate Effect(s: Store, op: Operation, t: Store) {
    match op
    case NewGrid(offset, size) => |offset| == |size| && AllPositive(size) && t == Created(s, BoxAxes(offset, size))
    case Subdivision(g, dim, division) => t == s || exists b :: RedividedAs(s, t, g, dim, division, b)
    case NewSubgrid(p, index) => t == s || SubgridPut(s, t, p, index)
    case Write(g, x, _, _) => Accessed(s, t, g, x)
    case Read(g, x, _, _) => Accessed(s, t, g, x)
  }

  ghost predicate Step(s: Store, op: Operation, t: Store) {
    if Admissible(s, op) then Effect(s, op, t) else t == s
  }

  ghost predicate IsRun(states: seq<Store>, ops: seq<Operation>) {
    && |states| == |ops| + 1 && states[0] == Store([], [], [], 0, [])
    && forall i :: 0 <= i < |ops| ==> Step(states[i], ops[i], states[i + 1])
  }

  // ----- the operations make such steps

  method Perform(store: GridStore, op: Operation)
    requires store.Value().Inv() && Admissible(store.Value(), op)
    modifies store
    ensures store.Value().Inv() && Effect(old(store.Value()), op, store.Value())
  {
    match op {
      case NewGrid(offset, size) => var _ := CreateGrid(store, offset, size);
      case Subdivision(g, dim, division) => var _ := PerformSubdivision(store, g, dim, division);
      case NewSubgrid(p, index) => var _, _ := CreateSubgrid(store, p, index);
      case Write(g, x, createFails, writeFails) => PerformWrite(store, g, x, createFails, writeFails);
      case Read(g, x, readFails, createFails) => PerformRead(store, g, x, readFails, createFails);
    }
  }

  method PerformSubdivision(store: GridStore, g: nat, dim: int, division: Division) returns (status: Status)
    requires store.Value().Inv() && g < |store.grids| && Sensible(division)
    modifies store`grids
    ensures store.Value().Inv()
    ensures store.Value() == old(store.Value()) || exists b :: RedividedAs(old(store.Value()), store.Value(), g, dim, division, b)
  {
    ghost var s := store.Value();
    status := SubdivideAxis(store, g, dim, division);
    if status == Success { assert RedividedAs(s, store.Value(), g, dim, division, store.grids[g].axes[dim]); }
  }

  method PerformWrite(store: GridStore, g: nat, x: Cube, createFails: bool, writeFails: bool)
    requires store.Value().Inv() && g < |store.grids|
    modifies store
    ensures store.Value().Inv() && Accessed(old(store.Value()), store.Value(), g, x)
  {
    ghost var s := store.Value();
    var status;
    ghost var h, i;
    status, h, i := WriteGrid(store, g, x, createFails, writeFails);
    assert store.Value() == s || AccessedAt(s, store.Value(), g, x, h, i);
  }

  method PerformRead(store: GridStore, g: nat, x: Cube, readFails: bool, createFails: bool)
    requires store.Value().Inv() && g < |store.grids|
    modifies store
    ensures store.Value().Inv() && Accessed(old(store.Value()), store.Value(), g, x)
  {
    ghost var s := store.Value();
    var status;
    ghost var h, i;
    status, h, i := ReadGrid(store, g, x, readFails, createFails);
    assert store.Value() == s || AccessedAt(s, store.Value(), g, x, h, i);
  }

  /** Every sequence of calls on a new dataset is a run. */
  method PerformAll(ops: seq<Operation>) returns (store: GridStore, ghost states: seq<Store>)
    ensures IsRun(states, ops) && store.Value() == states[|ops|]
  {
    store := new GridStore();
    states := [store.Value()];
    for k := 0 to |ops|
      invariant fresh(store) && |states| == k + 1 && store.Value() == states[k] && store.Value().Inv()
      invariant states[0] == Store([], [], [], 0, [])
      invariant forall i :: 0 <= i < k ==> Step(states[i], ops[i], states[i + 1])
    {
      var may := MayCall(store, ops[k]);
      if may { Perform(store, ops[k]); }
      assert Step(states[k], ops[k], store.Value());
      states := states + [store.Value()];
    }
  }

  method MayCall(store: GridStore, op: Operation) returns (may: bool)
    ensures may <==> Admissible(store.Value(), op)
  {
    var n := |store.grids|;
    match op {
      case NewGrid(offset, size) => may := |offset| == |size| && forall d :: 0 <= d < |size| ==> size[d] > 0;
      case Subdivision(g, _, division) => may := g < n && Sensible(division);
      case NewSubgrid(p, index) => may := p < n && |index| == |store.grids[p].axes|;
      case Write(g, _, _, _) => may := g < n;
      case Read(g, _, _, _) => may := g < n;
    }
  }

  // ----- what every step keeps

  /** A complete grid stays exactly as it is. */
  ghost predicate Freezes(s: Store, t: Store) {
    |s.grids| <= |t.grids| && forall g :: 0 <= g < |s.grids| && s.grids[g].IsComplete() ==> t.grids[g] == s.grids[g]
  }

  lemma SubgridStep(s: Store, t: Store, p: nat, index: seq<int>)
    requires s.Inv() && SubgridPut(s, t, p, index)
    ensures t.Inv() && Freezes(s, t)
  {
    var e, i := Ensured(s, p), Rank(index, Intervals(s.grids[p].axes));
    if s.grids[p].cells.None? { AllocatedInv(s, p); } else { StillOpen(s, p, i); }
    WithSubgridInv(e, p, i);
    OnlyOneChanges(s, t, p);
  }

  lemma OnlyOneChanges(s: Store, t: Store, p: nat)
    requires p < |s.grids| <= |t.grids| && !s.grids[p].IsComplete() && forall g :: 0 <= g < |s.grids| && g != p ==> t.grids[g] == s.grids[g]
    ensures Freezes(s, t)
  {}

  lemma AccessStep(s: Store, t: Store, g: nat, x: Cube, h: nat, i: nat)
    requires s.Inv() && AccessedAt(s, t, g, x, h, i)
    ensures Freezes(s, t)
  {
    if s.grids[h].cells.Some? {
      assert s.grids[h].cells.value[i] == EMPTY by { assert s.GridOk(h) && s.CellOk(h, i); }
      StillOpen(s, h, i);
    }
    forall k | 0 <= k < |s.grids| && s.grids[k].IsComplete() ensures t.grids[k] == s.grids[k] {
      assert SameGrid(s.grids[k], t.grids[k], k == h, i);
    }
  }

  lemma StepKeeps(s: Store, op: Operation, t: Store)
    requires s.Inv() && Step(s, op, t)
    ensures t.Inv() && Freezes(s, t)
  {
    if Admissible(s, op) && t != s {
      match op
      case NewGrid(offset, size) => CreatedInv(s, BoxAxes(offset, size));
      case Subdivision(g, dim, division) =>
        var b :| RedividedAs(s, t, g, dim, division, b);
        RedividedInv(s, g, dim, b);
      case NewSubgrid(p, index) => SubgridStep(s, t, p, index);
      case Write(g, x, _, _) =>
        var h: nat, i: nat :| AccessedAt(s, t, g, x, h, i);
        AccessStep(s, t, g, x, h, i);
      case Read(g, x, _, _) =>
        var h: nat, i: nat :| AccessedAt(s, t, g, x, h, i);
        AccessStep(s, t, g, x, h, i);
    }
  }

  // ----- over whole runs

  lemma {:induction false} RunKeepsInv(states: seq<Store>, ops: seq<Operation>, i: nat)
    requires IsRun(states, ops) && i < |states|
    ensures states[i].Inv()
  {
    if i > 0 {
      RunKeepsInv(states, ops, i - 1);
      assert Step(states[i - 1], ops[i - 1], states[i - 1 + 1]);
      StepKeeps(states[i - 1], ops[i - 1], states[i]);
    }
  }

  lemma StepFreezes(states: seq<Store>, ops: seq<Operation>, i: nat)
    requires IsRun(states, ops) && i < |ops|
    ensures Freezes(states[i], states[i + 1])
  {
    RunKeepsInv(states, ops, i);
    StepKeeps(states[i], ops[i], states[i + 1]);
  }

  lemma RunFreezes(states: seq<Store>, ops: seq<Operation>, i: nat, j: nat)
    requires IsRun(states, ops) && i <= j < |states|
    ensures Freezes(states[i], states[j])
  {
    forall k: nat | i <= k < j ensures Freezes(states[k], states[k + 1]) { StepFreezes(states, ops, k); }
    FreezesThrough(states, i, j);
  }

  lemma {:induction false} FreezesThrough(states: seq<Store>, i: nat, j: nat)
    requires i <= j < |states| && forall k: nat :: i <= k < j ==> Freezes(states[k], states[k + 1])
    ensures Freezes(states[i], states[j])
    decreases j - i
  {
    if i < j {
      FreezesThrough(states, i, j - 1);
      assert Freezes(states[j - 1], states[j - 1 + 1]);
      FreezesBoth(states[i], states[j - 1], states[j]);
    }
  }

  lemma FreezesBoth(s: Store, t: Store, u: Store)
    requires Freezes(s, t) && Freezes(t, u)
    ensures Freezes(s, u)
  {}

  lemma {:induction false} UnderBoth(s: Store, g: nat, h: nat, k: nat)
    requires k < |s.grids| && h < |s.grids| && Under(s, g, h) && Under(s, h, k)
    ensures Under(s, g, k)
    decreases k
  {
    if k != h { UnderBoth(s, g, h, s.grids[k].parent); }
  }

  /** Grids below a complete grid are complete. */
  lemma CompleteBelow(s: Store, g: nat, h: nat)
    requires s.Inv() && g <= h < |s.grids| && Under(s, g, h) && s.grids[g].IsComplete()
    ensures s.grids[h].IsComplete()
  {
    forall k: nat | h <= k < |s.grids| && Under(s, h, k) ensures AllTaken(s, k) {
      UnderBoth(s, g, h, k);
      CompleteMeansFilled(s, g, k);
    }
    FilledMeansComplete(s, h);
  }

  /** From the moment at which a grid is complete, it and all grids below it stay exactly as they are,
      and a top-level grid stays in the list of complete grids. */
  lemma CompleteForever(states: seq<Store>, ops: seq<Operation>, i: nat, j: nat, g: nat)
    requires IsRun(states, ops) && i <= j < |states| && g < |states[i].grids| && states[i].grids[g].IsComplete()
    ensures states[j].Inv() && |states[i].grids| <= |states[j].grids| && states[j].grids[g].IsComplete()
    ensures forall h: nat :: g <= h < |states[i].grids| && Under(states[i], g, h) ==> states[j].grids[h] == states[i].grids[h]
    ensures states[i].grids[g].parent == NULL ==> g in states[j].order[..states[j].complete]
  {
    RunKeepsInv(states, ops, i);
    RunKeepsInv(states, ops, j);
    RunFreezes(states, ops, i, j);
    forall h: nat | g <= h < |states[i].grids| && Under(states[i], g, h) ensures states[j].grids[h] == states[i].grids[h] {
      CompleteBelow(states[i], g, h);
    }
    CompletionIsExact(states[j], g);
  }

  ghost predicate CompleteIn(s: Store, g: nat) { g < |s.grids| && s.grids[g].IsComplete() }

  /** Step i of the run completes grid g. */
  ghost predicate Completes(states: seq<Store>, i: nat, g: nat) {
    i + 1 < |states| && !CompleteIn(states[i], g) && CompleteIn(states[i + 1], g)
  }

  /** No grid completes twice. */
  lemma CompletesOnce(states: seq<Store>, ops: seq<Operation>, i: nat, j: nat, g: nat)
    requires IsRun(states, ops) && Completes(states, i, g) && Completes(states, j, g)
    ensures i == j
  {
    if i < j { RunFreezes(states, ops, i + 1, j); }
    if j < i { RunFreezes(states, ops, j + 1, i); }
  }
}
