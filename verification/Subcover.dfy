/** The randomised search for irredundant subsets of a cube list that keep its point union. */
module Subcover {
  import opened Options
  import opened Geometry
  import opened CubeSets

  /** p lies in a selected cube other than number i. */
  ghost predicate InOthers(list: seq<Cube>, sel: seq<bool>, i: int, p: Point)
    requires |sel| == |list|
  {
    exists j :: 0 <= j < |list| && j != i && sel[j] && Contains(list[j], p)
  }

  ghost predicate CoversSelected(list: seq<Cube>, sel: seq<bool>, p: Point)
    requires |sel| == |list|
  {
    exists j :: 0 <= j < |list| && sel[j] && Contains(list[j], p)
  }

  /** Cube i has a point of its own, or no points at all (an empty cube is never reported as covered). */
  ghost predicate Needed(list: seq<Cube>, sel: seq<bool>, i: nat)
    requires |sel| == |list| && i < |list|
  {
    IsEmptyCube(list[i]) || exists p :: Contains(list[i], p) && !InOthers(list, sel, i, p)
  }

  ghost predicate SameUnion(list: seq<Cube>, sel: seq<bool>)
    requires |sel| == |list|
  {
    forall p :: Covers(list, p) <==> CoversSelected(list, sel, p)
  }

  /** No selected cube with points is covered by the other selected cubes. */
  ghost predicate Irredundant(list: seq<Cube>, sel: seq<bool>)
    requires |sel| == |list|
  {
    forall i :: 0 <= i < |list| && sel[i] ==> Needed(list, sel, i)
  }

  function All(n: nat): (s: seq<bool>)
    ensures |s| == n && forall i :: 0 <= i < n ==> s[i]
  {
    seq(n, _ => true)
  }

  // ----- the intersection matrix

  type Row = seq<Option<Cube>>

  /** Row i of the matrix, restricted to the selected cubes; the diagonal is empty. */
  ghost predicate IsRow(list: seq<Cube>, sel: seq<bool>, i: nat, row: Row)
    requires |sel| == |list| && i < |list| && AllOfRank(list, |list[i]|)
  {
    && |row| == |list|
    && forall j :: 0 <= j < |list| ==>
      row[j] == if j != i && sel[j] && Overlapping(list[i], list[j]) then Some(MeetCube(list[i], list[j])) else None
  }

  lemma RowCovers(list: seq<Cube>, sel: seq<bool>, i: nat, row: Row, p: Point)
    requires |sel| == |list| && i < |list| && AllOfRank(list, |list[i]|)
    requires IsRow(list, sel, i, row) && Contains(list[i], p)
    ensures CoveredBy(row, p) <==> InOthers(list, sel, i, p)
  {
    if CoveredBy(row, p) {
      var j :| 0 <= j < |row| && row[j].Some? && Contains(row[j].value, p);
      assert Contains(list[j], p);
    }
    if InOthers(list, sel, i, p) {
      var j :| 0 <= j < |list| && j != i && sel[j] && Contains(list[j], p);
      assert Overlapping(list[i], list[j]);
      assert row[j] == Some(MeetCube(list[i], list[j]));
    }
  }

  /** Checking row i by subtraction decides whether cube i is needed. */
  method CheckNeeded(list: seq<Cube>, ghost sel: seq<bool>, i: nat, row: Row) returns (needed: bool)
    requires |sel| == |list| && i < |list| && AllOfRank(list, |list[i]|)
    requires IsRow(list, sel, i, row)
    ensures needed <==> Needed(list, sel, i)
  {
    forall p | Contains(list[i], p) ensures CoveredBy(row, p) <==> InOthers(list, sel, i, p) {
      RowCovers(list, sel, i, row, p);
    }
    var covered := IsFullyCovered(list[i], row);
    needed := !covered;
  }

  ghost predicate IsMatrix(list: seq<Cube>, sel: seq<bool>, dims: nat, matrix: seq<Row>)
    requires |sel| == |list| && AllOfRank(list, dims)
  {
    |matrix| == |list| && forall i :: 0 <= i < |list| && sel[i] ==> IsRow(list, sel, i, matrix[i])
  }

  ghost predicate AreSizes(list: seq<Cube>, dims: nat, sizes: seq<seq<int>>)
    requires AllOfRank(list, dims)
  {
    && |sizes| == |list|
    && (forall i :: 0 <= i < |list| ==> |sizes[i]| == |list|)
    && (forall i, j :: 0 <= i < |list| && 0 <= j < |list| ==> sizes[i][j] == |Points(list[i]) * Points(list[j])|)
  }

  /** The entries of both matrices for the pair (a, b) hold what they should. */
  ghost predicate Filled(a: Cube, b: Cube, diagonal: bool, entry: Option<Cube>, size: int)
    requires |a| == |b|
  {
    && size == |Points(a) * Points(b)|
    && entry == if !diagonal && Overlapping(a, b) then Some(MeetCube(a, b)) else None
  }

  lemma MeetSymmetric(a: Cube, b: Cube)
    requires |a| == |b|
    ensures MeetCube(a, b) == MeetCube(b, a)
    ensures Overlapping(a, b) <==> Overlapping(b, a)
    ensures Points(a) * Points(b) == Points(b) * Points(a)
  {
    assert MeetCube(a, b) == MeetCube(b, a);
  }

  function Set2<T>(m: seq<seq<T>>, i: nat, j: nat, v: T): (r: seq<seq<T>>)
    requires i < |m| && j < |m[i]|
    ensures |r| == |m| && forall k :: 0 <= k < |m| ==> |r[k]| == |m[k]|
    ensures r[i][j] == v
    ensures forall k, l :: 0 <= k < |m| && 0 <= l < |m[k]| && (k != i || l != j) ==> r[k][l] == m[k][l]
  {
    m[i := m[i][j := v]]
  }

  method OwnSize(a: Cube) returns (size: int)
    requires |a| > 0
    ensures Filled(a, a, true, None, size)
  {
    size := SizeOf(a);
    assert Points(a) * Points(a) == Points(a);
  }

  method IntersectPair(a: Cube, b: Cube) returns (common: Option<Cube>, size: int)
    requires |a| == |b| > 0
    ensures Filled(a, b, false, common, size) && Filled(b, a, false, common, size)
  {
    common := MakeIntersection(a, b);
    MeetSymmetric(a, b);
    PointsOfMeet(a, b);
    size := 0;
    if common.Some? {
      size := SizeOf(common.value);
    } else {
      OverlappingIffMeets(a, b);
      EmptyCubeHasNoPoints(MeetCube(a, b));
      PointCount(MeetCube(a, b));
    }
  }

  ghost predicate Square<T>(m: seq<seq<T>>, n: nat) {
    |m| == n && forall k :: 0 <= k < n ==> |m[k]| == n
  }

  /** Rows and columns below i agree with spec, and so do the first j entries of row i and column i. */
  ghost predicate FilledUpTo<T>(m: seq<seq<T>>, spec: seq<seq<T>>, n: nat, i: int, j: int) {
    && Square(m, n) && Square(spec, n)
    && forall k, l :: 0 <= k < n && 0 <= l < n && (k < i || l < i || (k == i && l < j) || (l == i && k < j)) ==> m[k][l] == spec[k][l]
  }

  lemma FillStep<T>(m: seq<seq<T>>, spec: seq<seq<T>>, n: nat, i: nat, j: nat, v: T)
    requires i <= j < n && FilledUpTo(m, spec, n, i, j)
    requires spec[i][j] == v && spec[j][i] == v
    ensures FilledUpTo(Set2(Set2(m, i, j, v), j, i, v), spec, n, i, j + 1)
  {}

  lemma FillStart<T>(m: seq<seq<T>>, spec: seq<seq<T>>, n: nat, i: nat, v: T)
    requires i < n && FilledUpTo(m, spec, n, i, 0) && spec[i][i] == v
    ensures FilledUpTo(Set2(m, i, i, v), spec, n, i, i + 1)
  {}

  lemma FillRow<T>(m: seq<seq<T>>, spec: seq<seq<T>>, n: nat, i: nat)
    requires i < n && FilledUpTo(m, spec, n, i, n)
    ensures FilledUpTo(m, spec, n, i + 1, 0)
  {}

  lemma FillDone<T>(m: seq<seq<T>>, spec: seq<seq<T>>, n: nat)
    requires FilledUpTo(m, spec, n, n, 0)
    ensures m == spec
  {
    forall k | 0 <= k < n ensures m[k] == spec[k] {}
  }

  /** The matrix of all pairwise intersections, without the diagonal, and the matrix of their sizes. */
  ghost function Intersections(list: seq<Cube>, dims: nat): (m: seq<Row>)
    requires AllOfRank(list, dims)
    ensures Square(m, |list|)
    ensures forall i, j :: 0 <= i < |list| && 0 <= j < |list| ==>
      m[i][j] == if i != j && Overlapping(list[i], list[j]) then Some(MeetCube(list[i], list[j])) else None
  {
    seq(|list|, i requires 0 <= i < |list| => seq(|list|, j requires 0 <= j < |list| =>
      if i != j && Overlapping(list[i], list[j]) then Some(MeetCube(list[i], list[j])) else None))
  }

  ghost function IntersectionSizes(list: seq<Cube>): (m: seq<seq<int>>)
    ensures Square(m, |list|)
    ensures forall i, j :: 0 <= i < |list| && 0 <= j < |list| ==> m[i][j] == |Points(list[i]) * Points(list[j])|
  {
    seq(|list|, i requires 0 <= i < |list| => seq(|list|, j requires 0 <= j < |list| => |Points(list[i]) * Points(list[j])|))
  }

  method FillMatrices(list: seq<Cube>, dims: nat, ghost ms: seq<Row>, ghost ss: seq<seq<int>>) returns (matrix: seq<Row>, sizes: seq<seq<int>>)
    requires AllOfRank(list, dims) && dims > 0 && Square(ms, |list|) && Square(ss, |list|)
    requires forall i, j :: 0 <= i < |list| && 0 <= j < |list| ==> Filled(list[i], list[j], i == j, ms[i][j], ss[i][j])
    ensures matrix == ms && sizes == ss
  {
    var n := |list|;
    matrix := seq(n, _ => seq(n, _ => None));
    sizes := seq(n, _ => seq(n, _ => 0));
    for i := 0 to n
      invariant FilledUpTo(matrix, ms, n, i, 0) && FilledUpTo(sizes, ss, n, i, 0)
    {
      var own := OwnSize(list[i]);
      assert Filled(list[i], list[i], true, ms[i][i], ss[i][i]);
      FillStart(matrix, ms, n, i, None);
      FillStart(sizes, ss, n, i, own);
      matrix, sizes := Set2(matrix, i, i, None), Set2(sizes, i, i, own);
      for j := i + 1 to n
        invariant FilledUpTo(matrix, ms, n, i, j) && FilledUpTo(sizes, ss, n, i, j)
      {
        var common, size := IntersectPair(list[i], list[j]);
        assert Filled(list[i], list[j], false, ms[i][j], ss[i][j]) && Filled(list[j], list[i], false, ms[j][i], ss[j][i]);
        FillStep(matrix, ms, n, i, j, common);
        FillStep(sizes, ss, n, i, j, size);
        matrix := Set2(Set2(matrix, i, j, common), j, i, common);
        sizes := Set2(Set2(sizes, i, j, size), j, i, size);
      }
      FillRow(matrix, ms, n, i);
      FillRow(sizes, ss, n, i);
    }
    FillDone(matrix, ms, n);
    FillDone(sizes, ss, n);
  }

  method MakeIntersectionMatrix(list: seq<Cube>, dims: nat) returns (matrix: seq<Row>, sizes: seq<seq<int>>)
    requires AllOfRank(list, dims) && dims > 0
    ensures IsMatrix(list, All(|list|), dims, matrix)
    ensures AreSizes(list, dims, sizes)
  {
    matrix, sizes := FillMatrices(list, dims, Intersections(list, dims), IntersectionSizes(list));
  }

  // ----- the shortcut: too little total overlap means that the cube is needed

  function OverlapSum(sizes: seq<int>, n: nat): int
    requires n <= |sizes|
  {
    if n == 0 then 0 else OverlapSum(sizes, n - 1) + sizes[n - 1]
  }

  ghost function PointSets(list: seq<Cube>): (r: seq<set<Point>>)
    ensures |r| == |list| && forall k :: 0 <= k < |list| ==> r[k] == Points(list[k])
  {
    seq(|list|, k requires 0 <= k < |list| => Points(list[k]))
  }

  /** The part of sets[i] that lies in one of the first n other sets. */
  ghost function Shared<T>(sets: seq<set<T>>, i: nat, n: nat): set<T>
    requires i < |sets| && n <= |sets|
  {
    if n == 0 then {} else Shared(sets, i, n - 1) + if n - 1 == i then {} else sets[i] * sets[n - 1]
  }

  lemma {:induction false} UnionBound<T>(sets: seq<set<T>>, i: nat, n: nat, sizes: seq<int>)
    requires i < |sets| == |sizes| && n <= |sets|
    requires forall j :: 0 <= j < |sets| ==> sizes[j] == |sets[i] * sets[j]|
    ensures |Shared(sets, i, n)| + (if i < n then sizes[i] else 0) <= OverlapSum(sizes, n)
  {
    if n > 0 {
      UnionBound(sets, i, n - 1, sizes);
      if n - 1 == i {
        assert Shared(sets, i, n) == Shared(sets, i, n - 1);
      } else {
        UnionSize(Shared(sets, i, n - 1), sets[i] * sets[n - 1]);
      }
    }
  }

  lemma UnionSize<T>(a: set<T>, b: set<T>)
    ensures |a + b| <= |a| + |b|
  {
    assert a + b == a + (b - a);
    SubsetSize(b - a, b);
  }

  lemma {:induction false} SharedComplete<T>(sets: seq<set<T>>, i: nat, n: nat, j: nat, x: T)
    requires i < |sets| && n <= |sets| && j < n && j != i && x in sets[i] && x in sets[j]
    ensures x in Shared(sets, i, n)
  {
    if j != n - 1 { SharedComplete(sets, i, n - 1, j, x); }
  }

  /** If the overlaps with all cubes, itself included, sum up to less than twice its size, a point of cube i is in no other cube. */
  lemma ShortcutIsSound(list: seq<Cube>, i: nat, sizes: seq<int>)
    requires i < |list| == |sizes|
    requires forall j :: 0 <= j < |list| ==> sizes[j] == |Points(list[i]) * Points(list[j])|
    requires OverlapSum(sizes, |list|) < 2 * sizes[i]
    ensures Needed(list, All(|list|), i)
  {
    var sets := PointSets(list);
    UnionBound(sets, i, |list|, sizes);
    assert sets[i] * sets[i] == sets[i];
    var others := Shared(sets, i, |list|);
    assert !(sets[i] <= others) by {
      if sets[i] <= others { SubsetSize(sets[i], others); }
    }
    var p :| p in sets[i] && p !in others;
    PointsAreMembers(list[i], p);
    forall j | 0 <= j < |list| && j != i ensures !Contains(list[j], p) {
      PointsAreMembers(list[j], p);
      if p in sets[j] { SharedComplete(sets, i, |list|, j, p); }
    }
    assert !InOthers(list, All(|list|), i, p);
  }

  // ----- one minimal subset

  function CountUnchecked(checked: seq<bool>): (n: nat)
    ensures n <= |checked|
  {
    if checked == [] then 0 else CountUnchecked(checked[1..]) + if checked[0] then 0 else 1
  }

  lemma {:induction false} CountAfterCheck(checked: seq<bool>, i: nat)
    requires i < |checked| && !checked[i]
    ensures CountUnchecked(checked[i := true]) == CountUnchecked(checked) - 1
  {
    if i > 0 {
      assert checked[i := true][1..] == checked[1..][i - 1 := true];
      CountAfterCheck(checked[1..], i - 1);
    } else {
      assert checked[i := true][1..] == checked[1..];
    }
  }

  lemma {:induction false} CountZero(checked: seq<bool>, i: nat)
    requires CountUnchecked(checked) == 0 && i < |checked|
    ensures checked[i]
  {
    if i > 0 { CountZero(checked[1..], i - 1); }
  }

  lemma {:induction false} CountSnoc(checked: seq<bool>, b: bool)
    ensures CountUnchecked(checked + [b]) == CountUnchecked(checked) + if b then 0 else 1
  {
    if checked == [] {
      assert checked + [b] == [b];
    } else {
      assert (checked + [b])[1..] == checked[1..] + [b];
      CountSnoc(checked[1..], b);
    }
  }

  /** Turns the number of an unchecked cube into its index. */
  method SelectUnchecked(checked: seq<bool>, selector: nat) returns (index: nat)
    requires selector < CountUnchecked(checked)
    ensures index < |checked| && !checked[index] && CountUnchecked(checked[..index]) == selector
  {
    var left := selector;
    index := 0;
    assert checked[0..] == checked;
    while true
      invariant 0 <= index <= |checked|
      invariant 0 <= left < CountUnchecked(checked[index..]) && CountUnchecked(checked[..index]) + left == selector
      decreases |checked| - index
    {
      assert checked[index..][1..] == checked[index + 1..] && checked[..index + 1] == checked[..index] + [checked[index]];
      CountSnoc(checked[..index], checked[index]);
      if !checked[index] {
        if left == 0 { return; }
        left := left - 1;
      }
      index := index + 1;
    }
  }

  /** The part of the search state that every check preserves. */
  ghost predicate Searching(list: seq<Cube>, dims: nat, checked: seq<bool>, sel: seq<bool>, matrix: seq<Row>)
  {
    && AllOfRank(list, dims)
    && |checked| == |sel| == |list|
    && IsMatrix(list, sel, dims, matrix)
    && SameUnion(list, sel)
    && (forall i :: 0 <= i < |list| && !checked[i] ==> sel[i])
    && (forall i :: 0 <= i < |list| && checked[i] && sel[i] ==> Needed(list, sel, i))
  }

  lemma DropKeepsUnion(list: seq<Cube>, sel: seq<bool>, i: nat)
    requires |sel| == |list| && i < |list| && SameUnion(list, sel) && !Needed(list, sel, i)
    ensures SameUnion(list, sel[i := false])
  {
    var sel' := sel[i := false];
    forall p ensures Covers(list, p) <==> CoversSelected(list, sel', p) {
      if CoversSelected(list, sel, p) {
        var j :| 0 <= j < |list| && sel[j] && Contains(list[j], p);
        if j == i {
          assert InOthers(list, sel, i, p);
          var l :| 0 <= l < |list| && l != i && sel[l] && Contains(list[l], p);
          assert sel'[l];
        } else {
          assert sel'[j];
        }
      }
      if CoversSelected(list, sel', p) {
        var j :| 0 <= j < |list| && sel'[j] && Contains(list[j], p);
        assert sel[j];
      }
    }
  }

  /** Dropping a cube never makes another selected cube redundant. */
  lemma DropKeepsNeeded(list: seq<Cube>, sel: seq<bool>, i: nat, k: nat)
    requires |sel| == |list| && i < |list| && k < |list| && Needed(list, sel, k)
    ensures Needed(list, sel[i := false], k)
  {
    if !IsEmptyCube(list[k]) {
      var p :| Contains(list[k], p) && !InOthers(list, sel, k, p);
      forall j | 0 <= j < |list| && j != k && sel[i := false][j] ensures !Contains(list[j], p) { assert sel[j]; }
      assert !InOthers(list, sel[i := false], k, p);
    }
  }

  /** Removes the dropped cube's row and column. */
  method ClearCross(matrix: seq<Row>, c: nat) returns (r: seq<Row>)
    requires c < |matrix| && forall i :: 0 <= i < |matrix| ==> |matrix[i]| == |matrix|
    ensures |r| == |matrix| && forall i :: 0 <= i < |r| ==> |r[i]| == |r|
    ensures forall i, j :: 0 <= i < |r| && 0 <= j < |r| ==> r[i][j] == if i == c || j == c then None else matrix[i][j]
  {
    r := matrix;
    for j := 0 to |matrix|
      invariant |r| == |matrix| && forall i :: 0 <= i < |r| ==> |r[i]| == |r|
      invariant forall i, k :: 0 <= i < |r| && 0 <= k < |r| ==>
        r[i][k] == if (i == c && k < j) || (k == c && i < j) then None else matrix[i][k]
    {
      r := Set2(Set2(r, c, j, None), j, c, None);
    }
  }

  lemma DropClearsMatrix(list: seq<Cube>, dims: nat, sel: seq<bool>, c: nat, matrix: seq<Row>, r: seq<Row>)
    requires AllOfRank(list, dims) && |sel| == |list| && c < |list|
    requires IsMatrix(list, sel, dims, matrix)
    requires |r| == |matrix| && (forall i :: 0 <= i < |r| ==> |r[i]| == |r| && |matrix[i]| == |r|)
    requires forall i, j :: 0 <= i < |r| && 0 <= j < |r| ==> r[i][j] == if i == c || j == c then None else matrix[i][j]
    ensures IsMatrix(list, sel[c := false], dims, r)
  {
    forall i | 0 <= i < |list| && sel[c := false][i] ensures IsRow(list, sel[c := false], i, r[i]) {
      assert IsRow(list, sel, i, matrix[i]);
    }
  }

  /** For every sequence of random picks: the selection keeps the point union and is irredundant. */
  method FindMinimalSubset(list: seq<Cube>, dims: nat, required: seq<bool>, matrix: seq<Row>) returns (selected: seq<bool>)
    requires AllOfRank(list, dims) && |required| == |list|
    requires IsMatrix(list, All(|list|), dims, matrix)
    requires forall i :: 0 <= i < |list| && required[i] ==> Needed(list, All(|list|), i)
    ensures |selected| == |list|
    ensures SameUnion(list, selected)
    ensures Irredundant(list, selected)
    ensures forall i :: 0 <= i < |list| && required[i] ==> selected[i]
  {
    selected := All(|list|);
    var checked, reduced := required, matrix;
    var unchecked := 0;
    for i := 0 to |list|
      invariant unchecked == CountUnchecked(checked[..i])
    {
      assert checked[..i + 1] == checked[..i] + [checked[i]];
      CountSnoc(checked[..i], checked[i]);
      unchecked := unchecked + if checked[i] then 0 else 1;
    }
    assert checked[..|list|] == checked;
    forall p ensures Covers(list, p) <==> CoversSelected(list, selected, p) {}
    while unchecked > 0
      invariant 0 <= unchecked
      invariant Searching(list, dims, checked, selected, reduced)
      invariant forall i :: 0 <= i < |reduced| ==> |reduced[i]| == |list|
      invariant unchecked == CountUnchecked(checked)
      invariant forall i :: 0 <= i < |list| && required[i] ==> selected[i] && checked[i]
    {
      var pick :| 0 <= pick < unchecked;
      var index := SelectUnchecked(checked, pick);
      var needed := CheckNeeded(list, selected, index, reduced[index]);
      CountAfterCheck(checked, index);
      if !needed {
        ghost var before := selected;
        DropKeepsUnion(list, selected, index);
        forall k | 0 <= k < |list| && Needed(list, before, k) ensures Needed(list, before[index := false], k) {
          DropKeepsNeeded(list, before, index, k);
        }
        selected := selected[index := false];
        var cleared := ClearCross(reduced, index);
        DropClearsMatrix(list, dims, before, index, reduced, cleared);
        reduced := cleared;
      }
      checked := checked[index := true];
      unchecked := unchecked - 1;
    }
    forall i | 0 <= i < |list| ensures checked[i] { CountZero(checked, i); }
  }

  method Coverage(sizes: seq<int>) returns (coverage: int)
    ensures coverage == OverlapSum(sizes, |sizes|)
  {
    coverage := 0;
    for j := 0 to |sizes|
      invariant coverage == OverlapSum(sizes, j)
    {
      coverage := coverage + sizes[j];
    }
  }

  method IsRequired(list: seq<Cube>, i: nat, row: Row, sizes: seq<int>) returns (needed: bool)
    requires i < |list| == |sizes| && AllOfRank(list, |list[i]|)
    requires IsRow(list, All(|list|), i, row)
    requires forall j :: 0 <= j < |list| ==> sizes[j] == |Points(list[i]) * Points(list[j])|
    ensures needed <==> Needed(list, All(|list|), i)
  {
    var coverage := Coverage(sizes);
    if coverage < 2 * sizes[i] {
      ShortcutIsSound(list, i, sizes);
      needed := true;
    } else {
      needed := CheckNeeded(list, All(|list|), i, row);
    }
  }

  method RequiredCubes(list: seq<Cube>, dims: nat, matrix: seq<Row>, sizes: seq<seq<int>>) returns (required: seq<bool>)
    requires AllOfRank(list, dims)
    requires IsMatrix(list, All(|list|), dims, matrix) && AreSizes(list, dims, sizes)
    ensures |required| == |list|
    ensures forall i :: 0 <= i < |list| ==> (required[i] <==> Needed(list, All(|list|), i))
  {
    required := [];
    for i := 0 to |list|
      invariant |required| == i
      invariant forall k :: 0 <= k < i ==> (required[k] <==> Needed(list, All(|list|), k))
    {
      var needed := IsRequired(list, i, matrix[i], sizes[i]);
      required := required + [needed];
    }
  }

  method NonredundantSubsets(list: seq<Cube>, dims: nat, setCount: nat) returns (subsets: seq<seq<bool>>)
    requires AllOfRank(list, dims) && dims > 0
    ensures |subsets| == setCount
    ensures forall s :: 0 <= s < setCount ==> |subsets[s]| == |list| && SameUnion(list, subsets[s]) && Irredundant(list, subsets[s])
  {
    var matrix, sizes := MakeIntersectionMatrix(list, dims);
    var required := RequiredCubes(list, dims, matrix, sizes);
    subsets := [];
    for s := 0 to setCount
      invariant |subsets| == s
      invariant forall k :: 0 <= k < s ==> |subsets[k]| == |list| && SameUnion(list, subsets[k]) && Irredundant(list, subsets[k])
    {
      var subset := FindMinimalSubset(list, dims, required, matrix);
      subsets := subsets + [subset];
    }
  }
}
