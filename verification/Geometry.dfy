/** Ranges, hypercubes and their meaning as sets of coordinate vectors. */
module Geometry {
  import opened Options

  datatype Range = Range(start: int, end: int) {
    predicate IsEmpty() { start >= end }

    predicate Has(x: int) { start <= x < end }

    function Size(): int { if IsEmpty() then 0 else end - start }
  }

  function Meet(a: Range, b: Range): (r: Range)
    ensures forall x :: r.Has(x) <==> a.Has(x) && b.Has(x)
  {
    Range(if a.start > b.start then a.start else b.start, if a.end < b.end then a.end else b.end)
  }

  type Point = seq<int>
  type Cube = seq<Range>

  predicate Contains(c: Cube, p: Point) {
    |p| == |c| && forall i :: 0 <= i < |c| ==> c[i].Has(p[i])
  }

  predicate IsEmptyCube(c: Cube) {
    exists i :: 0 <= i < |c| && c[i].IsEmpty()
  }

  /** The corner with the smallest coordinates: a member of every cube that has members. */
  function Corner(c: Cube): (p: Point)
    ensures |p| == |c| && forall i :: 0 <= i < |c| ==> p[i] == c[i].start
    ensures Contains(c, p) <==> !IsEmptyCube(c)
  {
    seq(|c|, i requires 0 <= i < |c| => c[i].start)
  }

  function MeetCube(a: Cube, b: Cube): (c: Cube)
    requires |a| == |b|
    ensures |c| == |a| && forall i :: 0 <= i < |c| ==> c[i] == Meet(a[i], b[i])
    ensures forall p :: Contains(c, p) <==> Contains(a, p) && Contains(b, p)
  {
    var c := seq(|a|, i requires 0 <= i < |a| => Meet(a[i], b[i]));
    assert forall p :: Contains(c, p) <==> Contains(a, p) && Contains(b, p) by {
      forall p
        ensures Contains(c, p) <==> Contains(a, p) && Contains(b, p)
      {
        if Contains(c, p) {
          forall i | 0 <= i < |a| ensures a[i].Has(p[i]) && b[i].Has(p[i]) { assert c[i].Has(p[i]); }
        }
      }
    }
    c
  }

  ghost predicate Overlapping(a: Cube, b: Cube) {
    exists p :: Contains(a, p) && Contains(b, p)
  }

  lemma OverlappingIffMeets(a: Cube, b: Cube)
    requires |a| == |b|
    ensures Overlapping(a, b) <==> !IsEmptyCube(MeetCube(a, b))
  {
    var c := MeetCube(a, b);
    if Overlapping(a, b) {
      var p :| Contains(a, p) && Contains(b, p);
      assert Contains(c, p);
      forall i | 0 <= i < |c| ensures !c[i].IsEmpty() { assert c[i].Has(p[i]); }
    }
    if !IsEmptyCube(c) { assert Contains(c, Corner(c)); }
  }

  // ----- point sets and their size

  function Ints(r: Range): set<int> { set x | r.start <= x < r.end && r.Has(x) }

  ghost function Prefixed(x: int, s: set<Point>): set<Point> { set p | p in s :: [x] + p }

  ghost function Points(c: Cube): set<Point> {
    if c == [] then {[]} else set x, p | x in Ints(c[0]) && p in Points(c[1..]) :: [x] + p
  }

  function CubeSize(c: Cube): int {
    if c == [] then 1 else c[0].Size() * CubeSize(c[1..])
  }

  lemma {:induction false} PointsAreMembers(c: Cube, p: Point)
    ensures p in Points(c) <==> Contains(c, p)
  {
    if c != [] {
      if p in Points(c) {
        var x, q :| x in Ints(c[0]) && q in Points(c[1..]) && p == [x] + q;
        PointsAreMembers(c[1..], q);
        forall i | 0 <= i < |c| ensures c[i].Has(p[i]) {
          if i > 0 { assert c[1..][i - 1].Has(q[i - 1]); }
        }
      }
      if Contains(c, p) {
        PointsAreMembers(c[1..], p[1..]);
        assert p == [p[0]] + p[1..];
      }
    }
  }

  lemma {:induction false} PrefixedSize(x: int, s: set<Point>)
    ensures |Prefixed(x, s)| == |s|
  {
    if s != {} {
      var p :| p in s;
      PrefixedSize(x, s - {p});
      assert Prefixed(x, s) == Prefixed(x, s - {p}) + {[x] + p};
      forall q | q in s - {p} ensures [x] + q != [x] + p {
        assert ([x] + q)[1..] == q && ([x] + p)[1..] == p;
      }
    }
  }

  /** Peeling the first slice off the first dimension. */
  lemma PointsPeel(r: Range, t: Cube)
    requires !r.IsEmpty()
    ensures Points([r] + t) == Points([Range(r.start + 1, r.end)] + t) + Prefixed(r.start, Points(t))
    ensures Points([Range(r.start + 1, r.end)] + t) !! Prefixed(r.start, Points(t))
  {
    var c, d := [r] + t, [Range(r.start + 1, r.end)] + t;
    assert c[1..] == t && d[1..] == t;
    assert Ints(r) == Ints(d[0]) + {r.start};
    forall p ensures p in Points(c) <==> p in Points(d) || p in Prefixed(r.start, Points(t)) {}
    forall p | p in Prefixed(r.start, Points(t)) ensures p !in Points(d) { PointsAreMembers(d, p); }
  }

  lemma CountPeel(r: Range, t: Cube)
    requires !r.IsEmpty()
    ensures |Points([r] + t)| == |Points([Range(r.start + 1, r.end)] + t)| + |Points(t)|
  {
    PointsPeel(r, t);
    PrefixedSize(r.start, Points(t));
  }

  lemma {:induction false} CountSlices(r: Range, t: Cube)
    ensures |Points([r] + t)| == r.Size() * |Points(t)|
    decreases r.Size()
  {
    if r.IsEmpty() {
      assert ([r] + t)[0] == r;
      assert Points([r] + t) == {};
    } else {
      var s := Range(r.start + 1, r.end);
      CountSlices(s, t);
      CountPeel(r, t);
      assert r.Size() * |Points(t)| == s.Size() * |Points(t)| + |Points(t)|;
    }
  }

  lemma {:induction false} PointCount(c: Cube)
    ensures |Points(c)| == CubeSize(c)
  {
    if c != [] {
      PointCount(c[1..]);
      CountSlices(c[0], c[1..]);
      assert c == [c[0]] + c[1..];
    }
  }

  lemma PointsOfMeet(a: Cube, b: Cube)
    requires |a| == |b|
    ensures Points(MeetCube(a, b)) == Points(a) * Points(b)
  {
    forall p ensures p in Points(MeetCube(a, b)) <==> p in Points(a) * Points(b) {
      PointsAreMembers(MeetCube(a, b), p);
      PointsAreMembers(a, p);
      PointsAreMembers(b, p);
    }
  }

  lemma {:induction false} EmptyCubeHasNoPoints(c: Cube)
    ensures IsEmptyCube(c) <==> forall p :: !Contains(c, p)
    ensures IsEmptyCube(c) ==> CubeSize(c) == 0
    ensures !IsEmptyCube(c) ==> CubeSize(c) >= 1
  {
    assert Contains(c, Corner(c)) <==> !IsEmptyCube(c);
    if p :| Contains(c, p) {
      forall i | 0 <= i < |c| ensures !c[i].IsEmpty() { assert c[i].Has(p[i]); }
    }
    PointCount(c);
    if IsEmptyCube(c) {
      forall p ensures p !in Points(c) { PointsAreMembers(c, p); }
      assert Points(c) == {};
    } else {
      PointsAreMembers(c, Corner(c));
      assert {Corner(c)} <= Points(c);
      SubsetSize({Corner(c)}, Points(c));
    }
  }

  lemma {:induction false} SubsetSize<T>(a: set<T>, b: set<T>)
    requires a <= b
    ensures |a| <= |b|
  {
    assert b == a + (b - a);
  }

  // ----- the read-only loops of hypercube.c

  method MakeIntersection(a: Cube, b: Cube) returns (r: Option<Cube>)
    requires |a| == |b|
    ensures r.None? <==> !Overlapping(a, b)
    ensures r.Some? ==> r.value == MeetCube(a, b) && !IsEmptyCube(r.value)
  {
    var result: Cube := [];
    OverlappingIffMeets(a, b);
    for i := 0 to |a|
      invariant |result| == i
      invariant forall j :: 0 <= j < i ==> result[j] == Meet(a[j], b[j]) && !result[j].IsEmpty()
    {
      result := result + [Meet(a[i], b[i])];
      if result[i].IsEmpty() {
        assert MeetCube(a, b)[i].IsEmpty();
        return None;
      }
    }
    assert result == MeetCube(a, b);
    r := Some(result);
  }

  method IsEmpty(c: Cube) returns (r: bool)
    ensures r <==> forall p :: !Contains(c, p)
  {
    EmptyCubeHasNoPoints(c);
    for i := 0 to |c|
      invariant forall j :: 0 <= j < i ==> !c[j].IsEmpty()
    {
      if c[i].IsEmpty() { return true; }
    }
    r := false;
  }

  method DoesIntersect(a: Cube, b: Cube) returns (r: bool)
    requires |a| == |b|
    ensures r <==> Overlapping(a, b)
  {
    OverlappingIffMeets(a, b);
    for i := 0 to |a|
      invariant forall j :: 0 <= j < i ==> !Meet(a[j], b[j]).IsEmpty()
    {
      if Meet(a[i], b[i]).IsEmpty() {
        assert MeetCube(a, b)[i].IsEmpty();
        return false;
      }
    }
    r := true;
  }

  lemma {:induction false} CubeSizeSplit(c: Cube, i: nat)
    requires i < |c|
    ensures CubeSize(c[..i + 1]) == CubeSize(c[..i]) * c[i].Size()
  {
    if i == 0 {
      assert c[..1] == [c[0]] && c[..1][1..] == [];
      assert c[..0] == [];
    } else {
      CubeSizeSplit(c[1..], i - 1);
      assert c[..i + 1][1..] == c[1..][..i] && c[..i][1..] == c[1..][..i - 1];
      assert c[0].Size() * (CubeSize(c[1..][..i - 1]) * c[i].Size()) == (c[0].Size() * CubeSize(c[1..][..i - 1])) * c[i].Size();
    }
  }

  lemma {:induction false} CubeSizeZero(c: Cube, i: nat)
    requires i <= |c| && CubeSize(c[..i]) == 0
    ensures CubeSize(c) == 0
    decreases |c| - i
  {
    if i == |c| {
      assert c[..i] == c;
    } else {
      CubeSizeSplit(c, i);
      CubeSizeZero(c, i + 1);
    }
  }

  /** The number of common points; the loop stops at the first empty dimension. */
  method Overlap(a: Cube, b: Cube) returns (overlap: int)
    requires |a| == |b|
    ensures overlap == |Points(a) * Points(b)|
    ensures overlap != 0 <==> Overlapping(a, b)
  {
    ghost var m := MeetCube(a, b);
    overlap := 1;
    var i := 0;
    while overlap != 0 && i < |a|
      invariant 0 <= i <= |a|
      invariant overlap == CubeSize(m[..i])
      decreases |a| - i
    {
      CubeSizeSplit(m, i);
      overlap := overlap * Meet(a[i], b[i]).Size();
      i := i + 1;
    }
    if overlap == 0 { CubeSizeZero(m, i); } else { assert m[..i] == m; }
    PointsOfMeet(a, b);
    PointCount(m);
    OverlappingIffMeets(a, b);
    EmptyCubeHasNoPoints(m);
  }

  method SizeOf(c: Cube) returns (size: int)
    requires |c| > 0
    ensures size == CubeSize(c) == |Points(c)|
  {
    size := 1;
    for i := 0 to |c|
      invariant size == CubeSize(c[..i])
    {
      CubeSizeSplit(c, i);
      size := size * c[i].Size();
    }
    assert c[..|c|] == c;
    PointCount(c);
  }

  // ----- neighbourhood

  /** The test of the source on bounds: exactly one dimension with a shared bound, overlap in all others. */
  predicate SharesBound(a: Range, b: Range) { a.start == b.end || a.end == b.start }

  predicate BoundDim(a: Cube, b: Cube, d: int)
    requires |a| == |b|
  {
    && 0 <= d < |a|
    && SharesBound(a[d], b[d])
    && (forall i :: 0 <= i < |a| && i != d ==> !SharesBound(a[i], b[i]))
    && (forall i :: 0 <= i < |a| && i != d ==> !Meet(a[i], b[i]).IsEmpty())
  }

  predicate Touches(a: Cube, b: Cube)
    requires |a| == |b|
  {
    exists d :: 0 <= d < |a| && BoundDim(a, b, d)
  }

  /** p and q differ by one, in one coordinate only. */
  ghost predicate AdjacentPoints(p: Point, q: Point) {
    |p| == |q| && exists d :: 0 <= d < |p| && (q[d] == p[d] + 1 || q[d] == p[d] - 1) && q == p[d := q[d]]
  }

  /** The cubes are disjoint, and one step along one axis leads from one to the other. */
  ghost predicate Adjacent(a: Cube, b: Cube) {
    !Overlapping(a, b) && exists p, q :: Contains(a, p) && Contains(b, q) && AdjacentPoints(p, q)
  }

  lemma TouchesImpliesAdjacent(a: Cube, b: Cube)
    requires |a| == |b| && !IsEmptyCube(a) && !IsEmptyCube(b) && Touches(a, b)
    ensures Adjacent(a, b)
  {
    var d :| 0 <= d < |a| && BoundDim(a, b, d);
    if p :| Contains(a, p) && Contains(b, p) {
      assert a[d].Has(p[d]) && b[d].Has(p[d]);
    }
    var low := a[d].end == b[d].start;
    var p := Corner(MeetCube(a, b))[d := if low then a[d].end - 1 else a[d].start];
    var q := p[d := if low then p[d] + 1 else p[d] - 1];
    assert Contains(a, p) && Contains(b, q);
    assert AdjacentPoints(p, q);
  }

  lemma AdjacentImpliesTouches(a: Cube, b: Cube)
    requires |a| == |b| && Adjacent(a, b)
    ensures Touches(a, b)
  {
    var p, q :| Contains(a, p) && Contains(b, q) && AdjacentPoints(p, q);
    var d :| 0 <= d < |p| && (q[d] == p[d] + 1 || q[d] == p[d] - 1) && q == p[d := q[d]];
    forall i | 0 <= i < |a| && i != d
      ensures !Meet(a[i], b[i]).IsEmpty() && !SharesBound(a[i], b[i])
    {
      assert a[i].Has(p[i]) && b[i].Has(q[i]) && p[i] == q[i];
    }
    assert a[d].Has(p[d]) && b[d].Has(q[d]);
    assert !a[d].Has(q[d]) && !b[d].Has(p[d]) by {
      assert a[d].Has(q[d]) ==> Contains(a, q);
      assert b[d].Has(p[d]) ==> Contains(b, p);
    }
    assert BoundDim(a, b, d);
  }

  lemma TouchesIffAdjacent(a: Cube, b: Cube)
    requires |a| == |b| && !IsEmptyCube(a) && !IsEmptyCube(b)
    ensures Touches(a, b) <==> Adjacent(a, b)
  {
    if Touches(a, b) { TouchesImpliesAdjacent(a, b); }
    if Adjacent(a, b) { AdjacentImpliesTouches(a, b); }
  }

  lemma TouchesSymmetric(a: Cube, b: Cube)
    requires |a| == |b|
    ensures Touches(a, b) <==> Touches(b, a)
  {
    forall d ensures BoundDim(a, b, d) <==> BoundDim(b, a, d) {}
  }

  method CheckTouches(a: Cube, b: Cube) returns (r: bool)
    requires |a| == |b|
    ensures r <==> Touches(a, b)
    ensures !IsEmptyCube(a) && !IsEmptyCube(b) ==> (r <==> Adjacent(a, b))
  {
    if |a| == |b| && !IsEmptyCube(a) && !IsEmptyCube(b) { TouchesIffAdjacent(a, b); }
    var haveBound, boundDim := false, -1;
    for i := 0 to |a|
      invariant haveBound <==> exists j :: 0 <= j < i && SharesBound(a[j], b[j])
      invariant haveBound ==> 0 <= boundDim < i && SharesBound(a[boundDim], b[boundDim])
      invariant forall j :: 0 <= j < i && j != boundDim ==> !SharesBound(a[j], b[j])
    {
      if SharesBound(a[i], b[i]) {
        if haveBound {
          assert boundDim != i;
          return false;
        }
        haveBound, boundDim := true, i;
      }
    }
    if !haveBound { return false; }
    for i := 0 to |a|
      invariant forall j :: 0 <= j < i && j != boundDim ==> !Meet(a[j], b[j]).IsEmpty()
    {
      if i != boundDim && Meet(a[i], b[i]).IsEmpty() { return false; }
    }
    assert BoundDim(a, b, boundDim);
    r := true;
  }
}
