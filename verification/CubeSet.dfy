/** Sets of hypercubes: exact subtraction by slab splitting, and the cover test built on it. */
module CubeSets {
  import opened Options
  import opened Geometry

  ghost predicate Covers(cs: seq<Cube>, p: Point) {
    exists k :: 0 <= k < |cs| && Contains(cs[k], p)
  }

  ghost predicate AllOfRank(cs: seq<Cube>, dims: nat) {
    forall k :: 0 <= k < |cs| ==> |cs[k]| == dims
  }

  ghost predicate PairwiseDisjoint(cs: seq<Cube>) {
    forall i, j :: 0 <= i < |cs| && 0 <= j < |cs| && i != j ==> !Overlapping(cs[i], cs[j])
  }

  ghost predicate AllNonEmpty(cs: seq<Cube>) {
    forall k :: 0 <= k < |cs| ==> !IsEmptyCube(cs[k])
  }

  lemma CoversConcat(a: seq<Cube>, b: seq<Cube>, p: Point)
    ensures Covers(a + b, p) <==> Covers(a, p) || Covers(b, p)
  {
    if Covers(a, p) {
      var k :| 0 <= k < |a| && Contains(a[k], p);
      assert (a + b)[k] == a[k];
    }
    if Covers(b, p) {
      var k :| 0 <= k < |b| && Contains(b[k], p);
      assert (a + b)[|a| + k] == b[k];
    }
  }

  // ----- one slab cut

  /** The parts of m before, inside and behind s in dimension d. */
  function Before(m: Cube, s: Cube, d: nat): Cube
    requires d < |m| == |s|
  {
    m[d := Range(m[d].start, s[d].start)]
  }

  function Behind(m: Cube, s: Cube, d: nat): Cube
    requires d < |m| == |s|
  {
    m[d := Range(s[d].end, m[d].end)]
  }

  function Inside(m: Cube, s: Cube, d: nat): Cube
    requires d < |m| == |s|
  {
    m[d := Meet(m[d], s[d])]
  }

  lemma ReplacedRange(m: Cube, d: nat, r: Range, p: Point)
    requires d < |m|
    ensures Contains(m[d := r], p) <==> |p| == |m| && r.Has(p[d]) && forall i :: 0 <= i < |m| && i != d ==> m[i].Has(p[i])
  {
    var c := m[d := r];
    if Contains(c, p) {
      assert c[d].Has(p[d]);
      forall i | 0 <= i < |m| && i != d ensures m[i].Has(p[i]) { assert c[i].Has(p[i]); }
    }
  }

  lemma CutFacts(m: Cube, s: Cube, d: nat, p: Point)
    requires d < |m| == |s| && !Meet(m[d], s[d]).IsEmpty()
    ensures Contains(Before(m, s, d), p) <==> Contains(m, p) && p[d] < s[d].start
    ensures Contains(Behind(m, s, d), p) <==> Contains(m, p) && p[d] >= s[d].end
    ensures Contains(Inside(m, s, d), p) <==> Contains(m, p) && s[d].Has(p[d])
  {
    ReplacedRange(m, d, Range(m[d].start, s[d].start), p);
    ReplacedRange(m, d, Range(s[d].end, m[d].end), p);
    ReplacedRange(m, d, Meet(m[d], s[d]), p);
    if Contains(m, p) { assert m[d].Has(p[d]); }
  }

  /** The parts of m that are cut off in dimension d. */
  function CutOff(m: Cube, s: Cube, d: nat): seq<Cube>
    requires d < |m| == |s|
  {
    (if m[d].start < s[d].start then [Before(m, s, d)] else []) + (if m[d].end > s[d].end then [Behind(m, s, d)] else [])
  }

  lemma CutOffIsNonEmpty(m: Cube, s: Cube, d: nat)
    requires d < |m| == |s| && !Meet(m[d], s[d]).IsEmpty() && !IsEmptyCube(m)
    ensures AllNonEmpty(CutOff(m, s, d))
  {
    assert forall i :: 0 <= i < |m| ==> !m[i].IsEmpty();
    if m[d].start < s[d].start { assert !IsEmptyCube(Before(m, s, d)); }
    if m[d].end > s[d].end { assert !IsEmptyCube(Behind(m, s, d)); }
  }

  /** A cut tiles m: the inner part and the parts cut off, all disjoint, the latter outside s. */
  lemma CutOffTiles(m: Cube, s: Cube, d: nat)
    requires d < |m| == |s| && !Meet(m[d], s[d]).IsEmpty()
    ensures forall p :: Contains(m, p) <==> Contains(Inside(m, s, d), p) || Covers(CutOff(m, s, d), p)
    ensures forall p :: Covers(CutOff(m, s, d), p) ==> !Contains(Inside(m, s, d), p) && !Contains(s, p)
    ensures PairwiseDisjoint(CutOff(m, s, d))
  {
    var out, b, h := CutOff(m, s, d), Before(m, s, d), Behind(m, s, d);
    forall p
      ensures Contains(m, p) <==> Contains(Inside(m, s, d), p) || Covers(out, p)
      ensures Covers(out, p) ==> !Contains(Inside(m, s, d), p) && !Contains(s, p)
    {
      CutFacts(m, s, d, p);
      if Contains(m, p) { assert m[d].Has(p[d]); }
      if Contains(b, p) { assert out[0] == b; }
      if Contains(h, p) { assert out[|out| - 1] == h; }
      if Covers(out, p) {
        var k :| 0 <= k < |out| && Contains(out[k], p);
        assert out[k] == b || out[k] == h;
      }
    }
    forall p ensures !(Contains(b, p) && Contains(h, p)) { CutFacts(m, s, d, p); }
  }

  /** What the pieces cut off so far (out) and the part still to cut (m) have in common at every step. */
  ghost predicate Remainder(whole: Cube, m: Cube, s: Cube, out: seq<Cube>) {
    && AllOfRank(out, |whole|) && AllNonEmpty(out) && PairwiseDisjoint(out)
    && (forall p :: Contains(whole, p) <==> Contains(m, p) || Covers(out, p))
    && (forall k, p :: 0 <= k < |out| && Contains(out[k], p) ==> !Contains(m, p) && !Contains(s, p))
  }

  lemma RemainderStep(whole: Cube, m: Cube, s: Cube, d: nat, out: seq<Cube>)
    requires Remainder(whole, m, s, out)
    requires d < |m| == |s| == |whole| && !Meet(m[d], s[d]).IsEmpty() && !IsEmptyCube(m)
    ensures Remainder(whole, Inside(m, s, d), s, out + CutOff(m, s, d))
  {
    var more := CutOff(m, s, d);
    CutOffTiles(m, s, d);
    CutOffIsNonEmpty(m, s, d);
    StillTiles(whole, m, Inside(m, s, d), out, more);
    forall k, p | 0 <= k < |more| && Contains(more[k], p) ensures Contains(m, p) && !Contains(s, p) && !Contains(Inside(m, s, d), p) {
      assert Covers(more, p);
    }
    BothOutside(out, more, Inside(m, s, d), s);
    forall i, j | 0 <= i < |out + more| && 0 <= j < |out + more| && i != j ensures !Overlapping((out + more)[i], (out + more)[j]) {
      DisjointAcross(out, more, m, i, j);
    }
  }

  lemma StillTiles(whole: Cube, m: Cube, inside: Cube, out: seq<Cube>, more: seq<Cube>)
    requires forall p :: Contains(whole, p) <==> Contains(m, p) || Covers(out, p)
    requires forall p :: Contains(m, p) <==> Contains(inside, p) || Covers(more, p)
    ensures forall p :: Contains(whole, p) <==> Contains(inside, p) || Covers(out + more, p)
  {
    forall p ensures Contains(whole, p) <==> Contains(inside, p) || Covers(out + more, p) { CoversConcat(out, more, p); }
  }

  lemma BothOutside(out: seq<Cube>, more: seq<Cube>, m: Cube, s: Cube)
    requires forall k, p :: 0 <= k < |out| && Contains(out[k], p) ==> !Contains(m, p) && !Contains(s, p)
    requires forall k, p :: 0 <= k < |more| && Contains(more[k], p) ==> !Contains(m, p) && !Contains(s, p)
    ensures forall k, p :: 0 <= k < |out + more| && Contains((out + more)[k], p) ==> !Contains(m, p) && !Contains(s, p)
  {
    forall k, p | 0 <= k < |out + more| && Contains((out + more)[k], p) ensures !Contains(m, p) && !Contains(s, p) {
      if k >= |out| { assert (out + more)[k] == more[k - |out|]; } else { assert Contains(out[k], p); }
    }
  }

  lemma DisjointAcross(out: seq<Cube>, more: seq<Cube>, m: Cube, i: nat, j: nat)
    requires PairwiseDisjoint(out) && PairwiseDisjoint(more)
    requires forall k, p :: 0 <= k < |out| && Contains(out[k], p) ==> !Contains(m, p)
    requires forall k, p :: 0 <= k < |more| && Contains(more[k], p) ==> Contains(m, p)
    requires i < |out + more| && j < |out + more| && i != j
    ensures !Overlapping((out + more)[i], (out + more)[j])
  {
    var n := |out|;
    forall p ensures !(Contains((out + more)[i], p) && Contains((out + more)[j], p)) {
      if i < n && j < n {
        assert !Overlapping(out[i], out[j]);
      } else if i >= n && j >= n {
        assert !Overlapping(more[i - n], more[j - n]);
      } else {
        var a, b := if i < n then i else j, if i < n then j - n else i - n;
        assert Contains(out[a], p) ==> !Contains(m, p);
        assert Contains(more[b], p) ==> Contains(m, p);
      }
    }
  }

  /** The result of one subtraction on the cubes: the processed tail no longer meets s. */
  lemma ReplacedBySubtraction(cs: seq<Cube>, i: nat, s: Cube, out: seq<Cube>, m: Cube)
    requires i < |cs|
    requires Remainder(cs[i], m, s, out)
    requires Overlapping(cs[i], s)
    requires forall p :: Contains(m, p) ==> Contains(s, p)
    requires AllOfRank(cs, |s|)
    requires forall k :: i < k < |cs| ==> !Overlapping(cs[k], s)
    ensures var r := cs[i := cs[|cs| - 1]][..|cs| - 1] + out;
      && AllOfRank(r, |s|)
      && r[..i] == cs[..i]
      && (forall k :: i <= k < |r| ==> !Overlapping(r[k], s))
      && (forall p :: !Contains(s, p) ==> (Covers(r, p) <==> Covers(cs, p)))
      && (PairwiseDisjoint(cs) ==> PairwiseDisjoint(r))
      && (AllNonEmpty(cs) ==> AllNonEmpty(r))
      && (forall c :: c in cs && !Overlapping(c, s) ==> c in r)
  {
    var last := |cs| - 1;
    var kept := cs[i := cs[last]][..last];
    var r := kept + out;
    forall k | 0 <= k < last ensures kept[k] == if k == i then cs[last] else cs[k] {}
    forall k | i <= k < |r| ensures !Overlapping(r[k], s) {
      if k >= last { assert r[k] == out[k - last]; }
    }
    forall p | !Contains(s, p) ensures Covers(r, p) <==> Covers(cs, p) { ReplacedCovers(cs, i, kept, out, p); }
    if PairwiseDisjoint(cs) { SubtractionKeepsDisjoint(cs, i, s, out, m); }
    forall c | c in cs && !Overlapping(c, s) ensures c in r { ReplacedMember(cs, i, kept, out, c); }
    assert r[..i] == cs[..i];
  }

  /** kept is the list without member i, whose place the last member took. */
  ghost predicate WithoutMember(cs: seq<Cube>, i: nat, kept: seq<Cube>) {
    i < |cs| && |kept| == |cs| - 1 && forall k :: 0 <= k < |kept| ==> kept[k] == if k == i then cs[|cs| - 1] else cs[k]
  }

  lemma ReplacedCovers(cs: seq<Cube>, i: nat, kept: seq<Cube>, out: seq<Cube>, p: Point)
    requires WithoutMember(cs, i, kept) && (Covers(out, p) <==> Contains(cs[i], p))
    ensures Covers(kept + out, p) <==> Covers(cs, p)
  {
    var last := |cs| - 1;
    CoversConcat(kept, out, p);
    if Covers(kept, p) {
      var k :| 0 <= k < last && Contains(kept[k], p);
      assert Contains(cs[if k == i then last else k], p);
    }
    if Covers(cs, p) {
      var k :| 0 <= k < |cs| && Contains(cs[k], p);
      if k != i { assert Contains(kept[if k == last then i else k], p); }
    }
  }

  lemma ReplacedMember(cs: seq<Cube>, i: nat, kept: seq<Cube>, out: seq<Cube>, c: Cube)
    requires WithoutMember(cs, i, kept) && c in cs && c != cs[i]
    ensures c in kept + out
  {
    var k :| 0 <= k < |cs| && cs[k] == c;
    assert (kept + out)[if k == |cs| - 1 then i else k] == c;
  }

  lemma SubtractionKeepsDisjoint(cs: seq<Cube>, i: nat, s: Cube, out: seq<Cube>, m: Cube)
    requires i < |cs| && PairwiseDisjoint(cs)
    requires Remainder(cs[i], m, s, out)
    ensures PairwiseDisjoint(cs[i := cs[|cs| - 1]][..|cs| - 1] + out)
  {
    var last := |cs| - 1;
    var kept := cs[i := cs[last]][..last];
    var r := kept + out;
    forall k | 0 <= k < last ensures kept[k] == cs[if k == i then last else k] {}
    forall a, b | 0 <= a < last && 0 <= b < |out| ensures !Overlapping(kept[a], out[b]) {
      forall p ensures !(Contains(kept[a], p) && Contains(out[b], p)) {
        assert Contains(out[b], p) ==> Covers(out, p);
        assert !Overlapping(cs[if a == i then last else a], cs[i]);
      }
    }
    forall a, b | 0 <= a < |r| && 0 <= b < |r| && a != b ensures !Overlapping(r[a], r[b]) {
      if a < last <= b { assert !Overlapping(kept[a], out[b - last]); }
      if b < last <= a { assert !Overlapping(kept[b], out[a - last]); }
    }
  }

  /** The state of the backward loop: everything from i on is clear of s, and no other point was lost or gained. */
  ghost predicate Subtracting(start: seq<Cube>, cs: seq<Cube>, i: int, s: Cube) {
    && AllOfRank(cs, |s|)
    && (forall k :: i <= k < |cs| ==> k < 0 || !Overlapping(cs[k], s))
    && (forall p :: !Contains(s, p) ==> (Covers(cs, p) <==> Covers(start, p)))
    && (PairwiseDisjoint(start) ==> PairwiseDisjoint(cs))
    && (AllNonEmpty(start) ==> AllNonEmpty(cs))
    && (forall c :: c in start && !Overlapping(c, s) ==> c in cs)
  }

  lemma SubtractingStep(start: seq<Cube>, cs: seq<Cube>, i: nat, s: Cube, out: seq<Cube>, m: Cube)
    requires Subtracting(start, cs, i + 1, s) && i < |cs|
    requires Remainder(cs[i], m, s, out) && Overlapping(cs[i], s)
    requires forall p :: Contains(m, p) ==> Contains(s, p)
    ensures Subtracting(start, cs[i := cs[|cs| - 1]][..|cs| - 1] + out, i, s)
  {
    ReplacedBySubtraction(cs, i, s, out, m);
  }

  lemma SubtractingDone(start: seq<Cube>, cs: seq<Cube>, s: Cube)
    requires Subtracting(start, cs, 0, s)
    ensures forall p :: Covers(cs, p) <==> Covers(start, p) && !Contains(s, p)
  {
    forall p ensures Covers(cs, p) ==> !Contains(s, p) {
      forall k | 0 <= k < |cs| && Contains(cs[k], p) ensures !Contains(s, p) { assert !Overlapping(cs[k], s); }
    }
  }

  class HypercubeSet {
    var cubes: seq<Cube>

    constructor ()
      ensures cubes == []
    {
      cubes := [];
    }

    method Add(cube: Cube)
      modifies this
      ensures cubes == old(cubes) + [cube]
    {
      cubes := cubes + [cube];
    }

    /** Adds the parts of the minuend before and behind the subtrahend in dimension d. */
    method AddCutOff(m: Cube, subtrahend: Cube, d: nat)
      requires d < |m| == |subtrahend| && !Meet(m[d], subtrahend[d]).IsEmpty()
      modifies this
      ensures cubes == old(cubes) + CutOff(m, subtrahend, d)
    {
      var copy := m;
      if m[d].start < subtrahend[d].start {
        if m[d].end > subtrahend[d].start {
          copy := copy[d := Range(m[d].start, subtrahend[d].start)];
        }
        assert copy == Before(m, subtrahend, d);
        Add(copy);
      }
      if m[d].end > subtrahend[d].end {
        if copy[d].start < subtrahend[d].end {
          copy := copy[d := Range(subtrahend[d].end, m[d].end)];
        }
        assert copy == Behind(m, subtrahend, d);
        Add(copy);
      }
    }

    /** Cut the part of minuend outside subtrahend into slabs, one dimension after the other, and append them. */
    method AddRemainder(minuend: Cube, subtrahend: Cube) returns (ghost out: seq<Cube>, ghost rest: Cube)
      requires |minuend| == |subtrahend| && Overlapping(minuend, subtrahend)
      modifies this
      ensures cubes == old(cubes) + out
      ensures Remainder(minuend, rest, subtrahend, out)
      ensures forall p :: Contains(rest, p) ==> Contains(subtrahend, p)
    {
      ghost var common :| Contains(minuend, common) && Contains(subtrahend, common);
      var m, d := minuend, 0;
      out := [];
      while d < |subtrahend|
        invariant 0 <= d <= |m| == |minuend|
        invariant forall i :: 0 <= i < |m| ==> m[i] == if i < d then Meet(minuend[i], subtrahend[i]) else minuend[i]
        invariant cubes == old(cubes) + out
        invariant Remainder(minuend, m, subtrahend, out)
      {
        forall i | 0 <= i < |m| ensures m[i].Has(common[i]) && subtrahend[i].Has(common[i]) {}
        RemainderStep(minuend, m, subtrahend, d, out);
        AddCutOff(m, subtrahend, d);
        out := out + CutOff(m, subtrahend, d);
        m := m[d := Meet(m[d], subtrahend[d])];
        d := d + 1;
      }
      rest := m;
      assert m == MeetCube(minuend, subtrahend);
    }

    method Subtract(subtrahend: Cube)
      requires AllOfRank(cubes, |subtrahend|)
      modifies this
      ensures AllOfRank(cubes, |subtrahend|)
      ensures forall p :: Covers(cubes, p) <==> old(Covers(cubes, p)) && !Contains(subtrahend, p)
      ensures old(PairwiseDisjoint(cubes)) ==> PairwiseDisjoint(cubes)
      ensures old(AllNonEmpty(cubes)) ==> AllNonEmpty(cubes)
      ensures forall c :: c in old(cubes) && !Overlapping(c, subtrahend) ==> c in cubes
    {
      var i := |cubes|;
      ghost var start := cubes;
      while i > 0
        invariant 0 <= i <= |cubes|
        invariant Subtracting(start, cubes, i, subtrahend)
      {
        i := i - 1;
        SubtractAt(i, subtrahend, start);
      }
      SubtractingDone(start, cubes, subtrahend);
    }

    /** One turn of the loop: a cube that meets the subtrahend makes room for the last one and leaves its remainder. */
    method SubtractAt(i: nat, subtrahend: Cube, ghost start: seq<Cube>)
      requires i < |cubes| && Subtracting(start, cubes, i + 1, subtrahend)
      modifies this
      ensures i <= |cubes| && Subtracting(start, cubes, i, subtrahend)
    {
      var minuend := cubes[i];
      var meets := DoesIntersect(minuend, subtrahend);
      if meets {
        ghost var before := cubes;
        cubes := cubes[i := cubes[|cubes| - 1]][..|cubes| - 1];
        ghost var out, rest := AddRemainder(minuend, subtrahend);
        SubtractingStep(start, before, i, subtrahend, out, rest);
      }
    }

    /** Drops empty cubes from the end until a cube with points turns up. */
    method IsEmptySet() returns (r: bool)
      modifies this
      ensures r <==> forall p :: !old(Covers(cubes, p))
      ensures forall p :: Covers(cubes, p) <==> old(Covers(cubes, p))
      ensures r ==> cubes == []
      ensures cubes <= old(cubes)
    {
      var i := |cubes|;
      while i > 0
        invariant 0 <= i == |cubes|
        invariant cubes <= old(cubes)
        invariant forall p :: Covers(cubes, p) <==> Covers(old(cubes), p)
      {
        i := i - 1;
        var empty := IsEmpty(cubes[i]);
        if empty {
          ghost var before := cubes;
          cubes := cubes[i := cubes[|cubes| - 1]][..|cubes| - 1];
          assert before == cubes + [before[i]];
          forall p ensures Covers(cubes, p) <==> Covers(before, p) {
            CoversConcat(cubes, [before[i]], p);
            assert Covers([before[i]], p) <==> Contains([before[i]][0], p);
          }
        } else {
          ghost var p :| Contains(cubes[i], p);
          assert Covers(cubes, p);
          return false;
        }
      }
      r := true;
      assert forall p :: !Covers(cubes, p);
    }
  }

  // ----- cover tests

  ghost predicate CoveredBy(cs: seq<Option<Cube>>, p: Point) {
    exists k :: 0 <= k < |cs| && cs[k].Some? && Contains(cs[k].value, p)
  }

  /** The test by repeated subtraction. An empty cube is reported as not covered. */
  method IsFullyCovered(covered: Cube, covering: seq<Option<Cube>>) returns (r: bool)
    requires forall k :: 0 <= k < |covering| && covering[k].Some? ==> |covering[k].value| == |covered|
    ensures r <==> !IsEmptyCube(covered) && forall p :: Contains(covered, p) ==> CoveredBy(covering, p)
  {
    var rest := new HypercubeSet();
    rest.Add(covered);
    assert forall p :: Covers(rest.cubes, p) <==> Contains(rest.cubes[0], p);
    var i := 0;
    while i < |covering|
      invariant 0 <= i <= |covering|
      invariant fresh(rest)
      invariant AllOfRank(rest.cubes, |covered|)
      invariant forall p :: Covers(rest.cubes, p) <==> Contains(covered, p) && !CoveredBy(covering[..i], p)
      invariant !IsEmptyCube(covered) ==> AllNonEmpty(rest.cubes)
      invariant IsEmptyCube(covered) ==> covered in rest.cubes
    {
      forall p ensures CoveredBy(covering[..i + 1], p)
        <==> CoveredBy(covering[..i], p) || (covering[i].Some? && Contains(covering[i].value, p))
      {
        CoveredByStep(covering, i, p);
      }
      if covering[i].Some? {
        rest.Subtract(covering[i].value);
        if |rest.cubes| == 0 {
          forall p | Contains(covered, p) ensures CoveredBy(covering, p) {
            assert !Covers(rest.cubes, p);
            CoveredByPrefix(covering, i + 1, p);
          }
          return true;
        }
      }
      i := i + 1;
    }
    assert covering[..i] == covering;
    if |rest.cubes| > 0 && !IsEmptyCube(covered) {
      assert Contains(rest.cubes[0], Corner(rest.cubes[0]));
      assert Covers(rest.cubes, Corner(rest.cubes[0]));
    }
    r := |rest.cubes| == 0;
  }

  lemma CoveredByPrefix(cs: seq<Option<Cube>>, i: nat, p: Point)
    requires i <= |cs| && CoveredBy(cs[..i], p)
    ensures CoveredBy(cs, p)
  {
    var k :| 0 <= k < i && cs[..i][k].Some? && Contains(cs[..i][k].value, p);
    assert cs[k].Some?;
  }

  lemma CoveredByStep(cs: seq<Option<Cube>>, i: nat, p: Point)
    requires i < |cs|
    ensures CoveredBy(cs[..i + 1], p) <==> CoveredBy(cs[..i], p) || (cs[i].Some? && Contains(cs[i].value, p))
  {
    if CoveredBy(cs[..i], p) {
      var k :| 0 <= k < |cs[..i]| && cs[..i][k].Some? && Contains(cs[..i][k].value, p);
      assert cs[..i + 1][k] == cs[..i][k];
    }
    if cs[i].Some? && Contains(cs[i].value, p) { assert cs[..i + 1][i] == cs[i]; }
    if CoveredBy(cs[..i + 1], p) {
      var k :| 0 <= k < |cs[..i + 1]| && cs[..i + 1][k].Some? && Contains(cs[..i + 1][k].value, p);
      if k < i { assert cs[..i][k] == cs[..i + 1][k]; }
    }
  }

  /** The cover test for a list, which only looks at the cubes that intersect. */
  method DoesCoverFully(list: seq<Cube>, cube: Cube) returns (r: bool)
    requires AllOfRank(list, |cube|)
    ensures r <==> !IsEmptyCube(cube) && forall p :: Contains(cube, p) ==> Covers(list, p)
  {
    var intersecting: seq<Option<Cube>> := [];
    for i := 0 to |list|
      invariant forall k :: 0 <= k < |intersecting| ==> intersecting[k].Some? && |intersecting[k].value| == |cube| && intersecting[k].value in list
      invariant forall l :: 0 <= l < i && Overlapping(list[l], cube) ==> Some(list[l]) in intersecting
    {
      var meets := DoesIntersect(list[i], cube);
      if meets { intersecting := intersecting + [Some(list[i])]; }
    }
    forall p | Contains(cube, p) ensures CoveredBy(intersecting, p) <==> Covers(list, p) {
      if CoveredBy(intersecting, p) {
        var k :| 0 <= k < |intersecting| && intersecting[k].Some? && Contains(intersecting[k].value, p);
        var l :| 0 <= l < |list| && list[l] == intersecting[k].value;
      }
      if Covers(list, p) {
        var l :| 0 <= l < |list| && Contains(list[l], p);
        assert Overlapping(list[l], cube);
        var k :| 0 <= k < |intersecting| && intersecting[k] == Some(list[l]);
      }
    }
    r := IsFullyCovered(cube, intersecting);
  }
}
