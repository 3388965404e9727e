/** Dataspaces: extents plus a memory layout, explicit or contiguous in C order. */
module Dataspaces {
  import opened Options
  import opened MixedRadix
  import opened Geometry

  /** The linear form that every address computation evaluates. */
  function Dot(a: seq<int>, b: seq<int>): int
    requires |a| == |b|
  {
    if a == [] then 0 else Dot(a[..|a| - 1], b[..|a| - 1]) + a[|a| - 1] * b[|a| - 1]
  }

  function Minus(a: seq<int>, b: seq<int>): (r: seq<int>)
    requires |a| == |b|
    ensures |r| == |a| && forall i :: 0 <= i < |a| ==> r[i] == a[i] - b[i]
  {
    seq(|a|, i requires 0 <= i < |a| => a[i] - b[i])
  }

  function Plus(a: seq<int>, b: seq<int>): (r: seq<int>)
    requires |a| == |b|
    ensures |r| == |a| && forall i :: 0 <= i < |a| ==> r[i] == a[i] + b[i]
  {
    seq(|a|, i requires 0 <= i < |a| => a[i] + b[i])
  }

  lemma {:induction false} DotPlus(a: seq<int>, b: seq<int>, s: seq<int>)
    requires |a| == |b| == |s|
    ensures Dot(Plus(a, b), s) == Dot(a, s) + Dot(b, s)
  {
    if a != [] {
      var l := |a| - 1;
      assert Plus(a, b)[..l] == Plus(a[..l], b[..l]);
      DotPlus(a[..l], b[..l], s[..l]);
      assert (a[l] + b[l]) * s[l] == a[l] * s[l] + b[l] * s[l];
    }
  }

  lemma {:induction false} DotConcat(a: seq<int>, b: seq<int>, s: seq<int>, t: seq<int>)
    requires |a| == |s| && |b| == |t|
    ensures Dot(a + b, s + t) == Dot(a, s) + Dot(b, t)
  {
    if b == [] {
      assert a + b == a && s + t == s;
    } else {
      var l := |b| - 1;
      assert (a + b)[..|a| + l] == a + b[..l] && (s + t)[..|a| + l] == s + t[..l];
      DotConcat(a, b[..l], s, t[..l]);
    }
  }

  lemma ProdTail(n: seq<int>, i: nat)
    requires i < |n|
    ensures Prod(n[i..]) == Prod(n[i + 1..]) * n[i]
  {
    assert n[i..][1..] == n[i + 1..];
  }

  lemma DotTake(a: seq<int>, b: seq<int>, i: nat)
    requires |a| == |b| && i < |a|
    ensures Dot(a[..i + 1], b[..i + 1]) == Dot(a[..i], b[..i]) + a[i] * b[i]
  {
    assert a[..i + 1][..i] == a[..i] && b[..i + 1][..i] == b[..i];
  }

  lemma {:induction false} DotZeros(n: nat, s: seq<int>)
    requires |s| == n
    ensures Dot(Zeros(n), s) == 0
  {
    if n > 0 {
      assert Zeros(n)[..n - 1] == Zeros(n - 1);
      DotZeros(n - 1, s[..n - 1]);
    }
  }

  lemma {:induction false} DotZeroStride(a: seq<int>, s: seq<int>)
    requires |a| == |s| && forall i :: 0 <= i < |s| ==> s[i] == 0
    ensures Dot(a, s) == 0
  {
    if a != [] { DotZeroStride(a[..|a| - 1], s[..|a| - 1]); }
  }

  // ----- layouts

  function Sizes(c: Cube): (r: seq<int>)
    ensures |r| == |c| && forall i :: 0 <= i < |c| ==> r[i] == c[i].Size()
    ensures !IsEmptyCube(c) ==> AllPositive(r)
  {
    seq(|c|, i requires 0 <= i < |c| => c[i].Size())
  }

  /** The strides of a contiguous array in C order. */
  function ContiguousStride(size: seq<int>): (s: seq<int>)
    ensures |s| == |size| && forall i :: 0 <= i < |s| ==> s[i] == Prod(size[i + 1..])
  {
    seq(|size|, i requires 0 <= i < |size| => Prod(size[i + 1..]))
  }

  lemma {:induction false} ContiguousIsRank(k: seq<int>, size: seq<int>)
    requires |k| == |size|
    ensures Dot(k, ContiguousStride(size)) == Rank(k, size)
  {
    if k == [] {
    } else {
      var st := ContiguousStride(size);
      assert k == [k[0]] + k[1..] && st == [st[0]] + ContiguousStride(size[1..]) by {
        forall i | 0 <= i < |size| - 1 ensures st[i + 1] == ContiguousStride(size[1..])[i] {
          assert size[1..][i + 1..] == size[i + 2..];
        }
      }
      DotConcat([k[0]], k[1..], [st[0]], ContiguousStride(size[1..]));
      assert Dot([k[0]], [st[0]]) == k[0] * st[0] by { assert [k[0]][..0] == [] && [st[0]][..0] == []; }
      ContiguousIsRank(k[1..], size[1..]);
    }
  }

  datatype Space = Space(offset: seq<int>, size: seq<int>, stride: Option<seq<int>>) {
    predicate Valid() { |offset| == |size| && (stride.Some? ==> |stride.value| == |size|) }

    function Extents(): (c: Cube)
      requires Valid()
      ensures |c| == |size| && forall i :: 0 <= i < |c| ==> c[i] == Range(offset[i], offset[i] + size[i])
    {
      seq(|size|, i requires 0 <= i < |size| => Range(offset[i], offset[i] + size[i]))
    }

    function EffectiveStride(): (s: seq<int>)
      requires Valid()
      ensures |s| == |size|
    {
      if stride.Some? then stride.value else ContiguousStride(size)
    }

    /** The address of an element relative to the element at the dataspace's offset, counted in elements. */
    function ElementIndex(c: Point): int
      requires Valid() && |c| == |size|
    {
      Dot(Minus(c, offset), EffectiveStride())
    }
  }

  lemma {:induction false} DotStep(k: seq<int>, st: seq<int>, i: nat)
    requires i < |k| == |st|
    ensures Dot(k[i := k[i] + 1], st) == Dot(k, st) + st[i]
  {
    var l := |k| - 1;
    if i == l {
      assert k[i := k[i] + 1][..l] == k[..l];
      assert (k[i] + 1) * st[i] == k[i] * st[i] + st[i];
    } else {
      assert k[i := k[i] + 1][..l] == k[..l][i := k[i] + 1];
      DotStep(k[..l], st[..l], i);
    }
  }

  /** One step in dimension i moves by the stride of the dimension: the given one, or the product of the sizes behind. */
  lemma StepMoves(s: Space, c: Point, i: nat)
    requires s.Valid() && |c| == |s.size| && i < |c|
    ensures s.ElementIndex(c[i := c[i] + 1]) - s.ElementIndex(c) == if s.stride.Some? then s.stride.value[i] else Prod(s.size[i + 1..])
  {
    var k := Minus(c, s.offset);
    assert Minus(c[i := c[i] + 1], s.offset) == k[i := k[i] + 1];
    DotStep(k, s.EffectiveStride(), i);
  }

  /** The element at the dataspace's offset is where the data begins. */
  lemma StartsAtOffset(s: Space)
    requires s.Valid()
    ensures s.ElementIndex(s.offset) == 0
  {
    assert Minus(s.offset, s.offset) == Zeros(|s.size|);
    DotZeros(|s.size|, s.EffectiveStride());
  }

  /** No two coordinates of the region share a memory location. */
  ghost predicate InjectiveOn(s: Space, region: Cube)
    requires s.Valid() && |region| == |s.size|
  {
    forall c, d :: Contains(region, c) && Contains(region, d) && s.ElementIndex(c) == s.ElementIndex(d) ==> c == d
  }

  lemma ContiguousBounds(s: Space, c: Point)
    requires s.Valid() && s.stride.None? && Contains(s.Extents(), c)
    ensures InBox(Minus(c, s.offset), s.size)
    ensures s.ElementIndex(c) == Rank(Minus(c, s.offset), s.size)
    ensures 0 <= s.ElementIndex(c) < Prod(s.size)
  {
    var k := Minus(c, s.offset);
    forall i | 0 <= i < |k| ensures 0 <= k[i] < s.size[i] { assert s.Extents()[i].Has(c[i]); }
    ContiguousIsRank(k, s.size);
    RankBounds(k, s.size);
  }

  lemma ContiguousSeparates(s: Space, c: Point, d: Point)
    requires s.Valid() && s.stride.None? && Contains(s.Extents(), c) && Contains(s.Extents(), d)
    requires s.ElementIndex(c) == s.ElementIndex(d)
    ensures c == d
  {
    var k, l := Minus(c, s.offset), Minus(d, s.offset);
    ContiguousBounds(s, c);
    ContiguousBounds(s, d);
    RankInjective(k, l, s.size);
    forall i | 0 <= i < |c| ensures c[i] == d[i] { assert k[i] == l[i]; }
  }

  lemma ContiguousIsInjective(s: Space)
    requires s.Valid() && s.stride.None?
    ensures InjectiveOn(s, s.Extents())
  {
    forall c, d | Contains(s.Extents(), c) && Contains(s.Extents(), d) && s.ElementIndex(c) == s.ElementIndex(d)
      ensures c == d
    {
      ContiguousSeparates(s, c, d);
    }
  }

  class Dataspace {
    var offset: seq<int>
    var size: seq<int>
    var stride: Option<seq<int>>
    const elementSize: int

    constructor (offset: seq<int>, size: seq<int>, elementSize: int)
      requires |offset| == |size|
      ensures Value() == Space(offset, size, None) && this.elementSize == elementSize
    {
      this.offset, this.size, this.stride, this.elementSize := offset, size, None, elementSize;
    }

    function Value(): (s: Space)
      reads this
    {
      Space(offset, size, stride)
    }

    method SetStride(newStride: seq<int>)
      requires Value().Valid() && |newStride| == |size|
      modifies this`stride
      ensures Value().Valid() && stride == Some(newStride)
    {
      stride := Some(newStride);
    }

    method GetEffectiveStride() returns (result: seq<int>)
      requires Value().Valid()
      ensures result == Value().EffectiveStride()
    {
      if stride.Some? { return stride.value; }
      result := Zeros(|size|);
      var curSize, i := 1, |size|;
      while i > 0
        invariant 0 <= i <= |size| == |result|
        invariant curSize == Prod(size[i..])
        invariant forall k :: i <= k < |size| ==> result[k] == Prod(size[k + 1..])
      {
        i := i - 1;
        result := result[i := curSize];
        assert size[i..][1..] == size[i + 1..];
        curSize := curSize * size[i];
      }
    }

    /** The byte offset of an element. */
    method ElementOffset(coords: Point) returns (result: int)
      requires Value().Valid() && |coords| == |size|
      ensures result == Value().ElementIndex(coords) * elementSize
    {
      var sum, i, curSize := 0, |size|, 1;
      ghost var k, st := Minus(coords, offset), Value().EffectiveStride();
      assert k[..|size|] == k && st[..|size|] == st && size[|size|..] == [];
      while i > 0
        invariant 0 <= i <= |size|
        invariant curSize == Prod(size[i..])
        invariant sum + Dot(k[..i], st[..i]) == Dot(k, st)
      {
        DotTake(k, st, i - 1);
        i := i - 1;
        var curStride := if stride.Some? then stride.value[i] else curSize;
        var distance := coords[i] - offset[i];
        assert curStride == st[i] && distance == k[i];
        sum := sum + distance * curStride;
        ProdTail(size, i);
        curSize := curSize * size[i];
      }
      result := sum * elementSize;
    }

    /** Takes over the layout of source, without an explicit stride when the implicit one is the same. */
    method CopyDatalayout(source: Dataspace)
      requires Value().Valid() && source.Value().Valid() && |size| == |source.size|
      modifies this`stride
      ensures Value().Valid()
      ensures source != this ==> Value().EffectiveStride() == source.Value().EffectiveStride()
      ensures stride.None? <==> source.stride.None? && forall i :: 1 <= i < |size| ==> size[i] == source.size[i]
      ensures source == this ==> stride.None?
    {
      stride := None;
      if source.stride.None? {
        var haveMismatch, i := false, 1;
        while i < |size| && !haveMismatch
          invariant 1 <= i
          invariant haveMismatch <==> exists k :: 1 <= k < i && k < |size| && size[k] != source.size[k]
          decreases |size| - i
        {
          haveMismatch := size[i] != source.size[i];
          i := i + 1;
        }
        if !haveMismatch {
          forall k | 0 <= k < |size| ensures ContiguousStride(size)[k] == ContiguousStride(source.size)[k] {
            assert size[k + 1..] == source.size[k + 1..];
          }
          assert ContiguousStride(size) == ContiguousStride(source.size);
          return;
        }
      }
      var result := source.GetEffectiveStride();
      stride := Some(result);
    }
  }

  /** A subspace with its parent's layout addresses the parent's memory: the subspace's buffer
      starts at the parent's element for the subspace's offset, and every element is where the parent has it. */
  lemma SubspaceAddressesParent(parent: Space, sub: Space, c: Point)
    requires parent.Valid() && sub.Valid() && |parent.size| == |sub.size| == |c|
    requires sub.EffectiveStride() == parent.EffectiveStride()
    ensures parent.ElementIndex(sub.offset) + sub.ElementIndex(c) == parent.ElementIndex(c)
  {
    var st := parent.EffectiveStride();
    DotPlus(Minus(sub.offset, parent.offset), Minus(c, sub.offset), st);
    assert Plus(Minus(sub.offset, parent.offset), Minus(c, sub.offset)) == Minus(c, parent.offset);
  }

  /** Both dataspaces find every element in the same bytes, when sub's buffer starts shift bytes after parent's. */
  ghost predicate SameMemory(parent: Space, sub: Space, shift: int, es: int)
    requires parent.Valid() && sub.Valid() && |parent.size| == |sub.size|
  {
    forall c: Point :: |c| == |sub.size| ==> shift + sub.ElementIndex(c) * es == parent.ElementIndex(c) * es
  }

  lemma InheritedMemory(parent: Space, sub: Space, es: int)
    requires parent.Valid() && sub.Valid() && |parent.size| == |sub.size|
    requires sub.EffectiveStride() == parent.EffectiveStride()
    ensures SameMemory(parent, sub, parent.ElementIndex(sub.offset) * es, es)
  {
    forall c: Point | |c| == |sub.size|
      ensures parent.ElementIndex(sub.offset) * es + sub.ElementIndex(c) * es == parent.ElementIndex(c) * es
    {
      SubspaceAddressesParent(parent, sub, c);
      var x, y := parent.ElementIndex(sub.offset), sub.ElementIndex(c);
      assert x * es + y * es == (x + y) * es;
    }
  }

  /** What the write path does for each fragment: a dataspace for the cube with the parent's layout,
      and the start of the fragment's data inside the parent's buffer. */
  method InheritingSubspace(parent: Dataspace, cube: Cube) returns (sub: Dataspace, bufferOffset: int)
    requires parent.Value().Valid() && |cube| == |parent.size|
    ensures fresh(sub) && sub.Value().Valid() && sub.elementSize == parent.elementSize
    ensures sub.size == Sizes(cube) && sub.offset == Corner(cube)
    ensures SameMemory(parent.Value(), sub.Value(), bufferOffset, parent.elementSize)
  {
    var es := parent.elementSize;
    ghost var p := parent.Value();
    sub := new Dataspace(Corner(cube), Sizes(cube), es);
    assert parent.Value() == p;
    sub.CopyDatalayout(parent);
    ghost var s := sub.Value();
    assert sub.size == Sizes(cube) && sub.offset == Corner(cube);
    assert parent.Value() == p && s.EffectiveStride() == p.EffectiveStride();
    bufferOffset := parent.ElementOffset(sub.offset);
    InheritedMemory(p, s, es);
  }
}
