/** What the copy guarantees to its callers: element-wise copying, filling, direct I/O, packing and unpacking. */
module CopyLaws {
  import opened Options
  import opened MixedRadix
  import opened Geometry
  import opened Dataspaces
  import opened CopyPlan
  import opened CopyExec
  import opened CopyData

  /** Every common element of the destination holds the source's element. */
  ghost predicate Elementwise<T>(source: View, src: seq<T>, dest: View, after: seq<T>)
    requires Compatible(source, dest) && source.Fits(Common(source, dest), |src|) && dest.Fits(Common(source, dest), |after|)
  {
    forall c, b :: Contains(Common(source, dest), c) && 0 <= b < dest.es ==> after[dest.Byte(c, b)] == src[source.Byte(c, b)]
  }

  /** Elements that share their place in the destination have the same value in the source. */
  ghost predicate Consistent<T>(source: View, src: seq<T>, dest: View)
    requires Compatible(source, dest) && source.Fits(Common(source, dest), |src|)
  {
    forall c, d, b ::
      (&& Contains(Common(source, dest), c) && Contains(Common(source, dest), d) && 0 <= b < dest.es
       && dest.space.ElementIndex(c) == dest.space.ElementIndex(d))
      ==> src[source.Byte(c, b)] == src[source.Byte(d, b)]
  }

  lemma SameAddress(v: View, c: Point, d: Point, b: int, b': int)
    requires v.Valid() && |c| == |d| == |v.space.size| && 0 <= b < v.es && 0 <= b' < v.es && v.Byte(c, b) == v.Byte(d, b')
    ensures v.space.ElementIndex(c) == v.space.ElementIndex(d) && b == b'
  {
    DivUnique(v.es, v.space.ElementIndex(c), b, v.space.ElementIndex(d), b');
  }

  lemma ConsistentCopies<T>(source: View, src: seq<T>, dest: View, before: seq<T>, after: seq<T>)
    requires Compatible(source, dest) && source.Fits(Common(source, dest), |src|) && dest.Fits(Common(source, dest), |before|)
    requires Copied(source, src, dest, before, after) && Consistent(source, src, dest)
    ensures Elementwise(source, src, dest, after)
  {
    forall c, b | Contains(Common(source, dest), c) && 0 <= b < dest.es
      ensures after[dest.Byte(c, b)] == src[source.Byte(c, b)]
    {
      var a := dest.Byte(c, b);
      assert IsTarget(source, dest, a, c, b);
      assert CopiedByte(source, src, dest, a, before[a], after[a]);
      var d, b' :| IsTarget(source, dest, a, d, b') && after[a] == src[source.Byte(d, b')];
      SameAddress(dest, c, d, b, b');
    }
  }

  /** Exactly when the copy is element-wise, whatever the layouts are. */
  lemma ElementwiseIffConsistent<T>(source: View, src: seq<T>, dest: View, before: seq<T>, after: seq<T>)
    requires Compatible(source, dest) && source.Fits(Common(source, dest), |src|) && dest.Fits(Common(source, dest), |before|)
    requires Copied(source, src, dest, before, after)
    ensures Elementwise(source, src, dest, after) <==> Consistent(source, src, dest)
  {
    if Consistent(source, src, dest) { ConsistentCopies(source, src, dest, before, after); }
    if Elementwise(source, src, dest, after) {
      forall c, d, b | Contains(Common(source, dest), c) && Contains(Common(source, dest), d) && 0 <= b < dest.es
        && dest.space.ElementIndex(c) == dest.space.ElementIndex(d)
        ensures src[source.Byte(c, b)] == src[source.Byte(d, b)]
      {
        assert dest.Byte(c, b) == dest.Byte(d, b);
      }
    }
  }

  /** With a destination layout that separates the common elements, the result is fully determined:
      common elements are copied, every other byte is kept. */
  lemma InjectiveCopy<T>(source: View, src: seq<T>, dest: View, before: seq<T>, after: seq<T>)
    requires Compatible(source, dest) && source.Fits(Common(source, dest), |src|) && dest.Fits(Common(source, dest), |before|)
    requires Copied(source, src, dest, before, after) && InjectiveOn(dest.space, Common(source, dest))
    ensures Elementwise(source, src, dest, after)
    ensures forall a :: 0 <= a < |before| && (forall c, b :: !IsTarget(source, dest, a, c, b)) ==> after[a] == before[a]
  {
    ConsistentCopies(source, src, dest, before, after);
    forall a | 0 <= a < |before| && (forall c, b :: !IsTarget(source, dest, a, c, b)) ensures after[a] == before[a] {
      assert CopiedByte(source, src, dest, a, before[a], after[a]);
    }
  }

  /** A source without strides is a single element: the copy fills the common region with it. */
  lemma ZeroStrideFills<T>(source: View, src: seq<T>, dest: View, before: seq<T>, after: seq<T>, c: Point, b: int)
    requires Compatible(source, dest) && source.Fits(Common(source, dest), |src|) && dest.Fits(Common(source, dest), |before|)
    requires Copied(source, src, dest, before, after)
    requires source.space.stride == Some(Zeros(|source.space.size|))
    requires Contains(Common(source, dest), c) && 0 <= b < dest.es
    ensures 0 <= source.base + b < |src| && after[dest.Byte(c, b)] == src[source.base + b]
  {
    forall d | Contains(Common(source, dest), d) ensures source.space.ElementIndex(d) == 0 {
      DotZeroStride(Minus(d, source.space.offset), Zeros(|source.space.size|));
    }
    assert forall d, b :: Contains(Common(source, dest), d) && 0 <= b < dest.es ==> source.Byte(d, b) == source.base + b;
    ConsistentCopies(source, src, dest, before, after);
    assert 0 <= source.Byte(c, b) < |src|;
  }

  // ----- direct I/O

  /** The product over the marked dimensions. */
  ghost function MaskedProd(mask: seq<bool>, v: seq<int>): int
    requires |mask| == |v|
  {
    if v == [] then 1 else (if mask[0] then v[0] else 1) * MaskedProd(mask[1..], v[1..])
  }

  lemma {:induction false} MaskedProdMark(mask: seq<bool>, v: seq<int>, d: nat)
    requires |mask| == |v| && d < |v| && !mask[d]
    ensures MaskedProd(mask[d := true], v) == MaskedProd(mask, v) * v[d]
  {
    if d == 0 {
      assert mask[d := true][1..] == mask[1..];
    } else {
      assert mask[d := true][1..] == mask[1..][d - 1 := true];
      MaskedProdMark(mask[1..], v[1..], d - 1);
      MulAssociates(if mask[0] then v[0] else 1, MaskedProd(mask[1..], v[1..]), v[d]);
    }
  }

  lemma MulAssociates(a: int, b: int, c: int)
    ensures a * (b * c) == (a * b) * c
  {}

  lemma {:induction false} MaskedProdBounds(mask: seq<bool>, v: seq<int>)
    requires |mask| == |v|
    ensures (forall i :: 0 <= i < |v| ==> mask[i]) ==> MaskedProd(mask, v) == Prod(v)
    ensures (forall i :: 0 <= i < |v| ==> !mask[i]) ==> MaskedProd(mask, v) == 1
  {
    if v != [] { MaskedProdBounds(mask[1..], v[1..]); }
  }

  ghost function MaskOf(dims: seq<int>, n: nat): (mask: seq<bool>)
    ensures |mask| == n && forall i :: 0 <= i < n ==> (mask[i] <==> i in dims)
  {
    seq(n, i => i in dims)
  }

  lemma {:induction false} ProdGather(dims: seq<int>, v: seq<int>)
    requires DimList(dims, |v|)
    ensures Prod(Gather(dims, v)) == MaskedProd(MaskOf(dims, |v|), v)
    decreases |dims|
  {
    if dims == [] {
      MaskedProdBounds(MaskOf(dims, |v|), v);
    } else {
      var l := |dims| - 1;
      var d, r := dims[l], dims[..l];
      ProdGather(r, v);
      assert Gather(dims, v) == Gather(r, v) + [v[d]];
      ProdSnoc(Gather(r, v), v[d]);
      assert dims == r + [d];
      assert MaskOf(dims, |v|) == MaskOf(r, |v|)[d := true];
      MaskedProdMark(MaskOf(r, |v|), v, d);
    }
  }

  lemma {:induction false} ProdMonotone(a: seq<int>, b: seq<int>)
    requires |a| == |b| && AllPositive(a) && forall i :: 0 <= i < |a| ==> a[i] <= b[i]
    ensures Prod(a) <= Prod(b) && (Prod(a) == Prod(b) ==> a == b)
  {
    if a != [] {
      ProdMonotone(a[1..], b[1..]);
      ProdPositive(a[1..]);
      ProductOrder(a[0], Prod(a[1..]), b[0], Prod(b[1..]));
      assert a == [a[0]] + a[1..] && b == [b[0]] + b[1..];
    }
  }

  lemma {:induction false} BelowIsZero(n: seq<int>, st: seq<int>)
    requires |n| == |st| && AllPositive(n) && Fusible(n, st)
    ensures Below(n, st) >= 0
    ensures Below(n, st) == 0 <==> forall m :: 0 <= m < |n| && st[m] < 0 ==> n[m] == 1
  {
    if n != [] {
      var l := |n| - 1;
      FusiblePrefix(n, st);
      BelowIsZero(n[..l], st[..l]);
      ProdPositive(n[..l]);
      MulMonotone(0, n[l] - 1, Prod(n[..l]));
      if n[l] > 1 { MulAtLeast(Prod(n[..l]), n[l] - 1); }
      forall m | 0 <= m < l ensures n[..l][m] == n[m] && st[..l][m] == st[m] {}
    }
  }

  lemma AllFused(fused: seq<int>, n: seq<int>)
    requires DimList(fused, |n|) && forall i :: 0 <= i < |n| ==> i in fused
    ensures Prod(Gather(fused, n)) == Prod(n)
  {
    ProdGather(fused, n);
    MaskedProdBounds(MaskOf(fused, |n|), n);
  }

  /** When one chunk of the fragment's full size moves everything, the common region is the whole fragment. */
  lemma SingleChunkIsWhole(plan: Plan, source: View, dest: View, fused: seq<int>, order: seq<int>)
    requires Compatible(source, dest) && PlanFor(plan, source, dest, fused, order)
    requires plan.size == [] && plan.chunkBytes == TotalBytes(source)
    ensures Sizes(Common(source, dest)) == source.space.size
  {
    var n, size := Sizes(Common(source, dest)), source.space.size;
    NothingIterated(fused, order, |n|);
    AllFused(fused, n);
    EqualFactor(Prod(n), Prod(size), source.es);
    forall i | 0 <= i < |n| ensures n[i] <= size[i] { CommonIsSmaller(source, dest, i); }
    ProdMonotone(n, size);
  }

  lemma CommonIsSmaller(source: View, dest: View, i: nat)
    requires Compatible(source, dest) && i < |source.space.size|
    ensures 0 < Sizes(Common(source, dest))[i] <= source.space.size[i]
    ensures Sizes(Common(source, dest))[i] == source.space.size[i] ==> Common(source, dest)[i] == source.space.Extents()[i]
  {
    var o, x := Common(source, dest), source.space.Extents();
    OverlappingIffMeets(x, dest.space.Extents());
    assert !o[i].IsEmpty() && o[i] == Meet(x[i], dest.space.Extents()[i]);
  }

  lemma WholeStartsAtZero(source: View, dest: View)
    requires Compatible(source, dest) && Sizes(Common(source, dest)) == source.space.size
    ensures source.space.ElementIndex(Corner(Common(source, dest))) == 0
  {
    var o, n := Common(source, dest), source.space.size;
    forall i | 0 <= i < |n| ensures o[i] == source.space.Extents()[i] { CommonIsSmaller(source, dest, i); }
    assert Minus(Corner(o), source.space.offset) == Zeros(|n|);
    DotZeros(|n|, source.space.EffectiveStride());
  }

  /** No dimension longer than one runs backwards. */
  predicate NoneBackwards(n: seq<int>, st: seq<int>)
    requires |n| == |st|
  {
    forall i :: 0 <= i < |n| && st[i] < 0 ==> n[i] == 1
  }

  lemma BackwardsDims(fused: seq<int>, n: seq<int>, st: seq<int>)
    requires |n| == |st| && DimList(fused, |n|) && AllPositive(n) && (forall i :: 0 <= i < |n| ==> i in fused)
    requires Fusible(Gather(fused, n), Gather(fused, st))
    ensures Below(Gather(fused, n), Gather(fused, st)) == 0 <==> NoneBackwards(n, st)
  {
    var nf, sf := Gather(fused, n), Gather(fused, st);
    forall m | 0 <= m < |nf| ensures nf[m] > 0 { assert n[fused[m]] > 0; }
    BelowIsZero(nf, sf);
    if forall m :: 0 <= m < |nf| && sf[m] < 0 ==> nf[m] == 1 {
      forall i | 0 <= i < |n| && st[i] < 0 ensures n[i] == 1 {
        assert i in fused;
        var m :| 0 <= m < |fused| && fused[m] == i;
        assert sf[m] == st[i] && nf[m] == n[i];
      }
    }
  }

  /** The direct read path takes for granted that the chunk then starts at the fragment's first element.
      That holds exactly when no dimension longer than one runs backwards. */
  lemma DirectReadOffset(plan: Plan, source: View, dest: View, fused: seq<int>, order: seq<int>)
    requires Compatible(source, dest) && PlanFor(plan, source, dest, fused, order)
    requires plan.size == [] && plan.chunkBytes == TotalBytes(source)
    ensures plan.sourceOffset == 0 <==> NoneBackwards(source.space.size, source.space.EffectiveStride())
  {
    WholeOffset(plan, source, dest, fused, order);
    BackwardsDims(fused, source.space.size, source.space.EffectiveStride());
  }

  lemma WholeOffset(plan: Plan, source: View, dest: View, fused: seq<int>, order: seq<int>)
    requires Compatible(source, dest) && PlanFor(plan, source, dest, fused, order)
    requires plan.size == [] && plan.chunkBytes == TotalBytes(source)
    ensures var n, st := source.space.size, source.space.EffectiveStride();
      && DimList(fused, |n|) && AllPositive(n) && (forall i :: 0 <= i < |n| ==> i in fused) && Fusible(Gather(fused, n), Gather(fused, st))
      && (plan.sourceOffset == 0 <==> Below(Gather(fused, n), Gather(fused, st)) == 0)
  {
    SingleChunkIsWhole(plan, source, dest, fused, order);
    WholeStartsAtZero(source, dest);
    NothingIterated(fused, order, |source.space.size|);
    PlanStart(plan, source.space.size, source.space.EffectiveStride(), dest.space.EffectiveStride(), 0,
              dest.space.ElementIndex(Corner(Common(source, dest))), source.es, fused, order);
  }

  lemma PlanStart(plan: Plan, n: seq<int>, src: seq<int>, dst: seq<int>, s0: int, d0: int, es: int, fused: seq<int>, order: seq<int>)
    requires Justified(plan, n, src, dst, s0, d0, es, fused, order) && s0 == 0 && es > 0
    ensures plan.sourceOffset == 0 <==> Below(Gather(fused, n), Gather(fused, src)) == 0
  {
    OffsetIsZero(plan.sourceOffset, s0, Below(Gather(fused, n), Gather(fused, src)), es);
  }

  /** The bytes that the direct read path stores: the fragment as a whole, at the chunk's place in the destination. */
  ghost function ReadInto<T>(before: seq<T>, a: int, bytes: seq<T>): seq<T>
    requires 0 <= a && a + |bytes| <= |before|
  {
    before[..a] + bytes + before[a + |bytes|..]
  }

  /** Byte t of the fragment belongs where the direct read puts it ... */
  lemma DirectByte(plan: Plan, source: View, dest: View, fused: seq<int>, order: seq<int>, t: int) returns (c: Point, b: int)
    requires Compatible(source, dest) && PlanFor(plan, source, dest, fused, order)
    requires plan.size == [] && plan.sourceOffset == 0 && 0 <= t < plan.chunkBytes
    ensures IsTarget(source, dest, dest.base + plan.destOffset + t, c, b) && source.Byte(c, b) == source.base + t
  {
    PlanIsPositive(plan, source, dest, fused, order);
    c, b := ChunkToElement(plan, source, dest, fused, order, [], t);
  }

  /** ... and all elements are there. */
  lemma DirectTarget(plan: Plan, source: View, dest: View, fused: seq<int>, order: seq<int>, a: int, c: Point, b: int)
    requires Compatible(source, dest) && PlanFor(plan, source, dest, fused, order)
    requires plan.size == [] && IsTarget(source, dest, a, c, b)
    ensures dest.base + plan.destOffset <= a < dest.base + plan.destOffset + plan.chunkBytes
  {
    PlanIsPositive(plan, source, dest, fused, order);
    var k, t := ElementToChunk(plan, source, dest, fused, order, c, b);
  }

  lemma DirectReadFits<T>(plan: Plan, source: View, dest: View, before: seq<T>, fused: seq<int>, order: seq<int>)
    requires Compatible(source, dest) && PlanFor(plan, source, dest, fused, order)
    requires plan.size == [] && plan.sourceOffset == 0 && dest.Fits(Common(source, dest), |before|)
    ensures 0 <= dest.base + plan.destOffset && dest.base + plan.destOffset + plan.chunkBytes <= |before|
  {
    PlanIsPositive(plan, source, dest, fused, order);
    var c, b := DirectByte(plan, source, dest, fused, order, 0);
    var c', b' := DirectByte(plan, source, dest, fused, order, plan.chunkBytes - 1);
    assert 0 <= dest.Byte(c, b) && dest.Byte(c', b') < |before|;
  }

  /** What the direct read path is for: if a single chunk moves the whole fragment and starts at its first byte, reading the
      fragment's bytes to the chunk's place in the destination does what the copy does. */
  lemma DirectRead<T>(plan: Plan, source: View, bytes: seq<T>, dest: View, before: seq<T>, fused: seq<int>, order: seq<int>)
    requires Compatible(source, dest) && PlanFor(plan, source, dest, fused, order)
    requires plan.size == [] && plan.chunkBytes == |bytes| && plan.sourceOffset == 0
    requires source.base == 0 && source.Fits(Common(source, dest), |bytes|) && dest.Fits(Common(source, dest), |before|)
    ensures 0 <= dest.base + plan.destOffset && dest.base + plan.destOffset + |bytes| <= |before|
    ensures Copied(source, bytes, dest, before, ReadInto(before, dest.base + plan.destOffset, bytes))
  {
    DirectReadFits(plan, source, dest, before, fused, order);
    var start := dest.base + plan.destOffset;
    var after := ReadInto(before, start, bytes);
    forall a | 0 <= a < |before| ensures CopiedByte(source, bytes, dest, a, before[a], after[a]) {
      if start <= a < start + |bytes| {
        var c, b := DirectByte(plan, source, dest, fused, order, a - start);
        assert IsTarget(source, dest, a, c, b) && after[a] == bytes[source.Byte(c, b)];
      } else {
        forall c, b ensures !IsTarget(source, dest, a, c, b) {
          if IsTarget(source, dest, a, c, b) { DirectTarget(plan, source, dest, fused, order, a, c, b); }
        }
      }
    }
  }

  /** The plan for a fragment of two elements that runs backwards, read into a space of the same shape: one chunk moves
      all of it, and starts before the fragment's first element. */
  method BackwardsFragment(es: int) returns (plan: Plan)
    requires es > 0
    ensures plan.size == [] && plan.chunkBytes == 2 * es && plan.sourceOffset == -es
  {
    var s := Space([0], [2], Some([-1]));
    assert Contains(s.Extents(), [0]);
    ghost var fused, order;
    plan, fused, order := CopyInstructions(s, s, es);
    BackwardsPlan(s, plan, es, fused, order);
  }

  lemma BackwardsPlan(s: Space, plan: Plan, es: int, fused: seq<int>, order: seq<int>)
    requires s == Space([0], [2], Some([-1])) && s.Valid()
    requires var o := MeetCube(s.Extents(), s.Extents());
      |Corner(o)| == 1
      && Justified(plan, Sizes(o), s.EffectiveStride(), s.EffectiveStride(), s.ElementIndex(Corner(o)), s.ElementIndex(Corner(o)), es, fused, order)
      && Exhausted(fused, Sizes(o), s.EffectiveStride(), s.EffectiveStride(), s.size, s.size)
    ensures plan.size == [] && plan.chunkBytes == 2 * es && plan.sourceOffset == -es
  {
    BackwardsShape(s);
    OneFused(fused, order);
    OneBackwards(Gather(fused, [2]), Gather(fused, [-1]));
  }

  lemma BackwardsShape(s: Space)
    requires s == Space([0], [2], Some([-1])) && s.Valid()
    ensures var o := MeetCube(s.Extents(), s.Extents()); Sizes(o) == [2] && Corner(o) == [0]
    ensures s.EffectiveStride() == [-1] && s.ElementIndex([0]) == 0
  {
    var o := MeetCube(s.Extents(), s.Extents());
    assert o == s.Extents();
    assert Minus([0], s.offset) == [0];
  }

  lemma OneFused(fused: seq<int>, order: seq<int>)
    requires Exhausted(fused, [2], [-1], [-1], [2], [2]) && DimList(fused, 1) && DimList(order, 1) && Marks(AllTrue(1), fused + order)
    ensures fused == [0] && order == [] && Gather(fused, [2]) == [2] && Gather(fused, [-1]) == [-1]
  {
    NothingFused();
    if |fused + order| > 1 { TooManyDims(fused + order); }
    assert fused[0] == 0;
  }

  lemma NothingFused()
    ensures !Exhausted([], [2], [-1], [-1], [2], [2])
  {
    assert Gather([], [2]) == [];
    assert Extends([], [2], [-1], [-1], 0);
  }

  lemma TooManyDims(dims: seq<int>)
    requires |dims| > 1
    ensures !DimList(dims, 1)
  {
    if 0 <= dims[0] < 1 { assert dims[1] == dims[0] || !(0 <= dims[1] < 1); }
  }

  lemma OneBackwards(n: seq<int>, st: seq<int>)
    requires n == [2] && st == [-1]
    ensures Prod(n) == 2 && Below(n, st) == 1
  {
    assert n[1..] == [] && st[1..] == [];
  }

  lemma NothingIterated(fused: seq<int>, order: seq<int>, n: nat)
    requires Marks(AllTrue(n), fused + order) && order == []
    ensures forall i :: 0 <= i < n ==> i in fused
  {
    forall i | 0 <= i < n ensures i in fused {
      assert AllTrue(n)[i];
      assert i in fused + order;
    }
  }

  lemma OffsetIsZero(offset: int, x0: int, below: int, es: int)
    requires offset == (x0 - below) * es && x0 == 0 && es > 0
    ensures offset == 0 <==> below == 0
  {
    if offset == 0 { EqualFactor(x0 - below, 0, es); }
  }

  // ----- packing

  function Contiguous(v: View): (r: View)
    requires v.Valid()
    ensures r.Valid()
  {
    View(Space(v.space.offset, v.space.size, None), 0, v.es)
  }

  /** The source's makeContiguous rejects other dataspaces. */
  predicate Packable(v: View) {
    v.Valid() && AllPositive(v.space.size) && forall i :: 0 <= i < |v.space.offset| ==> 0 <= v.space.offset[i]
  }

  function TotalBytes(v: View): int { Prod(v.space.size) * v.es }

  lemma PackCompatible(v: View)
    requires Packable(v)
    ensures Compatible(v, Contiguous(v)) && Compatible(Contiguous(v), v)
    ensures Common(v, Contiguous(v)) == v.space.Extents() == Common(Contiguous(v), v)
    ensures Contiguous(v).Fits(v.space.Extents(), TotalBytes(v))
    ensures InjectiveOn(Contiguous(v).space, v.space.Extents())
  {
    var w := Contiguous(v);
    var x := v.space.Extents();
    assert w.space.Extents() == x;
    assert MeetCube(x, x) == x;
    forall i | 0 <= i < |x| ensures !x[i].IsEmpty() { assert v.space.size[i] > 0; }
    assert Contains(x, Corner(x));
    forall c, b | Contains(x, c) && 0 <= b < w.es ensures 0 <= w.Byte(c, b) < TotalBytes(v) {
      ContiguousBounds(w.space, c);
      DigitBounds(b, v.es, w.space.ElementIndex(c), Prod(v.space.size));
    }
    ContiguousIsInjective(w.space);
  }

  /** The place of a byte in C order. */
  function PackedIndex(v: View, c: Point, b: int): int
    requires v.Valid() && |c| == |v.space.size|
  {
    Rank(Minus(c, v.space.offset), v.space.size) * v.es + b
  }

  /** From start on, packed holds the fragment's elements in C order. */
  ghost predicate Packed<T>(v: View, buf: seq<T>, packed: seq<T>, start: int)
    requires Packable(v) && v.Fits(v.space.Extents(), |buf|) && 0 <= start && start + TotalBytes(v) <= |packed|
  {
    forall c, b :: Contains(v.space.Extents(), c) && 0 <= b < v.es ==>
      0 <= PackedIndex(v, c, b) < TotalBytes(v) && packed[start + PackedIndex(v, c, b)] == buf[v.Byte(c, b)]
  }

  lemma ContiguousByte(v: View, c: Point, b: int)
    requires Packable(v) && Contains(v.space.Extents(), c) && 0 <= b < v.es
    ensures Contiguous(v).Byte(c, b) == PackedIndex(v, c, b) && 0 <= PackedIndex(v, c, b) < TotalBytes(v)
  {
    assert Contiguous(v).space.Extents() == v.space.Extents();
    ContiguousBounds(Contiguous(v).space, c);
    DigitBounds(b, v.es, Rank(Minus(c, v.space.offset), v.space.size), Prod(v.space.size));
  }

  lemma InPlaceIsPacked<T>(v: View, buf: seq<T>, packed: seq<T>, start: int)
    requires Packable(v) && v.Fits(v.space.Extents(), |buf|) && v.space.stride.None?
    requires 0 <= TotalBytes(v) && 0 <= start && start + TotalBytes(v) <= |packed|
    requires 0 <= v.base && v.base + TotalBytes(v) <= |buf|
    requires packed[start..start + TotalBytes(v)] == buf[v.base..v.base + TotalBytes(v)]
    ensures Packed(v, buf, packed, start)
  {
    var n := TotalBytes(v);
    forall c, b | Contains(v.space.Extents(), c) && 0 <= b < v.es
      ensures 0 <= PackedIndex(v, c, b) < n && packed[start + PackedIndex(v, c, b)] == buf[v.Byte(c, b)]
    {
      InPlaceByte(v, c, b);
      SameSlices(packed, start, buf, v.base, n, PackedIndex(v, c, b));
    }
  }

  lemma InPlaceByte(v: View, c: Point, b: int)
    requires Packable(v) && v.space.stride.None? && Contains(v.space.Extents(), c) && 0 <= b < v.es
    ensures 0 <= PackedIndex(v, c, b) < TotalBytes(v) && v.Byte(c, b) == v.base + PackedIndex(v, c, b)
  {
    ContiguousByte(v, c, b);
    ContiguousBounds(v.space, c);
  }

  lemma SameSlices<T>(a: seq<T>, x: nat, b: seq<T>, y: nat, n: nat, i: nat)
    requires x + n <= |a| && y + n <= |b| && a[x..x + n] == b[y..y + n] && i < n
    ensures a[x + i] == b[y + i]
  {
    assert a[x + i] == a[x..x + n][i] && b[y + i] == b[y..y + n][i];
  }

  lemma CopyPacks<T>(v: View, buf: seq<T>, before: seq<T>, after: seq<T>)
    requires Packable(v) && v.Fits(v.space.Extents(), |buf|) && |before| >= TotalBytes(v)
    requires Compatible(v, Contiguous(v)) && Common(v, Contiguous(v)) == v.space.Extents()
    requires Copied(v, buf, Contiguous(v), before, after)
    ensures Packed(v, buf, after, 0)
  {
    PackCompatible(v);
    var w := Contiguous(v);
    InjectiveCopy(v, buf, w, before, after);
    forall c, b | Contains(v.space.Extents(), c) && 0 <= b < v.es
      ensures 0 <= PackedIndex(v, c, b) < TotalBytes(v) && after[PackedIndex(v, c, b)] == buf[v.Byte(c, b)]
    {
      ContiguousByte(v, c, b);
      assert after[w.Byte(c, b)] == buf[v.Byte(c, b)];
    }
  }

  lemma TotalBytesPositive(v: View)
    requires Packable(v)
    ensures TotalBytes(v) >= 1
  {
    ProdPositive(v.space.size);
    MulAtLeast(Prod(v.space.size), v.es);
  }

  /** Serialises a fragment without compression: in place, into the given buffer, or into a new one. */
  method PackFragment<T(0)>(v: View, buf: array<T>, given: array?<T>) returns (out: array<T>, start: int, size: int)
    requires Packable(v) && v.Fits(v.space.Extents(), buf.Length)
    requires v.space.stride.None? ==> 0 <= v.base && v.base + TotalBytes(v) <= buf.Length
    requires given != null ==> given != buf && given.Length >= TotalBytes(v)
    modifies if given == null then {} else {given}
    ensures given != null ==> out == given && start == 0
    ensures given == null && v.space.stride.None? ==> out == buf && start == v.base
    ensures given == null && v.space.stride.Some? ==> fresh(out) && start == 0
    ensures size == TotalBytes(v) && 0 <= start && start + size <= out.Length
    ensures Packed(v, old(buf[..]), out[..], start)
  {
    size, start := Prod(v.space.size) * v.es, 0;
    TotalBytesPositive(v);
    if v.space.stride.None? {
      if given != null {
        Memcpy(given, 0, buf, v.base, size);
        out := given;
        assert out[..][0..size] == buf[..][v.base..v.base + size];
      } else {
        out, start := buf, v.base;
      }
      InPlaceIsPacked(v, buf[..], out[..], start);
    } else {
      PackCompatible(v);
      if given != null { out := given; } else { out := new T[size]; }
      ghost var before := out[..];
      CopyDataspace(v, buf, Contiguous(v), out);
      CopyPacks(v, buf[..], before, out[..]);
    }
  }

  /** Unpacks what a backend has read; for contiguous fragments the backend has read straight into the buffer. */
  method UnpackFragment<T>(v: View, buf: array<T>, read: array<T>)
    requires Packable(v) && v.Fits(v.space.Extents(), buf.Length)
    requires v.space.stride.Some? ==> read != buf && read.Length >= TotalBytes(v)
    modifies buf
    ensures v.space.stride.None? ==> buf[..] == old(buf[..])
    ensures v.space.stride.Some? ==> Unpacked(v, read[..], old(buf[..]), buf[..])
  {
    if v.space.stride.Some? {
      PackCompatible(v);
      CopyDataspace(Contiguous(v), read, v, buf);
    }
  }

  ghost predicate Unpacked<T>(v: View, read: seq<T>, before: seq<T>, after: seq<T>)
    requires Packable(v)
  {
    && Compatible(Contiguous(v), v) && Contiguous(v).Fits(Common(Contiguous(v), v), |read|)
    && Copied(Contiguous(v), read, v, before, after)
  }

  lemma PackedIsConsistent<T>(v: View, original: seq<T>, packed: seq<T>)
    requires Packable(v) && v.Fits(v.space.Extents(), |original|)
    requires |packed| >= TotalBytes(v) && Packed(v, original, packed, 0)
    requires Compatible(Contiguous(v), v) && Contiguous(v).Fits(Common(Contiguous(v), v), |packed|)
    ensures Consistent(Contiguous(v), packed, v)
  {
    PackCompatible(v);
    var w, x := Contiguous(v), v.space.Extents();
    forall c, d, b | Contains(x, c) && Contains(x, d) && 0 <= b < v.es && v.space.ElementIndex(c) == v.space.ElementIndex(d)
      ensures packed[w.Byte(c, b)] == packed[w.Byte(d, b)]
    {
      ContiguousByte(v, c, b);
      ContiguousByte(v, d, b);
      assert v.Byte(c, b) == v.Byte(d, b);
    }
  }

  /** Unpacking a packed fragment restores every byte of every element, for every layout. */
  lemma PackUnpackRestores<T>(v: View, original: seq<T>, packed: seq<T>, before: seq<T>, after: seq<T>)
    requires Packable(v) && v.Fits(v.space.Extents(), |original|) && v.Fits(v.space.Extents(), |before|)
    requires |packed| >= TotalBytes(v) && Packed(v, original, packed, 0)
    requires Unpacked(v, packed, before, after)
    ensures |after| == |before|
    ensures forall c, b :: Contains(v.space.Extents(), c) && 0 <= b < v.es ==> after[v.Byte(c, b)] == original[v.Byte(c, b)]
  {
    PackCompatible(v);
    PackedIsConsistent(v, original, packed);
    ConsistentCopies(Contiguous(v), packed, v, before, after);
    forall c, b | Contains(v.space.Extents(), c) && 0 <= b < v.es ensures after[v.Byte(c, b)] == original[v.Byte(c, b)] {
      ContiguousByte(v, c, b);
      assert after[v.Byte(c, b)] == packed[Contiguous(v).Byte(c, b)];
    }
  }
}
