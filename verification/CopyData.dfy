/** The strided copy between dataspaces, and what it does to every byte of the destination. */
module CopyData {
  import opened MixedRadix
  import opened Geometry
  import opened Dataspaces
  import opened CopyPlan
  import opened CopyExec

  // ----- coordinates and index vectors

  lemma CoordinateOfIndex(s: Space, o: Cube, k: seq<int>)
    requires s.Valid() && |o| == |s.size| && InBox(k, Sizes(o))
    ensures Contains(o, Plus(Corner(o), k))
    ensures s.ElementIndex(Plus(Corner(o), k)) == s.ElementIndex(Corner(o)) + Dot(k, s.EffectiveStride())
  {
    var c := Plus(Corner(o), k);
    forall i | 0 <= i < |o| ensures o[i].Has(c[i]) { assert 0 <= k[i] < Sizes(o)[i]; }
    assert Minus(c, s.offset) == Plus(Minus(Corner(o), s.offset), k);
    DotPlus(Minus(Corner(o), s.offset), k, s.EffectiveStride());
  }

  lemma IndexOfCoordinate(o: Cube, c: Point)
    requires Contains(o, c)
    ensures InBox(Minus(c, Corner(o)), Sizes(o)) && Plus(Corner(o), Minus(c, Corner(o))) == c
  {
    forall i | 0 <= i < |o| ensures 0 <= Minus(c, Corner(o))[i] < Sizes(o)[i] { assert o[i].Has(c[i]); }
  }

  lemma {:induction false} DotScaled(k: seq<int>, st: seq<int>, f: int)
    requires |k| == |st|
    ensures Dot(k, Scaled(st, f)) == Dot(k, st) * f
  {
    if k != [] {
      var l := |k| - 1;
      assert Scaled(st, f)[..l] == Scaled(st[..l], f);
      DotScaled(k[..l], st[..l], f);
      assert k[l] * (st[l] * f) == (k[l] * st[l]) * f;
      assert (Dot(k[..l], st[..l]) + k[l] * st[l]) * f == Dot(k[..l], st[..l]) * f + (k[l] * st[l]) * f;
    }
  }

  // ----- chunk bytes and element bytes

  /** The two ways to name a byte: byte t of chunk k, byte b of the element with index vector e. */
  ghost predicate SameByte(offset: int, st: seq<int>, order: seq<int>, es: int, x0: int, k: seq<int>, t: int, e: seq<int>, b: int)
    requires DimList(order, |st|) && |k| == |order| && |e| == |st|
  {
    offset + Dot(k, Scaled(Gather(order, st), es)) + t == (x0 + Dot(e, st)) * es + b
  }

  lemma ByteArithmetic(offset: int, x0: int, below: int, o: int, so: int, f: int, dot: int, u: int, es: int, b: int)
    requires offset == (x0 - below) * es && so == o * es && dot == f + o && u == f + below
    ensures offset + so + (u * es + b) == (x0 + dot) * es + b
  {
    assert (x0 - below) * es + o * es + u * es == (x0 - below + o + u) * es;
  }

  lemma SplitAddress(st: seq<int>, fused: seq<int>, order: seq<int>, e: seq<int>)
    requires |e| == |st| && DimList(fused, |st|) && DimList(order, |st|) && Marks(AllTrue(|st|), fused + order)
    ensures Dot(e, st) == Dot(Gather(fused, e), Gather(fused, st)) + Dot(Gather(order, e), Gather(order, st))
  {
    MarksEverything(AllTrue(|st|), fused, order, e, st);
  }

  lemma BytesAgree(offset: int, n: seq<int>, st: seq<int>, fst: seq<int>, fused: seq<int>, order: seq<int>, es: int, x0: int,
                   k: seq<int>, u: int, b: int, e: seq<int>)
    requires |st| == |n| == |e| && DimList(fused, |n|) && DimList(order, |n|) && Marks(AllTrue(|n|), fused + order)
    requires fst == Gather(fused, st)
    requires offset == (x0 - Below(Gather(fused, n), fst)) * es
    requires Gather(order, e) == k && u == Dot(Gather(fused, e), fst) + Below(Gather(fused, n), fst)
    ensures SameByte(offset, st, order, es, x0, k, u * es + b, e, b)
  {
    SplitAddress(st, fused, order, e);
    DotScaled(k, Gather(order, st), es);
    ByteArithmetic(offset, x0, Below(Gather(fused, n), fst), Dot(k, Gather(order, st)), Dot(k, Scaled(Gather(order, st), es)),
                   Dot(Gather(fused, e), fst), Dot(e, st), u, es, b);
  }

  /** The index vector with the given digits in the fused and in the iterated dimensions. */
  lemma Assemble(n: seq<int>, fused: seq<int>, order: seq<int>, kf: seq<int>, k: seq<int>) returns (e: seq<int>)
    requires DimList(fused, |n|) && DimList(order, |n|) && Marks(AllTrue(|n|), fused + order)
    requires InBox(kf, Gather(fused, n)) && InBox(k, Gather(order, n))
    ensures InBox(e, n) && Gather(fused, e) == kf && Gather(order, e) == k
  {
    var e0 := Scatter(fused, kf, Zeros(|n|));
    e := Scatter(order, k, e0);
    forall m | 0 <= m < |fused| ensures e[fused[m]] == kf[m] {
      var all := fused + order;
      forall l | 0 <= l < |order| ensures order[l] != fused[m] {
        assert all[m] == fused[m] && all[|fused| + l] == order[l];
      }
      assert fused[m] !in order;
    }
    forall i | 0 <= i < |n| ensures 0 <= e[i] < n[i] {
      assert AllTrue(|n|)[i];
      assert i in fused + order;
      if i in fused {
        var m :| 0 <= m < |fused| && fused[m] == i;
        assert 0 <= kf[m] < Gather(fused, n)[m];
      } else {
        var m :| 0 <= m < |order| && order[m] == i;
        assert 0 <= k[m] < Gather(order, n)[m];
      }
    }
    assert Gather(fused, e) == kf && Gather(order, e) == k;
  }

  /** Every byte of every chunk is a byte of an element, the same element for source and destination. */
  lemma ChunkByteIsElement(plan: Plan, n: seq<int>, src: seq<int>, dst: seq<int>, s0: int, d0: int, es: int, fused: seq<int>, order: seq<int>, k: seq<int>, t: int)
    returns (e: seq<int>, b: int)
    requires Justified(plan, n, src, dst, s0, d0, es, fused, order) && es > 0
    requires InBox(k, plan.size) && 0 <= t < plan.chunkBytes
    ensures InBox(e, n) && 0 <= b < es
    ensures SameByte(plan.sourceOffset, src, order, es, s0, k, t, e, b) && SameByte(plan.destOffset, dst, order, es, d0, k, t, e, b)
  {
    var u;
    u, b := Divide(t, es, Prod(Gather(fused, n)));
    var kf := FusedDigits(Gather(fused, n), Gather(fused, src), u);
    e := Assemble(n, fused, order, kf, k);
    BytesAgree(plan.sourceOffset, n, src, Gather(fused, src), fused, order, es, s0, k, u, b, e);
    BytesAgree(plan.destOffset, n, dst, Gather(fused, src), fused, order, es, d0, k, u, b, e);
  }

  lemma GatherInBox(dims: seq<int>, e: seq<int>, n: seq<int>)
    requires DimList(dims, |n|) && InBox(e, n)
    ensures InBox(Gather(dims, e), Gather(dims, n))
  {
    forall m | 0 <= m < |dims| ensures 0 <= Gather(dims, e)[m] < Gather(dims, n)[m] { assert 0 <= e[dims[m]] < n[dims[m]]; }
  }

  /** The place of an element in the chunk that the fused dimensions form. */
  lemma PlaceInChunk(fused: seq<int>, n: seq<int>, st: seq<int>, e: seq<int>, es: int, b: int) returns (u: int)
    requires |n| == |st| && AllPositive(n) && DimList(fused, |n|) && Fusible(Gather(fused, n), Gather(fused, st)) && InBox(e, n) && 0 <= b < es
    ensures u == Dot(Gather(fused, e), Gather(fused, st)) + Below(Gather(fused, n), Gather(fused, st))
    ensures 0 <= u * es + b < Prod(Gather(fused, n)) * es
  {
    var kf, nf, sf := Gather(fused, e), Gather(fused, n), Gather(fused, st);
    GatherInBox(fused, e, n);
    FusedInside(nf, sf, kf);
    u := Dot(kf, sf) + Below(nf, sf);
    DigitBounds(b, es, u, Prod(nf));
  }

  /** Every byte of every element is a byte of some chunk. */
  lemma ElementIsChunkByte(plan: Plan, n: seq<int>, src: seq<int>, dst: seq<int>, s0: int, d0: int, es: int, fused: seq<int>, order: seq<int>, e: seq<int>, b: int)
    returns (k: seq<int>, t: int)
    requires Justified(plan, n, src, dst, s0, d0, es, fused, order)
    requires InBox(e, n) && 0 <= b < es
    ensures InBox(k, plan.size) && 0 <= t < plan.chunkBytes
    ensures SameByte(plan.sourceOffset, src, order, es, s0, k, t, e, b) && SameByte(plan.destOffset, dst, order, es, d0, k, t, e, b)
  {
    k := Gather(order, e);
    var sf := Gather(fused, src);
    GatherInBox(order, e, n);
    var u := PlaceInChunk(fused, n, src, e, es, b);
    t := u * es + b;
    BytesAgree(plan.sourceOffset, n, src, sf, fused, order, es, s0, k, u, b, e);
    BytesAgree(plan.destOffset, n, dst, sf, fused, order, es, d0, k, u, b, e);
  }

  // ----- the copy and its meaning

  /** A dataspace laid over a buffer: base is the position of the element at the dataspace's offset. */
  datatype View = View(space: Space, base: int, es: int) {
    predicate Valid() { space.Valid() && es > 0 }

    /** Byte b of the element at c. */
    function Byte(c: Point, b: int): int
      requires Valid() && |c| == |space.size|
    {
      base + space.ElementIndex(c) * es + b
    }

    /** Every element of the region lies inside a buffer of the given length. */
    ghost predicate Fits(region: Cube, limit: int)
      requires Valid() && |region| == |space.size|
    {
      forall c, b :: Contains(region, c) && 0 <= b < es ==> 0 <= Byte(c, b) < limit
    }
  }

  ghost predicate Compatible(source: View, dest: View) {
    && source.Valid() && dest.Valid() && |source.space.size| == |dest.space.size| && source.es == dest.es
    && Overlapping(source.space.Extents(), dest.space.Extents())
  }

  function Common(source: View, dest: View): Cube
    requires source.Valid() && dest.Valid() && |source.space.size| == |dest.space.size|
  {
    MeetCube(source.space.Extents(), dest.space.Extents())
  }

  /** Address a of the destination belongs to the element at c of the common region. */
  ghost predicate IsTarget(source: View, dest: View, a: int, c: Point, b: int)
    requires source.Valid() && dest.Valid() && |source.space.size| == |dest.space.size|
  {
    Contains(Common(source, dest), c) && 0 <= b < dest.es && a == dest.Byte(c, b)
  }

  /** The byte at address a belongs to common elements and holds the source's byte of one of them,
      or belongs to none and is unchanged. */
  ghost predicate CopiedByte<T>(source: View, src: seq<T>, dest: View, a: int, before: T, after: T)
    requires Compatible(source, dest) && source.Fits(Common(source, dest), |src|)
  {
    || (exists c, b :: IsTarget(source, dest, a, c, b) && after == src[source.Byte(c, b)])
    || ((forall c, b :: !IsTarget(source, dest, a, c, b)) && after == before)
  }

  ghost predicate Copied<T>(source: View, src: seq<T>, dest: View, before: seq<T>, after: seq<T>)
    requires Compatible(source, dest) && source.Fits(Common(source, dest), |src|)
  {
    |after| == |before| && forall a :: 0 <= a < |before| ==> CopiedByte(source, src, dest, a, before[a], after[a])
  }

  /** One side of the job of a plan. */
  ghost function Side(view: View, offset: int, order: seq<int>): Chunks
    requires view.Valid() && DimList(order, |view.space.size|)
  {
    Chunks(view.base + offset, Scaled(Gather(order, view.space.EffectiveStride()), view.es))
  }

  lemma SideByte(view: View, o: Cube, offset: int, order: seq<int>, k: seq<int>, t: int, e: seq<int>, b: int)
    requires view.Valid() && |o| == |view.space.size| && DimList(order, |o|) && |k| == |order| && InBox(e, Sizes(o))
    requires SameByte(offset, view.space.EffectiveStride(), order, view.es, view.space.ElementIndex(Corner(o)), k, t, e, b)
    ensures Contains(o, Plus(Corner(o), e)) && Side(view, offset, order).At(k) + t == view.Byte(Plus(Corner(o), e), b)
  {
    CoordinateOfIndex(view.space, o, e);
  }

  ghost predicate PlanFor(plan: Plan, source: View, dest: View, fused: seq<int>, order: seq<int>)
    requires Compatible(source, dest)
  {
    var o := Common(source, dest);
    Justified(plan, Sizes(o), source.space.EffectiveStride(), dest.space.EffectiveStride(),
              source.space.ElementIndex(Corner(o)), dest.space.ElementIndex(Corner(o)), source.es, fused, order)
  }

  /** Chunk bytes are element bytes ... */
  lemma ChunkToElement(plan: Plan, source: View, dest: View, fused: seq<int>, order: seq<int>, k: seq<int>, t: int) returns (c: Point, b: int)
    requires Compatible(source, dest) && PlanFor(plan, source, dest, fused, order)
    requires InBox(k, plan.size) && 0 <= t < plan.chunkBytes
    ensures Contains(Common(source, dest), c) && 0 <= b < source.es
    ensures Side(source, plan.sourceOffset, order).At(k) + t == source.Byte(c, b)
    ensures Side(dest, plan.destOffset, order).At(k) + t == dest.Byte(c, b)
  {
    var o := Common(source, dest);
    var e;
    e, b := ChunkByteIsElement(plan, Sizes(o), source.space.EffectiveStride(), dest.space.EffectiveStride(),
                               source.space.ElementIndex(Corner(o)), dest.space.ElementIndex(Corner(o)), source.es, fused, order, k, t);
    SideByte(source, o, plan.sourceOffset, order, k, t, e, b);
    SideByte(dest, o, plan.destOffset, order, k, t, e, b);
    c := Plus(Corner(o), e);
  }

  /** ... and element bytes are chunk bytes. */
  lemma ElementToChunk(plan: Plan, source: View, dest: View, fused: seq<int>, order: seq<int>, c: Point, b: int) returns (k: seq<int>, t: int)
    requires Compatible(source, dest) && PlanFor(plan, source, dest, fused, order)
    requires Contains(Common(source, dest), c) && 0 <= b < source.es
    ensures InBox(k, plan.size) && 0 <= t < plan.chunkBytes
    ensures Side(source, plan.sourceOffset, order).At(k) + t == source.Byte(c, b)
    ensures Side(dest, plan.destOffset, order).At(k) + t == dest.Byte(c, b)
  {
    var o := Common(source, dest);
    var e := Minus(c, Corner(o));
    IndexOfCoordinate(o, c);
    k, t := ElementIsChunkByte(plan, Sizes(o), source.space.EffectiveStride(), dest.space.EffectiveStride(),
                               source.space.ElementIndex(Corner(o)), dest.space.ElementIndex(Corner(o)), source.es, fused, order, e, b);
    SideByte(source, o, plan.sourceOffset, order, k, t, e, b);
    SideByte(dest, o, plan.destOffset, order, k, t, e, b);
  }

  ghost function JobFor<T>(plan: Plan, source: View, src: seq<T>, dest: View, before: seq<T>, order: seq<int>): Job<T>
    requires Compatible(source, dest) && DimList(order, |source.space.size|)
  {
    Job(before, Side(dest, plan.destOffset, order), src, Side(source, plan.sourceOffset, order), plan.size, plan.chunkBytes)
  }

  lemma PlanIsPositive(plan: Plan, source: View, dest: View, fused: seq<int>, order: seq<int>)
    requires Compatible(source, dest) && PlanFor(plan, source, dest, fused, order)
    ensures AllPositive(plan.size) && plan.chunkBytes >= 1 && |plan.size| == |order|
  {
    var n := Sizes(Common(source, dest));
    forall m | 0 <= m < |order| ensures plan.size[m] > 0 { assert n[order[m]] > 0; }
    var nf := Gather(fused, n);
    forall m | 0 <= m < |nf| ensures nf[m] > 0 { assert n[fused[m]] > 0; }
    ProdPositive(nf);
    MulAtLeast(Prod(nf), source.es);
  }

  lemma JobIsValid<T>(plan: Plan, source: View, src: seq<T>, dest: View, before: seq<T>, fused: seq<int>, order: seq<int>)
    requires Compatible(source, dest) && PlanFor(plan, source, dest, fused, order)
    requires source.Fits(Common(source, dest), |src|) && dest.Fits(Common(source, dest), |before|)
    ensures JobFor(plan, source, src, dest, before, order).Valid()
  {
    PlanIsPositive(plan, source, dest, fused, order);
    var to, from := Side(dest, plan.destOffset, order), Side(source, plan.sourceOffset, order);
    forall k | InBox(k, plan.size)
      ensures 0 <= to.base + Dot(k, to.stride) && to.base + Dot(k, to.stride) + plan.chunkBytes <= |before|
      ensures 0 <= from.base + Dot(k, from.stride) && from.base + Dot(k, from.stride) + plan.chunkBytes <= |src|
    {
      var c, b := ChunkToElement(plan, source, dest, fused, order, k, 0);
      var c', b' := ChunkToElement(plan, source, dest, fused, order, k, plan.chunkBytes - 1);
      assert to.At(k) == dest.Byte(c, b) && from.At(k) == source.Byte(c, b);
      assert 0 <= dest.Byte(c, b) && 0 <= source.Byte(c, b);
      assert dest.Byte(c', b') < |before| && source.Byte(c', b') < |src|;
    }
  }

  lemma JobCopiesByte<T>(plan: Plan, source: View, src: seq<T>, dest: View, before: seq<T>, fused: seq<int>, order: seq<int>, a: nat)
    requires Compatible(source, dest) && PlanFor(plan, source, dest, fused, order)
    requires source.Fits(Common(source, dest), |src|) && a < |before|
    requires JobFor(plan, source, src, dest, before, order).Valid()
    ensures CopiedByte(source, src, dest, a, before[a], JobFor(plan, source, src, dest, before, order).Result()[a])
  {
    var job := JobFor(plan, source, src, dest, before, order);
    var hit, k := job.ByteOfResult(a);
    if hit {
      ByteIsCopied(plan, source, dest, job, job.Result()[a], fused, order, a, k);
    } else {
      ByteIsKept(plan, source, dest, job, fused, order, a);
    }
  }

  /** The chunks of the job are where the plan says. */
  ghost predicate Follows<T>(job: Job<T>, plan: Plan, source: View, dest: View, order: seq<int>)
    requires source.Valid() && dest.Valid() && DimList(order, |source.space.size|) && DimList(order, |dest.space.size|)
  {
    && job.to == Side(dest, plan.destOffset, order) && job.from == Side(source, plan.sourceOffset, order)
    && job.size == plan.size && job.len == plan.chunkBytes && |plan.size| == |order|
  }

  lemma ByteIsCopied<T>(plan: Plan, source: View, dest: View, job: Job<T>, after: T, fused: seq<int>, order: seq<int>, a: nat, k: seq<int>)
    requires Compatible(source, dest) && PlanFor(plan, source, dest, fused, order) && Follows(job, plan, source, dest, order)
    requires source.Fits(Common(source, dest), |job.src|) && a < |job.dest| && job.Brings(k, a, after)
    ensures CopiedByte(source, job.src, dest, a, job.dest[a], after)
  {
    var c, b := ChunkToElement(plan, source, dest, fused, order, k, a - job.to.At(k));
    assert IsTarget(source, dest, a, c, b);
  }

  lemma ByteIsKept<T>(plan: Plan, source: View, dest: View, job: Job<T>, fused: seq<int>, order: seq<int>, a: nat)
    requires Compatible(source, dest) && PlanFor(plan, source, dest, fused, order) && Follows(job, plan, source, dest, order)
    requires source.Fits(Common(source, dest), |job.src|) && a < |job.dest| && forall l :: InBox(l, plan.size) ==> !job.Reaches(l, a)
    ensures CopiedByte(source, job.src, dest, a, job.dest[a], job.dest[a])
  {
    forall c, b ensures !IsTarget(source, dest, a, c, b) {
      if IsTarget(source, dest, a, c, b) { TargetIsReached(plan, source, dest, job, fused, order, a, c, b); }
    }
  }

  lemma TargetIsReached<T>(plan: Plan, source: View, dest: View, job: Job<T>, fused: seq<int>, order: seq<int>, a: nat, c: Point, b: int)
    requires Compatible(source, dest) && PlanFor(plan, source, dest, fused, order) && Follows(job, plan, source, dest, order)
    requires IsTarget(source, dest, a, c, b)
    ensures exists l :: InBox(l, plan.size) && job.Reaches(l, a)
  {
    var l, t := ElementToChunk(plan, source, dest, fused, order, c, b);
    assert job.Reaches(l, a);
  }

  lemma JobCopies<T>(plan: Plan, source: View, src: seq<T>, dest: View, before: seq<T>, fused: seq<int>, order: seq<int>)
    requires Compatible(source, dest) && PlanFor(plan, source, dest, fused, order)
    requires source.Fits(Common(source, dest), |src|)
    requires JobFor(plan, source, src, dest, before, order).Valid()
    ensures Copied(source, src, dest, before, JobFor(plan, source, src, dest, before, order).Result())
  {
    var after := JobFor(plan, source, src, dest, before, order).Result();
    forall a | 0 <= a < |before| ensures CopiedByte(source, src, dest, a, before[a], after[a]) {
      JobCopiesByte(plan, source, src, dest, before, fused, order, a);
    }
  }

  method CopyDataspace<T>(source: View, src: array<T>, dest: View, dst: array<T>)
    requires Compatible(source, dest) && src != dst
    requires source.Fits(Common(source, dest), src.Length) && dest.Fits(Common(source, dest), dst.Length)
    modifies dst
    ensures Copied(source, src[..], dest, old(dst[..]), dst[..])
  {
    var plan;
    ghost var fused, order;
    plan, fused, order := CopyInstructions(source.space, dest.space, source.es);
    JobIsValid(plan, source, src[..], dest, dst[..], fused, order);
    JobCopies(plan, source, src[..], dest, dst[..], fused, order);
    Execute(plan, src, source.base, dst, dest.base, JobFor(plan, source, src[..], dest, dst[..], order));
  }
}
