/** Planning a strided copy: fuse dimensions into one contiguous chunk, order the others, make strides relative. */
module CopyPlan {
  import opened MixedRadix
  import opened Geometry
  import opened Dataspaces

  function Abs(x: int): int { if x > 0 then x else -x }

  function Min(a: int, b: int): int { if a < b then a else b }

  // ----- picking some dimensions out of a vector

  ghost predicate DimList(dims: seq<int>, n: nat) {
    && (forall m :: 0 <= m < |dims| ==> 0 <= dims[m] < n)
    && (forall m, l :: 0 <= m < l < |dims| ==> dims[m] != dims[l])
  }

  ghost function Gather(dims: seq<int>, v: seq<int>): (r: seq<int>)
    requires forall m :: 0 <= m < |dims| ==> 0 <= dims[m] < |v|
    ensures |r| == |dims| && forall m :: 0 <= m < |dims| ==> r[m] == v[dims[m]]
  {
    seq(|dims|, m requires 0 <= m < |dims| => v[dims[m]])
  }

  ghost function Scatter(dims: seq<int>, x: seq<int>, v: seq<int>): (r: seq<int>)
    requires DimList(dims, |v|) && |x| == |dims|
    ensures |r| == |v|
    ensures forall m :: 0 <= m < |dims| ==> r[dims[m]] == x[m]
    ensures forall i :: 0 <= i < |v| && i !in dims ==> r[i] == v[i]
  {
    seq(|v|, i requires 0 <= i < |v| => if i in dims then (var m :| 0 <= m < |dims| && dims[m] == i; x[m]) else v[i])
  }

  /** The part of Dot(k, st) that belongs to the marked dimensions. */
  ghost function MaskedDot(mask: seq<bool>, k: seq<int>, st: seq<int>): int
    requires |mask| == |k| == |st|
  {
    if k == [] then 0
    else
      var l := |k| - 1;
      MaskedDot(mask[..l], k[..l], st[..l]) + if mask[l] then k[l] * st[l] else 0
  }

  lemma {:induction false} MarkOne(mask: seq<bool>, k: seq<int>, st: seq<int>, d: nat)
    requires |mask| == |k| == |st| && d < |k| && !mask[d]
    ensures MaskedDot(mask[d := true], k, st) == MaskedDot(mask, k, st) + k[d] * st[d]
  {
    var l := |k| - 1;
    if d == l {
      assert mask[d := true][..l] == mask[..l];
    } else {
      assert mask[d := true][..l] == mask[..l][d := true];
      MarkOne(mask[..l], k[..l], st[..l], d);
    }
  }

  lemma {:induction false} MarkNone(mask: seq<bool>, k: seq<int>, st: seq<int>)
    requires |mask| == |k| == |st| && forall i :: 0 <= i < |mask| ==> !mask[i]
    ensures MaskedDot(mask, k, st) == 0
  {
    if k != [] { MarkNone(mask[..|k| - 1], k[..|k| - 1], st[..|k| - 1]); }
  }

  lemma {:induction false} MarkAll(mask: seq<bool>, k: seq<int>, st: seq<int>)
    requires |mask| == |k| == |st| && forall i :: 0 <= i < |mask| ==> mask[i]
    ensures MaskedDot(mask, k, st) == Dot(k, st)
  {
    if k != [] { MarkAll(mask[..|k| - 1], k[..|k| - 1], st[..|k| - 1]); }
  }

  /** mask marks exactly the dimensions in dims, and the masked sums are the sums over dims. */
  ghost predicate Marks(mask: seq<bool>, dims: seq<int>) {
    && DimList(dims, |mask|)
    && (forall i :: 0 <= i < |mask| ==> (mask[i] <==> i in dims))
    && (forall k: seq<int>, st: seq<int> {:trigger MaskedDot(mask, k, st)} :: |k| == |st| == |mask| ==> MaskedDot(mask, k, st) == Dot(Gather(dims, k), Gather(dims, st)))
  }

  lemma MarksNone(mask: seq<bool>)
    requires forall i :: 0 <= i < |mask| ==> !mask[i]
    ensures Marks(mask, [])
  {
    forall k: seq<int>, st: seq<int> | |k| == |st| == |mask|
      ensures MaskedDot(mask, k, st) == Dot(Gather([], k), Gather([], st))
    {
      MarkNone(mask, k, st);
    }
  }

  lemma MarksPush(mask: seq<bool>, dims: seq<int>, d: nat)
    requires Marks(mask, dims) && d < |mask| && !mask[d]
    ensures Marks(mask[d := true], dims + [d])
  {
    forall k: seq<int>, st: seq<int> | |k| == |st| == |mask|
      ensures MaskedDot(mask[d := true], k, st) == Dot(Gather(dims + [d], k), Gather(dims + [d], st))
    {
      MarkOne(mask, k, st, d);
      assert Gather(dims + [d], k)[..|dims|] == Gather(dims, k);
      assert Gather(dims + [d], st)[..|dims|] == Gather(dims, st);
    }
    forall i | 0 <= i < |mask| ensures mask[d := true][i] <==> i in dims + [d] {}
  }

  lemma SplitDimList(fused: seq<int>, order: seq<int>, n: nat)
    requires DimList(fused + order, n)
    ensures DimList(fused, n) && DimList(order, n)
  {
    var all := fused + order;
    forall m | 0 <= m < |fused| ensures 0 <= fused[m] < n { assert all[m] == fused[m]; }
    forall m | 0 <= m < |order| ensures 0 <= order[m] < n { assert all[|fused| + m] == order[m]; }
    forall m, l | 0 <= m < l < |fused| ensures fused[m] != fused[l] { assert all[m] == fused[m] && all[l] == fused[l]; }
    forall m, l | 0 <= m < l < |order| ensures order[m] != order[l] {
      assert all[|fused| + m] == order[m] && all[|fused| + l] == order[l];
    }
  }

  function AllTrue(n: nat): (r: seq<bool>)
    ensures |r| == n && forall i :: 0 <= i < n ==> r[i]
  {
    seq(n, _ => true)
  }

  lemma MarksEverything(mask: seq<bool>, fused: seq<int>, order: seq<int>, k: seq<int>, st: seq<int>)
    requires Marks(mask, fused + order) && |k| == |st| == |mask| && forall i :: 0 <= i < |mask| ==> mask[i]
    requires DimList(fused, |mask|) && DimList(order, |mask|)
    ensures Dot(k, st) == Dot(Gather(fused, k), Gather(fused, st)) + Dot(Gather(order, k), Gather(order, st))
  {
    MarkAll(mask, k, st);
    assert MaskedDot(mask, k, st) == Dot(Gather(fused + order, k), Gather(fused + order, st));
    GatherConcat(fused, order, k, st);
  }

  lemma GatherConcat(fused: seq<int>, order: seq<int>, k: seq<int>, st: seq<int>)
    requires |k| == |st| && DimList(fused, |k|) && DimList(order, |k|) && DimList(fused + order, |k|)
    ensures Dot(Gather(fused + order, k), Gather(fused + order, st)) == Dot(Gather(fused, k), Gather(fused, st)) + Dot(Gather(order, k), Gather(order, st))
  {
    assert Gather(fused + order, k) == Gather(fused, k) + Gather(order, k);
    assert Gather(fused + order, st) == Gather(fused, st) + Gather(order, st);
    DotConcat(Gather(fused, k), Gather(order, k), Gather(fused, st), Gather(order, st));
  }

  // ----- the fused chunk

  /** Strides that step through a contiguous block, some dimensions possibly backwards. */
  ghost predicate Fusible(size: seq<int>, st: seq<int>) {
    && |st| == |size|
    && forall m :: 0 <= m < |size| ==> Abs(st[m]) == Prod(size[..m])
  }

  /** How far the block reaches below the element at the origin. */
  ghost function Below(size: seq<int>, st: seq<int>): int
    requires |st| == |size|
  {
    if size == [] then 0
    else
      var l := |size| - 1;
      Below(size[..l], st[..l]) + if st[l] < 0 then Prod(size[..l]) * (size[l] - 1) else 0
  }

  lemma {:induction false} ProdSnoc(a: seq<int>, x: int)
    ensures Prod(a + [x]) == Prod(a) * x
  {
    ProdConcat(a, [x]);
    assert [x][1..] == [];
  }

  lemma ProdLast(a: seq<int>)
    requires a != []
    ensures Prod(a) == Prod(a[..|a| - 1]) * a[|a| - 1]
  {
    ProdSnoc(a[..|a| - 1], a[|a| - 1]);
    assert a == a[..|a| - 1] + [a[|a| - 1]];
  }

  lemma FusiblePrefix(size: seq<int>, st: seq<int>)
    requires Fusible(size, st) && size != []
    ensures Fusible(size[..|size| - 1], st[..|size| - 1])
  {
    var l := |size| - 1;
    var size', st' := size[..l], st[..l];
    forall m | 0 <= m < l ensures Abs(st'[m]) == Prod(size'[..m]) {
      assert size'[..m] == size[..m];
    }
  }

  /** The share of one fused dimension, shifted so that it counts up from zero. */
  lemma FusedTerm(p: int, n: int, s: int, x: int)
    requires Abs(s) == p
    ensures x * s + (if s < 0 then p * (n - 1) else 0) == (if s < 0 then n - 1 - x else x) * p
  {
    if s < 0 {
      assert s == -p;
      assert x * s == -(x * p);
      assert (n - 1 - x) * p == p * (n - 1) - x * p;
    } else {
      assert s == p;
    }
  }

  lemma DigitBounds(a: int, p: int, x: int, n: int)
    requires 0 <= a < p && 0 <= x < n
    ensures 0 <= a + x * p < p * n
  {
    MulMonotone(0, x, p);
    MulMonotone(x + 1, n, p);
    assert (x + 1) * p == x * p + p;
  }

  /** Every element of the fused box lies inside the block. */
  lemma {:induction false} FusedInside(size: seq<int>, st: seq<int>, k: seq<int>)
    requires Fusible(size, st) && InBox(k, size)
    ensures 0 <= Dot(k, st) + Below(size, st) < Prod(size)
  {
    if size != [] {
      var l := |size| - 1;
      var p, x := Prod(size[..l]), if st[l] < 0 then size[l] - 1 - k[l] else k[l];
      FusiblePrefix(size, st);
      FusedInside(size[..l], st[..l], k[..l]);
      ProdLast(size);
      FusedTerm(p, size[l], st[l], k[l]);
      DigitBounds(Dot(k[..l], st[..l]) + Below(size[..l], st[..l]), p, x, size[l]);
    }
  }

  /** Every element of the block is an element of the fused box. */
  lemma {:induction false} FusedDigits(size: seq<int>, st: seq<int>, u: int) returns (k: seq<int>)
    requires Fusible(size, st) && AllPositive(size) && 0 <= u < Prod(size)
    ensures InBox(k, size) && Dot(k, st) + Below(size, st) == u
    decreases size
  {
    if size == [] {
      k := [];
    } else {
      var l := |size| - 1;
      FusiblePrefix(size, st);
      ProdLast(size);
      ProdPositive(size[..l]);
      var p := Prod(size[..l]);
      var q, r := Divide(u, p, size[l]);
      var k' := FusedDigits(size[..l], st[..l], r);
      var x := if st[l] < 0 then size[l] - 1 - q else q;
      k := k' + [x];
      FusedSnoc(size, st, k', x, q, p);
    }
  }

  lemma FusedSnoc(size: seq<int>, st: seq<int>, k: seq<int>, x: int, q: int, p: int)
    requires |st| == |size| && size != [] && |k| == |size| - 1 && p == Prod(size[..|size| - 1]) && Abs(st[|size| - 1]) == p
    requires x == if st[|size| - 1] < 0 then size[|size| - 1] - 1 - q else q
    ensures var l := |size| - 1; Dot(k + [x], st) + Below(size, st) == Dot(k, st[..l]) + Below(size[..l], st[..l]) + q * p
  {
    var l := |size| - 1;
    DotSnoc(k, x, st);
    BelowLast(size, st);
    FusedSum(Dot(k + [x], st), Dot(k, st[..l]), Below(size, st), Below(size[..l], st[..l]), x, st[l], size[l], p, q);
  }

  lemma BelowLast(size: seq<int>, st: seq<int>)
    requires |st| == |size| && size != []
    ensures var l := |size| - 1; Below(size, st) == Below(size[..l], st[..l]) + BelowTerm(st[l], Prod(size[..l]), size[l])
  {}

  ghost function BelowTerm(s: int, p: int, n: int): int { if s < 0 then p * (n - 1) else 0 }

  lemma FusedSum(d: int, d0: int, b: int, b0: int, x: int, s: int, n: int, p: int, q: int)
    requires d == d0 + x * s && b == b0 + BelowTerm(s, p, n) && Abs(s) == p
    requires x == if s < 0 then n - 1 - q else q
    ensures d + b == d0 + b0 + q * p
  {
    FusedTerm(p, n, s, x);
  }

  lemma DotSnoc(k: seq<int>, x: int, st: seq<int>)
    requires |st| == |k| + 1
    ensures Dot(k + [x], st) == Dot(k, st[..|k|]) + x * st[|k|]
  {
    assert (k + [x])[..|k|] == k;
  }

  lemma Divide(u: int, p: int, n: int) returns (q: int, r: int)
    requires p >= 1 && 0 <= u < p * n
    ensures u == q * p + r && 0 <= q < n && 0 <= r < p
  {
    q, r := u / p, u % p;
    if q >= n { MulMonotone(n, q, p); }
    if q < 0 { MulMonotone(q, -1, p); }
  }

  lemma BelowSnoc(size: seq<int>, st: seq<int>, n: int, s: int)
    requires |size| == |st|
    ensures Below(size + [n], st + [s]) == Below(size, st) + if s < 0 then Prod(size) * (n - 1) else 0
  {
    assert (size + [n])[..|size|] == size && (st + [s])[..|size|] == st;
  }

  lemma FusibleSnoc(size: seq<int>, st: seq<int>, n: int, s: int)
    requires Fusible(size, st) && Abs(s) == Prod(size)
    ensures Fusible(size + [n], st + [s])
  {
    forall m | 0 <= m <= |size| ensures Abs((st + [s])[m]) == Prod((size + [n])[..m]) {
      assert (size + [n])[..m] == size[..m];
      if m == |size| { assert size[..m] == size; }
    }
  }

  // ----- the plan

  /** What the executor needs: all numbers but size count bytes. */
  datatype Plan = Plan(chunkBytes: int, sourceOffset: int, destOffset: int, size: seq<int>, relSource: seq<int>, relDest: seq<int>)

  ghost function Scaled(v: seq<int>, f: int): (r: seq<int>)
    ensures |r| == |v| && forall i :: 0 <= i < |v| ==> r[i] == v[i] * f
  {
    seq(|v|, i requires 0 <= i < |v| => v[i] * f)
  }

  /** The step from (.., i, n, ..) to (.., i + 1, 0, ..): the stride of dimension m, less the run through the next one. */
  ghost function RelativeStride(size: seq<int>, st: seq<int>, m: nat): int
    requires m < |size| == |st|
  {
    if m + 1 < |size| then st[m] - size[m + 1] * st[m + 1] else st[m]
  }

  ghost predicate IsRelative(rel: seq<int>, size: seq<int>, st: seq<int>) {
    && |rel| == |size| == |st|
    && forall m :: 0 <= m < |size| ==> rel[m] == RelativeStride(size, st, m)
  }

  /** Why a plan is right: every dimension is either fused into the chunk or iterated, once. */
  ghost predicate Justified(plan: Plan, n: seq<int>, src: seq<int>, dst: seq<int>, s0: int, d0: int, es: int, fused: seq<int>, order: seq<int>)
  {
    && |src| == |dst| == |n| && AllPositive(n)
    && DimList(fused, |n|) && DimList(order, |n|)
    && Marks(AllTrue(|n|), fused + order)
    && Gather(fused, src) == Gather(fused, dst)
    && Fusible(Gather(fused, n), Gather(fused, src))
    && plan.chunkBytes == Prod(Gather(fused, n)) * es
    && plan.sourceOffset == (s0 - Below(Gather(fused, n), Gather(fused, src))) * es
    && plan.destOffset == (d0 - Below(Gather(fused, n), Gather(fused, src))) * es
    && plan.size == Gather(order, n)
    && IsRelative(plan.relSource, plan.size, Scaled(Gather(order, src), es))
    && IsRelative(plan.relDest, plan.size, Scaled(Gather(order, dst), es))
  }

  /** The last dimension that can extend the chunk, if any. */
  method FindFusible(mask: seq<bool>, src: seq<int>, dst: seq<int>, chunkSize: int) returns (dim: int)
    requires |mask| == |src| == |dst|
    ensures -1 <= dim < |mask|
    ensures dim >= 0 ==> !mask[dim] && src[dim] == dst[dim] && Abs(src[dim]) == chunkSize
    ensures forall i :: dim < i < |mask| ==> mask[i] || src[i] != dst[i] || Abs(src[i]) != chunkSize
  {
    dim := |mask| - 1;
    while dim >= 0
      invariant -1 <= dim < |mask|
      invariant forall i :: dim < i < |mask| ==> mask[i] || src[i] != dst[i] || Abs(src[i]) != chunkSize
    {
      if !mask[dim] && src[dim] == dst[dim] && Abs(src[dim]) == chunkSize { return; }
      dim := dim - 1;
    }
  }

  ghost function Unmarked(mask: seq<bool>): nat {
    if mask == [] then 0 else Unmarked(mask[1..]) + if mask[0] then 0 else 1
  }

  lemma {:induction false} MarkingShrinks(mask: seq<bool>, d: nat)
    requires d < |mask| && !mask[d]
    ensures Unmarked(mask[d := true]) < Unmarked(mask)
  {
    if d == 0 {
      assert mask[d := true][1..] == mask[1..];
    } else {
      assert mask[d := true][1..] == mask[1..][d - 1 := true];
      MarkingShrinks(mask[1..], d - 1);
    }
  }

  /** The facts about the dimensions fused so far. */
  ghost predicate Fusing(mask: seq<bool>, fused: seq<int>, n: seq<int>, src: seq<int>, dst: seq<int>, chunkSize: int, pointerOffset: int) {
    && |mask| == |n| == |src| == |dst|
    && Marks(mask, fused)
    && Gather(fused, src) == Gather(fused, dst)
    && Fusible(Gather(fused, n), Gather(fused, src))
    && chunkSize == Prod(Gather(fused, n))
    && pointerOffset == Below(Gather(fused, n), Gather(fused, src))
  }

  lemma FusingStep(mask: seq<bool>, fused: seq<int>, n: seq<int>, src: seq<int>, dst: seq<int>, chunkSize: int, pointerOffset: int, d: nat)
    requires Fusing(mask, fused, n, src, dst, chunkSize, pointerOffset)
    requires d < |n| && !mask[d] && src[d] == dst[d] && Abs(src[d]) == chunkSize
    ensures Fusing(mask[d := true], fused + [d], n, src, dst, chunkSize * n[d],
                   pointerOffset + if src[d] < 0 then chunkSize * (n[d] - 1) else 0)
  {
    MarksPush(mask, fused, d);
    GatherSnoc(fused, d, n);
    GatherSnoc(fused, d, src);
    GatherSnoc(fused, d, dst);
    FusedSnocs(Gather(fused, n), Gather(fused, src), n[d], src[d]);
  }

  lemma GatherSnoc(dims: seq<int>, d: nat, v: seq<int>)
    requires (forall m :: 0 <= m < |dims| ==> 0 <= dims[m] < |v|) && d < |v|
    ensures Gather(dims + [d], v) == Gather(dims, v) + [v[d]]
  {}

  lemma FusedSnocs(nf: seq<int>, sf: seq<int>, n: int, s: int)
    requires |nf| == |sf| && Fusible(nf, sf) && Abs(s) == Prod(nf)
    ensures Prod(nf + [n]) == Prod(nf) * n && Fusible(nf + [n], sf + [s])
    ensures Below(nf + [n], sf + [s]) == Below(nf, sf) + if s < 0 then Prod(nf) * (n - 1) else 0
  {
    ProdSnoc(nf, n);
    FusibleSnoc(nf, sf, n, s);
    BelowSnoc(nf, sf, n, s);
  }

  // ----- which dimensions the chunk takes in

  /** Dimension d extends the chunk that the given dimensions form. */
  ghost predicate Extends(fused: seq<int>, n: seq<int>, src: seq<int>, dst: seq<int>, d: int)
    requires |n| == |src| == |dst| && forall m :: 0 <= m < |fused| ==> 0 <= fused[m] < |n|
  {
    0 <= d < |n| && d !in fused && src[d] == dst[d] && Abs(src[d]) == Prod(Gather(fused, n))
  }

  /** The last dimension that does. */
  ghost predicate ExtendsLast(fused: seq<int>, n: seq<int>, src: seq<int>, dst: seq<int>, d: int)
    requires |n| == |src| == |dst| && forall m :: 0 <= m < |fused| ==> 0 <= fused[m] < |n|
  {
    Extends(fused, n, src, dst, d) && forall i :: d < i < |n| ==> !Extends(fused, n, src, dst, i)
  }

  /** The common part takes in all of dimension d of both spaces. */
  ghost predicate Whole(n: seq<int>, sourceSize: seq<int>, destSize: seq<int>, d: int) {
    0 <= d < |n| == |sourceSize| == |destSize| && n[d] == sourceSize[d] == destSize[d]
  }

  /** Each dimension is the last one that extends the chunk of those before it, which are all whole. */
  ghost predicate Greedy(fused: seq<int>, n: seq<int>, src: seq<int>, dst: seq<int>, sourceSize: seq<int>, destSize: seq<int>) {
    && |n| == |src| == |dst| == |sourceSize| == |destSize|
    && DimList(fused, |n|)
    && (forall m :: 0 <= m < |fused| ==> ExtendsLast(fused[..m], n, src, dst, fused[m]))
    && (forall m :: 0 <= m < |fused| - 1 ==> Whole(n, sourceSize, destSize, fused[m]))
  }

  /** No dimension is left that extends the chunk, or the last one of the chunk is not whole. */
  ghost predicate Exhausted(fused: seq<int>, n: seq<int>, src: seq<int>, dst: seq<int>, sourceSize: seq<int>, destSize: seq<int>) {
    && Greedy(fused, n, src, dst, sourceSize, destSize)
    && ((forall d :: 0 <= d < |n| ==> !Extends(fused, n, src, dst, d))
        || (fused != [] && !Whole(n, sourceSize, destSize, fused[|fused| - 1])))
  }

  lemma GreedyStep(fused: seq<int>, n: seq<int>, src: seq<int>, dst: seq<int>, sourceSize: seq<int>, destSize: seq<int>, d: int)
    requires Greedy(fused, n, src, dst, sourceSize, destSize) && ExtendsLast(fused, n, src, dst, d)
    requires fused != [] ==> Whole(n, sourceSize, destSize, fused[|fused| - 1])
    ensures Greedy(fused + [d], n, src, dst, sourceSize, destSize)
  {
    var f := fused + [d];
    forall m | 0 <= m < |f| ensures ExtendsLast(f[..m], n, src, dst, f[m]) {
      if m < |fused| { assert f[..m] == fused[..m]; } else { assert f[..m] == fused; }
    }
    forall m | 0 <= m < |f| - 1 ensures Whole(n, sourceSize, destSize, f[m]) { assert f[m] == fused[m]; }
  }

  /** The sizes and strides of the spaces decide which dimensions the chunk takes in, and in which order. */
  lemma FusedAreDetermined(f: seq<int>, g: seq<int>, n: seq<int>, src: seq<int>, dst: seq<int>, sourceSize: seq<int>, destSize: seq<int>)
    requires Exhausted(f, n, src, dst, sourceSize, destSize) && Exhausted(g, n, src, dst, sourceSize, destSize)
    ensures f == g
  {
    SamePrefix(f, g, n, src, dst, sourceSize, destSize, Min(|f|, |g|));
    assert f[..|f|] == f && g[..|g|] == g;
    if |f| < |g| { Unfinished(f, g, n, src, dst, sourceSize, destSize); }
    if |g| < |f| { Unfinished(g, f, n, src, dst, sourceSize, destSize); }
  }

  lemma {:induction false} SamePrefix(f: seq<int>, g: seq<int>, n: seq<int>, src: seq<int>, dst: seq<int>, sourceSize: seq<int>, destSize: seq<int>, k: nat)
    requires Greedy(f, n, src, dst, sourceSize, destSize) && Greedy(g, n, src, dst, sourceSize, destSize) && k <= |f| && k <= |g|
    ensures f[..k] == g[..k]
  {
    if k > 0 {
      SamePrefix(f, g, n, src, dst, sourceSize, destSize, k - 1);
      SameNext(f[..k - 1], n, src, dst, f[k - 1], g[k - 1]);
      assert f[..k] == f[..k - 1] + [f[k - 1]] && g[..k] == g[..k - 1] + [g[k - 1]];
    }
  }

  lemma SameNext(p: seq<int>, n: seq<int>, src: seq<int>, dst: seq<int>, d: int, e: int)
    requires |n| == |src| == |dst| && forall m :: 0 <= m < |p| ==> 0 <= p[m] < |n|
    requires ExtendsLast(p, n, src, dst, d) && ExtendsLast(p, n, src, dst, e)
    ensures d == e
  {}

  lemma Unfinished(f: seq<int>, g: seq<int>, n: seq<int>, src: seq<int>, dst: seq<int>, sourceSize: seq<int>, destSize: seq<int>)
    requires Greedy(g, n, src, dst, sourceSize, destSize) && f < g
    ensures !Exhausted(f, n, src, dst, sourceSize, destSize)
  {
    assert g[..|f|] == f && ExtendsLast(g[..|f|], n, src, dst, g[|f|]);
    if f != [] { assert Whole(n, sourceSize, destSize, g[|f| - 1]); }
  }

  /** Where the loop over the chunk's dimensions stands. */
  ghost predicate Fused(mask: seq<bool>, fused: seq<int>, n: seq<int>, src: seq<int>, dst: seq<int>, sourceSize: seq<int>, destSize: seq<int>, chunkSize: int, pointerOffset: int) {
    && Fusing(mask, fused, n, src, dst, chunkSize, pointerOffset)
    && Greedy(fused, n, src, dst, sourceSize, destSize)
  }

  lemma FusedNext(mask: seq<bool>, fused: seq<int>, n: seq<int>, src: seq<int>, dst: seq<int>, sourceSize: seq<int>, destSize: seq<int>, chunkSize: int, pointerOffset: int, d: nat)
    requires Fused(mask, fused, n, src, dst, sourceSize, destSize, chunkSize, pointerOffset)
    requires fused != [] ==> Whole(n, sourceSize, destSize, fused[|fused| - 1])
    requires d < |n| && !mask[d] && src[d] == dst[d] && Abs(src[d]) == chunkSize
    requires forall i :: d < i < |mask| ==> mask[i] || src[i] != dst[i] || Abs(src[i]) != chunkSize
    ensures Fused(mask[d := true], fused + [d], n, src, dst, sourceSize, destSize, chunkSize * n[d],
                  pointerOffset + if src[d] < 0 then chunkSize * (n[d] - 1) else 0)
    ensures Unmarked(mask[d := true]) < Unmarked(mask)
  {
    FoundExtends(mask, fused, n, src, dst, chunkSize, d);
    GreedyStep(fused, n, src, dst, sourceSize, destSize, d);
    FusingStep(mask, fused, n, src, dst, chunkSize, pointerOffset, d);
    MarkingShrinks(mask, d);
  }

  method FuseDimensions(n: seq<int>, src: seq<int>, dst: seq<int>, sourceSize: seq<int>, destSize: seq<int>)
    returns (mask: seq<bool>, chunkSize: int, pointerOffset: int, ghost fused: seq<int>)
    requires |n| == |src| == |dst| == |sourceSize| == |destSize|
    ensures Fusing(mask, fused, n, src, dst, chunkSize, pointerOffset)
    ensures Exhausted(fused, n, src, dst, sourceSize, destSize)
  {
    mask := seq(|n|, _ => false);
    chunkSize, pointerOffset, fused := 1, 0, [];
    MarksNone(mask);
    while true
      invariant Fused(mask, fused, n, src, dst, sourceSize, destSize, chunkSize, pointerOffset)
      invariant fused != [] ==> Whole(n, sourceSize, destSize, fused[|fused| - 1])
      decreases Unmarked(mask)
    {
      var dim := FindFusible(mask, src, dst, chunkSize);
      if dim < 0 { break; }
      FusedNext(mask, fused, n, src, dst, sourceSize, destSize, chunkSize, pointerOffset, dim);
      mask, fused := mask[dim := true], fused + [dim];
      if src[dim] < 0 { pointerOffset := pointerOffset + chunkSize * (n[dim] - 1); }
      chunkSize := chunkSize * n[dim];
      if n[dim] != sourceSize[dim] || n[dim] != destSize[dim] { break; }
    }
  }

  lemma FoundExtends(mask: seq<bool>, fused: seq<int>, n: seq<int>, src: seq<int>, dst: seq<int>, chunkSize: int, dim: int)
    requires |mask| == |n| == |src| == |dst| && DimList(fused, |n|) && forall i :: 0 <= i < |mask| ==> (mask[i] <==> i in fused)
    requires chunkSize == Prod(Gather(fused, n)) && -1 <= dim < |mask|
    requires dim >= 0 ==> !mask[dim] && src[dim] == dst[dim] && Abs(src[dim]) == chunkSize
    requires forall i :: dim < i < |mask| ==> mask[i] || src[i] != dst[i] || Abs(src[i]) != chunkSize
    ensures if dim >= 0 then ExtendsLast(fused, n, src, dst, dim) else forall d :: 0 <= d < |n| ==> !Extends(fused, n, src, dst, d)
  {}

  function Jump(src: seq<int>, dst: seq<int>, d: nat): int
    requires d < |src| == |dst|
  {
    Min(Abs(src[d]), Abs(dst[d]))
  }

  /** Dimensions with wider jumps come first, and among equals those with smaller numbers. */
  ghost predicate WiderFirst(src: seq<int>, dst: seq<int>, d: nat, e: nat)
    requires d < |src| == |dst| && e < |src|
  {
    Jump(src, dst, d) > Jump(src, dst, e) || (Jump(src, dst, d) == Jump(src, dst, e) && d <= e)
  }

  ghost predicate Ordered(order: seq<int>, src: seq<int>, dst: seq<int>) {
    && |src| == |dst| && (forall m :: 0 <= m < |order| ==> 0 <= order[m] < |src|)
    && forall m, l :: 0 <= m < l < |order| ==> WiderFirst(src, dst, order[m], order[l])
  }

  /** The first unselected dimension with the largest jump, or -1. */
  method FindWidest(selected: seq<bool>, src: seq<int>, dst: seq<int>) returns (best: int)
    requires |selected| == |src| == |dst|
    ensures -1 <= best < |selected|
    ensures best < 0 ==> forall i :: 0 <= i < |selected| ==> selected[i]
    ensures best >= 0 ==> !selected[best] && forall i :: 0 <= i < |selected| && !selected[i] ==> WiderFirst(src, dst, best, i)
  {
    best := -1;
    var jump := 0;
    for dim := 0 to |selected|
      invariant -1 <= best < dim
      invariant best < 0 ==> forall i :: 0 <= i < dim ==> selected[i]
      invariant best >= 0 ==> !selected[best] && jump == Jump(src, dst, best)
      invariant best >= 0 ==> forall i :: 0 <= i < dim && !selected[i] ==> WiderFirst(src, dst, best, i)
    {
      if !selected[dim] {
        var cur := Min(Abs(src[dim]), Abs(dst[dim]));
        if best < 0 || jump < cur { best, jump := dim, cur; }
      }
    }
  }

  /** Orders the dimensions outside the chunk by decreasing jump width. */
  method OrderDimensions(mask: seq<bool>, src: seq<int>, dst: seq<int>, ghost fused: seq<int>) returns (order: seq<int>, ghost selected: seq<bool>)
    requires |mask| == |src| == |dst| && Marks(mask, fused)
    ensures |selected| == |mask| && forall i :: 0 <= i < |mask| ==> selected[i]
    ensures Marks(selected, fused + order)
    ensures Ordered(order, src, dst)
  {
    var sel := mask;
    order := [];
    assert fused + order == fused;
    while true
      invariant |sel| == |mask| && Marks(sel, fused + order)
      invariant Ordered(order, src, dst)
      invariant forall m, i :: 0 <= m < |order| && 0 <= i < |sel| && !sel[i] ==> WiderFirst(src, dst, order[m], i)
      decreases Unmarked(sel)
    {
      var best := FindWidest(sel, src, dst);
      if best < 0 { break; }
      MarksPush(sel, fused + order, best);
      MarkingShrinks(sel, best);
      assert fused + (order + [best]) == fused + order + [best];
      sel, order := sel[best := true], order + [best];
    }
    selected := sel;
  }

  /** A dimension with strides 10 and 2 is iterated outside of one with strides 1 and 100: the smaller stride decides. */
  method SmallerStrideDecides() returns (order: seq<int>)
    ensures order == [1, 0]
  {
    var mask, src, dst := [false, false], [1, 10], [100, 2];
    MarksNone(mask);
    ghost var selected;
    order, selected := OrderDimensions(mask, src, dst, []);
    assert [] + order == order;
    assert 0 in order && 1 in order;
    BothOrdered(order, src, dst);
  }

  lemma BothOrdered(order: seq<int>, src: seq<int>, dst: seq<int>)
    requires src == [1, 10] && dst == [100, 2] && Ordered(order, src, dst) && DimList(order, 2) && 0 in order && 1 in order
    ensures order == [1, 0]
  {
    if |order| > 2 { ThreeDims(order); }
    assert WiderFirst(src, dst, order[0], order[1]);
  }

  lemma ThreeDims(dims: seq<int>)
    requires |dims| > 2
    ensures !DimList(dims, 2)
  {
    if 0 <= dims[0] < 2 && 0 <= dims[1] < 2 && 0 <= dims[2] < 2 { assert dims[0] == dims[1] || dims[0] == dims[2] || dims[1] == dims[2]; }
  }

  /** Sizes and relative byte strides of the iterated dimensions; each step makes the previous stride relative. */
  method MakeRelative(order: seq<int>, n: seq<int>, src: seq<int>, dst: seq<int>, es: int) returns (size: seq<int>, relSource: seq<int>, relDest: seq<int>)
    requires |n| == |src| == |dst| && forall m :: 0 <= m < |order| ==> 0 <= order[m] < |n|
    ensures size == Gather(order, n)
    ensures IsRelative(relSource, size, Scaled(Gather(order, src), es))
    ensures IsRelative(relDest, size, Scaled(Gather(order, dst), es))
  {
    size, relSource, relDest := [], [], [];
    ghost var sa, da := Scaled(Gather(order, src), es), Scaled(Gather(order, dst), es);
    for m := 0 to |order|
      invariant |size| == |relSource| == |relDest| == m
      invariant forall l :: 0 <= l < m ==> size[l] == n[order[l]]
      invariant forall l :: 0 <= l < m ==> relSource[l] == sa[l] - if l + 1 < m then size[l + 1] * sa[l + 1] else 0
      invariant forall l :: 0 <= l < m ==> relDest[l] == da[l] - if l + 1 < m then size[l + 1] * da[l + 1] else 0
    {
      var d := order[m];
      size, relSource, relDest := size + [n[d]], relSource + [src[d] * es], relDest + [dst[d] * es];
      if m > 0 {
        relSource := relSource[m - 1 := relSource[m - 1] - size[m] * relSource[m]];
        relDest := relDest[m - 1 := relDest[m - 1] - size[m] * relDest[m]];
      }
    }
    assert size == Gather(order, n);
  }

  method PlanCopy(n: seq<int>, src: seq<int>, dst: seq<int>, sourceSize: seq<int>, destSize: seq<int>, s0: int, d0: int, es: int)
    returns (plan: Plan, ghost fused: seq<int>, ghost order: seq<int>)
    requires |n| == |src| == |dst| == |sourceSize| == |destSize| && AllPositive(n)
    ensures Justified(plan, n, src, dst, s0, d0, es, fused, order)
    ensures Exhausted(fused, n, src, dst, sourceSize, destSize) && Ordered(order, src, dst)
  {
    var mask, chunkSize, pointerOffset;
    mask, chunkSize, pointerOffset, fused := FuseDimensions(n, src, dst, sourceSize, destSize);
    var logicalDims;
    ghost var selected;
    logicalDims, selected := OrderDimensions(mask, src, dst, fused);
    order := logicalDims;
    var size, relSource, relDest := MakeRelative(logicalDims, n, src, dst, es);
    plan := Plan(chunkSize * es, (s0 - pointerOffset) * es, (d0 - pointerOffset) * es, size, relSource, relDest);
    assert selected == AllTrue(|n|);
    SplitDimList(fused, order, |n|);
  }

  /** The plan for the common part of two dataspaces. */
  method CopyInstructions(source: Space, dest: Space, es: int) returns (plan: Plan, ghost fused: seq<int>, ghost order: seq<int>)
    requires source.Valid() && dest.Valid() && |source.size| == |dest.size|
    requires Overlapping(source.Extents(), dest.Extents())
    ensures var o := MeetCube(source.Extents(), dest.Extents());
      Justified(plan, Sizes(o), source.EffectiveStride(), dest.EffectiveStride(),
                source.ElementIndex(Corner(o)), dest.ElementIndex(Corner(o)), es, fused, order)
      && Exhausted(fused, Sizes(o), source.EffectiveStride(), dest.EffectiveStride(), source.size, dest.size)
      && Ordered(order, source.EffectiveStride(), dest.EffectiveStride())
  {
    var overlap := MakeIntersection(source.Extents(), dest.Extents());
    var src, dst := source.EffectiveStride(), dest.EffectiveStride();
    var sourceIndex := StartIndex(Corner(overlap.value), source.offset, src);
    var destIndex := StartIndex(Corner(overlap.value), dest.offset, dst);
    plan, fused, order := PlanCopy(Sizes(overlap.value), src, dst, source.size, dest.size, sourceIndex, destIndex, es);
  }

  method StartIndex(point: Point, offset: seq<int>, stride: seq<int>) returns (index: int)
    requires |point| == |offset| == |stride|
    ensures index == Dot(Minus(point, offset), stride)
  {
    index := 0;
    ghost var k := Minus(point, offset);
    for i := 0 to |point|
      invariant index == Dot(k[..i], stride[..i])
    {
      assert k[..i + 1][..i] == k[..i] && stride[..i + 1][..i] == stride[..i];
      index := index + (point[i] - offset[i]) * stride[i];
    }
    assert k[..|point|] == k && stride[..|point|] == stride;
  }
}
