/** How a write stream divides its region into fragments, and fragments into chunks. */
module StreamCounts {
  import opened Options
  import opened MixedRadix
  import opened Geometry
  import opened CopyPlan
  import opened Splitting

  /** One object count per dimension; below dimension dim the objects are single slices, above it they are whole. */
  datatype Counts = Counts(dim: nat, maxWidth: int, counts: seq<int>) {
    ghost predicate Shape(size: seq<int>) {
      && |counts| == |size| && (size != [] ==> dim < |size|)
      && (forall d :: 0 <= d < |size| ==> 1 <= counts[d] <= size[d])
      && (forall d :: 0 <= d < |size| && d < dim ==> counts[d] == size[d])
      && (forall d :: dim < d < |size| ==> counts[d] == 1)
    }

    ghost predicate Bounded(size: seq<int>) {
      |counts| == |size| && maxWidth >= 1 && (size != [] ==> dim < |size| && size[dim] <= maxWidth * counts[dim])
    }
  }

  /** The slice size that the loop of initCounts() holds when it looks at dimension i. */
  ghost function LoopSlice(size: seq<int>, elementSize: int, i: nat): int
    requires i < |size|
  {
    elementSize * Prod(size[i..|size| - 1])
  }

  /** The bytes of one slice of dimension i. */
  ghost function TrueSlice(size: seq<int>, elementSize: int, i: nat): int
    requires i < |size|
  {
    elementSize * Prod(size[i + 1..])
  }

  /** The loop leaves dimension i undivided. */
  ghost predicate Passes(size: seq<int>, elementSize: int, maxBytes: int, i: nat)
    requires i < |size|
  {
    LoopSlice(size, elementSize, i) * size[i] <= maxBytes
  }

  /** All dimensions behind i are undivided, and dimension i has to be divided. */
  ghost predicate Divides(size: seq<int>, elementSize: int, maxBytes: int, i: nat)
    requires i < |size|
  {
    (forall j :: i < j < |size| ==> Passes(size, elementSize, maxBytes, j)) && !Passes(size, elementSize, maxBytes, i)
  }

  lemma SlicesFit(maxBytes: int, slice: int, n: int)
    requires slice >= 1
    ensures maxBytes / slice < n <==> maxBytes < slice * n
    ensures maxBytes / slice == 0 && maxBytes >= 0 <==> 0 <= maxBytes < slice
    ensures slice * (maxBytes / slice) <= maxBytes
  {
    DivAtMost(maxBytes, slice, n - 1);
    DivAtMost(maxBytes, slice, 0);
    DivAtMost(maxBytes, slice, -1);
  }

  lemma LoopSliceStep(size: seq<int>, elementSize: int, i: nat)
    requires i + 1 < |size|
    ensures LoopSlice(size, elementSize, i) == LoopSlice(size, elementSize, i + 1) * size[i]
  {
    var a := size[i..|size| - 1];
    assert a[1..] == size[i + 1..|size| - 1];
    assert elementSize * (size[i] * Prod(a[1..])) == elementSize * Prod(a[1..]) * size[i];
  }

  function CeilOf(n: int, d: int): int
    requires d >= 1
  {
    (n + d - 1) / d
  }

  /** The counts that the loop computes: all ones, or the divided dimension with the pieces that its width asks for. */
  ghost predicate CountsFor(c: Counts, size: seq<int>, elementSize: int, maxBytes: int) {
    && |c.counts| == |size| && c.maxWidth >= 1
    && (size != [] ==> c.dim < |size| && c.counts[c.dim] == CeilOf(size[c.dim], c.maxWidth))
    && (if forall i :: 0 <= i < |size| ==> Passes(size, elementSize, maxBytes, i) then
          c.dim == 0 && c.maxWidth == (if size == [] then 1 else size[0]) && forall d :: 0 <= d < |size| ==> c.counts[d] == 1
        else
          c.dim < |size| && Divides(size, elementSize, maxBytes, c.dim)
          && LoopSlice(size, elementSize, c.dim) >= 1 && c.maxWidth == maxBytes / LoopSlice(size, elementSize, c.dim))
  }

  /** The counts; None when the computation divides by zero. outside tells that the loop's last step reads the element
      before the first one of the sizes. */
  method InitCounts(elementSize: int, maxBytes: int, size: seq<int>) returns (r: Option<Counts>, outside: bool)
    requires elementSize >= 1 && maxBytes >= 0 && AllPositive(size)
    ensures r.None? <==> exists i :: 0 <= i < |size| && Divides(size, elementSize, maxBytes, i) && maxBytes < LoopSlice(size, elementSize, i)
    ensures r.Some? ==> r.value.Shape(size) && r.value.Bounded(size) && CountsFor(r.value, size, elementSize, maxBytes)
    ensures outside <==> size != [] && forall i :: 0 <= i < |size| ==> Passes(size, elementSize, maxBytes, i)
  {
    outside := false;
    var n := |size|;
    var counts, maxWidth := seq(n, _ => 1), if n > 0 then size[0] else 1;
    var i, sliceSize := n - 1, elementSize;
    if n > 0 { assert size[n - 1..n - 1] == []; }
    while i >= 0
      invariant -1 <= i < n && |counts| == n && (forall d :: 0 <= d < n ==> counts[d] == 1)
      invariant i >= 0 ==> sliceSize == LoopSlice(size, elementSize, i) && sliceSize >= 1
      invariant forall j :: i < j < n ==> Passes(size, elementSize, maxBytes, j)
      invariant outside <==> i < 0 && n > 0
    {
      SlicesFit(maxBytes, sliceSize, size[i]);
      var maxSlices := maxBytes / sliceSize;
      if maxSlices < size[i] {
        assert Divides(size, elementSize, maxBytes, i);
        if maxSlices == 0 { return None, false; }
        r := DivideAt(size, i, maxSlices, counts);
        return;
      }
      if i > 0 {
        LoopSliceStep(size, elementSize, i - 1);
        MulAtLeast(sliceSize, size[i - 1]);
        sliceSize := sliceSize * size[i - 1];
      } else {
        outside := true;
      }
      i := i - 1;
    }
    r := Some(Counts(0, maxWidth, counts));
    if n > 0 { DivModOf(1, maxWidth, maxWidth - 1); }
  }

  method DivideAt(size: seq<int>, dim: nat, maxSlices: int, ones: seq<int>) returns (r: Option<Counts>)
    requires AllPositive(size) && dim < |size| == |ones| && 1 <= maxSlices && forall d :: 0 <= d < |ones| ==> ones[d] == 1
    ensures r.Some? && r.value.dim == dim && r.value.maxWidth == maxSlices && r.value.Shape(size) && r.value.Bounded(size)
    ensures r.value.counts[dim] == CeilOf(size[dim], maxSlices)
  {
    CeilDiv(size[dim], maxSlices);
    var counts := ones[dim := (size[dim] + maxSlices - 1) / maxSlices];
    var i := dim;
    while i > 0
      invariant 0 <= i <= dim && |counts| == |size| && counts[dim] == (size[dim] + maxSlices - 1) / maxSlices
      invariant forall d :: i <= d < dim ==> counts[d] == size[d]
      invariant forall d :: dim < d < |size| ==> counts[d] == 1
    {
      i := i - 1;
      counts := counts[i := size[i]];
    }
    r := Some(Counts(dim, maxSlices, counts));
  }

  /** At most one dimension is the divided one. */
  lemma DividesOnce(size: seq<int>, elementSize: int, maxBytes: int, i: nat, j: nat)
    requires i < |size| && j < |size| && Divides(size, elementSize, maxBytes, i) && Divides(size, elementSize, maxBytes, j)
    ensures i == j
  {}

  lemma TrueSliceBound(size: seq<int>, elementSize: int, i: nat)
    requires AllPositive(size) && elementSize >= 1 && i < |size| && size[|size| - 1] <= size[i]
    ensures 1 <= TrueSlice(size, elementSize, i) <= LoopSlice(size, elementSize, i)
  {
    var n := |size| - 1;
    ProdPositive(size[i + 1..]);
    MulAtLeast(elementSize, Prod(size[i + 1..]));
    if i == n {
      assert size[n + 1..] == [] && size[n..n] == [];
    } else {
      var a, b := size[i + 1..n], size[i..n];
      assert size[i + 1..] == a + [size[n]] && b[1..] == a;
      ProdSnoc(a, size[n]);
      ProdPositive(a);
      MulMonotone(size[n], size[i], Prod(a));
      MulMonotone(Prod(a) * size[n], size[i] * Prod(a), elementSize);
    }
  }

  lemma CapAtDivision(size: seq<int>, elementSize: int, maxBytes: int, i: nat)
    requires AllPositive(size) && elementSize >= 1 && maxBytes >= 0 && i < |size| && size[|size| - 1] <= size[i]
    ensures LoopSlice(size, elementSize, i) >= 1
    ensures (maxBytes / LoopSlice(size, elementSize, i)) * TrueSlice(size, elementSize, i) <= maxBytes
  {
    TrueSliceBound(size, elementSize, i);
    var l := LoopSlice(size, elementSize, i);
    SlicesFit(maxBytes, l, 0);
    MulMonotone(TrueSlice(size, elementSize, i), l, maxBytes / l);
  }

  lemma CapUndivided(size: seq<int>, elementSize: int, maxBytes: int)
    requires AllPositive(size) && elementSize >= 1 && size != [] && size[|size| - 1] <= size[0]
    requires Passes(size, elementSize, maxBytes, 0)
    ensures elementSize * Prod(size) <= maxBytes
  {
    TrueSliceBound(size, elementSize, 0);
    CapProduct(elementSize, size[0], Prod(size[1..]), LoopSlice(size, elementSize, 0), maxBytes);
  }

  lemma CapProduct(e: int, n: int, p: int, slice: int, maxBytes: int)
    requires n >= 1 && e * p <= slice && slice * n <= maxBytes
    ensures e * (n * p) <= maxBytes
  {
    MulMonotone(e * p, slice, n);
    assert e * (n * p) == (e * p) * n;
  }

  // ----- objects by index

  ghost function SchemeOf(offset: seq<int>, size: seq<int>, counts: seq<int>): Scheme {
    Scheme(offset, size, Identity(|size|), Identity(|size|), counts)
  }

  lemma ShapeIsScheme(offset: seq<int>, size: seq<int>, c: Counts)
    requires |offset| == |size| && c.Shape(size)
    ensures SchemeOf(offset, size, c.counts).Valid() && AllPositive(c.counts) && Prod(c.counts) >= 1
  {
    ProdPositive(c.counts);
  }

  /** cumulative[d] is the number of objects in dimensions d and higher. */
  ghost predicate Cumulative(cumulative: seq<int>, counts: seq<int>) {
    |cumulative| == |counts| + 1 && forall d :: 0 <= d <= |counts| ==> cumulative[d] == Prod(counts[d..])
  }

  method Accumulate(counts: seq<int>) returns (cumulative: seq<int>)
    ensures Cumulative(cumulative, counts)
  {
    cumulative := seq(|counts| + 1, _ => 1);
    var i := |counts|;
    assert counts[i..] == [];
    while i > 0
      invariant 0 <= i <= |counts| && |cumulative| == |counts| + 1
      invariant forall d :: i <= d <= |counts| ==> cumulative[d] == Prod(counts[d..])
    {
      i := i - 1;
      assert counts[i..][1..] == counts[i + 1..];
      cumulative := cumulative[i := counts[i] * cumulative[i + 1]];
    }
  }

  /** The digit of r in one dimension, by division and remainder. */
  ghost function Digit(r: int, n: seq<int>, d: nat): int
    requires AllPositive(n) && d < |n|
  {
    ProdPositive(n[d + 1..]);
    r / Prod(n[d + 1..]) % n[d]
  }

  lemma DropMultiple(q: int, m: int, f: int, p: int, s: int)
    requires f >= 1 && p >= 1
    ensures (q * (m * (f * p)) + s) / p % f == s / p % f
  {
    var t := s / p;
    assert s == t * p + s % p;
    assert q * (m * (f * p)) + s == (q * m * f + t) * p + s % p;
    DivModOf(q * m * f + t, p, s % p);
    assert t == (t / f) * f + t % f;
    assert q * m * f + t == (q * m + t / f) * f + t % f;
    DivModOf(q * m + t / f, f, t % f);
  }

  lemma {:induction false} UnrankDigit(r: int, n: seq<int>, d: nat)
    requires AllPositive(n) && 0 <= r < Prod(n) && d < |n|
    ensures Unrank(r, n)[d] == Digit(r, n, d)
  {
    var p := Prod(n[1..]);
    ProdPositive(n[1..]);
    DivRange(r, p, n[0]);
    if d == 0 {
      DivModOf(0, n[0], r / p);
    } else {
      UnrankDigit(r % p, n[1..], d - 1);
      assert n[1..][d..] == n[d + 1..];
      assert Unrank(r, n)[d] == Unrank(r % p, n[1..])[d - 1];
      LowerDigit(r, n, d);
    }
  }

  /** The remainder has the same digits below the first. */
  lemma LowerDigit(r: int, n: seq<int>, d: nat)
    requires AllPositive(n) && 0 < d < |n|
    ensures Prod(n[1..]) >= 1 && Prod(n[d + 1..]) >= 1
    ensures (r % Prod(n[1..])) / Prod(n[d + 1..]) % n[d] == r / Prod(n[d + 1..]) % n[d]
  {
    ProdPositive(n[1..]);
    ProdPositive(n[d + 1..]);
    var a, b := n[1..d], n[d..];
    assert n[1..] == a + b && b[1..] == n[d + 1..];
    ProdConcat(a, b);
    DropRemainder(r, Prod(n[1..]), Prod(a), n[d], Prod(n[d + 1..]));
  }

  lemma DropRemainder(r: int, t: int, m: int, f: int, p: int)
    requires t >= 1 && t == m * (f * p) && f >= 1 && p >= 1
    ensures (r % t) / p % f == r / p % f
  {
    var q, s := r / t, r % t;
    assert r == q * t + s;
    DropMultiple(q, m, f, p, s);
  }

  /** The range of an object in one dimension. */
  method GetBounds(offset: seq<int>, size: seq<int>, dim: nat, cumulative: seq<int>, index: int, ghost counts: seq<int>) returns (r: Range)
    requires |offset| == |size| == |counts| && dim < |size| && Cumulative(cumulative, counts) && AllPositive(counts)
    ensures r == Piece(offset[dim], size[dim], counts[dim], Digit(index, counts, dim))
  {
    assert counts[dim..][1..] == counts[dim + 1..];
    ProdPositive(counts[dim + 1..]);
    DivModOf(counts[dim], Prod(counts[dim + 1..]), 0);
    var dimSize := cumulative[dim] / cumulative[dim + 1];
    var k := index / cumulative[dim + 1] % dimSize;
    r := Range(offset[dim] + k * size[dim] / dimSize, offset[dim] + (k + 1) * size[dim] / dimSize);
  }

  lemma DigitsAreBox(offset: seq<int>, size: seq<int>, counts: seq<int>, index: int, cube: Cube)
    requires |offset| == |size| && SchemeOf(offset, size, counts).Valid() && AllPositive(counts) && 0 <= index < Prod(counts) && |cube| == |size|
    requires forall d :: 0 <= d < |size| ==> cube[d] == Piece(offset[d], size[d], counts[d], Digit(index, counts, d))
    ensures cube == SchemeOf(offset, size, counts).BoxAt(Unrank(index, counts))
  {
    forall d | 0 <= d < |size| ensures cube[d] == SchemeOf(offset, size, counts).BoxAt(Unrank(index, counts))[d] {
      UnrankDigit(index, counts, d);
    }
  }

  // ----- fragments follow each other in C order

  /** The row-major number of the first element of object f. */
  ghost function StartOf(size: seq<int>, c: Counts, f: int): int
    requires c.Shape(size) && size != []
  {
    var n, m, p := c.counts[c.dim], size[c.dim], Prod(size[c.dim + 1..]);
    (f / n) * (m * p) + Cut(m, n, f % n) * p
  }

  ghost function WidthOf(size: seq<int>, c: Counts, f: int): int
    requires c.Shape(size) && size != []
  {
    Cut(size[c.dim], c.counts[c.dim], f % c.counts[c.dim] + 1) - Cut(size[c.dim], c.counts[c.dim], f % c.counts[c.dim])
  }

  lemma StartOfNext(size: seq<int>, c: Counts, f: int)
    requires c.Shape(size) && size != []
    ensures StartOf(size, c, f + 1) == StartOf(size, c, f) + WidthOf(size, c, f) * Prod(size[c.dim + 1..])
  {
    var n, m := c.counts[c.dim], size[c.dim];
    NextDigit(f, n);
    CutEnds(m, n);
    NextStart(f / n, (f + 1) / n, m, Prod(size[c.dim + 1..]), Cut(m, n, f % n), Cut(m, n, f % n + 1), Cut(m, n, (f + 1) % n));
  }

  lemma NextDigit(f: int, n: int)
    requires n >= 1
    ensures if f % n + 1 < n then (f + 1) / n == f / n && (f + 1) % n == f % n + 1
      else f % n + 1 == n && (f + 1) / n == f / n + 1 && (f + 1) % n == 0
  {
    var q, r := f / n, f % n;
    assert f == q * n + r;
    if r + 1 < n {
      DivModOf(q, n, r + 1);
    } else {
      Successor(q, n);
      DivModOf(q + 1, n, 0);
    }
  }

  /** q and r count whole dimensions and cuts; a cut at the end of the dimension starts the next one. */
  lemma NextStart(q: int, q': int, m: int, p: int, a: int, b: int, a': int)
    requires (q' == q && a' == b) || (q' == q + 1 && a' == 0 && b == m)
    ensures q' * (m * p) + a' * p == q * (m * p) + a * p + (b - a) * p
  {
    Telescope(a, b, p);
    Successor(q, m * p);
  }

  lemma Telescope(a: int, b: int, p: int)
    ensures a * p + (b - a) * p == b * p
  {}

  lemma Successor(q: int, x: int)
    ensures (q + 1) * x == q * x + x
  {}

  lemma StartOfFirst(size: seq<int>, c: Counts)
    requires c.Shape(size) && size != []
    ensures StartOf(size, c, 0) == 0
  {
    CutEnds(size[c.dim], c.counts[c.dim]);
    DivModOf(0, c.counts[c.dim], 0);
  }
}
