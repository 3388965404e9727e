/** The fragments of a write stream, taken in order, hold the elements of its region in C order. */
module StreamOrder {
  import opened MixedRadix
  import opened Geometry
  import opened Dataspaces
  import opened Splitting
  import opened ContiguousSplitting
  import opened StreamCounts

  ghost function Fragment(offset: seq<int>, size: seq<int>, c: Counts, f: nat): (r: Cube)
    requires |offset| == |size| && c.Shape(size)
    ensures |r| == |size|
  {
    ShapeIsScheme(offset, size, c);
    SchemeOf(offset, size, c.counts).BoxAt(Unrank(f, c.counts))
  }

  /** How many elements the fragments before f have. */
  ghost function Before(offset: seq<int>, size: seq<int>, c: Counts, f: nat): int
    requires |offset| == |size| && c.Shape(size)
  {
    if f == 0 then 0 else Before(offset, size, c, f - 1) + CubeSize(Fragment(offset, size, c, f - 1))
  }

  lemma SplitRank(k: seq<int>, n: seq<int>, d: nat)
    requires |k| == |n| && d < |k|
    ensures Rank(k, n) == Rank(k[..d], n[..d]) * (n[d] * Prod(n[d + 1..])) + k[d] * Prod(n[d + 1..]) + Rank(k[d + 1..], n[d + 1..])
  {
    assert k == k[..d] + k[d..] && n == n[..d] + n[d..];
    RankConcat(k[..d], k[d..], n[..d], n[d..]);
    assert k[d..][1..] == k[d + 1..] && n[d..][1..] == n[d + 1..];
  }

  lemma DigitsOf(k: seq<int>, size: seq<int>, c: Counts)
    requires c.Shape(size) && size != [] && InBox(k, c.counts)
    ensures forall d :: c.dim < d < |size| ==> k[d] == 0
    ensures Rank(k, c.counts) == Rank(k[..c.dim], size[..c.dim]) * c.counts[c.dim] + k[c.dim]
  {
    var d := c.dim;
    forall e | d < e < |size| ensures k[e] == 0 { assert 0 <= k[e] < c.counts[e]; }
    assert c.counts[..d] == size[..d];
    ProdOnes(c.counts[d + 1..]);
    assert k[d + 1..] == Zeros(|size| - d - 1);
    RankZeros(c.counts[d + 1..]);
    SplitRank(k, c.counts, d);
  }

  /** The digits of f: all slices below the divided dimension, the piece of that dimension, and zeros. */
  lemma FragmentDigits(size: seq<int>, c: Counts, f: nat)
    requires c.Shape(size) && size != [] && AllPositive(c.counts) && f < Prod(c.counts)
    ensures Rank(Unrank(f, c.counts)[..c.dim], size[..c.dim]) == f / c.counts[c.dim]
    ensures Unrank(f, c.counts)[c.dim] == f % c.counts[c.dim]
    ensures forall d :: c.dim < d < |size| ==> Unrank(f, c.counts)[d] == 0
  {
    var k := Unrank(f, c.counts);
    RankUnrank(f, c.counts);
    DigitsOf(k, size, c);
    assert 0 <= k[c.dim] < c.counts[c.dim];
    DivModOf(Rank(k[..c.dim], size[..c.dim]), c.counts[c.dim], k[c.dim]);
  }

  /** The ranges of fragment f. */
  lemma FragmentRanges(offset: seq<int>, size: seq<int>, c: Counts, f: nat, d: nat)
    requires |offset| == |size| && c.Shape(size) && AllPositive(c.counts) && f < Prod(c.counts) && d < |size|
    ensures var r, k := Fragment(offset, size, c, f)[d], Unrank(f, c.counts);
      if d < c.dim then r == Range(offset[d] + k[d], offset[d] + k[d] + 1)
      else if d == c.dim then r == Piece(offset[d], size[d], c.counts[d], f % c.counts[d])
      else r == Range(offset[d], offset[d] + size[d])
  {
    ShapeIsScheme(offset, size, c);
    FragmentDigits(size, c, f);
    assert SchemeOf(offset, size, c.counts).pos[d] == d;
    UnitPieces(size[d], Unrank(f, c.counts)[d]);
    CutEnds(size[d], 1);
  }

  lemma {:induction false} ProdAt(w: seq<int>, d: nat)
    requires d < |w| && forall e :: 0 <= e < d ==> w[e] == 1
    ensures Prod(w) == w[d] * Prod(w[d + 1..])
  {
    if d > 0 {
      ProdAt(w[1..], d - 1);
      assert w[1..][d..] == w[d + 1..];
    }
  }

  lemma FragmentWidth(offset: seq<int>, size: seq<int>, c: Counts, f: nat, e: nat)
    requires |offset| == |size| && c.Shape(size) && AllPositive(c.counts) && f < Prod(c.counts) && e < |size|
    ensures Fragment(offset, size, c, f)[e].Size() == if e < c.dim then 1 else if e == c.dim then WidthOf(size, c, f) else size[e]
  {
    FragmentRanges(offset, size, c, f, e);
    if e == c.dim { PieceSize(size[e], c.counts[e], f % c.counts[e], 1); }
  }

  /** The extents of fragment f. */
  lemma FragmentSizes(offset: seq<int>, size: seq<int>, c: Counts, f: nat)
    requires |offset| == |size| && c.Shape(size) && size != [] && AllPositive(c.counts) && f < Prod(c.counts)
    ensures var w := Sizes(Fragment(offset, size, c, f));
      (forall e :: 0 <= e < c.dim ==> w[e] == 1) && w[c.dim] == WidthOf(size, c, f) && w[c.dim + 1..] == size[c.dim + 1..]
    ensures WidthOf(size, c, f) >= 1
  {
    var r := Fragment(offset, size, c, f);
    forall e | 0 <= e < |size|
      ensures r[e].Size() == if e < c.dim then 1 else if e == c.dim then WidthOf(size, c, f) else size[e]
    {
      FragmentWidth(offset, size, c, f, e);
    }
    PieceSize(size[c.dim], c.counts[c.dim], f % c.counts[c.dim], 1);
  }

  lemma FragmentSize(offset: seq<int>, size: seq<int>, c: Counts, f: nat)
    requires |offset| == |size| && c.Shape(size) && size != [] && AllPositive(c.counts) && f < Prod(c.counts)
    ensures CubeSize(Fragment(offset, size, c, f)) == WidthOf(size, c, f) * Prod(size[c.dim + 1..])
    ensures WidthOf(size, c, f) >= 1
  {
    FragmentSizes(offset, size, c, f);
    CubeSizeIsProd(Fragment(offset, size, c, f));
    ProdAt(Sizes(Fragment(offset, size, c, f)), c.dim);
  }

  lemma {:induction false} InnerRank(k: seq<int>, w: seq<int>, d: nat)
    requires d < |k| == |w| && forall e :: 0 <= e < d ==> k[e] == 0
    ensures Rank(k, w) == k[d] * Prod(w[d + 1..]) + Rank(k[d + 1..], w[d + 1..])
  {
    if d > 0 {
      InnerRank(k[1..], w[1..], d - 1);
      assert k[1..][d..] == k[d + 1..] && w[1..][d..] == w[d + 1..];
    }
  }

  lemma FragmentCorner(offset: seq<int>, size: seq<int>, c: Counts, f: nat, p: Point)
    requires |offset| == |size| && c.Shape(size) && size != [] && AllPositive(c.counts) && f < Prod(c.counts)
    requires Contains(Fragment(offset, size, c, f), p)
    ensures Minus(p, offset)[..c.dim] == Unrank(f, c.counts)[..c.dim]
    ensures forall e :: 0 <= e < c.dim ==> Minus(p, Corner(Fragment(offset, size, c, f)))[e] == 0
    ensures Minus(p, offset)[c.dim + 1..] == Minus(p, Corner(Fragment(offset, size, c, f)))[c.dim + 1..]
    ensures p[c.dim] - offset[c.dim] - (p[c.dim] - Corner(Fragment(offset, size, c, f))[c.dim]) == Cut(size[c.dim], c.counts[c.dim], f % c.counts[c.dim])
  {
    var r := Fragment(offset, size, c, f);
    forall e | 0 <= e < |size|
      ensures e < c.dim ==> p[e] == offset[e] + Unrank(f, c.counts)[e] == r[e].start
      ensures e == c.dim ==> r[e].start == offset[e] + Cut(size[e], c.counts[e], f % c.counts[e])
      ensures e > c.dim ==> r[e].start == offset[e]
    {
      CornerAt(offset, size, c, f, p, e);
    }
    CornerVectors(p, offset, Corner(r), Unrank(f, c.counts), c.dim);
  }

  lemma CornerVectors(p: Point, offset: seq<int>, start: seq<int>, k: seq<int>, d: nat)
    requires d < |p| == |offset| == |start| == |k|
    requires forall e :: 0 <= e < d ==> p[e] == offset[e] + k[e] == start[e]
    requires forall e :: d < e < |p| ==> start[e] == offset[e]
    ensures Minus(p, offset)[..d] == k[..d] && Minus(p, offset)[d + 1..] == Minus(p, start)[d + 1..]
    ensures forall e :: 0 <= e < d ==> Minus(p, start)[e] == 0
  {}

  lemma CornerAt(offset: seq<int>, size: seq<int>, c: Counts, f: nat, p: Point, e: nat)
    requires |offset| == |size| && c.Shape(size) && AllPositive(c.counts) && f < Prod(c.counts) && e < |size|
    requires Contains(Fragment(offset, size, c, f), p)
    ensures var r := Fragment(offset, size, c, f);
      if e < c.dim then p[e] == offset[e] + Unrank(f, c.counts)[e] == r[e].start
      else if e == c.dim then r[e].start == offset[e] + Cut(size[e], c.counts[e], f % c.counts[e])
      else r[e].start == offset[e]
  {
    assert Fragment(offset, size, c, f)[e].Has(p[e]);
    FragmentRanges(offset, size, c, f, e);
  }

  /** Element p of fragment f has the position in the stream that C order gives it. */
  lemma ElementHome(offset: seq<int>, size: seq<int>, c: Counts, f: nat, p: Point)
    requires |offset| == |size| && c.Shape(size) && size != [] && AllPositive(c.counts) && f < Prod(c.counts)
    requires Contains(Fragment(offset, size, c, f), p)
    ensures Rank(Minus(p, offset), size) == StartOf(size, c, f) + Rank(Minus(p, Corner(Fragment(offset, size, c, f))), Sizes(Fragment(offset, size, c, f)))
  {
    FragmentDigits(size, c, f);
    FragmentCorner(offset, size, c, f, p);
    FragmentSizes(offset, size, c, f);
    var r := Fragment(offset, size, c, f);
    HomeFromRanks(Minus(p, offset), Minus(p, Corner(r)), size, Sizes(r), c, f);
  }

  lemma HomeFromRanks(outer: seq<int>, inner: seq<int>, size: seq<int>, w: seq<int>, c: Counts, f: nat)
    requires c.Shape(size) && size != [] && |outer| == |inner| == |size| == |w|
    requires forall e :: 0 <= e < c.dim ==> inner[e] == 0
    requires outer[c.dim + 1..] == inner[c.dim + 1..] && size[c.dim + 1..] == w[c.dim + 1..]
    requires Rank(outer[..c.dim], size[..c.dim]) == f / c.counts[c.dim]
    requires outer[c.dim] - inner[c.dim] == Cut(size[c.dim], c.counts[c.dim], f % c.counts[c.dim])
    ensures Rank(outer, size) == StartOf(size, c, f) + Rank(inner, w)
  {
    var d := c.dim;
    SplitRank(outer, size, d);
    InnerRank(inner, w, d);
    HomeSum(Rank(outer, size), Rank(inner, w), StartOf(size, c, f), f / c.counts[d], size[d], Prod(size[d + 1..]),
            outer[d], inner[d], Cut(size[d], c.counts[d], f % c.counts[d]), Rank(inner[d + 1..], w[d + 1..]));
  }

  lemma HomeSum(rank: int, place: int, start: int, a: int, m: int, p: int, x: int, i: int, cut: int, t: int)
    requires rank == a * (m * p) + x * p + t && place == i * p + t && start == a * (m * p) + cut * p && x - i == cut
    ensures rank == start + place
  {
    Distribute(x, i, p);
  }

  lemma Distribute(x: int, i: int, p: int)
    ensures (x - i) * p + i * p == x * p
  {}

  lemma {:induction false} BeforeIsStart(offset: seq<int>, size: seq<int>, c: Counts, f: nat)
    requires |offset| == |size| && c.Shape(size) && size != [] && AllPositive(c.counts) && f <= Prod(c.counts)
    ensures Before(offset, size, c, f) == StartOf(size, c, f)
  {
    if f == 0 {
      StartOfFirst(size, c);
    } else {
      BeforeIsStart(offset, size, c, f - 1);
      FragmentSize(offset, size, c, f - 1);
      StartOfNext(size, c, f - 1);
    }
  }

  /** All fragments together have exactly the elements of the region. */
  lemma TotalSize(offset: seq<int>, size: seq<int>, c: Counts)
    requires |offset| == |size| && c.Shape(size)
    ensures Prod(c.counts) >= 1 && Before(offset, size, c, Prod(c.counts)) == Prod(size)
  {
    ShapeIsScheme(offset, size, c);
    if size == [] {
      assert Before(offset, size, c, 1) == Before(offset, size, c, 0) + CubeSize(Fragment(offset, size, c, 0));
    } else {
      BeforeIsStart(offset, size, c, Prod(c.counts));
      EndOfLast(size, c);
    }
  }

  lemma EndOfLast(size: seq<int>, c: Counts)
    requires c.Shape(size) && size != []
    ensures StartOf(size, c, Prod(c.counts)) == Prod(size)
  {
    var d, n, a := c.dim, c.counts[c.dim], size[..c.dim];
    ProdSplit(size, d);
    ProdSplit(c.counts, d);
    assert c.counts[..d] == a;
    ProdOnes(c.counts[d + 1..]);
    assert Prod(c.counts) == Prod(a) * n;
    DivModOf(Prod(a), n, 0);
    CutEnds(size[d], n);
  }

  lemma {:induction false} ProdSplit(n: seq<int>, d: nat)
    requires d < |n|
    ensures Prod(n) == Prod(n[..d]) * (n[d] * Prod(n[d + 1..]))
  {
    if d > 0 {
      ProdSplit(n[1..], d - 1);
      assert n[1..][..d - 1] == n[..d][1..] && n[1..][d..] == n[d + 1..];
      ProductRegroup(n[0], Prod(n[..d][1..]), n[d], Prod(n[d + 1..]));
    }
  }

  lemma ProductRegroup(x: int, a: int, b: int, c: int)
    ensures x * (a * (b * c)) == (x * a) * (b * c)
  {
  }

  lemma FragmentPositive(offset: seq<int>, size: seq<int>, c: Counts, f: nat)
    requires |offset| == |size| && c.Shape(size) && AllPositive(c.counts) && f < Prod(c.counts) && AllPositive(size)
    ensures CubeSize(Fragment(offset, size, c, f)) >= 1
  {
    if size != [] {
      FragmentSize(offset, size, c, f);
      ProdPositive(size[c.dim + 1..]);
      MulAtLeast(WidthOf(size, c, f), Prod(size[c.dim + 1..]));
    }
  }

  /** What the fragments hold: the values of the stream, concatenated fragment by fragment. */
  ghost function Flat<T>(files: seq<seq<T>>): seq<T> {
    if files == [] then [] else Flat(files[..|files| - 1]) + files[|files| - 1]
  }

  ghost predicate Filled<T>(files: seq<seq<T>>, offset: seq<int>, size: seq<int>, c: Counts)
    requires |offset| == |size| && c.Shape(size)
  {
    forall f :: 0 <= f < |files| ==> |files[f]| == CubeSize(Fragment(offset, size, c, f))
  }

  ghost function LengthBefore<T>(files: seq<seq<T>>, f: nat): nat
    requires f <= |files|
  {
    if f == 0 then 0 else LengthBefore(files, f - 1) + |files[f - 1]|
  }

  lemma {:induction false} LengthPrefix<T>(files: seq<seq<T>>, more: seq<seq<T>>, f: nat)
    requires f <= |files| && files <= more
    ensures LengthBefore(files, f) == LengthBefore(more, f)
  {
    if f > 0 { LengthPrefix(files, more, f - 1); }
  }

  lemma {:induction false} FlatLength<T>(files: seq<seq<T>>)
    ensures |Flat(files)| == LengthBefore(files, |files|)
  {
    if files != [] {
      var front := files[..|files| - 1];
      FlatLength(front);
      LengthPrefix(front, files, |front|);
    }
  }

  lemma {:induction false} FlatElement<T>(files: seq<seq<T>>, f: nat, j: nat)
    requires f < |files| && j < |files[f]|
    ensures LengthBefore(files, f) + j < |Flat(files)|
    ensures Flat(files)[LengthBefore(files, f) + j] == files[f][j]
  {
    var front := files[..|files| - 1];
    FlatLength(front);
    LengthPrefix(front, files, if f < |front| then f else |front|);
    if f < |front| { FlatElement(front, f, j); }
  }

  lemma {:induction false} LengthIsBefore<T>(files: seq<seq<T>>, offset: seq<int>, size: seq<int>, c: Counts, f: nat)
    requires |offset| == |size| && c.Shape(size) && f <= |files| && Filled(files[..f], offset, size, c)
    ensures LengthBefore(files, f) == Before(offset, size, c, f)
  {
    if f > 0 {
      assert files[..f - 1] == files[..f][..f - 1];
      LengthIsBefore(files, offset, size, c, f - 1);
      assert files[..f][f - 1] == files[f - 1];
    }
  }

  /** The complete stream: the value pushed for coordinates p is in the fragment of p, at the place of p. */
  lemma StreamedElement<T>(files: seq<seq<T>>, input: seq<T>, offset: seq<int>, size: seq<int>, c: Counts, f: nat, p: Point)
    requires |offset| == |size| && c.Shape(size) && AllPositive(c.counts) && AllPositive(size)
    requires |files| == Prod(c.counts) && Filled(files, offset, size, c) && Flat(files) == input
    requires f < |files| && Contains(Fragment(offset, size, c, f), p)
    ensures var r := Fragment(offset, size, c, f);
      var i, j := Rank(Minus(p, offset), size), Rank(Minus(p, Corner(r)), Sizes(r));
      0 <= i < |input| && 0 <= j < |files[f]| && files[f][j] == input[i]
  {
    var r := Fragment(offset, size, c, f);
    var j := Rank(Minus(p, Corner(r)), Sizes(r));
    PlaceInFragment(r, p);
    LengthIsBefore(files, offset, size, c, f);
    StreamPosition(offset, size, c, f, p);
    assert |files[f]| == CubeSize(r);
    FlatLookup(files, input, f, j, Before(offset, size, c, f) + j);
  }

  lemma FlatLookup<T>(files: seq<seq<T>>, input: seq<T>, f: nat, j: nat, i: int)
    requires f < |files| && j < |files[f]| && Flat(files) == input && i == LengthBefore(files, f) + j
    ensures i < |input| && files[f][j] == input[i]
  {
    FlatElement(files, f, j);
  }

  lemma PlaceInFragment(r: Cube, p: Point)
    requires Contains(r, p)
    ensures 0 <= Rank(Minus(p, Corner(r)), Sizes(r)) < CubeSize(r)
  {
    var k := Minus(p, Corner(r));
    forall d | 0 <= d < |r| ensures 0 <= k[d] < Sizes(r)[d] { assert r[d].Has(p[d]); }
    RankBounds(k, Sizes(r));
    CubeSizeIsProd(r);
  }

  lemma StreamPosition(offset: seq<int>, size: seq<int>, c: Counts, f: nat, p: Point)
    requires |offset| == |size| && c.Shape(size) && AllPositive(c.counts) && f < Prod(c.counts)
    requires Contains(Fragment(offset, size, c, f), p)
    ensures var r := Fragment(offset, size, c, f);
      Rank(Minus(p, offset), size) == Before(offset, size, c, f) + Rank(Minus(p, Corner(r)), Sizes(r))
  {
    if size != [] {
      ElementHome(offset, size, c, f, p);
      BeforeIsStart(offset, size, c, f);
    } else {
      assert Prod(c.counts) == 1 && f == 0;
    }
  }

  // ----- the size limit

  /** The last piece of a dimension is the longest one. */
  lemma LastPiece(m: int, n: int)
    requires m >= 0 && n >= 1
    ensures Cut(m, n, n) - Cut(m, n, n - 1) == CeilOf(m, n)
  {
    var q, s := (m + n - 1) / n, (m + n - 1) % n;
    CutEnds(m, n);
    DivModOf(m - q, n, n - 1 - s);
    LastCut(m, n, q, s);
  }

  lemma LastCut(m: int, n: int, q: int, s: int)
    requires m + n - 1 == q * n + s
    ensures (n - 1) * m == (m - q) * n + (n - 1 - s)
  {
    assert (n - 1) * m == m * n - m;
    assert (m - q) * n == m * n - q * n;
  }

  lemma WidestPiece(m: int, n: int, k: int)
    requires m >= 0 && n >= 1
    ensures Cut(m, n, k + 1) - Cut(m, n, k) <= CeilOf(m, n)
  {
    CeilDiv(m, n);
    assert n * CeilOf(m, n) == CeilOf(m, n) * n;
    PieceSize(m, n, k, CeilOf(m, n));
  }

  /** The number of elements of the largest fragment. */
  function LargestFragment(size: seq<int>, c: Counts): int
    requires size != [] ==> c.dim < |size| == |c.counts| && c.counts[c.dim] >= 1
  {
    if size == [] then 1 else CeilOf(size[c.dim], c.counts[c.dim]) * Prod(size[c.dim + 1..])
  }

  lemma NoWiderPiece(size: seq<int>, c: Counts, f: nat)
    requires c.Shape(size) && size != [] && AllPositive(size) && c.counts[c.dim] >= 1
    ensures WidthOf(size, c, f) <= CeilOf(size[c.dim], c.counts[c.dim])
  {
    WidestPiece(size[c.dim], c.counts[c.dim], f % c.counts[c.dim]);
  }

  lemma NoLargerFragment(offset: seq<int>, size: seq<int>, c: Counts, f: nat)
    requires |offset| == |size| && c.Shape(size) && AllPositive(size) && AllPositive(c.counts) && f < Prod(c.counts)
    ensures CubeSize(Fragment(offset, size, c, f)) <= LargestFragment(size, c)
  {
    if size != [] {
      FragmentSize(offset, size, c, f);
      ProdPositive(size[c.dim + 1..]);
      NoWiderPiece(size, c, f);
      MulMonotone(WidthOf(size, c, f), CeilOf(size[c.dim], c.counts[c.dim]), Prod(size[c.dim + 1..]));
    }
  }

  /** The fragment with the last piece of the first slices is as large as any. */
  lemma LargestIsReached(offset: seq<int>, size: seq<int>, c: Counts) returns (f: nat)
    requires |offset| == |size| && c.Shape(size) && AllPositive(size) && AllPositive(c.counts)
    ensures f < Prod(c.counts) && CubeSize(Fragment(offset, size, c, f)) == LargestFragment(size, c)
  {
    ProdPositive(c.counts);
    if size == [] {
      f := 0;
    } else {
      var n := c.counts[c.dim];
      f := n - 1;
      LastPieceExists(c.counts, c.dim);
      DivModOf(0, n, n - 1);
      FragmentSize(offset, size, c, f);
      LastPiece(size[c.dim], n);
    }
  }

  lemma LastPieceExists(counts: seq<int>, d: nat)
    requires AllPositive(counts) && d < |counts|
    ensures counts[d] <= Prod(counts)
  {
    ProdSplit(counts, d);
    ProdPositive(counts[..d]);
    ProdPositive(counts[d + 1..]);
    MulAtLeast(counts[d], Prod(counts[d + 1..]));
    MulAtLeast(Prod(counts[..d]), counts[d] * Prod(counts[d + 1..]));
  }

  /** Exactly when all fragments keep the limit. */
  lemma CapIffLargestFits(offset: seq<int>, size: seq<int>, c: Counts, elementSize: int, maxBytes: int)
    requires |offset| == |size| && c.Shape(size) && AllPositive(size) && AllPositive(c.counts) && elementSize >= 1
    ensures (forall f: nat :: f < Prod(c.counts) ==> elementSize * CubeSize(Fragment(offset, size, c, f)) <= maxBytes)
      <==> elementSize * LargestFragment(size, c) <= maxBytes
  {
    var g := LargestIsReached(offset, size, c);
    if elementSize * LargestFragment(size, c) <= maxBytes {
      forall f: nat | f < Prod(c.counts) ensures elementSize * CubeSize(Fragment(offset, size, c, f)) <= maxBytes {
        NoLargerFragment(offset, size, c, f);
        CapOfPart(elementSize, CubeSize(Fragment(offset, size, c, f)), LargestFragment(size, c), maxBytes);
      }
    }
  }

  /** The largest fragment of a stream that divides dimension i, computed from the sizes and the limit alone. */
  function LargestIfDivided(size: seq<int>, maxWidth: int, i: nat): int
    requires i < |size| && maxWidth >= 1 && size[i] >= 1
  {
    CeilDiv(size[i], maxWidth);
    CeilOf(size[i], CeilOf(size[i], maxWidth)) * Prod(size[i + 1..])
  }

  /** The longest piece of dimension i keeps the limit, if dimension i is the divided one. */
  ghost predicate DivisionFits(size: seq<int>, elementSize: int, maxBytes: int, i: nat)
    requires AllPositive(size) && i < |size|
  {
    var slice := LoopSlice(size, elementSize, i);
    1 <= slice && 1 <= maxBytes / slice && elementSize * LargestIfDivided(size, maxBytes / slice, i) <= maxBytes
  }

  /** A stream that can be started keeps the limit: by the whole region if no dimension is divided, else by the
      longest piece of the divided one. */
  ghost predicate LimitIsMet(size: seq<int>, elementSize: int, maxBytes: int)
    requires AllPositive(size)
  {
    if forall i :: 0 <= i < |size| ==> Passes(size, elementSize, maxBytes, i) then elementSize * Prod(size) <= maxBytes
    else forall i :: 0 <= i < |size| && Divides(size, elementSize, maxBytes, i) && LoopSlice(size, elementSize, i) <= maxBytes ==>
        DivisionFits(size, elementSize, maxBytes, i)
  }

  lemma LargestUndivided(size: seq<int>, c: Counts)
    requires |c.counts| == |size| && c.dim == 0 && forall d :: 0 <= d < |size| ==> c.counts[d] == 1
    ensures LargestFragment(size, c) == Prod(size)
  {
    if size != [] { DivModOf(size[0], 1, 0); }
  }

  lemma DivisionExact(size: seq<int>, c: Counts, elementSize: int, maxBytes: int)
    requires AllPositive(size) && c.dim < |size| == |c.counts| && 1 <= c.maxWidth && 1 <= LoopSlice(size, elementSize, c.dim)
    requires c.counts[c.dim] == CeilOf(size[c.dim], c.maxWidth) && c.counts[c.dim] >= 1
    requires c.maxWidth == maxBytes / LoopSlice(size, elementSize, c.dim)
    ensures elementSize * LargestFragment(size, c) <= maxBytes <==> DivisionFits(size, elementSize, maxBytes, c.dim)
  {}

  lemma OneDivision(size: seq<int>, elementSize: int, maxBytes: int, d: nat)
    requires AllPositive(size) && d < |size| && Divides(size, elementSize, maxBytes, d) && LoopSlice(size, elementSize, d) <= maxBytes
    ensures LimitIsMet(size, elementSize, maxBytes) <==> DivisionFits(size, elementSize, maxBytes, d)
  {
    forall i | 0 <= i < |size| && Divides(size, elementSize, maxBytes, i) ensures i == d {
      DividesOnce(size, elementSize, maxBytes, i, d);
    }
  }

  /** For the counts that starting a stream computes: all fragments keep the limit exactly if sizes and limit meet the
      condition above. */
  lemma CapIsExact(offset: seq<int>, size: seq<int>, c: Counts, elementSize: int, maxBytes: int)
    requires |offset| == |size| && c.Shape(size) && AllPositive(size) && AllPositive(c.counts) && elementSize >= 1 && maxBytes >= 0
    requires CountsFor(c, size, elementSize, maxBytes)
    ensures (forall f: nat :: f < Prod(c.counts) ==> elementSize * CubeSize(Fragment(offset, size, c, f)) <= maxBytes)
      <==> LimitIsMet(size, elementSize, maxBytes)
  {
    CapIffLargestFits(offset, size, c, elementSize, maxBytes);
    if forall i :: 0 <= i < |size| ==> Passes(size, elementSize, maxBytes, i) {
      LargestUndivided(size, c);
    } else {
      SlicesFit(maxBytes, LoopSlice(size, elementSize, c.dim), 1);
      DivisionExact(size, c, elementSize, maxBytes);
      OneDivision(size, elementSize, maxBytes, c.dim);
    }
  }

  /** The first fragment of a region of 2 x 9 bytes is the whole region, although only 10 bytes are allowed. */
  lemma CapIsExceeded()
    ensures CountsFor(Counts(0, 2, [1, 1]), [2, 9], 1, 10)
    ensures CubeSize(Fragment([0, 0], [2, 9], Counts(0, 2, [1, 1]), 0)) == 18
  {
    var size, c := [2, 9], Counts(0, 2, [1, 1]);
    assert CountsFor(c, size, 1, 10) by { ExampleSlices(size); DivModOf(1, 2, 1); }
    ExampleFragment(size, c);
  }

  lemma ExampleFragment(size: seq<int>, c: Counts)
    requires size == [2, 9] && c == Counts(0, 2, [1, 1])
    ensures CubeSize(Fragment([0, 0], size, c, 0)) == 18
  {
    ProdOnes(c.counts);
    FragmentSize([0, 0], size, c, 0);
    WholeWidth(size, c, 0);
    ExampleSlices(size);
  }

  lemma ExampleSlices(size: seq<int>)
    requires size == [2, 9]
    ensures LoopSlice(size, 1, 1) == 1 && LoopSlice(size, 1, 0) == 2 && Prod(size[1..]) == 9
  {
    assert size[1..1] == [] && size[0..1] == [2] && [2][1..] == [] && size[1..] == [9] && [9][1..] == [];
    assert Prod([2]) == 2 * Prod([]) && Prod([9]) == 9 * Prod([]);
  }

  lemma WholeWidth(size: seq<int>, c: Counts, f: nat)
    requires c.Shape(size) && size != [] && c.counts[c.dim] == 1
    ensures WidthOf(size, c, f) == size[c.dim]
  {
    CutEnds(size[c.dim], 1);
    DivModOf(f, 1, 0);
  }

  /** Where no dimension is shorter than the last one, no fragment exceeds the limit. */
  lemma CapIsKept(offset: seq<int>, size: seq<int>, c: Counts, elementSize: int, maxBytes: int)
    requires |offset| == |size| && c.Shape(size) && AllPositive(size) && AllPositive(c.counts) && 1 <= elementSize <= maxBytes
    requires CountsFor(c, size, elementSize, maxBytes)
    requires forall d :: 0 <= d < |size| ==> size[|size| - 1] <= size[d]
    ensures forall f: nat :: f < Prod(c.counts) ==> elementSize * CubeSize(Fragment(offset, size, c, f)) <= maxBytes
  {
    LongDimensionsFit(size, elementSize, maxBytes);
    CapIsExact(offset, size, c, elementSize, maxBytes);
  }

  lemma LongDimensionsFit(size: seq<int>, elementSize: int, maxBytes: int)
    requires AllPositive(size) && 1 <= elementSize <= maxBytes
    requires forall d :: 0 <= d < |size| ==> size[|size| - 1] <= size[d]
    ensures LimitIsMet(size, elementSize, maxBytes)
  {
    if forall i :: 0 <= i < |size| ==> Passes(size, elementSize, maxBytes, i) {
      if size != [] { CapUndivided(size, elementSize, maxBytes); }
    } else {
      forall i | 0 <= i < |size| && Divides(size, elementSize, maxBytes, i) && LoopSlice(size, elementSize, i) <= maxBytes
        ensures DivisionFits(size, elementSize, maxBytes, i)
      {
        CapOfDivision(size, elementSize, maxBytes, i);
      }
    }
  }

  lemma CapOfDivision(size: seq<int>, elementSize: int, maxBytes: int, i: nat)
    requires AllPositive(size) && 1 <= elementSize <= maxBytes && i < |size| && size[|size| - 1] <= size[i]
    requires LoopSlice(size, elementSize, i) <= maxBytes
    ensures DivisionFits(size, elementSize, maxBytes, i)
  {
    CapAtDivision(size, elementSize, maxBytes, i);
    SlicesFit(maxBytes, LoopSlice(size, elementSize, i), 1);
    var w := maxBytes / LoopSlice(size, elementSize, i);
    ProdPositive(size[i + 1..]);
    CeilOfCeil(size[i], w);
    CapOfSlices(elementSize, CeilOf(size[i], CeilOf(size[i], w)), Prod(size[i + 1..]), w, maxBytes);
  }

  /** Pieces that are just enough for a width are no wider than that. */
  lemma CeilOfCeil(m: int, w: int)
    requires m >= 1 && w >= 1
    ensures CeilOf(m, w) >= 1 && CeilOf(m, CeilOf(m, w)) <= w
  {
    CeilDiv(m, w);
    var n := CeilOf(m, w);
    DivAtMost(m + n - 1, n, w);
    assert (w + 1) * n == w * n + n;
  }

  lemma CapOfPart(e: int, x: int, total: int, maxBytes: int)
    requires e >= 1 && x <= total && e * total <= maxBytes
    ensures e * x <= maxBytes
  {
    MulMonotone(x, total, e);
  }

  lemma CapOfSlices(e: int, w: int, p: int, maxWidth: int, maxBytes: int)
    requires e >= 1 && p >= 1 && w <= maxWidth && maxWidth * (e * p) <= maxBytes
    ensures e * (w * p) <= maxBytes
  {
    MulAtLeast(e, p);
    MulMonotone(w, maxWidth, e * p);
    assert e * (w * p) == w * (e * p);
  }
}
