/** The write stream: values pushed one by one, buffered as chunks, flushed into fragments. */
module WriteStreams {
  import opened Options
  import opened MixedRadix
  import opened Geometry
  import opened Dataspaces
  import opened Splitting
  import opened StreamCounts
  import opened StreamOrder

  const MAX_CHUNK_SIZE := 16 * 1024

  /** What a backend's file holds after writing data at element offset at. */
  function WriteAt<T>(file: seq<T>, at: nat, data: seq<T>): seq<T>
    requires at <= |file|
  {
    file[..at] + data + if at + |data| < |file| then file[at + |data|..] else []
  }

  // ----- objects of a counts vector

  /** In every dimension there is at least one object and none is empty. */
  ghost predicate Divided(size: seq<int>, counts: seq<int>) {
    |counts| == |size| && forall d :: 0 <= d < |size| ==> 1 <= counts[d] <= size[d]
  }

  ghost predicate IsObject(offset: seq<int>, size: seq<int>, counts: seq<int>, index: int, cube: Cube) {
    && |offset| == |size| == |counts| == |cube| && AllPositive(counts)
    && forall d :: 0 <= d < |size| ==> cube[d] == Piece(offset[d], size[d], counts[d], Digit(index, counts, d))
  }

  lemma PieceNonEmpty(offset: int, size: int, factor: int, k: int)
    requires 1 <= factor <= size
    ensures Piece(offset, size, factor, k).Size() == Piece(offset, size, factor, k).end - Piece(offset, size, factor, k).start >= 1
  {
    PieceSize(size, factor, k, 1);
  }

  lemma CapacityStep(t: int, cube: Cube, d: nat, r: Range)
    requires d < |cube| && r.Size() == r.end - r.start
    ensures t * CubeSize(cube[d + 1..]) * (r.end - r.start) == t * CubeSize(cube[d := r][d..])
  {
    assert cube[d := r][d..][1..] == cube[d + 1..];
  }

  /** The extents of an object and its capacity in bytes. */
  method FragmentExtents(offset: seq<int>, size: seq<int>, typeSize: int, cumulative: seq<int>, index: int, ghost counts: seq<int>)
    returns (cube: Cube, capacity: int)
    requires |offset| == |size| && Divided(size, counts) && AllPositive(counts) && Cumulative(cumulative, counts)
    ensures IsObject(offset, size, counts, index, cube) && capacity == typeSize * CubeSize(cube)
  {
    capacity, cube := typeSize, seq(|size|, _ => Range(0, 0));
    var d := |size|;
    while d > 0
      invariant 0 <= d <= |size| == |cube|
      invariant forall e :: d <= e < |size| ==> cube[e] == Piece(offset[e], size[e], counts[e], Digit(index, counts, e))
      invariant capacity == typeSize * CubeSize(cube[d..])
    {
      d := d - 1;
      var range := GetBounds(offset, size, d, cumulative, index, counts);
      PieceNonEmpty(offset[d], size[d], counts[d], Digit(index, counts, d));
      CapacityStep(typeSize, cube, d, range);
      cube := cube[d := range];
      capacity := capacity * (range.end - range.start);
    }
    assert cube[0..] == cube;
  }

  /** The number of elements of a chunk: at least one, and never more than the buffer was made for. */
  method ChunkElements(offset: seq<int>, size: seq<int>, cumulative: seq<int>, index: int, ghost chunk: Counts) returns (n: int)
    requires |offset| == |size| && chunk.Shape(size) && chunk.Bounded(size) && AllPositive(chunk.counts) && Cumulative(cumulative, chunk.counts)
    ensures 1 <= n <= MaxChunk(size, chunk)
    ensures n == CubeSize(ObjectBox(offset, size, chunk.counts, index))
  {
    n := 1;
    var d := |size|;
    ghost var box := ObjectBox(offset, size, chunk.counts, index);
    assert box[d..] == [];
    while d > 0
      invariant 0 <= d <= |size| && n == CubeSize(box[d..])
    {
      d := d - 1;
      var range := GetBounds(offset, size, d, cumulative, index, chunk.counts);
      SizeFromBehind(box, d);
      n := n * range.Size();
    }
    assert box[0..] == box;
    forall i | 0 <= i < |size| ensures WidthFits(size, chunk, i, box[i].Size()) { ObjectFits(offset, size, chunk, index, i); }
    ChunkBound(box, size, chunk, 0);
    MaxChunkBound(size, chunk, n);
  }

  /** The piece of an object in dimension d is no wider than the counts allow. */
  ghost predicate WidthFits(size: seq<int>, c: Counts, d: nat, x: int)
    requires d < |size|
  {
    1 <= x <= size[d] && (d < c.dim ==> x == 1) && (d == c.dim ==> x <= c.maxWidth)
  }

  lemma PieceFits(size: seq<int>, c: Counts, d: nat, k: int, x: int)
    requires c.Shape(size) && c.Bounded(size) && d < |size|
    requires x == Cut(size[d], c.counts[d], k + 1) - Cut(size[d], c.counts[d], k) >= 1
    ensures WidthFits(size, c, d, x)
  {
    MulAtLeast(size[d], c.counts[d]);
    PieceSize(size[d], c.counts[d], k, size[d]);
    if d < c.dim {
      PieceSize(size[d], size[d], k, 1);
    } else if d == c.dim {
      PieceSize(size[d], c.counts[d], k, c.maxWidth);
    }
  }

  lemma ObjectFits(offset: seq<int>, size: seq<int>, c: Counts, index: int, d: nat)
    requires |offset| == |size| && c.Shape(size) && c.Bounded(size) && AllPositive(c.counts) && d < |size|
    ensures WidthFits(size, c, d, ObjectBox(offset, size, c.counts, index)[d].Size())
  {
    var k := Digit(index, c.counts, d);
    PieceNonEmpty(offset[d], size[d], c.counts[d], k);
    PieceFits(size, c, d, k, Piece(offset[d], size[d], c.counts[d], k).Size());
  }

  /** The pieces from dimension d on have together at most as many elements as the widths allow. */
  lemma {:induction false} ChunkBound(box: Cube, size: seq<int>, c: Counts, d: nat)
    requires d <= |size| == |box| && (size != [] ==> c.dim < |size|) && forall i :: 0 <= i < |size| ==> WidthFits(size, c, i, box[i].Size())
    ensures ChunkFits(size, c, d, CubeSize(box[d..]))
    decreases |size| - d
  {
    if d < |size| {
      ChunkBound(box, size, c, d + 1);
      SizeFromBehind(box, d);
      ChunkStep(size, c, d, CubeSize(box[d + 1..]), box[d].Size());
    } else {
      assert box[d..] == [] && size[d..] == [];
    }
  }

  /** The box of the object with the given number. */
  ghost function ObjectBox(offset: seq<int>, size: seq<int>, counts: seq<int>, index: int): (c: Cube)
    requires |offset| == |size| == |counts| && AllPositive(counts)
    ensures IsObject(offset, size, counts, index, c)
  {
    seq(|size|, d requires 0 <= d < |size| => Piece(offset[d], size[d], counts[d], Digit(index, counts, d)))
  }

  lemma SizeFromBehind(c: Cube, d: nat)
    requires d < |c|
    ensures CubeSize(c[d..]) == CubeSize(c[d + 1..]) * c[d].Size()
  {
    assert c[d..][1..] == c[d + 1..];
  }

  ghost function MaxChunk(size: seq<int>, c: Counts): int {
    c.maxWidth * Prod(if c.dim <= |size| then size[c.dim..] else [])
  }

  ghost predicate ChunkFits(size: seq<int>, c: Counts, d: nat, n: int)
    requires d <= |size| && (size != [] ==> c.dim < |size|)
  {
    1 <= n <= Prod(size[d..]) && (size != [] && d <= c.dim ==> n <= c.maxWidth * Prod(size[c.dim + 1..]))
  }

  lemma ChunkStep(size: seq<int>, c: Counts, d: nat, n: int, x: int)
    requires d < |size| && c.dim < |size| && ChunkFits(size, c, d + 1, n) && WidthFits(size, c, d, x)
    ensures ChunkFits(size, c, d, n * x)
  {
    assert size[d..][1..] == size[d + 1..];
    MulAtLeast(n, x);
    ProductOrder(n, x, Prod(size[d + 1..]), size[d]);
    if d == c.dim { ProductOrder(n, x, Prod(size[d + 1..]), c.maxWidth); }
  }

  lemma MaxChunkBound(size: seq<int>, c: Counts, n: int)
    requires c.Shape(size) && c.Bounded(size)
    requires if size == [] then n <= 1 else n <= c.maxWidth * Prod(size[c.dim + 1..])
    ensures n <= MaxChunk(size, c)
  {
    if size == [] {
      assert Prod(if c.dim <= |size| then size[c.dim..] else []) == 1;
    } else {
      WiderSlice(size, c.dim);
      MulMonotone(Prod(size[c.dim + 1..]), Prod(size[c.dim..]), c.maxWidth);
    }
  }

  lemma WiderSlice(size: seq<int>, d: nat)
    requires AllPositive(size) && d < |size|
    ensures 1 <= Prod(size[d + 1..]) <= Prod(size[d..])
  {
    assert size[d..][1..] == size[d + 1..];
    ProdPositive(size[d + 1..]);
    MulAtLeast(size[d], Prod(size[d + 1..]));
  }

  method MaxChunkSize(size: seq<int>, chunk: Counts) returns (n: int)
    requires chunk.Shape(size)
    ensures n == MaxChunk(size, chunk)
  {
    var sliceSize, d := 1, |size|;
    while d > chunk.dim
      invariant 0 <= d <= |size| && (size != [] ==> chunk.dim <= d)
      invariant sliceSize == Prod(size[d..])
    {
      d := d - 1;
      assert size[d..][1..] == size[d + 1..];
      sliceSize := sliceSize * size[d];
    }
    assert (if chunk.dim <= |size| then size[chunk.dim..] else []) == size[d..];
    n := chunk.maxWidth * sliceSize;
  }

  // ----- fragments and what they hold

  ghost function FragmentList(offset: seq<int>, size: seq<int>, c: Counts): (boxes: seq<Cube>)
    requires |offset| == |size| && c.Shape(size) && AllPositive(c.counts)
    ensures |boxes| == Prod(c.counts) >= 1
    ensures forall f :: 0 <= f < |boxes| ==> boxes[f] == Fragment(offset, size, c, f)
  {
    ProdPositive(c.counts);
    seq(Prod(c.counts), f requires 0 <= f < Prod(c.counts) => Fragment(offset, size, c, f))
  }

  lemma {:induction false} ListSize(offset: seq<int>, size: seq<int>, c: Counts, f: nat)
    requires |offset| == |size| && c.Shape(size) && AllPositive(c.counts) && f <= Prod(c.counts)
    ensures SizeUpTo(FragmentList(offset, size, c), f) == Before(offset, size, c, f)
  {
    if f > 0 { ListSize(offset, size, c, f - 1); }
  }

  lemma PlannedFragments(offset: seq<int>, size: seq<int>, c: Counts)
    requires |offset| == |size| && c.Shape(size) && AllPositive(size)
    ensures AllPositive(c.counts) && Divided(size, c.counts) && Planned(offset, size, c.counts, FragmentList(offset, size, c))
  {
    ShapeIsScheme(offset, size, c);
    var boxes := FragmentList(offset, size, c);
    ListSize(offset, size, c, |boxes|);
    TotalSize(offset, size, c);
    forall f | 0 <= f < |boxes| ensures CubeSize(boxes[f]) >= 1 { FragmentPositive(offset, size, c, f); }
    forall f, cube | 0 <= f < |boxes| && IsObject(offset, size, c.counts, f, cube) ensures cube == boxes[f] {
      DigitsAreBox(offset, size, c.counts, f, cube);
    }
  }

  /** A complete stream stores every element of its region once: the fragments partition the region, and the value
      at coordinates p is the one that was pushed at the row-major position of p. */
  lemma CompleteStream<T>(files: seq<seq<T>>, input: seq<T>, offset: seq<int>, size: seq<int>, c: Counts)
    requires |offset| == |size| && c.Shape(size) && AllPositive(c.counts) && AllPositive(size)
    requires FilledBoxes(files, FragmentList(offset, size, c)) && |files| == Prod(c.counts) && Flat(files) == input
    ensures Partition(FragmentList(offset, size, c), Space(offset, size, None).Extents())
    ensures forall f, p {:trigger Contains(FragmentList(offset, size, c)[f], p)} ::
      0 <= f < |files| && Contains(FragmentList(offset, size, c)[f], p) ==> Stored(files[f], FragmentList(offset, size, c)[f], input, offset, size, p)
  {
    ShapeIsScheme(offset, size, c);
    var s, boxes := SchemeOf(offset, size, c.counts), FragmentList(offset, size, c);
    s.BoxesPartition(Space(offset, size, None).Extents());
    assert boxes == s.Boxes(Prod(c.counts));
    forall f, p | 0 <= f < |files| && Contains(boxes[f], p) ensures Stored(files[f], boxes[f], input, offset, size, p) {
      StreamedElement(files, input, offset, size, c, f, p);
    }
  }

  /** The fragments of a stream keep the size limit exactly if sizes and limit meet the condition. */
  lemma StreamKeepsLimit(offset: seq<int>, size: seq<int>, c: Counts, typeSize: int, maxFragmentSize: int)
    requires |offset| == |size| && c.Shape(size) && AllPositive(c.counts) && AllPositive(size) && typeSize >= 1 && maxFragmentSize >= 0
    requires CountsFor(c, size, typeSize, maxFragmentSize)
    ensures (forall f :: 0 <= f < |FragmentList(offset, size, c)| ==> typeSize * CubeSize(FragmentList(offset, size, c)[f]) <= maxFragmentSize)
      <==> LimitIsMet(size, typeSize, maxFragmentSize)
  {
    CapIsExact(offset, size, c, typeSize, maxFragmentSize);
    var boxes := FragmentList(offset, size, c);
    if forall f :: 0 <= f < |boxes| ==> typeSize * CubeSize(boxes[f]) <= maxFragmentSize {
      forall f: nat | f < Prod(c.counts) ensures typeSize * CubeSize(Fragment(offset, size, c, f)) <= maxFragmentSize {
        assert boxes[f] == Fragment(offset, size, c, f);
      }
    }
  }

  ghost predicate Stored<T>(file: seq<T>, box: Cube, input: seq<T>, offset: seq<int>, size: seq<int>, p: Point)
    requires |offset| == |size| == |box| == |p|
  {
    var i, j := Rank(Minus(p, offset), size), Rank(Minus(p, Corner(box)), Sizes(box));
    0 <= i < |input| && 0 <= j < |file| && file[j] == input[i]
  }

  ghost function SizeUpTo(boxes: seq<Cube>, f: nat): int
    requires f <= |boxes|
  {
    if f == 0 then 0 else SizeUpTo(boxes, f - 1) + CubeSize(boxes[f - 1])
  }

  ghost predicate FilledBoxes<T>(files: seq<seq<T>>, boxes: seq<Cube>) {
    |files| <= |boxes| && forall f :: 0 <= f < |files| ==> |files[f]| == CubeSize(boxes[f])
  }

  lemma {:induction false} FilledLength<T>(files: seq<seq<T>>, boxes: seq<Cube>)
    requires FilledBoxes(files, boxes)
    ensures |Flat(files)| == SizeUpTo(boxes, |files|)
  {
    if files != [] { FilledLength(files[..|files| - 1], boxes); }
  }

  lemma {:induction false} SizeIncreases(boxes: seq<Cube>, f: nat, g: nat)
    requires f <= g <= |boxes| && forall h :: 0 <= h < |boxes| ==> CubeSize(boxes[h]) >= 1
    ensures SizeUpTo(boxes, f) + (g - f) <= SizeUpTo(boxes, g)
    decreases g
  {
    if f < g { SizeIncreases(boxes, f, g - 1); }
  }

  /** The fragments that a stream will create, in order: non-empty, and as many elements as the region has. */
  ghost predicate Planned(offset: seq<int>, size: seq<int>, counts: seq<int>, boxes: seq<Cube>) {
    && |boxes| == Prod(counts) && SizeUpTo(boxes, |boxes|) == Prod(size)
    && (forall f :: 0 <= f < |boxes| ==> CubeSize(boxes[f]) >= 1)
    && (forall f, cube :: 0 <= f < |boxes| && IsObject(offset, size, counts, f, cube) ==> cube == boxes[f])
  }

  datatype Status<T> = Status(capacity: int, chunkOffset: int, files: seq<seq<T>>, fragments: seq<Cube>) {
    /** All fragments but the last one are full; the last one has capacity bytes left. */
    ghost predicate Valid(boxes: seq<Cube>, typeSize: int) {
      && 1 <= |files| == |fragments| <= |boxes| && fragments == boxes[..|files|]
      && FilledBoxes(files[..|files| - 1], boxes)
      && Missing(boxes) >= 0 && capacity == typeSize * Missing(boxes)
      && chunkOffset == typeSize * |files[|files| - 1]|
    }

    ghost function Missing(boxes: seq<Cube>): int
      requires 1 <= |files| <= |boxes|
    {
      CubeSize(boxes[|files| - 1]) - |files[|files| - 1]|
    }

    ghost function Held(): seq<T> { Flat(files) }

    lemma HeldLength(boxes: seq<Cube>, typeSize: int)
      requires Valid(boxes, typeSize) && forall f :: 0 <= f < |boxes| ==> CubeSize(boxes[f]) >= 1
      ensures |Held()| + Missing(boxes) == SizeUpTo(boxes, |files|)
      ensures |files| < |boxes| ==> SizeUpTo(boxes, |files|) < SizeUpTo(boxes, |boxes|)
    {
      FilledLength(files[..|files| - 1], boxes);
      SizeIncreases(boxes, |files|, |boxes|);
    }
  }

  lemma FlatAppend<T>(files: seq<seq<T>>, f: nat, data: seq<T>)
    requires f + 1 == |files|
    ensures Flat(files[f := files[f] + data]) == Flat(files) + data
  {
    var more := files[f := files[f] + data];
    assert more[..f] == files[..f];
  }

  lemma PlannedBox(offset: seq<int>, size: seq<int>, counts: seq<int>, boxes: seq<Cube>, index: int, cube: Cube)
    requires |offset| == |size| && Divided(size, counts) && AllPositive(counts) && Planned(offset, size, counts, boxes)
    requires 0 <= index < |boxes| && IsObject(offset, size, counts, index, cube)
    ensures cube == boxes[index] && CubeSize(cube) >= 1
  {}

  lemma OpenNext<T>(s: Status<T>, boxes: seq<Cube>, typeSize: int, cube: Cube)
    requires |s.files| < |boxes| && |s.fragments| == |s.files| && s.fragments == boxes[..|s.files|] && FilledBoxes(s.files, boxes)
    requires cube == boxes[|s.files|] && CubeSize(cube) >= 1
    ensures Status(typeSize * CubeSize(cube), 0, s.files + [[]], s.fragments + [cube]).Valid(boxes, typeSize)
    ensures Flat(s.files + [[]]) == Flat(s.files)
  {
    var files := s.files + [[]];
    assert files[..|files| - 1] == s.files;
    assert files[|files| - 1] == [];
  }

  lemma FillLast<T>(s: Status<T>, boxes: seq<Cube>, typeSize: int, data: seq<T>)
    requires s.Valid(boxes, typeSize) && |data| <= s.Missing(boxes)
    ensures var f := |s.files| - 1;
      var t := Status(s.capacity - typeSize * |data|, s.chunkOffset + typeSize * |data|, s.files[f := s.files[f] + data], s.fragments);
      t.Valid(boxes, typeSize) && t.Held() == s.Held() + data
  {
    var f := |s.files| - 1;
    var files := s.files[f := s.files[f] + data];
    assert files[..f] == s.files[..f];
    FlatAppend(s.files, f, data);
    Shares(typeSize, s.Missing(boxes), |data|, |s.files[f]|);
  }

  lemma Shares(t: int, m: int, n: int, l: int)
    ensures t * (m - n) == t * m - t * n && t * (l + n) == t * l + t * n
  {}

  method ElementOffset(chunkOffset: int, typeSize: int, ghost n: nat) returns (at: nat)
    requires typeSize >= 1 && chunkOffset == typeSize * n
    ensures at == n
  {
    DivModOf(n, typeSize, 0);
    assert chunkOffset == n * typeSize + 0;
    at := chunkOffset / typeSize;
  }

  function AtMost(n: int, limit: int): int { if n > limit then limit else n }

  lemma CutToRoom(capacity: int, t: int, m: int, n: int)
    requires t >= 1 && capacity == t * m && m >= 0 && n >= 1
    ensures capacity / t == m && t * AtMost(n, m) <= capacity && (capacity > 0 ==> AtMost(n, m) >= 1)
  {
    DivModOf(m, t, 0);
    assert capacity == m * t + 0;
    MulMonotone(AtMost(n, m), m, t);
  }

  class WStream<T> {
    const offset: seq<int>
    const size: seq<int>
    const typeSize: int
    const cumulativeChunkCounts: seq<int>
    const cumulativeFragmentCounts: seq<int>
    const bufferSize: int
    ghost const chunk: Counts
    ghost const fragment: Counts
    ghost const counts: seq<int>
    ghost const boxes: seq<Cube>
    var fragCapacityRemaining: int
    var curFragment: int
    var nextChunk: int
    var chunkOffset: int
    var buffer: seq<T>
    var iterEnd: int
    var files: seq<seq<T>>
    var fragments: seq<Cube>
    ghost var input: seq<T>

    ghost predicate Parameters() {
      && |offset| == |size| && typeSize >= 1 && bufferSize == MaxChunk(size, chunk)
      && chunk.Shape(size) && chunk.Bounded(size) && AllPositive(chunk.counts) && Cumulative(cumulativeChunkCounts, chunk.counts)
      && Divided(size, counts) && AllPositive(counts) && Cumulative(cumulativeFragmentCounts, counts)
      && Planned(offset, size, counts, boxes) && |boxes| >= 1 && cumulativeFragmentCounts[0] == |boxes|
    }

    ghost predicate Layout() {
      && |offset| == |size| && fragment.Shape(size) && AllPositive(size) && AllPositive(fragment.counts)
      && counts == fragment.counts && boxes == FragmentList(offset, size, fragment)
    }

    constructor (offset: seq<int>, size: seq<int>, typeSize: int, ghost chunk: Counts, ghost fragment: Counts,
                 chunkCounts: seq<int>, fragmentCounts: seq<int>, elements: int, ghost boxes: seq<Cube>)
      requires |offset| == |size| && AllPositive(size) && typeSize >= 1 && elements == MaxChunk(size, chunk)
      requires chunk.Shape(size) && chunk.Bounded(size) && AllPositive(chunk.counts) && Cumulative(chunkCounts, chunk.counts)
      requires fragment.Shape(size) && Divided(size, fragment.counts) && AllPositive(fragment.counts) && Cumulative(fragmentCounts, fragment.counts)
      requires boxes == FragmentList(offset, size, fragment) && Planned(offset, size, fragment.counts, boxes) && fragmentCounts[0] == |boxes|
      ensures Parameters() && Layout() && files == [] && fragments == [] && buffer == [] && input == [] && curFragment == -1 && nextChunk == 0
      ensures this.offset == offset && this.size == size && this.typeSize == typeSize && this.fragment == fragment && this.chunk == chunk
    {
      this.offset, this.size, this.typeSize, this.bufferSize := offset, size, typeSize, elements;
      this.chunk, this.fragment, this.counts, this.boxes := chunk, fragment, fragment.counts, boxes;
      cumulativeChunkCounts, cumulativeFragmentCounts := chunkCounts, fragmentCounts;
      fragCapacityRemaining, curFragment, nextChunk, chunkOffset := 0, -1, 0, 0;
      buffer, iterEnd, files, fragments, input := [], 0, [], [], [];
    }

    /** Opens the first fragment and makes room for the first chunk. */
    method Begin()
      requires Parameters() && files == [] && fragments == [] && buffer == [] && input == [] && curFragment == -1 && nextChunk == 0
      modifies this
      ensures Valid() && input == []
    {
      assert Flat<T>([]) == [];
      NewFragment();
      iterEnd := NextChunkSize();
    }

    ghost function Value(): Status<T>
      reads this
    {
      Status(fragCapacityRemaining, chunkOffset, files, fragments)
    }

    ghost predicate Position()
      reads this
    {
      curFragment == |files| - 1 && nextChunk >= 0 && Value().Valid(boxes, typeSize)
    }

    predicate IsFinished()
      requires |cumulativeFragmentCounts| > 0
      reads this
    {
      fragCapacityRemaining == 0 && curFragment + 1 == cumulativeFragmentCounts[0]
    }

    /** Everything pushed is in a fragment or in the buffer, and the buffer has room for the next value
        unless the stream is finished. */
    ghost predicate Valid()
      reads this
    {
      && Parameters() && Position() && Flat(files) + buffer == input
      && (if IsFinished() then buffer == [] && iterEnd == 0
          else |buffer| < iterEnd && typeSize * iterEnd <= fragCapacityRemaining && iterEnd <= bufferSize)
    }

    /** Opens the next fragment. */
    method NewFragment()
      requires Parameters() && curFragment == |files| - 1 && nextChunk >= 0
      requires |files| < |boxes| && fragments == boxes[..|files|] && FilledBoxes(files, boxes)
      modifies this`curFragment, this`fragCapacityRemaining, this`chunkOffset, this`files, this`fragments
      ensures Position() && fragCapacityRemaining > 0 && Flat(files) == old(Flat(files))
    {
      curFragment := curFragment + 1;
      var cube, capacity := FragmentExtents(offset, size, typeSize, cumulativeFragmentCounts, curFragment, counts);
      PlannedBox(offset, size, counts, boxes, curFragment, cube);
      OpenNext(Value(), boxes, typeSize, cube);
      MulAtLeast(typeSize, CubeSize(cube));
      fragCapacityRemaining, chunkOffset := capacity, 0;
      files, fragments := files + [[]], fragments + [cube];
    }

    /** The number of values for the next chunk: zero exactly if no more data is expected. */
    method NextChunkSize() returns (n: int)
      requires Parameters() && Position() && (fragCapacityRemaining == 0 ==> IsFinished())
      ensures n >= 0 && (n == 0 <==> IsFinished())
      ensures n > 0 ==> typeSize * n <= fragCapacityRemaining && n <= bufferSize
      ensures !IsFinished() ==> n == AtMost(CubeSize(ObjectBox(offset, size, chunk.counts, nextChunk)), fragCapacityRemaining / typeSize)
    {
      if IsFinished() { return 0; }
      n := ChunkElements(offset, size, cumulativeChunkCounts, nextChunk, chunk);
      CutToRoom(fragCapacityRemaining, typeSize, Value().Missing(boxes), n);
      if n > fragCapacityRemaining / typeSize {
        n := fragCapacityRemaining / typeSize;
      }
    }

    /** Writes the buffered values behind those that the fragment has. */
    method WriteBuffer()
      requires typeSize >= 1 && Position() && typeSize * |buffer| <= fragCapacityRemaining
      modifies this`nextChunk, this`fragCapacityRemaining, this`chunkOffset, this`files
      ensures Position() && Flat(files) == old(Flat(files)) + buffer && nextChunk == old(nextChunk) + 1
    {
      ghost var s := Value();
      FitsIn(typeSize, |buffer|, s.Missing(boxes));
      FillLast(s, boxes, typeSize, buffer);
      var at := ElementOffset(chunkOffset, typeSize, |files[curFragment]|);
      var file := WriteAt(files[curFragment], at, buffer);
      assert file == files[curFragment] + buffer;
      var chunkBytes := typeSize * |buffer|;
      files := files[curFragment := file];
      chunkOffset := chunkOffset + chunkBytes;
      nextChunk := nextChunk + 1;
      fragCapacityRemaining := fragCapacityRemaining - chunkBytes;
    }

    /** Flushes the buffer, and opens the next fragment when this one is full. */
    method Flush()
      requires Parameters() && Position() && !IsFinished() && typeSize * |buffer| <= fragCapacityRemaining
      modifies this`curFragment, this`nextChunk, this`fragCapacityRemaining, this`chunkOffset, this`files, this`fragments
      ensures Position() && Flat(files) == old(Flat(files)) + buffer && nextChunk == old(nextChunk) + 1
      ensures fragCapacityRemaining == 0 ==> IsFinished()
    {
      WriteBuffer();
      if fragCapacityRemaining == 0 && !IsFinished() {
        FullFragment(Value(), boxes, typeSize);
        NewFragment();
      }
    }

    lemma Remaining()
      requires Valid()
      ensures IsFinished() <==> |input| == Prod(size)
      ensures |input| <= Prod(size)
    {
      var s := Value();
      s.HeldLength(boxes, typeSize);
      FitsIn(typeSize, if IsFinished() then 0 else iterEnd, s.Missing(boxes));
      if s.Missing(boxes) > 0 { MulAtLeast(typeSize, s.Missing(boxes)); }
    }

    /** The buffer holds at least one value, and its chunk still fits into the fragment. */
    ghost predicate Buffered()
      reads this
    {
      && Parameters() && Position() && Flat(files) + buffer == input && !IsFinished()
      && 0 < |buffer| <= iterEnd && typeSize * iterEnd <= fragCapacityRemaining && iterEnd <= bufferSize
    }

    method Append(value: T)
      requires Valid() && |buffer| < iterEnd
      modifies this`buffer, this`input
      ensures Buffered() && input == old(input) + [value]
    {
      buffer := buffer + [value];
      input := input + [value];
      assert Flat(files) + buffer == input;
    }

    /** Flushes a full buffer and sets up the next chunk. */
    method NextChunk()
      requires Buffered() && |buffer| == iterEnd
      modifies this
      ensures Valid() && input == old(input)
    {
      Flush();
      buffer := [];
      assert Flat(files) + buffer == Flat(files);
      iterEnd := NextChunkSize();
    }

    /** Pushes one value. Accepts exactly as many values as the region has elements, and loses none. */
    method Pack(value: T) returns (ok: bool)
      requires Valid()
      modifies this
      ensures Valid()
      ensures ok <==> old(|input|) < Prod(size)
      ensures input == if ok then old(input) + [value] else old(input)
    {
      Remaining();
      ok := |buffer| < iterEnd;
      if ok {
        Append(value);
        if |buffer| == iterEnd { NextChunk(); }
      }
    }

    /** Ends the stream, which is refused before the last value was pushed. */
    method Commit() returns (ok: bool)
      requires Valid()
      ensures ok <==> |input| == Prod(size)
      ensures ok ==> fragments == boxes && FilledBoxes(files, boxes) && |files| == |boxes| && Flat(files) == input
    {
      Remaining();
      ok := buffer == [] && IsFinished();
      if ok {
        FullFragment(Value(), boxes, typeSize);
        assert Flat(files) + buffer == Flat(files);
      }
    }
  }

  lemma FitsIn(t: int, n: int, m: int)
    requires t >= 1
    ensures t * n <= t * m <==> n <= m
  {
    if n <= m { MulMonotone(n, m, t); } else { MulStrict(m, n, t); }
  }

  lemma FullFragment<T>(s: Status<T>, boxes: seq<Cube>, typeSize: int)
    requires s.Valid(boxes, typeSize) && typeSize >= 1 && s.capacity == 0
    ensures FilledBoxes(s.files, boxes)
  {
    FitsIn(typeSize, s.Missing(boxes), 0);
    var l := |s.files| - 1;
    forall f | 0 <= f <= l ensures |s.files[f]| == CubeSize(boxes[f]) {
      if f < l { assert s.files[..l][f] == s.files[f]; }
    }
  }

  /** Starts a stream; fails only where computing the counts divides by zero. */
  method StartStream<T>(offset: seq<int>, size: seq<int>, typeSize: int, maxFragmentSize: int) returns (stream: WStream?<T>)
    requires |offset| == |size| && AllPositive(size) && typeSize >= 1 && maxFragmentSize >= 0
    ensures stream == null <==> Overdivided(size, typeSize, MAX_CHUNK_SIZE) || Overdivided(size, typeSize, maxFragmentSize)
    ensures stream != null ==> fresh(stream) && stream.Valid() && stream.Layout() && stream.input == [] && stream.size == size && stream.offset == offset
    ensures stream != null ==> stream.typeSize == typeSize && CountsFor(stream.fragment, size, typeSize, maxFragmentSize)
    ensures stream != null ==> CountsFor(stream.chunk, size, typeSize, MAX_CHUNK_SIZE)
  {
    var chunk, _ := InitCounts(typeSize, MAX_CHUNK_SIZE, size);
    if chunk.None? { return null; }
    var fragment, _ := InitCounts(typeSize, maxFragmentSize, size);
    if fragment.None? { return null; }
    stream := OpenStream(offset, size, typeSize, chunk.value, fragment.value);
  }

  method OpenStream<T>(offset: seq<int>, size: seq<int>, typeSize: int, chunk: Counts, fragment: Counts) returns (stream: WStream<T>)
    requires |offset| == |size| && AllPositive(size) && typeSize >= 1
    requires chunk.Shape(size) && chunk.Bounded(size) && fragment.Shape(size)
    ensures fresh(stream) && stream.Valid() && stream.Layout() && stream.input == [] && stream.size == size && stream.offset == offset
    ensures stream.typeSize == typeSize && stream.fragment == fragment && stream.chunk == chunk
  {
    PlannedFragments(offset, size, fragment);
    ShapeIsScheme(offset, size, chunk);
    var chunks := Accumulate(chunk.counts);
    var fragments := Accumulate(fragment.counts);
    assert fragment.counts[0..] == fragment.counts;
    var elements := MaxChunkSize(size, chunk);
    stream := new WStream<T>(offset, size, typeSize, chunk, fragment, chunks, fragments, elements, FragmentList(offset, size, fragment));
    stream.Begin();
  }

  ghost predicate Overdivided(size: seq<int>, elementSize: int, maxBytes: int) {
    exists i :: 0 <= i < |size| && Divides(size, elementSize, maxBytes, i) && maxBytes < LoopSlice(size, elementSize, i)
  }

  /** A region of 100 x 2 elements of 8 bytes with fragments of up to 512 bytes cannot be streamed. */
  lemma StartFails()
    ensures Overdivided([100, 2], 8, 512)
  {
    var size := [100, 2];
    assert size[1..1] == [] && size[0..1] == [100] && [100][1..] == [];
    assert Prod([100]) == 100 * Prod([]) == 100;
    assert LoopSlice(size, 8, 1) == 8 && LoopSlice(size, 8, 0) == 800;
    assert Divides(size, 8, 512, 0);
  }
}
