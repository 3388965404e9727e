/** Grid axes: strictly increasing interval bounds, their subdivision, and the interpolation search in them. */
module Axes {
  import opened Options
  import opened MixedRadix
  import opened Splitting

  type Bounds = seq<int>

  predicate StrictBounds(b: Bounds) {
    |b| >= 2 && forall i, j :: 0 <= i < j < |b| ==> b[i] < b[j]
  }

  predicate SameEnds(b: Bounds, c: Bounds) {
    |b| >= 2 && |c| >= 2 && b[0] == c[0] && b[|b| - 1] == c[|c| - 1]
  }

  lemma {:induction false} StepsMakeStrict(b: Bounds, i: nat, j: nat)
    requires i < j < |b| && forall k :: 0 <= k < |b| - 1 ==> b[k] < b[k + 1]
    ensures b[i] < b[j]
    decreases j
  {
    if i < j - 1 { StepsMakeStrict(b, i, j - 1); }
    assert b[j - 1] < b[j - 1 + 1];
  }

  lemma StrictFromSteps(b: Bounds)
    requires |b| >= 2 && forall k :: 0 <= k < |b| - 1 ==> b[k] < b[k + 1]
    ensures StrictBounds(b)
  {
    forall i, j | 0 <= i < j < |b| ensures b[i] < b[j] { StepsMakeStrict(b, i, j); }
  }

  /** Intervals of a fixed size; the last one may be shorter if that is allowed. */
  method SubdivideFixed(axis: Bounds, size: int, allowIncomplete: bool) returns (r: Option<Bounds>)
    requires StrictBounds(axis) && size >= 1
    ensures r.None? <==> axis[|axis| - 1] - axis[0] < size || (!allowIncomplete && (axis[|axis| - 1] - axis[0]) % size != 0)
    ensures r.Some? ==> StrictBounds(r.value) && SameEnds(axis, r.value)
    ensures r.Some? ==> forall i :: 0 <= i < |r.value| - 2 ==> r.value[i + 1] - r.value[i] == size
    ensures r.Some? ==> r.value[|r.value| - 1] - r.value[|r.value| - 2] <= size
    ensures r.Some? && !allowIncomplete ==> r.value[|r.value| - 1] - r.value[|r.value| - 2] == size
  {
    var axisSize := axis[|axis| - 1] - axis[0];
    if axisSize < size { return None; }
    if !allowIncomplete && axisSize % size != 0 { return None; }
    var intervals := (axisSize + size - 1) / size;
    FixedIntervals(axisSize, size);
    var b: Bounds := [];
    for i := 0 to intervals + 1
      invariant |b| == i && forall k :: 0 <= k < i ==> b[k] == axis[0] + FixedBound(axisSize, size, k)
    {
      b := b + [axis[0] + if size * i < axisSize then size * i else axisSize];
    }
    forall k | 0 <= k < |b| - 1
      ensures b[k] < b[k + 1] && (k < |b| - 2 ==> b[k + 1] - b[k] == size) && b[k + 1] - b[k] <= size
      ensures axisSize % size == 0 ==> b[k + 1] - b[k] == size
    {
      FixedStep(axisSize, size, k);
    }
    assert b[0] == axis[0];
    StrictFromSteps(b);
    r := Some(b);
  }

  function FixedBound(n: int, size: int, i: int): int { if size * i < n then size * i else n }

  lemma FixedStep(n: int, size: int, k: int)
    requires 1 <= size <= n && 0 <= k < (n + size - 1) / size
    ensures FixedBound(n, size, k) < FixedBound(n, size, k + 1) <= FixedBound(n, size, k) + size
    ensures k + 1 < (n + size - 1) / size || n % size == 0 ==> FixedBound(n, size, k + 1) == FixedBound(n, size, k) + size
  {
    FixedIntervals(n, size);
    var m := (n + size - 1) / size;
    MulMonotone(k, m - 1, size);
    assert size * (k + 1) == size * k + size;
    assert size * (m - 1) == size * m - size;
    if k + 1 < m { MulMonotone(k + 1, m - 1, size); }
  }

  lemma FixedIntervals(n: int, size: int)
    requires 1 <= size <= n
    ensures var m := (n + size - 1) / size; m >= 1 && size * (m - 1) < n <= size * m && (n % size == 0 ==> n == size * m)
  {
    var m := (n + size - 1) / size;
    CeilDiv(n, size);
    assert n + size - 1 == m * size + (n + size - 1) % size;
    assert size * (m - 1) == m * size - size;
    if n % size == 0 {
      assert n == (n / size) * size;
      DivModOf(n / size, size, size - 1);
    }
  }

  /** A given number of intervals of nearly the same size. */
  method SubdivideFlexible(axis: Bounds, count: int) returns (r: Option<Bounds>)
    requires StrictBounds(axis) && count >= 1
    ensures r.None? <==> axis[|axis| - 1] - axis[0] < count
    ensures r.Some? ==> StrictBounds(r.value) && SameEnds(axis, r.value) && |r.value| == count + 1
    ensures r.Some? ==> forall k :: 0 <= k <= count ==> r.value[k] == axis[0] + Cut(axis[|axis| - 1] - axis[0], count, k)
    ensures r.Some? ==> forall i, j :: 0 <= i < count && 0 <= j < count ==> r.value[i + 1] - r.value[i] <= r.value[j + 1] - r.value[j] + 1
  {
    var axisSize := axis[|axis| - 1] - axis[0];
    if axisSize < count { return None; }
    var b: Bounds := [];
    for i := 0 to count + 1
      invariant |b| == i && forall k :: 0 <= k < i ==> b[k] == axis[0] + Cut(axisSize, count, k)
    {
      assert axisSize * i == i * axisSize;
      b := b + [axis[0] + axisSize * i / count];
    }
    forall k | 0 <= k < |b| - 1 ensures b[k] < b[k + 1] { PieceSize(axisSize, count, k, 1); }
    StrictFromSteps(b);
    CutEnds(axisSize, count);
    forall i, j | 0 <= i < count && 0 <= j < count ensures b[i + 1] - b[i] <= b[j + 1] - b[j] + 1 {
      NearlyEqualPieces(axisSize, count, i, j);
    }
    r := Some(b);
  }

  /** Bounds given by the caller. */
  method Subdivide(axis: Bounds, bounds: Bounds) returns (r: Option<Bounds>)
    requires StrictBounds(axis) && |bounds| >= 2
    ensures r.Some? <==> StrictBounds(bounds) && SameEnds(axis, bounds)
    ensures r.Some? ==> r.value == bounds
  {
    if bounds[0] != axis[0] { return None; }
    if bounds[|bounds| - 1] != axis[|axis| - 1] { return None; }
    for i := 0 to |bounds| - 1
      invariant forall k :: 0 <= k < i ==> bounds[k] < bounds[k + 1]
    {
      if bounds[i] >= bounds[i + 1] { return None; }
    }
    StrictFromSteps(bounds);
    r := Some(bounds);
  }

  // ----- lookup

  /** Interval i holds x. */
  predicate InInterval(b: Bounds, i: int, x: int) {
    0 <= i < |b| - 1 && b[i] <= x < b[i + 1]
  }

  lemma IntervalUnique(b: Bounds, i: int, j: int, x: int)
    requires StrictBounds(b) && InInterval(b, i, x) && InInterval(b, j, x)
    ensures i == j
  {
  }

  /** The interpolated index lies between the ends. */
  lemma Interpolated(n: int, x: int, w: int)
    requires n >= 1 && 0 <= x < w
    ensures 0 <= n * x / w <= n
  {
    MulMonotone(0, x, n);
    MulMonotone(x, w, n);
    assert n * x == x * n && n * w == w * n;
    DivAtMost(n * x, w, n);
    DivAtMost(n * x, w, -1);
    assert (n + 1) * w == n * w + w;
  }

  /** Search by interpolation: the interval that holds the location, or -1 outside of the axis. */
  method FindInterval(b: Bounds, location: int) returns (r: int)
    requires StrictBounds(b)
    ensures r == -1 <==> location < b[0] || location >= b[|b| - 1]
    ensures r != -1 ==> InInterval(b, r, location)
  {
    if location < b[0] || location >= b[|b| - 1] { return -1; }
    var start, end := 0, |b| - 1;
    while start + 1 < end
      invariant 0 <= start < end < |b| && b[start] <= location < b[end]
      decreases end - start
    {
      Interpolated(end - start, location - b[start], b[end] - b[start]);
      var mid := start + (end - start) * (location - b[start]) / (b[end] - b[start]);
      if mid == start { mid := mid + 1; } else if mid == end { mid := mid - 1; }
      if b[mid] > location { end := mid; } else { start := mid; }
    }
    r := start;
  }

  /** The interval that holds a whole range, or -1; isShort if the range is only a part of it. */
  method MatchInterval(b: Bounds, start: int, end: int) returns (r: int, isShort: bool)
    requires StrictBounds(b)
    ensures r == -1 <==> !exists i :: 0 <= i < |b| - 1 && b[i] <= start < end <= b[i + 1]
    ensures r != -1 ==> 0 <= r < |b| - 1 && b[r] <= start < end <= b[r + 1]
    ensures isShort <==> r != -1 && (b[r] != start || b[r + 1] != end)
  {
    if start >= end { return -1, false; }
    if start < b[0] || end > b[|b| - 1] { return -1, false; }
    r := FindInterval(b, start);
    if r < 0 { return -1, false; }
    if end > b[r + 1] {
      forall i | 0 <= i < |b| - 1 && b[i] <= start < end <= b[i + 1] ensures false { IntervalUnique(b, i, r, start); }
      return -1, false;
    }
    isShort := start > b[r] || end < b[r + 1];
  }
}
