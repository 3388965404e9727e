/** Executing a copy plan: a flat odometer over two pointers that moves one contiguous chunk per step. */
module CopyExec {
  import opened MixedRadix
  import opened Dataspaces
  import opened CopyPlan

  // ----- the loop as a function of the number of chunks moved

  function Blit<T>(dest: seq<T>, d: int, src: seq<T>, s: int, len: int): (r: seq<T>)
    requires 0 <= len && 0 <= d && d + len <= |dest| && 0 <= s && s + len <= |src|
    ensures |r| == |dest|
    ensures forall a :: 0 <= a < |dest| ==> r[a] == if d <= a < d + len then src[s + (a - d)] else dest[a]
  {
    dest[..d] + src[s..s + len] + dest[d + len..]
  }

  /** A family of chunks: one per index vector, at a fixed base plus the strides. */
  datatype Chunks = Chunks(base: int, stride: seq<int>) {
    ghost predicate Fits(size: seq<int>, len: int, limit: int) {
      && |stride| == |size|
      && forall k :: InBox(k, size) ==> 0 <= base + Dot(k, stride) && base + Dot(k, stride) + len <= limit
    }

    function At(k: seq<int>): int
      requires |k| == |stride|
    {
      base + Dot(k, stride)
    }
  }

  /** A copy job: the initial destination, the source, and where chunk k of each is. */
  datatype Job<T> = Job(dest: seq<T>, to: Chunks, src: seq<T>, from: Chunks, size: seq<int>, len: int) {
    ghost predicate Valid() {
      AllPositive(size) && 0 <= len && to.Fits(size, len, |dest|) && from.Fits(size, len, |src|)
    }

    /** The destination after the first r chunks. */
    ghost function After(r: int): (result: seq<T>)
      requires Valid() && 0 <= r <= Prod(size)
      ensures |result| == |dest|
      decreases r
    {
      if r == 0 then dest
      else
        RankUnrank(r - 1, size);
        var k := Unrank(r - 1, size);
        Blit(After(r - 1), to.At(k), src, from.At(k), len)
    }

    ghost function Result(): (result: seq<T>)
      requires Valid()
      ensures |result| == |dest|
    {
      ProdPositive(size);
      After(Prod(size))
    }

    lemma Step(k: seq<int>, r: int)
      requires Valid() && InBox(k, size) && r == Rank(k, size)
      ensures 0 <= r < Prod(size)
      ensures 0 <= to.At(k) && to.At(k) + len <= |dest| && 0 <= from.At(k) && from.At(k) + len <= |src|
      ensures Blit(After(r), to.At(k), src, from.At(k), len) == After(r + 1)
    {
      RankBounds(k, size);
      UnrankRank(k, size);
    }

    /** Address a lies in the chunk of index vector k. */
    predicate Reaches(k: seq<int>, a: int)
      requires |k| == |to.stride|
    {
      to.At(k) <= a < to.At(k) + len
    }

    /** x is the byte that the chunk of index vector k brings to address a. */
    ghost predicate Brings(k: seq<int>, a: int, x: T) {
      && |to.stride| == |from.stride| == |size| && InBox(k, size) && Reaches(k, a)
      && 0 <= from.At(k) + (a - to.At(k)) < |src| && x == src[from.At(k) + (a - to.At(k))]
    }

    /** None of the first r chunks covers address a. */
    ghost predicate Unreached(r: int, a: int)
      requires |size| == |to.stride|
    {
      forall l :: InBox(l, size) && Rank(l, size) < r ==> !Reaches(l, a)
    }

    lemma LastChunkAt(r: int, a: nat, l: seq<int>)
      requires Valid() && 0 < r <= Prod(size) && a < |dest| && l == Unrank(r - 1, size) && InBox(l, size)
      ensures if Reaches(l, a) then Brings(l, a, After(r)[a]) else After(r)[a] == After(r - 1)[a]
    {}

    /** What the first r chunks leave at address a: a byte of the last chunk that covers it, or the old byte if none does. */
    lemma {:induction false} ByteAfter(r: int, a: nat) returns (hit: bool, k: seq<int>)
      requires Valid() && 0 <= r <= Prod(size) && a < |dest|
      ensures hit ==> Brings(k, a, After(r)[a])
      ensures !hit ==> After(r)[a] == dest[a] && Unreached(r, a)
      decreases r
    {
      if r == 0 {
        hit, k := false, [];
        forall l | InBox(l, size) ensures Rank(l, size) >= 0 { RankBounds(l, size); }
      } else {
        RankUnrank(r - 1, size);
        var l := Unrank(r - 1, size);
        assert Rank(l, size) == r - 1;
        LastChunkAt(r, a, l);
        if Reaches(l, a) {
          hit, k := true, l;
        } else {
          hit, k := ByteAfter(r - 1, a);
          if !hit { NoneReaches(r, a, l); }
        }
      }
    }

    /** What all chunks leave at address a. */
    lemma ByteOfResult(a: nat) returns (hit: bool, k: seq<int>)
      requires Valid() && a < |dest|
      ensures hit ==> Brings(k, a, Result()[a])
      ensures !hit ==> Result()[a] == dest[a] && forall l :: InBox(l, size) ==> !Reaches(l, a)
    {
      ProdPositive(size);
      hit, k := ByteAfter(Prod(size), a);
      forall l | InBox(l, size) ensures Rank(l, size) < Prod(size) { RankBounds(l, size); }
    }

    lemma NoneReaches(r: int, a: nat, l: seq<int>)
      requires |size| == |to.stride| && InBox(l, size) && Rank(l, size) == r - 1 && !Reaches(l, a) && Unreached(r - 1, a)
      ensures Unreached(r, a)
    {
      forall m | InBox(m, size) && Rank(m, size) < r ensures !Reaches(m, a) {
        if Rank(m, size) == r - 1 { RankInjective(m, l, size); }
      }
    }
  }

  // ----- pointer arithmetic of the odometer

  lemma DotCarried(k: seq<int>, st: seq<int>, i: nat)
    requires |k| == |st| && i < |k|
    ensures Dot(Carried(k, i), st) == Dot(k[..i], st[..i]) + k[i] * st[i] + st[i]
  {
    var x, y, z := k[..i], [k[i] + 1], Zeros(|k| - i - 1);
    var sx, sy, sz := st[..i], [st[i]], st[i + 1..];
    assert Carried(k, i) == x + y + z && st == sx + sy + sz;
    DotConcat(x + y, z, sx + sy, sz);
    DotConcat(x, y, sx, sy);
    DotZeros(|k| - i - 1, sz);
    DotOne(k[i] + 1, st[i]);
    assert (k[i] + 1) * st[i] == k[i] * st[i] + st[i];
  }

  lemma DotOne(x: int, y: int)
    ensures Dot([x], [y]) == x * y
  {
    assert [x][..0] == [] && [y][..0] == [];
  }

  /** Where a pointer is when the dimensions from i on have overflowed. */
  ghost function Pending(chunks: Chunks, size: seq<int>, k: seq<int>, i: nat): int
    requires |chunks.stride| == |size| == |k| && i <= |k|
  {
    chunks.base + Dot(k[..i], chunks.stride[..i]) + if i < |k| then size[i] * chunks.stride[i] else 0
  }

  lemma PendingStep(chunks: Chunks, size: seq<int>, rel: seq<int>, k: seq<int>, i: nat)
    requires |size| == |k| && i < |k| && IsRelative(rel, size, chunks.stride)
    ensures Pending(chunks, size, k, i + 1) + rel[i] == chunks.At(Carried(k, i))
    ensures k[i] + 1 == size[i] ==> Pending(chunks, size, k, i + 1) + rel[i] == Pending(chunks, size, k, i)
  {
    var st := chunks.stride;
    DotCarried(k, st, i);
    DotTake(k, st, i);
    assert rel[i] == RelativeStride(size, st, i);
    assert Pending(chunks, size, k, i + 1) + rel[i] == chunks.base + Dot(k[..i], st[..i]) + k[i] * st[i] + st[i];
    if k[i] + 1 == size[i] {
      assert (k[i] + 1) * st[i] == k[i] * st[i] + st[i];
    }
  }

  /** Advances the counters and both pointers to the next chunk; done when every counter overflows. */
  method Advance(size: seq<int>, relSource: seq<int>, relDest: seq<int>, counters: seq<int>, s: int, d: int, ghost from: Chunks, ghost to: Chunks)
    returns (next: seq<int>, s': int, d': int, done: bool)
    requires InBox(counters, size)
    requires IsRelative(relSource, size, from.stride) && IsRelative(relDest, size, to.stride)
    requires s == from.At(counters) && d == to.At(counters)
    ensures done ==> Rank(counters, size) == Prod(size) - 1
    ensures !done ==> InBox(next, size) && Rank(next, size) == Rank(counters, size) + 1
    ensures !done ==> s' == from.At(next) && d' == to.At(next)
  {
    next, s', d' := counters, s, d;
    var i := |size|;
    assert counters[..i] == counters && from.stride[..i] == from.stride && to.stride[..i] == to.stride;
    while i > 0
      invariant 0 <= i <= |size| == |next|
      invariant forall m :: i <= m < |size| ==> counters[m] == size[m] - 1 && next[m] == 0
      invariant forall m :: 0 <= m < i ==> next[m] == counters[m]
      invariant s' == Pending(from, size, counters, i)
      invariant d' == Pending(to, size, counters, i)
    {
      i := i - 1;
      PendingStep(from, size, relSource, counters, i);
      PendingStep(to, size, relDest, counters, i);
      s', d' := s' + relSource[i], d' + relDest[i];
      next := next[i := next[i] + 1];
      if next[i] < size[i] {
        assert next == Carried(counters, i);
        RankCarried(counters, size, i);
        return next, s', d', false;
      }
      next := next[i := 0];
    }
    RankLast(counters, size);
    done := true;
  }

  method Memcpy<T>(dest: array<T>, d: int, src: array<T>, s: int, len: int)
    requires dest != src && 0 <= len && 0 <= d && d + len <= dest.Length && 0 <= s && s + len <= src.Length
    modifies dest
    ensures dest[..] == Blit(old(dest[..]), d, src[..], s, len)
  {
    for i := 0 to len
      invariant forall a :: 0 <= a < dest.Length ==> dest[a] == if d <= a < d + i then src[s + (a - d)] else old(dest[a])
    {
      dest[d + i] := src[s + i];
    }
    assert src[..] == old(src[..]);
  }

  /** One step of the loop moves one chunk. */
  method MoveChunk<T>(dest: array<T>, d: int, src: array<T>, s: int, len: int, ghost job: Job<T>, ghost k: seq<int>, ghost r: int)
    requires src != dest && job.Valid() && InBox(k, job.size) && 0 <= r <= Prod(job.size) && r == Rank(k, job.size)
    requires src[..] == job.src && dest[..] == job.After(r)
    requires s == job.from.At(k) && d == job.to.At(k) && len == job.len
    modifies dest
    ensures r < Prod(job.size) && dest[..] == job.After(r + 1)
  {
    job.Step(k, r);
    Memcpy(dest, d, src, s, len);
  }

  /** The odometer stands at chunk k, and both pointers with it. */
  ghost predicate PointsTo<T>(job: Job<T>, k: seq<int>, s: int, d: int)
    requires job.Valid()
  {
    InBox(k, job.size) && s == job.from.At(k) && d == job.to.At(k)
  }

  /** One turn of the loop: it moves chunk number r and goes to the next, two things that do not affect each other. */
  method Turn<T>(plan: Plan, src: array<T>, dest: array<T>, counters: seq<int>, s: int, d: int, ghost job: Job<T>, ghost r: int)
    returns (next: seq<int>, s': int, d': int, done: bool)
    requires src != dest && job.Valid() && plan.size == job.size && plan.chunkBytes == job.len && src[..] == job.src
    requires IsRelative(plan.relSource, plan.size, job.from.stride) && IsRelative(plan.relDest, plan.size, job.to.stride)
    requires PointsTo(job, counters, s, d) && r == Rank(counters, job.size) && 0 <= r <= Prod(job.size) && dest[..] == job.After(r)
    modifies dest
    ensures r < Prod(job.size) && dest[..] == job.After(r + 1)
    ensures done ==> r + 1 == Prod(job.size)
    ensures !done ==> PointsTo(job, next, s', d') && Rank(next, job.size) == r + 1
  {
    next, s', d', done := Advance(plan.size, plan.relSource, plan.relDest, counters, s, d, job.from, job.to);
    MoveChunk(dest, d, src, s, plan.chunkBytes, job, counters, r);
  }

  /** The fused-chunk odometer loop. */
  method Execute<T>(plan: Plan, src: array<T>, sBase: int, dest: array<T>, dBase: int, ghost job: Job<T>)
    requires src != dest && job.Valid()
    requires dest[..] == job.dest && src[..] == job.src && plan.size == job.size && plan.chunkBytes == job.len
    requires job.from.base == sBase + plan.sourceOffset && job.to.base == dBase + plan.destOffset
    requires IsRelative(plan.relSource, plan.size, job.from.stride) && IsRelative(plan.relDest, plan.size, job.to.stride)
    modifies dest
    ensures dest[..] == job.Result()
  {
    var s, d, done := sBase + plan.sourceOffset, dBase + plan.destOffset, false;
    var counters := Zeros(|plan.size|);
    StartOfRun(plan.size, job.from, job.to);
    ghost var r := 0;
    while !done
      invariant src[..] == job.src && 0 <= r <= Prod(job.size) && dest[..] == job.After(r)
      invariant if done then r == Prod(job.size) else PointsTo(job, counters, s, d) && r == Rank(counters, job.size)
      decreases Prod(job.size) - r, !done
    {
      counters, s, d, done := Turn(plan, src, dest, counters, s, d, job, r);
      r := r + 1;
    }
  }

  lemma StartOfRun(n: seq<int>, from: Chunks, to: Chunks)
    requires AllPositive(n) && |from.stride| == |to.stride| == |n|
    ensures from.At(Zeros(|n|)) == from.base && to.At(Zeros(|n|)) == to.base
    ensures Rank(Zeros(|n|), n) == 0 && Prod(n) >= 1
  {
    DotZeros(|n|, from.stride);
    DotZeros(|n|, to.stride);
    RankZeros(n);
    ProdPositive(n);
  }
}
