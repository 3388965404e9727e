/** The neighbour manager: an index over the bounds of all cubes that finds the cubes touching a new one. */
module Neighbours {
  import opened Geometry
  import opened BoundLists
  import opened BoundTreeOps

  // ----- either implementation of the bound list

  datatype BoundList = AsTree(tree: BoundTree) | AsArray(arr: BoundArray) {
    ghost function Repr(): set<object> {
      if AsTree? then {tree} else {arr}
    }

    ghost function Contents(): seq<Entry>
      reads Repr()
    {
      if AsTree? then tree.Contents() else arr.entries
    }

    ghost predicate Valid()
      reads Repr()
    {
      (AsTree? ==> tree.Valid()) && (AsArray? ==> Sorted(arr.entries))
    }

    method Add(bound: int, isStart: bool, cube: int)
      requires Valid()
      modifies Repr()
      ensures Valid()
      ensures multiset(Contents()) == old(multiset(Contents())) + multiset{Entry(Bake(bound, isStart), cube)}
    {
      ghost var before := Contents();
      ghost var p;
      if AsTree? { p := tree.Add(bound, isStart, cube); } else { p := arr.Add(bound, isStart, cube); }
      InsertMultiset(before, p, Entry(Bake(bound, isStart), cube));
    }

    /** The entries with the bound, by iteration. */
    method Enumerate(bound: int, isStart: bool) returns (found: seq<Entry>)
      requires Valid()
      ensures found == Run(Contents(), Bake(bound, isStart))
    {
      if AsTree? { found := tree.Enumerate(bound, isStart); } else { found := arr.Enumerate(bound, isStart); }
    }
  }

  // ----- what the lists hold

  /** e is the start or the end bound of a cube in dimension d. */
  ghost predicate IsBoundOf(cubes: seq<Cube>, d: nat, e: Entry) {
    0 <= e.cube < |cubes| && d < |cubes[e.cube]|
    && (e.key == Bake(cubes[e.cube][d].start, true) || e.key == Bake(cubes[e.cube][d].end, false))
  }

  /** Each bound of each cube is in the list once, and nothing else is. */
  ghost predicate Lists(s: seq<Entry>, cubes: seq<Cube>, d: nat) {
    forall e :: multiset(s)[e] == if IsBoundOf(cubes, d, e) then 1 else 0
  }

  lemma NoTwins(s: seq<Entry>, x: nat, y: nat)
    requires x < y < |s| && s[x] == s[y]
    ensures multiset(s)[s[x]] >= 2
  {
    assert s == s[..x] + [s[x]] + s[x + 1..y] + [s[y]] + s[y + 1..];
  }

  lemma IndexOf(s: seq<Entry>, e: Entry) returns (x: nat)
    requires multiset(s)[e] >= 1
    ensures x < |s| && s[x] == e
  {
    assert e in multiset(s);
    x :| 0 <= x < |s| && s[x] == e;
  }

  // ----- neighbour lists as counts

  ghost function Count(l: seq<int>, j: int): nat { multiset(l)[j] }

  lemma CountAppend(l: seq<int>, x: int, j: int)
    ensures Count(l + [x], j) == Count(l, j) + if x == j then 1 else 0
  {}

  /** Cubes a and b touch and share a bound in a dimension below d. */
  ghost predicate FoundBelow(a: Cube, b: Cube, d: int)
    requires |a| == |b|
  {
    Touches(a, b) && exists k :: 0 <= k < d && k < |a| && SharesBound(a[k], b[k])
  }

  lemma FoundBelowAll(a: Cube, b: Cube)
    requires |a| == |b|
    ensures FoundBelow(a, b, |a|) <==> Touches(a, b)
    ensures !FoundBelow(a, b, 0)
  {
    if Touches(a, b) {
      var d :| 0 <= d < |a| && BoundDim(a, b, d);
      assert SharesBound(a[d], b[d]);
    }
  }

  /** Dimension d contributes a touching pair exactly when it is the shared dimension. */
  lemma FoundBelowStep(a: Cube, b: Cube, d: nat)
    requires |a| == |b| && d < |a|
    ensures FoundBelow(a, b, d + 1) <==> FoundBelow(a, b, d) || (Touches(a, b) && SharesBound(a[d], b[d]))
    ensures !(FoundBelow(a, b, d) && SharesBound(a[d], b[d]))
  {
    if Touches(a, b) {
      var k :| 0 <= k < |a| && BoundDim(a, b, k);
      assert forall l :: 0 <= l < |a| ==> (SharesBound(a[l], b[l]) <==> l == k);
    }
  }

  // ----- one scan over the entries with a given bound

  predicate HasBound(c: Cube, d: nat, bound: int, isStart: bool)
    requires d < |c|
  {
    if isStart then c[d].start == bound else c[d].end == bound
  }

  /** found holds the bounds of the first n cubes that have this bound, once each. */
  ghost predicate ListsBound(found: seq<Entry>, cubes: seq<Cube>, n: nat, d: nat, bound: int, isStart: bool)
    requires n <= |cubes| && forall i :: 0 <= i < n ==> d < |cubes[i]|
  {
    forall e: Entry ::
      multiset(found)[e] == if e.key == Bake(bound, isStart) && 0 <= e.cube < n && HasBound(cubes[e.cube], d, bound, isStart) then 1 else 0
  }

  /** Cube j is the cube of one of the first p entries. */
  ghost predicate Seen(found: seq<Entry>, p: int, j: int) {
    exists x :: 0 <= x < |found| && x < p && found[x].cube == j
  }

  lemma SeenStep(found: seq<Entry>, p: nat, j: int)
    requires p < |found|
    ensures Seen(found, p + 1, j) <==> Seen(found, p, j) || found[p].cube == j
  {
    if Seen(found, p, j) {
      var x :| 0 <= x < |found| && x < p && found[x].cube == j;
      assert x < p + 1;
    }
  }

  /** Entry p is the bound of a cube not seen before. */
  lemma NextIsNew(found: seq<Entry>, cubes: seq<Cube>, n: nat, d: nat, bound: int, isStart: bool, p: nat)
    requires n <= |cubes| && (forall i :: 0 <= i < n ==> d < |cubes[i]|) && ListsBound(found, cubes, n, d, bound, isStart) && p < |found|
    ensures 0 <= found[p].cube < n && !Seen(found, p, found[p].cube)
  {
    assert found[p] in multiset(found);
    if Seen(found, p, found[p].cube) {
      var x :| 0 <= x < |found| && x < p && found[x].cube == found[p].cube;
      assert found[x] in multiset(found);
      assert found[x] == found[p];
      NoTwins(found, x, p);
    }
  }

  /** In the end exactly the cubes with the bound have been seen. */
  lemma AllSeen(found: seq<Entry>, cubes: seq<Cube>, n: nat, d: nat, bound: int, isStart: bool, j: int)
    requires n <= |cubes| && (forall i :: 0 <= i < n ==> d < |cubes[i]|) && ListsBound(found, cubes, n, d, bound, isStart)
    ensures Seen(found, |found|, j) <==> 0 <= j < n && HasBound(cubes[j], d, bound, isStart)
  {
    if Seen(found, |found|, j) {
      var x :| 0 <= x < |found| && found[x].cube == j;
      assert found[x] in multiset(found);
    }
    if 0 <= j < n && HasBound(cubes[j], d, bound, isStart) {
      var x := IndexOf(found, Entry(Bake(bound, isStart), j));
    }
  }

  /** The neighbour lists while a scan for cube n is under way. */
  ghost predicate Scanning(before: seq<seq<int>>, now: seq<seq<int>>, cubes: seq<Cube>, n: nat, found: seq<Entry>, p: int)
    requires n < |cubes| && forall i :: 0 <= i < n ==> |cubes[i]| == |cubes[n]|
  {
    && |now| == |before| == n + 1
    && (forall i :: 0 <= i < n ==> now[i] == if Touches(cubes[n], cubes[i]) && Seen(found, p, i) then before[i] + [n] else before[i])
    && (forall j :: Count(now[n], j) == Count(before[n], j) + if 0 <= j < n && Touches(cubes[n], cubes[j]) && Seen(found, p, j) then 1 else 0)
  }

  lemma ScanStep(before: seq<seq<int>>, now: seq<seq<int>>, next: seq<seq<int>>, cubes: seq<Cube>, n: nat, found: seq<Entry>, p: nat)
    requires n < |cubes| && forall i :: 0 <= i < n ==> |cubes[i]| == |cubes[n]|
    requires Scanning(before, now, cubes, n, found, p) && p < |found|
    requires 0 <= found[p].cube < n && !Seen(found, p, found[p].cube)
    requires next == if Touches(cubes[n], cubes[found[p].cube])
      then now[n := now[n] + [found[p].cube]][found[p].cube := now[found[p].cube] + [n]] else now
    ensures Scanning(before, next, cubes, n, found, p + 1)
  {
    forall j ensures Seen(found, p + 1, j) <==> Seen(found, p, j) || found[p].cube == j { SeenStep(found, p, j); }
    forall j ensures Count(now[n] + [found[p].cube], j) == Count(now[n], j) + if found[p].cube == j then 1 else 0 {
      CountAppend(now[n], found[p].cube, j);
    }
  }

  // ----- the manager

  /** j is in the list of i once if the cubes touch, and not at all otherwise. */
  ghost predicate NeighboursOk(cubes: seq<Cube>, nb: seq<seq<int>>, dims: nat) {
    && |nb| == |cubes| && (forall i :: 0 <= i < |cubes| ==> |cubes[i]| == dims)
    && forall i, j {:trigger Count(nb[i], j)} :: 0 <= i < |cubes| ==> Count(nb[i], j) == if 0 <= j < |cubes| && Touches(cubes[i], cubes[j]) then 1 else 0
  }

  /** What a scan for cube n adds to the neighbour lists: it and the cubes that touch it and have the bound. */
  ghost predicate Scanned(before: seq<seq<int>>, after: seq<seq<int>>, cubes: seq<Cube>, n: nat, d: nat, bound: int, isStart: bool)
    requires n < |cubes| && d < |cubes[n]| && forall i :: 0 <= i < n ==> |cubes[i]| == |cubes[n]|
  {
    && |after| == |before| == n + 1
    && (forall i :: 0 <= i < n ==>
          after[i] == if Touches(cubes[n], cubes[i]) && HasBound(cubes[i], d, bound, isStart) then before[i] + [n] else before[i])
    && (forall j :: Count(after[n], j) == Count(before[n], j)
          + if 0 <= j < n && Touches(cubes[n], cubes[j]) && HasBound(cubes[j], d, bound, isStart) then 1 else 0)
  }

  lemma ScanDone(before: seq<seq<int>>, now: seq<seq<int>>, cubes: seq<Cube>, n: nat, found: seq<Entry>, d: nat, bound: int, isStart: bool)
    requires n < |cubes| && d < |cubes[n]| && forall i :: 0 <= i < n ==> |cubes[i]| == |cubes[n]|
    requires Scanning(before, now, cubes, n, found, |found|) && ListsBound(found, cubes, n, d, bound, isStart)
    ensures Scanned(before, now, cubes, n, d, bound, isStart)
  {
    forall j ensures Seen(found, |found|, j) <==> 0 <= j < n && HasBound(cubes[j], d, bound, isStart) {
      AllSeen(found, cubes, n, d, bound, isStart, j);
    }
  }

  /** Tests every cube with the bound for contact with cube n; on contact both get a new neighbour. */
  method Scan(list: BoundList, cubes: seq<Cube>, before: seq<seq<int>>, ghost d: nat, n: nat, bound: int, isStart: bool) returns (neighbours: seq<seq<int>>)
    requires n + 1 == |cubes| == |before| && d < |cubes[n]| && (forall i :: 0 <= i < n ==> |cubes[i]| == |cubes[n]|)
    requires list.Valid() && ListsBound(Run(list.Contents(), Bake(bound, isStart)), cubes, n, d, bound, isStart)
    ensures Scanned(before, neighbours, cubes, n, d, bound, isStart)
  {
    var found := list.Enumerate(bound, isStart);
    neighbours := before;
    for p := 0 to |found|
      invariant Scanning(before, neighbours, cubes, n, found, p)
    {
      NextIsNew(found, cubes, n, d, bound, isStart, p);
      neighbours := ScanEntry(cubes, neighbours, n, found[p].cube, before, found, p);
    }
    ScanDone(before, neighbours, cubes, n, found, d, bound, isStart);
  }

  /** Tests one cube for contact. */
  method ScanEntry(cubes: seq<Cube>, now: seq<seq<int>>, n: nat, other: nat, ghost before: seq<seq<int>>, ghost found: seq<Entry>, ghost p: nat)
    returns (neighbours: seq<seq<int>>)
    requires n < |cubes| && forall i :: 0 <= i < n ==> |cubes[i]| == |cubes[n]|
    requires Scanning(before, now, cubes, n, found, p) && p < |found|
    requires other == found[p].cube < n && !Seen(found, p, other)
    ensures Scanning(before, neighbours, cubes, n, found, p + 1)
  {
    neighbours := now;
    var touching := CheckTouches(cubes[n], cubes[other]);
    if touching {
      neighbours := neighbours[n := neighbours[n] + [other]];
      neighbours := neighbours[other := neighbours[other] + [n]];
    }
    ScanStep(before, now, neighbours, cubes, n, found, p);
  }

  // ----- adding a cube, dimension by dimension

  lemma FirstScanLists(s: seq<Entry>, cubes: seq<Cube>, n: nat, d: nat, bound: int)
    requires n < |cubes| && (forall i :: 0 <= i < |cubes| ==> d < |cubes[i]|) && Lists(s, cubes[..n], d)
    ensures ListsBound(Run(s, Bake(bound, false)), cubes, n, d, bound, false)
  {
    var k := Bake(bound, false);
    forall e: Entry
      ensures multiset(Run(s, k))[e] == if e.key == k && 0 <= e.cube < n && HasBound(cubes[e.cube], d, bound, false) then 1 else 0
    {
      if e.key == k { RunMultiset(s, e); } else { RunHasKey(s, k, e); }
      if 0 <= e.cube < n {
        assert cubes[..n][e.cube] == cubes[e.cube];
        BakeInjective(cubes[e.cube][d].start, true, bound, false);
        BakeInjective(cubes[e.cube][d].end, false, bound, false);
      }
    }
  }

  lemma SecondScanLists(s: seq<Entry>, t: seq<Entry>, cubes: seq<Cube>, n: nat, d: nat)
    requires n < |cubes| && (forall i :: 0 <= i < |cubes| ==> d < |cubes[i]|) && Lists(s, cubes[..n], d) && !cubes[n][d].IsEmpty()
    requires multiset(t) == multiset(s) + multiset{Entry(Bake(cubes[n][d].start, true), n)}
    ensures ListsBound(Run(t, Bake(cubes[n][d].end, true)), cubes, n, d, cubes[n][d].end, true)
  {
    var bound := cubes[n][d].end;
    var k := Bake(bound, true);
    BakeInjective(cubes[n][d].start, true, bound, true);
    forall e: Entry
      ensures multiset(Run(t, k))[e] == if e.key == k && 0 <= e.cube < n && HasBound(cubes[e.cube], d, bound, true) then 1 else 0
    {
      if e.key == k { RunMultiset(t, e); } else { RunHasKey(t, k, e); }
      if 0 <= e.cube < n {
        assert cubes[..n][e.cube] == cubes[e.cube];
        BakeInjective(cubes[e.cube][d].start, true, bound, true);
        BakeInjective(cubes[e.cube][d].end, false, bound, true);
      }
    }
  }

  lemma BothAdded(s: seq<Entry>, t: seq<Entry>, cubes: seq<Cube>, n: nat, d: nat)
    requires n + 1 == |cubes| && (forall i :: 0 <= i < |cubes| ==> d < |cubes[i]|) && Lists(s, cubes[..n], d)
    requires multiset(t) == multiset(s) + multiset{Entry(Bake(cubes[n][d].start, true), n)} + multiset{Entry(Bake(cubes[n][d].end, false), n)}
    ensures Lists(t, cubes, d)
  {
    BakeInjective(cubes[n][d].start, true, cubes[n][d].end, false);
    forall e ensures multiset(t)[e] == if IsBoundOf(cubes, d, e) then 1 else 0 {
      assert multiset(s)[e] == if IsBoundOf(cubes[..n], d, e) then 1 else 0;
      if 0 <= e.cube < n { assert cubes[..n][e.cube] == cubes[e.cube]; }
    }
  }

  /** The neighbour lists after the first d dimensions. */
  ghost predicate Pushed(before: seq<seq<int>>, now: seq<seq<int>>, cubes: seq<Cube>, n: nat, d: int)
    requires n < |cubes| && forall i :: 0 <= i < n ==> |cubes[i]| == |cubes[n]|
  {
    && |before| == n && |now| == n + 1
    && (forall i :: 0 <= i < n ==> now[i] == if FoundBelow(cubes[n], cubes[i], d) then before[i] + [n] else before[i])
    && (forall j :: Count(now[n], j) == if 0 <= j < n && FoundBelow(cubes[n], cubes[j], d) then 1 else 0)
  }

  lemma PushedStart(before: seq<seq<int>>, cubes: seq<Cube>, n: nat)
    requires n < |cubes| && (forall i :: 0 <= i < n ==> |cubes[i]| == |cubes[n]|) && |before| == n
    ensures Pushed(before, before + [[]], cubes, n, 0)
  {
    forall i | 0 <= i < n ensures !FoundBelow(cubes[n], cubes[i], 0) { FoundBelowAll(cubes[n], cubes[i]); }
  }

  /** The two scans of dimension d find the touching cubes that share a bound in it. */
  lemma PushedStep(before: seq<seq<int>>, now: seq<seq<int>>, mid: seq<seq<int>>, next: seq<seq<int>>, cubes: seq<Cube>, n: nat, d: nat)
    requires n < |cubes| && d < |cubes[n]| && forall i :: 0 <= i < n ==> |cubes[i]| == |cubes[n]|
    requires forall i :: 0 <= i <= n ==> !cubes[i][d].IsEmpty()
    requires Pushed(before, now, cubes, n, d)
    requires Scanned(now, mid, cubes, n, d, cubes[n][d].start, false) && Scanned(mid, next, cubes, n, d, cubes[n][d].end, true)
    ensures Pushed(before, next, cubes, n, d + 1)
  {
    var c := cubes[n];
    forall i | 0 <= i < n
      ensures FoundBelow(c, cubes[i], d + 1)
        <==> (FoundBelow(c, cubes[i], d)
              || (Touches(c, cubes[i]) && (HasBound(cubes[i], d, c[d].start, false) || HasBound(cubes[i], d, c[d].end, true))))
      ensures !(FoundBelow(c, cubes[i], d) && (HasBound(cubes[i], d, c[d].start, false) || HasBound(cubes[i], d, c[d].end, true)))
      ensures !(HasBound(cubes[i], d, c[d].start, false) && HasBound(cubes[i], d, c[d].end, true))
    {
      FoundBelowStep(c, cubes[i], d);
      assert !cubes[i][d].IsEmpty() && !c[d].IsEmpty();
    }
  }

  lemma PushedDone(before: seq<seq<int>>, now: seq<seq<int>>, old_: seq<Cube>, cubes: seq<Cube>, n: nat, dims: nat)
    requires |old_| == n < |cubes| && cubes == old_ + [cubes[n]] && (forall i :: 0 <= i < |cubes| ==> |cubes[i]| == dims && !IsEmptyCube(cubes[i]))
    requires NeighboursOk(old_, before, dims) && Pushed(before, now, cubes, n, dims)
    ensures NeighboursOk(cubes, now, dims)
  {
    forall i, j | 0 <= i < |cubes| ensures Count(now[i], j) == if 0 <= j < |cubes| && Touches(cubes[i], cubes[j]) then 1 else 0 {
      PushedAt(before, now, old_, cubes, n, dims, i, j);
    }
  }

  lemma PushedAt(before: seq<seq<int>>, now: seq<seq<int>>, old_: seq<Cube>, cubes: seq<Cube>, n: nat, dims: nat, i: nat, j: int)
    requires |old_| == n && |cubes| == n + 1 && cubes == old_ + [cubes[n]] && (forall k :: 0 <= k < |cubes| ==> |cubes[k]| == dims && !IsEmptyCube(cubes[k]))
    requires NeighboursOk(old_, before, dims) && Pushed(before, now, cubes, n, dims) && i < |cubes|
    ensures Count(now[i], j) == if 0 <= j < |cubes| && Touches(cubes[i], cubes[j]) then 1 else 0
  {
    if i < n { PushedOld(before, now, old_, cubes, n, dims, i, j); } else { PushedNew(before, now, cubes, n, dims, j); }
  }

  lemma PushedOld(before: seq<seq<int>>, now: seq<seq<int>>, old_: seq<Cube>, cubes: seq<Cube>, n: nat, dims: nat, i: nat, j: int)
    requires |old_| == n < |cubes| && cubes == old_ + [cubes[n]] && (forall i :: 0 <= i < |cubes| ==> |cubes[i]| == dims)
    requires NeighboursOk(old_, before, dims) && Pushed(before, now, cubes, n, dims) && i < n
    ensures Count(now[i], j) == if 0 <= j < |cubes| && Touches(cubes[i], cubes[j]) then 1 else 0
  {
    FoundBelowAll(cubes[n], cubes[i]);
    TouchesSymmetric(cubes[n], cubes[i]);
    CountAppend(before[i], n, j);
    assert cubes[i] == old_[i];
    assert Count(before[i], j) == if 0 <= j < n && Touches(old_[i], old_[j]) then 1 else 0;
    if 0 <= j < n { assert cubes[j] == old_[j]; }
  }

  lemma PushedNew(before: seq<seq<int>>, now: seq<seq<int>>, cubes: seq<Cube>, n: nat, dims: nat, j: int)
    requires n + 1 == |cubes| && (forall i :: 0 <= i < |cubes| ==> |cubes[i]| == dims) && !IsEmptyCube(cubes[n])
    requires Pushed(before, now, cubes, n, dims)
    ensures Count(now[n], j) == if 0 <= j < |cubes| && Touches(cubes[n], cubes[j]) then 1 else 0
  {
    NotOwnNeighbour(cubes[n]);
    if 0 <= j < n { FoundBelowAll(cubes[n], cubes[j]); }
  }

  lemma NotOwnNeighbour(c: Cube)
    requires !IsEmptyCube(c)
    ensures !Touches(c, c)
  {
    if Touches(c, c) {
      var d :| 0 <= d < |c| && BoundDim(c, c, d);
      assert c[d].IsEmpty();
    }
  }

  method NewList(useTree: bool) returns (list: BoundList)
    ensures fresh(list.Repr()) && list.Valid() && list.Contents() == []
  {
    if useTree {
      var tree := new BoundTree();
      list := AsTree(tree);
    } else {
      var arr := new BoundArray();
      list := AsArray(arr);
    }
  }

  method NewLists(dims: nat, useTree: bool) returns (lists: seq<BoundList>)
    ensures |lists| == dims
    ensures forall i :: 0 <= i < dims ==> fresh(lists[i].Repr()) && lists[i].Valid() && lists[i].Contents() == []
    ensures forall i, j :: 0 <= i < dims && 0 <= j < dims && i != j ==> lists[i].Repr() !! lists[j].Repr()
  {
    lists := [];
    for d := 0 to dims
      invariant |lists| == d
      invariant forall i :: 0 <= i < d ==> fresh(lists[i].Repr()) && lists[i].Valid() && lists[i].Contents() == []
      invariant forall i, j :: 0 <= i < d && 0 <= j < d && i != j ==> lists[i].Repr() !! lists[j].Repr()
    {
      var list := NewList(useTree);
      lists := lists + [list];
    }
  }

  /** Looks for cubes on the other side of a bound of cube n, and enters the bound. */
  method ScanAndAdd(list: BoundList, cubes: seq<Cube>, before: seq<seq<int>>, ghost d: nat, n: nat, bound: int, isStart: bool) returns (neighbours: seq<seq<int>>)
    requires n + 1 == |cubes| == |before| && d < |cubes[n]| && (forall i :: 0 <= i < n ==> |cubes[i]| == |cubes[n]|)
    requires list.Valid() && ListsBound(Run(list.Contents(), Bake(bound, !isStart)), cubes, n, d, bound, !isStart)
    modifies list.Repr()
    ensures Scanned(before, neighbours, cubes, n, d, bound, !isStart)
    ensures list.Valid() && multiset(list.Contents()) == old(multiset(list.Contents())) + multiset{Entry(Bake(bound, isStart), n)}
  {
    neighbours := Scan(list, cubes, before, d, n, bound, !isStart);
    list.Add(bound, isStart, n);
  }

  /** Scans for both bounds of cube n in dimension d, and enters them into the list. */
  method PushBounds(list: BoundList, cubes: seq<Cube>, now: seq<seq<int>>, d: nat, n: nat, ghost before: seq<seq<int>>, ghost was: seq<Cube>)
    returns (neighbours: seq<seq<int>>)
    requires n == |was| && n + 1 == |cubes| && cubes[..n] == was && d < |cubes[n]|
    requires forall i :: 0 <= i < |cubes| ==> |cubes[i]| == |cubes[n]| && !IsEmptyCube(cubes[i])
    requires Pushed(before, now, cubes, n, d) && list.Valid() && Lists(list.Contents(), was, d)
    modifies list.Repr()
    ensures Pushed(before, neighbours, cubes, n, d + 1)
    ensures list.Valid() && Lists(list.Contents(), cubes, d)
  {
    var range := cubes[n][d];
    assert !range.IsEmpty();
    ghost var s := list.Contents();
    FirstScanLists(s, cubes, n, d, range.start);
    var mid := ScanAndAdd(list, cubes, now, d, n, range.start, true);
    SecondScanLists(s, list.Contents(), cubes, n, d);
    neighbours := ScanAndAdd(list, cubes, mid, d, n, range.end, false);
    BothAdded(s, list.Contents(), cubes, n, d);
    PushedStep(before, now, mid, neighbours, cubes, n, d);
  }

  class NeighbourManager {
    const dims: nat
    var cubes: seq<Cube>
    var neighbours: seq<seq<int>>
    var boundLists: seq<BoundList>

    ghost function Repr(): set<object>
      reads this
    {
      set i, o | 0 <= i < |boundLists| && o in boundLists[i].Repr() :: o
    }

    /** The lists are separate objects, apart from the manager. */
    ghost predicate Separate()
      reads this
    {
      && |boundLists| == dims
      && (forall i :: 0 <= i < dims ==> this !in boundLists[i].Repr())
      && (forall i, j :: 0 <= i < dims && 0 <= j < dims && i != j ==> boundLists[i].Repr() !! boundLists[j].Repr())
    }

    ghost predicate ListOk(d: nat)
      requires d < |boundLists|
      reads this, Repr()
    {
      boundLists[d].Valid() && Lists(boundLists[d].Contents(), cubes, d)
    }

    ghost predicate Valid()
      reads this, Repr()
    {
      && Separate()
      && (forall i :: 0 <= i < |cubes| ==> |cubes[i]| == dims && !IsEmptyCube(cubes[i]))
      && (forall d :: 0 <= d < dims ==> ListOk(d))
      && NeighboursOk(cubes, neighbours, dims)
    }

    constructor (dims: nat, useTree: bool)
      ensures Valid() && fresh(Repr()) && this.dims == dims && cubes == []
    {
      this.dims, cubes, neighbours := dims, [], [];
      boundLists := [];
      new;
      boundLists := NewLists(dims, useTree);
    }

    /** Finds the contacts that show in dimension d, and enters the bounds of cube n. */
    method PushDimension(d: nat, n: nat, ghost before: seq<seq<int>>, ghost was: seq<Cube>)
      requires Separate() && d < dims && n == |was| && n + 1 == |cubes| && cubes[..n] == was
      requires forall i :: 0 <= i < |cubes| ==> |cubes[i]| == dims && !IsEmptyCube(cubes[i])
      requires Pushed(before, neighbours, cubes, n, d)
      requires boundLists[d].Valid() && Lists(boundLists[d].Contents(), was, d)
      modifies this`neighbours, boundLists[d].Repr()
      ensures Pushed(before, neighbours, cubes, n, d + 1)
      ensures boundLists[d].Valid() && Lists(boundLists[d].Contents(), cubes, d)
    {
      neighbours := PushBounds(boundLists[d], cubes, neighbours, d, n, before, was);
    }

    /** The lists hold the bounds of the given cubes, in dimensions below d, and of the other cubes above. */
    ghost predicate ListsHold(d: int, below: seq<Cube>, above: seq<Cube>)
      reads this, Repr()
    {
      && (forall l :: 0 <= l < |boundLists| ==> boundLists[l].Valid())
      && (forall l :: 0 <= l < |boundLists| ==> Lists(boundLists[l].Contents(), if l < d then below else above, l))
    }

    /** The loop over the dimensions. */
    method PushDimensions(n: nat, ghost before: seq<seq<int>>, ghost was: seq<Cube>)
      requires Separate() && n == |was| && n + 1 == |cubes| && cubes[..n] == was
      requires forall i :: 0 <= i < |cubes| ==> |cubes[i]| == dims && !IsEmptyCube(cubes[i])
      requires Pushed(before, neighbours, cubes, n, 0) && ListsHold(0, cubes, was)
      modifies this`neighbours, Repr()
      ensures Pushed(before, neighbours, cubes, n, dims) && ListsHold(dims, cubes, was) && Separate()
    {
      for d := 0 to dims
        invariant Separate()
        invariant Pushed(before, neighbours, cubes, n, d)
        invariant ListsHold(d, cubes, was)
      {
        PushNext(d, n, before, was);
      }
    }

    /** One turn of the loop leaves the other dimensions' lists alone. */
    method PushNext(d: nat, n: nat, ghost before: seq<seq<int>>, ghost was: seq<Cube>)
      requires Separate() && d < dims && n == |was| && n + 1 == |cubes| && cubes[..n] == was
      requires forall i :: 0 <= i < |cubes| ==> |cubes[i]| == dims && !IsEmptyCube(cubes[i])
      requires Pushed(before, neighbours, cubes, n, d) && ListsHold(d, cubes, was)
      modifies this`neighbours, boundLists[d].Repr()
      ensures Pushed(before, neighbours, cubes, n, d + 1)
      ensures ListsHold(d + 1, cubes, was)
    {
      PushDimension(d, n, before, was);
      forall l | 0 <= l < |boundLists|
        ensures boundLists[l].Valid() && Lists(boundLists[l].Contents(), if l < d + 1 then cubes else was, l)
      {
        if l != d {
          assert boundLists[l].Valid() && boundLists[l].Contents() == old(boundLists[l].Contents());
        }
      }
    }

    /** Adds a cube and records all contacts with the cubes already there. */
    method PushBack(cube: Cube)
      requires Valid() && |cube| == dims && !IsEmptyCube(cube)
      modifies this, Repr()
      ensures cubes == old(cubes) + [cube] && boundLists == old(boundLists)
      ensures Valid()
    {
      forall l | 0 <= l < dims ensures boundLists[l].Valid() && Lists(boundLists[l].Contents(), cubes, l) { assert ListOk(l); }
      var n := |cubes|;
      ghost var before, was := neighbours, cubes;
      cubes, neighbours := cubes + [cube], neighbours + [[]];
      PushedStart(before, cubes, n);
      PushDimensions(n, before, was);
      PushedDone(before, neighbours, was, cubes, n, dims);
      forall l | 0 <= l < dims ensures ListOk(l) {}
    }
  }
}
