/** The order that both bound list implementations keep: entries sorted by baked bound. */
module BoundLists {
  datatype Entry = Entry(key: int, cube: int)

  /** Start and end bounds at the same coordinate get different keys. */
  function Bake(bound: int, isStart: bool): (key: int) {
    2 * bound + if isStart then 1 else 0
  }

  lemma BakeInjective(a: int, s: bool, b: int, t: bool)
    ensures Bake(a, s) == Bake(b, t) <==> a == b && s == t
  {}

  ghost predicate Sorted(s: seq<Entry>) {
    forall i, j :: 0 <= i < j < |s| ==> s[i].key <= s[j].key
  }

  /** p is the first position with a key of at least k. */
  ghost predicate IsLower(s: seq<Entry>, k: int, p: int) {
    0 <= p <= |s| && (forall i :: 0 <= i < p ==> s[i].key < k) && (forall i :: p <= i < |s| ==> s[i].key >= k)
  }

  /** p is the first position with a key above k. */
  ghost predicate IsUpper(s: seq<Entry>, k: int, p: int) {
    0 <= p <= |s| && (forall i :: 0 <= i < p ==> s[i].key <= k) && (forall i :: p <= i < |s| ==> s[i].key > k)
  }

  function InsertAt<T>(s: seq<T>, p: nat, x: T): (r: seq<T>)
    requires p <= |s|
    ensures |r| == |s| + 1
    ensures forall i :: 0 <= i < |r| ==> r[i] == if i < p then s[i] else if i == p then x else s[i - 1]
  {
    s[..p] + [x] + s[p..]
  }

  lemma InsertKeepsSorted(s: seq<Entry>, p: nat, e: Entry)
    requires Sorted(s) && p <= |s|
    requires IsLower(s, e.key, p) || IsUpper(s, e.key, p)
    ensures Sorted(InsertAt(s, p, e))
  {}

  lemma InsertMultiset<T>(s: seq<T>, p: nat, x: T)
    requires p <= |s|
    ensures multiset(InsertAt(s, p, x)) == multiset(s) + multiset{x}
  {
    assert s == s[..p] + s[p..];
  }

  /** The entries with key k, in list order. */
  ghost function Run(s: seq<Entry>, k: int): (r: seq<Entry>)
    ensures forall i :: 0 <= i < |r| ==> r[i].key == k
  {
    if s == [] then [] else (if s[0].key == k then [s[0]] else []) + Run(s[1..], k)
  }

  lemma {:induction false} RunConcat(s: seq<Entry>, t: seq<Entry>, k: int)
    ensures Run(s + t, k) == Run(s, k) + Run(t, k)
  {
    if s == [] {
      assert s + t == t;
    } else {
      assert (s + t)[1..] == s[1..] + t;
      RunConcat(s[1..], t, k);
    }
  }

  lemma {:induction false} RunOfNone(s: seq<Entry>, k: int)
    requires forall i :: 0 <= i < |s| ==> s[i].key != k
    ensures Run(s, k) == []
  {
    if s != [] { RunOfNone(s[1..], k); }
  }

  lemma {:induction false} RunOfAll(s: seq<Entry>, k: int)
    requires forall i :: 0 <= i < |s| ==> s[i].key == k
    ensures Run(s, k) == s
  {
    if s != [] { RunOfAll(s[1..], k); }
  }

  lemma LowerBelowUpper(s: seq<Entry>, k: int, p: nat, q: nat)
    requires IsLower(s, k, p) && p <= |s|
    requires q < |s| ==> s[q].key > k
    ensures p <= q
  {}

  /** In a sorted list the entries with key k are the stretch between the lower and the upper position. */
  lemma RunIsStretch(s: seq<Entry>, k: int, p: nat, q: nat)
    requires IsLower(s, k, p) && IsUpper(s, k, q)
    ensures p <= q && Run(s, k) == s[p..q]
  {
    LowerBelowUpper(s, k, p, q);
    assert s == s[..p] + s[p..q] + s[q..];
    RunOfMiddle(s[..p], s[p..q], s[q..], k);
  }

  lemma RunOfMiddle(a: seq<Entry>, b: seq<Entry>, c: seq<Entry>, k: int)
    requires (forall i :: 0 <= i < |a| ==> a[i].key != k) && (forall i :: 0 <= i < |b| ==> b[i].key == k) && (forall i :: 0 <= i < |c| ==> c[i].key != k)
    ensures Run(a + b + c, k) == b
  {
    RunConcat(a + b, c, k);
    RunConcat(a, b, k);
    RunOfNone(a, k);
    RunOfAll(b, k);
    RunOfNone(c, k);
  }

  lemma {:induction false} RunMultiset(s: seq<Entry>, e: Entry)
    ensures multiset(Run(s, e.key))[e] == multiset(s)[e]
  {
    if s != [] {
      assert s == [s[0]] + s[1..];
      RunMultiset(s[1..], e);
    }
  }

  /** Lists with the same entries have the same entries for each bound. */
  lemma SameEntriesSameRuns(s: seq<Entry>, t: seq<Entry>, k: int)
    requires multiset(s) == multiset(t)
    ensures multiset(Run(s, k)) == multiset(Run(t, k))
  {
    forall e ensures multiset(Run(s, k))[e] == multiset(Run(t, k))[e] {
      if e.key == k {
        RunMultiset(s, e);
        RunMultiset(t, e);
      } else {
        RunHasKey(s, k, e);
        RunHasKey(t, k, e);
      }
    }
  }

  lemma RunHasKey(s: seq<Entry>, k: int, e: Entry)
    requires e.key != k
    ensures multiset(Run(s, k))[e] == 0
  {
    assert e !in Run(s, k);
  }

  // ----- collecting the entries with one key

  ghost predicate AllKeys(found: seq<Entry>, k: int) {
    forall i :: 0 <= i < |found| ==> found[i].key == k
  }

  lemma CollectOne(s: seq<Entry>, k: int, p0: nat, p: nat, found: seq<Entry>)
    requires p0 <= p < |s| && found == s[p0..p] && AllKeys(found, k) && s[p].key == k
    ensures found + [s[p]] == s[p0..p + 1] && AllKeys(found + [s[p]], k)
  {}

  lemma CollectedRun(s: seq<Entry>, k: int, p0: nat, p: nat)
    requires Sorted(s) && IsLower(s, k, p0) && p0 <= p <= |s| && AllKeys(s[p0..p], k)
    requires p == |s| || s[p].key != k
    ensures s[p0..p] == Run(s, k)
  {
    forall x | p0 <= x < p ensures s[x].key == k { assert s[x] == s[p0..p][x - p0]; }
    RunIsStretch(s, k, p0, p);
  }

  // ----- the sorted array

  class BoundArray {
    var entries: seq<Entry>

    constructor ()
      ensures entries == []
    {
      entries := [];
    }

    /** Binary search for the first entry with at least the given key, or the place for one. */
    method Lookup(key: int) returns (position: nat)
      requires Sorted(entries)
      ensures IsLower(entries, key, position)
    {
      var low, high := 0, |entries|;
      while low < high
        invariant 0 <= low <= high <= |entries|
        invariant forall i :: 0 <= i < low ==> entries[i].key < key
        invariant forall i :: high <= i < |entries| ==> entries[i].key >= key
      {
        var mid := (low + high) / 2;
        if entries[mid].key < key { low := mid + 1; } else { high := mid; }
      }
      position := high;
    }

    method Add(bound: int, isStart: bool, cube: int) returns (ghost p: nat)
      requires Sorted(entries)
      modifies this
      ensures IsLower(old(entries), Bake(bound, isStart), p)
      ensures entries == InsertAt(old(entries), p, Entry(Bake(bound, isStart), cube))
      ensures Sorted(entries)
    {
      var position := Lookup(Bake(bound, isStart));
      InsertKeepsSorted(entries, position, Entry(Bake(bound, isStart), cube));
      entries := entries[..position] + [Entry(Bake(bound, isStart), cube)] + entries[position..];
      p := position;
    }

    /** The position of the first entry with the bound, or -1. */
    method FindFirst(bound: int, isStart: bool) returns (cursor: int)
      requires Sorted(entries)
      ensures cursor >= -1
      ensures cursor == -1 <==> Run(entries, Bake(bound, isStart)) == []
      ensures cursor >= 0 ==> cursor < |entries| && IsLower(entries, Bake(bound, isStart), cursor) && entries[cursor].key == Bake(bound, isStart)
    {
      var key := Bake(bound, isStart);
      cursor := Lookup(key);
      if cursor >= |entries| || entries[cursor].key != key {
        RunOfNone(entries, key);
        return -1;
      }
      RunHasMember(entries, key, cursor);
    }

    /** The next entry with the same key, or -1. */
    method NextEntry(cursor: nat) returns (next: int)
      requires cursor < |entries|
      ensures next == if cursor + 1 < |entries| && entries[cursor + 1].key == entries[cursor].key then cursor + 1 else -1
    {
      next := cursor + 1;
      if next >= |entries| { return -1; }
      if entries[next].key != entries[cursor].key { return -1; }
    }

    /** From the first entry with the bound until there is no next one. */
    method Enumerate(bound: int, isStart: bool) returns (found: seq<Entry>)
      requires Sorted(entries)
      ensures found == Run(entries, Bake(bound, isStart))
    {
      found := [];
      var cursor := FindFirst(bound, isStart);
      if cursor < 0 { return; }
      ghost var p0, p, k := cursor, cursor, Bake(bound, isStart);
      while cursor >= 0
        invariant 0 <= p0 <= p <= |entries| && found == entries[p0..p] && AllKeys(found, k)
        invariant if cursor < 0 then p == |entries| || entries[p].key != k else cursor == p < |entries| && entries[p].key == k
        decreases |entries| - p, cursor >= 0
      {
        CollectOne(entries, k, p0, p, found);
        found := found + [entries[cursor]];
        cursor := NextEntry(cursor);
        p := p + 1;
      }
      CollectedRun(entries, k, p0, p);
    }
  }

  lemma {:induction false} RunHasMember(s: seq<Entry>, k: int, i: nat)
    requires i < |s| && s[i].key == k
    ensures s[i] in Run(s, k)
  {
    if i > 0 { RunHasMember(s[1..], k, i - 1); }
  }

  // ----- how the two implementations order equal keys

  function Reversed<T>(s: seq<T>): (r: seq<T>)
    ensures |r| == |s|
  {
    if s == [] then [] else Reversed(s[1..]) + [s[0]]
  }

  lemma RunAfterLowerInsert(s: seq<Entry>, p: nat, e: Entry, k: int)
    requires p <= |s| && IsLower(s, e.key, p)
    ensures Run(InsertAt(s, p, e), k) == (if e.key == k then [e] else []) + Run(s, k)
  {
    assert InsertAt(s, p, e) == s[..p] + ([e] + s[p..]) && s == s[..p] + s[p..];
    RunConcat(s[..p], [e] + s[p..], k);
    RunConcat(s[..p], s[p..], k);
    assert ([e] + s[p..])[1..] == s[p..];
    if e.key == k { RunOfNone(s[..p], k); }
  }

  lemma RunAfterUpperInsert(s: seq<Entry>, p: nat, e: Entry, k: int)
    requires p <= |s| && IsUpper(s, e.key, p)
    ensures Run(InsertAt(s, p, e), k) == Run(s, k) + if e.key == k then [e] else []
  {
    assert InsertAt(s, p, e) == (s[..p] + [e]) + s[p..] && s == s[..p] + s[p..];
    RunConcat(s[..p] + [e], s[p..], k);
    RunConcat(s[..p], [e], k);
    RunConcat(s[..p], s[p..], k);
    assert [e][1..] == [];
    if e.key == k { RunOfNone(s[p..], k); }
  }

  lemma {:induction false} ReversedSnoc<T>(s: seq<T>, x: T)
    ensures Reversed(s + [x]) == [x] + Reversed(s)
  {
    if s == [] {
      assert s + [x] == [x];
      assert [x][1..] == [];
    } else {
      assert (s + [x])[1..] == s[1..] + [x];
      ReversedSnoc(s[1..], x);
    }
  }

  /** The states of a list to which entries are added behind their equals, as the tree does. */
  ghost predicate AddedBehind(states: seq<seq<Entry>>, entries: seq<Entry>) {
    && |states| == |entries| + 1 && states[0] == []
    && forall i :: 0 <= i < |entries| ==> InsertedBehind(states[i], entries[i], states[i + 1])
  }

  ghost predicate InsertedBehind(s: seq<Entry>, e: Entry, t: seq<Entry>) {
    exists p :: 0 <= p <= |s| && IsUpper(s, e.key, p) && t == InsertAt(s, p, e)
  }

  /** The states of a list to which entries are added before their equals, as the array does. */
  ghost predicate AddedBefore(states: seq<seq<Entry>>, entries: seq<Entry>) {
    && |states| == |entries| + 1 && states[0] == []
    && forall i :: 0 <= i < |entries| ==> InsertedBefore(states[i], entries[i], states[i + 1])
  }

  ghost predicate InsertedBefore(s: seq<Entry>, e: Entry, t: seq<Entry>) {
    exists p :: 0 <= p <= |s| && IsLower(s, e.key, p) && t == InsertAt(s, p, e)
  }

  lemma RunSnoc(s: seq<Entry>, e: Entry, k: int)
    ensures Run(s + [e], k) == Run(s, k) + if e.key == k then [e] else []
  {
    RunConcat(s, [e], k);
    assert [e][1..] == [];
  }

  /** The tree lists the entries of each bound in the order in which they were added ... */
  lemma {:induction false} TreeOrder(trees: seq<seq<Entry>>, entries: seq<Entry>, i: nat, k: int)
    requires AddedBehind(trees, entries) && i <= |entries|
    ensures Run(trees[i], k) == Run(entries[..i], k)
  {
    if i > 0 {
      TreeOrder(trees, entries, i - 1, k);
      assert entries[..i] == entries[..i - 1] + [entries[i - 1]];
      RunBehind(trees[i - 1], entries[i - 1], trees[i], entries[..i - 1], k);
    }
  }

  lemma RunBehind(s: seq<Entry>, e: Entry, t: seq<Entry>, added: seq<Entry>, k: int)
    requires InsertedBehind(s, e, t) && Run(s, k) == Run(added, k)
    ensures Run(t, k) == Run(added + [e], k)
  {
    var p :| 0 <= p <= |s| && IsUpper(s, e.key, p) && t == InsertAt(s, p, e);
    RunAfterUpperInsert(s, p, e, k);
    RunSnoc(added, e, k);
  }

  /** ... and the array in the opposite order. */
  lemma {:induction false} ArrayOrder(arrays: seq<seq<Entry>>, entries: seq<Entry>, i: nat, k: int)
    requires AddedBefore(arrays, entries) && i <= |entries|
    ensures Run(arrays[i], k) == Reversed(Run(entries[..i], k))
  {
    if i > 0 {
      ArrayOrder(arrays, entries, i - 1, k);
      assert entries[..i] == entries[..i - 1] + [entries[i - 1]];
      RunBefore(arrays[i - 1], entries[i - 1], arrays[i], entries[..i - 1], k);
    }
  }

  lemma RunBefore(s: seq<Entry>, e: Entry, t: seq<Entry>, added: seq<Entry>, k: int)
    requires InsertedBefore(s, e, t) && Run(s, k) == Reversed(Run(added, k))
    ensures Run(t, k) == Reversed(Run(added + [e], k))
  {
    var p :| 0 <= p <= |s| && IsLower(s, e.key, p) && t == InsertAt(s, p, e);
    RunAfterLowerInsert(s, p, e, k);
    RunSnoc(added, e, k);
    var r := Run(added, k);
    if e.key == k { ReversedSnoc(r, e); } else { assert r + [] == r; }
  }

  /** Whatever is added to both implementations, they list the entries of each bound in opposite orders. */
  lemma OppositeOrders(trees: seq<seq<Entry>>, arrays: seq<seq<Entry>>, entries: seq<Entry>, i: nat, k: int)
    requires AddedBehind(trees, entries) && AddedBefore(arrays, entries) && i <= |entries|
    ensures Run(arrays[i], k) == Reversed(Run(trees[i], k))
  {
    TreeOrder(trees, entries, i, k);
    ArrayOrder(arrays, entries, i, k);
  }
}
