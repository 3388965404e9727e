/** The operations on the B-tree: insertion with splits that travel up the parent links, lookup and iteration. */
module BoundTreeOps {
  import opened BoundLists
  import opened BoundTrees

  lemma BoundPositionUnique(b: seq<Entry>, k: int, c: int, d: int)
    requires IsBoundPosition(b, k, c) && IsBoundPosition(b, k, d)
    ensures c == d
  {}

  lemma NotOverfull(nodes: seq<Node>, ix: Index, me: int)
    requires Tree(nodes, ix, me) && (IsNode(nodes, me) ==> |nodes[me].bounds| <= MAX_ENTRIES)
    ensures Tree(nodes, ix, NULL)
  {
    forall n | IsNode(nodes, n) ensures LinkOk(nodes, ix, NULL, n) { assert LinkOk(nodes, ix, me, n); }
  }

  lemma KidsInTable(nodes: seq<Node>, ix: Index, over: int, me: int, c: int)
    requires Tree(nodes, ix, over) && IsNode(nodes, me) && c in nodes[me].children
    ensures c == NULL || IsNode(nodes, c)
  {
    assert NodeOk(nodes, ix, me);
    var j :| 0 <= j < |nodes[me].children| && nodes[me].children[j] == c;
    if ix.height[me] > 0 { assert ChildOk(nodes, ix, me, ix.lo[me], ix.hi[me], nodes[me].bounds, nodes[me].children, j); }
  }

  /** The node that hangs over: where it hangs, and only there. */
  lemma OverfullBelowRoot(nodes: seq<Node>, ix: Index, me: int) returns (ci: int)
    requires Tree(nodes, ix, me) && IsNode(nodes, me) && me > 0
    requires |nodes[me].bounds| == MAX_ENTRIES + 1 && |nodes[me].children| == MAX_ENTRIES + 2
    ensures Splitting(nodes, ix, me, nodes[me].parent, ci) && nodes[me].parent != me
    ensures forall l :: 0 <= l < |nodes[nodes[me].parent].children| && nodes[nodes[me].parent].children[l] == me ==> l == ci
    ensures |nodes[nodes[me].parent].bounds| <= MAX_ENTRIES
  {
    var p;
    p, ci := ParentOf(nodes, ix, me, me);
    assert NodeOk(nodes, ix, p);
    assert LinkOk(nodes, ix, me, p);
    forall l | 0 <= l < |nodes[p].children| && nodes[p].children[l] == me ensures l == ci { OtherSiblings(nodes, ix, me, p, ci, l); }
  }

  lemma SplitTableKeeps(nodes: seq<Node>, me: int, p: int)
    requires IsNode(nodes, me) && IsNode(nodes, p) && p != me
    requires |nodes[me].bounds| == MAX_ENTRIES + 1 && |nodes[me].children| == MAX_ENTRIES + 2
    ensures SplitTable(nodes, me)[p].bounds == nodes[p].bounds && SplitTable(nodes, me)[p].children == nodes[p].children
  {}

  /** Where the position behind an entry is. */
  lemma NextStart(nodes: seq<Node>, ix: Index, node: int, entry: int)
    requires Tree(nodes, ix, NULL) && IsNode(nodes, node) && 0 <= entry < |nodes[node].bounds|
    ensures NodeOk(nodes, ix, node) && |nodes[node].children| == |nodes[node].bounds| + 1
    ensures var q := Gap(nodes, ix, node, entry);
      && 0 <= q < |ix.flat| && ix.flat[q] == nodes[node].bounds[entry]
      && (ix.height[node] == 0 ==> ix.lo[node] + (entry + 1) == q + 1)
      && (ix.height[node] > 0 ==> IsNode(nodes, nodes[node].children[entry + 1]) && ix.lo[nodes[node].children[entry + 1]] == q + 1)
  {
    assert NodeOk(nodes, ix, node);
    GapEntry(nodes, ix, node, entry);
    if ix.height[node] > 0 {
      assert ChildOk(nodes, ix, node, ix.lo[node], ix.hi[node], nodes[node].bounds, nodes[node].children, entry);
      assert ChildOk(nodes, ix, node, ix.lo[node], ix.hi[node], nodes[node].bounds, nodes[node].children, entry + 1);
    }
  }

  /** The steps of a root split, in the order in which they happen. */
  lemma RootSplitSteps(nodes: seq<Node>, ix: Index, t1: seq<Node>, t2: seq<Node>, t3: seq<Node>)
    requires RootOverfull(nodes, ix)
    requires t1 == SplitTable(nodes, 0)
    requires t2 == Adopt(t1 + [t1[0]], t1[0].children, |nodes| + 1)
    requires t3 == Adopt(t2[0 := Node([nodes[0].bounds[SPLIT]], [|nodes|, |nodes| + 1], NULL)], [|nodes|, |nodes| + 1], 0)
    ensures t3 == SplitRootTable(nodes)
  {
    RootIsNoKid(nodes, ix);
    SplitSteps(nodes, t1, t2, t3);
  }

  lemma SplitSteps(nodes: seq<Node>, t1: seq<Node>, t2: seq<Node>, t3: seq<Node>)
    requires |nodes| > 0 && |nodes[0].bounds| == MAX_ENTRIES + 1 && |nodes[0].children| == MAX_ENTRIES + 2
    requires var kids := nodes[0].children; 0 !in kids && |nodes| !in kids && |nodes| + 1 !in kids
    requires t1 == SplitTable(nodes, 0)
    requires t2 == Adopt(t1 + [t1[0]], t1[0].children, |nodes| + 1)
    requires t3 == Adopt(t2[0 := Node([nodes[0].bounds[SPLIT]], [|nodes|, |nodes| + 1], NULL)], [|nodes|, |nodes| + 1], 0)
    ensures t3 == SplitRootTable(nodes)
  {
    var kids := nodes[0].children;
    assert 0 !in kids[..SPLIT + 1] && 0 !in kids[SPLIT + 1..];
    var s := SplitRootTable(nodes);
    forall n | 0 <= n < |nodes| + 2 ensures t3[n] == s[n] {}
  }

  class BoundTree {
    var nodes: seq<Node>
    ghost var ix: Index

    ghost predicate Valid()
      reads this
    {
      Tree(nodes, ix, NULL)
    }

    ghost function Contents(): seq<Entry>
      reads this
    {
      ix.flat
    }

    constructor ()
      ensures Valid() && Contents() == []
    {
      nodes := [Node([], [NULL], NULL)];
      ix := Index([], [0], [0], [0]);
    }

    /** Puts an entry, and the child to the left of it, into node me; a full node is split and the middle entry goes up. */
    method Insert(me: int, e: Entry, insertChild: int, splittedChild: int, ghost c: int)
      requires IsNode(nodes, me) && |nodes[me].children| == |nodes[me].bounds| + 1 && |nodes[me].bounds| <= MAX_ENTRIES
      requires 0 <= c <= |nodes[me].bounds|
      requires insertChild == NULL ==> IsBoundPosition(nodes[me].bounds, e.key, c)
      requires insertChild != NULL ==> nodes[me].children[c] == splittedChild
      requires insertChild != NULL ==> forall j :: 0 <= j < |nodes[me].children| && nodes[me].children[j] == splittedChild ==> j == c
      requires Tree(WithInserted(nodes, me, c, e, insertChild), ix, me)
      modifies this
      ensures Valid() && ix.flat == old(ix.flat)
      decreases ix.height[0] - ix.height[me], 1
    {
      var childIndex;
      if insertChild != NULL {
        childIndex := FindChildPosition(nodes[me], splittedChild);
      } else {
        childIndex := FindBoundPosition(nodes[me], e.key);
        BoundPositionUnique(nodes[me].bounds, e.key, c, childIndex);
      }
      ghost var V := WithInserted(nodes, me, c, e, insertChild);
      if |nodes[me].bounds| < MAX_ENTRIES {
        nodes := WithInserted(nodes, me, childIndex, e, insertChild);
        NotOverfull(nodes, ix, me);
      } else {
        Split(me, InsertAt(nodes[me].bounds, childIndex, e), InsertAt(nodes[me].children, childIndex, insertChild), V);
      }
    }

    /** Splits a node whose lists, with the new entry, are one too long. */
    method Split(me: int, tempBounds: seq<Entry>, tempChildren: seq<int>, ghost V: seq<Node>)
      requires IsNode(nodes, me) && |tempBounds| == MAX_ENTRIES + 1 && |tempChildren| == MAX_ENTRIES + 2
      requires V == nodes[me := Node(tempBounds, tempChildren, nodes[me].parent)]
      requires Tree(V, ix, me)
      modifies this
      ensures Valid() && ix.flat == old(ix.flat)
      decreases ix.height[0] - ix.height[me], 0
    {
      var mid, parent, left := tempBounds[SPLIT], nodes[me].parent, |nodes|;
      forall c | c in tempChildren ensures c < |nodes| { KidsInTable(V, ix, me, me, c); }
      assert LinkOk(V, ix, me, me);
      var t := SplitOff(me, tempBounds, tempChildren, V);
      nodes := t;
      if parent != NULL {
        ghost var ci := OverfullBelowRoot(V, ix, me);
        SplitBelowRoot(V, ix, me, parent, ci);
        SplitTableKeeps(V, me, parent);
        ix := SplitIndex(ix, me, Separator(V, ix, me));
        Insert(parent, mid, left, me, ci);
      } else {
        assert NodeOk(V, ix, 0);
        SplitRoot(V, ix);
        GrowRoot(mid, left, V);
        ix := SplitRootIndex(ix, Gap(V, ix, 0, SPLIT));
      }
    }

    /** The left half of the overfull lists goes to a new node, me keeps the right half. */
    method SplitOff(me: int, tempBounds: seq<Entry>, tempChildren: seq<int>, ghost V: seq<Node>) returns (t: seq<Node>)
      requires IsNode(nodes, me) && |tempBounds| == MAX_ENTRIES + 1 && |tempChildren| == MAX_ENTRIES + 2
      requires V == nodes[me := Node(tempBounds, tempChildren, nodes[me].parent)]
      requires forall c :: c in tempChildren ==> c < |nodes|
      ensures t == SplitTable(V, me)
    {
      t := nodes + [Node(tempBounds[..SPLIT], tempChildren[..SPLIT + 1], nodes[me].parent)];
      var kids := tempChildren[..SPLIT + 1];
      forall c | c in kids ensures c < |t| { assert c in tempChildren; }
      t := FixRelations(t, |nodes|);
      t := t[me := Node(tempBounds[SPLIT + 1..], tempChildren[SPLIT + 1..], t[me].parent)];
    }

    /** The root's right half moves to a new node, and the root becomes the parent of both halves. */
    method GrowRoot(mid: Entry, left: int, ghost V: seq<Node>)
      requires RootOverfull(V, ix) && left == |V| && mid == V[0].bounds[SPLIT] && nodes == SplitTable(V, 0)
      modifies this`nodes
      ensures nodes == SplitRootTable(V)
    {
      ghost var t1 := nodes;
      var right := |nodes|;
      nodes := nodes + [nodes[0]];
      forall c | c in nodes[right].children ensures c < |nodes| {
        RootKids(V, ix, c);
      }
      nodes := FixRelations(nodes, right);
      ghost var t2 := nodes;
      nodes := nodes[0 := Node([mid], [left, right], NULL)];
      nodes := FixRelations(nodes, 0);
      RootSplitSteps(V, ix, t1, t2, nodes);
    }

    /** Walks down to the leaf where the key belongs, behind all equal keys. */
    method FindLeaf(key: int) returns (me: int, childIndex: int)
      requires Valid()
      ensures IsNode(nodes, me) && Brackets(nodes, ix, me, key) && ix.height[me] == 0
      ensures IsBoundPosition(nodes[me].bounds, key, childIndex) && |nodes[me].children| == |nodes[me].bounds| + 1
    {
      me := 0;
      assert LinkOk(nodes, ix, NULL, 0) && NodeOk(nodes, ix, 0);
      childIndex := FindBoundPosition(nodes[me], key);
      LeafIffNull(nodes, ix, NULL, me, 0);
      while nodes[me].children[childIndex] != NULL
        invariant IsNode(nodes, me) && Brackets(nodes, ix, me, key)
        invariant IsBoundPosition(nodes[me].bounds, key, childIndex) && |nodes[me].children| == |nodes[me].bounds| + 1
        invariant 0 <= ix.height[me]
        decreases ix.height[me]
      {
        LeafIffNull(nodes, ix, NULL, me, childIndex);
        BracketsChild(nodes, ix, NULL, me, key, childIndex);
        me := nodes[me].children[childIndex];
        childIndex := FindBoundPosition(nodes[me], key);
        assert NodeOk(nodes, ix, me);
      }
      LeafIffNull(nodes, ix, NULL, me, childIndex);
    }

    /** Adds an entry behind all entries with the same key. */
    method Add(bound: int, isStart: bool, cube: int) returns (ghost p: nat)
      requires Valid()
      modifies this
      ensures Valid()
      ensures IsUpper(old(Contents()), Bake(bound, isStart), p)
      ensures Contents() == InsertAt(old(Contents()), p, Entry(Bake(bound, isStart), cube))
    {
      var e := Entry(Bake(bound, isStart), cube);
      var me, childIndex := FindLeaf(e.key);
      BracketsLeaf(nodes, ix, NULL, me, e.key, childIndex);
      LeafInsertion(nodes, ix, me, childIndex, e);
      assert LinkOk(nodes, ix, NULL, me);
      p := ix.lo[me] + childIndex;
      ix := Shift(ix, p, e);
      Insert(me, e, NULL, NULL, childIndex);
    }

    /** A position in the tree is an index into the sorted contents. */
    ghost function PositionOf(node: int, entry: int): int
      requires Valid() && IsNode(nodes, node) && 0 <= entry <= |nodes[node].bounds|
      reads this
    {
      assert NodeOk(nodes, ix, node);
      Gap(nodes, ix, node, entry)
    }

    /** Climbs from an exhausted node to the ancestor whose entry comes next. */
    method Ascend(node: int, entry: int, ghost p: int) returns (me: int, position: int)
      requires Valid() && IsNode(nodes, node) && 0 <= entry <= |nodes[node].bounds| && PositionOf(node, entry) == p
      ensures me == NULL <==> p == |ix.flat|
      ensures me != NULL ==> IsNode(nodes, me) && 0 <= position < |nodes[me].bounds| && PositionOf(me, position) == p
      ensures me != NULL ==> 0 <= p < |ix.flat| && nodes[me].bounds[position] == ix.flat[p]
    {
      me, position := node, entry;
      while me != NULL && position == |nodes[me].bounds|
        invariant me == NULL ==> p == |ix.flat|
        invariant me != NULL ==> IsNode(nodes, me) && 0 <= position <= |nodes[me].bounds| && PositionOf(me, position) == p
        decreases if me == NULL then 0 else 1 + ix.height[0] - ix.height[me]
      {
        assert NodeOk(nodes, ix, me) && LinkOk(nodes, ix, NULL, me);
        GapEntry(nodes, ix, me, position);
        var parent := nodes[me].parent;
        if parent != NULL {
          ghost var q, j := ParentOf(nodes, ix, NULL, me);
          assert NodeOk(nodes, ix, parent) && LinkOk(nodes, ix, NULL, parent);
          position := FindChildPosition(nodes[parent], me);
        }
        me := parent;
      }
      if me != NULL {
        assert NodeOk(nodes, ix, me);
        GapEntry(nodes, ix, me, position);
      }
    }

    /** The first entry with the bound, or NULL. */
    method FindFirst(bound: int, isStart: bool) returns (node: int, position: int)
      requires Valid()
      ensures node == NULL <==> Run(Contents(), Bake(bound, isStart)) == []
      ensures node != NULL ==> IsNode(nodes, node) && 0 <= position < |nodes[node].bounds|
      ensures node != NULL ==> IsLower(Contents(), Bake(bound, isStart), PositionOf(node, position)) && PositionOf(node, position) < |Contents()|
      ensures node != NULL ==> nodes[node].bounds[position] == Contents()[PositionOf(node, position)] && nodes[node].bounds[position].key == Bake(bound, isStart)
    {
      var key := Bake(bound, isStart);
      var me := 0;
      assert LinkOk(nodes, ix, NULL, 0) && NodeOk(nodes, ix, 0);
      var childIndex;
      while true
        invariant IsNode(nodes, me) && Brackets(nodes, ix, me, key - 1) && 0 <= ix.height[me]
        decreases ix.height[me]
      {
        assert NodeOk(nodes, ix, me);
        childIndex := FindBoundPosition(nodes[me], key - 1);
        LeafIffNull(nodes, ix, NULL, me, childIndex);
        if nodes[me].children[childIndex] == NULL { break; }
        BracketsChild(nodes, ix, NULL, me, key - 1, childIndex);
        me := nodes[me].children[childIndex];
        assert NodeOk(nodes, ix, me);
      }
      BracketsLeaf(nodes, ix, NULL, me, key - 1, childIndex);
      ghost var p := ix.lo[me] + childIndex;
      assert IsLower(ix.flat, key, p);
      node, position := Ascend(me, childIndex, p);
      if node != NULL && nodes[node].bounds[position].key == key {
        RunHasMember(ix.flat, key, p);
      } else {
        RunOfNone(ix.flat, key);
        node, position := NULL, -1;
      }
    }

    /** From the child position behind an entry down to the leaf where the next position is. */
    method Descend(node: int, entry: int, ghost q: int) returns (me: int, pos: int)
      requires Valid() && IsNode(nodes, node) && 0 <= entry <= |nodes[node].bounds| && |nodes[node].children| == |nodes[node].bounds| + 1
      requires ix.height[node] == 0 ==> ix.lo[node] + entry == q
      requires ix.height[node] > 0 ==> IsNode(nodes, nodes[node].children[entry]) && ix.lo[nodes[node].children[entry]] == q
      ensures IsNode(nodes, me) && 0 <= pos <= |nodes[me].bounds| && PositionOf(me, pos) == q
    {
      me, pos := node, entry;
      assert NodeOk(nodes, ix, me);
      while nodes[me].children[pos] != NULL
        invariant IsNode(nodes, me) && 0 <= pos <= |nodes[me].bounds| && |nodes[me].children| == |nodes[me].bounds| + 1 && 0 <= ix.height[me]
        invariant ix.height[me] == 0 ==> ix.lo[me] + pos == q
        invariant ix.height[me] > 0 ==> IsNode(nodes, nodes[me].children[pos]) && ix.lo[nodes[me].children[pos]] == q
        decreases ix.height[me]
      {
        LeafIffNull(nodes, ix, NULL, me, pos);
        assert NodeOk(nodes, ix, me);
        assert ChildOk(nodes, ix, me, ix.lo[me], ix.hi[me], nodes[me].bounds, nodes[me].children, pos);
        me, pos := nodes[me].children[pos], 0;
        assert NodeOk(nodes, ix, me);
        if ix.height[me] > 0 {
          assert ChildOk(nodes, ix, me, ix.lo[me], ix.hi[me], nodes[me].bounds, nodes[me].children, 0);
        }
      }
      LeafIffNull(nodes, ix, NULL, me, pos);
    }

    /** The next entry with the same key, or NULL. */
    method NextEntry(node: int, entry: int) returns (next: int, position: int, ghost q: int)
      requires Valid() && IsNode(nodes, node) && 0 <= entry < |nodes[node].bounds|
      ensures q == PositionOf(node, entry) && 0 <= q < |Contents()|
      ensures next != NULL <==> q + 1 < |Contents()| && Contents()[q + 1].key == Contents()[q].key
      ensures next != NULL ==> IsNode(nodes, next) && 0 <= position < |nodes[next].bounds| && PositionOf(next, position) == q + 1
      ensures next != NULL ==> nodes[next].bounds[position] == Contents()[q + 1]
    {
      q := PositionOf(node, entry);
      NextStart(nodes, ix, node, entry);
      var key := nodes[node].bounds[entry].key;
      var leaf, pos := Descend(node, entry + 1, q + 1);
      next, position := Ascend(leaf, pos, q + 1);
      if next == NULL || nodes[next].bounds[position].key != key { next, position := NULL, -1; }
    }
  
    /** From the first entry with the bound until there is no next one. */
    method Enumerate(bound: int, isStart: bool) returns (found: seq<Entry>)
      requires Valid()
      ensures found == Run(Contents(), Bake(bound, isStart))
    {
      found := [];
      var node, position := FindFirst(bound, isStart);
      if node == NULL { return; }
      ghost var s, k := Contents(), Bake(bound, isStart);
      ghost var p0 := PositionOf(node, position);
      ghost var p := p0;
      while node != NULL
        invariant 0 <= p0 <= p <= |s| && found == s[p0..p] && AllKeys(found, k)
        invariant node == NULL ==> p == |s| || s[p].key != k
        invariant node != NULL ==> p < |s| && IsNode(nodes, node) && 0 <= position < |nodes[node].bounds| && PositionOf(node, position) == p
        invariant node != NULL ==> nodes[node].bounds[position] == s[p] && s[p].key == k
        decreases |s| - p, node != NULL
      {
        CollectOne(s, k, p0, p, found);
        found := found + [nodes[node].bounds[position]];
        ghost var q;
        node, position, q := NextEntry(node, position);
        p := p + 1;
      }
      CollectedRun(s, k, p0, p);
    }
  }
}
