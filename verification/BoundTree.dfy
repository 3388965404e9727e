/** The B-tree of bounds. Nodes live in a table; a node's address is its index, NULL is -1, and the root is node 0. */
module BoundTrees {
  import opened BoundLists

  const NULL := -1
  const MAX_ENTRIES := 20

  datatype Node = Node(bounds: seq<Entry>, children: seq<int>, parent: int)

  /** The proof's view of the tree: the in-order sequence of all entries, and for each node
      the stretch of it that the node's subtree holds, and the height of the node above the leaves. */
  datatype Index = Index(flat: seq<Entry>, lo: seq<int>, hi: seq<int>, height: seq<int>)

  ghost predicate IndexFits(nodes: seq<Node>, ix: Index) {
    |ix.lo| == |ix.hi| == |ix.height| == |nodes|
  }

  ghost predicate IsNode(nodes: seq<Node>, i: int) { 0 <= i < |nodes| }

  ghost predicate LeafOk(ix: Index, lo: int, hi: int, b: seq<Entry>, ch: seq<int>) {
    && 0 <= lo <= hi <= |ix.flat|
    && b == ix.flat[lo..hi]
    && (forall j :: 0 <= j < |ch| ==> ch[j] == NULL)
  }

  /** Child number j of node i sits where it should: height, parent link, and stretch next to its separators. */
  ghost predicate ChildOk(nodes: seq<Node>, ix: Index, i: int, lo: int, hi: int, b: seq<Entry>, ch: seq<int>, j: int)
    requires IndexFits(nodes, ix) && IsNode(nodes, i) && 0 <= j < |ch| == |b| + 1
  {
    && IsNode(nodes, ch[j])
    && ix.height[ch[j]] == ix.height[i] - 1
    && nodes[ch[j]].parent == i
    && (j == 0 ==> ix.lo[ch[j]] == lo)
    && (j == |b| ==> ix.hi[ch[j]] == hi)
    && (j < |b| ==> 0 <= ix.hi[ch[j]] < |ix.flat| && ix.flat[ix.hi[ch[j]]] == b[j])
    && (j < |b| && IsNode(nodes, ch[j + 1]) ==> ix.lo[ch[j + 1]] == ix.hi[ch[j]] + 1)
  }

  ghost predicate InnerOk(nodes: seq<Node>, ix: Index, i: int, lo: int, hi: int, b: seq<Entry>, ch: seq<int>)
    requires IndexFits(nodes, ix) && IsNode(nodes, i) && |ch| == |b| + 1
  {
    forall j {:trigger ChildOk(nodes, ix, i, lo, hi, b, ch, j)} :: 0 <= j < |ch| ==> ChildOk(nodes, ix, i, lo, hi, b, ch, j)
  }

  ghost predicate NodeOk(nodes: seq<Node>, ix: Index, i: int)
    requires IndexFits(nodes, ix) && IsNode(nodes, i)
  {
    var n := nodes[i];
    && 0 <= ix.lo[i] <= ix.hi[i] <= |ix.flat|
    && |n.children| == |n.bounds| + 1
    && 0 <= ix.height[i]
    && (ix.height[i] == 0 ==> LeafOk(ix, ix.lo[i], ix.hi[i], n.bounds, n.children))
    && (ix.height[i] > 0 ==> InnerOk(nodes, ix, i, ix.lo[i], ix.hi[i], n.bounds, n.children))
  }

  /** Links and sizes: every node but the root hangs below another one and is at least half full;
      one node may hold one entry too many while an insertion is under way. */
  ghost predicate LinkOk(nodes: seq<Node>, ix: Index, over: int, i: int)
    requires IndexFits(nodes, ix) && IsNode(nodes, i)
  {
    var n := nodes[i];
    && |n.bounds| <= MAX_ENTRIES + (if i == over then 1 else 0)
    && (i == 0 ==> n.parent == NULL && ix.lo[0] == 0 && ix.hi[0] == |ix.flat| && (ix.height[0] > 0 ==> |n.bounds| >= 1))
    && (i > 0 ==> |n.bounds| >= MAX_ENTRIES / 2 && ix.height[i] < ix.height[0] && IsNode(nodes, n.parent) && i in nodes[n.parent].children)
  }

  ghost predicate Tree(nodes: seq<Node>, ix: Index, over: int) {
    && IndexFits(nodes, ix) && |nodes| > 0 && Sorted(ix.flat)
    && (forall i {:trigger NodeOk(nodes, ix, i)} :: IsNode(nodes, i) ==> NodeOk(nodes, ix, i))
    && (forall i {:trigger LinkOk(nodes, ix, over, i)} :: IsNode(nodes, i) ==> LinkOk(nodes, ix, over, i))
  }

  // ----- positions

  /** The in-order position of entry c of node i, or the end of its stretch when c is past the last entry. */
  ghost function Gap(nodes: seq<Node>, ix: Index, i: int, c: int): int
    requires IndexFits(nodes, ix) && IsNode(nodes, i) && NodeOk(nodes, ix, i) && 0 <= c <= |nodes[i].bounds|
  {
    if ix.height[i] == 0 then ix.lo[i] + c
    else
      assert ChildOk(nodes, ix, i, ix.lo[i], ix.hi[i], nodes[i].bounds, nodes[i].children, c);
      ix.hi[nodes[i].children[c]]
  }

  lemma GapEntry(nodes: seq<Node>, ix: Index, i: int, c: int)
    requires IndexFits(nodes, ix) && IsNode(nodes, i) && NodeOk(nodes, ix, i) && 0 <= c <= |nodes[i].bounds|
    ensures c < |nodes[i].bounds| ==> 0 <= Gap(nodes, ix, i, c) < |ix.flat| && ix.flat[Gap(nodes, ix, i, c)] == nodes[i].bounds[c]
    ensures c == |nodes[i].bounds| ==> Gap(nodes, ix, i, c) == ix.hi[i]
  {
    if ix.height[i] == 0 {
      assert nodes[i].bounds == ix.flat[ix.lo[i]..ix.hi[i]];
    } else {
      assert ChildOk(nodes, ix, i, ix.lo[i], ix.hi[i], nodes[i].bounds, nodes[i].children, c);
    }
  }

  lemma {:induction false} ChildrenOrdered(nodes: seq<Node>, ix: Index, over: int, i: int, j: int, l: int)
    requires Tree(nodes, ix, over) && IsNode(nodes, i) && ix.height[i] > 0 && 0 <= j < l < |nodes[i].children|
    ensures IsNode(nodes, nodes[i].children[j]) && IsNode(nodes, nodes[i].children[l])
    ensures ix.hi[nodes[i].children[j]] < ix.lo[nodes[i].children[l]]
    decreases l - j
  {
    var n := nodes[i];
    assert NodeOk(nodes, ix, i);
    assert ChildOk(nodes, ix, i, ix.lo[i], ix.hi[i], n.bounds, n.children, j);
    assert ChildOk(nodes, ix, i, ix.lo[i], ix.hi[i], n.bounds, n.children, j + 1);
    if j + 1 < l {
      ChildrenOrdered(nodes, ix, over, i, j + 1, l);
      assert NodeOk(nodes, ix, n.children[j + 1]);
    }
  }

  lemma ChildWithin(nodes: seq<Node>, ix: Index, over: int, i: int, j: int)
    requires Tree(nodes, ix, over) && IsNode(nodes, i) && ix.height[i] > 0 && 0 <= j < |nodes[i].children|
    ensures IsNode(nodes, nodes[i].children[j])
    ensures ix.lo[i] <= ix.lo[nodes[i].children[j]] <= ix.hi[nodes[i].children[j]] <= ix.hi[i]
  {
    var n := nodes[i];
    var last := |n.children| - 1;
    assert NodeOk(nodes, ix, i);
    assert ChildOk(nodes, ix, i, ix.lo[i], ix.hi[i], n.bounds, n.children, 0);
    assert ChildOk(nodes, ix, i, ix.lo[i], ix.hi[i], n.bounds, n.children, j);
    assert ChildOk(nodes, ix, i, ix.lo[i], ix.hi[i], n.bounds, n.children, last);
    assert NodeOk(nodes, ix, n.children[0]) && NodeOk(nodes, ix, n.children[j]) && NodeOk(nodes, ix, n.children[last]);
    if j > 0 { ChildrenOrdered(nodes, ix, over, i, 0, j); }
    if j < last { ChildrenOrdered(nodes, ix, over, i, j, last); }
  }

  /** The parent of a node, and the node's place among its children. */
  lemma ParentOf(nodes: seq<Node>, ix: Index, over: int, i: int) returns (p: int, j: int)
    requires Tree(nodes, ix, over) && IsNode(nodes, i) && i > 0
    ensures p == nodes[i].parent && IsNode(nodes, p) && 0 <= j < |nodes[p].children| && nodes[p].children[j] == i
    ensures ix.height[p] == ix.height[i] + 1
  {
    p := nodes[i].parent;
    assert LinkOk(nodes, ix, over, i);
    j :| 0 <= j < |nodes[p].children| && nodes[p].children[j] == i;
    assert NodeOk(nodes, ix, p);
    assert ix.height[p] > 0;
    assert ChildOk(nodes, ix, p, ix.lo[p], ix.hi[p], nodes[p].bounds, nodes[p].children, j);
  }

  /** Nodes of the same height hold separate stretches, with at least one separator in between. */
  lemma {:induction false} Separated(nodes: seq<Node>, ix: Index, over: int, a: int, b: int)
    requires Tree(nodes, ix, over) && IsNode(nodes, a) && IsNode(nodes, b) && a != b && ix.height[a] == ix.height[b]
    ensures ix.hi[a] < ix.lo[b] || ix.hi[b] < ix.lo[a]
    decreases ix.height[0] - ix.height[a]
  {
    assert LinkOk(nodes, ix, over, a) && LinkOk(nodes, ix, over, b);
    var p, j := ParentOf(nodes, ix, over, a);
    var q, l := ParentOf(nodes, ix, over, b);
    assert LinkOk(nodes, ix, over, p) && NodeOk(nodes, ix, a);
    if p == q {
      if j < l { ChildrenOrdered(nodes, ix, over, p, j, l); } else { ChildrenOrdered(nodes, ix, over, p, l, j); }
    } else {
      Separated(nodes, ix, over, p, q);
      ChildWithin(nodes, ix, over, p, j);
      ChildWithin(nodes, ix, over, q, l);
    }
  }

  // ----- an entry arrives in a leaf

  ghost function ShiftLo(lo: seq<int>, p: int): (r: seq<int>)
    ensures |r| == |lo| && forall n :: 0 <= n < |lo| ==> r[n] == if lo[n] > p then lo[n] + 1 else lo[n]
  {
    seq(|lo|, n requires 0 <= n < |lo| => if lo[n] > p then lo[n] + 1 else lo[n])
  }

  ghost function ShiftHi(hi: seq<int>, p: int): (r: seq<int>)
    ensures |r| == |hi| && forall n :: 0 <= n < |hi| ==> r[n] == if hi[n] >= p then hi[n] + 1 else hi[n]
  {
    seq(|hi|, n requires 0 <= n < |hi| => if hi[n] >= p then hi[n] + 1 else hi[n])
  }

  ghost function Shift(ix: Index, p: nat, e: Entry): Index
    requires p <= |ix.flat|
  {
    Index(InsertAt(ix.flat, p, e), ShiftLo(ix.lo, p), ShiftHi(ix.hi, p), ix.height)
  }

  /** Node i with one more entry, and the child to the left of it. */
  function WithInserted(nodes: seq<Node>, i: int, c: int, e: Entry, child: int): (r: seq<Node>)
    requires 0 <= i < |nodes| && 0 <= c <= |nodes[i].bounds| && |nodes[i].children| == |nodes[i].bounds| + 1
    ensures |r| == |nodes|
  {
    nodes[i := nodes[i].(bounds := InsertAt(nodes[i].bounds, c, e), children := InsertAt(nodes[i].children, c, child))]
  }

  lemma ShiftChild(nodes: seq<Node>, nodes': seq<Node>, ix: Index, p: nat, e: Entry, n: int, b: seq<Entry>, ch: seq<int>, j: int)
    requires IndexFits(nodes, ix) && |nodes'| == |nodes| && p <= |ix.flat|
    requires forall m :: 0 <= m < |nodes| ==> nodes'[m].parent == nodes[m].parent
    requires IsNode(nodes, n) && 0 <= j < |ch| == |b| + 1
    requires ChildOk(nodes, ix, n, ix.lo[n], ix.hi[n], b, ch, j)
    ensures ChildOk(nodes', Shift(ix, p, e), n, Shift(ix, p, e).lo[n], Shift(ix, p, e).hi[n], b, ch, j)
  {}

  lemma ShiftInner(nodes: seq<Node>, nodes': seq<Node>, ix: Index, p: nat, e: Entry, n: int)
    requires IndexFits(nodes, ix) && |nodes'| == |nodes| && p <= |ix.flat|
    requires forall m :: 0 <= m < |nodes| ==> nodes'[m].parent == nodes[m].parent
    requires IsNode(nodes, n) && nodes'[n] == nodes[n] && ix.height[n] > 0 && NodeOk(nodes, ix, n)
    ensures NodeOk(nodes', Shift(ix, p, e), n)
  {
    var ix', b, ch := Shift(ix, p, e), nodes[n].bounds, nodes[n].children;
    forall j | 0 <= j < |ch| ensures ChildOk(nodes', ix', n, ix'.lo[n], ix'.hi[n], b, ch, j) {
      ShiftChild(nodes, nodes', ix, p, e, n, b, ch, j);
    }
  }

  lemma ShiftSlice(flat: seq<Entry>, p: nat, e: Entry, lo: int, hi: int)
    requires p <= |flat| && 0 <= lo <= hi <= |flat|
    ensures hi < p ==> InsertAt(flat, p, e)[lo..hi] == flat[lo..hi]
    ensures lo > p ==> InsertAt(flat, p, e)[lo + 1..hi + 1] == flat[lo..hi]
    ensures lo <= p <= hi ==> InsertAt(flat, p, e)[lo..hi + 1] == InsertAt(flat[lo..hi], p - lo, e)
  {}

  lemma ShiftOwnLeaf(ix: Index, lo: int, hi: int, b: seq<Entry>, ch: seq<int>, c: nat, e: Entry)
    requires LeafOk(ix, lo, hi, b, ch) && |ch| == |b| + 1 && c <= |b|
    ensures lo + c <= |ix.flat| && LeafOk(Shift(ix, lo + c, e), lo, hi + 1, InsertAt(b, c, e), InsertAt(ch, c, NULL))
  {
    ShiftSlice(ix.flat, lo + c, e, lo, hi);
  }

  lemma ShiftOtherLeaf(ix: Index, lo: int, hi: int, b: seq<Entry>, ch: seq<int>, p: nat, e: Entry)
    requires LeafOk(ix, lo, hi, b, ch) && p <= |ix.flat| && (hi < p || p < lo)
    ensures if p < lo then LeafOk(Shift(ix, p, e), lo + 1, hi + 1, b, ch) else LeafOk(Shift(ix, p, e), lo, hi, b, ch)
  {
    ShiftSlice(ix.flat, p, e, lo, hi);
  }

  lemma ShiftLeaf(nodes: seq<Node>, ix: Index, i: int, c: int, e: Entry, n: int)
    requires IndexFits(nodes, ix) && IsNode(nodes, i) && NodeOk(nodes, ix, i) && ix.height[i] == 0 && 0 <= c <= |nodes[i].bounds|
    requires IsNode(nodes, n) && NodeOk(nodes, ix, n) && ix.height[n] == 0
    requires n != i ==> ix.hi[i] < ix.lo[n] || ix.hi[n] < ix.lo[i]
    ensures ix.lo[i] + c <= |ix.flat| && NodeOk(WithInserted(nodes, i, c, e, NULL), Shift(ix, ix.lo[i] + c, e), n)
  {
    if n == i {
      ShiftOwnLeaf(ix, ix.lo[i], ix.hi[i], nodes[i].bounds, nodes[i].children, c, e);
    } else {
      ShiftOtherLeaf(ix, ix.lo[n], ix.hi[n], nodes[n].bounds, nodes[n].children, ix.lo[i] + c, e);
    }
  }

  lemma ShiftLink(nodes: seq<Node>, ix: Index, i: int, c: int, e: Entry, n: int)
    requires Tree(nodes, ix, NULL) && IsNode(nodes, i) && ix.height[i] == 0 && 0 <= c <= |nodes[i].bounds|
    requires IsNode(nodes, n)
    ensures var p := ix.lo[i] + c;
      0 <= p <= |ix.flat| && |nodes[i].children| == |nodes[i].bounds| + 1 && LinkOk(WithInserted(nodes, i, c, e, NULL), Shift(ix, p, e), i, n)
  {
    assert NodeOk(nodes, ix, i);
    assert LinkOk(nodes, ix, NULL, n);
    if n > 0 {
      var q, j := ParentOf(nodes, ix, NULL, n);
      assert q != i;
    }
  }

  lemma LeafInsertion(nodes: seq<Node>, ix: Index, i: int, c: int, e: Entry)
    requires Tree(nodes, ix, NULL) && IsNode(nodes, i) && ix.height[i] == 0 && 0 <= c <= |nodes[i].bounds|
    requires IsUpper(ix.flat, e.key, ix.lo[i] + c)
    ensures |nodes[i].children| == |nodes[i].bounds| + 1
    ensures Tree(WithInserted(nodes, i, c, e, NULL), Shift(ix, ix.lo[i] + c, e), i)
  {
    assert NodeOk(nodes, ix, i);
    var p := ix.lo[i] + c;
    var nodes', ix' := WithInserted(nodes, i, c, e, NULL), Shift(ix, p, e);
    InsertKeepsSorted(ix.flat, p, e);
    forall n | IsNode(nodes', n) ensures NodeOk(nodes', ix', n) { ShiftNode(nodes, ix, i, c, e, n); }
    forall n | IsNode(nodes', n) ensures LinkOk(nodes', ix', i, n) { ShiftLink(nodes, ix, i, c, e, n); }
  }

  lemma ShiftNode(nodes: seq<Node>, ix: Index, i: int, c: int, e: Entry, n: int)
    requires Tree(nodes, ix, NULL) && IsNode(nodes, i) && ix.height[i] == 0 && 0 <= c <= |nodes[i].bounds| && IsNode(nodes, n)
    requires 0 <= ix.lo[i] + c <= |ix.flat| && |nodes[i].children| == |nodes[i].bounds| + 1
    ensures NodeOk(WithInserted(nodes, i, c, e, NULL), Shift(ix, ix.lo[i] + c, e), n)
  {
    assert NodeOk(nodes, ix, i) && NodeOk(nodes, ix, n);
    if ix.height[n] > 0 {
      ShiftInner(nodes, WithInserted(nodes, i, c, e, NULL), ix, ix.lo[i] + c, e, n);
    } else {
      if n != i { Separated(nodes, ix, NULL, i, n); }
      ShiftLeaf(nodes, ix, i, c, e, n);
    }
  }

  // ----- splitting an overfull node

  const SPLIT := MAX_ENTRIES / 2

  /** All nodes in kids get a new parent. */
  function Adopt(nodes: seq<Node>, kids: seq<int>, p: int): (r: seq<Node>)
    ensures |r| == |nodes|
    ensures forall n :: 0 <= n < |nodes| ==> r[n] == if n in kids then nodes[n].(parent := p) else nodes[n]
  {
    seq(|nodes|, n requires 0 <= n < |nodes| => if n in kids then nodes[n].(parent := p) else nodes[n])
  }

  function LeftPart(n: Node): Node
    requires |n.bounds| == MAX_ENTRIES + 1 && |n.children| == MAX_ENTRIES + 2
  {
    Node(n.bounds[..SPLIT], n.children[..SPLIT + 1], n.parent)
  }

  function RightPart(n: Node): Node
    requires |n.bounds| == MAX_ENTRIES + 1 && |n.children| == MAX_ENTRIES + 2
  {
    Node(n.bounds[SPLIT + 1..], n.children[SPLIT + 1..], n.parent)
  }

  /** me keeps the right part, a new node at the end of the table gets the left part. */
  function SplitTable(nodes: seq<Node>, me: int): (r: seq<Node>)
    requires 0 <= me < |nodes| && |nodes[me].bounds| == MAX_ENTRIES + 1 && |nodes[me].children| == MAX_ENTRIES + 2
    ensures |r| == |nodes| + 1
  {
    Adopt(nodes[me := RightPart(nodes[me])] + [LeftPart(nodes[me])], nodes[me].children[..SPLIT + 1], |nodes|)
  }

  ghost function SplitIndex(ix: Index, me: int, sep: int): Index
    requires 0 <= me < |ix.lo| == |ix.hi| == |ix.height|
  {
    Index(ix.flat, ix.lo[me := sep + 1] + [ix.lo[me]], ix.hi + [sep], ix.height + [ix.height[me]])
  }

  /** me is overfull and child number ci of p. */
  ghost predicate Splitting(nodes: seq<Node>, ix: Index, me: int, p: int, ci: int) {
    && Tree(nodes, ix, me) && IsNode(nodes, me) && me > 0
    && |nodes[me].bounds| == MAX_ENTRIES + 1 && |nodes[me].children| == MAX_ENTRIES + 2
    && p == nodes[me].parent && IsNode(nodes, p)
    && 0 <= ci < |nodes[p].children| && nodes[p].children[ci] == me && |nodes[p].children| == |nodes[p].bounds| + 1
    && ix.height[p] == ix.height[me] + 1
  }

  ghost function Separator(nodes: seq<Node>, ix: Index, me: int): int
    requires IndexFits(nodes, ix) && IsNode(nodes, me) && NodeOk(nodes, ix, me) && |nodes[me].bounds| == MAX_ENTRIES + 1
  {
    Gap(nodes, ix, me, SPLIT)
  }

  ghost function AfterSplit(nodes: seq<Node>, me: int, p: int, ci: int): seq<Node>
    requires IsNode(nodes, me) && |nodes[me].bounds| == MAX_ENTRIES + 1 && |nodes[me].children| == MAX_ENTRIES + 2
    requires IsNode(nodes, p) && p != me && 0 <= ci < |nodes[p].children| == |nodes[p].bounds| + 1
  {
    WithInserted(SplitTable(nodes, me), p, ci, nodes[me].bounds[SPLIT], |nodes|)
  }

  /** What splitting me does to the table and to the proof's view of it. */
  ghost predicate IsSplit(nodes: seq<Node>, ix: Index, V: seq<Node>, jx: Index, me: int, p: int, ci: int)
    requires Splitting(nodes, ix, me, p, ci)
  {
    var left, all, kids := |nodes|, nodes[me].bounds, nodes[me].children;
    && p != me && |V| == |nodes| + 1 && IndexFits(V, jx)
    && V[left] == Node(all[..SPLIT], kids[..SPLIT + 1], p)
    && V[me].bounds == all[SPLIT + 1..] && V[me].children == kids[SPLIT + 1..]
    && V[p].bounds == InsertAt(nodes[p].bounds, ci, all[SPLIT]) && V[p].children == InsertAt(nodes[p].children, ci, left)
    && (forall n :: 0 <= n < |nodes| && n != me && n != p ==> V[n].bounds == nodes[n].bounds && V[n].children == nodes[n].children)
    && (forall n :: 0 <= n < |nodes| ==> V[n].parent == if n in kids[..SPLIT + 1] then left else nodes[n].parent)
    && NodeOk(nodes, ix, me)
    && jx == SplitIndex(ix, me, Gap(nodes, ix, me, SPLIT))
  }

  /** A node among the kids that move has me as its parent. */
  lemma MovedKid(nodes: seq<Node>, ix: Index, me: int, c: int)
    requires Tree(nodes, ix, me) && IsNode(nodes, me) && IsNode(nodes, c) && SPLIT + 1 <= |nodes[me].children|
    requires c in nodes[me].children[..SPLIT + 1]
    ensures nodes[c].parent == me
  {
    var kids := nodes[me].children[..SPLIT + 1];
    assert NodeOk(nodes, ix, me);
    var j :| 0 <= j < |kids| && kids[j] == c;
    assert nodes[me].children[j] == c;
    assert ix.height[me] > 0;
    assert ChildOk(nodes, ix, me, ix.lo[me], ix.hi[me], nodes[me].bounds, nodes[me].children, j);
  }

  lemma RightKidsStay(nodes: seq<Node>, ix: Index, me: int, j: int)
    requires Tree(nodes, ix, me) && IsNode(nodes, me) && ix.height[me] > 0
    requires |nodes[me].bounds| == MAX_ENTRIES + 1 && |nodes[me].children| == MAX_ENTRIES + 2 && SPLIT < j < |nodes[me].children|
    ensures nodes[me].children[j] !in nodes[me].children[..SPLIT + 1]
  {
    var kids := nodes[me].children;
    forall m | 0 <= m < SPLIT + 1 ensures kids[m] != kids[j] {
      ChildrenOrdered(nodes, ix, me, me, m, j);
      assert NodeOk(nodes, ix, kids[m]);
    }
  }

  lemma OtherSiblings(nodes: seq<Node>, ix: Index, me: int, p: int, ci: int, l: int)
    requires Splitting(nodes, ix, me, p, ci) && 0 <= l < |nodes[p].children|
    ensures nodes[p].children[l] == me <==> l == ci
  {
    assert NodeOk(nodes, ix, me);
    if l < ci { ChildrenOrdered(nodes, ix, me, p, l, ci); }
    if l > ci { ChildrenOrdered(nodes, ix, me, p, ci, l); }
  }

  lemma SplitKeepsOther(nodes: seq<Node>, ix: Index, V: seq<Node>, jx: Index, me: int, p: int, ci: int, n: int)
    requires Splitting(nodes, ix, me, p, ci) && IsSplit(nodes, ix, V, jx, me, p, ci) && IsNode(nodes, n) && n != me && n != p
    ensures NodeOk(V, jx, n)
  {
    assert NodeOk(nodes, ix, n);
    var b, ch := nodes[n].bounds, nodes[n].children;
    if ix.height[n] > 0 {
      forall j | 0 <= j < |ch| ensures ChildOk(V, jx, n, jx.lo[n], jx.hi[n], b, ch, j) {
        assert ChildOk(nodes, ix, n, ix.lo[n], ix.hi[n], b, ch, j);
        if ch[j] in nodes[me].children[..SPLIT + 1] { MovedKid(nodes, ix, me, ch[j]); }
        if j < |b| { assert ChildOk(nodes, ix, n, ix.lo[n], ix.hi[n], b, ch, j + 1); }
      }
    }
  }

  lemma SplitLeftChild(nodes: seq<Node>, ix: Index, V: seq<Node>, jx: Index, me: int, p: int, ci: int, j: int)
    requires Splitting(nodes, ix, me, p, ci) && IsSplit(nodes, ix, V, jx, me, p, ci) && ix.height[me] > 0 && 0 <= j <= SPLIT
    ensures ChildOk(V, jx, |nodes|, jx.lo[|nodes|], jx.hi[|nodes|], V[|nodes|].bounds, V[|nodes|].children, j)
  {
    var c := nodes[me].children[..SPLIT + 1][j];
    assert c == nodes[me].children[j] && c in nodes[me].children[..SPLIT + 1];
    assert ChildOk(nodes, ix, me, ix.lo[me], ix.hi[me], nodes[me].bounds, nodes[me].children, j);
    assert ChildOk(nodes, ix, me, ix.lo[me], ix.hi[me], nodes[me].bounds, nodes[me].children, j + 1);
  }

  lemma SplitLeft(nodes: seq<Node>, ix: Index, V: seq<Node>, jx: Index, me: int, p: int, ci: int)
    requires Splitting(nodes, ix, me, p, ci) && IsSplit(nodes, ix, V, jx, me, p, ci)
    ensures NodeOk(V, jx, |nodes|)
  {
    if ix.height[me] == 0 {
      SplitLeafSlices(nodes[me].bounds, ix.flat, ix.lo[me], ix.hi[me]);
    } else {
      forall j | 0 <= j < SPLIT + 1
        ensures ChildOk(V, jx, |nodes|, jx.lo[|nodes|], jx.hi[|nodes|], V[|nodes|].bounds, V[|nodes|].children, j)
      {
        SplitLeftChild(nodes, ix, V, jx, me, p, ci, j);
      }
      ChildWithin(nodes, ix, me, me, SPLIT);
    }
  }

  lemma SplitLeafSlices(b: seq<Entry>, flat: seq<Entry>, lo: int, hi: int)
    requires 0 <= lo <= hi <= |flat| && b == flat[lo..hi] && |b| == MAX_ENTRIES + 1
    ensures b[..SPLIT] == flat[lo..lo + SPLIT] && b[SPLIT + 1..] == flat[lo + SPLIT + 1..hi]
  {}

  lemma SplitRightChild(nodes: seq<Node>, ix: Index, V: seq<Node>, jx: Index, me: int, p: int, ci: int, j: int)
    requires Splitting(nodes, ix, me, p, ci) && IsSplit(nodes, ix, V, jx, me, p, ci) && ix.height[me] > 0 && 0 <= j <= SPLIT
    ensures ChildOk(V, jx, me, jx.lo[me], jx.hi[me], V[me].bounds, V[me].children, j)
  {
    var all, kids, l := nodes[me].bounds, nodes[me].children, SPLIT + 1 + j;
    assert V[me].children[j] == kids[l];
    assert ChildOk(nodes, ix, me, ix.lo[me], ix.hi[me], all, kids, SPLIT);
    assert ChildOk(nodes, ix, me, ix.lo[me], ix.hi[me], all, kids, l);
    RightKidsStay(nodes, ix, me, l);
    if l < |all| { assert ChildOk(nodes, ix, me, ix.lo[me], ix.hi[me], all, kids, l + 1); }
  }

  lemma SplitRight(nodes: seq<Node>, ix: Index, V: seq<Node>, jx: Index, me: int, p: int, ci: int)
    requires Splitting(nodes, ix, me, p, ci) && IsSplit(nodes, ix, V, jx, me, p, ci)
    ensures NodeOk(V, jx, me)
  {
    if ix.height[me] == 0 { SplitRightLeaf(nodes, ix, V, jx, me, p, ci); } else { SplitRightInner(nodes, ix, V, jx, me, p, ci); }
  }

  lemma SplitRightLeaf(nodes: seq<Node>, ix: Index, V: seq<Node>, jx: Index, me: int, p: int, ci: int)
    requires Splitting(nodes, ix, me, p, ci) && IsSplit(nodes, ix, V, jx, me, p, ci) && ix.height[me] == 0
    ensures NodeOk(V, jx, me)
  {
    SplitLeafSlices(nodes[me].bounds, ix.flat, ix.lo[me], ix.hi[me]);
  }

  lemma SplitRightInner(nodes: seq<Node>, ix: Index, V: seq<Node>, jx: Index, me: int, p: int, ci: int)
    requires Splitting(nodes, ix, me, p, ci) && IsSplit(nodes, ix, V, jx, me, p, ci) && ix.height[me] > 0
    ensures NodeOk(V, jx, me)
  {
    assert |V[me].children| == SPLIT + 1;
    forall j | 0 <= j < SPLIT + 1 ensures ChildOk(V, jx, me, jx.lo[me], jx.hi[me], V[me].bounds, V[me].children, j) {
      SplitRightChild(nodes, ix, V, jx, me, p, ci, j);
    }
    assert ChildOk(nodes, ix, me, ix.lo[me], ix.hi[me], nodes[me].bounds, nodes[me].children, SPLIT);
    ChildWithin(nodes, ix, me, me, SPLIT);
    ChildWithin(nodes, ix, me, me, SPLIT + 1);
  }

  lemma SplitParentNew(nodes: seq<Node>, ix: Index, V: seq<Node>, jx: Index, me: int, p: int, ci: int)
    requires Splitting(nodes, ix, me, p, ci) && IsSplit(nodes, ix, V, jx, me, p, ci)
    ensures ChildOk(V, jx, p, jx.lo[p], jx.hi[p], V[p].bounds, V[p].children, ci)
  {
    GapEntry(nodes, ix, me, SPLIT);
    assert NodeOk(nodes, ix, p);
    assert ChildOk(nodes, ix, p, ix.lo[p], ix.hi[p], nodes[p].bounds, nodes[p].children, ci);
    assert V[p].children[ci] == |nodes| && V[p].children[ci + 1] == me;
  }

  /** A child that was in order before is in order between the same separators. */
  lemma SiblingOk(nodes: seq<Node>, ix: Index, V: seq<Node>, jx: Index, p: int, b: seq<Entry>, ch: seq<int>, l: int, b': seq<Entry>, ch': seq<int>, j: int)
    requires IndexFits(nodes, ix) && IndexFits(V, jx) && |V| == |nodes| + 1 && IsNode(nodes, p) && jx.flat == ix.flat
    requires 0 <= l < |ch| == |b| + 1 && 0 <= j < |ch'| == |b'| + 1 && ChildOk(nodes, ix, p, ix.lo[p], ix.hi[p], b, ch, l)
    requires ch'[j] == ch[l] && V[ch[l]].parent == p && jx.height[ch[l]] == ix.height[ch[l]] && jx.height[p] == ix.height[p]
    requires jx.hi[ch[l]] == ix.hi[ch[l]] && jx.hi[p] == ix.hi[p] && jx.lo[p] == ix.lo[p]
    requires j == 0 ==> l == 0 && jx.lo[ch[l]] == ix.lo[ch[l]]
    requires j == |b'| <==> l == |b|
    requires l < |b| ==> b'[j] == b[l] && IsNode(V, ch'[j + 1]) && jx.lo[ch'[j + 1]] == ix.hi[ch[l]] + 1
    ensures ChildOk(V, jx, p, jx.lo[p], jx.hi[p], b', ch', j)
  {}

  lemma SplitParentOld(nodes: seq<Node>, ix: Index, V: seq<Node>, jx: Index, me: int, p: int, ci: int, l: int)
    requires Splitting(nodes, ix, me, p, ci) && IsSplit(nodes, ix, V, jx, me, p, ci) && 0 <= l < |nodes[p].children|
    ensures ChildOk(V, jx, p, jx.lo[p], jx.hi[p], V[p].bounds, V[p].children, if l < ci then l else l + 1)
  {
    var b, ch, j := nodes[p].bounds, nodes[p].children, if l < ci then l else l + 1;
    assert NodeOk(nodes, ix, p);
    assert ChildOk(nodes, ix, p, ix.lo[p], ix.hi[p], b, ch, l);
    OtherSiblings(nodes, ix, me, p, ci, l);
    assert V[ch[l]].parent == p by {
      if ch[l] in nodes[me].children[..SPLIT + 1] { MovedKid(nodes, ix, me, ch[l]); }
    }
    if l < |b| {
      assert ChildOk(nodes, ix, p, ix.lo[p], ix.hi[p], b, ch, l + 1);
      OtherSiblings(nodes, ix, me, p, ci, l + 1);
    }
    var b', ch' := V[p].bounds, V[p].children;
    assert |b'| == |b| + 1 && |ch'| == |ch| + 1 && ch'[j] == ch[l];
    if l < |b| {
      assert b'[j] == b[l];
      if l + 1 == ci {
        assert ch'[j + 1] == |nodes|;
      } else {
        assert ch'[j + 1] == ch[l + 1];
      }
    }
    SiblingOk(nodes, ix, V, jx, p, b, ch, l, b', ch', j);
  }

  lemma SplitParent(nodes: seq<Node>, ix: Index, V: seq<Node>, jx: Index, me: int, p: int, ci: int)
    requires Splitting(nodes, ix, me, p, ci) && IsSplit(nodes, ix, V, jx, me, p, ci)
    ensures NodeOk(V, jx, p)
  {
    assert NodeOk(nodes, ix, p);
    forall j | 0 <= j < |V[p].children| ensures ChildOk(V, jx, p, jx.lo[p], jx.hi[p], V[p].bounds, V[p].children, j) {
      if j == ci { SplitParentNew(nodes, ix, V, jx, me, p, ci); }
      else { SplitParentOld(nodes, ix, V, jx, me, p, ci, if j < ci then j else j - 1); }
    }
  }

  /** Every node that hung below another one still does. */
  lemma SplitHangs(nodes: seq<Node>, ix: Index, V: seq<Node>, jx: Index, me: int, p: int, ci: int, n: int)
    requires Splitting(nodes, ix, me, p, ci) && IsSplit(nodes, ix, V, jx, me, p, ci) && IsNode(nodes, n) && n > 0
    ensures IsNode(V, V[n].parent) && n in V[V[n].parent].children
  {
    var q, j := ParentOf(nodes, ix, me, n);
    if q == me && j <= SPLIT {
      assert n == nodes[me].children[..SPLIT + 1][j];
    } else if q == me {
      RightKidsStay(nodes, ix, me, j);
      assert V[me].children[j - SPLIT - 1] == n;
    } else {
      if n in nodes[me].children[..SPLIT + 1] { MovedKid(nodes, ix, me, n); }
      assert V[q].children[if q == p && j >= ci then j + 1 else j] == n;
    }
  }

  lemma SplitLink(nodes: seq<Node>, ix: Index, V: seq<Node>, jx: Index, me: int, p: int, ci: int, n: int)
    requires Splitting(nodes, ix, me, p, ci) && IsSplit(nodes, ix, V, jx, me, p, ci) && IsNode(V, n)
    ensures LinkOk(V, jx, p, n)
  {
    assert LinkOk(nodes, ix, me, me) && LinkOk(nodes, ix, me, p) && LinkOk(nodes, ix, me, 0);
    if n == |nodes| {
      assert V[p].children[ci] == n;
    } else {
      assert LinkOk(nodes, ix, me, n);
      if n > 0 {
        SplitHangs(nodes, ix, V, jx, me, p, ci, n);
      } else {
        if 0 in nodes[me].children[..SPLIT + 1] { MovedKid(nodes, ix, me, 0); }
      }
    }
  }

  lemma NewNodeIsNoKid(nodes: seq<Node>, ix: Index, me: int)
    requires Tree(nodes, ix, me) && IsNode(nodes, me)
    ensures |nodes| !in nodes[me].children
  {
    var kids := nodes[me].children;
    assert NodeOk(nodes, ix, me);
    forall j | 0 <= j < |kids| ensures kids[j] != |nodes| {
      if ix.height[me] > 0 { assert ChildOk(nodes, ix, me, ix.lo[me], ix.hi[me], nodes[me].bounds, kids, j); }
    }
  }

  lemma SplitTableFacts(nodes: seq<Node>, me: int, p: int, ci: int)
    requires IsNode(nodes, me) && |nodes[me].bounds| == MAX_ENTRIES + 1 && |nodes[me].children| == MAX_ENTRIES + 2
    requires IsNode(nodes, p) && p != me && 0 <= ci < |nodes[p].children| == |nodes[p].bounds| + 1
    requires |nodes| !in nodes[me].children
    ensures var V, left, all, kids := AfterSplit(nodes, me, p, ci), |nodes|, nodes[me].bounds, nodes[me].children;
      && |V| == |nodes| + 1
      && V[left] == Node(all[..SPLIT], kids[..SPLIT + 1], nodes[me].parent)
      && V[me].bounds == all[SPLIT + 1..] && V[me].children == kids[SPLIT + 1..]
      && V[p].bounds == InsertAt(nodes[p].bounds, ci, all[SPLIT]) && V[p].children == InsertAt(nodes[p].children, ci, left)
      && (forall n :: 0 <= n < |nodes| && n != me && n != p ==> V[n].bounds == nodes[n].bounds && V[n].children == nodes[n].children)
      && (forall n :: 0 <= n < |nodes| ==> V[n].parent == if n in kids[..SPLIT + 1] then left else nodes[n].parent)
  {
    var T := SplitTable(nodes, me);
    assert |nodes| !in nodes[me].children[..SPLIT + 1];
    assert T[p].bounds == nodes[p].bounds && T[p].children == nodes[p].children;
  }

  lemma AfterSplitIsSplit(nodes: seq<Node>, ix: Index, me: int, p: int, ci: int)
    requires Splitting(nodes, ix, me, p, ci) && p != me && NodeOk(nodes, ix, me)
    ensures IsSplit(nodes, ix, AfterSplit(nodes, me, p, ci), SplitIndex(ix, me, Separator(nodes, ix, me)), me, p, ci)
  {
    NewNodeIsNoKid(nodes, ix, me);
    SplitTableFacts(nodes, me, p, ci);
  }

  /** Splitting a node below the root hands the middle entry and the new node to the parent. */
  lemma SplitBelowRoot(nodes: seq<Node>, ix: Index, me: int, p: int, ci: int)
    requires Splitting(nodes, ix, me, p, ci)
    ensures p != me && NodeOk(nodes, ix, me)
    ensures Tree(AfterSplit(nodes, me, p, ci), SplitIndex(ix, me, Separator(nodes, ix, me)), p)
  {
    assert NodeOk(nodes, ix, me);
    var V, jx := AfterSplit(nodes, me, p, ci), SplitIndex(ix, me, Separator(nodes, ix, me));
    AfterSplitIsSplit(nodes, ix, me, p, ci);
    forall n | IsNode(V, n) ensures NodeOk(V, jx, n) {
      if n == |nodes| { SplitLeft(nodes, ix, V, jx, me, p, ci); }
      else if n == me { SplitRight(nodes, ix, V, jx, me, p, ci); }
      else if n == p { SplitParent(nodes, ix, V, jx, me, p, ci); }
      else { SplitKeepsOther(nodes, ix, V, jx, me, p, ci, n); }
    }
    forall n | IsNode(V, n) ensures LinkOk(V, jx, p, n) { SplitLink(nodes, ix, V, jx, me, p, ci, n); }
  }

  // ----- splitting the root

  /** The root keeps its address: its two halves move to new nodes below it. */
  function SplitRootTable(nodes: seq<Node>): (r: seq<Node>)
    requires |nodes| > 0 && |nodes[0].bounds| == MAX_ENTRIES + 1 && |nodes[0].children| == MAX_ENTRIES + 2
    ensures |r| == |nodes| + 2
  {
    var root, left, right := nodes[0], |nodes|, |nodes| + 1;
    Adopt(Adopt(nodes[0 := Node([root.bounds[SPLIT]], [left, right], NULL)] + [LeftPart(root).(parent := 0), RightPart(root).(parent := 0)],
                root.children[..SPLIT + 1], left), root.children[SPLIT + 1..], right)
  }

  ghost function SplitRootIndex(ix: Index, sep: int): Index
    requires 0 < |ix.lo| == |ix.hi| == |ix.height|
  {
    Index(ix.flat, ix.lo + [ix.lo[0], sep + 1], ix.hi + [sep, ix.hi[0]], ix.height[0 := ix.height[0] + 1] + [ix.height[0], ix.height[0]])
  }

  ghost predicate RootOverfull(nodes: seq<Node>, ix: Index) {
    Tree(nodes, ix, 0) && |nodes[0].bounds| == MAX_ENTRIES + 1 && |nodes[0].children| == MAX_ENTRIES + 2 && NodeOk(nodes, ix, 0)
  }

  ghost predicate IsRootSplit(nodes: seq<Node>, ix: Index, V: seq<Node>, jx: Index)
    requires RootOverfull(nodes, ix)
  {
    var left, right, all, kids := |nodes|, |nodes| + 1, nodes[0].bounds, nodes[0].children;
    && |V| == |nodes| + 2 && IndexFits(V, jx)
    && V[0] == Node([all[SPLIT]], [left, right], NULL)
    && V[left] == Node(all[..SPLIT], kids[..SPLIT + 1], 0) && V[right] == Node(all[SPLIT + 1..], kids[SPLIT + 1..], 0)
    && (forall n :: 1 <= n < |nodes| ==> V[n].bounds == nodes[n].bounds && V[n].children == nodes[n].children)
    && (forall n :: 1 <= n < |nodes| ==>
          V[n].parent == if n in kids[SPLIT + 1..] then right else if n in kids[..SPLIT + 1] then left else nodes[n].parent)
    && jx == SplitRootIndex(ix, Gap(nodes, ix, 0, SPLIT))
  }

  lemma RootKids(nodes: seq<Node>, ix: Index, c: int)
    requires RootOverfull(nodes, ix)
    ensures IsNode(nodes, c) && c in nodes[0].children ==> nodes[c].parent == 0 && c > 0
    ensures c in nodes[0].children ==> c < |nodes|
  {
    var kids := nodes[0].children;
    if c in kids {
      var j :| 0 <= j < |kids| && kids[j] == c;
      if ix.height[0] > 0 { assert ChildOk(nodes, ix, 0, ix.lo[0], ix.hi[0], nodes[0].bounds, kids, j); }
    }
  }

  lemma RootSplitKeepsOther(nodes: seq<Node>, ix: Index, V: seq<Node>, jx: Index, n: int)
    requires RootOverfull(nodes, ix) && IsRootSplit(nodes, ix, V, jx) && 1 <= n < |nodes|
    ensures NodeOk(V, jx, n)
  {
    assert NodeOk(nodes, ix, n);
    var b, ch := nodes[n].bounds, nodes[n].children;
    if ix.height[n] > 0 {
      forall j | 0 <= j < |ch| ensures ChildOk(V, jx, n, jx.lo[n], jx.hi[n], b, ch, j) {
        RootOtherChild(nodes, ix, V, jx, n, j);
      }
    }
  }

  lemma RootOtherChild(nodes: seq<Node>, ix: Index, V: seq<Node>, jx: Index, n: int, j: int)
    requires RootOverfull(nodes, ix) && IsRootSplit(nodes, ix, V, jx) && 1 <= n < |nodes| && NodeOk(nodes, ix, n)
    requires ix.height[n] > 0 && 0 <= j < |nodes[n].children|
    ensures ChildOk(V, jx, n, jx.lo[n], jx.hi[n], nodes[n].bounds, nodes[n].children, j)
  {
    var b, ch := nodes[n].bounds, nodes[n].children;
    assert ChildOk(nodes, ix, n, ix.lo[n], ix.hi[n], b, ch, j);
    assert LinkOk(nodes, ix, 0, 0);
    RootKids(nodes, ix, ch[j]);
    assert ch[j] !in nodes[0].children;
    if j < |b| { assert ChildOk(nodes, ix, n, ix.lo[n], ix.hi[n], b, ch, j + 1); }
  }

  lemma RootLeftChild(nodes: seq<Node>, ix: Index, V: seq<Node>, jx: Index, j: int)
    requires RootOverfull(nodes, ix) && IsRootSplit(nodes, ix, V, jx) && ix.height[0] > 0 && 0 <= j <= SPLIT
    ensures ChildOk(V, jx, |nodes|, jx.lo[|nodes|], jx.hi[|nodes|], V[|nodes|].bounds, V[|nodes|].children, j)
  {
    var all, kids := nodes[0].bounds, nodes[0].children;
    var c := kids[..SPLIT + 1][j];
    assert c == kids[j] && c in kids[..SPLIT + 1];
    assert ChildOk(nodes, ix, 0, ix.lo[0], ix.hi[0], all, kids, j);
    assert ChildOk(nodes, ix, 0, ix.lo[0], ix.hi[0], all, kids, j + 1);
    RootKids(nodes, ix, c);
    RootKids(nodes, ix, kids[j + 1]);
    var rest := kids[SPLIT + 1..];
    forall m | 0 <= m < |rest| ensures rest[m] != c {
      ChildrenOrdered(nodes, ix, 0, 0, j, SPLIT + 1 + m);
      assert NodeOk(nodes, ix, c);
    }
  }

  lemma RootRightChild(nodes: seq<Node>, ix: Index, V: seq<Node>, jx: Index, j: int)
    requires RootOverfull(nodes, ix) && IsRootSplit(nodes, ix, V, jx) && ix.height[0] > 0 && 0 <= j <= SPLIT
    ensures ChildOk(V, jx, |nodes| + 1, jx.lo[|nodes| + 1], jx.hi[|nodes| + 1], V[|nodes| + 1].bounds, V[|nodes| + 1].children, j)
  {
    var all, kids, l := nodes[0].bounds, nodes[0].children, SPLIT + 1 + j;
    assert V[|nodes| + 1].children[j] == kids[l] && kids[l] in kids[SPLIT + 1..];
    assert ChildOk(nodes, ix, 0, ix.lo[0], ix.hi[0], all, kids, SPLIT);
    assert ChildOk(nodes, ix, 0, ix.lo[0], ix.hi[0], all, kids, l);
    RootKids(nodes, ix, kids[l]);
    if l < |all| {
      assert ChildOk(nodes, ix, 0, ix.lo[0], ix.hi[0], all, kids, l + 1);
      RootKids(nodes, ix, kids[l + 1]);
    }
  }

  lemma RootHalves(nodes: seq<Node>, ix: Index, V: seq<Node>, jx: Index)
    requires RootOverfull(nodes, ix) && IsRootSplit(nodes, ix, V, jx) && ix.height[0] > 0
    ensures NodeOk(V, jx, |nodes|) && NodeOk(V, jx, |nodes| + 1)
  {
    var l, r := |nodes|, |nodes| + 1;
    assert |V[l].children| == SPLIT + 1 && |V[r].children| == SPLIT + 1;
    forall j | 0 <= j < SPLIT + 1 ensures ChildOk(V, jx, l, jx.lo[l], jx.hi[l], V[l].bounds, V[l].children, j) {
      RootLeftChild(nodes, ix, V, jx, j);
    }
    forall j | 0 <= j < SPLIT + 1 ensures ChildOk(V, jx, r, jx.lo[r], jx.hi[r], V[r].bounds, V[r].children, j) {
      RootRightChild(nodes, ix, V, jx, j);
    }
    assert ChildOk(nodes, ix, 0, ix.lo[0], ix.hi[0], nodes[0].bounds, nodes[0].children, SPLIT);
    ChildWithin(nodes, ix, 0, 0, SPLIT);
    ChildWithin(nodes, ix, 0, 0, SPLIT + 1);
  }

  lemma RootLeafHalves(nodes: seq<Node>, ix: Index, V: seq<Node>, jx: Index)
    requires RootOverfull(nodes, ix) && IsRootSplit(nodes, ix, V, jx) && ix.height[0] == 0
    ensures NodeOk(V, jx, |nodes|) && NodeOk(V, jx, |nodes| + 1)
  {
    SplitLeafSlices(nodes[0].bounds, ix.flat, ix.lo[0], ix.hi[0]);
  }

  lemma NewRoot(nodes: seq<Node>, ix: Index, V: seq<Node>, jx: Index)
    requires RootOverfull(nodes, ix) && IsRootSplit(nodes, ix, V, jx)
    ensures NodeOk(V, jx, 0)
  {
    GapEntry(nodes, ix, 0, SPLIT);
    assert LinkOk(nodes, ix, 0, 0);
    var b, ch := V[0].bounds, V[0].children;
    assert ChildOk(V, jx, 0, jx.lo[0], jx.hi[0], b, ch, 0);
    assert ChildOk(V, jx, 0, jx.lo[0], jx.hi[0], b, ch, 1);
  }

  lemma RootSplitLink(nodes: seq<Node>, ix: Index, V: seq<Node>, jx: Index, n: int)
    requires RootOverfull(nodes, ix) && IsRootSplit(nodes, ix, V, jx) && IsNode(V, n)
    ensures LinkOk(V, jx, NULL, n)
  {
    assert LinkOk(nodes, ix, 0, 0);
    if n == |nodes| {
      assert V[0].children[0] == n;
    } else if n == |nodes| + 1 {
      assert V[0].children[1] == n;
    } else if n > 0 {
      assert LinkOk(nodes, ix, 0, n);
      var q, j := ParentOf(nodes, ix, 0, n);
      var kids := nodes[0].children;
      if q == 0 {
        if j <= SPLIT { assert kids[..SPLIT + 1][j] == n; } else { assert kids[SPLIT + 1..][j - SPLIT - 1] == n; }
      } else {
        RootKids(nodes, ix, n);
        assert n !in kids[..SPLIT + 1] && n !in kids[SPLIT + 1..];
        assert V[q].children[j] == n;
      }
    }
  }

  lemma SplitRootIsRootSplit(nodes: seq<Node>, ix: Index)
    requires RootOverfull(nodes, ix)
    ensures IsRootSplit(nodes, ix, SplitRootTable(nodes), SplitRootIndex(ix, Gap(nodes, ix, 0, SPLIT)))
  {
    RootIsNoKid(nodes, ix);
    RootSplitShape(nodes);
  }

  lemma RootIsNoKid(nodes: seq<Node>, ix: Index)
    requires RootOverfull(nodes, ix)
    ensures var kids := nodes[0].children; 0 !in kids && |nodes| !in kids && |nodes| + 1 !in kids
  {
    RootKids(nodes, ix, 0);
    RootKids(nodes, ix, |nodes|);
    RootKids(nodes, ix, |nodes| + 1);
  }

  lemma RootSplitShape(nodes: seq<Node>)
    requires |nodes| > 0 && |nodes[0].bounds| == MAX_ENTRIES + 1 && |nodes[0].children| == MAX_ENTRIES + 2
    requires var kids := nodes[0].children; 0 !in kids && |nodes| !in kids && |nodes| + 1 !in kids
    ensures var V, left, right, all, kids := SplitRootTable(nodes), |nodes|, |nodes| + 1, nodes[0].bounds, nodes[0].children;
      && V[0] == Node([all[SPLIT]], [left, right], NULL)
      && V[left] == Node(all[..SPLIT], kids[..SPLIT + 1], 0) && V[right] == Node(all[SPLIT + 1..], kids[SPLIT + 1..], 0)
      && (forall n :: 1 <= n < |nodes| ==> V[n].bounds == nodes[n].bounds && V[n].children == nodes[n].children)
      && (forall n :: 1 <= n < |nodes| ==>
            V[n].parent == if n in kids[SPLIT + 1..] then right else if n in kids[..SPLIT + 1] then left else nodes[n].parent)
  {}

  lemma SplitRoot(nodes: seq<Node>, ix: Index)
    requires RootOverfull(nodes, ix)
    ensures Tree(SplitRootTable(nodes), SplitRootIndex(ix, Gap(nodes, ix, 0, SPLIT)), NULL)
  {
    var V, jx := SplitRootTable(nodes), SplitRootIndex(ix, Gap(nodes, ix, 0, SPLIT));
    SplitRootIsRootSplit(nodes, ix);
    forall n | IsNode(V, n) ensures NodeOk(V, jx, n) { RootSplitNode(nodes, ix, V, jx, n); }
    forall n | IsNode(V, n) ensures LinkOk(V, jx, NULL, n) { RootSplitLink(nodes, ix, V, jx, n); }
  }

  lemma RootSplitNode(nodes: seq<Node>, ix: Index, V: seq<Node>, jx: Index, n: int)
    requires RootOverfull(nodes, ix) && IsRootSplit(nodes, ix, V, jx) && IsNode(V, n)
    ensures NodeOk(V, jx, n)
  {
    if n == 0 { NewRoot(nodes, ix, V, jx); }
    else if n < |nodes| { RootSplitKeepsOther(nodes, ix, V, jx, n); }
    else if ix.height[0] == 0 { RootLeafHalves(nodes, ix, V, jx); }
    else { RootHalves(nodes, ix, V, jx); }
  }

  // ----- the table's own in-order traversal

  /** Node i's subtree in order, from child j on; h is the node's height. */
  ghost function InOrder(nodes: seq<Node>, i: int, h: nat, j: nat): seq<Entry>
    requires IsNode(nodes, i)
    decreases h, |nodes[i].children| - j
  {
    var n := nodes[i];
    if h == 0 then n.bounds
    else if j >= |n.children| then []
    else
      (if IsNode(nodes, n.children[j]) then InOrder(nodes, n.children[j], h - 1, 0) else [])
      + (if j < |n.bounds| then [n.bounds[j]] else []) + InOrder(nodes, i, h, j + 1)
  }

  /** Where the part of node i's stretch from child j on begins. */
  ghost function StartOf(nodes: seq<Node>, ix: Index, i: int, j: nat): int
    requires IndexFits(nodes, ix) && IsNode(nodes, i) && NodeOk(nodes, ix, i) && j < |nodes[i].children|
  {
    if ix.height[i] == 0 then ix.lo[i]
    else
      assert ChildOk(nodes, ix, i, ix.lo[i], ix.hi[i], nodes[i].bounds, nodes[i].children, j);
      ix.lo[nodes[i].children[j]]
  }

  ghost predicate InOrderOk(nodes: seq<Node>, ix: Index, i: int, j: nat)
    requires IndexFits(nodes, ix) && IsNode(nodes, i) && NodeOk(nodes, ix, i) && j < |nodes[i].children|
  {
    && 0 <= StartOf(nodes, ix, i, j) <= ix.hi[i] <= |ix.flat|
    && InOrder(nodes, i, ix.height[i], j) == ix.flat[StartOf(nodes, ix, i, j)..ix.hi[i]]
  }

  lemma JoinStretches(flat: seq<Entry>, a: int, m: int, z: int)
    requires 0 <= a <= m < z <= |flat|
    ensures flat[a..m] + [flat[m]] + flat[m + 1..z] == flat[a..z]
  {}

  lemma InOrderUnfold(nodes: seq<Node>, i: int, h: nat, j: nat)
    requires IsNode(nodes, i) && h > 0 && j < |nodes[i].children| == |nodes[i].bounds| + 1 && IsNode(nodes, nodes[i].children[j])
    ensures j < |nodes[i].bounds| ==>
      InOrder(nodes, i, h, j) == InOrder(nodes, nodes[i].children[j], h - 1, 0) + [nodes[i].bounds[j]] + InOrder(nodes, i, h, j + 1)
    ensures j == |nodes[i].bounds| ==> InOrder(nodes, i, h, j) == InOrder(nodes, nodes[i].children[j], h - 1, 0)
  {}

  lemma InOrderStep(nodes: seq<Node>, ix: Index, i: int, j: nat, c: int)
    requires IndexFits(nodes, ix) && IsNode(nodes, i) && NodeOk(nodes, ix, i) && ix.height[i] > 0 && j < |nodes[i].children|
    requires c == nodes[i].children[j] && IsNode(nodes, c)
    requires ChildOk(nodes, ix, i, ix.lo[i], ix.hi[i], nodes[i].bounds, nodes[i].children, j)
    requires 0 <= ix.lo[c] <= ix.hi[c] <= ix.hi[i] <= |ix.flat|
    requires InOrder(nodes, c, ix.height[i] - 1, 0) == ix.flat[ix.lo[c]..ix.hi[c]]
    requires j + 1 < |nodes[i].children| ==> InOrderOk(nodes, ix, i, j + 1) && ix.hi[c] < ix.hi[i]
    ensures InOrderOk(nodes, ix, i, j)
  {
    var n := nodes[i];
    InOrderUnfold(nodes, i, ix.height[i], j);
    if j < |n.bounds| {
      assert ChildOk(nodes, ix, i, ix.lo[i], ix.hi[i], n.bounds, n.children, j + 1);
      JoinStretches(ix.flat, ix.lo[c], ix.hi[c], ix.hi[i]);
    }
  }

  lemma StartIsLo(nodes: seq<Node>, ix: Index, c: int)
    requires IndexFits(nodes, ix) && IsNode(nodes, c) && NodeOk(nodes, ix, c)
    ensures StartOf(nodes, ix, c, 0) == ix.lo[c]
  {
    if ix.height[c] > 0 { assert ChildOk(nodes, ix, c, ix.lo[c], ix.hi[c], nodes[c].bounds, nodes[c].children, 0); }
  }

  lemma ChildBefore(nodes: seq<Node>, ix: Index, over: int, i: int, j: nat)
    requires Tree(nodes, ix, over) && IsNode(nodes, i) && ix.height[i] > 0 && j + 1 < |nodes[i].children|
    ensures IsNode(nodes, nodes[i].children[j]) && ix.hi[nodes[i].children[j]] < ix.hi[i]
  {
    ChildrenOrdered(nodes, ix, over, i, j, j + 1);
    ChildWithin(nodes, ix, over, i, j + 1);
  }

  /** A subtree's entries in order are its stretch. */
  lemma {:induction false} InOrderIsStretch(nodes: seq<Node>, ix: Index, over: int, i: int, j: nat)
    requires Tree(nodes, ix, over) && IsNode(nodes, i) && NodeOk(nodes, ix, i)
    requires j < |nodes[i].children| && (ix.height[i] == 0 ==> j == 0)
    ensures InOrderOk(nodes, ix, i, j)
    decreases ix.height[i], |nodes[i].children| - j
  {
    if ix.height[i] > 0 {
      var c := nodes[i].children[j];
      assert ChildOk(nodes, ix, i, ix.lo[i], ix.hi[i], nodes[i].bounds, nodes[i].children, j);
      assert NodeOk(nodes, ix, c);
      InOrderIsStretch(nodes, ix, over, c, 0);
      StartIsLo(nodes, ix, c);
      ChildWithin(nodes, ix, over, i, j);
      if j + 1 < |nodes[i].children| {
        InOrderIsStretch(nodes, ix, over, i, j + 1);
        ChildBefore(nodes, ix, over, i, j);
      }
      InOrderStep(nodes, ix, i, j, c);
    }
  }

  /** The whole tree in order is the sorted sequence. */
  lemma RootInOrder(nodes: seq<Node>, ix: Index)
    requires Tree(nodes, ix, NULL)
    ensures ix.height[0] >= 0 && InOrder(nodes, 0, ix.height[0], 0) == ix.flat
  {
    assert NodeOk(nodes, ix, 0) && LinkOk(nodes, ix, NULL, 0);
    if ix.height[0] > 0 { assert ChildOk(nodes, ix, 0, ix.lo[0], ix.hi[0], nodes[0].bounds, nodes[0].children, 0); }
    InOrderIsStretch(nodes, ix, NULL, 0, 0);
  }

  // ----- searching

  /** Everything before node i's stretch has a key of at most k, everything behind it a greater one. */
  ghost predicate Brackets(nodes: seq<Node>, ix: Index, i: int, k: int)
    requires IndexFits(nodes, ix) && IsNode(nodes, i)
  {
    && (forall x :: 0 <= x < |ix.flat| && x < ix.lo[i] ==> ix.flat[x].key <= k)
    && (forall x :: 0 <= x < |ix.flat| && ix.hi[i] <= x ==> ix.flat[x].key > k)
  }

  /** c is the first entry of b with a key above k. */
  ghost predicate IsBoundPosition(b: seq<Entry>, k: int, c: int) {
    0 <= c <= |b| && (forall j :: 0 <= j < c ==> b[j].key <= k) && (c < |b| ==> b[c].key > k)
  }

  lemma BracketsChild(nodes: seq<Node>, ix: Index, over: int, i: int, k: int, c: int)
    requires Tree(nodes, ix, over) && IsNode(nodes, i) && ix.height[i] > 0 && Brackets(nodes, ix, i, k)
    requires IsBoundPosition(nodes[i].bounds, k, c) && |nodes[i].children| == |nodes[i].bounds| + 1
    ensures IsNode(nodes, nodes[i].children[c]) && Brackets(nodes, ix, nodes[i].children[c], k)
    ensures ix.height[nodes[i].children[c]] == ix.height[i] - 1
  {
    assert NodeOk(nodes, ix, i);
    var b, ch := nodes[i].bounds, nodes[i].children;
    assert ChildOk(nodes, ix, i, ix.lo[i], ix.hi[i], b, ch, c);
    if c > 0 { assert ChildOk(nodes, ix, i, ix.lo[i], ix.hi[i], b, ch, c - 1); }
  }

  lemma BracketsLeaf(nodes: seq<Node>, ix: Index, over: int, i: int, k: int, c: int)
    requires Tree(nodes, ix, over) && IsNode(nodes, i) && ix.height[i] == 0 && Brackets(nodes, ix, i, k)
    requires IsBoundPosition(nodes[i].bounds, k, c)
    ensures IsUpper(ix.flat, k, ix.lo[i] + c)
  {
    assert NodeOk(nodes, ix, i);
    var b := nodes[i].bounds;
    assert b == ix.flat[ix.lo[i]..ix.hi[i]];
    assert c > 0 ==> ix.flat[ix.lo[i] + c - 1] == b[c - 1];
    assert c < |b| ==> ix.flat[ix.lo[i] + c] == b[c];
  }

  lemma LeafIffNull(nodes: seq<Node>, ix: Index, over: int, i: int, c: int)
    requires Tree(nodes, ix, over) && IsNode(nodes, i) && 0 <= c < |nodes[i].children|
    ensures nodes[i].children[c] == NULL <==> ix.height[i] == 0
    ensures |nodes[i].children| == |nodes[i].bounds| + 1
  {
    assert NodeOk(nodes, ix, i);
    if ix.height[i] > 0 { assert ChildOk(nodes, ix, i, ix.lo[i], ix.hi[i], nodes[i].bounds, nodes[i].children, c); }
  }

  method FindBoundPosition(node: Node, key: int) returns (c: int)
    ensures IsBoundPosition(node.bounds, key, c)
  {
    c := 0;
    while c < |node.bounds|
      invariant 0 <= c <= |node.bounds|
      invariant forall j :: 0 <= j < c ==> node.bounds[j].key <= key
    {
      if node.bounds[c].key > key { break; }
      c := c + 1;
    }
  }

  method FindChildPosition(parent: Node, child: int) returns (i: int)
    requires child in parent.children
    ensures 0 <= i < |parent.children| && parent.children[i] == child
  {
    i := 0;
    while parent.children[i] != child
      invariant 0 <= i < |parent.children| && child in parent.children[i..]
      decreases |parent.children| - i
    {
      i := i + 1;
    }
  }

  method FixRelations(nodes: seq<Node>, me: int) returns (r: seq<Node>)
    requires 0 <= me < |nodes| && forall c :: c in nodes[me].children ==> c < |nodes|
    ensures r == Adopt(nodes, nodes[me].children, me)
  {
    r := nodes;
    var kids := nodes[me].children;
    var i := 0;
    while i < |kids|
      invariant 0 <= i <= |kids| && |r| == |nodes|
      invariant forall n :: 0 <= n < |nodes| ==> r[n] == if n in kids[..i] then nodes[n].(parent := me) else nodes[n]
    {
      assert kids[i] in kids;
      assert kids[..i + 1] == kids[..i] + [kids[i]];
      if kids[i] >= 0 { r := r[kids[i] := r[kids[i]].(parent := me)]; }
      i := i + 1;
    }
    assert kids[..i] == kids;
  }
}
