/** Deletion from the B+tree: `remove` of include/clarisma/store/BTree.h. */
module BTreeRemovals {
  import opened BTreeNodes
  import opened BTreeShapes
  import opened BTrees

  /** `nodes` is tree `tv`, except that entry `pos` of node `r` is still to be removed. */
  ghost predicate DueRemove(tv: Tree, nodes: map<nat, Node>, root: nat, m: nat, r: nat, pos: int) {
    && TreeOk(tv) && tv.root == root && r in nodes && 1 <= pos <= nodes[r].Count()
    && tv.nodes == nodes[r := Removed(nodes[r], pos)] && SizesOk(nodes, root, m) && m >= 3
  }

  /** Node `r` has lost an entry; it alone may be too small. */
  ghost predicate Shrunk(t: Tree, m: nat, r: nat) {
    && TreeOk(t) && m >= 3 && r in t.nodes && t.N(r).Count() <= 2 * m - 2
    && (forall x :: x in t.nodes && x != r ==> SizeOk(t.N(x), x == t.root, m))
    && (r != t.root ==> t.N(r).Count() >= m - 3)
  }

  lemma RemovedIsShrunk(tv: Tree, nodes: map<nat, Node>, root: nat, m: nat, r: nat, pos: int)
    requires DueRemove(tv, nodes, root, m, r, pos)
    ensures Shrunk(tv, m, r) && tv.root == root && r in nodes && 1 <= pos <= nodes[r].Count()
    ensures tv.nodes == nodes[r := Removed(nodes[r], pos)]
  {
    assert SizeOk(nodes[r], r == root, m);
    RemovedParts(nodes[r], pos);
    forall x | x in tv.nodes && x != r ensures SizeOk(tv.N(x), x == tv.root, m) {
      assert SizeOk(nodes[x], x == root, m);
    }
  }

  lemma ShrunkIsFine(t: Tree, m: nat, r: nat)
    requires Shrunk(t, m, r)
    requires if r == t.root then t.N(r).IsLeaf() || t.N(r).Count() >= 1 else t.N(r).Count() >= m - 2
    ensures SizesOk(t.nodes, t.root, m)
  {
  }

  /** The root has one child left, which becomes the root. */
  lemma RootShrinks(t: Tree, m: nat) returns (t': Tree)
    requires Shrunk(t, m, t.root) && !t.N(t.root).IsLeaf() && t.N(t.root).Count() == 0
    ensures TreeOk(t') && SameBindings(t, t') && SizesOk(t'.nodes, t'.root, m)
    ensures t'.root == t.N(t.root).first && t'.nodes == t.nodes - {t.root}
  {
    ShrinkRoot(t);
    t' := ShrinkTree(t);
  }

  /** Child `q` of `p` is the shrunken node or its left neighbour is; both neighbours' sizes */
  lemma Neighbours(t: Tree, m: nat, r: nat, p: nat, q: int)
    requires Shrunk(t, m, r) && CanMerge(t, p, q) && p != r
    requires r == LeftKid(t, p, q) || r == RightKid(t, p, q)
    ensures var l, rn := LeftKid(t, p, q), RightKid(t, p, q);
            && l in t.nodes && rn in t.nodes && l != rn && l != p && rn != p && l != t.root && rn != t.root && p in t.nodes
            && t.N(l).IsLeaf() == t.N(rn).IsLeaf()
            && 1 <= q <= t.N(p).Count() <= 2 * m - 1
            && (r == l ==> m - 2 <= t.N(rn).Count() <= 2 * m - 1 && m - 3 <= t.N(l).Count())
            && (r == rn ==> m - 2 <= t.N(l).Count() <= 2 * m - 1 && m - 3 <= t.N(rn).Count())
            && (!t.N(l).IsLeaf() ==> forall i :: 0 <= i <= t.N(l).Count() ==> t.N(l).Child(i) != 0)
            && (!t.N(rn).IsLeaf() ==> forall i :: 0 <= i <= t.N(rn).Count() ==> t.N(rn).Child(i) != 0)
  {
    MergeFacts(t, p, q);
    var l, rn := LeftKid(t, p, q), RightKid(t, p, q);
    KidsNonZero(t, l);
    KidsNonZero(t, rn);
    assert SizeOk(t.N(p), p == t.root, m);
  }

  lemma KidsNonZero(t: Tree, r: nat)
    requires TreeOk(t) && NodeOk(t, r) && r in t.nodes
    ensures !t.N(r).IsLeaf() ==> forall i :: 0 <= i <= t.N(r).Count() ==> t.N(r).Child(i) != 0
  {
    if !t.N(r).IsLeaf() {
      forall i | 0 <= i <= t.N(r).Count() ensures t.N(r).Child(i) != 0 {
        assert KidOk(t, t.N(r), r, i);
      }
    }
  }

  /** Borrowing from a neighbour that can spare an entry makes all sizes right. */
  lemma BorrowFixes(t: Tree, m: nat, r: nat, p: nat, q: int, l': Node, sep: nat, r': Node) returns (t': Tree)
    requires Shrunk(t, m, r) && CanMerge(t, p, q) && p != r
    requires r == LeftKid(t, p, q) || r == RightKid(t, p, q)
    requires CanRedistribute(t, p, q, l', sep, r')
    requires m - 2 <= l'.Count() <= 2 * m - 1 && m - 2 <= r'.Count() <= 2 * m - 1
    ensures TreeOk(t') && SameBindings(t, t') && SizesOk(t'.nodes, t'.root, m)
    ensures t'.nodes == RedistributedNodes(t, p, q, l', sep, r') && t'.root == t.root
  {
    Neighbours(t, m, r, p, q);
    t' := RedistributeStep(t, p, q, l', sep, r');
    assert SizeOk(t.N(p), p == t.root, m);
    forall x | x in t'.nodes ensures SizeOk(t'.nodes[x], x == t'.root, m) {
      assert x != r ==> SizeOk(t.N(x), x == t.root, m);
    }
  }

  /** Merging two small neighbours makes a removal from their parent due. */
  lemma MergeClimbs(t: Tree, m: nat, r: nat, p: nat, q: int) returns (t': Tree)
    requires Shrunk(t, m, r) && CanMerge(t, p, q) && p != r
    requires r == LeftKid(t, p, q) || r == RightKid(t, p, q)
    requires t.N(LeftKid(t, p, q)).Count() + t.N(RightKid(t, p, q)).Count() <= 2 * m - 5
    ensures t' == MergeTree(t, p, q) && SameBindings(t, t')
    ensures DueRemove(t', t.nodes[LeftKid(t, p, q) := MergedKid(t, p, q)] - {RightKid(t, p, q)}, t.root, m, p, q)
  {
    Neighbours(t, m, r, p, q);
    MergeStep(t, p, q);
    t' := MergeTree(t, p, q);
    var l, rn := LeftKid(t, p, q), RightKid(t, p, q);
    var nodes' := t.nodes[l := MergedKid(t, p, q)] - {rn};
    JoinedParts(t.N(l), t.N(p).Key(q), t.N(rn));
    hide TreeOk;
    assert nodes'[p] == t.N(p);
    assert t'.nodes == nodes'[p := Removed(nodes'[p], q)];
    forall x | x in nodes' ensures SizeOk(nodes'[x], x == t.root, m) {
      assert x != r ==> SizeOk(t.N(x), x == t.root, m);
    }
  }

  lemma MergeKeepsPath(t: Tree, levels: seq<Level>, i: int, p: nat, q: int, pos: nat)
    requires TreeOk(t) && PathDown(t, t.nodes, levels, i) && i > 0 && p == levels[i - 1].node && CanMerge(t, p, q)
    ensures PathDown(MergeTree(t, p, q), t.nodes[LeftKid(t, p, q) := MergedKid(t, p, q)] - {RightKid(t, p, q)},
                     levels[i - 1 := Level(p, pos)], i - 1)
  {
    MergeFacts(t, p, q);
    var l, rn := LeftKid(t, p, q), RightKid(t, p, q);
    var t', nodes' := MergeTree(t, p, q), t.nodes[l := MergedKid(t, p, q)] - {rn};
    MergeInfo(t, p, q, t.root);
    forall j | 0 <= j < i
      ensures levels[j].node != l && levels[j].node != rn
      ensures levels[j].node in t'.nodes && t'.S(levels[j].node).ht == t'.S(t'.root).ht - j
      ensures levels[j].node in nodes' && nodes'[levels[j].node] == t.nodes[levels[j].node]
    {
      assert t.S(levels[j].node).ht == t.S(t.root).ht - j;
      MergeInfo(t, p, q, levels[j].node);
    }
    hide TreeOk, NodeOk, MergeTree, CanMerge, MergedKid;
    ShorterPath(t, t.nodes, t', nodes', levels, i, pos);
  }

  /** The path to the parent does not depend on what happened below it. */
  lemma ShorterPath(t: Tree, nodes: map<nat, Node>, t': Tree, nodes': map<nat, Node>, levels: seq<Level>, i: int, pos: nat)
    requires PathDown(t, nodes, levels, i) && i > 0 && t'.root == t.root
    requires forall j :: 0 <= j < i ==>
               && levels[j].node in t'.nodes && t'.S(levels[j].node).ht == t'.S(t'.root).ht - j
               && levels[j].node in nodes' && nodes'[levels[j].node] == nodes[levels[j].node]
    ensures PathDown(t', nodes', levels[i - 1 := Level(levels[i - 1].node, pos)], i - 1)
  {
    var levels' := levels[i - 1 := Level(levels[i - 1].node, pos)];
    assert forall j :: 0 <= j < i ==> levels'[j].node == levels[j].node;
  }

  /** The tree's nodes are those of `t`, where `r` may be too small. */
  ghost predicate Short(tree: BTree, t: Tree, r: nat)
    reads tree, tree.Repr()
  {
    tree.Heap() && tree.Nodes() == t.nodes && tree.root == t.root && Shrunk(t, tree.m, r)
  }

  lemma SizeOfNode(tree: BTree, t: Tree, r: nat, x: nat)
    requires Short(tree, t, r) && x in t.nodes
    ensures x in tree.pages && tree.NodeSize(x) == 8 * t.N(x).Count() + 8
    ensures tree.pages[x].Length >= 4 && (tree.pages[x][1] == 0 <==> t.N(x).IsLeaf()) && tree.pages[x][1] == t.N(x).first
    ensures tree.MinNodeSize() == 8 * tree.m - 8
    ensures Holds(tree.pages[x][..], tree.m, t.N(x))
  {
    WordsOf(tree.pages[x][..], tree.m, t.N(x));
  }

  /** Values of a parent's entries as stored */
  lemma ChildWord(tree: BTree, t: Tree, r: nat, p: nat, q: int)
    requires Short(tree, t, r) && p in t.nodes && 0 <= q <= t.N(p).Count()
    ensures p in tree.pages && 2 * q + 1 < tree.pages[p].Length && tree.pages[p][2 * q + 1] == t.N(p).Child(q)
  {
    WordsOf(tree.pages[p][..], tree.m, t.N(p));
    if q > 0 {
      assert tree.pages[p][2 * (q - 1) + 3] == t.N(p).entries[q - 1].value;
    }
  }

  /** What the page operations on two neighbours under `p` need */
  lemma NeighbourPages(tree: BTree, t: Tree, r: nat, p: nat, q: int)
    requires Short(tree, t, r) && CanMerge(t, p, q) && p != r && (r == LeftKid(t, p, q) || r == RightKid(t, p, q))
    ensures var l, rn, nodes, m := LeftKid(t, p, q), RightKid(t, p, q), t.nodes, tree.m;
            && tree.Heap() && tree.Nodes() == nodes && tree.root == t.root && Shrunk(t, m, r) && m >= 3
            && p in tree.pages && l in tree.pages && rn in tree.pages && l != rn && l != p && rn != p
            && p in nodes && l in nodes && rn in nodes && 1 <= q <= nodes[p].Count()
            && nodes[l].IsLeaf() == nodes[rn].IsLeaf() && nodes[l] == t.N(l) && nodes[rn] == t.N(rn) && nodes[p] == t.N(p)
            && (r == l ==> nodes[rn].Count() <= 2 * m - 1) && (r == rn ==> nodes[l].Count() <= 2 * m - 1)
            && (!nodes[l].IsLeaf() ==> nodes[l].Child(nodes[l].Count()) != 0)
            && (!nodes[rn].IsLeaf() && nodes[rn].Count() >= 1 ==> nodes[rn].Child(1) != 0)
            && 2 * q + 1 < tree.pages[p].Length
            && tree.pages[p][2 * (q - 1) + 1] == l && tree.pages[p][2 * q + 1] == rn
  {
    Neighbours(t, tree.m, r, p, q);
    ChildWord(tree, t, r, p, q - 1);
    ChildWord(tree, t, r, p, q);
  }

  lemma Redistributable(t: Tree, p: nat, q: int, l': Node, sep: nat, r': Node)
    requires CanMerge(t, p, q) && Joined(l', sep, r') == MergedKid(t, p, q) && l'.IsLeaf() == r'.IsLeaf()
    requires r'.IsLeaf() ==> sep == r'.Key(1)
    requires l'.Count() >= 1 && r'.Count() >= 1
    ensures CanRedistribute(t, p, q, l', sep, r')
  {
  }

  method BorrowLeft(tree: BTree, r: nat, left: nat, p: nat, q: nat, ghost t: Tree) returns (ghost t': Tree)
    requires Short(tree, t, r) && CanMerge(t, p, q) && p != r && left == LeftKid(t, p, q) && r == RightKid(t, p, q)
    requires t.N(r).Count() == tree.m - 3 && t.N(left).Count() > tree.m - 2
    requires r in tree.pages && left in tree.pages && p in tree.pages
    modifies tree`sh, tree.pages[r], tree.pages[left], tree.pages[p]
    ensures tree.Whole(t') && SameBindings(t, t')
  {
    hide Short, Shrunk, TreeOk, CanMerge, CanRedistribute, SizesOk, BTree.Whole, SameBindings, BTree.Heap, BTree.Nodes, Joined;
    NeighbourPages(tree, t, r, p, q);
    ghost var n', l', sep := tree.PageBorrowLeft(r, left, p, q);
    Redistributable(t, p, q, l', sep, n');
    t' := BorrowFixes(t, tree.m, r, p, q, l', sep, n');
    tree.Adopt(t');
  }

  method BorrowRight(tree: BTree, r: nat, right: nat, p: nat, q: nat, ghost t: Tree) returns (ghost t': Tree)
    requires Short(tree, t, r) && CanMerge(t, p, q) && p != r && r == LeftKid(t, p, q) && right == RightKid(t, p, q)
    requires t.N(r).Count() == tree.m - 3 && t.N(right).Count() > tree.m - 2
    requires r in tree.pages && right in tree.pages && p in tree.pages
    modifies tree`sh, tree.pages[r], tree.pages[right], tree.pages[p]
    ensures tree.Whole(t') && SameBindings(t, t')
  {
    hide Short, Shrunk, TreeOk, CanMerge, CanRedistribute, SizesOk, BTree.Whole, SameBindings, BTree.Heap, BTree.Nodes, Joined;
    NeighbourPages(tree, t, r, p, q);
    ghost var n', r', sep := tree.PageBorrowRight(r, right, p, q);
    Redistributable(t, p, q, n', sep, r');
    t' := BorrowFixes(t, tree.m, r, p, q, n', sep, r');
    tree.Adopt(t');
  }

  method Merge(tree: BTree, r: nat, p: nat, q: nat, ghost t: Tree) returns (ghost t': Tree)
    requires Short(tree, t, r) && CanMerge(t, p, q) && p != r && (r == LeftKid(t, p, q) || r == RightKid(t, p, q))
    requires t.N(LeftKid(t, p, q)).Count() + t.N(RightKid(t, p, q)).Count() <= 2 * tree.m - 5
    requires LeftKid(t, p, q) in tree.pages
    modifies tree`pages, tree.pages[LeftKid(t, p, q)]
    ensures tree.Heap() && SameBindings(t, t') && t' == MergeTree(t, p, q)
    ensures tree.Nodes() == t.nodes[LeftKid(t, p, q) := MergedKid(t, p, q)] - {RightKid(t, p, q)}
    ensures DueRemove(t', tree.Nodes(), tree.root, tree.m, p, q)
    ensures tree.pages == old(tree.pages) - {RightKid(t, p, q)}
  {
    hide Short, Shrunk, TreeOk, CanMerge, SizesOk, DueRemove, SameBindings, MergeTree, BTree.Heap, BTree.Nodes, Joined;
    NeighbourPages(tree, t, r, p, q);
    t' := MergeClimbs(t, tree.m, r, p, q);
    var left, right := tree.pages[p][2 * (q - 1) + 1], tree.pages[p][2 * q + 1];
    tree.PageMerge(left, right, p, q);
  }

  /** Entry `lv[level].pos` of the node at `level` is to be removed; then the tree is `tv`. */
  ghost predicate Due(tree: BTree, lv: seq<Level>, level: int, tv: Tree)
    reads tree, tree.Repr()
  {
    && tree.Heap() && 0 <= level < |lv|
    && DueRemove(tv, tree.Nodes(), tree.root, tree.m, lv[level].node, lv[level].pos)
    && PathDown(tv, tree.Nodes(), lv, level)
  }

  lemma DueMeans(tree: BTree, lv: seq<Level>, level: int, tv: Tree)
    requires Due(tree, lv, level, tv)
    ensures var r, pos := lv[level].node, lv[level].pos;
            && tree.Heap() && r in tree.pages && r in tree.Nodes() && 1 <= pos <= tree.Nodes()[r].Count()
            && tv.nodes == tree.Nodes()[r := Removed(tree.Nodes()[r], pos)] && Shrunk(tv, tree.m, r)
            && tv.root == tree.root && PathDown(tv, tv.nodes, lv, level)
  {
    RemovedIsShrunk(tv, tree.Nodes(), tree.root, tree.m, lv[level].node, lv[level].pos);
    PathAfterRemove(tv, tree.Nodes(), lv, level);
  }

  lemma PathAfterRemove(tv: Tree, nodes: map<nat, Node>, lv: seq<Level>, level: int)
    requires PathDown(tv, nodes, lv, level)
    requires tv.nodes == nodes[lv[level].node := Removed(nodes[lv[level].node], lv[level].pos)]
    ensures PathDown(tv, tv.nodes, lv, level)
  {
    forall i | 0 <= i < level ensures lv[i].node != lv[level].node {
      assert tv.S(lv[i].node).ht != tv.S(lv[level].node).ht;
    }
  }

  method TakeOut(tree: BTree, lv: seq<Level>, level: int, ghost tv: Tree)
    requires Due(tree, lv, level, tv) && lv[level].node in tree.pages
    modifies tree.pages[lv[level].node]
    ensures Short(tree, tv, lv[level].node) && PathDown(tv, tv.nodes, lv, level)
  {
    hide Due, Short, Shrunk, PathDown, Removed, BTree.Heap, BTree.Nodes;
    DueMeans(tree, lv, level, tv);
    tree.PageRemove(lv[level].node, lv[level].pos);
    ShortWhen(tree, tv, lv[level].node);
  }

  lemma ShortWhen(tree: BTree, t: Tree, r: nat)
    requires tree.Heap() && tree.Nodes() == t.nodes && tree.root == t.root && Shrunk(t, tree.m, r)
    ensures Short(tree, t, r)
  {
  }

  /** The parent on the path, and the neighbours of the node under it */
  lemma PathParent(t: Tree, m: nat, lv: seq<Level>, level: int)
    requires level > 0 && PathDown(t, t.nodes, lv, level) && Shrunk(t, m, lv[level].node)
    ensures var p, q, r := lv[level - 1].node, lv[level - 1].pos, lv[level].node;
            && p in t.nodes && p != r && r != t.root && q <= t.N(p).Count() && 1 <= t.N(p).Count() && !t.N(p).IsLeaf()
            && t.N(p).Child(q) == r
            && (q > 0 ==> CanMerge(t, p, q) && r == RightKid(t, p, q) && LeftKid(t, p, q) == t.N(p).Child(q - 1))
            && (q < t.N(p).Count() ==> CanMerge(t, p, q + 1) && r == LeftKid(t, p, q + 1))
  {
    assert forall x :: x in t.nodes ==> t.N(x) == t.nodes[x];
    ParentOnPath(t, t.nodes, lv, level);
    assert SizeOk(t.N(lv[level - 1].node), lv[level - 1].node == t.root, m);
  }

  lemma CountOfShort(tree: BTree, t: Tree, r: nat, lv: seq<Level>, level: int)
    requires Short(tree, t, r) && PathDown(t, t.nodes, lv, level) && lv[level].node == r
    ensures r in tree.pages && tree.m >= 3 && tree.pages[r].Length > 0
    ensures tree.NodeSize(r) >= tree.MinNodeSize() <==> t.N(r).Count() >= tree.m - 2
    ensures level > 0 ==> r != t.root && t.N(r).Count() >= tree.m - 3
    ensures level == 0 ==> r == t.root
  {
    SizeOfNode(tree, t, r, r);
    if level > 0 { PathParent(t, tree.m, lv, level); }
  }

  method AtRoot(tree: BTree, ghost t: Tree) returns (ghost t': Tree)
    requires Short(tree, t, t.root) && t.root in tree.pages
    modifies tree`pages, tree`root, tree`sh
    ensures tree.Whole(t') && SameBindings(t, t')
    ensures tree.pages == old(tree.pages) || tree.pages == old(tree.pages) - {old(tree.root)}
  {
    hide Short, Shrunk, TreeOk, SizesOk, BTree.Whole, SameBindings, Decode, WordsOk, Node.Count;
    ShrunkTree(tree, t, t.root);
    SizeOfNode(tree, t, t.root, t.root);
    var isLeaf := tree.pages[tree.root][1] == 0;
    if !isLeaf && tree.NodeSize(tree.root) == 8 {
      t' := RootShrinks(t, tree.m);
      var child := tree.pages[tree.root][1];
      tree.FreeNode(tree.root);
      tree.root := child;
    } else {
      ShrunkIsFine(t, tree.m, t.root);
      ShrunkRoot(t, tree.m);
      SameBindingsItself(t);
      t' := t;
    }
    tree.Adopt(t');
  }

  lemma ShrunkRoot(t: Tree, m: nat)
    requires Shrunk(t, m, t.root)
    ensures TreeOk(t)
  {
  }

  lemma ShrunkTree(tree: BTree, t: Tree, r: nat)
    requires Short(tree, t, r)
    ensures TreeOk(t) && tree.Heap() && tree.Nodes() == t.nodes && tree.root == t.root && tree.m >= 3
    ensures Shrunk(t, tree.m, r)
    ensures t.N(r).Count() >= tree.m - 2 && r != t.root ==> SizesOk(t.nodes, t.root, tree.m)
    ensures t.N(r).Count() >= tree.m - 2 && r == t.root ==> SizesOk(t.nodes, t.root, tree.m)
  {
  }

  /** Sizes of a neighbour, as the code compares them */
  lemma NeighbourSize(tree: BTree, t: Tree, r: nat, p: nat, q: int, x: nat)
    requires Short(tree, t, r) && CanMerge(t, p, q) && p != r && (r == LeftKid(t, p, q) || r == RightKid(t, p, q))
    requires x != r && (x == LeftKid(t, p, q) || x == RightKid(t, p, q))
    ensures x in tree.pages && r in tree.pages && p in tree.pages && x in t.nodes && tree.pages[x].Length > 0
    ensures tree.NodeSize(x) > tree.MinNodeSize() <==> t.N(x).Count() > tree.m - 2
  {
    Neighbours(t, tree.m, r, p, q);
    SizeOfNode(tree, t, r, x);
  }

  /** The child slot at `q`, as the code reads it */
  method ChildRef(tree: BTree, r: nat, p: nat, q: nat, ghost t: Tree) returns (ref: nat)
    requires Short(tree, t, r) && p in t.nodes && q <= t.N(p).Count()
    ensures ref == t.N(p).Child(q)
  {
    ChildWord(tree, t, r, p, q);
    ref := tree.pages[p][2 * q + 1];
  }

  /** Below the root, a node that became too small borrows from a neighbour or is merged with one. */
  method Rebalance(tree: BTree, lv: seq<Level>, level: int, ghost t: Tree)
    returns (done: bool, lv': seq<Level>, ghost t': Tree)
    requires 0 < level < |lv| && Short(tree, t, lv[level].node) && PathDown(t, t.nodes, lv, level)
    requires t.N(lv[level].node).Count() == tree.m - 3
    modifies tree, tree.Repr()
    ensures SameBindings(t, t') && |lv'| == |lv|
    ensures if done then tree.Whole(t') else Due(tree, lv', level - 1, t')
    ensures fresh(tree.Repr() - old(tree.Repr()))
  {
    hide Short, Shrunk, TreeOk, CanMerge, SizesOk, DueRemove, SameBindings, MergeTree, PathDown,
         BTree.Heap, BTree.Nodes, BTree.Whole, Due;
    var r, p, q := lv[level].node, lv[level - 1].node, lv[level - 1].pos;
    lv', done := lv, true;
    Ancestors(tree, t, lv, level);
    ghost var m := tree.m;
    var count := (tree.pages[p][0] + 4) / 8 - 1;
    if q > 0 {
      NeighbourSize(tree, t, r, p, q, LeftKid(t, p, q));
      var left := ChildRef(tree, r, p, q - 1, t);
      if tree.NodeSize(left) > tree.MinNodeSize() {
        t' := BorrowLeft(tree, r, left, p, q, t);
        return;
      }
    }
    if q < count {
      NeighbourSize(tree, t, r, p, q + 1, RightKid(t, p, q + 1));
      var right := ChildRef(tree, r, p, q + 1, t);
      if tree.NodeSize(right) > tree.MinNodeSize() {
        t' := BorrowRight(tree, r, right, p, q + 1, t);
        return;
      }
    }
    var slot := if q > 0 then q else q + 1;
    lv' := lv[level - 1 := Level(p, slot)];
    done := false;
    MergeKeepsPath(t, lv, level, p, slot, slot);
    t' := Merge(tree, r, p, slot, t);
    DueWhen(tree, lv', level - 1, t');
  }

  lemma DueWhen(tree: BTree, lv: seq<Level>, level: int, tv: Tree)
    requires tree.Heap() && 0 <= level < |lv|
    requires DueRemove(tv, tree.Nodes(), tree.root, tree.m, lv[level].node, lv[level].pos)
    requires PathDown(tv, tree.Nodes(), lv, level)
    ensures Due(tree, lv, level, tv)
  {
  }

  lemma Ancestors(tree: BTree, t: Tree, lv: seq<Level>, level: int)
    requires 0 < level < |lv| && Short(tree, t, lv[level].node) && PathDown(t, t.nodes, lv, level)
    ensures var p, q, r := lv[level - 1].node, lv[level - 1].pos, lv[level].node;
            && tree.Heap() && p in tree.pages && r in tree.pages && p in t.nodes && p != r && tree.m >= 3 && TreeOk(t)
            && q <= t.N(p).Count() && 1 <= t.N(p).Count() && t.N(p).Child(q) == r
            && (q > 0 ==> CanMerge(t, p, q) && r == RightKid(t, p, q) && LeftKid(t, p, q) == t.N(p).Child(q - 1) != r)
            && (q < t.N(p).Count() ==>
                  CanMerge(t, p, q + 1) && r == LeftKid(t, p, q + 1) && RightKid(t, p, q + 1) == t.N(p).Child(q + 1) != r)
            && tree.pages[p].Length > 0 && (tree.pages[p][0] + 4) / 8 - 1 == t.N(p).Count()
  {
    PathParent(t, tree.m, lv, level);
    var p, q, r := lv[level - 1].node, lv[level - 1].pos, lv[level].node;
    SizeOfNode(tree, t, r, p);
    if q > 0 { MergeFacts(t, p, q); }
    if q < t.N(p).Count() { MergeFacts(t, p, q + 1); }
  }

  /** One round of the loop in `remove` */
  method RemoveRound(tree: BTree, lv: seq<Level>, level: int, ghost tv: Tree)
    returns (done: bool, lv': seq<Level>, ghost t': Tree)
    requires Due(tree, lv, level, tv) && 0 <= level < |lv|
    modifies tree, tree.Repr()
    ensures SameBindings(tv, t') && |lv'| == |lv|
    ensures if done then tree.Whole(t') else level > 0 && Due(tree, lv', level - 1, t')
    ensures fresh(tree.Repr() - old(tree.Repr()))
  {
    hide Due, Short, Shrunk, TreeOk, SizesOk, SameBindings, PathDown, BTree.Heap, BTree.Nodes, BTree.Whole;
    var r := lv[level].node;
    DueMeans(tree, lv, level, tv);
    TakeOut(tree, lv, level, tv);
    CountOfShort(tree, tv, r, lv, level);
    ShrunkTree(tree, tv, r);
    lv', done := lv, true;
    if tree.NodeSize(r) >= tree.MinNodeSize() {
      SameBindingsItself(tv);
      t' := tv;
      tree.Adopt(tv);
    } else if level == 0 {
      t' := AtRoot(tree, tv);
    } else {
      done, lv', t' := Rebalance(tree, lv, level, tv);
    }
  }

  /** The bindings of `t'` are those of `t` without one. */
  ghost predicate OneLess(t: Tree, t': Tree, e: Entry) {
    Bound(t, e) && forall x :: Bound(t', x) <==> Bound(t, x) && x != e
  }

  lemma OneLessMeans(t: Tree, t': Tree, e: Entry)
    requires OneLess(t, t', e)
    ensures Bound(t, e) && forall x :: Bound(t', x) <==> Bound(t, x) && x != e
  {
  }

  lemma OneLessAfter(t: Tree, t1: Tree, t2: Tree, e: Entry)
    requires OneLess(t, t1, e) && SameBindings(t1, t2)
    ensures OneLess(t, t2, e)
  {
    forall x ensures Bound(t2, x) <==> Bound(t, x) && x != e {
      assert Bound(t1, x) <==> Bound(t2, x);
    }
  }

  /** The loop of `remove`, from the leaf up */
  method RemoveFrom(tree: BTree, leaf: nat, lv0: seq<Level>, ghost t: Tree, ghost tv0: Tree, ghost e: Entry)
    requires leaf < |lv0| && Due(tree, lv0, leaf, tv0) && OneLess(t, tv0, e)
    modifies tree, tree.Repr()
    ensures tree.Valid() && OneLess(t, tree.T(), e) && fresh(tree.Repr() - old(tree.Repr()))
  {
    hide Due, OneLess, SameBindings, BTree.Whole;
    var level: int, lv := leaf, lv0;
    ghost var tv := tv0;
    var done := false;
    while !done
      invariant OneLess(t, tv, e) && fresh(tree.Repr() - old(tree.Repr()))
      invariant 0 <= level < |lv|
      invariant if done then tree.Whole(tv) else Due(tree, lv, level, tv)
      decreases !done, level
    {
      ghost var before := tv;
      done, lv, tv := RemoveRound(tree, lv, level, tv);
      OneLessAfter(t, before, tv, e);
      if !done { level := level - 1; }
    }
    tree.WholeMeans(tv);
  }

  lemma LeafRemoveDue(t: Tree, m: nat, levels: seq<Level>, leaf: int) returns (tv: Tree)
    requires TreeOk(t) && SizesOk(t.nodes, t.root, m) && m >= 3
    requires PathDown(t, t.nodes, levels, leaf) && t.S(levels[leaf].node).ht == 0
    requires 1 <= levels[leaf].pos <= t.N(levels[leaf].node).Count()
    ensures DueRemove(tv, t.nodes, t.root, m, levels[leaf].node, levels[leaf].pos) && PathDown(tv, t.nodes, levels, leaf)
    ensures OneLess(t, tv, t.N(levels[leaf].node).entries[levels[leaf].pos - 1])
  {
    var r, pos := levels[leaf].node, levels[leaf].pos;
    var n := t.N(r);
    NodeFacts(t, r);
    RemoveKeys(n, pos, t.S(r).lo, t.S(r).hi);
    LeafStep(t, r, Removed(n, pos));
    tv := WithNode(t, r, Removed(n, pos));
    LeafBindsOneLess(t, r, pos);
    hide TreeOk, NodeOk, KeysOk, Ascending, Bound, Has, OneLess, SizesOk;
  }

  lemma LeafBindsOneLess(t: Tree, r: nat, pos: int)
    requires TreeOk(t) && r in t.nodes && t.N(r).IsLeaf() && 1 <= pos <= t.N(r).Count()
    requires var n := Removed(t.N(r), pos);
             forall x :: Bound(WithNode(t, r, n), x) <==> x in n.entries || exists y :: y in t.nodes && y != r && Has(t.N(y), x)
    ensures OneLess(t, WithNode(t, r, Removed(t.N(r), pos)), t.N(r).entries[pos - 1])
  {
    var n := t.N(r);
    var e := n.entries[pos - 1];
    var tv := WithNode(t, r, Removed(n, pos));
    NodeFacts(t, r);
    assert e in n.entries && Has(n, e);
    assert Covered(n, e.key, t.S(r).lo, t.S(r).hi);
    FoundInLeaf(t, r, e);
    hide TreeOk;
    RemovedEntries(n, pos);
    forall x ensures Bound(tv, x) <==> Bound(t, x) && x != e {
      if Bound(t, x) {
        var y :| y in t.nodes && Has(t.N(y), x);
      }
      if x in n.entries { assert Has(t.N(r), x); }
    }
  }

  lemma RemovedEntries(n: Node, pos: int)
    requires Ascending(n) && 1 <= pos <= n.Count()
    ensures forall x :: x in Removed(n, pos).entries <==> x in n.entries && x != n.entries[pos - 1]
  {
    var a, b, e := n.entries[..pos - 1], n.entries[pos..], n.entries[pos - 1];
    assert n.entries == a + [e] + b;
    forall x | x in a + b ensures x != e {
      var i :| 0 <= i < |a + b| && (a + b)[i] == x;
      assert i < pos - 1 ==> x == n.entries[i];
      assert i >= pos - 1 ==> x == n.entries[i + 1];
    }
  }

  /** `remove` at a valid cursor position: deletes exactly the binding the cursor is at, and keeps
      the B+tree invariant through every borrow, merge and root collapse. */
  method Remove(cursor: Cursor)
    requires cursor.OnPath()
    requires 1 <= cursor.levels[cursor.leaf].pos <= cursor.tree.T().N(cursor.levels[cursor.leaf].node).Count()
    modifies cursor.tree, cursor.tree.Repr()
    ensures cursor.tree.Valid()
    ensures var (t, t') := (old(cursor.tree.T()), cursor.tree.T());
            var e := t.N(old(cursor.levels[cursor.leaf].node)).entries[old(cursor.levels[cursor.leaf].pos) - 1];
            Bound(t, e) && forall x :: Bound(t', x) <==> Bound(t, x) && x != e
    ensures fresh(cursor.tree.Repr() - old(cursor.tree.Repr()))
  {
    var lv, leaf, tree := cursor.levels[..], cursor.leaf, cursor.tree;
    ghost var t := tree.T();
    ghost var e := t.N(lv[leaf].node).entries[lv[leaf].pos - 1];
    ghost var tv := StartRemove(cursor);
    hide OneLess, Due;
    RemoveFrom(tree, leaf, lv, t, tv, e);
    OneLessMeans(t, tree.T(), e);
  }

  lemma StartRemove(cursor: Cursor) returns (tv: Tree)
    requires cursor.OnPath()
    requires 1 <= cursor.levels[cursor.leaf].pos <= cursor.tree.T().N(cursor.levels[cursor.leaf].node).Count()
    ensures Due(cursor.tree, cursor.levels[..], cursor.leaf, tv)
    ensures OneLess(cursor.tree.T(), tv, cursor.tree.T().N(cursor.levels[cursor.leaf].node).entries[cursor.levels[cursor.leaf].pos - 1])
  {
    tv := LeafRemoveDue(cursor.tree.T(), cursor.tree.m, cursor.levels[..], cursor.leaf);
  }
}