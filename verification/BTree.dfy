/** The B+tree of include/clarisma/store/BTree.h: nodes live in buffers that are edited in
    place, found by reference; insertion and deletion walk down with a stack of levels and
    back up again as far as nodes overflow or underflow. */
module BTrees {
  import opened BTreeNodes
  import opened BTreeShapes

  /** Occupancy: at most 2m-1 keys, at least m-2 outside the root, and no empty inner root */
  ghost predicate SizesOk(nodes: map<nat, Node>, root: nat, m: nat) {
    forall r :: r in nodes ==> SizeOk(nodes[r], r == root, m)
  }

  predicate SizeOk(n: Node, isRoot: bool, m: nat) {
    && n.Count() <= 2 * m - 1
    && (if isRoot then n.IsLeaf() || n.Count() >= 1 else n.Count() >= m - 2)
  }

  datatype Level = Level(node: nat, pos: nat)

  /** Each level's child is the next level's node, and heights go down by one. */
  ghost predicate PathDown(t: Tree, nodes: map<nat, Node>, levels: seq<Level>, last: int) {
    && 0 <= last < |levels| && levels[0].node == t.root
    && (forall i :: 0 <= i <= last ==> levels[i].node in nodes && levels[i].node in t.nodes
                                       && t.S(levels[i].node).ht == t.S(t.root).ht - i)
    && (forall i :: 0 <= i < last ==>
          && !nodes[levels[i].node].IsLeaf() && levels[i].pos <= nodes[levels[i].node].Count()
          && nodes[levels[i].node].Child(levels[i].pos) == levels[i + 1].node)
  }

  lemma {:induction false} SomeRefIsFree(used: set<nat>)
    ensures exists ref: nat :: ref != 0 && ref !in used
  {
    var bound := Bounded(used);
    assert bound !in used;
  }

  lemma {:induction false} Bounded(used: set<nat>) returns (bound: nat)
    ensures bound > 0 && forall x :: x in used ==> x < bound
    decreases |used|
  {
    if used == {} {
      bound := 1;
    } else {
      var x := SomeElement(used);
      var rest := used - {x};
      bound := Bounded(rest);
      if bound <= x { bound := x + 1; }
      forall y | y in used ensures y < bound {
        assert y == x || y in rest;
      }
    }
  }

  lemma SomeElement<T>(s: set<T>) returns (x: T)
    requires s != {}
    ensures x in s
  {
    x :| x in s;
  }

  // ---------------------------------------------------------------- climbing up after a split

  /** `nodes` is tree `tv`, except that op `change` on node `r` is still to be done. */
  ghost predicate DueInsert(tv: Tree, nodes: map<nat, Node>, root: nat, m: nat, r: nat, pos: int, e: Entry) {
    && TreeOk(tv) && tv.root == root && r in nodes && 1 <= pos <= nodes[r].Count() + 1
    && tv.nodes == nodes[r := Inserted(nodes[r], pos, e)] && SizesOk(nodes, root, m) && m >= 3
  }

  /** The node was full and has been split into `l` and `rn`. */
  ghost predicate WasSplit(nodes: map<nat, Node>, m: nat, r: nat, pos: int, e: Entry,
                           l: Node, sep: nat, rn: Node, rr: nat) {
    && r in nodes && rr !in nodes && rr != 0
    && Joined(l, sep, rn) == Inserted(nodes[r], pos, e) && l.IsLeaf() == rn.IsLeaf()
    && (rn.IsLeaf() ==> sep == rn.Key(1))
    && m - 1 <= l.Count() <= m && m - 1 <= rn.Count() <= m + 1
  }

  lemma ParentOnPath(tv: Tree, nodes: map<nat, Node>, levels: seq<Level>, i: int)
    requires TreeOk(tv) && PathDown(tv, nodes, levels, i) && i > 0
    requires forall x :: x in nodes && x != levels[i].node ==> tv.N(x) == nodes[x]
    ensures var p, q, r := levels[i - 1].node, levels[i - 1].pos, levels[i].node;
            && p != r && r != tv.root && tv.S(r).par == p && tv.N(p) == nodes[p] && !nodes[p].IsLeaf()
            && q <= nodes[p].Count() && nodes[p].Child(q) == r
  {
    var p, q := levels[i - 1].node, levels[i - 1].pos;
    assert p != levels[i].node;
    assert NodeOk(tv, p) && KidOk(tv, tv.N(p), p, q);
  }

  /** Splitting `r` makes an insertion into its parent due. */
  lemma SplitClimbs(tv: Tree, nodes: map<nat, Node>, m: nat, levels: seq<Level>, i: int, pos: int, e: Entry,
                    l: Node, sep: nat, rn: Node, rr: nat) returns (tv': Tree)
    requires 0 < i < |levels| && DueInsert(tv, nodes, tv.root, m, levels[i].node, pos, e)
    requires WasSplit(nodes, m, levels[i].node, pos, e, l, sep, rn, rr)
    requires PathDown(tv, nodes, levels, i)
    ensures var nodes' := nodes[levels[i].node := l][rr := rn];
            && DueInsert(tv', nodes', tv.root, m, levels[i - 1].node, levels[i - 1].pos + 1, Entry(sep, rr))
            && PathDown(tv', nodes', levels, i - 1)
    ensures SameBindings(tv, tv')
  {
    var p, q, r := levels[i - 1].node, levels[i - 1].pos, levels[i].node;
    ParentOnPath(tv, nodes, levels, i);
    SplitStep(tv, r, l, sep, rn, rr, q);
    tv' := SplitTree(tv, r, l, sep, rn, rr, q);
    var nodes' := nodes[r := l][rr := rn];
    assert tv'.nodes == nodes'[p := Inserted(nodes'[p], q + 1, Entry(sep, rr))];
    SplitKeepsPath(tv, nodes, levels, i, l, sep, rn, rr);
    hide TreeOk, PathDown;
    assert SizesOk(nodes', tv.root, m);
  }

  lemma SplitKeepsPath(tv: Tree, nodes: map<nat, Node>, levels: seq<Level>, i: int,
                       l: Node, sep: nat, rn: Node, rr: nat)
    requires TreeOk(tv) && PathDown(tv, nodes, levels, i) && i > 0 && rr !in nodes
    requires CanSplit(tv, levels[i].node, l, sep, rn, rr, levels[i - 1].pos)
    ensures PathDown(SplitTree(tv, levels[i].node, l, sep, rn, rr, levels[i - 1].pos),
                     nodes[levels[i].node := l][rr := rn], levels, i - 1)
  {
    var r, q := levels[i].node, levels[i - 1].pos;
    var tv', nodes' := SplitTree(tv, r, l, sep, rn, rr, q), nodes[r := l][rr := rn];
    SplitInfo(tv, r, l, sep, rn, rr, q, tv.root);
    forall j | 0 <= j < i
      ensures levels[j].node in tv'.nodes && tv'.S(levels[j].node).ht == tv'.S(tv'.root).ht - j
      ensures levels[j].node != r && nodes'[levels[j].node] == nodes[levels[j].node]
    {
      SplitInfo(tv, r, l, sep, rn, rr, q, levels[j].node);
    }
  }

  /** The root was split: a new root holds both halves. */
  lemma RootSplit(tv: Tree, nodes: map<nat, Node>, m: nat, pos: int, e: Entry,
                  l: Node, sep: nat, rn: Node, rr: nat, nr: nat) returns (tv': Tree)
    requires DueInsert(tv, nodes, tv.root, m, tv.root, pos, e)
    requires WasSplit(nodes, m, tv.root, pos, e, l, sep, rn, rr)
    requires nr !in nodes && nr != rr && nr != 0
    ensures TreeOk(tv') && SameBindings(tv, tv') && tv'.root == nr
    ensures tv'.nodes == nodes[tv.root := l][rr := rn][nr := Node(tv.root, [Entry(sep, rr)])]
    ensures SizesOk(tv'.nodes, nr, m)
  {
    hide TreeOk, SameBindings, GrowTree, SplitTree, CanSplit, SizesOk, WasSplit;
    RootBySplit(tv, nodes, m, pos, e, l, sep, rn, rr, nr);
    GrowRoot(tv, nr);
    var grown, r := GrowTree(tv, nr), tv.root;
    SplitStep(grown, r, l, sep, rn, rr, 0);
    tv' := SplitTree(grown, r, l, sep, rn, rr, 0);
    SameBindingsTrans(tv, grown, tv');
    RootSizes(nodes, m, r, pos, e, l, sep, rn, rr, nr);
  }

  /** A split of the root is a new root above it, followed by a split below that. */
  lemma RootBySplit(tv: Tree, nodes: map<nat, Node>, m: nat, pos: int, e: Entry,
                    l: Node, sep: nat, rn: Node, rr: nat, nr: nat)
    requires DueInsert(tv, nodes, tv.root, m, tv.root, pos, e)
    requires WasSplit(nodes, m, tv.root, pos, e, l, sep, rn, rr)
    requires nr !in nodes && nr != rr && nr != 0
    ensures nr !in tv.nodes
    ensures var (grown, r) := (GrowTree(tv, nr), tv.root);
            && CanSplit(grown, r, l, sep, rn, rr, 0) && SplitTree(grown, r, l, sep, rn, rr, 0).root == nr
            && SplitTree(grown, r, l, sep, rn, rr, 0).nodes == nodes[r := l][rr := rn][nr := Node(r, [Entry(sep, rr)])]
  {
    hide SizesOk, NodeOk, Inserted, Joined;
    var grown, r := GrowTree(tv, nr), tv.root;
    FirstChild(r, sep, rr);
    assert r != 0 && grown.N(nr) == Node(r, []) && grown.S(r).par == nr;
    hide TreeOk;
    assert CanSplit(grown, r, l, sep, rn, rr, 0);
    assert SplitTree(grown, r, l, sep, rn, rr, 0).nodes == nodes[r := l][rr := rn][nr := Node(r, [Entry(sep, rr)])];
  }

  lemma FirstChild(r: nat, sep: nat, rr: nat)
    ensures Inserted(Node(r, []), 1, Entry(sep, rr)) == Node(r, [Entry(sep, rr)]) && Node(r, []).Child(0) == r
    ensures r != 0 ==> !Node(r, []).IsLeaf()
  {
    assert Inserted(Node(r, []), 1, Entry(sep, rr)).entries == [Entry(sep, rr)];
  }

  lemma RootSizes(nodes: map<nat, Node>, m: nat, r: nat, pos: int, e: Entry, l: Node, sep: nat, rn: Node, rr: nat, nr: nat)
    requires WasSplit(nodes, m, r, pos, e, l, sep, rn, rr) && SizesOk(nodes, r, m) && nr !in nodes && nr != rr && m >= 3
    ensures SizesOk(nodes[r := l][rr := rn][nr := Node(r, [Entry(sep, rr)])], nr, m)
  {
  }

  /** The children of a node about to be split are proper references. */
  lemma ChildrenAreNodes(tv: Tree, nodes: map<nat, Node>, root: nat, m: nat, r: nat, pos: int, e: Entry)
    requires DueInsert(tv, nodes, root, m, r, pos, e) && !nodes[r].IsLeaf()
    ensures forall x :: x in nodes[r].entries ==> x.value != 0
  {
    var n, n' := nodes[r], Inserted(nodes[r], pos, e);
    assert NodeOk(tv, r) && tv.N(r) == n';
    InsertedParts(n, pos, e);
    forall x | x in n.entries ensures x.value != 0 {
      var i :| 0 <= i < |n.entries| && n.entries[i] == x;
      assert n.Child(i + 1) == x.value;
      assert KidOk(tv, n', r, if i + 1 < pos then i + 1 else i + 2);
    }
  }

  ghost predicate LowerBoundIn(n: Node, key: nat, pos: nat) {
    && 1 <= pos <= n.Count() + 1
    && (forall i :: 1 <= i < pos ==> n.Key(i) < key)
    && (forall i :: pos <= i <= n.Count() ==> key <= n.Key(i))
  }

  ghost predicate ChildFor(n: Node, key: nat, pos: nat) {
    && pos <= n.Count()
    && (forall i :: 1 <= i <= pos ==> n.Key(i) <= key)
    && (forall i :: pos < i <= n.Count() ==> key < n.Key(i))
  }

  lemma EmptyTree(t: Tree, m: nat)
    requires t == Tree(map[1 := Node(0, [])], map[1 := Info(0, LIMIT, 0, 0)], 1) && m >= 3
    ensures TreeOk(t) && SizesOk(t.nodes, t.root, m) && forall e :: !Bound(t, e)
  {
    assert t.N(1) == Node(0, []);
    assert NodeOk(t, 1);
  }

  class BTree {
    const m: nat           // maxNodeSize / 16
    const maxHeight: nat
    var pages: map<nat, array<nat>>
    var root: nat
    ghost var sh: map<nat, Info>

    /** `init`: the tree starts as one empty leaf. */
    constructor (m: nat, maxHeight: nat)
      requires m >= 3
      ensures this.m == m && this.maxHeight == maxHeight && Valid() && T().S(root).ht == 0
      ensures fresh(Repr()) && forall e :: !Bound(T(), e)
    {
      this.m, this.maxHeight := m, maxHeight;
      var page := new nat[4 * m];
      root, pages, sh := 1, map[1 := page], map[1 := Info(0, LIMIT, 0, 0)];
      new;
      page[0], page[1] := 4, 0;
      HoldsWhen(page[..], m, Node(0, []));
      EmptyTree(T(), m);
    }

    ghost function Repr(): set<object>
      reads this`pages
    {
      set r | r in pages :: pages[r]
    }

    /** Every page is a well-formed node, and no two pages share a buffer. */
    ghost predicate Heap()
      reads this`pages, Repr()
    {
      && m >= 3
      && (forall r :: r in pages ==> WordsOk(pages[r][..], m))
      && (forall r, s :: r in pages && s in pages && r != s ==> pages[r] != pages[s])
    }

    ghost function Nodes(): map<nat, Node>
      requires Heap()
      reads this`pages, Repr()
    {
      map r | r in pages :: Decode(pages[r][..])
    }

    ghost function T(): Tree
      requires Heap()
      reads this, Repr()
    {
      Tree(Nodes(), sh, root)
    }

    /** The B+tree invariant: key order, separators, equal leaf depth, occupancy and node size */
    ghost predicate Valid()
      reads this, Repr()
    {
      Heap() && TreeOk(T()) && SizesOk(Nodes(), root, m)
    }

    // -------------------------------------------------------------- pages

    function NodeSize(ref: nat): nat
      requires ref in pages && pages[ref].Length > 0
      reads this, Repr()
    {
      pages[ref][0] + 4
    }

    function MinNodeSize(): int { 16 * m / 2 - 8 }

    method AllocNode() returns (ref: nat, page: array<nat>)
      modifies this`pages
      ensures ref != 0 && ref !in old(pages) && pages == old(pages)[ref := page]
      ensures fresh(page) && page.Length == 4 * m
    {
      SomeRefIsFree(pages.Keys);
      ref :| ref != 0 && ref !in pages.Keys;
      page := new nat[4 * m];
      pages := pages[ref := page];
    }

    method FreeNode(ref: nat)
      modifies this`pages
      requires Heap()
      ensures pages == old(pages) - {ref} && Heap() && Nodes() == old(Nodes()) - {ref}
    {
      pages := pages - {ref};
    }

    method PageInsert(ref: nat, pos: nat, key: nat, value: nat)
      requires Heap() && ref in pages
      requires 1 <= pos <= Nodes()[ref].Count() + 1 && Nodes()[ref].Count() < 2 * m - 1
      modifies pages[ref]
      ensures Heap() && Nodes() == old(Nodes())[ref := Inserted(old(Nodes())[ref], pos, Entry(key, value))]
    {
      InsertRaw(pages[ref], pos, key, value, m, Nodes()[ref]);
    }

    method PageRemove(ref: nat, pos: nat)
      requires Heap() && ref in pages && 1 <= pos <= Nodes()[ref].Count()
      modifies pages[ref]
      ensures Heap() && Nodes() == old(Nodes())[ref := Removed(old(Nodes())[ref], pos)]
    {
      RemoveRaw(pages[ref], pos, m, Nodes()[ref]);
    }

    method PageSplit(ref: nat, pos: nat, key: nat, value: nat)
      returns (rightRef: nat, splitKey: nat, ghost l: Node, ghost r: Node)
      requires Heap() && ref in pages && 1 <= pos <= Nodes()[ref].Count() + 1 && Nodes()[ref].Count() == 2 * m - 1
      requires !Nodes()[ref].IsLeaf() ==> forall e :: e in Nodes()[ref].entries ==> e.value != 0
      modifies this`pages, pages[ref]
      ensures rightRef !in old(pages) && rightRef != 0 && rightRef in pages && fresh(pages[rightRef])
      ensures pages == old(pages)[rightRef := pages[rightRef]]
      ensures Heap() && Nodes() == old(Nodes())[ref := l][rightRef := r]
      ensures Joined(l, splitKey, r) == Inserted(old(Nodes())[ref], pos, Entry(key, value)) && r.IsLeaf() == l.IsLeaf()
      ensures r.IsLeaf() ==> splitKey == r.Key(1)
      ensures m - 1 <= l.Count() <= m && m - 1 <= r.Count() <= m + 1
    {
      hide Decode, WordsOk, Joined, Inserted;
      ghost var n := Nodes()[ref];
      var rightPage;
      rightRef, rightPage := AllocNode();
      splitKey, l, r := InsertSplit(pages[ref], rightPage, pos, key, value, m, n);
    }

    /** One level of a descent */
    method FindInNode(ref: nat, key: nat) returns (isLeaf: bool, pos: nat, child: nat)
      requires Valid() && ref in T().nodes && Ascending(T().N(ref))
      ensures isLeaf == T().N(ref).IsLeaf()
      ensures isLeaf ==> LowerBoundIn(T().N(ref), key, pos)
      ensures !isLeaf ==> ChildFor(T().N(ref), key, pos) && child == T().N(ref).Child(pos)
    {
      var page := pages[ref];
      ghost var n := Nodes()[ref];
      WordsOf(page[..], m, n);
      isLeaf := page[1] == 0;
      if isLeaf {
        pos := FindLeafNodeEntry(page, key, m, n);
        child := 0;
      } else {
        pos := FindInnerNodeEntry(page, key, m, n);
        child := page[pos * 2 + 1];
        assert pos > 0 ==> page[2 * (pos - 1) + 3] == n.entries[pos - 1].value;
      }
    }

    method PageBorrowLeft(ref: nat, left: nat, p: nat, q: nat) returns (ghost n': Node, ghost l': Node, ghost sep: nat)
      requires Heap() && ref in pages && left in pages && p in pages && ref != left && ref != p && left != p
      requires 1 <= q <= Nodes()[p].Count() && Nodes()[left].Count() >= 1 && Nodes()[ref].Count() < 2 * m - 1
      requires Nodes()[ref].IsLeaf() == Nodes()[left].IsLeaf()
      requires !Nodes()[left].IsLeaf() ==> Nodes()[left].Child(Nodes()[left].Count()) != 0
      modifies pages[ref], pages[left], pages[p]
      ensures Heap() && Nodes() == old(Nodes())[left := l'][ref := n'][p := WithKey(old(Nodes())[p], q, sep)]
      ensures Joined(l', sep, n') == Joined(old(Nodes())[left], old(Nodes())[p].Key(q), old(Nodes())[ref])
      ensures n'.IsLeaf() == l'.IsLeaf() && (n'.IsLeaf() ==> sep == n'.Key(1))
      ensures n'.Count() == old(Nodes())[ref].Count() + 1 && l'.Count() == old(Nodes())[left].Count() - 1
    {
      ghost var nodes0 := Nodes();
      n', l', sep := BorrowFromLeft(pages[ref], pages[left], pages[p], q, m, nodes0[ref], nodes0[left], nodes0[p]);
    }

    method PageBorrowRight(ref: nat, right: nat, p: nat, q: nat) returns (ghost n': Node, ghost r': Node, ghost sep: nat)
      requires Heap() && ref in pages && right in pages && p in pages && ref != right && ref != p && right != p
      requires 1 <= q <= Nodes()[p].Count() && Nodes()[right].Count() >= 2 && Nodes()[ref].Count() < 2 * m - 1
      requires Nodes()[ref].IsLeaf() == Nodes()[right].IsLeaf()
      requires !Nodes()[right].IsLeaf() ==> Nodes()[right].Child(1) != 0
      modifies pages[ref], pages[right], pages[p]
      ensures Heap() && Nodes() == old(Nodes())[ref := n'][right := r'][p := WithKey(old(Nodes())[p], q, sep)]
      ensures Joined(n', sep, r') == Joined(old(Nodes())[ref], old(Nodes())[p].Key(q), old(Nodes())[right])
      ensures n'.IsLeaf() == r'.IsLeaf() && (r'.IsLeaf() ==> sep == r'.Key(1))
      ensures n'.Count() == old(Nodes())[ref].Count() + 1 && r'.Count() == old(Nodes())[right].Count() - 1
    {
      ghost var nodes0 := Nodes();
      n', r', sep := BorrowFromRight(pages[ref], pages[right], pages[p], q, m, nodes0[ref], nodes0[right], nodes0[p]);
    }

    /** Child `q` of `p` is appended to its left neighbour and freed. */
    method PageMerge(left: nat, right: nat, p: nat, q: nat)
      requires Heap() && left in pages && right in pages && p in pages && left != right && left != p && right != p
      requires 1 <= q <= Nodes()[p].Count() && Nodes()[left].IsLeaf() == Nodes()[right].IsLeaf()
      requires Nodes()[left].Count() + Nodes()[right].Count() + 1 <= 2 * m - 1
      modifies this`pages, pages[left]
      ensures pages == old(pages) - {right} && Heap()
      ensures Nodes() == old(Nodes())[left := Joined(old(Nodes())[left], old(Nodes())[p].Key(q), old(Nodes())[right])] - {right}
    {
      ghost var nodes0 := Nodes();
      ghost var joined := Joined(nodes0[left], nodes0[p].Key(q), nodes0[right]);
      MergeNodes(pages[left], pages[right], pages[p], q, m, nodes0[left], nodes0[right], nodes0[p]);
      assert Nodes() == nodes0[left := joined];
      FreeNode(right);
    }

    method NewRoot(key: nat, value: nat)
      requires Heap()
      modifies this`pages, this`root
      ensures root != 0 && root !in old(pages) && root in pages && fresh(pages[root])
      ensures pages == old(pages)[root := pages[root]]
      ensures Heap() && Nodes() == old(Nodes())[root := Node(old(root), [Entry(key, value)])]
    {
      hide Decode, WordsOk;
      var ref, page := AllocNode();
      page[0], page[1], page[2], page[3] := 12, root, key, value;
      HoldsWhen(page[..], m, Node(root, [Entry(key, value)]));
      root := ref;
    }

    // -------------------------------------------------------------- insertion

    lemma PagesAreNodes()
      requires Heap()
      ensures Nodes().Keys == pages.Keys
    {
    }

    ghost predicate Whole(t: Tree)
      reads this, Repr()
    {
      Valid() && T() == t
    }

    /** The nodes are those of a tree in order: it becomes the shape of this tree. */
    ghost method Adopt(t: Tree)
      requires Heap() && Nodes() == t.nodes && root == t.root && TreeOk(t) && SizesOk(t.nodes, t.root, m)
      modifies this`sh
      ensures Whole(t)
    {
      hide TreeOk, SizesOk, Decode, WordsOk;
      sh := t.sh;
      assert Nodes() == t.nodes;
    }

    lemma RoomMeans(r: nat)
      requires Heap() && r in pages
      ensures NodeSize(r) + 8 <= 16 * m <==> Nodes()[r].Count() < 2 * m - 1
    {
      WordsOf(pages[r][..], m, Nodes()[r]);
    }

    /** There is room: the entry is inserted and the tree is whole again. */
    method InsertInto(r: nat, pos: nat, key: nat, value: nat, ghost tv: Tree)
      requires Heap() && DueInsert(tv, Nodes(), root, m, r, pos, Entry(key, value))
      requires NodeSize(r) + 8 <= 16 * m
      modifies this`sh, pages[r]
      ensures Whole(tv)
    {
      hide DueInsert, SizesOk, TreeOk, Inserted, Whole;
      DueInsertFacts(tv, Nodes(), root, m, r, pos, Entry(key, value));
      RoomMeans(r);
      PageInsert(r, pos, key, value);
      Adopt(tv);
    }

    /** There is no room: the node is split, and both halves include the entry. */
    method SplitAt(r: nat, pos: nat, key: nat, value: nat, ghost tv: Tree)
      returns (rightRef: nat, splitKey: nat, ghost l: Node, ghost rn: Node)
      requires Heap() && DueInsert(tv, Nodes(), root, m, r, pos, Entry(key, value))
      requires NodeSize(r) + 8 > 16 * m
      modifies this`pages, pages[r]
      ensures Heap() && WasSplit(old(Nodes()), m, r, pos, Entry(key, value), l, splitKey, rn, rightRef)
      ensures Nodes() == old(Nodes())[r := l][rightRef := rn]
      ensures rightRef in pages && pages == old(pages)[rightRef := pages[rightRef]] && fresh(pages[rightRef])
    {
      hide DueInsert, WasSplit, SizesOk, TreeOk, Joined, Inserted;
      ghost var nodes0 := Nodes();
      DueInsertFacts(tv, nodes0, root, m, r, pos, Entry(key, value));
      RoomMeans(r);
      rightRef, splitKey, l, rn := PageSplit(r, pos, key, value);
      SplitIsWasSplit(nodes0, m, r, pos, Entry(key, value), l, splitKey, rn, rightRef);
    }

    /** The old root has been split: a new level is created above both halves. */
    method CreateRoot(splitKey: nat, rightRef: nat, ghost tv: Tree, ghost nodes0: map<nat, Node>,
                      ghost pos: int, ghost e: Entry, ghost l: Node, ghost rn: Node) returns (ghost tv': Tree)
      requires Heap() && DueInsert(tv, nodes0, root, m, root, pos, e)
      requires WasSplit(nodes0, m, root, pos, e, l, splitKey, rn, rightRef)
      requires Nodes() == nodes0[root := l][rightRef := rn]
      modifies this`pages, this`root, this`sh
      ensures Whole(tv') && SameBindings(tv, tv')
      ensures root !in old(pages) && root in pages && fresh(pages[root]) && pages == old(pages)[root := pages[root]]
    {
      hide DueInsert, WasSplit, SizesOk, TreeOk, SameBindings, Whole;
      DueIsPage(tv, nodes0, root, m, root, pos, e);
      PagesAreNodes();
      assert pages.Keys == nodes0.Keys + {root, rightRef};
      NewRoot(splitKey, rightRef);
      tv' := RootSplit(tv, nodes0, m, pos, e, l, splitKey, rn, rightRef, root);
      Adopt(tv');
    }

    /** Entry `e` is to be inserted at `pos` of the node at `level`; then the tree is `tv`. */
    ghost predicate Climbing(lv: seq<Level>, level: int, pos: int, e: Entry, tv: Tree)
      reads this, Repr()
    {
      && Heap() && 0 <= level < |lv|
      && DueInsert(tv, Nodes(), root, m, lv[level].node, pos, e) && PathDown(tv, Nodes(), lv, level)
    }

    /** One round of the loop in `insert` */
    method InsertRound(lv: seq<Level>, level: int, pos: nat, key: nat, value: nat, ghost tv: Tree)
      returns (done: bool, pos': nat, key': nat, value': nat, ghost tv': Tree)
      requires Climbing(lv, level, pos, Entry(key, value), tv)
      modifies this, Repr()
      ensures SameBindings(tv, tv') && fresh(Repr() - old(Repr()))
      ensures if done then Whole(tv')
              else level > 0 && Climbing(lv, level - 1, pos', Entry(key', value'), tv')
    {
      hide DueInsert, PathDown, WasSplit, SizesOk, TreeOk, SameBindings, Whole;
      var r := lv[level].node;
      ghost var nodes0 := Nodes();
      DueIsPage(tv, nodes0, root, m, r, pos, Entry(key, value));
      pos', key', value', tv' := pos, key, value, tv;
      if NodeSize(r) + 8 <= 16 * m {
        InsertInto(r, pos, key, value, tv);
        SameBindingsItself(tv);
        done := true;
        return;
      }
      var rightRef, splitKey;
      ghost var l, rn;
      rightRef, splitKey, l, rn := SplitAt(r, pos, key, value, tv);
      if level == 0 {
        PathAtRoot(tv, nodes0, lv);
        tv' := CreateRoot(splitKey, rightRef, tv, nodes0, pos, Entry(key, value), l, rn);
        done := true;
        return;
      }
      tv' := SplitClimbs(tv, nodes0, m, lv, level, pos, Entry(key, value), l, splitKey, rn, rightRef);
      pos', key', value' := lv[level - 1].pos + 1, splitKey, rightRef;
      done := false;
    }

    /** The loop of `insert`, from the leaf up */
    method InsertFrom(leaf: nat, lv: seq<Level>, key0: nat, value0: nat, ghost t: Tree, ghost tv0: Tree)
      requires leaf < |lv| && OneMore(t, tv0, Entry(key0, value0))
      requires Climbing(lv, leaf, lv[leaf].pos, Entry(key0, value0), tv0)
      modifies this, Repr()
      ensures Valid() && OneMore(t, T(), Entry(key0, value0)) && fresh(Repr() - old(Repr()))
    {
      hide Climbing, OneMore, SameBindings, Whole;
      var level: int, pos: nat, key: nat, value: nat := leaf, lv[leaf].pos, key0, value0;
      ghost var tv := tv0;
      var done := false;
      while !done
        invariant OneMore(t, tv, Entry(key0, value0)) && fresh(Repr() - old(Repr()))
        invariant 0 <= level
        invariant if done then Whole(tv) else Climbing(lv, level, pos, Entry(key, value), tv)
        decreases !done, level
      {
        ghost var before := tv;
        done, pos, key, value, tv := InsertRound(lv, level, pos, key, value, tv);
        OneMoreAfter(t, before, tv, Entry(key0, value0));
        if !done { level := level - 1; }
      }
      WholeMeans(tv);
    }

    lemma WholeMeans(t: Tree)
      requires Whole(t)
      ensures Valid() && T() == t
    {
    }
  }

  lemma SameBindingsItself(t: Tree)
    ensures SameBindings(t, t)
  {
  }

  lemma DueIsPage(tv: Tree, nodes: map<nat, Node>, root: nat, m: nat, r: nat, pos: int, e: Entry)
    requires DueInsert(tv, nodes, root, m, r, pos, e)
    ensures r in nodes && tv.root == root && TreeOk(tv)
  {
  }

  lemma PathAtRoot(tv: Tree, nodes: map<nat, Node>, levels: seq<Level>)
    requires PathDown(tv, nodes, levels, 0)
    ensures levels[0].node == tv.root
  {
  }

  lemma SplitIsWasSplit(nodes: map<nat, Node>, m: nat, r: nat, pos: int, e: Entry,
                        l: Node, sep: nat, rn: Node, rr: nat)
    requires r in nodes && rr !in nodes && rr != 0
    requires Joined(l, sep, rn) == Inserted(nodes[r], pos, e) && l.IsLeaf() == rn.IsLeaf()
    requires rn.IsLeaf() ==> sep == rn.Key(1)
    requires m - 1 <= l.Count() <= m && m - 1 <= rn.Count() <= m + 1
    ensures WasSplit(nodes, m, r, pos, e, l, sep, rn, rr)
  {
  }

  lemma DueInsertFacts(tv: Tree, nodes: map<nat, Node>, root: nat, m: nat, r: nat, pos: int, e: Entry)
    requires DueInsert(tv, nodes, root, m, r, pos, e)
    ensures TreeOk(tv) && tv.root == root && r in nodes && 1 <= pos <= nodes[r].Count() + 1 && m >= 3
    ensures tv.nodes == nodes[r := Inserted(nodes[r], pos, e)] && nodes[r].Count() <= 2 * m - 1
    ensures nodes[r].Count() < 2 * m - 1 ==> SizesOk(tv.nodes, root, m)
    ensures !nodes[r].IsLeaf() ==> forall x :: x in nodes[r].entries ==> x.value != 0
  {
    assert SizeOk(nodes[r], r == root, m);
    InsertedParts(nodes[r], pos, e);
    if !nodes[r].IsLeaf() { ChildrenAreNodes(tv, nodes, root, m, r, pos, e); }
  }

  /** The first `k` levels lead from the root to `node`. */
  ghost predicate PathTo(t: Tree, levels: seq<Level>, k: int, node: nat) {
    && 0 <= k < |levels| && node in t.nodes && t.S(node).ht == t.S(t.root).ht - k
    && (k == 0 ==> node == t.root)
    && (k > 0 ==> levels[0].node == t.root && t.N(levels[k - 1].node).Child(levels[k - 1].pos) == node)
    && (forall i :: 0 <= i < k ==> levels[i].node in t.nodes && t.S(levels[i].node).ht == t.S(t.root).ht - i
                                   && !t.N(levels[i].node).IsLeaf() && levels[i].pos <= t.N(levels[i].node).Count())
    && (forall i :: 0 <= i < k - 1 ==> t.N(levels[i].node).Child(levels[i].pos) == levels[i + 1].node)
  }

  lemma PathStarts(t: Tree, levels: seq<Level>, key: int)
    requires TreeOk(t) && |levels| > 0 && 0 <= key < LIMIT
    ensures PathTo(t, levels, 0, t.root) && Covers(t, t.root, key)
  {
  }

  lemma PathNode(t: Tree, levels: seq<Level>, k: int, node: nat)
    requires TreeOk(t) && PathTo(t, levels, k, node)
    ensures node in t.nodes && Ascending(t.N(node)) && (t.N(node).IsLeaf() <==> t.S(node).ht == 0)
    ensures t.S(node).ht == t.S(t.root).ht - k >= 0
  {
    NodeFacts(t, node);
  }

  lemma PathExtends(t: Tree, levels: seq<Level>, k: int, node: nat, pos: nat)
    requires PathTo(t, levels, k, node) && !t.N(node).IsLeaf() && pos <= t.N(node).Count() && k + 1 < |levels|
    requires var c := t.N(node).Child(pos); c in t.nodes && t.S(c).ht == t.S(node).ht - 1
    ensures PathTo(t, levels[k := Level(node, pos)], k + 1, t.N(node).Child(pos))
  {
  }

  lemma PathEnds(t: Tree, levels: seq<Level>, k: int, node: nat, pos: nat)
    requires PathTo(t, levels, k, node)
    ensures PathDown(t, t.nodes, levels[k := Level(node, pos)], k)
  {
  }

  /** The child a search for `key` descends into covers the key. */
  lemma DescendCovers(t: Tree, r: nat, pos: nat, key: nat)
    requires TreeOk(t) && r in t.nodes && !t.N(r).IsLeaf() && Covers(t, r, key) && ChildFor(t.N(r), key, pos)
    ensures var c := t.N(r).Child(pos); pos <= t.N(r).Count() && c in t.nodes && Covers(t, c, key) && t.S(c).ht == t.S(r).ht - 1
  {
    assert NodeOk(t, r) && KidOk(t, t.N(r), r, pos);
  }

  lemma NodeFacts(t: Tree, r: nat)
    requires TreeOk(t) && r in t.nodes
    ensures NodeOk(t, r) && Ascending(t.N(r)) && (t.N(r).IsLeaf() <==> t.S(r).ht == 0) && t.S(r).ht >= 0
    ensures t.S(r).ht <= t.S(t.root).ht && r != 0
    ensures t.S(t.root).ht >= 0 && t.root in t.nodes
  {
    assert NodeOk(t, r) && NodeOk(t, t.root);
  }

  class Cursor {
    const tree: BTree
    const levels: array<Level>
    var leaf: nat

    constructor (tree: BTree)
      requires tree.maxHeight > 0
      ensures this.tree == tree && fresh(levels) && levels.Length == tree.maxHeight
    {
      this.tree := tree;
      levels := new Level[tree.maxHeight](_ => Level(0, 0));
      leaf := 0;
    }

    /** Neither the cursor nor its levels are a page of the tree. */
    ghost predicate Apart()
      reads this, tree
    {
      (levels as object) !in tree.Repr() && (this as object) !in tree.Repr()
    }

    /** The tree is not higher than the stack of levels allows. */
    ghost predicate Fits()
      reads this, tree, tree.Repr()
    {
      Apart() && tree.Valid() && tree.T().S(tree.root).ht < levels.Length
    }

    ghost predicate OnPath()
      reads this, tree, tree.Repr(), levels
    {
      Apart() && tree.Valid() && leaf < levels.Length && PathDown(tree.T(), tree.Nodes(), levels[..], leaf)
      && tree.T().S(levels[leaf].node).ht == 0
    }

    /** The tree behind the cursor is `t`. */
    ghost predicate On(t: Tree)
      reads this, tree, tree.Repr()
    {
      Apart() && tree.Valid() && tree.T() == t
    }

    method SetLeaf(i: nat, ghost t: Tree)
      requires On(t) && i < levels.Length
      requires PathDown(t, t.nodes, levels[..], i) && t.S(levels[i].node).ht == 0
      modifies this`leaf
      ensures leaf == i && OnPath() && On(t)
    {
      hide PathDown, BTree.Valid;
      leaf := i;
    }

    lemma AtRoot(t: Tree, key: int)
      requires On(t) && Fits() && 0 <= key < LIMIT
      ensures PathTo(t, levels[..], 0, tree.root) && Covers(t, tree.root, key) && TreeOk(t)
      ensures 0 <= t.S(t.root).ht < levels.Length && t.root == tree.root
    {
      NodeFacts(t, tree.root);
      PathStarts(t, levels[..], key);
    }

    /** One level of a search: sets the level's node and position. */
    method SearchLevel(i: nat, node: nat, key: nat, ghost t: Tree) returns (isLeaf: bool, pos: nat, child: nat)
      requires On(t) && i < levels.Length && node in t.nodes && Ascending(t.N(node))
      modifies levels
      ensures On(t) && levels[..] == old(levels[..])[i := Level(node, pos)]
      ensures isLeaf == t.N(node).IsLeaf()
      ensures isLeaf ==> LowerBoundIn(t.N(node), key, pos)
      ensures !isLeaf ==> ChildFor(t.N(node), key, pos) && child == t.N(node).Child(pos)
    {
      isLeaf, pos, child := tree.FindInNode(node, key);
      levels[i] := Level(node, pos);
    }

    /** Positions the cursor at the lowest key that is not below `key` within the leaf covering `key`. */
    method FindLowerBound(key: nat, ghost t: Tree)
      requires On(t) && Fits() && key < LIMIT
      modifies this`leaf, levels
      ensures On(t) && OnPath() && leaf < levels.Length
      ensures Covers(t, levels[leaf].node, key) && LowerBoundIn(t.N(levels[leaf].node), key, levels[leaf].pos)
    {
      var level, node := 0, tree.root;
      AtRoot(t, key);
      hide TreeOk, NodeOk, PathDown, PathTo, KeysOk, LowerBoundIn, ChildFor, Ascending, OnPath, On, Fits;
      while true
        invariant level < levels.Length && Covers(t, node, key) && On(t)
        invariant PathTo(t, levels[..], level, node)
        decreases levels.Length - level
      {
        PathNode(t, levels[..], level, node);
        ghost var before := levels[..];
        var isLeaf, pos, child := SearchLevel(level, node, key, t);
        if isLeaf {
          PathEnds(t, before, level, node, pos);
          SetLeaf(level, t);
          return;
        }
        DescendCovers(t, node, pos, key);
        PathExtends(t, before, level, node, pos);
        node := child;
        level := level + 1;
      }
    }
  }

  /** The bindings of `t'` are those of `t` and one more. */
  ghost predicate OneMore(t: Tree, t': Tree, e: Entry) {
    forall x :: Bound(t', x) <==> Bound(t, x) || x == e
  }

  lemma OneMoreMeans(t: Tree, t': Tree, e: Entry)
    requires OneMore(t, t', e)
    ensures forall x :: Bound(t', x) <==> Bound(t, x) || x == e
  {
  }

  lemma OneMoreAfter(t: Tree, t1: Tree, t2: Tree, e: Entry)
    requires OneMore(t, t1, e) && SameBindings(t1, t2)
    ensures OneMore(t, t2, e)
  {
    forall x ensures Bound(t2, x) <==> Bound(t, x) || x == e {
      assert Bound(t1, x) <==> Bound(t2, x);
    }
  }

  /** The position found for a key decides whether it is bound, and to what. */
  lemma LowerBoundDecides(t: Tree, r: nat, pos: nat, e: Entry)
    requires TreeOk(t) && r in t.nodes && t.N(r).IsLeaf() && Covers(t, r, e.key) && LowerBoundIn(t.N(r), e.key, pos)
    ensures Bound(t, e) <==> pos <= t.N(r).Count() && t.N(r).entries[pos - 1] == e
  {
    FoundInLeaf(t, r, e);
    NodeFacts(t, r);
    var n := t.N(r);
    if e in n.entries {
      var i :| 0 <= i < |n.entries| && n.entries[i] == e;
      PositionOfKey(n, e.key, pos, i);
    }
    assert pos <= n.Count() ==> n.entries[pos - 1] in n.entries;
  }

  lemma PositionOfKey(n: Node, key: nat, pos: nat, i: int)
    requires Ascending(n) && LowerBoundIn(n, key, pos) && 0 <= i < n.Count() && n.entries[i].key == key
    ensures i + 1 == pos
  {
    AscendingByKey(n);
    assert n.Key(i + 1) == key;
    assert pos <= n.Count() ==> key <= n.Key(pos);
  }

  /** Inserting into the leaf that covers the key starts the climb. */
  lemma LeafInsertDue(t: Tree, m: nat, levels: seq<Level>, leaf: int, e: Entry) returns (tv: Tree)
    requires TreeOk(t) && SizesOk(t.nodes, t.root, m) && m >= 3
    requires PathDown(t, t.nodes, levels, leaf) && t.S(levels[leaf].node).ht == 0 && Covers(t, levels[leaf].node, e.key)
    requires LowerBoundIn(t.N(levels[leaf].node), e.key, levels[leaf].pos)
    requires forall x :: Bound(t, x) ==> x.key != e.key
    ensures DueInsert(tv, t.nodes, t.root, m, levels[leaf].node, levels[leaf].pos, e)
    ensures PathDown(tv, t.nodes, levels, leaf) && OneMore(t, tv, e)
  {
    var r, pos := levels[leaf].node, levels[leaf].pos;
    NodeFacts(t, r);
    LeafTakesKey(t, r, pos, e);
    LeafStep(t, r, Inserted(t.N(r), pos, e));
    tv := WithNode(t, r, Inserted(t.N(r), pos, e));
    LeafBindsOneMore(t, r, pos, e);
    hide NodeOk, KeysOk, Ascending, Bound, Has, OneMore, TreeOk, SizesOk;
  }

  lemma LeafTakesKey(t: Tree, r: nat, pos: int, e: Entry)
    requires TreeOk(t) && r in t.nodes && t.N(r).IsLeaf() && NodeOk(t, r) && Covers(t, r, e.key)
    requires 1 <= pos && LowerBoundIn(t.N(r), e.key, pos)
    requires forall x :: Bound(t, x) ==> x.key != e.key
    ensures pos <= t.N(r).Count() + 1 && KeysOk(Inserted(t.N(r), pos, e), t.S(r).lo, t.S(r).hi)
  {
    var n := t.N(r);
    if pos <= n.Count() {
      var x := n.entries[pos - 1];
      assert x in n.entries && Has(n, x);
      assert Bound(t, x);
    }
    hide TreeOk, NodeOk, Bound, Has;
    InsertKeys(n, pos, e, t.S(r).lo, t.S(r).hi);
  }

  lemma LeafBindsOneMore(t: Tree, r: nat, pos: int, e: Entry)
    requires r in t.nodes && t.N(r).IsLeaf() && 1 <= pos <= t.N(r).Count() + 1
    requires var n := Inserted(t.N(r), pos, e);
             forall x :: Bound(WithNode(t, r, n), x) <==> x in n.entries || exists y :: y in t.nodes && y != r && Has(t.N(y), x)
    ensures OneMore(t, WithNode(t, r, Inserted(t.N(r), pos, e)), e)
  {
    var n := t.N(r);
    var tv := WithNode(t, r, Inserted(n, pos, e));
    forall x ensures Bound(tv, x) <==> Bound(t, x) || x == e {
      assert x in Inserted(n, pos, e).entries <==> x in n.entries || x == e;
      if Bound(t, x) {
        var y :| y in t.nodes && Has(t.N(y), x);
      }
      if x in n.entries { assert Has(t.N(r), x); }
    }
  }

  /** `insert`: adds exactly the binding `key -> value`, and keeps the B+tree invariant, through
      leaf splits, inner splits and a new root. The key must not be bound yet. */
  method Insert(tree: BTree, key: nat, value: nat)
    requires tree.Valid() && tree.T().S(tree.root).ht < tree.maxHeight && key < LIMIT
    requires forall e :: Bound(tree.T(), e) ==> e.key != key
    modifies tree, tree.Repr()
    ensures tree.Valid()
    ensures var (t, t') := (old(tree.T()), tree.T()); forall x :: Bound(t', x) <==> Bound(t, x) || x == Entry(key, value)
    ensures fresh(tree.Repr() - old(tree.Repr()))
  {
    hide BTree.Valid, BTree.Climbing, Cursor.On, Cursor.OnPath, Cursor.Fits, OneMore, Bound, TreeOk, Covers, LowerBoundIn;
    TreeIsOk(tree);
    ghost var t := tree.T();
    var cursor := new Cursor(tree);
    CursorIsOn(cursor, t);
    cursor.FindLowerBound(key, t);
    var lv, leaf := cursor.levels[..], cursor.leaf;
    ghost var tv := StartInsert(tree, cursor, t, Entry(key, value));
    tree.InsertFrom(leaf, lv, key, value, t, tv);
    TreeIsOk(tree);
    OneMoreMeans(t, tree.T(), Entry(key, value));
  }

  lemma TreeIsOk(tree: BTree)
    requires tree.Valid()
    ensures tree.Heap() && TreeOk(tree.T()) && tree.T().root == tree.root && tree.T().S(tree.root).ht >= 0
  {
    RootHeight(tree.T());
  }

  lemma CursorIsOn(cursor: Cursor, t: Tree)
    requires cursor.tree.Valid() && cursor.tree.T() == t && cursor.Apart()
    ensures cursor.On(t)
    ensures t.S(t.root).ht < cursor.levels.Length ==> cursor.Fits()
  {
  }

  lemma RootHeight(t: Tree)
    requires TreeOk(t)
    ensures t.S(t.root).ht >= 0
  {
    NodeFacts(t, t.root);
  }

  lemma StartInsert(tree: BTree, cursor: Cursor, t: Tree, e: Entry) returns (tv: Tree)
    requires cursor.tree == tree && cursor.On(t) && cursor.OnPath() && cursor.leaf < cursor.levels.Length
    requires Covers(t, cursor.levels[cursor.leaf].node, e.key)
    requires LowerBoundIn(t.N(cursor.levels[cursor.leaf].node), e.key, cursor.levels[cursor.leaf].pos)
    requires forall x :: Bound(t, x) ==> x.key != e.key
    ensures tree.Climbing(cursor.levels[..], cursor.leaf, cursor.levels[cursor.leaf].pos, e, tv) && OneMore(t, tv, e)
  {
    tv := LeafInsertDue(t, tree.m, cursor.levels[..], cursor.leaf, e);
  }
}
