/** Walking a B+tree in key order: `moveToFirst`, `moveNext` and `Iterator` of
    include/clarisma/store/BTree.h. */
module BTreeIterations {
  import opened BTreeNodes
  import opened BTreeShapes
  import opened BTrees

  // ---------------------------------------------------------------- ranges along a path

  /** Levels 0 to k form a path whose last child is `node`. */
  lemma PathToChild(t: Tree, levels: seq<Level>, leaf: int, k: int, pos: nat)
    requires TreeOk(t) && PathDown(t, t.nodes, levels, leaf) && 0 <= k < leaf && levels[k].pos <= pos <= t.N(levels[k].node).Count()
    ensures var lv, n := levels[k := Level(levels[k].node, pos)], t.N(levels[k].node);
            PathTo(t, lv, k + 1, n.Child(pos)) && t.S(n.Child(pos)).lo == LoOf(n, t.S(levels[k].node).lo, pos)
  {
    var r := levels[k].node;
    NodeFacts(t, r);
    assert KidOk(t, t.N(r), r, pos);
    hide TreeOk, NodeOk;
    var lv := levels[k := Level(r, pos)];
    assert forall i :: 0 <= i < k ==> lv[i] == levels[i];
  }

  /** The upper end of a child's range */
  lemma ChildUpper(t: Tree, levels: seq<Level>, leaf: int, k: int)
    requires TreeOk(t) && PathDown(t, t.nodes, levels, leaf) && 0 <= k < leaf
    ensures var r, q, c := levels[k].node, levels[k].pos, levels[k + 1].node;
            q <= t.N(r).Count() && t.S(c).hi == HiOf(t.N(r), t.S(r).hi, q)
  {
    var r := levels[k].node;
    NodeFacts(t, r);
    assert KidOk(t, t.N(r), r, levels[k].pos);
  }

  lemma LeftmostChild(t: Tree, levels: seq<Level>, k: int, node: nat)
    requires TreeOk(t) && PathTo(t, levels, k, node) && !t.N(node).IsLeaf()
    ensures var c := t.N(node).first; c in t.nodes && t.S(c).ht == t.S(node).ht - 1 && t.S(c).lo == t.S(node).lo
    ensures t.S(node).ht > 0
  {
    NodeFacts(t, node);
    assert KidOk(t, t.N(node), node, 0);
  }

  /** Every range lies within the root's. */
  lemma {:induction false} RangeInside(t: Tree, x: nat)
    requires TreeOk(t) && x in t.nodes
    ensures 0 <= t.S(x).lo < t.S(x).hi <= LIMIT
    decreases t.S(t.root).ht - t.S(x).ht
  {
    NodeFacts(t, x);
    if x != t.root {
      Below(t, x);
      var p := t.S(x).par;
      RangeInside(t, p);
      NodeFacts(t, p);
      var i :| 0 <= i <= t.N(p).Count() && t.N(p).Child(i) == x
               && t.S(x).lo == LoOf(t.N(p), t.S(p).lo, i) && t.S(x).hi == HiOf(t.N(p), t.S(p).hi, i);
      KeyBounds(t.N(p), t.S(p).lo, t.S(p).hi, i);
    }
  }

  lemma LeafSize(tree: BTree, t: Tree, r: nat)
    requires tree.Valid() && tree.T() == t && r in t.nodes
    ensures r in tree.pages && r in tree.Nodes() && tree.Nodes()[r] == t.N(r) && tree.Heap()
    ensures tree.pages[r].Length >= 4 && tree.pages[r][0] / 8 == t.N(r).Count()
    ensures tree.pages[r][1] == t.N(r).first && (r != t.root ==> t.N(r).Count() >= 1)
  {
    WordsOf(tree.pages[r][..], tree.m, t.N(r));
    assert SizeOk(t.N(r), r == t.root, tree.m);
  }

  // ---------------------------------------------------------------- the cursor

  /** `isAfter` */
  predicate IsAfter(cursor: Cursor)
    requires cursor.leaf < cursor.levels.Length && cursor.levels[cursor.leaf].node in cursor.tree.pages
    requires cursor.tree.pages[cursor.levels[cursor.leaf].node].Length > 0
    reads cursor, cursor.levels, cursor.tree, cursor.tree.Repr()
  {
    cursor.levels[cursor.leaf].pos > cursor.tree.pages[cursor.levels[cursor.leaf].node][0] / 8
  }

  /** One level of the way down to the leftmost leaf below `node` */
  method VisitLeft(cursor: Cursor, level: nat, node: nat, ghost t: Tree) returns (isLeaf: bool, child: nat)
    requires cursor.On(t) && level < cursor.levels.Length && node in t.nodes
    modifies cursor.levels
    ensures cursor.On(t) && isLeaf == t.N(node).IsLeaf() && child == t.N(node).first
    ensures cursor.levels[..] == old(cursor.levels[..])[level := Level(node, if isLeaf then 1 else 0)]
  {
    LeafSize(cursor.tree, t, node);
    child := cursor.tree.pages[node][1];
    isLeaf := child == 0;
    cursor.levels[level] := Level(node, if isLeaf then 1 else 0);
  }

  /** The loop that both `moveToFirst` and `moveNext` end with */
  method DescendLeft(cursor: Cursor, level0: nat, node0: nat, ghost t: Tree)
    requires cursor.On(t) && TreeOk(t) && PathTo(t, cursor.levels[..], level0, node0)
    requires t.S(t.root).ht < cursor.levels.Length
    modifies cursor`leaf, cursor.levels
    ensures cursor.On(t) && cursor.OnPath() && cursor.leaf < cursor.levels.Length
    ensures cursor.levels[cursor.leaf].pos == 1 && t.S(cursor.levels[cursor.leaf].node).lo == t.S(node0).lo
    ensures cursor.leaf >= level0
  {
    hide TreeOk, PathTo, PathDown, Cursor.On, Cursor.OnPath;
    var level, node := level0, node0;
    while true
      invariant level0 <= level && cursor.On(t) && PathTo(t, cursor.levels[..], level, node)
      invariant t.S(node).lo == t.S(node0).lo
      decreases t.S(node).ht
    {
      PathNode(t, cursor.levels[..], level, node);
      PathToBound(t, cursor.levels[..], level, node);
      ghost var before := cursor.levels[..];
      var isLeaf, child := VisitLeft(cursor, level, node, t);
      if isLeaf {
        PathEnds(t, before, level, node, 1);
        cursor.SetLeaf(level, t);
        return;
      }
      LeftmostChild(t, before, level, node);
      PathExtends(t, before, level, node, 0);
      node := child;
      level := level + 1;
    }
  }

  lemma PathToBound(t: Tree, levels: seq<Level>, k: int, node: nat)
    requires PathTo(t, levels, k, node)
    ensures 0 <= k < |levels| && t.S(node).ht == t.S(t.root).ht - k
  {
  }

  method MoveToFirst(cursor: Cursor, ghost t: Tree)
    requires cursor.On(t) && cursor.Fits()
    modifies cursor`leaf, cursor.levels
    ensures cursor.On(t) && cursor.OnPath() && cursor.leaf < cursor.levels.Length
    ensures cursor.levels[cursor.leaf].pos == 1 && t.S(cursor.levels[cursor.leaf].node).lo == 0
  {
    cursor.AtRoot(t, 0);
    RootLow(t);
    hide TreeOk, PathTo, Cursor.On, Cursor.OnPath;
    DescendLeft(cursor, 0, cursor.tree.root, t);
  }

  lemma RootLow(t: Tree)
    requires TreeOk(t)
    ensures t.S(t.root).lo == 0 && t.S(t.root).hi == LIMIT
  {
  }

  /** `pos` of a level is changed. */
  method SetPos(cursor: Cursor, level: nat, pos: nat, ghost t: Tree)
    requires cursor.On(t) && level < cursor.levels.Length
    modifies cursor.levels
    ensures cursor.On(t) && cursor.levels[..] == old(cursor.levels[..])[level := Level(old(cursor.levels[level].node), pos)]
  {
    cursor.levels[level] := cursor.levels[level].(pos := pos);
  }

  /** keyCount of the node at a level */
  method KeyCountAt(cursor: Cursor, level: nat, ghost t: Tree) returns (count: nat)
    requires cursor.On(t) && level < cursor.levels.Length && cursor.levels[level].node in t.nodes
    ensures cursor.On(t) && count == t.N(cursor.levels[level].node).Count()
    ensures cursor.levels[level].node != t.root ==> count >= 1
  {
    LeafSize(cursor.tree, t, cursor.levels[level].node);
    count := cursor.tree.pages[cursor.levels[level].node][0] / 8;
  }

  lemma PathLeafPos(t: Tree, levels: seq<Level>, leaf: int, pos: nat)
    requires PathDown(t, t.nodes, levels, leaf)
    ensures PathDown(t, t.nodes, levels[leaf := Level(levels[leaf].node, pos)], leaf)
  {
    var lv := levels[leaf := Level(levels[leaf].node, pos)];
    assert forall i :: 0 <= i < leaf ==> lv[i] == levels[i];
  }

  lemma PathMeans(t: Tree, levels: seq<Level>, leaf: int, k: int)
    requires PathDown(t, t.nodes, levels, leaf) && 0 <= k <= leaf
    ensures leaf < |levels| && levels[k].node in t.nodes && t.S(levels[k].node).ht == t.S(t.root).ht - k
    ensures levels[0].node == t.root
  {
  }

  lemma OnPathMeans(cursor: Cursor, t: Tree)
    requires cursor.On(t) && cursor.OnPath()
    ensures cursor.leaf < cursor.levels.Length && PathDown(t, t.nodes, cursor.levels[..], cursor.leaf)
    ensures t.S(cursor.levels[cursor.leaf].node).ht == 0 && TreeOk(t) && t.S(t.root).ht < cursor.levels.Length
    ensures cursor.levels[cursor.leaf].node in t.nodes && t.N(cursor.levels[cursor.leaf].node).IsLeaf()
  {
    NodeFacts(t, cursor.levels[cursor.leaf].node);
  }

  /** Where the cursor goes: to the next entry of the leaf; else to the first entry of the leaf
      whose range follows; else behind the last entry of the last leaf. */
  ghost predicate Moved(t: Tree, r: nat, pos: nat, r': nat, pos': nat) {
    if pos < t.N(r).Count() then r' == r && pos' == pos + 1
    else if t.S(r).hi == LIMIT then r' == r && pos' == pos + 1
    else r' in t.nodes && t.N(r').IsLeaf() && t.N(r').Count() >= 1 && t.S(r').lo == t.S(r).hi && pos' == 1
  }

  method MoveNext(cursor: Cursor, ghost t: Tree)
    requires cursor.On(t) && cursor.OnPath() && cursor.leaf < cursor.levels.Length
    requires 1 <= cursor.levels[cursor.leaf].pos <= t.N(cursor.levels[cursor.leaf].node).Count()
    modifies cursor`leaf, cursor.levels
    ensures cursor.On(t) && cursor.OnPath() && cursor.leaf < cursor.levels.Length
    ensures Moved(t, old(cursor.levels[cursor.leaf].node), old(cursor.levels[cursor.leaf].pos),
                  cursor.levels[cursor.leaf].node, cursor.levels[cursor.leaf].pos)
  {
    hide TreeOk, PathDown, PathTo, Cursor.On, Cursor.OnPath;
    OnPathMeans(cursor, t);
    RootLow(t);
    ghost var leaf, r, pos := cursor.leaf, cursor.levels[cursor.leaf].node, cursor.levels[cursor.leaf].pos;
    ghost var lv0 := cursor.levels[..];
    SetPos(cursor, cursor.leaf, cursor.levels[cursor.leaf].pos + 1, t);
    PathLeafPos(t, lv0, leaf, pos + 1);
    var count := KeyCountAt(cursor, cursor.leaf, t);
    if cursor.levels[cursor.leaf].pos <= count {
      cursor.SetLeaf(cursor.leaf, t);
      return;
    }
    ghost var lv := cursor.levels[..];
    var level := cursor.leaf;
    while level > 0
      invariant 0 <= level <= leaf == cursor.leaf && cursor.levels[..] == lv && cursor.On(t)
      invariant t.S(lv[level].node).hi == t.S(r).hi
    {
      level := level - 1;
      PathMeans(t, lv, leaf, level);
      ChildUpper(t, lv, leaf, level);
      var p := cursor.levels[level];
      count := KeyCountAt(cursor, level, t);
      if p.pos < count {
        PathToChild(t, lv, leaf, level, p.pos + 1);
        SetPos(cursor, level, p.pos + 1, t);
        var child := ChildAt(cursor, p.node, p.pos + 1, t);
        DescendLeft(cursor, level + 1, child, t);
        LeafIsNotEmpty(cursor, t);
        RangeInside(t, cursor.levels[cursor.leaf].node);
        return;
      }
    }
    PathMeans(t, lv, leaf, 0);
    cursor.SetLeaf(cursor.leaf, t);
  }

  method ChildAt(cursor: Cursor, node: nat, pos: nat, ghost t: Tree) returns (child: nat)
    requires cursor.On(t) && node in t.nodes && pos <= t.N(node).Count()
    ensures cursor.On(t) && child == t.N(node).Child(pos)
  {
    LeafSize(cursor.tree, t, node);
    WordsOf(cursor.tree.pages[node][..], cursor.tree.m, t.N(node));
    child := cursor.tree.pages[node][pos * 2 + 1];
    assert pos > 0 ==> cursor.tree.pages[node][2 * (pos - 1) + 3] == t.N(node).entries[pos - 1].value;
  }

  lemma LeafIsNotEmpty(cursor: Cursor, t: Tree)
    requires cursor.On(t) && cursor.OnPath() && cursor.leaf < cursor.levels.Length && cursor.leaf > 0
    ensures var r := cursor.levels[cursor.leaf].node; r in t.nodes && t.N(r).IsLeaf() && t.N(r).Count() >= 1
  {
    var r := cursor.levels[cursor.leaf].node;
    NodeFacts(t, r);
    LeafSize(cursor.tree, t, r);
  }

  // ---------------------------------------------------------------- iterating

  /** Entry `e` is still ahead of a cursor at `pos` of leaf `r`. */
  ghost predicate Ahead(t: Tree, r: nat, pos: int, e: Entry) {
    e.key >= t.S(r).hi || (1 <= pos <= t.N(r).Count() && e in t.N(r).entries[pos - 1..])
  }

  /** `done` are the bindings behind the cursor, in ascending order. */
  ghost predicate Passed(t: Tree, r: nat, pos: int, done: seq<Entry>) {
    && Ascending(Node(0, done))
    && (forall e :: e in done ==> Bound(t, e))
    && (forall e :: Bound(t, e) ==> e in done || Ahead(t, r, pos, e))
    && (forall e, f :: e in done && Ahead(t, r, pos, f) && Bound(t, f) ==> e.key < f.key)
  }

  lemma PassedAtStart(t: Tree, r: nat)
    requires TreeOk(t) && r in t.nodes && t.N(r).IsLeaf() && t.S(r).lo == 0
    ensures Passed(t, r, 1, [])
  {
    forall e | Bound(t, e) ensures Ahead(t, r, 1, e) {
      AheadInLeaf(t, r, e);
    }
  }

  lemma AheadInLeaf(t: Tree, r: nat, e: Entry)
    requires TreeOk(t) && r in t.nodes && t.N(r).IsLeaf() && Bound(t, e) && e.key >= t.S(r).lo
    ensures Ahead(t, r, 1, e)
  {
    if e.key < t.S(r).hi {
      FoundInLeaf(t, r, e);
      assert t.N(r).entries[0..] == t.N(r).entries;
    }
  }

  lemma StepOver(t: Tree, r: nat, pos: int, done: seq<Entry>)
    requires TreeOk(t) && r in t.nodes && t.N(r).IsLeaf() && 1 <= pos <= t.N(r).Count() && Passed(t, r, pos, done)
    ensures Passed(t, r, pos + 1, done + [t.N(r).entries[pos - 1]])
  {
    var n, e := t.N(r), t.N(r).entries[pos - 1];
    NodeFacts(t, r);
    assert e in n.entries && Has(n, e) && Bound(t, e);
    assert n.entries[pos - 1..] == [e] + n.entries[pos..];
    assert Ahead(t, r, pos, e);
    AscendingTogether(done, [e], 0) by { assert Ascending(Node(0, [e])); }
    assert Covered(n, e.key, t.S(r).lo, t.S(r).hi);
    hide TreeOk, Bound, NodeOk;
    forall f | Ahead(t, r, pos + 1, f) ensures Ahead(t, r, pos, f) && e.key < f.key {
      if f.key < t.S(r).hi {
        assert f in n.entries[pos..];
        var i :| 0 <= i < |n.entries[pos..]| && n.entries[pos..][i] == f;
        assert n.entries[pos + i] == f;
      }
    }
  }

  lemma NextLeaf(t: Tree, r: nat, r': nat, done: seq<Entry>)
    requires TreeOk(t) && r in t.nodes && r' in t.nodes && t.N(r').IsLeaf() && t.S(r').lo == t.S(r).hi
    requires Passed(t, r, t.N(r).Count() + 1, done)
    ensures Passed(t, r', 1, done)
  {
    NodeFacts(t, r');
    forall e | Bound(t, e) ensures e in done || Ahead(t, r', 1, e) {
      if e !in done {
        AheadInLeaf(t, r', e);
      }
    }
    forall f | Ahead(t, r', 1, f) ensures f.key >= t.S(r).hi {
      if f.key < t.S(r').hi {
        assert f in t.N(r').entries;
        assert Covered(t.N(r'), f.key, t.S(r').lo, t.S(r').hi);
      }
    }
  }

  lemma AllPassed(t: Tree, r: nat, pos: int, done: seq<Entry>)
    requires TreeOk(t) && r in t.nodes && Passed(t, r, pos, done)
    requires t.S(r).hi == LIMIT && pos > t.N(r).Count()
    ensures Ascending(Node(0, done)) && forall e :: Bound(t, e) <==> e in done
  {
    forall e | Bound(t, e) ensures e in done {
      var x := LeafOf(t, e);
      RangeInside(t, x);
    }
  }

  /** The state between two calls of `next()`: `done` has been returned. */
  ghost predicate Iterating(cursor: Cursor, t: Tree, done: seq<Entry>, more: bool)
    reads cursor, cursor.levels, cursor.tree, cursor.tree.Repr()
  {
    && cursor.On(t) && cursor.OnPath() && cursor.leaf < cursor.levels.Length
    && var r, pos := cursor.levels[cursor.leaf].node, cursor.levels[cursor.leaf].pos;
    && r in t.nodes && t.N(r).IsLeaf() && pos >= 1 && Passed(t, r, pos, done)
    && (more <==> pos <= t.N(r).Count())
    && (!more ==> t.S(r).hi == LIMIT)
  }

  lemma IteratingMeans(cursor: Cursor, t: Tree, done: seq<Entry>, more: bool)
    requires Iterating(cursor, t, done, more)
    ensures cursor.On(t) && cursor.OnPath() && cursor.leaf < cursor.levels.Length && TreeOk(t)
    ensures var r, pos := cursor.levels[cursor.leaf].node, cursor.levels[cursor.leaf].pos;
            && r in t.nodes && t.N(r).IsLeaf() && pos >= 1 && Passed(t, r, pos, done)
            && (more <==> pos <= t.N(r).Count()) && (!more ==> t.S(r).hi == LIMIT)
            && 0 <= t.S(r).lo < LIMIT
  {
    OnPathMeans(cursor, t);
    RangeInside(t, cursor.levels[cursor.leaf].node);
  }

  lemma IteratingWhen(cursor: Cursor, t: Tree, done: seq<Entry>, more: bool)
    requires cursor.On(t) && cursor.OnPath() && cursor.leaf < cursor.levels.Length
    requires var r, pos := cursor.levels[cursor.leaf].node, cursor.levels[cursor.leaf].pos;
             && r in t.nodes && t.N(r).IsLeaf() && pos >= 1 && Passed(t, r, pos, done)
             && (more <==> pos <= t.N(r).Count()) && (!more ==> t.S(r).hi == LIMIT)
    ensures Iterating(cursor, t, done, more)
  {
  }

  ghost function KeysLeft(cursor: Cursor, t: Tree): int
    requires cursor.leaf < cursor.levels.Length
    reads cursor, cursor.levels
  {
    LIMIT - t.S(cursor.levels[cursor.leaf].node).lo
  }

  ghost function EntriesLeft(cursor: Cursor, t: Tree): int
    requires cursor.leaf < cursor.levels.Length
    reads cursor, cursor.levels
  {
    t.N(cursor.levels[cursor.leaf].node).Count() + 1 - cursor.levels[cursor.leaf].pos
  }

  /** What MoveNext does to the bindings passed */
  lemma MovedPasses(t: Tree, r: nat, pos: nat, r': nat, pos': nat, done: seq<Entry>)
    requires TreeOk(t) && r in t.nodes && t.N(r).IsLeaf() && 1 <= pos <= t.N(r).Count() && Passed(t, r, pos, done)
    requires Moved(t, r, pos, r', pos') && r' in t.nodes && t.N(r').IsLeaf()
    ensures Passed(t, r', pos', done + [t.N(r).entries[pos - 1]]) && pos' >= 1
    ensures pos' > t.N(r').Count() ==> t.S(r').hi == LIMIT
    ensures t.S(r').lo > t.S(r).lo || (r' == r && pos' == pos + 1)
  {
    hide Passed, TreeOk;
    StepOver(t, r, pos, done);
    RangeInside(t, r);
    RangeInside(t, r');
    if pos == t.N(r).Count() && t.S(r).hi != LIMIT {
      NextLeaf(t, r, r', done + [t.N(r).entries[pos - 1]]);
    }
  }

  /** `next()`, and whether `hasNext()` holds afterwards */
  method Next(cursor: Cursor, ghost t: Tree, ghost done: seq<Entry>) returns (e: Entry, more: bool)
    requires Iterating(cursor, t, done, true) && cursor.leaf < cursor.levels.Length
    modifies cursor`leaf, cursor.levels
    ensures Iterating(cursor, t, done + [e], more) && cursor.leaf < cursor.levels.Length
    ensures 0 <= old(KeysLeft(cursor, t)) && 0 <= old(EntriesLeft(cursor, t))
    ensures KeysLeft(cursor, t) < old(KeysLeft(cursor, t))
         || (KeysLeft(cursor, t) == old(KeysLeft(cursor, t)) && EntriesLeft(cursor, t) < old(EntriesLeft(cursor, t)))
  {
    hide Iterating, Passed, Moved, TreeOk, Cursor.On, Cursor.OnPath;
    IteratingMeans(cursor, t, done, true);
    ghost var r, pos := cursor.levels[cursor.leaf].node, cursor.levels[cursor.leaf].pos;
    e := EntryAt(cursor, t);
    MoveNext(cursor, t);
    OnPathMeans(cursor, t);
    MovedPasses(t, r, pos, cursor.levels[cursor.leaf].node, cursor.levels[cursor.leaf].pos, done);
    more := HasNext(cursor, t);
    IteratingWhen(cursor, t, done + [e], more);
  }

  method Begin(cursor: Cursor, ghost t: Tree) returns (more: bool)
    requires cursor.On(t) && cursor.Fits()
    modifies cursor`leaf, cursor.levels
    ensures Iterating(cursor, t, [], more) && cursor.leaf < cursor.levels.Length
  {
    hide Iterating, Passed, TreeOk, Cursor.OnPath;
    MoveToFirst(cursor, t);
    OnPathMeans(cursor, t);
    hide Cursor.On;
    PassedAtStart(t, cursor.levels[cursor.leaf].node);
    more := HasNext(cursor, t);
    if !more { OnlyEmptyRoot(cursor, t); }
    IteratingWhen(cursor, t, [], more);
  }

  lemma OnlyEmptyRoot(cursor: Cursor, t: Tree)
    requires cursor.On(t) && cursor.OnPath() && cursor.leaf < cursor.levels.Length
    requires cursor.levels[cursor.leaf].node in t.nodes && t.N(cursor.levels[cursor.leaf].node).Count() == 0
    ensures t.S(cursor.levels[cursor.leaf].node).hi == LIMIT
  {
    LeafSize(cursor.tree, t, cursor.levels[cursor.leaf].node);
  }

  /** `Iterator`: the sequence of `next()` results until `hasNext()` is false is the whole map,
      in strictly ascending key order. */
  method Iterate(cursor: Cursor, ghost t: Tree) returns (entries: seq<Entry>)
    requires cursor.On(t) && cursor.Fits()
    modifies cursor`leaf, cursor.levels
    ensures forall i, j :: 0 <= i < j < |entries| ==> entries[i].key < entries[j].key
    ensures forall e :: Bound(t, e) <==> e in entries
    ensures forall e :: e in entries <==> exists r :: r in t.nodes && t.nodes[r].first == 0 && e in t.nodes[r].entries
  {
    hide Iterating, Ascending;
    entries := [];
    var more := Begin(cursor, t);
    while more
      invariant Iterating(cursor, t, entries, more) && cursor.leaf < cursor.levels.Length
      decreases KeysLeft(cursor, t), EntriesLeft(cursor, t)
    {
      var e;
      e, more := Next(cursor, t, entries);
      entries := entries + [e];
    }
    IteratingMeans(cursor, t, entries, false);
    AllPassed(t, cursor.levels[cursor.leaf].node, cursor.levels[cursor.leaf].pos, entries);
    LeafEntries(t, entries);
  }

  lemma LeafEntries(t: Tree, entries: seq<Entry>)
    requires Ascending(Node(0, entries)) && forall e :: Bound(t, e) <==> e in entries
    ensures forall i, j :: 0 <= i < j < |entries| ==> entries[i].key < entries[j].key
    ensures forall e :: e in entries <==> exists r :: r in t.nodes && t.nodes[r].first == 0 && e in t.nodes[r].entries
  {
    forall e ensures Bound(t, e) <==> exists r :: r in t.nodes && t.nodes[r].first == 0 && e in t.nodes[r].entries {
      if r :| r in t.nodes && Has(t.N(r), e) {
        assert t.nodes[r].first == 0;
      }
      if r :| r in t.nodes && t.nodes[r].first == 0 && e in t.nodes[r].entries {
        assert Has(t.N(r), e);
      }
    }
  }

  /** `key()` and `value()` */
  method EntryAt(cursor: Cursor, ghost t: Tree) returns (e: Entry)
    requires cursor.On(t) && cursor.leaf < cursor.levels.Length && cursor.levels[cursor.leaf].node in t.nodes
    requires 1 <= cursor.levels[cursor.leaf].pos <= t.N(cursor.levels[cursor.leaf].node).Count()
    requires cursor.OnPath()
    ensures e == t.N(cursor.levels[cursor.leaf].node).entries[cursor.levels[cursor.leaf].pos - 1]
    ensures cursor.On(t) && cursor.OnPath()
  {
    var level := cursor.levels[cursor.leaf];
    LeafSize(cursor.tree, t, level.node);
    ghost var n := t.N(level.node);
    WordsOf(cursor.tree.pages[level.node][..], cursor.tree.m, n);
    assert cursor.tree.pages[level.node][2 * (level.pos - 1) + 2] == n.entries[level.pos - 1].key;
    assert cursor.tree.pages[level.node][2 * (level.pos - 1) + 3] == n.entries[level.pos - 1].value;
    e := Entry(cursor.tree.pages[level.node][level.pos * 2], cursor.tree.pages[level.node][level.pos * 2 + 1]);
  }

  method HasNext(cursor: Cursor, ghost t: Tree) returns (more: bool)
    requires cursor.On(t) && cursor.leaf < cursor.levels.Length && cursor.levels[cursor.leaf].node in t.nodes
    requires cursor.OnPath()
    ensures more <==> cursor.levels[cursor.leaf].pos <= t.N(cursor.levels[cursor.leaf].node).Count()
    ensures cursor.On(t) && cursor.OnPath()
  {
    LeafSize(cursor.tree, t, cursor.levels[cursor.leaf].node);
    more := !IsAfter(cursor);
  }
}
