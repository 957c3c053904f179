/** What makes a map of nodes a B+tree, and the two steps every restructuring is made of:
    splitting a node under its parent and merging two neighbours. */
module BTreeShapes {
  import opened BTreeNodes

  /** Keys are 32-bit. */
  const LIMIT: int := 0x1_0000_0000

  /** Each node covers the keys `lo <= key < hi`; leaves have height 0; the root's parent is 0. */
  datatype Info = Info(lo: int, hi: int, ht: int, par: nat)

  datatype Tree = Tree(nodes: map<nat, Node>, sh: map<nat, Info>, root: nat)
  {
    function N(r: nat): Node { if r in nodes then nodes[r] else Node(0, []) }

    function S(r: nat): Info { if r in sh then sh[r] else Info(0, 0, 0, 0) }
  }

  ghost predicate KeysOk(n: Node, lo: int, hi: int) {
    && Ascending(n)
    && forall e :: e in n.entries ==> Covered(n, e.key, lo, hi)
  }

  predicate Covered(n: Node, key: nat, lo: int, hi: int) {
    lo <= key < hi && (n.IsLeaf() || lo < key)
  }

  function LoOf(n: Node, lo: int, i: int): int { if i == 0 then lo else n.Key(i) }

  function HiOf(n: Node, hi: int, i: int): int { if i == n.Count() then hi else n.Key(i + 1) }

  ghost predicate KidOk(t: Tree, n: Node, r: nat, i: int) {
    var c, s := n.Child(i), t.S(r);
    c in t.nodes && t.S(c) == Info(LoOf(n, s.lo, i), HiOf(n, s.hi, i), s.ht - 1, r)
  }

  ghost predicate KidsOk(t: Tree, n: Node, r: nat) {
    forall i :: 0 <= i <= n.Count() ==> KidOk(t, n, r, i)
  }

  ghost predicate NodeOk(t: Tree, r: nat) {
    var n, s := t.N(r), t.S(r);
    && s.lo < s.hi && KeysOk(n, s.lo, s.hi)
    && if n.IsLeaf() then s.ht == 0 else s.ht > 0 && KidsOk(t, n, r)
  }

  ghost predicate ChildOf(n: Node, c: nat) {
    !n.IsLeaf() && exists i :: 0 <= i <= n.Count() && n.Child(i) == c
  }

  ghost predicate HasParent(t: Tree, r: nat) {
    t.S(r).par in t.nodes && ChildOf(t.N(t.S(r).par), r)
  }

  ghost predicate TreeOk(t: Tree) {
    && t.nodes.Keys == t.sh.Keys && 0 !in t.nodes && t.root in t.nodes
    && t.S(t.root).lo == 0 && t.S(t.root).hi == LIMIT && t.S(t.root).par == 0
    && (forall r {:trigger NodeOk(t, r)} :: r in t.nodes ==> NodeOk(t, r))
    && (forall r {:trigger HasParent(t, r)} :: r in t.nodes && r != t.root ==> HasParent(t, r))
    && (forall r :: r in t.nodes ==> t.S(r).ht <= t.S(t.root).ht)
  }

  /** The bindings of the map the tree stands for: the entries of its leaves */
  ghost predicate Has(n: Node, e: Entry) { n.IsLeaf() && e in n.entries }

  ghost predicate Bound(t: Tree, e: Entry) {
    exists r :: r in t.nodes && Has(t.N(r), e)
  }

  ghost predicate SameBindings(t: Tree, t': Tree) {
    forall e :: Bound(t, e) <==> Bound(t', e)
  }

  // ---------------------------------------------------------------- joining and inserting, index by index

  lemma JoinedParts(l: Node, sep: nat, r: Node)
    requires l.IsLeaf() == r.IsLeaf()
    ensures var j := Joined(l, sep, r);
            && j.IsLeaf() == l.IsLeaf()
            && j.Count() == l.Count() + r.Count() + (if l.IsLeaf() then 0 else 1)
            && (forall i :: 0 <= i <= l.Count() ==> j.Child(i) == l.Child(i) && j.Key(i) == l.Key(i))
            && (!l.IsLeaf() ==>
                  && j.Key(l.Count() + 1) == sep
                  && (forall i :: 0 <= i <= r.Count() ==> j.Child(l.Count() + 1 + i) == r.Child(i))
                  && (forall i :: 1 <= i <= r.Count() ==> j.Key(l.Count() + 1 + i) == r.Key(i)))
            && (l.IsLeaf() ==> forall i :: 1 <= i <= r.Count() ==> j.Key(l.Count() + i) == r.Key(i))
            && (l.IsLeaf() ==> j.entries == l.entries + r.entries)
  {
  }

  lemma InsertedParts(n: Node, pos: int, e: Entry)
    requires 1 <= pos <= n.Count() + 1
    ensures var n' := Inserted(n, pos, e);
            && n'.first == n.first && n'.Count() == n.Count() + 1
            && n'.Key(pos) == e.key && n'.Child(pos) == e.value
            && (forall i :: 0 <= i < pos ==> n'.Key(i) == n.Key(i) && n'.Child(i) == n.Child(i))
            && (forall i :: pos < i <= n.Count() + 1 ==> n'.Key(i) == n.Key(i - 1) && n'.Child(i) == n.Child(i - 1))
  {
  }

  lemma RemovedParts(n: Node, pos: int)
    requires 1 <= pos <= n.Count()
    ensures var n' := Removed(n, pos);
            && n'.first == n.first && n'.Count() == n.Count() - 1
            && (forall i :: 0 <= i < pos ==> n'.Key(i) == n.Key(i) && n'.Child(i) == n.Child(i))
            && (forall i :: pos <= i < n.Count() ==> n'.Key(i) == n.Key(i + 1) && n'.Child(i) == n.Child(i + 1))
  {
  }

  lemma AscendingByKey(n: Node)
    ensures Ascending(n) <==> forall i, j :: 1 <= i < j <= n.Count() ==> n.Key(i) < n.Key(j)
  {
    if forall i, j :: 1 <= i < j <= n.Count() ==> n.Key(i) < n.Key(j) {
      forall i, j | 0 <= i < j < n.Count() ensures n.entries[i].key < n.entries[j].key {
        assert n.Key(i + 1) < n.Key(j + 1);
      }
    }
  }

  // ---------------------------------------------------------------- splitting a node

  /** Node `r` keeps `l`, and `rr` becomes its right neighbour under parent `p`, holding `rn`. */
  function SplitShape(t: Tree, r: nat, sep: nat, rn: Node, rr: nat): map<nat, Info> {
    var s := t.S(r);
    map x | x in t.sh.Keys + {rr} ::
      if x == rr then Info(sep, s.hi, s.ht, s.par)
      else if x == r then s.(hi := sep)
      else if IsKid(rn, x) then t.S(x).(par := rr)
      else t.S(x)
  }

  predicate IsKid(n: Node, c: nat) {
    !n.IsLeaf() && (c == n.first || exists i :: 0 <= i < |n.entries| && n.entries[i].value == c)
  }

  lemma KidIsChild(n: Node, c: nat)
    ensures IsKid(n, c) <==> ChildOf(n, c)
  {
    if IsKid(n, c) {
      if c == n.first {
        assert n.Child(0) == c;
      } else {
        var i :| 0 <= i < |n.entries| && n.entries[i].value == c;
        assert n.Child(i + 1) == c;
      }
    }
    if ChildOf(n, c) {
      var i :| 0 <= i <= n.Count() && n.Child(i) == c;
      assert i > 0 ==> n.entries[i - 1].value == c;
    }
  }

  function SplitTree(t: Tree, r: nat, l: Node, sep: nat, rn: Node, rr: nat, q: int): Tree {
    var p := t.S(r).par;
    Tree(t.nodes[r := l][rr := rn][p := Inserted(t.N(p), q + 1, Entry(sep, rr))], SplitShape(t, r, sep, rn, rr), t.root)
  }

  ghost predicate CanSplit(t: Tree, r: nat, l: Node, sep: nat, rn: Node, rr: nat, q: int) {
    && r in t.nodes && r != t.root && rr !in t.nodes && rr != 0
    && t.N(r) == Joined(l, sep, rn) && l.IsLeaf() == rn.IsLeaf()
    && (l.IsLeaf() ==> l.Count() >= 1 && rn.Count() >= 1 && sep == rn.Key(1))
    && var p := t.N(t.S(r).par); !p.IsLeaf() && 0 <= q <= p.Count() && p.Child(q) == r
  }

  /** A node whose links and neighbours' coverage did not change is still in order. */
  lemma Frame(t: Tree, t': Tree, x: nat)
    requires NodeOk(t, x) && t'.N(x) == t.N(x)
    requires t'.S(x) == t.S(x).(par := t'.S(x).par)
    requires !t.N(x).IsLeaf() ==>
               forall c :: c in t.nodes && t.S(c).par == x ==> c in t'.nodes && t'.S(c) == t.S(c)
    ensures NodeOk(t', x)
  {
    if !t.N(x).IsLeaf() {
      forall i | 0 <= i <= t'.N(x).Count() ensures KidOk(t', t'.N(x), x, i) {
        assert KidOk(t, t.N(x), x, i);
      }
    }
  }

  /** Facts about the node that is split and its parent */
  lemma SplitFacts(t: Tree, r: nat)
    requires TreeOk(t) && r in t.nodes && r != t.root
    ensures var p := t.S(r).par; p in t.nodes && p != r && NodeOk(t, r) && NodeOk(t, p) && !t.N(p).IsLeaf() && r != 0 && p != 0
    ensures r in t.sh && t.S(r).par in t.sh
  {
    var p := t.S(r).par;
    assert NodeOk(t, r) && HasParent(t, r) && NodeOk(t, p);
    var i :| 0 <= i <= t.N(p).Count() && t.N(p).Child(i) == r;
    assert KidOk(t, t.N(p), p, i);
  }

  /** Order is about the entries only. */
  lemma AscendingAnyFirst(n: Node, first: nat)
    requires Ascending(n)
    ensures Ascending(Node(first, n.entries))
  {
  }

  lemma AscendingParts(a: seq<Entry>, b: seq<Entry>, first: nat)
    requires Ascending(Node(first, a + b))
    ensures Ascending(Node(first, a)) && Ascending(Node(first, b))
    ensures forall x, y :: x in a && y in b ==> x.key < y.key
  {
    var all := a + b;
    assert forall i :: 0 <= i < |a| ==> a[i] == all[i];
    assert forall i :: 0 <= i < |b| ==> b[i] == all[|a| + i];
  }

  lemma AscendingTogether(a: seq<Entry>, b: seq<Entry>, first: nat)
    requires Ascending(Node(first, a)) && Ascending(Node(first, b))
    requires forall x, y :: x in a && y in b ==> x.key < y.key
    ensures Ascending(Node(first, a + b))
  {
    var all := a + b;
    forall i, k | 0 <= i < k < |all| ensures all[i].key < all[k].key {
      assert i < |a| ==> all[i] == a[i] && a[i] in a;
      assert k >= |a| ==> all[k] == b[k - |a|] && b[k - |a|] in b;
      assert k < |a| ==> all[k] == a[k];
      assert i >= |a| ==> all[i] == b[i - |a|];
    }
  }

  lemma SplitKeys(l: Node, sep: nat, rn: Node, lo: int, hi: int)
    requires KeysOk(Joined(l, sep, rn), lo, hi) && l.IsLeaf() == rn.IsLeaf()
    requires l.IsLeaf() ==> l.Count() >= 1 && rn.Count() >= 1 && sep == rn.Key(1)
    ensures lo < sep < hi && KeysOk(l, lo, sep) && KeysOk(rn, sep, hi)
  {
    var j := Joined(l, sep, rn);
    var middle := if l.IsLeaf() then [] else [Entry(sep, rn.first)];
    AscendingParts(l.entries + middle, rn.entries, j.first);
    assert j.entries == l.entries + (middle + rn.entries) && j == Node(j.first, l.entries + (middle + rn.entries));
    AscendingParts(l.entries, middle + rn.entries, j.first);
    AscendingParts(l.entries, middle, j.first);
    AscendingAnyFirst(Node(j.first, l.entries), l.first);
    AscendingAnyFirst(Node(j.first, rn.entries), rn.first);
    hide Ascending;
    var e := if l.IsLeaf() then rn.entries[0] else middle[0];
    assert e in j.entries && e in middle + rn.entries && e.key == sep;
    assert l.IsLeaf() ==> l.entries[0] in l.entries && l.entries[0] in j.entries;
    forall x | x in l.entries ensures Covered(l, x.key, lo, sep) {
      assert x in j.entries;
    }
    forall x | x in rn.entries ensures Covered(rn, x.key, sep, hi) {
      RightCovered(l, sep, rn, lo, hi, x);
    }
  }

  lemma RightCovered(l: Node, sep: nat, rn: Node, lo: int, hi: int, x: Entry)
    requires KeysOk(Joined(l, sep, rn), lo, hi) && l.IsLeaf() == rn.IsLeaf() && x in rn.entries
    requires l.IsLeaf() ==> l.Count() >= 1 && sep == rn.Key(1)
    ensures Covered(rn, x.key, sep, hi)
  {
    var j := Joined(l, sep, rn);
    assert x in j.entries;
    var i :| 0 <= i < |rn.entries| && rn.entries[i] == x;
    var d := if l.IsLeaf() then l.Count() else l.Count() + 1;
    assert j.entries[d + i] == x && j.entries[l.Count()].key == sep;
  }

  lemma JoinKeys(l: Node, sep: nat, rn: Node, lo: int, hi: int)
    requires lo < sep < hi && KeysOk(l, lo, sep) && KeysOk(rn, sep, hi) && l.IsLeaf() == rn.IsLeaf()
    ensures KeysOk(Joined(l, sep, rn), lo, hi)
  {
    hide Ascending;
    JoinAscends(l, sep, rn, lo, hi);
    var j := Joined(l, sep, rn);
    forall x | x in j.entries ensures Covered(j, x.key, lo, hi) {
      JoinCovers(l, sep, rn, lo, hi, x);
    }
  }

  lemma JoinCovers(l: Node, sep: nat, rn: Node, lo: int, hi: int, x: Entry)
    requires lo < sep < hi && KeysOk(l, lo, sep) && KeysOk(rn, sep, hi) && l.IsLeaf() == rn.IsLeaf() && x in Joined(l, sep, rn).entries
    ensures Covered(Joined(l, sep, rn), x.key, lo, hi)
  {
    hide Ascending;
    if x in l.entries {
      assert Covered(l, x.key, lo, sep);
    } else if x in rn.entries {
      assert Covered(rn, x.key, sep, hi);
    }
  }

  lemma JoinAscends(l: Node, sep: nat, rn: Node, lo: int, hi: int)
    requires lo < sep < hi && KeysOk(l, lo, sep) && KeysOk(rn, sep, hi) && l.IsLeaf() == rn.IsLeaf()
    ensures Ascending(Joined(l, sep, rn))
  {
    hide Ascending;
    var j := Joined(l, sep, rn);
    AscendingAnyFirst(l, j.first);
    AscendingAnyFirst(rn, j.first);
    if l.IsLeaf() {
      AscendingTogether(l.entries, rn.entries, j.first);
      assert j == Node(j.first, l.entries + rn.entries);
    } else {
      OneAscends(j.first, Entry(sep, rn.first));
      AscendingTogether(l.entries, [Entry(sep, rn.first)], j.first);
      AscendingTogether(l.entries + [Entry(sep, rn.first)], rn.entries, j.first);
    }
  }

  lemma OneAscends(first: nat, e: Entry)
    ensures Ascending(Node(first, [e]))
  {
  }

  lemma InsertKeys(n: Node, pos: int, e: Entry, lo: int, hi: int)
    requires KeysOk(n, lo, hi) && 1 <= pos <= n.Count() + 1 && Covered(n, e.key, lo, hi)
    requires pos > 1 ==> n.Key(pos - 1) < e.key
    requires pos <= n.Count() ==> e.key < n.Key(pos)
    ensures KeysOk(Inserted(n, pos, e), lo, hi)
  {
    hide KeysOk, Covered;
    var a, b := n.entries[..pos - 1], n.entries[pos - 1..];
    assert n.entries == a + b;
    assert a != [] ==> a[|a| - 1].key == n.Key(pos - 1);
    assert b != [] ==> b[0].key == n.Key(pos);
    InsertKeysBetween(a, e, b, n, lo, hi);
    assert Inserted(n, pos, e) == Node(n.first, a + [e] + b);
  }

  lemma InsertKeysBetween(a: seq<Entry>, e: Entry, b: seq<Entry>, n: Node, lo: int, hi: int)
    requires n == Node(n.first, a + b) && KeysOk(n, lo, hi) && Covered(n, e.key, lo, hi)
    requires a != [] ==> a[|a| - 1].key < e.key
    requires b != [] ==> e.key < b[0].key
    ensures KeysOk(Node(n.first, a + [e] + b), lo, hi)
  {
    hide Ascending;
    AscendingParts(a, b, n.first);
    OneAscends(n.first, e);
    EndsBound(a, b, e.key, n.first);
    AscendingTogether(a, [e], n.first);
    AscendingTogether(a + [e], b, n.first);
    forall x: Entry | x in a + [e] + b ensures Covered(n, x.key, lo, hi) {
      assert x == e || x in n.entries;
    }
  }

  lemma RemoveKeys(n: Node, pos: int, lo: int, hi: int)
    requires KeysOk(n, lo, hi) && 1 <= pos <= n.Count()
    ensures KeysOk(Removed(n, pos), lo, hi)
  {
    var a, b, x0 := n.entries[..pos - 1], n.entries[pos..], [n.entries[pos - 1]];
    assert n.entries == a + (x0 + b) && n == Node(n.first, a + (x0 + b));
    AscendingParts(a, x0 + b, n.first);
    AscendingParts(x0, b, n.first);
    hide Ascending;
    forall x, y | x in a && y in b ensures x.key < y.key {
      assert y in x0 + b;
    }
    AscendingTogether(a, b, n.first);
    forall x: Entry | x in a + b ensures Covered(n, x.key, lo, hi) {
      assert x in n.entries;
    }
  }

  lemma EndsBound(a: seq<Entry>, b: seq<Entry>, key: nat, first: nat)
    requires Ascending(Node(first, a)) && Ascending(Node(first, b))
    requires a != [] ==> a[|a| - 1].key < key
    requires b != [] ==> key < b[0].key
    ensures forall x :: x in a ==> x.key < key
    ensures forall x :: x in b ==> key < x.key
  {
    forall i | 0 <= i < |a| ensures a[i].key < key {
      assert i < |a| - 1 ==> a[i].key < a[|a| - 1].key;
    }
  }

  /** The left half, the right half, and the parent with one more child are in order. */
  lemma SplitLeft(t: Tree, r: nat, l: Node, sep: nat, rn: Node, rr: nat, q: int)
    requires TreeOk(t) && CanSplit(t, r, l, sep, rn, rr, q)
    ensures NodeOk(SplitTree(t, r, l, sep, rn, rr, q), r)
  {
    SplitFacts(t, r);
    var t' := SplitTree(t, r, l, sep, rn, rr, q);
    var s := t.S(r);
    SplitKeys(l, sep, rn, s.lo, s.hi);
    hide TreeOk;
    JoinedParts(l, sep, rn);
    assert t'.N(r) == l && t'.S(r) == s.(hi := sep);
    if !l.IsLeaf() {
      forall i | 0 <= i <= l.Count() ensures KidOk(t', l, r, i) {
        assert KidOk(t, t.N(r), r, i);
        LeftKidStays(t, r, l, sep, rn, i);
      }
    }
  }

  /** Children of one node are distinct, because they cover different keys. */
  lemma LeftKidStays(t: Tree, r: nat, l: Node, sep: nat, rn: Node, i: int)
    requires NodeOk(t, r) && t.N(r) == Joined(l, sep, rn) && l.IsLeaf() == rn.IsLeaf() && !l.IsLeaf()
    requires 0 <= i <= l.Count()
    ensures !IsKid(rn, l.Child(i))
  {
    KidIsChild(rn, l.Child(i));
    JoinedParts(l, sep, rn);
    var n := t.N(r);
    if ChildOf(rn, l.Child(i)) {
      var k :| 0 <= k <= rn.Count() && rn.Child(k) == l.Child(i);
      DistinctKids(t, r, i, l.Count() + 1 + k);
    }
  }

  lemma DistinctKids(t: Tree, r: nat, i: int, k: int)
    requires NodeOk(t, r) && !t.N(r).IsLeaf() && 0 <= i < k <= t.N(r).Count()
    ensures t.N(r).Child(i) != t.N(r).Child(k)
  {
    var n := t.N(r);
    assert KidOk(t, n, r, i) && KidOk(t, n, r, k);
    AscendingByKey(n);
    assert LoOf(n, t.S(r).lo, i) < LoOf(n, t.S(r).lo, k);
  }

  lemma KidsOfRight(t: Tree, r: nat, l: Node, sep: nat, rn: Node, x: nat)
    requires NodeOk(t, r) && t.N(r) == Joined(l, sep, rn) && l.IsLeaf() == rn.IsLeaf()
    requires IsKid(rn, x)
    ensures x in t.nodes && t.S(x).par == r && t.S(x).ht == t.S(r).ht - 1 && ChildOf(t.N(r), x)
  {
    KidIsChild(rn, x);
    JoinedParts(l, sep, rn);
    var i :| 0 <= i <= rn.Count() && rn.Child(i) == x;
    assert KidOk(t, t.N(r), r, l.Count() + 1 + i);
    assert t.N(r).Child(l.Count() + 1 + i) == x;
  }

  lemma SplitRight(t: Tree, r: nat, l: Node, sep: nat, rn: Node, rr: nat, q: int)
    requires TreeOk(t) && CanSplit(t, r, l, sep, rn, rr, q)
    ensures NodeOk(SplitTree(t, r, l, sep, rn, rr, q), rr)
  {
    SplitFacts(t, r);
    var t' := SplitTree(t, r, l, sep, rn, rr, q);
    var s := t.S(r);
    SplitKeys(l, sep, rn, s.lo, s.hi);
    assert t.nodes.Keys == t.sh.Keys;
    hide TreeOk;
    assert t'.N(rr) == rn && t'.S(rr) == Info(sep, s.hi, s.ht, s.par);
    if !l.IsLeaf() {
      forall i | 0 <= i <= rn.Count() ensures KidOk(t', rn, rr, i) {
        SplitRightKid(t, r, l, sep, rn, rr, q, i);
      }
    }
  }

  lemma SplitRightKid(t: Tree, r: nat, l: Node, sep: nat, rn: Node, rr: nat, q: int, i: int)
    requires NodeOk(t, r) && CanSplit(t, r, l, sep, rn, rr, q) && t.nodes.Keys == t.sh.Keys
    requires !l.IsLeaf() && 0 <= i <= rn.Count()
    ensures KidOk(SplitTree(t, r, l, sep, rn, rr, q), rn, rr, i)
  {
    var c := rn.Child(i);
    JoinedParts(l, sep, rn);
    assert KidOk(t, t.N(r), r, l.Count() + 1 + i);
    assert ChildOf(rn, c);
    KidIsChild(rn, c);
    hide NodeOk, Joined;
  }

  /** Coverage, height and parent after the split */
  lemma SplitInfo(t: Tree, r: nat, l: Node, sep: nat, rn: Node, rr: nat, q: int, x: nat)
    requires TreeOk(t) && CanSplit(t, r, l, sep, rn, rr, q) && x in t.nodes
    ensures var t' := SplitTree(t, r, l, sep, rn, rr, q);
            && x in t'.nodes && x != rr
            && t'.S(x) == (if x == r then t.S(r).(hi := sep)
                           else if IsKid(rn, x) then t.S(x).(par := rr)
                           else t.S(x))
            && (IsKid(rn, x) ==> t.S(x).par == r && t.S(x).ht == t.S(r).ht - 1)
            && t'.S(rr) == Info(sep, t.S(r).hi, t.S(r).ht, t.S(r).par) && rr in t'.nodes
  {
    SplitFacts(t, r);
    if IsKid(rn, x) { KidsOfRight(t, r, l, sep, rn, x); }
  }

  lemma SplitParentKid(t: Tree, r: nat, l: Node, sep: nat, rn: Node, rr: nat, q: int, i: int)
    requires TreeOk(t) && CanSplit(t, r, l, sep, rn, rr, q)
    requires 0 <= i <= t.N(t.S(r).par).Count() + 1
    ensures var t', p := SplitTree(t, r, l, sep, rn, rr, q), t.S(r).par; KidOk(t', t'.N(p), p, i)
  {
    SplitFacts(t, r);
    var t', p := SplitTree(t, r, l, sep, rn, rr, q), t.S(r).par;
    var n := t.N(p);
    SplitInfo(t, r, l, sep, rn, rr, q, p);
    SplitInfo(t, r, l, sep, rn, rr, q, r);
    var k := if i <= q then i else i - 1;
    var c := n.Child(k);
    assert KidOk(t, n, p, k);
    SplitInfo(t, r, l, sep, rn, rr, q, c);
    if k < q { DistinctKids(t, p, k, q); } else if k > q { DistinctKids(t, p, q, k); }
    InsertedKid(t, t', p, n, q, sep, rr, i);
  }

  /** Child `i` of a node that got a new child `rr` behind child `q` */
  lemma InsertedKid(t: Tree, t': Tree, p: nat, n: Node, q: int, sep: nat, rr: nat, i: int)
    requires 0 <= q <= n.Count() && 0 <= i <= n.Count() + 1
    requires KidOk(t, n, p, if i <= q then i else i - 1) && KidOk(t, n, p, q)
    requires t'.S(p).lo == t.S(p).lo && t'.S(p).hi == t.S(p).hi && t'.S(p).ht == t.S(p).ht
    requires var k := if i <= q then i else i - 1;
             var c := n.Child(k);
             c in t'.nodes && t'.S(c) == if k == q then t.S(c).(hi := sep) else t.S(c)
    requires rr in t'.nodes && t'.S(rr) == t.S(n.Child(q)).(lo := sep)
    ensures KidOk(t', Inserted(n, q + 1, Entry(sep, rr)), p, i)
  {
    InsertedParts(n, q + 1, Entry(sep, rr));
  }

  lemma SplitParent(t: Tree, r: nat, l: Node, sep: nat, rn: Node, rr: nat, q: int)
    requires TreeOk(t) && CanSplit(t, r, l, sep, rn, rr, q)
    ensures NodeOk(SplitTree(t, r, l, sep, rn, rr, q), t.S(r).par)
  {
    var t', p := SplitTree(t, r, l, sep, rn, rr, q), t.S(r).par;
    SplitFacts(t, r);
    var n, s := t.N(p), t.S(p);
    assert KidOk(t, n, p, q);
    SplitKeys(l, sep, rn, t.S(r).lo, t.S(r).hi);
    InsertedParts(n, q + 1, Entry(sep, rr));
    KeyBounds(n, s.lo, s.hi, q);
    InsertKeys(n, q + 1, Entry(sep, rr), s.lo, s.hi);
    forall i | 0 <= i <= t'.N(p).Count() ensures KidOk(t', t'.N(p), p, i) {
      SplitParentKid(t, r, l, sep, rn, rr, q, i);
    }
    assert t'.S(p).lo == s.lo && t'.S(p).hi == s.hi && t'.S(p).ht == s.ht;
  }

  /** The keys around child `q` lie in the node's range. */
  lemma KeyBounds(n: Node, lo: int, hi: int, q: int)
    requires KeysOk(n, lo, hi) && lo < hi && 0 <= q <= n.Count() && !n.IsLeaf()
    ensures lo <= LoOf(n, lo, q) < HiOf(n, hi, q) <= hi
    ensures q > 0 ==> n.Key(q) == LoOf(n, lo, q)
    ensures q < n.Count() ==> n.Key(q + 1) == HiOf(n, hi, q)
  {
    if q > 0 { assert n.entries[q - 1] in n.entries; }
    if q < n.Count() { assert n.entries[q] in n.entries; }
  }

  lemma SplitOther(t: Tree, r: nat, l: Node, sep: nat, rn: Node, rr: nat, q: int, x: nat)
    requires TreeOk(t) && CanSplit(t, r, l, sep, rn, rr, q)
    requires x in t.nodes && x != r && x != t.S(r).par
    ensures NodeOk(SplitTree(t, r, l, sep, rn, rr, q), x)
  {
    var t' := SplitTree(t, r, l, sep, rn, rr, q);
    SplitFacts(t, r);
    assert NodeOk(t, x) && t.nodes.Keys == t.sh.Keys;
    hide TreeOk;
    forall c | c in t.nodes && t.S(c).par == x ensures t'.S(c) == t.S(c) {
      if IsKid(rn, c) { KidsOfRight(t, r, l, sep, rn, c); }
    }
    Frame(t, t', x);
  }

  lemma ChildOfJoined(l: Node, sep: nat, rn: Node, x: nat)
    requires l.IsLeaf() == rn.IsLeaf()
    ensures ChildOf(Joined(l, sep, rn), x) <==> ChildOf(l, x) || ChildOf(rn, x)
  {
    JoinedParts(l, sep, rn);
    var j := Joined(l, sep, rn);
    hide Joined;
    if ChildOf(j, x) {
      var i :| 0 <= i <= j.Count() && j.Child(i) == x;
      if i <= l.Count() { assert l.Child(i) == x; } else { assert rn.Child(i - l.Count() - 1) == x; }
    }
    if ChildOf(l, x) {
      var i :| 0 <= i <= l.Count() && l.Child(i) == x;
      assert j.Child(i) == x;
    }
    if ChildOf(rn, x) {
      var i :| 0 <= i <= rn.Count() && rn.Child(i) == x;
      assert j.Child(l.Count() + 1 + i) == x;
    }
  }

  lemma ChildOfInserted(n: Node, pos: int, e: Entry, x: nat)
    requires 1 <= pos <= n.Count() + 1 && !n.IsLeaf()
    ensures ChildOf(Inserted(n, pos, e), x) <==> ChildOf(n, x) || x == e.value
  {
    InsertedParts(n, pos, e);
    var n' := Inserted(n, pos, e);
    hide Inserted;
    if ChildOf(n', x) {
      var i :| 0 <= i <= n'.Count() && n'.Child(i) == x;
      if i < pos { assert n.Child(i) == x; } else if i > pos { assert n.Child(i - 1) == x; }
    }
    if ChildOf(n, x) {
      var i :| 0 <= i <= n.Count() && n.Child(i) == x;
      if i < pos { assert n'.Child(i) == x; } else { assert n'.Child(i + 1) == x; }
    }
    if x == e.value { assert n'.Child(pos) == x; }
  }

  lemma SplitHasParent(t: Tree, r: nat, l: Node, sep: nat, rn: Node, rr: nat, q: int, x: nat)
    requires TreeOk(t) && CanSplit(t, r, l, sep, rn, rr, q)
    requires x == rr || (x in t.nodes && x != t.root)
    ensures HasParent(SplitTree(t, r, l, sep, rn, rr, q), x)
  {
    var t', p := SplitTree(t, r, l, sep, rn, rr, q), t.S(r).par;
    SplitFacts(t, r);
    SplitInfo(t, r, l, sep, rn, rr, q, r);
    ChildOfInserted(t.N(p), q + 1, Entry(sep, rr), x);
    if x != rr {
      assert HasParent(t, x);
      SplitInfo(t, r, l, sep, rn, rr, q, x);
      ChildOfJoined(l, sep, rn, x);
      KidIsChild(rn, x);
      hide TreeOk;
    }
  }

  lemma SplitBindings(t: Tree, r: nat, l: Node, sep: nat, rn: Node, rr: nat, q: int)
    requires TreeOk(t) && CanSplit(t, r, l, sep, rn, rr, q)
    ensures SameBindings(t, SplitTree(t, r, l, sep, rn, rr, q))
  {
    var t', p := SplitTree(t, r, l, sep, rn, rr, q), t.S(r).par;
    SplitFacts(t, r);
    hide TreeOk;
    forall e ensures Bound(t, e) <==> Bound(t', e) {
      if Bound(t, e) {
        var x :| x in t.nodes && Has(t.N(x), e);
        if x == r {
          assert e in l.entries || e in rn.entries;
          assert Has(t'.N(r), e) || Has(t'.N(rr), e);
        } else {
          assert Has(t'.N(x), e);
        }
      }
      if Bound(t', e) {
        var x :| x in t'.nodes && Has(t'.N(x), e);
        if x == r || x == rr { assert Has(t.N(r), e); } else { assert Has(t.N(x), e); }
      }
    }
  }

  /** Splitting a node under its parent keeps the tree in order and what it stands for. */
  lemma SplitStep(t: Tree, r: nat, l: Node, sep: nat, rn: Node, rr: nat, q: int)
    requires TreeOk(t) && CanSplit(t, r, l, sep, rn, rr, q)
    ensures TreeOk(SplitTree(t, r, l, sep, rn, rr, q))
    ensures SameBindings(t, SplitTree(t, r, l, sep, rn, rr, q))
  {
    hide TreeOk, NodeOk, HasParent, SameBindings, CanSplit, SplitTree;
    var t' := SplitTree(t, r, l, sep, rn, rr, q);
    SplitBindings(t, r, l, sep, rn, rr, q);
    SplitRoot(t, r, l, sep, rn, rr, q);
    forall x | x in t'.nodes ensures NodeOk(t', x) && t'.S(x).ht <= t'.S(t.root).ht {
      SplitNodeOk(t, r, l, sep, rn, rr, q, x);
    }
    forall x | x in t'.nodes && x != t'.root ensures HasParent(t', x) {
      SplitHasParent(t, r, l, sep, rn, rr, q, x);
    }
    TreeIs(t');
  }

  lemma TreeIs(t: Tree)
    requires t.nodes.Keys == t.sh.Keys && 0 !in t.nodes && t.root in t.nodes
    requires t.S(t.root).lo == 0 && t.S(t.root).hi == LIMIT && t.S(t.root).par == 0
    requires forall r {:trigger NodeOk(t, r)} :: r in t.nodes ==> NodeOk(t, r)
    requires forall r {:trigger HasParent(t, r)} :: r in t.nodes && r != t.root ==> HasParent(t, r)
    requires forall r :: r in t.nodes ==> t.S(r).ht <= t.S(t.root).ht
    ensures TreeOk(t)
  {
    hide NodeOk, HasParent;
  }

  /** What the split leaves as it was */
  lemma SplitRoot(t: Tree, r: nat, l: Node, sep: nat, rn: Node, rr: nat, q: int)
    requires TreeOk(t) && CanSplit(t, r, l, sep, rn, rr, q)
    ensures var t' := SplitTree(t, r, l, sep, rn, rr, q);
            && t'.nodes.Keys == t'.sh.Keys == t.nodes.Keys + {rr} && 0 !in t'.nodes && t'.root == t.root && t.root in t'.nodes
            && t'.S(t.root).lo == 0 && t'.S(t.root).hi == LIMIT && t'.S(t.root).par == 0
  {
    var t' := SplitTree(t, r, l, sep, rn, rr, q);
    SplitFacts(t, r);
    RootIsNoKid(t, r, l, sep, rn);
    hide NodeOk, HasParent;
    assert t'.nodes.Keys == t.nodes.Keys + {rr} && t'.sh.Keys == t.nodes.Keys + {rr};
  }

  lemma SplitNodeOk(t: Tree, r: nat, l: Node, sep: nat, rn: Node, rr: nat, q: int, x: nat)
    requires TreeOk(t) && CanSplit(t, r, l, sep, rn, rr, q) && (x in t.nodes || x == rr)
    ensures var t' := SplitTree(t, r, l, sep, rn, rr, q);
            NodeOk(t', x) && t'.S(x).ht <= t'.S(t.root).ht
  {
    SplitFacts(t, r);
    SplitHeight(t, r, l, sep, rn, rr, q, x);
    hide TreeOk, NodeOk, HasParent, CanSplit, SplitTree;
    if x == r {
      SplitLeft(t, r, l, sep, rn, rr, q);
    } else if x == rr {
      SplitRight(t, r, l, sep, rn, rr, q);
    } else if x == t.S(r).par {
      SplitParent(t, r, l, sep, rn, rr, q);
    } else {
      SplitOther(t, r, l, sep, rn, rr, q, x);
    }
  }

  lemma SplitHeight(t: Tree, r: nat, l: Node, sep: nat, rn: Node, rr: nat, q: int, x: nat)
    requires TreeOk(t) && CanSplit(t, r, l, sep, rn, rr, q) && (x in t.nodes || x == rr)
    ensures var t' := SplitTree(t, r, l, sep, rn, rr, q); t'.S(x).ht <= t'.S(t.root).ht
  {
    hide NodeOk, HasParent;
  }

  lemma RootIsNoKid(t: Tree, r: nat, l: Node, sep: nat, rn: Node)
    requires TreeOk(t) && r in t.nodes && t.N(r) == Joined(l, sep, rn) && l.IsLeaf() == rn.IsLeaf()
    ensures !IsKid(rn, t.root)
  {
    if IsKid(rn, t.root) {
      assert NodeOk(t, r);
      KidsOfRight(t, r, l, sep, rn, t.root);
    }
  }

  // ---------------------------------------------------------------- merging two neighbours

  ghost predicate CanMerge(t: Tree, p: nat, q: int) {
    p in t.nodes && !t.N(p).IsLeaf() && 1 <= q <= t.N(p).Count()
  }

  function LeftKid(t: Tree, p: nat, q: int): nat { t.N(p).Child(q - 1) }

  function RightKid(t: Tree, p: nat, q: int): nat { t.N(p).Child(q) }

  function MergedKid(t: Tree, p: nat, q: int): Node {
    Joined(t.N(LeftKid(t, p, q)), t.N(p).Key(q), t.N(RightKid(t, p, q)))
  }

  function MergeTree(t: Tree, p: nat, q: int): Tree {
    var l, r := LeftKid(t, p, q), RightKid(t, p, q);
    Tree((t.nodes - {r})[l := MergedKid(t, p, q)][p := Removed(t.N(p), q)],
         map x | x in t.sh.Keys - {r} ::
           if x == l then t.S(l).(hi := t.S(r).hi)
           else if IsKid(t.N(r), x) then t.S(x).(par := l)
           else t.S(x),
         t.root)
  }

  /** The two neighbours: same height, adjacent ranges, one parent */
  lemma MergeFacts(t: Tree, p: nat, q: int)
    requires TreeOk(t) && CanMerge(t, p, q)
    ensures var l, r, sep, s := LeftKid(t, p, q), RightKid(t, p, q), t.N(p).Key(q), t.S(p);
            && l in t.nodes && r in t.nodes && l != r && l != p && r != p && l != 0 && l != t.root && r != t.root
            && NodeOk(t, l) && NodeOk(t, r) && NodeOk(t, p)
            && t.S(l) == Info(LoOf(t.N(p), s.lo, q - 1), sep, s.ht - 1, p)
            && t.S(r) == Info(sep, HiOf(t.N(p), s.hi, q), s.ht - 1, p)
            && t.N(l).IsLeaf() == t.N(r).IsLeaf()
            && t.S(l).lo < sep < t.S(r).hi
    ensures t.nodes.Keys == t.sh.Keys
  {
    assert NodeOk(t, p);
    var n := t.N(p);
    assert KidOk(t, n, p, q - 1) && KidOk(t, n, p, q);
    assert NodeOk(t, n.Child(q - 1)) && NodeOk(t, n.Child(q));
  }

  lemma MergeInfo(t: Tree, p: nat, q: int, x: nat)
    requires TreeOk(t) && CanMerge(t, p, q) && x in t.nodes && x != RightKid(t, p, q)
    ensures var t', l, r := MergeTree(t, p, q), LeftKid(t, p, q), RightKid(t, p, q);
            && x in t'.nodes
            && t'.S(x) == (if x == l then t.S(l).(hi := t.S(r).hi)
                           else if IsKid(t.N(r), x) then t.S(x).(par := l)
                           else t.S(x))
            && (IsKid(t.N(r), x) ==> t.S(x).par == r && t.S(x).ht == t.S(r).ht - 1)
  {
    MergeFacts(t, p, q);
    KidOfNode(t, RightKid(t, p, q), x);
  }

  lemma KidOfNode(t: Tree, r: nat, x: nat)
    requires NodeOk(t, r)
    ensures IsKid(t.N(r), x) ==> x in t.nodes && t.S(x).par == r && t.S(x).ht == t.S(r).ht - 1
  {
    KidIsChild(t.N(r), x);
    if IsKid(t.N(r), x) {
      var i :| 0 <= i <= t.N(r).Count() && t.N(r).Child(i) == x;
      assert KidOk(t, t.N(r), r, i);
    }
  }

  lemma MergedKidOk(t: Tree, p: nat, q: int)
    requires TreeOk(t) && CanMerge(t, p, q)
    ensures NodeOk(MergeTree(t, p, q), LeftKid(t, p, q))
  {
    MergeFacts(t, p, q);
    var t', l, r, sep := MergeTree(t, p, q), LeftKid(t, p, q), RightKid(t, p, q), t.N(p).Key(q);
    JoinKeys(t.N(l), sep, t.N(r), t.S(l).lo, t.S(r).hi);
    MergeInfo(t, p, q, l);
    assert t'.N(l) == MergedKid(t, p, q);
    if !t.N(l).IsLeaf() {
      forall i | 0 <= i <= t'.N(l).Count() ensures KidOk(t', t'.N(l), l, i) {
        MergedGrandKid(t, p, q, i);
      }
    }
  }

  lemma MergedGrandKid(t: Tree, p: nat, q: int, i: int)
    requires TreeOk(t) && CanMerge(t, p, q)
    requires !t.N(LeftKid(t, p, q)).IsLeaf() && 0 <= i <= MergedKid(t, p, q).Count()
    ensures KidOk(MergeTree(t, p, q), MergedKid(t, p, q), LeftKid(t, p, q), i)
  {
    MergeFacts(t, p, q);
    var l, r, sep := LeftKid(t, p, q), RightKid(t, p, q), t.N(p).Key(q);
    JoinedParts(t.N(l), sep, t.N(r));
    var k := i - t.N(l).Count() - 1;
    var c := if k < 0 then t.N(l).Child(i) else t.N(r).Child(k);
    if k < 0 {
      assert KidOk(t, t.N(l), l, i);
    } else {
      assert KidOk(t, t.N(r), r, k);
      assert ChildOf(t.N(r), c);
    }
    KidIsChild(t.N(r), c);
    MergeInfo(t, p, q, c);
    MergeInfo(t, p, q, l);
    hide TreeOk, NodeOk, MergeTree, Joined;
  }

  lemma MergeParentOk(t: Tree, p: nat, q: int)
    requires TreeOk(t) && CanMerge(t, p, q)
    ensures NodeOk(MergeTree(t, p, q), p)
  {
    MergeFacts(t, p, q);
    var t', n, s := MergeTree(t, p, q), t.N(p), t.S(p);
    MergeInfo(t, p, q, p);
    RemoveKeys(n, q, s.lo, s.hi);
    assert t'.N(p) == Removed(n, q);
    RemovedParts(n, q);
    forall i | 0 <= i <= n.Count() - 1 ensures KidOk(t', Removed(n, q), p, i) {
      MergeParentKid(t, p, q, i);
    }
  }

  lemma MergeParentKid(t: Tree, p: nat, q: int, i: int)
    requires TreeOk(t) && CanMerge(t, p, q) && 0 <= i <= t.N(p).Count() - 1
    ensures KidOk(MergeTree(t, p, q), Removed(t.N(p), q), p, i)
  {
    MergeFacts(t, p, q);
    var n := t.N(p);
    var k := if i < q then i else i + 1;
    var c := n.Child(k);
    assert KidOk(t, n, p, k) && KidOk(t, n, p, q);
    if k < q { DistinctKids(t, p, k, q); } else { DistinctKids(t, p, q, k); }
    if k < q - 1 { DistinctKids(t, p, k, q - 1); } else if k > q - 1 { DistinctKids(t, p, q - 1, k); }
    MergeInfo(t, p, q, c);
    MergeInfo(t, p, q, p);
    hide TreeOk, NodeOk, MergeTree;
    RemovedParts(n, q);
  }

  lemma MergeOther(t: Tree, p: nat, q: int, x: nat)
    requires TreeOk(t) && CanMerge(t, p, q)
    requires x in t.nodes && x != p && x != LeftKid(t, p, q) && x != RightKid(t, p, q)
    ensures NodeOk(MergeTree(t, p, q), x)
  {
    MergeFacts(t, p, q);
    var t', r := MergeTree(t, p, q), RightKid(t, p, q);
    assert NodeOk(t, x);
    MergeInfo(t, p, q, x);
    forall c | c in t.nodes && t.S(c).par == x ensures c in t'.nodes && t'.S(c) == t.S(c) {
      MergeInfo(t, p, q, c);
    }
    hide TreeOk;
    Frame(t, t', x);
  }

  lemma ChildOfRemoved(n: Node, pos: int, x: nat)
    requires 1 <= pos <= n.Count() && !n.IsLeaf() && x != n.Child(pos)
    ensures ChildOf(n, x) ==> ChildOf(Removed(n, pos), x)
  {
    RemovedParts(n, pos);
    var n' := Removed(n, pos);
    hide Removed;
    if ChildOf(n, x) {
      var i :| 0 <= i <= n.Count() && n.Child(i) == x;
      if i < pos { assert n'.Child(i) == x; } else { assert n'.Child(i - 1) == x; }
    }
  }

  lemma MergeHasParent(t: Tree, p: nat, q: int, x: nat)
    requires TreeOk(t) && CanMerge(t, p, q)
    requires x in t.nodes && x != t.root && x != RightKid(t, p, q)
    ensures HasParent(MergeTree(t, p, q), x)
  {
    MergeFacts(t, p, q);
    var t', l, r := MergeTree(t, p, q), LeftKid(t, p, q), RightKid(t, p, q);
    assert HasParent(t, x);
    MergeInfo(t, p, q, x);
    ChildOfRemoved(t.N(p), q, x);
    ChildOfJoined(t.N(l), t.N(p).Key(q), t.N(r), x);
    KidIsChild(t.N(r), x);
    hide TreeOk;
  }

  lemma MergeBindings(t: Tree, p: nat, q: int)
    requires TreeOk(t) && CanMerge(t, p, q)
    ensures SameBindings(t, MergeTree(t, p, q))
  {
    MergeFacts(t, p, q);
    var t', l, r := MergeTree(t, p, q), LeftKid(t, p, q), RightKid(t, p, q);
    hide TreeOk;
    forall e ensures Bound(t, e) <==> Bound(t', e) {
      if Bound(t, e) {
        var x :| x in t.nodes && Has(t.N(x), e);
        if x == l || x == r { assert Has(t'.N(l), e); } else { assert Has(t'.N(x), e); }
      }
      if Bound(t', e) {
        var x :| x in t'.nodes && Has(t'.N(x), e);
        if x == l { assert Has(t.N(l), e) || Has(t.N(r), e); } else { assert Has(t.N(x), e); }
      }
    }
  }

  /** Merging two neighbours under their parent keeps the tree in order and what it stands for. */
  lemma MergeStep(t: Tree, p: nat, q: int)
    requires TreeOk(t) && CanMerge(t, p, q)
    ensures TreeOk(MergeTree(t, p, q)) && SameBindings(t, MergeTree(t, p, q))
  {
    MergeFacts(t, p, q);
    var t', l, r := MergeTree(t, p, q), LeftKid(t, p, q), RightKid(t, p, q);
    MergeBindings(t, p, q);
    assert t'.nodes.Keys == t.nodes.Keys - {r} && t'.sh.Keys == t.nodes.Keys - {r};
    MergeInfo(t, p, q, t.root);
    forall x | x in t'.nodes ensures NodeOk(t', x) && t'.S(x).ht <= t'.S(t.root).ht {
      MergedKidOk(t, p, q);
      MergeParentOk(t, p, q);
      if x != p && x != l { MergeOther(t, p, q, x); }
      MergeInfo(t, p, q, x);
    }
    forall x | x in t'.nodes && x != t'.root ensures HasParent(t', x) {
      MergeHasParent(t, p, q, x);
    }
    hide NodeOk, HasParent, MergeTree;
  }

  // ---------------------------------------------------------------- moving entries between neighbours

  /** Both neighbours get new contents around a new separator, together the same entries. */
  ghost predicate CanRedistribute(t: Tree, p: nat, q: int, l: Node, sep: nat, r: Node) {
    && CanMerge(t, p, q)
    && Joined(l, sep, r) == MergedKid(t, p, q) && l.IsLeaf() == r.IsLeaf()
    && (l.IsLeaf() ==> l.Count() >= 1 && r.Count() >= 1 && sep == r.Key(1))
  }

  function RedistributedNodes(t: Tree, p: nat, q: int, l: Node, sep: nat, r: Node): map<nat, Node> {
    t.nodes[LeftKid(t, p, q) := l][RightKid(t, p, q) := r][p := WithKey(t.N(p), q, sep)]
  }

  lemma RedistributeStep(t: Tree, p: nat, q: int, l: Node, sep: nat, r: Node) returns (t': Tree)
    requires TreeOk(t) && CanRedistribute(t, p, q, l, sep, r)
    ensures TreeOk(t') && SameBindings(t, t')
    ensures t'.nodes == RedistributedNodes(t, p, q, l, sep, r) && t'.root == t.root
  {
    hide TreeOk, SameBindings, SplitTree, MergeTree, CanSplit, RedistributedNodes, CanRedistribute;
    RedistributeBySplit(t, p, q, l, sep, r);
    MergeStep(t, p, q);
    var left, right, merged := LeftKid(t, p, q), RightKid(t, p, q), MergeTree(t, p, q);
    SplitStep(merged, left, l, sep, r, right, q - 1);
    t' := SplitTree(merged, left, l, sep, r, right, q - 1);
    SameBindingsTrans(t, merged, t');
  }

  /** A new division of two neighbours is a merge followed by a split. */
  lemma RedistributeBySplit(t: Tree, p: nat, q: int, l: Node, sep: nat, r: Node)
    requires TreeOk(t) && CanRedistribute(t, p, q, l, sep, r)
    ensures var (merged, left, right) := (MergeTree(t, p, q), LeftKid(t, p, q), RightKid(t, p, q));
            && CanMerge(t, p, q) && CanSplit(merged, left, l, sep, r, right, q - 1)
            && SplitTree(merged, left, l, sep, r, right, q - 1).nodes == RedistributedNodes(t, p, q, l, sep, r)
            && SplitTree(merged, left, l, sep, r, right, q - 1).root == t.root
  {
    MergeFacts(t, p, q);
    var left, right, merged := LeftKid(t, p, q), RightKid(t, p, q), MergeTree(t, p, q);
    MergeInfo(t, p, q, left);
    hide TreeOk, NodeOk, Inserted, WithKey, Removed, MergedKid;
    RemovedThenInserted(t.N(p), q, sep, right);
    assert merged.S(left).par == p && merged.N(p) == Removed(t.N(p), q) && merged.N(left) == MergedKid(t, p, q);
    assert CanSplit(merged, left, l, sep, r, right, q - 1);
    assert SplitTree(merged, left, l, sep, r, right, q - 1).nodes == RedistributedNodes(t, p, q, l, sep, r);
  }

  lemma RemovedThenInserted(n: Node, q: int, sep: nat, right: nat)
    requires 1 <= q <= n.Count() && right == n.Child(q) && !n.IsLeaf()
    ensures Inserted(Removed(n, q), q, Entry(sep, right)) == WithKey(n, q, sep)
    ensures !Removed(n, q).IsLeaf() && q - 1 <= Removed(n, q).Count() && Removed(n, q).Child(q - 1) == n.Child(q - 1)
  {
    RemovedParts(n, q);
    assert Inserted(Removed(n, q), q, Entry(sep, right)).entries == WithKey(n, q, sep).entries;
  }

  lemma SameBindingsTrans(t0: Tree, t1: Tree, t2: Tree)
    requires SameBindings(t0, t1) && SameBindings(t1, t2)
    ensures SameBindings(t0, t2)
  {
    hide Bound;
    forall x ensures Bound(t0, x) <==> Bound(t2, x) {
      assert Bound(t0, x) <==> Bound(t1, x);
    }
  }

  // ---------------------------------------------------------------- the root

  function GrowTree(t: Tree, nr: nat): Tree {
    Tree(t.nodes[nr := Node(t.root, [])],
         t.sh[t.root := t.S(t.root).(par := nr)][nr := Info(0, LIMIT, t.S(t.root).ht + 1, 0)], nr)
  }

  lemma GrowRoot(t: Tree, nr: nat)
    requires TreeOk(t) && nr !in t.nodes && nr != 0
    ensures TreeOk(GrowTree(t, nr)) && SameBindings(t, GrowTree(t, nr))
  {
    hide NodeOk, HasParent, SameBindings;
    var t' := GrowTree(t, nr);
    assert t'.nodes.Keys == t.nodes.Keys + {nr} && t'.sh.Keys == t.nodes.Keys + {nr};
    forall x | x in t.nodes ensures NodeOk(t', x) && (x != t.root ==> HasParent(t', x)) && t'.S(x).ht == t.S(x).ht {
      GrownOther(t, nr, x);
    }
    RootHeightNotNegative(t);
    GrownRoot(t, nr);
    GrowBindings(t, nr);
  }

  lemma RootHeightNotNegative(t: Tree)
    requires TreeOk(t)
    ensures t.S(t.root).ht >= 0
  {
    assert NodeOk(t, t.root);
  }

  lemma GrownOther(t: Tree, nr: nat, x: nat)
    requires TreeOk(t) && nr !in t.nodes && nr != 0 && x in t.nodes
    ensures NodeOk(GrowTree(t, nr), x) && (x != t.root ==> HasParent(GrowTree(t, nr), x))
    ensures GrowTree(t, nr).S(x).ht == t.S(x).ht
  {
    assert NodeOk(t, x);
    assert x != t.root ==> HasParent(t, x);
    Frame(t, GrowTree(t, nr), x);
  }

  lemma GrownRoot(t: Tree, nr: nat)
    requires nr !in t.nodes && nr != 0 && t.root in t.nodes && t.nodes.Keys == t.sh.Keys && t.root != 0
    requires t.S(t.root).lo == 0 && t.S(t.root).hi == LIMIT && t.S(t.root).ht >= 0
    ensures NodeOk(GrowTree(t, nr), nr) && HasParent(GrowTree(t, nr), t.root)
  {
    var t' := GrowTree(t, nr);
    assert t'.N(nr) == Node(t.root, []) && t'.N(nr).Child(0) == t.root;
    assert KidOk(t', t'.N(nr), nr, 0);
  }

  lemma GrowBindings(t: Tree, nr: nat)
    requires nr !in t.nodes && t.root != 0
    ensures SameBindings(t, GrowTree(t, nr))
  {
    var t' := GrowTree(t, nr);
    forall e ensures Bound(t, e) <==> Bound(t', e) {
      if Bound(t, e) {
        var x :| x in t.nodes && Has(t.N(x), e);
        assert Has(t'.N(x), e);
      }
      if Bound(t', e) {
        var x :| x in t'.nodes && Has(t'.N(x), e);
        assert Has(t.N(x), e);
      }
    }
  }

  function ShrinkTree(t: Tree): Tree {
    var c := t.N(t.root).first;
    Tree(t.nodes - {t.root}, (t.sh - {t.root})[c := t.S(c).(par := 0)], c)
  }

  /** An inner root without keys is replaced by its only child. */
  lemma ShrinkRoot(t: Tree)
    requires TreeOk(t) && !t.N(t.root).IsLeaf() && t.N(t.root).Count() == 0
    ensures TreeOk(ShrinkTree(t)) && SameBindings(t, ShrinkTree(t)) && t.N(t.root).first in t.nodes
  {
    var t', c := ShrinkTree(t), t.N(t.root).first;
    assert NodeOk(t, t.root) && KidOk(t, t.N(t.root), t.root, 0);
    assert NodeOk(t, c);
    forall x | x in t.nodes && x != c && x != t.root ensures t.S(x).par != t.root {
      assert HasParent(t, x);
    }
    hide NodeOk, HasParent;
    forall x | x in t'.nodes ensures NodeOk(t', x) && t'.S(x).ht <= t'.S(c).ht && (x != c ==> HasParent(t', x)) {
      ShrinkNode(t, x, c);
    }
    ShrinkBindings(t);
  }

  lemma ShrinkNode(t: Tree, x: nat, c: nat)
    requires TreeOk(t) && !t.N(t.root).IsLeaf() && t.N(t.root).Count() == 0 && c == t.N(t.root).first && x in t.nodes && x != t.root
    requires forall y :: y in t.nodes && y != c && y != t.root ==> t.S(y).par != t.root
    ensures c in t.nodes
    ensures var t' := ShrinkTree(t); NodeOk(t', x) && t'.S(x).ht <= t'.S(c).ht && (x != c ==> HasParent(t', x))
  {
    var t' := ShrinkTree(t);
    assert NodeOk(t, t.root) && KidOk(t, t.N(t.root), t.root, 0);
    assert NodeOk(t, c);
    assert NodeOk(t, x);
    Frame(t, t', x);
    Below(t, x);
    assert HasParent(t, x);
  }

  lemma ShrinkBindings(t: Tree)
    requires !t.N(t.root).IsLeaf()
    ensures SameBindings(t, ShrinkTree(t))
  {
    var t' := ShrinkTree(t);
    forall e ensures Bound(t, e) <==> Bound(t', e) {
      if Bound(t, e) {
        var x :| x in t.nodes && Has(t.N(x), e);
        assert Has(t'.N(x), e);
      }
      if Bound(t', e) {
        var x :| x in t'.nodes && Has(t'.N(x), e);
        assert Has(t.N(x), e);
      }
    }
  }

  /** Only the root has the root's height. */
  lemma Below(t: Tree, x: nat)
    requires TreeOk(t) && x in t.nodes && x != t.root
    ensures t.S(x).ht < t.S(t.root).ht && t.S(x).par in t.nodes && t.S(t.S(x).par).ht == t.S(x).ht + 1
    ensures var y, s := t.N(t.S(x).par), t.S(t.S(x).par);
            !y.IsLeaf() && (exists i :: 0 <= i <= y.Count() && y.Child(i) == x
                                        && t.S(x).lo == LoOf(y, s.lo, i) && t.S(x).hi == HiOf(y, s.hi, i))
  {
    assert HasParent(t, x);
    var y := t.S(x).par;
    assert NodeOk(t, y);
    var i :| 0 <= i <= t.N(y).Count() && t.N(y).Child(i) == x;
    assert KidOk(t, t.N(y), y, i);
  }

  // ---------------------------------------------------------------- one leaf changes

  function WithNode(t: Tree, r: nat, n: Node): Tree { t.(nodes := t.nodes[r := n]) }

  lemma LeafStep(t: Tree, r: nat, n: Node)
    requires TreeOk(t) && r in t.nodes && t.N(r).IsLeaf() && n.IsLeaf() && KeysOk(n, t.S(r).lo, t.S(r).hi)
    ensures TreeOk(WithNode(t, r, n))
    ensures forall e :: Bound(WithNode(t, r, n), e) <==> e in n.entries || exists x :: x in t.nodes && x != r && Has(t.N(x), e)
  {
    hide TreeOk, NodeOk, HasParent;
    LeafKeepsTree(t, r, n);
    var t' := WithNode(t, r, n);
    forall e ensures Bound(t', e) <==> e in n.entries || exists x :: x in t.nodes && x != r && Has(t.N(x), e) {
      if Bound(t', e) {
        var x :| x in t'.nodes && Has(t'.N(x), e);
        assert x != r ==> Has(t.N(x), e);
      }
      if e in n.entries { assert Has(t'.N(r), e); }
      if x :| x in t.nodes && x != r && Has(t.N(x), e) { assert Has(t'.N(x), e); }
    }
  }

  lemma LeafKeepsTree(t: Tree, r: nat, n: Node)
    requires TreeOk(t) && r in t.nodes && t.N(r).IsLeaf() && n.IsLeaf() && KeysOk(n, t.S(r).lo, t.S(r).hi)
    ensures TreeOk(WithNode(t, r, n))
  {
    hide KeysOk;
    var t' := WithNode(t, r, n);
    forall x | x in t'.nodes ensures NodeOk(t', x) {
      assert NodeOk(t, x);
      if x != r { Frame(t, t', x); }
    }
    forall x | x in t'.nodes && x != t'.root ensures HasParent(t', x) {
      assert HasParent(t, x);
    }
    hide NodeOk, HasParent;
  }

  // ---------------------------------------------------------------- where a key can be

  predicate Covers(t: Tree, r: nat, key: int) { t.S(r).lo <= key < t.S(r).hi }

  /** At each height exactly one node covers a key. */
  lemma {:induction false} OneCovers(t: Tree, a: nat, b: nat, key: int)
    requires TreeOk(t) && a in t.nodes && b in t.nodes && t.S(a).ht == t.S(b).ht
    requires Covers(t, a, key) && Covers(t, b, key)
    ensures a == b
    decreases t.S(t.root).ht - t.S(a).ht
  {
    if a != t.root { Below(t, a); }
    if b != t.root { Below(t, b); }
    if a != t.root && b != t.root {
      var pa, pb := t.S(a).par, t.S(b).par;
      assert NodeOk(t, pa) && NodeOk(t, pb);
      var i :| 0 <= i <= t.N(pa).Count() && t.N(pa).Child(i) == a
               && t.S(a).lo == LoOf(t.N(pa), t.S(pa).lo, i) && t.S(a).hi == HiOf(t.N(pa), t.S(pa).hi, i);
      var k :| 0 <= k <= t.N(pb).Count() && t.N(pb).Child(k) == b
               && t.S(b).lo == LoOf(t.N(pb), t.S(pb).lo, k) && t.S(b).hi == HiOf(t.N(pb), t.S(pb).hi, k);
      KeyBounds(t.N(pa), t.S(pa).lo, t.S(pa).hi, i);
      KeyBounds(t.N(pb), t.S(pb).lo, t.S(pb).hi, k);
      OneCovers(t, pa, pb, key);
      if i != k {
        RangesApart(t, pa, if i < k then i else k, if i < k then k else i);
      }
    }
  }

  lemma RangesApart(t: Tree, r: nat, i: int, k: int)
    requires NodeOk(t, r) && !t.N(r).IsLeaf() && 0 <= i < k <= t.N(r).Count()
    ensures HiOf(t.N(r), t.S(r).hi, i) <= LoOf(t.N(r), t.S(r).lo, k)
  {
    AscendingByKey(t.N(r));
  }

  /** A binding is found in the leaf that covers its key, and nowhere else. */
  lemma FoundInLeaf(t: Tree, r: nat, e: Entry)
    requires TreeOk(t) && r in t.nodes && t.N(r).IsLeaf() && Covers(t, r, e.key)
    ensures Bound(t, e) <==> e in t.N(r).entries
    ensures forall x :: x in t.nodes && x != r ==> !Has(t.N(x), e)
  {
    assert NodeOk(t, r);
    forall x | x in t.nodes && Has(t.N(x), e) ensures x == r {
      assert NodeOk(t, x);
      assert Covered(t.N(x), e.key, t.S(x).lo, t.S(x).hi);
      OneCovers(t, x, r, e.key);
    }
    if e in t.N(r).entries { assert Has(t.N(r), e); }
  }

  lemma LeafOf(t: Tree, e: Entry) returns (r: nat)
    requires TreeOk(t) && Bound(t, e)
    ensures r in t.nodes && t.N(r).IsLeaf() && e in t.N(r).entries && Covers(t, r, e.key) && NodeOk(t, r)
  {
    r :| r in t.nodes && Has(t.N(r), e);
    assert NodeOk(t, r);
    assert Covered(t.N(r), e.key, t.S(r).lo, t.S(r).hi);
  }

  /** The bindings are a map: no key is bound twice. */
  lemma OneValuePerKey(t: Tree, e: Entry, e': Entry)
    requires TreeOk(t) && Bound(t, e) && Bound(t, e') && e.key == e'.key
    ensures e == e'
  {
    var r := LeafOf(t, e);
    FoundInLeaf(t, r, e');
    var i :| 0 <= i < |t.N(r).entries| && t.N(r).entries[i] == e;
    var k :| 0 <= k < |t.N(r).entries| && t.N(r).entries[k] == e';
  }
}
