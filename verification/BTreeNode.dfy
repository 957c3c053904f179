/** Nodes of the B+tree (include/clarisma/store/BTree.h): their layout in words, and the
    in-place edits that insert, delete, borrow, merge and split.

    Offsets count 32-bit words: a byte offset of the source is four times as large. Word 0 is
    the payload size in bytes (excluding itself), word 1 the leftmost child (0 in a leaf),
    then come the entries, a key and a value each; entry `pos` starts at word `2 * pos`. */
module BTreeNodes {

  datatype Entry = Entry(key: nat, value: nat)

  /** What a node means. `first` is the leftmost child, and 0 in a leaf. */
  datatype Node = Node(first: nat, entries: seq<Entry>)
  {
    predicate IsLeaf() { first == 0 }

    function Count(): nat { |entries| }

    /** Key of entry `i`, counting from 1 */
    function Key(i: int): nat { if 1 <= i <= |entries| then entries[i - 1].key else 0 }

    /** The child to the right of key `i`; the leftmost child for 0 */
    function Child(i: int): nat { if 1 <= i <= |entries| then entries[i - 1].value else first }
  }

  function Inserted(n: Node, pos: int, e: Entry): Node {
    if 1 <= pos <= n.Count() + 1 then n.(entries := n.entries[..pos - 1] + [e] + n.entries[pos - 1..]) else n
  }

  function Removed(n: Node, pos: int): Node {
    if 1 <= pos <= n.Count() then n.(entries := n.entries[..pos - 1] + n.entries[pos..]) else n
  }

  function WithKey(n: Node, pos: int, key: nat): Node {
    if 1 <= pos <= n.Count() then n.(entries := n.entries[pos - 1 := Entry(key, n.entries[pos - 1].value)]) else n
  }

  /** Two neighbours with separator `sep` as one node */
  function Joined(l: Node, sep: nat, r: Node): Node {
    l.(entries := l.entries + (if l.IsLeaf() then [] else [Entry(sep, r.first)]) + r.entries)
  }

  // ---------------------------------------------------------------- layout

  /** The buffer holds `m` times 16 bytes. */
  ghost predicate WordsOk(words: seq<nat>, m: nat) {
    |words| == 4 * m && m >= 1 && words[0] % 8 == 4 && words[0] + 4 <= 16 * m
  }

  function KeyCount(words: seq<nat>): nat { if |words| == 0 then 0 else words[0] / 8 }

  function Decode(words: seq<nat>): Node
    requires |words| >= 2 && 2 * KeyCount(words) + 2 <= |words|
  {
    Node(words[1], seq(KeyCount(words), i requires 0 <= i < KeyCount(words) => Entry(words[2 * i + 2], words[2 * i + 3])))
  }

  ghost predicate Holds(words: seq<nat>, m: nat, n: Node) {
    WordsOk(words, m) && Decode(words) == n
  }

  /** A node is determined by its words, and described by them. */
  lemma HoldsWhen(words: seq<nat>, m: nat, n: Node)
    requires |words| == 4 * m && m >= 1 && words[0] == 8 * n.Count() + 4 && n.Count() <= 2 * m - 1
    requires words[1] == n.first
    requires forall i :: 0 <= i < n.Count() ==> words[2 * i + 2] == n.entries[i].key && words[2 * i + 3] == n.entries[i].value
    ensures Holds(words, m, n)
  {
    assert KeyCount(words) == n.Count();
    assert Decode(words).entries == n.entries;
  }

  lemma WordsOf(words: seq<nat>, m: nat, n: Node)
    requires Holds(words, m, n)
    ensures |words| == 4 * m && words[0] == 8 * n.Count() + 4 && n.Count() <= 2 * m - 1 && words[1] == n.first
    ensures forall i :: 0 <= i < n.Count() ==> words[2 * i + 2] == n.entries[i].key && words[2 * i + 3] == n.entries[i].value
  {
    forall i | 0 <= i < n.Count()
      ensures words[2 * i + 2] == n.entries[i].key && words[2 * i + 3] == n.entries[i].value
    {
      assert Decode(words).entries[i] == n.entries[i];
    }
  }

  method MemMove(a: array<nat>, dest: nat, src: nat, len: nat)
    requires dest + len <= a.Length && src + len <= a.Length
    modifies a
    ensures forall i :: 0 <= i < a.Length ==>
              a[i] == if dest <= i < dest + len then old(a[src + (i - dest)]) else old(a[i])
  {
    forall i | 0 <= i < len {
      a[dest + i] := a[src + i];
    }
  }

  method MemCpy(a: array<nat>, dest: nat, b: array<nat>, src: nat, len: nat)
    requires a != b && dest + len <= a.Length && src + len <= b.Length
    modifies a
    ensures forall i :: 0 <= i < a.Length ==>
              a[i] == if dest <= i < dest + len then b[src + (i - dest)] else old(a[i])
  {
    forall i | 0 <= i < len {
      a[dest + i] := b[src + i];
    }
  }

  /** Size of the node in words */
  function NodeWords(payload: nat): nat { (payload + 4) / 4 }

  // ---------------------------------------------------------------- insertRaw, removeRaw

  /** Words from `2 * pos` on have moved up by one entry, and `e` is in the gap. */
  lemma InsertedWords(before: seq<nat>, after: seq<nat>, m: nat, n: Node, pos: nat, e: Entry)
    requires Holds(before, m, n) && 1 <= pos <= n.Count() + 1 && n.Count() < 2 * m - 1
    requires |after| == |before| && after[0] == before[0] + 8 && after[1] == before[1]
    requires forall i :: 2 <= i < 2 * pos ==> after[i] == before[i]
    requires after[2 * pos] == e.key && after[2 * pos + 1] == e.value
    requires forall i :: 2 * pos + 2 <= i < 2 * n.Count() + 4 ==> after[i] == before[i - 2]
    ensures Holds(after, m, Inserted(n, pos, e))
  {
    WordsOf(before, m, n);
    hide Holds;
    var n' := Inserted(n, pos, e);
    forall i | 0 <= i < n'.Count()
      ensures after[2 * i + 2] == n'.entries[i].key && after[2 * i + 3] == n'.entries[i].value
    {
      if i > pos - 1 {
        assert n'.entries[i] == n.entries[i - 1];
        assert before[2 * (i - 1) + 2] == n.entries[i - 1].key && before[2 * (i - 1) + 3] == n.entries[i - 1].value;
      } else if i < pos - 1 {
        assert n'.entries[i] == n.entries[i];
      }
    }
    HoldsWhen(after, m, n');
  }

  /** Words behind entry `pos` have moved down by one entry. */
  lemma RemovedWords(before: seq<nat>, after: seq<nat>, m: nat, n: Node, pos: nat)
    requires Holds(before, m, n) && 1 <= pos <= n.Count()
    requires |after| == |before| && after[0] == before[0] - 8 && after[1] == before[1]
    requires forall i :: 2 <= i < 2 * pos ==> after[i] == before[i]
    requires forall i :: 2 * pos <= i < 2 * n.Count() ==> after[i] == before[i + 2]
    ensures Holds(after, m, Removed(n, pos))
  {
    WordsOf(before, m, n);
    hide Holds;
    var n' := Removed(n, pos);
    forall i | 0 <= i < n'.Count()
      ensures after[2 * i + 2] == n'.entries[i].key && after[2 * i + 3] == n'.entries[i].value
    {
      if i >= pos - 1 {
        assert n'.entries[i] == n.entries[i + 1];
        assert before[2 * (i + 1) + 2] == n.entries[i + 1].key && before[2 * (i + 1) + 3] == n.entries[i + 1].value;
      } else {
        assert n'.entries[i] == n.entries[i];
      }
    }
    HoldsWhen(after, m, n');
  }

  method InsertRaw(node: array<nat>, pos: nat, key: nat, value: nat, m: nat, ghost n: Node)
    requires Holds(node[..], m, n) && 1 <= pos <= n.Count() + 1 && n.Count() < 2 * m - 1
    modifies node
    ensures Holds(node[..], m, Inserted(n, pos, Entry(key, value)))
  {
    WordsOf(node[..], m, n);
    hide Holds, Inserted;
    ghost var before := node[..];
    var p := 2 * pos;
    var end := NodeWords(node[0]);
    if p < end {
      MemMove(node, p + 2, p, end - p);
    }
    ghost var moved := node[..];
    assert forall i :: p + 2 <= i < end + 2 ==> moved[i] == before[i - 2];
    node[p] := key;
    node[p + 1] := value;
    node[0] := node[0] + 8;
    assert node[..] == moved[p := key][p + 1 := value][0 := before[0] + 8];
    InsertedWords(before, node[..], m, n, pos, Entry(key, value));
  }

  method RemoveRaw(node: array<nat>, pos: nat, m: nat, ghost n: Node)
    requires Holds(node[..], m, n) && 1 <= pos <= n.Count()
    modifies node
    ensures Holds(node[..], m, Removed(n, pos))
  {
    WordsOf(node[..], m, n);
    hide Holds, Removed;
    ghost var before := node[..];
    var p := 2 * (pos + 1);
    var end := NodeWords(node[0]);
    if p < end {
      MemMove(node, p - 2, p, end - p);
    }
    node[0] := node[0] - 8;
    RemovedWords(before, node[..], m, n, pos);
  }

  // ---------------------------------------------------------------- searching

  ghost predicate Ascending(n: Node) {
    forall i, j :: 0 <= i < j < n.Count() ==> n.entries[i].key < n.entries[j].key
  }

  /** The child in which `key` lies, as the number of keys that are not above it */
  method FindInnerNodeEntry(node: array<nat>, key: nat, m: nat, ghost n: Node) returns (pos: nat)
    requires Holds(node[..], m, n) && Ascending(n)
    ensures pos <= n.Count()
    ensures forall i :: 1 <= i <= pos ==> n.Key(i) <= key
    ensures forall i :: pos < i <= n.Count() ==> key < n.Key(i)
  {
    WordsOf(node[..], m, n);
    var count := (node[0] + 4) / 8 - 1;
    var left, right := 1, count + 1;
    while left < right
      invariant 1 <= left <= right <= count + 1
      invariant forall i :: 1 <= i < left ==> n.Key(i) <= key
      invariant forall i :: right <= i <= count ==> key < n.Key(i)
    {
      var mid := left + (right - left) / 2;
      assert node[2 * (mid - 1) + 2] == n.Key(mid);
      if node[mid * 2] <= key {
        left := mid + 1;
      } else {
        right := mid;
      }
    }
    pos := left - 1;
  }

  /** Position of the lowest key that is not below `key`; one past the last if there is none */
  method FindLeafNodeEntry(node: array<nat>, key: nat, m: nat, ghost n: Node) returns (pos: nat)
    requires Holds(node[..], m, n) && Ascending(n)
    ensures 1 <= pos <= n.Count() + 1
    ensures forall i :: 1 <= i < pos ==> n.Key(i) < key
    ensures forall i :: pos <= i <= n.Count() ==> key <= n.Key(i)
  {
    WordsOf(node[..], m, n);
    var count := (node[0] + 4) / 8 - 1;
    var left, right := 1, count + 1;
    while left < right
      invariant 1 <= left <= right <= count + 1
      invariant forall i :: 1 <= i < left ==> n.Key(i) < key
      invariant forall i :: right <= i <= count ==> key <= n.Key(i)
    {
      var mid := left + (right - left) / 2;
      assert node[2 * (mid - 1) + 2] == n.Key(mid);
      if node[mid * 2] < key {
        left := mid + 1;
      } else {
        right := mid;
      }
    }
    pos := left;
  }

  // ---------------------------------------------------------------- splitting

  /** Entries from the split key on move to the empty buffer `right`; of an inner node the split
      key itself moves up, and its child becomes the leftmost child of the right node. */
  method SplitNode(node: array<nat>, right: array<nat>, m: nat, ghost n: Node)
    returns (splitPos: nat, splitKey: nat, ghost l: Node, ghost r: Node)
    requires Holds(node[..], m, n) && n.Count() == 2 * m - 1 && m >= 2
    requires node != right && right.Length == 4 * m
    modifies node, right
    ensures splitPos == m - 1 && Holds(node[..], m, l) && Holds(right[..], m, r)
    ensures l == n.(entries := n.entries[..m - 1]) && splitKey == n.entries[m - 1].key
    ensures r == if n.IsLeaf() then Node(0, n.entries[m - 1..]) else Node(n.entries[m - 1].value, n.entries[m..])
  {
    WordsOf(node[..], m, n);
    var leafFlag := node[1] == 0;
    var numberOfKeys := node[0] / 8;
    splitPos := numberOfKeys / 2;
    var src := 2 * splitPos + if leafFlag then 2 else 3;
    var dest := if leafFlag then 2 else 1;
    var rightPayload := (numberOfKeys - splitPos - (if leafFlag then 0 else 1)) * 8 + 4;
    var toCopy := (rightPayload - (if leafFlag then 4 else 0)) / 4;
    right[0], right[1] := rightPayload, 0;
    ghost var was := node[..];
    MemCpy(right, dest, node, src, toCopy);
    splitKey := node[2 * (splitPos + 1)];
    node[0] := splitPos * 8 + 4;
    l := n.(entries := n.entries[..m - 1]);
    r := if n.IsLeaf() then Node(0, n.entries[m - 1..]) else Node(n.entries[m - 1].value, n.entries[m..]);
    HoldsWhen(node[..], m, l);
    RightHalf(was, right[..], m, n);
  }

  /** The words copied from the split key on */
  lemma RightHalf(was: seq<nat>, right: seq<nat>, m: nat, n: Node)
    requires Holds(was, m, n) && n.Count() == 2 * m - 1 && m >= 2 && |right| == 4 * m
    requires right[0] == (if n.IsLeaf() then 8 * m + 4 else 8 * m - 4) && (n.IsLeaf() ==> right[1] == 0)
    requires forall i {:trigger right[i]} :: (if n.IsLeaf() then 2 else 1) <= i < (if n.IsLeaf() then 2 * m + 2 else 2 * m) ==>
      right[i] == was[if n.IsLeaf() then i + 2 * m - 2 else i + 2 * m]
    ensures Holds(right, m, if n.IsLeaf() then Node(0, n.entries[m - 1..]) else Node(n.entries[m - 1].value, n.entries[m..]))
  {
    WordsOf(was, m, n);
    hide Holds;
    assert n.entries[m - 1].value == was[2 * (m - 1) + 3];
    HoldsWhen(right, m, if n.IsLeaf() then Node(0, n.entries[m - 1..]) else Node(n.entries[m - 1].value, n.entries[m..]));
  }

  /** A full node is split and the new entry goes to the half where it belongs: read together
      again, with the split key between them, both halves are the node with the entry inserted. */
  method InsertSplit(node: array<nat>, right: array<nat>, pos: nat, key: nat, value: nat, m: nat, ghost n: Node)
    returns (splitKey: nat, ghost l: Node, ghost r: Node)
    requires Holds(node[..], m, n) && n.Count() == 2 * m - 1 && m >= 2 && 1 <= pos <= n.Count() + 1
    requires node != right && right.Length == 4 * m
    requires !n.IsLeaf() ==> forall i :: 0 <= i < n.Count() ==> n.entries[i].value != 0
    modifies node, right
    ensures Holds(node[..], m, l) && Holds(right[..], m, r)
    ensures Joined(l, splitKey, r) == Inserted(n, pos, Entry(key, value)) && r.IsLeaf() == l.IsLeaf()
    ensures r.IsLeaf() ==> splitKey == r.Key(1)
    ensures m - 1 <= l.Count() <= m && m - 1 <= r.Count() <= m + 1
  {
    WordsOf(node[..], m, n);
    var leafFlag := node[1] == 0;
    hide Holds;
    ghost var l0, r0;
    var splitPos;
    splitPos, splitKey, l0, r0 := SplitNode(node, right, m, n);
    ghost var e := Entry(key, value);
    if pos > splitPos + 1 {
      var p := pos - splitPos - if leafFlag then 0 else 1;
      InsertRaw(right, p, key, value, m, r0);
      l, r := l0, Inserted(r0, p, e);
    } else {
      InsertRaw(node, pos, key, value, m, l0);
      l, r := Inserted(l0, pos, e), r0;
    }
    SplitIsInserted(n, m, pos, e, l0, splitKey, r0, l, r);
  }

  lemma SplitIsInserted(n: Node, m: nat, pos: nat, e: Entry, l0: Node, splitKey: nat, r0: Node, l: Node, r: Node)
    requires n.Count() == 2 * m - 1 && m >= 2 && 1 <= pos <= n.Count() + 1
    requires !n.IsLeaf() ==> n.entries[m - 1].value != 0
    requires l0 == n.(entries := n.entries[..m - 1]) && splitKey == n.entries[m - 1].key
    requires r0 == if n.IsLeaf() then Node(0, n.entries[m - 1..]) else Node(n.entries[m - 1].value, n.entries[m..])
    requires if pos > m then l == l0 && r == Inserted(r0, pos - (m - 1) - (if n.IsLeaf() then 0 else 1), e)
             else l == Inserted(l0, pos, e) && r == r0
    ensures Joined(l, splitKey, r) == Inserted(n, pos, e) && r.IsLeaf() == l.IsLeaf()
    ensures r.IsLeaf() ==> splitKey == r.Key(1)
    ensures m - 1 <= l.Count() <= m && m - 1 <= r.Count() <= m + 1
  {
    hide Inserted, Joined;
    var a, mid, b := n.entries[..m - 1], n.entries[m - 1], n.entries[m..];
    assert n.entries == a + [mid] + b && n.entries[m - 1..] == [mid] + b;
    InsertedBeside(a, mid, b, pos, e);
    if n.IsLeaf() {
      SplitLeaf(n, m, pos, e, l, r, a, mid, b);
    } else {
      SplitInner(n, m, pos, e, l, r, a, mid, b);
    }
    InsertedIs(n, pos, e);
    JoinedIs(l, splitKey, r);
    HalfSizes(n, m, pos, e, l0, r0, l, r);
  }

  lemma InsertedIs(n: Node, pos: nat, e: Entry)
    requires 1 <= pos <= n.Count() + 1
    ensures Inserted(n, pos, e) == Node(n.first, n.entries[..pos - 1] + [e] + n.entries[pos - 1..])
  {
  }

  lemma JoinedIs(l: Node, sep: nat, r: Node)
    ensures Joined(l, sep, r) == Node(l.first, Joined(l, sep, r).entries)
    ensures l.IsLeaf() ==> Joined(l, sep, r).entries == l.entries + r.entries
  {
    assert l.entries + [] == l.entries;
  }

  lemma HalfSizes(n: Node, m: nat, pos: nat, e: Entry, l0: Node, r0: Node, l: Node, r: Node)
    requires n.Count() == 2 * m - 1 && m >= 2 && 1 <= pos <= n.Count() + 1
    requires !n.IsLeaf() ==> n.entries[m - 1].value != 0
    requires l0 == n.(entries := n.entries[..m - 1])
    requires r0 == if n.IsLeaf() then Node(0, n.entries[m - 1..]) else Node(n.entries[m - 1].value, n.entries[m..])
    requires if pos > m then l == l0 && r == Inserted(r0, pos - (m - 1) - (if n.IsLeaf() then 0 else 1), e)
             else l == Inserted(l0, pos, e) && r == r0
    ensures l.first == n.first && r.IsLeaf() == l.IsLeaf() && m - 1 <= l.Count() <= m && m - 1 <= r.Count() <= m + 1
    ensures r.IsLeaf() ==> n.entries[m - 1].key == r.Key(1)
  {
  }

  lemma SplitInner(n: Node, m: nat, pos: nat, e: Entry, l: Node, r: Node, a: seq<Entry>, mid: Entry, b: seq<Entry>)
    requires !n.IsLeaf() && |a| == m - 1 && m >= 2 && n.entries == a + [mid] + b && 1 <= pos <= n.Count() + 1
    requires mid.value != 0
    requires if pos > m then l == n.(entries := a) && r == Inserted(Node(mid.value, b), pos - m, e)
             else l == Inserted(n.(entries := a), pos, e) && r == Node(mid.value, b)
    ensures Joined(l, mid.key, r).entries ==
            if pos > m then a + [mid] + (b[..pos - m - 1] + [e] + b[pos - m - 1..])
            else (a[..pos - 1] + [e] + a[pos - 1..]) + [mid] + b
  {
  }

  /** Inserting into `a + [mid] + b` is inserting into `a` or into `b`. */
  lemma InsertedBeside(a: seq<Entry>, mid: Entry, b: seq<Entry>, pos: nat, e: Entry)
    requires 1 <= pos <= |a| + |b| + 2
    ensures var s, k := a + [mid] + b, pos - |a| - 2;
            s[..pos - 1] + [e] + s[pos - 1..] ==
            if pos > |a| + 1 then a + [mid] + (b[..k] + [e] + b[k..]) else (a[..pos - 1] + [e] + a[pos - 1..]) + [mid] + b
  {
  }

  lemma SplitLeaf(n: Node, m: nat, pos: nat, e: Entry, l: Node, r: Node, a: seq<Entry>, mid: Entry, b: seq<Entry>)
    requires n.IsLeaf() && |a| == m - 1 && m >= 2 && n.entries == a + [mid] + b && 1 <= pos <= n.Count() + 1
    requires if pos > m then l == n.(entries := a) && r == Inserted(Node(0, [mid] + b), pos - (m - 1), e)
             else l == Inserted(n.(entries := a), pos, e) && r == Node(0, [mid] + b)
    ensures l.entries + r.entries ==
            if pos > m then a + [mid] + (b[..pos - m - 1] + [e] + b[pos - m - 1..])
            else (a[..pos - 1] + [e] + a[pos - 1..]) + [mid] + b
  {
  }

  // ---------------------------------------------------------------- borrowing and merging

  /** A new leftmost child for an inner node; the old one goes behind `key`. */
  method PushFirst(node: array<nat>, key: nat, child: nat, m: nat, ghost n: Node)
    requires Holds(node[..], m, n) && n.Count() < 2 * m - 1
    modifies node
    ensures Holds(node[..], m, Node(child, [Entry(key, n.first)] + n.entries))
  {
    WordsOf(node[..], m, n);
    hide Holds;
    var nodeWords := NodeWords(node[0]);
    ghost var before := node[..];
    MemMove(node, 3, 1, nodeWords - 1);
    node[1] := child;
    node[2] := key;
    node[0] := node[0] + 8;
    PushedWords(before, node[..], m, n, key, child);
  }

  /** The words from the leftmost child on moved up, with a key and a leftmost child in front */
  lemma PushedWords(before: seq<nat>, after: seq<nat>, m: nat, n: Node, key: nat, child: nat)
    requires Holds(before, m, n) && n.Count() < 2 * m - 1 && |after| == |before|
    requires after[0] == before[0] + 8 && after[1] == child && after[2] == key
    requires forall i {:trigger after[i]} :: 3 <= i < 2 * n.Count() + 4 ==> after[i] == before[i - 2]
    ensures Holds(after, m, Node(child, [Entry(key, n.first)] + n.entries))
  {
    WordsOf(before, m, n);
    hide Holds;
    var n' := Node(child, [Entry(key, n.first)] + n.entries);
    forall i | 0 <= i < n'.Count()
      ensures after[2 * i + 2] == n'.entries[i].key && after[2 * i + 3] == n'.entries[i].value
    {
      if i > 0 {
        assert n'.entries[i] == n.entries[i - 1];
        assert after[2 * i + 2] == before[2 * (i - 1) + 2] && after[2 * i + 3] == before[2 * (i - 1) + 3];
      }
    }
    HoldsWhen(after, m, n');
  }

  /** `node` is child `q` of `parent`, `left` its left neighbour. */
  method BorrowFromLeft(node: array<nat>, left: array<nat>, parent: array<nat>, q: nat, m: nat,
                        ghost n: Node, ghost l: Node, ghost p: Node)
    returns (ghost n': Node, ghost l': Node, ghost sep: nat)
    requires Holds(node[..], m, n) && Holds(left[..], m, l) && Holds(parent[..], m, p)
    requires node != left && node != parent && left != parent
    requires 1 <= q <= p.Count() && l.Count() >= 1 && n.Count() < 2 * m - 1 && n.IsLeaf() == l.IsLeaf()
    requires !l.IsLeaf() ==> l.Child(l.Count()) != 0
    modifies node, left, parent
    ensures Holds(node[..], m, n') && Holds(left[..], m, l') && Holds(parent[..], m, WithKey(p, q, sep))
    ensures Joined(l', sep, n') == Joined(l, p.Key(q), n) && n'.IsLeaf() == l'.IsLeaf() == l.IsLeaf()
    ensures n'.IsLeaf() ==> sep == n'.Key(1)
    ensures n'.Count() == n.Count() + 1 && l'.Count() == l.Count() - 1
  {
    WordsOf(node[..], m, n);
    WordsOf(left[..], m, l);
    WordsOf(parent[..], m, p);
    hide Holds;
    var slot := 2 * q + 1;
    var leftWords := NodeWords(left[0]);
    var isLeaf := node[1] == 0;
    var borrowedKey := left[leftWords - 2];
    var borrowedValue := left[leftWords - 1];
    ghost var last := l.entries[l.Count() - 1];
    assert borrowedKey == last.key && borrowedValue == last.value;
    left[0] := left[0] - 8;
    l' := l.(entries := l.entries[..l.Count() - 1]);
    HoldsWhen(left[..], m, l');
    if isLeaf {
      InsertRaw(node, 1, borrowedKey, borrowedValue, m, n);
      n' := Inserted(n, 1, last);
    } else {
      PushFirst(node, parent[slot - 1], borrowedValue, m, n);
      n' := Node(last.value, [Entry(p.Key(q), n.first)] + n.entries);
    }
    sep := borrowedKey;
    ghost var parentWas := parent[..];
    KeyWritten(parentWas, m, p, q, sep);
    parent[slot - 1] := borrowedKey;
    assert parent[..] == parentWas[2 * q := sep];
    assert Joined(l', sep, n').entries == Joined(l, p.Key(q), n).entries;
  }

  /** `node` is child `q - 1` of `parent`, `right` its right neighbour. */
  method BorrowFromRight(node: array<nat>, right: array<nat>, parent: array<nat>, q: nat, m: nat,
                         ghost n: Node, ghost r: Node, ghost p: Node)
    returns (ghost n': Node, ghost r': Node, ghost sep: nat)
    requires Holds(node[..], m, n) && Holds(right[..], m, r) && Holds(parent[..], m, p)
    requires node != right && node != parent && right != parent
    requires 1 <= q <= p.Count() && r.Count() >= 2 && n.Count() < 2 * m - 1 && n.IsLeaf() == r.IsLeaf()
    requires !r.IsLeaf() ==> r.Child(1) != 0
    modifies node, right, parent
    ensures Holds(node[..], m, n') && Holds(right[..], m, r') && Holds(parent[..], m, WithKey(p, q, sep))
    ensures Joined(n', sep, r') == Joined(n, p.Key(q), r) && r'.IsLeaf() == n'.IsLeaf() == n.IsLeaf()
    ensures r'.IsLeaf() ==> sep == r'.Key(1)
    ensures n'.Count() == n.Count() + 1 && r'.Count() == r.Count() - 1
  {
    hide Holds, Joined, WithKey, WithoutFirst, Decode, WordsOk;
    WordsOf(node[..], m, n);
    WordsOf(right[..], m, r);
    WordsOf(parent[..], m, p);
    ghost var nodeWas, parentWas := node[..], parent[..];
    var slot := 2 * q - 1;
    var nodeWords := NodeWords(node[0]);
    var isLeaf := node[1] == 0;
    var borrowedKey, borrowedValue := DropFirst(right, isLeaf, m, r);
    r' := WithoutFirst(r);
    WordsOf(right[..], m, r');
    LentByRight(n, r, p.Key(q));
    if isLeaf {
      node[nodeWords] := borrowedKey;
      parent[slot + 1] := right[2];
      sep := right[2];
    } else {
      node[nodeWords] := parent[slot + 1];
      parent[slot + 1] := borrowedKey;
      sep := borrowedKey;
    }
    node[nodeWords + 1] := borrowedValue;
    node[0] := node[0] + 8;
    n' := n.(entries := n.entries + [if n.IsLeaf() then r.entries[0] else Entry(p.Key(q), r.first)]);
    AppendedWords(nodeWas, node[..], m, n, n'.entries[n.Count()]);
    KeyWritten(parentWas, m, p, q, sep);
    assert parent[..] == parentWas[2 * q := sep];
  }

  /** An entry written behind the last one */
  lemma AppendedWords(before: seq<nat>, after: seq<nat>, m: nat, n: Node, e: Entry)
    requires Holds(before, m, n) && n.Count() < 2 * m - 1 && |after| == |before|
    requires forall i {:trigger after[i]} :: 0 <= i < |after| ==>
      after[i] == if i == 0 then before[0] + 8 else if i == 2 * n.Count() + 2 then e.key else if i == 2 * n.Count() + 3 then e.value else before[i]
    ensures Holds(after, m, n.(entries := n.entries + [e]))
  {
    WordsOf(before, m, n);
    hide Holds;
    HoldsWhen(after, m, n.(entries := n.entries + [e]));
  }

  /** A key overwritten */
  lemma KeyWritten(words: seq<nat>, m: nat, p: Node, q: int, key: nat)
    requires Holds(words, m, p) && 1 <= q <= p.Count()
    ensures 2 * q < |words| && Holds(words[2 * q := key], m, WithKey(p, q, key))
  {
    WordsOf(words, m, p);
    hide Holds;
    HoldsWhen(words[2 * q := key], m, WithKey(p, q, key));
  }

  /** The first entry of the right neighbour moved to the end of the left one */
  lemma LentByRight(n: Node, r: Node, key: nat)
    requires n.IsLeaf() == r.IsLeaf() && r.Count() >= 2 && (!r.IsLeaf() ==> r.entries[0].value != 0)
    ensures var n' := n.(entries := n.entries + [if n.IsLeaf() then r.entries[0] else Entry(key, r.first)]);
            var (r', sep) := (WithoutFirst(r), if r.IsLeaf() then r.entries[1].key else r.entries[0].key);
            && Joined(n', sep, r') == Joined(n, key, r) && r'.IsLeaf() == r.IsLeaf() && r'.Count() == r.Count() - 1
            && (r'.IsLeaf() ==> r'.entries[0] == r.entries[1] && r'.Key(1) == sep)
  {
    var n' := n.(entries := n.entries + [if n.IsLeaf() then r.entries[0] else Entry(key, r.first)]);
    var r', sep := WithoutFirst(r), if r.IsLeaf() then r.entries[1].key else r.entries[0].key;
    assert Joined(n', sep, r').entries == Joined(n, key, r).entries;
  }

  function WithoutFirst(r: Node): Node {
    if r.Count() == 0 then r
    else Node(if r.IsLeaf() then 0 else r.entries[0].value, r.entries[1..])
  }

  /** Takes the first key of `right`, with its value if a leaf, and the leftmost child otherwise. */
  method DropFirst(right: array<nat>, isLeaf: bool, m: nat, ghost r: Node) returns (key: nat, value: nat)
    requires Holds(right[..], m, r) && r.Count() >= 1 && isLeaf == r.IsLeaf()
    modifies right
    ensures Holds(right[..], m, WithoutFirst(r))
    ensures key == r.entries[0].key && value == if isLeaf then r.entries[0].value else r.first
  {
    WordsOf(right[..], m, r);
    var rightWords := NodeWords(right[0]);
    key := right[2];
    var dest := if isLeaf then 2 else 1;
    value := right[dest + if isLeaf then 1 else 0];
    ghost var before := right[..];
    MemMove(right, dest, dest + 2, rightWords - if isLeaf then 4 else 3);
    right[0] := right[0] - 8;
    ghost var r' := WithoutFirst(r);
    forall i | 0 <= i < r'.Count()
      ensures right[2 * i + 2] == r'.entries[i].key && right[2 * i + 3] == r'.entries[i].value
    {
      assert right[2 * i + 2] == before[2 * (i + 1) + 2] && right[2 * i + 3] == before[2 * (i + 1) + 3];
    }
    HoldsWhen(right[..], m, r');
  }

  /** Appends `right`, child `q` of `parent`, to its left neighbour. */
  method MergeNodes(left: array<nat>, right: array<nat>, parent: array<nat>, q: nat, m: nat,
                    ghost l: Node, ghost r: Node, ghost p: Node)
    requires Holds(left[..], m, l) && Holds(right[..], m, r) && Holds(parent[..], m, p)
    requires left != right && left != parent && l.IsLeaf() == r.IsLeaf()
    requires 1 <= q <= p.Count() && l.Count() + r.Count() + 1 <= 2 * m - 1
    modifies left
    ensures Holds(left[..], m, Joined(l, p.Key(q), r))
  {
    WordsOf(left[..], m, l);
    WordsOf(right[..], m, r);
    WordsOf(parent[..], m, p);
    hide Holds;
    var slot := 2 * q + 1;
    var leftSize, rightSize := left[0] + 4, right[0] + 4;
    var leftWords, rightWords := NodeWords(left[0]), NodeWords(right[0]);
    ghost var was := left[..];
    if right[1] == 0 {
      MemCpy(left, leftWords, right, 2, rightWords - 2);
      left[0] := leftSize + rightSize - 12;
    } else {
      MemCpy(left, leftWords + 1, right, 1, rightWords - 1);
      left[leftWords] := parent[slot - 1];
      left[0] := leftSize + rightSize - 4;
    }
    MergedWords(was, right[..], left[..], m, l, r, p.Key(q));
  }

  /** The right neighbour's words behind the left one's, with the separator between them if inner nodes */
  lemma MergedWords(left: seq<nat>, right: seq<nat>, after: seq<nat>, m: nat, l: Node, r: Node, key: nat)
    requires Holds(left, m, l) && Holds(right, m, r) && l.IsLeaf() == r.IsLeaf() && l.Count() + r.Count() + 1 <= 2 * m - 1
    requires |after| == |left| && after[0] == 8 * Joined(l, key, r).Count() + 4
    requires forall i {:trigger after[i]} :: 1 <= i < 2 * l.Count() + 2 ==> after[i] == left[i]
    requires l.IsLeaf() ==> forall j {:trigger right[j]} :: 2 <= j < 2 * r.Count() + 2 ==> after[2 * l.Count() + j] == right[j]
    requires !l.IsLeaf() ==> after[2 * l.Count() + 2] == key && forall j {:trigger right[j]} :: 1 <= j < 2 * r.Count() + 2 ==> after[2 * l.Count() + 2 + j] == right[j]
    ensures Holds(after, m, Joined(l, key, r))
  {
    WordsOf(left, m, l);
    WordsOf(right, m, r);
    hide Holds;
    var joined := Joined(l, key, r);
    forall i | 0 <= i < joined.Count()
      ensures after[2 * i + 2] == joined.entries[i].key && after[2 * i + 3] == joined.entries[i].value
    {
      var skip := if l.IsLeaf() then 0 else 1;
      if i >= l.Count() + skip {
        var j := i - l.Count() - skip;
        assert joined.entries[i] == r.entries[j];
        assert after[2 * i + 2] == right[2 * j + 2] && after[2 * i + 3] == right[2 * j + 3];
      }
    }
    HoldsWhen(after, m, joined);
  }
}
