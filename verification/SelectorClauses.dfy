/** The list of a selector's clauses, which is kept in ascending order of their keys (src/match/Selector.cpp, lines
    18-43; src/match/OpGraph.cpp, lines 135-166). */
module SelectorClauses {

  /** The opcode and the operand of a key op: global keys have a lower opcode than local ones. */
  datatype Key = Global(code: nat) | Local(name: string)

  function CompareNames(a: string, b: string): int {
    if a == [] && b == [] then 0
    else if a == [] then -1
    else if b == [] then 1
    else if a[0] != b[0] then a[0] as int - b[0] as int
    else CompareNames(a[1..], b[1..])
  }

  function Compare(a: Key, b: Key): int {
    match (a, b)
    case (Global(x), Global(y)) => x - y
    case (Local(x), Local(y)) => CompareNames(x, y)
    case (Global(_), Local(_)) => -1
    case (Local(_), Global(_)) => 1
  }

  lemma {:induction false} NamesCompareEqual(a: string, b: string)
    ensures CompareNames(a, b) == 0 <==> a == b
    ensures CompareNames(a, b) < 0 <==> CompareNames(b, a) > 0
  {
    if a != [] && b != [] {
      NamesCompareEqual(a[1..], b[1..]);
      assert a == [a[0]] + a[1..] && b == [b[0]] + b[1..];
    }
  }

  lemma {:induction false} NamesCompareOn(a: string, b: string, c: string)
    requires CompareNames(a, b) < 0 && CompareNames(b, c) < 0
    ensures CompareNames(a, c) < 0
  {
    if a != [] && a[0] == b[0] && b[0] == c[0] {
      NamesCompareOn(a[1..], b[1..], c[1..]);
    }
  }

  /** The comparison of ops is a strict total order of keys. */
  lemma KeysAreOrdered(a: Key, b: Key, c: Key)
    ensures Compare(a, b) == 0 <==> a == b
    ensures Compare(a, b) < 0 <==> Compare(b, a) > 0
    ensures Compare(a, b) < 0 && Compare(b, c) < 0 ==> Compare(a, c) < 0
  {
    if a.Local? && b.Local? {
      NamesCompareEqual(a.name, b.name);
      if c.Local? && Compare(a, b) < 0 && Compare(b, c) < 0 {
        NamesCompareOn(a.name, b.name, c.name);
      }
    }
  }

  /** A name comes before the names that it begins, and else the first character in which two names differ decides. */
  lemma {:induction false} NameOrder(a: string, b: string)
    ensures Compare(Local(a), Local(b)) < 0 <==>
              || (|a| < |b| && a == b[..|a|])
              || exists k: nat :: k < |a| && k < |b| && a[..k] == b[..k] && a[k] < b[k]
  {
    if a != [] && b != [] {
      if a[0] == b[0] {
        NameOrder(a[1..], b[1..]);
        SameStart(a, b);
      } else if a[0] < b[0] {
        assert a[..0] == b[..0];
      } else {
        assert forall k: nat :: 0 < k < |a| && k < |b| ==> a[..k][0] != b[..k][0];
      }
    }
  }

  lemma SameStart(a: string, b: string)
    requires a != [] && b != [] && a[0] == b[0]
    ensures |a[1..]| < |b[1..]| && a[1..] == b[1..][..|a[1..]|] <==> |a| < |b| && a == b[..|a|]
    ensures (exists k: nat :: k < |a[1..]| && k < |b[1..]| && a[1..][..k] == b[1..][..k] && a[1..][k] < b[1..][k])
            <==> exists k: nat :: k < |a| && k < |b| && a[..k] == b[..k] && a[k] < b[k]
  {
    assert a == [a[0]] + a[1..] && b == [b[0]] + b[1..];
    if k: nat :| k < |a[1..]| && k < |b[1..]| && a[1..][..k] == b[1..][..k] && a[1..][k] < b[1..][k] {
      assert a[..k + 1] == [a[0]] + a[1..][..k] && b[..k + 1] == [b[0]] + b[1..][..k];
      assert a[k + 1] < b[k + 1];
    }
    if k: nat :| k < |a| && k < |b| && a[..k] == b[..k] && a[k] < b[k] {
      assert a[1..][..k - 1] == a[..k][1..] && b[1..][..k - 1] == b[..k][1..];
      assert a[1..][k - 1] < b[1..][k - 1];
    }
  }

  predicate Ascending(keys: seq<Key>) { forall i, j :: 0 <= i < j < |keys| ==> Compare(keys[i], keys[j]) < 0 }

  /** Global keys precede local ones, each kind in ascending order. */
  lemma AscendingKinds(keys: seq<Key>, i: nat, j: nat)
    requires Ascending(keys) && i < j < |keys|
    ensures match (keys[i], keys[j]) {
              case (Global(x), Global(y)) => x < y
              case (Local(x), Local(y)) => (|x| < |y| && x == y[..|x|]) || exists k: nat :: k < |x| && k < |y| && x[..k] == y[..k] && x[k] < y[k]
              case (Global(_), Local(_)) => true
              case (Local(_), Global(_)) => false
            }
  {
    assert Compare(keys[i], keys[j]) < 0;
    if keys[i].Local? && keys[j].Local? { NameOrder(keys[i].name, keys[j].name); }
  }

  class TagClause {
    const key: Key
    const required: bool      // KEY_REQUIRED
    const indexBit: nat       // IndexBits::fromCategory
    var next: TagClause?

    constructor (key: Key, required: bool, indexBit: nat)
      ensures this.key == key && this.required == required && this.indexBit == indexBit && next == null
    {
      this.key, this.required, this.indexBit, next := key, required, indexBit, null;
    }
  }

  function KeysOf(clauses: seq<TagClause>): (keys: seq<Key>)
    ensures |keys| == |clauses| && forall i :: 0 <= i < |keys| ==> keys[i] == clauses[i].key
  {
    seq(|clauses|, i requires 0 <= i < |clauses| => clauses[i].key)
  }

  ghost predicate LinkAt(clauses: seq<TagClause>, i: nat)
    requires i < |clauses|
    reads clauses[i]
  {
    clauses[i].next == if i + 1 == |clauses| then null else clauses[i + 1]
  }

  class Selector {
    var firstClause: TagClause?
    var indexBits: set<nat>
    ghost var clauses: seq<TagClause>

    ghost predicate Linked()
      reads this, clauses
    {
      && firstClause == (if clauses == [] then null else clauses[0])
      && (forall i {:trigger LinkAt(clauses, i)} :: 0 <= i < |clauses| ==> LinkAt(clauses, i))
    }

    ghost predicate Valid()
      reads this, clauses
    {
      Linked() && Ascending(KeysOf(clauses))
    }

    constructor ()
      ensures Valid() && clauses == [] && indexBits == {}
    {
      firstClause, indexBits, clauses := null, {}, [];
    }

    /** Inserts the clause at its place, unless there is one with the same key, which is to absorb it. */
    method AddClause(clause: TagClause) returns (absorber: TagClause?)
      requires Valid() && clause !in clauses
      modifies this, clauses, clause
      ensures Valid()
      ensures absorber != null ==> absorber in clauses && absorber.key == clause.key && clauses == old(clauses) && indexBits == old(indexBits)
      ensures absorber == null ==>
                && clause.key !in KeysOf(old(clauses))
                && (exists k :: 0 <= k <= |old(clauses)| && clauses == old(clauses[..k]) + [clause] + old(clauses[k..]))
                && indexBits == old(indexBits) + if clause.required then {clause.indexBit} else {}
    {
      hide Compare, KeysOf, Ascending, AllDiffer;
      var previous: TagClause?, current := null, firstClause;
      ghost var k := 0;
      while current != null
        invariant 0 <= k <= |clauses|
        invariant current == if k == |clauses| then null else clauses[k]
        invariant previous == if k == 0 then null else clauses[k - 1]
        invariant forall i :: 0 <= i < k ==> Compare(clauses[i].key, clause.key) < 0
        decreases |clauses| - k
      {
        var comp := Compare(current.key, clause.key);
        if comp < 0 {
          assert LinkAt(clauses, k);
          previous, current := current, current.next;
          k := k + 1;
          continue;
        }
        if comp == 0 {
          KeysAreOrdered(current.key, clause.key, clause.key);
          return current;
        }
        break;
      }
      StaysAscending(clauses, k, clause);
      ClausesDiffer(clauses);
      if clause.required {
        indexBits := indexBits + {clause.indexBit};
      }
      LinkBetween(clause, previous, current, k);
      return null;
    }

    /** Links the clause in between two neighbours. */
    method LinkBetween(clause: TagClause, previous: TagClause?, current: TagClause?, ghost k: nat)
      requires k <= |clauses| && clause !in clauses && Linked() && AllDiffer(clauses)
      requires current == (if k == |clauses| then null else clauses[k]) && previous == if k == 0 then null else clauses[k - 1]
      modifies this`firstClause, this`clauses, clauses, clause
      ensures Linked() && clauses == old(clauses[..k] + [clause] + clauses[k..])
    {
      clause.next := current;
      if previous == null {
        firstClause := clause;
      } else {
        previous.next := clause;
      }
      clauses := clauses[..k] + [clause] + clauses[k..];
      forall i | 0 <= i < |clauses| ensures LinkAt(clauses, i) {
        if i < k {
          assert old(LinkAt(clauses, i)) && clauses[i] == old(clauses)[i];
        } else if i > k {
          assert old(LinkAt(clauses, i - 1)) && clauses[i] == old(clauses)[i - 1];
        }
      }
    }
  }

  ghost predicate AllDiffer(clauses: seq<TagClause>) { forall i, j :: 0 <= i < j < |clauses| ==> clauses[i] != clauses[j] }

  lemma ClausesDiffer(clauses: seq<TagClause>)
    requires Ascending(KeysOf(clauses))
    ensures AllDiffer(clauses)
  {
    forall i, j | 0 <= i < j < |clauses| ensures clauses[i] != clauses[j] {
      var keys := KeysOf(clauses);
      assert Compare(keys[i], keys[j]) < 0;
      KeysAreOrdered(keys[i], keys[j], keys[j]);
    }
  }

  lemma InsertedAscending(keys: seq<Key>, k: nat, key: Key)
    requires Ascending(keys) && k <= |keys|
    requires forall i :: 0 <= i < k ==> Compare(keys[i], key) < 0
    requires k < |keys| ==> Compare(keys[k], key) > 0
    ensures Ascending(keys[..k] + [key] + keys[k..]) && key !in keys
  {
    hide Compare;
    var all := keys[..k] + [key] + keys[k..];
    forall j | k <= j < |keys| ensures Compare(key, keys[j]) < 0 {
      KeysAreOrdered(key, keys[k], key);
      KeysAreOrdered(key, keys[k], keys[j]);
    }
    forall i, j | 0 <= i < j < |all| ensures Compare(all[i], all[j]) < 0 {
      assert i != k ==> all[i] == keys[if i < k then i else i - 1];
      assert j != k ==> all[j] == keys[if j < k then j else j - 1];
    }
    forall i | 0 <= i < |keys| ensures keys[i] != key {
      KeysAreOrdered(key, key, key);
    }
  }

  lemma StaysAscending(clauses: seq<TagClause>, k: nat, clause: TagClause)
    requires Ascending(KeysOf(clauses)) && k <= |clauses|
    requires forall i :: 0 <= i < k ==> Compare(clauses[i].key, clause.key) < 0
    requires k < |clauses| ==> Compare(clauses[k].key, clause.key) > 0
    ensures Ascending(KeysOf(clauses[..k] + [clause] + clauses[k..]))
    ensures clause.key !in KeysOf(clauses)
  {
    hide Compare, Ascending;
    var keys := KeysOf(clauses);
    assert KeysOf(clauses[..k] + [clause] + clauses[k..]) == keys[..k] + [clause.key] + keys[k..];
    InsertedAscending(keys, k, clause.key);
  }
}
