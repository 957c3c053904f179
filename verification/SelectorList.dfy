/** The linked list of a query's selectors (src/match/Selector.h) and its partition by accepted feature
    types (src/match/MatcherValidator.cpp, groupSelectors). */
module SelectorLists {
  import opened OpGraphs

  class Selector {
    var next: Selector?
    const acceptedTypes: nat
    const falseOp: int    // the node with which the selector rejects
    const op: int         // its first op, once validated
    const keyOp: int      // the key op of its first clause
    ghost const rank: map<int, nat>

    constructor (acceptedTypes: nat, falseOp: int, op: int, keyOp: int, ghost rank: map<int, nat>, next: Selector?)
      ensures this.acceptedTypes == acceptedTypes && this.falseOp == falseOp && this.op == op && this.keyOp == keyOp
      ensures this.rank == rank && this.next == next
    {
      this.acceptedTypes, this.falseOp, this.op, this.keyOp, this.rank, this.next := acceptedTypes, falseOp, op, keyOp, rank, next;
    }
  }

  ghost function Links(nodes: seq<Selector>): (links: seq<Selector?>)
    reads nodes`next
    ensures |links| == |nodes| && forall i :: 0 <= i < |nodes| ==> links[i] == nodes[i].next
  {
    if nodes == [] then [] else [nodes[0].next] + Links(nodes[1..])
  }

  ghost predicate Distinct(nodes: seq<Selector>) {
    forall i, j :: 0 <= i < j < |nodes| ==> nodes[i] != nodes[j]
  }

  /** `first` starts a list of exactly these nodes. */
  ghost predicate ListOf(first: Selector?, nodes: seq<Selector>, links: seq<Selector?>) {
    && |links| == |nodes| && Distinct(nodes)
    && (if nodes == [] then first == null else first == nodes[0] && links[|nodes| - 1] == null)
    && forall i :: 0 <= i < |nodes| - 1 ==> links[i] == nodes[i + 1]
  }

  /** The selectors that accept exactly these types (or do not), in their order */
  function WithTypes(nodes: seq<Selector>, types: nat, with: bool): (some: seq<Selector>)
    ensures |some| <= |nodes|
  {
    if nodes == [] then []
    else
      var before, last := WithTypes(nodes[..|nodes| - 1], types, with), nodes[|nodes| - 1];
      if (last.acceptedTypes == types) == with then before + [last] else before
  }

  lemma {:induction false} WithTypesIsSelection(nodes: seq<Selector>, types: nat, with: bool)
    ensures forall n <- WithTypes(nodes, types, with) :: n in nodes && ((n.acceptedTypes == types) == with)
    ensures forall n <- nodes :: ((n.acceptedTypes == types) == with) ==> n in WithTypes(nodes, types, with)
  {
    if nodes != [] {
      WithTypesIsSelection(nodes[..|nodes| - 1], types, with);
      assert forall n <- nodes :: n in nodes[..|nodes| - 1] || n == nodes[|nodes| - 1];
    }
  }

  /** The partition is stable: selectors keep their relative order within each part. */
  lemma {:induction false} WithTypesIsStable(nodes: seq<Selector>, types: nat, with: bool, a: int, b: int)
    requires 0 <= a < b < |nodes| && (nodes[a].acceptedTypes == types) == with && (nodes[b].acceptedTypes == types) == with
    ensures exists i, j :: 0 <= i < j < |WithTypes(nodes, types, with)|
                           && WithTypes(nodes, types, with)[i] == nodes[a] && WithTypes(nodes, types, with)[j] == nodes[b]
  {
    var init, last := nodes[..|nodes| - 1], nodes[|nodes| - 1];
    var some, before := WithTypes(nodes, types, with), WithTypes(init, types, with);
    if b == |nodes| - 1 {
      WithTypesIsSelection(init, types, with);
      assert init[a] in before;
      var i :| 0 <= i < |before| && before[i] == nodes[a];
      assert some[i] == nodes[a] && some[|before|] == nodes[b];
    } else {
      WithTypesIsStable(init, types, with, a, b);
      var i, j :| 0 <= i < j < |before| && before[i] == init[a] && before[j] == init[b];
      assert some[i] == nodes[a] && some[j] == nodes[b];
    }
  }

  lemma {:induction false} WithTypesIsDistinct(nodes: seq<Selector>, types: nat, with: bool)
    requires Distinct(nodes)
    ensures Distinct(WithTypes(nodes, types, with))
  {
    if nodes != [] {
      WithTypesIsDistinct(nodes[..|nodes| - 1], types, with);
      WithTypesIsSelection(nodes[..|nodes| - 1], types, with);
    }
  }

  /** The first selector is in the group with its own types, so fewer remain. */
  lemma {:induction false} FewerRemain(nodes: seq<Selector>)
    requires nodes != []
    ensures |WithTypes(nodes, nodes[0].acceptedTypes, false)| < |nodes|
    ensures WithTypes(nodes, nodes[0].acceptedTypes, true) != [] && WithTypes(nodes, nodes[0].acceptedTypes, true)[0] == nodes[0]
  {
    if |nodes| > 1 {
      FewerRemain(nodes[..|nodes| - 1]);
    }
  }

  lemma OneMore(nodes: seq<Selector>, k: nat, types: nat, with: bool)
    requires k < |nodes|
    ensures WithTypes(nodes[..k + 1], types, with) ==
            if (nodes[k].acceptedTypes == types) == with then WithTypes(nodes[..k], types, with) + [nodes[k]] else WithTypes(nodes[..k], types, with)
  {
    assert nodes[..k + 1][..k] == nodes[..k];
  }

  // ---------------------------------------------------------------- list surgery, on values

  lemma Unlinked(first: Selector?, before: seq<Selector>, x: Selector, after: seq<Selector>, links: seq<Selector?>)
    requires ListOf(first, before + [x] + after, links)
    ensures links[|before|] == if after == [] then null else after[0]
    ensures before != [] ==> links[|before| - 1] == x
    ensures var rest := if after == [] then null else after[0];
            var links' := (if before == [] then [] else links[..|before| - 1] + [rest]) + links[|before| + 1..];
            ListOf(if before == [] then rest else first, before + after, links')
  {
    var all, fewer := before + [x] + after, before + after;
    forall i, j | 0 <= i < j < |fewer| ensures fewer[i] != fewer[j] {
      assert fewer[i] == all[if i < |before| then i else i + 1] && fewer[j] == all[if j < |before| then j else j + 1];
    }
  }

  lemma Appended(first: Selector, group: seq<Selector>, links: seq<Selector?>, x: Selector)
    requires ListOf(first, group, links) && group != [] && x !in group
    ensures ListOf(first, group + [x], links[..|group| - 1] + [x, null])
  {
  }

  lemma SplitFirst(first: Selector, nodes: seq<Selector>, links: seq<Selector?>)
    requires ListOf(first, nodes, links)
    ensures nodes != [] && first == nodes[0] && first !in nodes[1..]
    ensures ListOf(first, [first], [null]) && ListOf(links[0], nodes[1..], links[1..])
    ensures if |nodes| == 1 then links[0] == null else links[0] == nodes[1]
  {
  }

  lemma ListFacts(first: Selector?, nodes: seq<Selector>, links: seq<Selector?>)
    requires ListOf(first, nodes, links)
    ensures |links| == |nodes| && Distinct(nodes) && (if nodes == [] then first == null else first == nodes[0])
  {
  }

  /** Unlinks `x` from the remaining selectors and appends it to the group. */
  method MoveToGroup(x: Selector, afterNext: Selector?, lastRemaining: Selector?, rest: Selector?, first: Selector, last: Selector,
                     ghost group: seq<Selector>, ghost others: seq<Selector>, ghost tail: seq<Selector>)
    returns (rest': Selector?)
    requires ListOf(rest, others + [x] + tail, Links(others + [x] + tail)) && ListOf(first, group, Links(group))
    requires group != [] && last == group[|group| - 1] && forall n <- group :: n !in others + [x] + tail
    requires if others == [] then lastRemaining == null else lastRemaining == others[|others| - 1]
    requires afterNext == x.next
    modifies last`next, x`next, (if lastRemaining == null then {} else {lastRemaining})`next
    ensures ListOf(first, group + [x], Links(group + [x])) && ListOf(rest', others + tail, Links(others + tail))
  {
    hide ListOf, Links;
    ghost var all := others + [x] + tail;
    ghost var links, groupLinks := Links(all), Links(group);
    Unlinked(rest, others, x, tail, links);
    Appended(first, group, groupLinks, x);
    ListFacts(rest, all, links);
    ListFacts(first, group, groupLinks);
    assert all[|others|] == x && links[|others|] == x.next;
    rest' := rest;
    if lastRemaining == null { rest' := afterNext; } else { lastRemaining.next := afterNext; }
    last.next := x;
    x.next := null;
    assert x !in group && x in all && last in group;
    forall i | 0 <= i < |group| - 1 ensures group[i].next == groupLinks[i] {
      assert group[i] in group && group[i] != last;
      assert others != [] ==> others[|others| - 1] in all;
    }
    assert Links(group + [x]) == groupLinks[..|group| - 1] + [x, null];
    assert Links(others + tail) == (if others == [] then [] else links[..|others| - 1] + [afterNext]) + links[|others| + 1..] by {
      forall i | 0 <= i < |others + tail|
        ensures (others + tail)[i].next == ((if others == [] then [] else links[..|others| - 1] + [afterNext]) + links[|others| + 1..])[i]
      {
        var j := if i < |others| then i else i + 1;
        assert (others + tail)[i] == all[j] && all[j] in all && all[j] !in group;
        assert others != [] ==> all[|others| - 1] == lastRemaining;
      }
    }
  }

  /** The first `k` selectors are divided into the group and the others. */
  ghost predicate Divided(nodes: seq<Selector>, k: nat, group: seq<Selector>, others: seq<Selector>) {
    && 1 <= k <= |nodes| && Distinct(nodes)
    && group == WithTypes(nodes[..k], nodes[0].acceptedTypes, true) && others == WithTypes(nodes[..k], nodes[0].acceptedTypes, false)
    && group != [] && group[0] == nodes[0]
  }

  lemma DividedApart(nodes: seq<Selector>, k: nat, group: seq<Selector>, others: seq<Selector>)
    requires Divided(nodes, k, group, others)
    ensures forall n <- group :: n in nodes && n !in others && n !in nodes[k..]
    ensures forall n <- others :: n in nodes && n !in nodes[k..]
  {
    hide WithTypes;
    WithTypesIsSelection(nodes[..k], nodes[0].acceptedTypes, true);
    WithTypesIsSelection(nodes[..k], nodes[0].acceptedTypes, false);
    forall n | n in nodes[..k] ensures n in nodes && n !in nodes[k..] {
    }
  }

  lemma OneMoreDivided(nodes: seq<Selector>, k: nat, group: seq<Selector>, others: seq<Selector>)
    requires Divided(nodes, k, group, others) && k < |nodes|
    ensures nodes[k..] == [nodes[k]] + nodes[k + 1..]
    ensures if nodes[k].acceptedTypes == nodes[0].acceptedTypes then Divided(nodes, k + 1, group + [nodes[k]], others)
            else Divided(nodes, k + 1, group, others + [nodes[k]])
  {
    OneMore(nodes, k, nodes[0].acceptedTypes, true);
    OneMore(nodes, k, nodes[0].acceptedTypes, false);
    hide WithTypes;
  }

  lemma FirstDivided(nodes: seq<Selector>)
    requires nodes != [] && Distinct(nodes)
    ensures Divided(nodes, 1, [nodes[0]], [])
  {
    assert nodes[..1][..0] == [];
  }

  /** What the loop of groupSelectors keeps: two lists, the second of which still holds what was not looked at */
  ghost predicate Grouping(nodes: seq<Selector>, k: nat, group: seq<Selector>, others: seq<Selector>,
                           first: Selector, last: Selector, rest: Selector?, lastRemaining: Selector?, next: Selector?)
    reads nodes`next, group`next, others`next
  {
    && Divided(nodes, k, group, others) && last == group[|group| - 1]
    && ListOf(first, group, Links(group)) && ListOf(rest, others + nodes[k..], Links(others + nodes[k..]))
    && (if others == [] then lastRemaining == null else lastRemaining == others[|others| - 1])
    && (if k == |nodes| then next == null else next == nodes[k])
  }

  lemma SecondPart(first: Selector?, before: seq<Selector>, x: Selector, after: seq<Selector>, links: seq<Selector?>)
    requires ListOf(first, before + [x] + after, links)
    ensures links[|before|] == if after == [] then null else after[0]
    ensures if before == [] then first == x else links[|before| - 1] == x
  {
    var all := before + [x] + after;
    assert all[|before|] == x && (after != [] ==> all[|before| + 1] == after[0]);
  }

  /** One round of the loop: the node goes to the group, or the link that leads to it becomes the one that is kept */
  method GroupOne(ghost nodes: seq<Selector>, ghost k: nat, ghost group: seq<Selector>, ghost others: seq<Selector>,
                  first: Selector, last: Selector, rest: Selector?, lastRemaining: Selector?, next: Selector)
    returns (last': Selector, rest': Selector?, lastRemaining': Selector?, afterNext: Selector?,
             ghost group': seq<Selector>, ghost others': seq<Selector>)
    requires k < |nodes| && Grouping(nodes, k, group, others, first, last, rest, lastRemaining, next)
    modifies nodes`next
    ensures Grouping(nodes, k + 1, group', others', first, last', rest', lastRemaining', afterNext)
  {
    hide ListOf, Links, Divided, Distinct;
    ghost var tail := nodes[k + 1..];
    OneMoreDivided(nodes, k, group, others);
    DividedApart(nodes, k, group, others);
    DividedFirst(nodes, k, group, others, first, Links(group));
    assert others + nodes[k..] == others + [next] + tail && (others + [next]) + tail == others + [next] + tail;
    SecondPart(rest, others, next, tail, Links(others + [next] + tail));
    assert (others + [next] + tail)[|others|] == next && (others != [] ==> (others + [next] + tail)[|others| - 1] == lastRemaining);
    assert last in group && next in nodes && (others != [] ==> lastRemaining in others);
    afterNext := next.next;
    last', rest', lastRemaining', group', others' := last, rest, lastRemaining, group, others;
    if next.acceptedTypes == first.acceptedTypes {
      rest' := MoveToGroup(next, afterNext, lastRemaining, rest, first, last, group, others, tail);
      last', group' := next, group + [next];
    } else {
      lastRemaining' := if lastRemaining == null then rest else lastRemaining.next;
      others' := others + [next];
    }
  }

  lemma DividedFirst(nodes: seq<Selector>, k: nat, group: seq<Selector>, others: seq<Selector>, first: Selector, links: seq<Selector?>)
    requires Divided(nodes, k, group, others) && ListOf(first, group, links)
    ensures first == nodes[0] && group != []
  {
  }

  /** Takes the selectors that accept the same types as the first one out of the list, in order. The
      remaining list starts at `rest`; as the source does through a pointer to the preceding link,
      `lastRemaining` tells which link leads to the node that is looked at (null: the list's head). */
  method GroupSelectors(candidates: Selector, ghost nodes: seq<Selector>)
    returns (first: Selector, last: Selector, rest: Selector?, ghost group: seq<Selector>, ghost others: seq<Selector>)
    requires nodes != [] && ListOf(candidates, nodes, Links(nodes))
    modifies nodes`next
    ensures group == WithTypes(nodes, candidates.acceptedTypes, true) && others == WithTypes(nodes, candidates.acceptedTypes, false)
    ensures first == candidates && group != [] && last == group[|group| - 1]
    ensures ListOf(first, group, Links(group)) && ListOf(rest, others, Links(others))
  {
    hide ListOf, Links, WithTypes, Divided, Distinct, Grouping;
    ghost var k := 1;
    first := candidates;
    ListFacts(first, nodes, Links(nodes));
    SplitFirst(first, nodes, Links(nodes));
    FirstDivided(nodes);
    ghost var tailLinks := Links(nodes)[1..];
    rest := first.next;
    var lastRemaining: Selector? := null;
    var next := first.next;
    first.next := null;
    last := first;
    group, others := [first], [];
    assert Links([first]) == [null] && Links(nodes[1..]) == tailLinks && [] + nodes[1..] == nodes[1..];
    GroupingStarts(nodes, first, rest);
    while next != null
      invariant 1 <= k <= |nodes| && (next == null <==> k == |nodes|)
      invariant Grouping(nodes, k, group, others, first, last, rest, lastRemaining, next)
      decreases |nodes| - k
    {
      last, rest, lastRemaining, next, group, others := GroupOne(nodes, k, group, others, first, last, rest, lastRemaining, next);
      k := k + 1;
      GroupingFacts(nodes, k, group, others, first, last, rest, lastRemaining, next);
    }
    GroupingEnds(nodes, group, others, first, last, rest, lastRemaining);
  }

  lemma GroupingStarts(nodes: seq<Selector>, first: Selector, rest: Selector?)
    requires nodes != [] && first == nodes[0] && Divided(nodes, 1, [first], [])
    requires ListOf(first, [first], Links([first])) && ListOf(rest, [] + nodes[1..], Links([] + nodes[1..]))
    ensures Grouping(nodes, 1, [first], [], first, first, rest, null, rest)
  {
    ListFacts(rest, [] + nodes[1..], Links([] + nodes[1..]));
  }

  lemma GroupingFacts(nodes: seq<Selector>, k: nat, group: seq<Selector>, others: seq<Selector>,
                      first: Selector, last: Selector, rest: Selector?, lastRemaining: Selector?, next: Selector?)
    requires Grouping(nodes, k, group, others, first, last, rest, lastRemaining, next)
    ensures 1 <= k <= |nodes| && (next == null <==> k == |nodes|)
  {
  }

  lemma GroupingEnds(nodes: seq<Selector>, group: seq<Selector>, others: seq<Selector>,
                     first: Selector, last: Selector, rest: Selector?, lastRemaining: Selector?)
    requires Grouping(nodes, |nodes|, group, others, first, last, rest, lastRemaining, null)
    ensures first == nodes[0] && group != [] && last == group[|group| - 1]
    ensures group == WithTypes(nodes, nodes[0].acceptedTypes, true) && others == WithTypes(nodes, nodes[0].acceptedTypes, false)
    ensures ListOf(first, group, Links(group)) && ListOf(rest, others, Links(others))
  {
    assert nodes[..|nodes|] == nodes && others + nodes[|nodes|..] == others;
  }
}
