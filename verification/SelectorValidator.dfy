/** Chaining validated selectors in place (src/match/MatcherValidator.cpp, lines 57-103 and 433-487). The two
    methods belong to the source's MatcherValidator; they work on the graph's nodes only. */
module SelectorValidators {
  import opened OpGraphs
  import opened Fragments
  import opened SelectorLists
  import opened SelectorChains
  import opened PolyformSelectors
  import opened SelectorLinking

  lemma ListNext(first: Selector?, nodes: seq<Selector>, links: seq<Selector?>, k: nat)
    requires ListOf(first, nodes, links) && k < |nodes|
    ensures |links| == |nodes| && first == nodes[0] && links[k] == if k + 1 < |nodes| then nodes[k + 1] else null
  {
  }

  lemma MergedEnd(g: seq<OpNode>, sels: seq<Selector>)
    requires |sels| > 1 && AllValidated(g, sels) && Mergeable(g, sels)
    ensures var m, first := Copied(g, Keys(sels), |sels| - 1), sels[0].op;
            && |m| == |g| && 0 <= first < |m| && 0 <= m[first].next0 < |m|
            && Linked(g, sels) == if m[m[first].next0].opcode != RETURN then m[first := m[first].(next0 := sels[|sels| - 1].falseOp)] else m
  {
    hide AllValidated, Whole, Copied, ExitCode, Validated, Mergeable;
    FirstTwo(g, sels);
    CheckOutside(g, sels);
  }

  class SelectorValidator {
    const graph: OpGraph

    constructor (graph: OpGraph)
      ensures this.graph == graph
    {
      this.graph := graph;
    }

    /** One selector's first op goes over the false exit of the one before; its check is compared with the first's. */
    method CopyOne(prev: Selector, sel: Selector, firstOp: int, couldMerge: bool, ghost g: seq<OpNode>, ghost sels: seq<Selector>, ghost k: nat)
      returns (canMerge: bool, nullRead: bool)
      requires AllValidated(g, sels) && k + 1 < |sels| && prev == sels[k] && sel == sels[k + 1] && firstOp == sels[0].op
      requires graph.nodes == Copied(g, Wholes(g, sels), k) && couldMerge == MergeableUpTo(g, sels, k)
      modifies graph`nodes
      ensures nullRead <==> NodeAt(g, sels[k + 1].op).opcode == HAS_LOCAL_KEYS && NodeAt(g, sels[0].op).opcode == RETURN
      ensures graph.nodes == Copied(g, Wholes(g, sels), k + 1) && (!nullRead ==> canMerge == MergeableUpTo(g, sels, k + 1))
    {
      hide AllValidated, Whole, Copied, ExitCode, Mergeable, MergeableUpTo, CodeOf;
      CopyStep(g, sels, k);
      CodesRead(g, sels, k);
      MergeableOneMore(g, sels, k);
      BranchToRead(g, sels, k + 1);
      hide Wholes;
      canMerge := couldMerge;
      var selOp := sel.op;
      graph.nodes := graph.nodes[prev.falseOp := graph.nodes[selOp]];
      nullRead := graph.nodes[selOp].opcode == HAS_LOCAL_KEYS && graph.nodes[firstOp].next0 == NULL;
      if nullRead {
        return;
      }
      if graph.nodes[selOp].opcode != HAS_LOCAL_KEYS
        || CodeOf(graph.nodes[graph.nodes[selOp].next0]) != CodeOf(graph.nodes[graph.nodes[firstOp].next0])
      {
        canMerge := false;
      }
    }

    /** Copies each selector's first op over the false exit of the selector before it. The false branch of the very
        first op is read, though it may be null. */
    method CopyFirstOps(firstSel: Selector, ghost sels: seq<Selector>) returns (canMerge: bool, nullRead: bool)
      requires |sels| > 1 && ListOf(firstSel, sels, Links(sels)) && AllValidated(graph.nodes, sels)
      modifies graph`nodes
      ensures nullRead <==> !FirstHasBranch(old(graph.nodes), sels)
      ensures !nullRead ==> graph.nodes == Copied(old(graph.nodes), Wholes(old(graph.nodes), sels), |sels| - 1)
      ensures !nullRead ==> canMerge == Mergeable(old(graph.nodes), sels)
    {
      hide BranchUpTo, ListOf, Links, AllValidated, Whole, Wholes, Copied, ExitCode, Mergeable, MergeableUpTo, FirstHasBranch, CodeOf;
      ghost var g, links := graph.nodes, Links(sels);
      ghost var k := 0;
      ListNext(firstSel, sels, links, 0);
      MergeableOneMore(g, sels, 0);
      FirstInGraph(g, sels);
      CopiedNone(g, sels);
      var firstOp := firstSel.op;
      var sel := firstSel;
      canMerge, nullRead := graph.nodes[firstOp].opcode == HAS_LOCAL_KEYS, false;
      BranchOneMore(g, sels, 0);
      while sel.next != null
        invariant 0 <= k < |sels| && sel == sels[k] && sel.next == (if k + 1 < |sels| then sels[k + 1] else null)
        invariant graph.nodes == Copied(g, Wholes(g, sels), k)
        invariant forall m :: 0 <= m < |sels| ==> links[m] == sels[m].next
        invariant canMerge == MergeableUpTo(g, sels, k) && BranchUpTo(g, sels, k) && !nullRead
        decreases |sels| - k
      {
        var prev := sel;
        sel := sel.next;
        canMerge, nullRead := CopyOne(prev, sel, firstOp, canMerge, g, sels, k);
        BranchOneMore(g, sels, k);
        BranchOneMore(g, sels, k + 1);
        if nullRead {
          return;
        }
        k := k + 1;
        ListNext(firstSel, sels, links, k);
      }
      MergeableOneMore(g, sels, |sels| - 2);
      BranchOneMore(g, sels, k);
    }

    /** Where all checks are the same: copies each selector's first key op over the false exit before it, so that
        the check is not repeated, and redirects the first check if it would enter the second selector. */
    method DropChecks(firstSel: Selector, ghost g: seq<OpNode>, ghost sels: seq<Selector>)
      requires |sels| > 1 && ListOf(firstSel, sels, Links(sels)) && AllValidated(g, sels) && Mergeable(g, sels)
      requires graph.nodes == Copied(g, Wholes(g, sels), |sels| - 1)
      modifies graph`nodes
      ensures graph.nodes == Linked(g, sels)
    {
      hide ListOf, Links, AllValidated, Whole, Wholes, Copied, Mergeable, Linked, Keys;
      ghost var links, h0 := Links(sels), graph.nodes;
      ghost var k := 0;
      ListNext(firstSel, sels, links, 0);
      var sel := firstSel;
      RecopiedNone(h0, sels);
      while sel.next != null
        invariant 0 <= k < |sels| && sel == sels[k] && sel.next == (if k + 1 < |sels| then sels[k + 1] else null)
        invariant graph.nodes == Copied(h0, Keys(sels), k)
        invariant forall m :: 0 <= m < |sels| ==> links[m] == sels[m].next
        decreases |sels| - k
      {
        RecopyStep(g, sels, k);
        var nextSel := sel.next;
        graph.nodes := graph.nodes[sel.falseOp := graph.nodes[nextSel.keyOp]];
        sel := nextSel;
        k := k + 1;
        ListNext(firstSel, sels, links, k);
      }
      CopiedOver(g, sels);
      MergedEnd(g, sels);
      var firstOp := firstSel.op;
      if graph.nodes[graph.nodes[firstOp].next0].opcode != RETURN {
        graph.nodes := graph.nodes[firstOp := graph.nodes[firstOp].(next0 := sel.falseOp)];
      }
    }

    /** Chains the selectors' graphs as an OR and drops repeated checks for local keys, unless a null branch is read. */
    method ValidateAllSelectors(firstSel: Selector, ghost sels: seq<Selector>) returns (firstOp: int, nullRead: bool)
      requires sels != [] && ListOf(firstSel, sels, Links(sels)) && AllValidated(graph.nodes, sels)
      modifies graph`nodes
      ensures nullRead <==> !FirstHasBranch(old(graph.nodes), sels)
      ensures !nullRead ==> graph.nodes == Linked(old(graph.nodes), sels) && firstOp == sels[0].op
    {
      hide ListOf, AllValidated, Whole, Copied, Mergeable, Merged, FirstHasBranch;
      ghost var g := graph.nodes;
      ListNext(firstSel, sels, Links(sels), 0);
      firstOp := firstSel.op;
      if firstSel.next == null {
        CopiedNone(g, sels);
        OneHasBranch(g, sels);
        nullRead := false;
        return;
      }
      var canMerge;
      canMerge, nullRead := CopyFirstOps(firstSel, sels);
      if !nullRead && canMerge {
        DropChecks(firstSel, g, sels);
      }
    }

    /** Groups the selectors by their types; each group goes behind a test of the feature's type. */
    method ValidatePolyformSelectors(selectors: Selector, ghost sels: seq<Selector>) returns (root: int, nullRead: bool)
      requires sels != [] && ListOf(selectors, sels, Links(sels)) && AllValidated(graph.nodes, sels)
      modifies graph`nodes, sels`next
      ensures root == |old(graph.nodes)| && (nullRead <==> !GroupsHaveBranch(old(graph.nodes), sels))
      ensures !nullRead ==> graph.nodes == Polyform(old(graph.nodes) + [NewOp(FEATURE_TYPE, NULL, NULL)], root, sels)
    {
      hide ListOf, Links, AllValidated, Whole, Wholes, Linked, GroupsHaveBranch, Polyform, Group, Others, FirstHasBranch;
      ValidatedInLarger(graph.nodes, NewOp(FEATURE_TYPE, NULL, NULL), sels);
      BranchesStay(graph.nodes, graph.nodes + [NewOp(FEATURE_TYPE, NULL, NULL)], sels);
      root := graph.Alloc(NewOp(FEATURE_TYPE, NULL, NULL));
      ghost var g := graph.nodes;
      ghost var left := sels;
      var typeOp := root;
      var rest: Selector? := selectors;
      nullRead := false;
      while rest != null
        invariant (rest == null <==> left == []) && forall x :: x in left ==> x in sels
        invariant ListOf(rest, left, Links(left)) && AllValidated(graph.nodes, left)
        invariant !nullRead && (GroupsHaveBranch(graph.nodes, left) <==> GroupsHaveBranch(g, sels))
        invariant Polyform(graph.nodes, typeOp, left) == Polyform(g, root, sels)
        invariant 0 <= typeOp < |graph.nodes| && forall x :: x in left ==> typeOp !in Whole(graph.nodes, x).rank
        decreases |left|
      {
        assert forall i :: 0 <= i < |left| ==> left[i] in sels;
        typeOp, rest, left, nullRead := LinkGroup(typeOp, rest, left);
        if nullRead {
          return;
        }
      }
      PolyformDone(graph.nodes, typeOp);
    }

    /** One round: takes out a group, chains it, and writes its type test where the groups before it fail. */
    method LinkGroup(typeOp: int, selectors: Selector, ghost sels: seq<Selector>)
      returns (typeOp': int, rest: Selector?, ghost left: seq<Selector>, nullRead: bool)
      requires sels != [] && ListOf(selectors, sels, Links(sels)) && AllValidated(graph.nodes, sels)
      requires 0 <= typeOp < |graph.nodes| && forall x :: x in sels ==> typeOp !in Whole(graph.nodes, x).rank
      modifies graph`nodes, sels`next
      ensures left == Others(sels) && ListOf(rest, left, Links(left)) && (rest == null <==> left == [])
      ensures Group(sels) != [] && typeOp' == Group(sels)[|Group(sels)| - 1].falseOp
      ensures nullRead ==> !GroupsHaveBranch(old(graph.nodes), sels)
      ensures !nullRead ==> graph.nodes == GroupLinked(old(graph.nodes), typeOp, sels) && 0 <= typeOp' < |graph.nodes|
      ensures !nullRead ==> AllValidated(graph.nodes, left) && (GroupsHaveBranch(graph.nodes, left) <==> GroupsHaveBranch(old(graph.nodes), sels))
      ensures !nullRead ==> forall x :: x in left ==> x in sels && typeOp' !in Whole(graph.nodes, x).rank
      ensures |left| < |sels| && (!nullRead ==> Polyform(graph.nodes, typeOp', left) == Polyform(old(graph.nodes), typeOp, sels))
    {
      hide ListOf, Links, AllValidated, Whole, Wholes, Linked, GroupsHaveBranch, Polyform, Group, Others, FirstHasBranch, WithTypes;
      ghost var g := graph.nodes;
      ListNext(selectors, sels, Links(sels), 0);
      GroupReady(g, typeOp, sels);
      var first, last;
      ghost var group;
      first, last, rest, group, left := GroupSelectors(selectors, sels);
      RestOf(rest, left, Links(left));
      typeOp' := last.falseOp;
      var op;
      op, nullRead := ValidateAllSelectors(first, group);
      if nullRead {
        return;
      }
      graph.nodes := graph.nodes[typeOp := TypeTest(first.acceptedTypes, last.falseOp, op)];
    }
  }

  lemma RestOf(first: Selector?, nodes: seq<Selector>, links: seq<Selector?>)
    requires ListOf(first, nodes, links)
    ensures first == null <==> nodes == []
  {
  }

  lemma PolyformDone(g: seq<OpNode>, typeOp: int)
    ensures Polyform(g, typeOp, []) == g && GroupsHaveBranch(g, [])
  {
  }

  /** What the round needs and leaves, on values */
  lemma GroupReady(g: seq<OpNode>, typeOp: int, sels: seq<Selector>)
    requires sels != [] && AllValidated(g, sels)
    requires 0 <= typeOp < |g| && forall x :: x in sels ==> typeOp !in Whole(g, x).rank
    ensures Group(sels) == WithTypes(sels, sels[0].acceptedTypes, true) && Others(sels) == WithTypes(sels, sels[0].acceptedTypes, false)
    ensures Group(sels) != [] && AllValidated(g, Group(sels)) && |Linked(g, Group(sels))| == |g|
    ensures var g', end := GroupLinked(g, typeOp, sels), Group(sels)[|Group(sels)| - 1].falseOp;
            && g' == Linked(g, Group(sels))[typeOp := TypeTest(sels[0].acceptedTypes, end, Group(sels)[0].op)]
            && AllValidated(g', Others(sels)) && 0 <= end < |g| && |g'| == |g|
            && (GroupsHaveBranch(g, sels) <==> FirstHasBranch(g, Group(sels)) && GroupsHaveBranch(g', Others(sels)))
            && (forall x :: x in Others(sels) ==> x in sels && end !in Whole(g', x).rank)
            && |Others(sels)| < |sels| && Polyform(g', end, Others(sels)) == Polyform(g, typeOp, sels)
  {
    FewerRemain(sels);
    PartValidated(g, sels, sels[0].acceptedTypes, true);
    WithTypesIsSelection(sels, sels[0].acceptedTypes, false);
    hide AllValidated, Whole, Linked, FirstHasBranch, WithTypes;
    LinkedSize(g, Group(sels));
    OthersValidated(g, typeOp, sels);
    BranchesStay(g, GroupLinked(g, typeOp, sels), Others(sels));
  }

  lemma FirstInGraph(g: seq<OpNode>, sels: seq<Selector>)
    requires sels != [] && AllValidated(g, sels)
    ensures 0 <= sels[0].op < |g| && NodeAt(g, sels[0].op) == g[sels[0].op]
  {
    SelectorNodes(g, sels, 0);
  }

  lemma RecopiedNone(h: seq<OpNode>, sels: seq<Selector>)
    requires sels != []
    ensures Copied(h, Keys(sels), 0) == h
  {
  }

  lemma CopiedNone(g: seq<OpNode>, sels: seq<Selector>)
    requires sels != []
    ensures Copied(g, Wholes(g, sels), 0) == g
  {
  }

  lemma BranchToRead(g: seq<OpNode>, sels: seq<Selector>, k: nat)
    requires AllValidated(g, sels) && k < |sels|
    ensures 0 <= sels[0].op < |g| && 0 <= sels[k].op < |g|
    ensures NodeAt(g, sels[0].op) == g[sels[0].op] && NodeAt(g, sels[k].op) == g[sels[k].op]
    ensures g[sels[0].op].next0 == NULL <==> g[sels[0].op].opcode == RETURN
  {
    hide Whole, ExitCode, AllValidated;
    SelectorNodes(g, sels, 0);
    SelectorNodes(g, sels, k);
  }

  lemma OneHasBranch(g: seq<OpNode>, sels: seq<Selector>)
    requires |sels| == 1
    ensures FirstHasBranch(g, sels)
  {
  }

  // ---------------------------------------------------------------- the null branch, by example

  /** A selector without clauses, e.g. *, and one that requires a local key, e.g. *[k]: nodes 0 and 1 belong to the
      first, the others to the second, whose check for local keys is node 5. */
  function NoClauseFirst(): seq<OpNode> {
    [NewOp(RETURN, NULL, NULL).(operand := Code(0)), NewOp(RETURN, NULL, NULL).(operand := Code(1)),
     NewOp(RETURN, NULL, NULL).(operand := Code(0)), NewOp(RETURN, NULL, NULL).(operand := Code(1)),
     NewOp(FIRST_LOCAL_KEY, 2, 3).(operand := Str("k")), LocalTest(2, 4)]
  }

  /** With these two selectors, in this order, validateAllSelectors reads the null branch. */
  lemma NullBranchIsRead(a: Selector, b: Selector)
    requires a != b && a.op == a.keyOp == 1 && a.falseOp == 0 && a.rank == map[0 := 0, 1 := 0]
    requires b.op == 5 && b.keyOp == 4 && b.falseOp == 2 && b.rank == map[2 := 0, 3 := 0, 4 := 1]
    ensures AllValidated(NoClauseFirst(), [a, b]) && !FirstHasBranch(NoClauseFirst(), [a, b]) && FirstHasBranch(NoClauseFirst(), [b, a])
  {
    hide Validated, Whole, NoClauseFirst;
    var g := NoClauseFirst();
    FirstIsValidated(a);
    SecondIsValidated(b);
    assert Whole(g, a).rank.Keys !! Whole(g, b).rank.Keys;
    assert a in [a, b] && b in [a, b];
  }

  lemma FirstIsValidated(a: Selector)
    requires a.op == a.keyOp == 1 && a.falseOp == 0 && a.rank == map[0 := 0, 1 := 0]
    ensures Validated(NoClauseFirst(), a) && Whole(NoClauseFirst(), a).rank.Keys == {0, 1}
    ensures NodeAt(NoClauseFirst(), a.op).opcode == RETURN
  {
    hide OperandOk;
    ExampleOperands();
    assert IsFragment(NoClauseFirst(), KeyPiece(a));
  }

  lemma SecondIsValidated(b: Selector)
    requires b.op == 5 && b.keyOp == 4 && b.falseOp == 2 && b.rank == map[2 := 0, 3 := 0, 4 := 1]
    ensures Validated(NoClauseFirst(), b) && Whole(NoClauseFirst(), b).rank.Keys == {2, 3, 4, 5}
    ensures NodeAt(NoClauseFirst(), b.op).opcode == HAS_LOCAL_KEYS
  {
    hide OperandOk;
    ExampleOperands();
    assert IsFragment(NoClauseFirst(), KeyPiece(b));
  }

  lemma ExampleOperands()
    ensures forall i {:trigger NoClauseFirst()[i]} :: 0 <= i < 6 ==> OperandOk(NoClauseFirst()[i])
  {
  }
}
