/** Selectors that accept different feature types: groups of selectors with the same types, each behind a test
    of the feature's type (src/match/MatcherValidator.cpp, validatePolyformSelectors). */
module PolyformSelectors {
  import opened OpGraphs
  import opened Fragments
  import opened SelectorLists
  import opened SelectorChains

  // ---------------------------------------------------------------- one group

  lemma NoSlot(g: seq<OpNode>, sels: seq<Selector>, i: int, m: nat)
    requires AllValidated(g, sels) && m < |sels| && i !in Whole(g, sels[m]).rank
    ensures i != Wholes(g, sels)[m].falseOp && i != Keys(sels)[m].falseOp && i != sels[m].op
  {
    assert sels[m] in sels && Validated(g, sels[m]);
    WholeIsFragment(g, sels[m]);
    RootInside(g, Whole(g, sels[m]));
    hide Whole, IsFragment;
  }

  /** Nodes that belong to no selector of the group are left alone. */
  lemma LinkedElsewhere(g: seq<OpNode>, sels: seq<Selector>, i: int)
    requires sels != [] && AllValidated(g, sels) && 0 <= i < |g|
    requires forall x :: x in sels ==> i !in Whole(g, x).rank
    ensures |Linked(g, sels)| == |g| && Linked(g, sels)[i] == g[i]
  {
    hide Validated, AllValidated, AllFragments, IsFragment, Disjoint, Copied, Whole, Mergeable, Slotted;
    WholesAreFragments(g, sels);
    forall m | 0 <= m < |sels| ensures i != Wholes(g, sels)[m].falseOp && i != Keys(sels)[m].falseOp && i != sels[m].op {
      NoSlot(g, sels, i, m);
    }
    FragmentsAreSlotted(g, Keys(sels));
    FragmentsAreSlotted(g, Wholes(g, sels));
    CopiedElsewhere(g, Keys(sels), |sels| - 1, i);
    CopiedElsewhere(g, Wholes(g, sels), |sels| - 1, i);
  }

  /** The piece that the group forms consists of the group's nodes. */
  lemma LinkedKeys(g: seq<OpNode>, sels: seq<Selector>, i: int) returns (x: Selector)
    requires sels != [] && AllValidated(g, sels) && i in LinkedPiece(g, sels).rank
    ensures x in sels && i in Whole(g, x).rank
  {
    hide IsFragment, Disjoint, Copied, ChainOf, Mergeable, Whole, Merged;
    WholesAreFragments(g, sels);
    if Mergeable(g, sels) && |sels| > 1 {
      var m := 0;
      if i != sels[0].op {
        m := ChainKeys(g, Keys(sels), |sels| - 1, i);
      }
      x := sels[m];
      assert Validated(g, x);
      WholeIsFragment(g, x);
      assert i in x.rank ==> i in x.rank.Keys;
    } else {
      var m := ChainKeys(g, Wholes(g, sels), |sels| - 1, i);
      x := sels[m];
    }
  }

  lemma LinkedEnds(g: seq<OpNode>, sels: seq<Selector>)
    requires sels != [] && AllValidated(g, sels)
    ensures LinkedPiece(g, sels).root == sels[0].op && LinkedPiece(g, sels).falseOp == sels[|sels| - 1].falseOp
  {
    assert sels[0] in sels && sels[|sels| - 1] in sels;
    hide IsFragment, Disjoint, Copied, ChainOf, Mergeable, Merged;
    WholeIsFragment(g, sels[0]);
    WholeIsFragment(g, sels[|sels| - 1]);
  }

  ghost function BehavioursOf<S>(sels: seq<Selector>, b: Selector -> Behaviour<S>): (bs: seq<Behaviour<S>>)
    ensures |bs| == |sels| && forall m :: 0 <= m < |sels| ==> bs[m] == b(sels[m])
  {
    if sels == [] then [] else [b(sels[0])] + BehavioursOf(sels[1..], b)
  }

  ghost function Verdicts(sels: seq<Selector>, v: Selector -> bool): (vs: seq<bool>)
    ensures |vs| == |sels| && forall m :: 0 <= m < |sels| ==> vs[m] == v(sels[m])
  {
    if sels == [] then [] else [v(sels[0])] + Verdicts(sels[1..], v)
  }

  ghost predicate SomeAccepts(sels: seq<Selector>, v: Selector -> bool) { exists x :: x in sels && v(x) }

  lemma AnyVerdict(sels: seq<Selector>, v: Selector -> bool)
    ensures AnyOf(Verdicts(sels, v)) == SomeAccepts(sels, v)
  {
    if SomeAccepts(sels, v) {
      var x :| x in sels && v(x);
      var m :| 0 <= m < |sels| && sels[m] == x;
      assert Verdicts(sels, v)[m];
    }
    if AnyOf(Verdicts(sels, v)) {
      var m :| 0 <= m < |sels| && Verdicts(sels, v)[m];
      assert sels[m] in sels;
    }
  }

  // ---------------------------------------------------------------- all groups

  ghost function Group(sels: seq<Selector>): seq<Selector>
    requires sels != []
  {
    WithTypes(sels, sels[0].acceptedTypes, true)
  }

  ghost function Others(sels: seq<Selector>): seq<Selector>
    requires sels != []
  {
    WithTypes(sels, sels[0].acceptedTypes, false)
  }

  /** The type test of the group's selectors is written at `typeOp`; the next group's goes where this group fails. */
  ghost function GroupLinked(g: seq<OpNode>, typeOp: int, sels: seq<Selector>): seq<OpNode>
    requires sels != [] && Group(sels) != []
  {
    var group := Group(sels);
    Written(Linked(g, group), typeOp, TypeTest(sels[0].acceptedTypes, group[|group| - 1].falseOp, group[0].op))
  }

  ghost function Polyform(g: seq<OpNode>, typeOp: int, sels: seq<Selector>): seq<OpNode>
    decreases |sels|
  {
    if sels == [] then g
    else
      FewerRemain(sels);
      Polyform(GroupLinked(g, typeOp, sels), Group(sels)[|Group(sels)| - 1].falseOp, Others(sels))
  }

  /** A selector accepts features of its types that meet its clauses. */
  ghost predicate Accepted<F>(sels: seq<Selector>, v: Selector -> bool, ofType: (nat, F) -> bool, feature: F) {
    exists x :: x in sels && ofType(x.acceptedTypes, feature) && v(x)
  }

  ghost predicate EachBehaves<S(!new)>(g: seq<OpNode>, sels: seq<Selector>, eval: Meaning<S>, b: Selector -> Behaviour<S>) {
    forall x {:trigger SelectorBehaves(g, x, eval, b(x))} :: x in sels ==> SelectorBehaves(g, x, eval, b(x))
  }

  /** A group is asked, selector by selector, if the feature is of its types. */
  ghost function GroupBehaviour<S, F>(sels: seq<Selector>, b: Selector -> Behaviour<S>, of: S -> F, ofType: (nat, F) -> bool): Behaviour<S>
    requires sels != [] && Group(sels) != []
  {
    IfType(of, ofType, sels[0].acceptedTypes, FirstOf(BehavioursOf(Group(sels), b), |Group(sels)| - 1))
  }

  /** After `u`, one group after the other is asked. */
  ghost function AfterGroups<S, F>(u: Behaviour<S>, sels: seq<Selector>, b: Selector -> Behaviour<S>, of: S -> F, ofType: (nat, F) -> bool): Behaviour<S>
    decreases |sels|
  {
    if sels == [] then u
    else
      FewerRemain(sels);
      AfterGroups(OrElse(u, GroupBehaviour(sels, b, of, ofType)), Others(sels), b, of, ofType)
  }

  lemma GroupOrOthers<F>(sels: seq<Selector>, v: Selector -> bool, ofType: (nat, F) -> bool, feature: F)
    requires sels != []
    ensures Accepted(sels, v, ofType, feature) <==>
              (ofType(sels[0].acceptedTypes, feature) && SomeAccepts(Group(sels), v)) || Accepted(Others(sels), v, ofType, feature)
  {
    var t := sels[0].acceptedTypes;
    WithTypesIsSelection(sels, t, true);
    WithTypesIsSelection(sels, t, false);
    hide WithTypes;
  }

  /** A part of the selectors is as well validated as all of them. */
  lemma PartValidated(g: seq<OpNode>, sels: seq<Selector>, types: nat, with: bool)
    requires AllValidated(g, sels)
    ensures AllValidated(g, WithTypes(sels, types, with))
  {
    WithTypesIsDistinct(sels, types, with);
    WithTypesIsSelection(sels, types, with);
    hide WithTypes, Validated, Whole, Distinct;
  }

  /** A group behind its type test */
  lemma GroupBehaves<S(!new), F>(g: seq<OpNode>, sels: seq<Selector>, eval: Meaning<S>, of: S -> F, local: F -> bool,
                                 ofType: (nat, F) -> bool, b: Selector -> Behaviour<S>)
    returns (t: Tail)
    requires sels != [] && AllValidated(g, sels) && TestsFeature(eval, of, local, ofType) && EachBehaves(g, sels, eval, b)
    requires sels[0].acceptedTypes < 0x1_0000_0000
    ensures Group(sels) != [] && |Linked(g, Group(sels))| == |g|
    ensures TailBehaves(Linked(g, Group(sels)), t, eval, GroupBehaviour(sels, b, of, ofType))
    ensures t.entry == TypeTest(sels[0].acceptedTypes, Group(sels)[|Group(sels)| - 1].falseOp, Group(sels)[0].op)
    ensures t.falseOp == Group(sels)[|Group(sels)| - 1].falseOp && t.rank == LinkedPiece(g, Group(sels)).rank
  {
    var group := Group(sels);
    FewerRemain(sels);
    PartValidated(g, sels, sels[0].acceptedTypes, true);
    WithTypesIsSelection(sels, sels[0].acceptedTypes, true);
    hide WithTypes, AllValidated, SelectorBehaves, TestsFeature, Linked, LinkedPiece, Behaves, TailBehaves, FirstOf, IfType;
    var bs := BehavioursOf(group, b);
    forall m | 0 <= m < |group| ensures SelectorBehaves(g, group[m], eval, bs[m]) {
      assert SelectorBehaves(g, group[m], eval, b(group[m]));
    }
    LinkedBehaves(g, group, eval, of, local, ofType, bs);
    LinkedEnds(g, group);
    var f := LinkedPiece(g, group);
    TypeTestBehaves(Linked(g, group), f, sels[0].acceptedTypes, eval, of, local, ofType, FirstOf(bs, |group| - 1));
    t := TestTail(TypeTest(sels[0].acceptedTypes, f.falseOp, f.root), f);
    LinkedSize(g, group);
  }

  lemma LinkedSize(g: seq<OpNode>, sels: seq<Selector>)
    requires sels != []
    ensures |Linked(g, sels)| == |g|
  {
    hide Mergeable, Copied;
  }

  /** Selectors whose nodes were left alone are as they were. */
  lemma SelectorStays<S(!new)>(g: seq<OpNode>, g': seq<OpNode>, x: Selector, eval: Meaning<S>, b: Behaviour<S>)
    requires |g'| == |g| && SelectorBehaves(g, x, eval, b)
    requires forall i :: i in Whole(g, x).rank && 0 <= i < |g| ==> g'[i] == g[i]
    ensures SelectorBehaves(g', x, eval, b) && Whole(g', x) == Whole(g, x)
  {
    WholeIsFragment(g, x);
    var w := Whole(g, x);
    ValidatedUntouched(g, g', x);
    hide Behaves, Ranked, Whole, Validated;
    forall i | i in w.rank ensures 0 <= i < |g| && g'[i] == g[i] {
      FragmentNode(g, w, i);
    }
    BehavesStill(g, g', w, eval, b);
  }

  lemma ValidatedUntouched(g: seq<OpNode>, g': seq<OpNode>, x: Selector)
    requires |g'| == |g| && Validated(g, x)
    requires forall i :: i in Whole(g, x).rank && 0 <= i < |g| ==> g'[i] == g[i]
    ensures Validated(g', x) && Whole(g', x) == Whole(g, x) && NodeAt(g', x.op) == NodeAt(g, x.op)
  {
    WholeIsFragment(g, x);
    hide Ranked;
    forall i | i in x.rank ensures 0 <= i < |g| && g'[i] == g[i] {
      FragmentNode(g, KeyPiece(x), i);
      assert i in x.rank.Keys;
    }
    FragmentStays(g, g', KeyPiece(x));
  }

  lemma SelectorsStay<S(!new)>(g: seq<OpNode>, g': seq<OpNode>, sels: seq<Selector>, eval: Meaning<S>, b: Selector -> Behaviour<S>)
    requires |g'| == |g| && AllValidated(g, sels) && EachBehaves(g, sels, eval, b)
    requires forall x, i :: x in sels && i in Whole(g, x).rank && 0 <= i < |g| ==> g'[i] == g[i]
    ensures AllValidated(g', sels) && EachBehaves(g', sels, eval, b)
    ensures forall x :: x in sels ==> Whole(g', x) == Whole(g, x)
  {
    hide Whole, Validated, Behaves;
    forall x | x in sels ensures SelectorBehaves(g', x, eval, b(x)) && Whole(g', x) == Whole(g, x) {
      assert SelectorBehaves(g, x, eval, b(x));
      SelectorStays(g, g', x, eval, b(x));
    }
  }

  /** The other selectors' nodes are not touched when a group is linked. */
  lemma OthersUntouched(g: seq<OpNode>, typeOp: int, sels: seq<Selector>)
    requires sels != [] && Group(sels) != [] && AllValidated(g, sels)
    requires forall x :: x in sels ==> typeOp !in Whole(g, x).rank
    ensures |GroupLinked(g, typeOp, sels)| == |g|
    ensures forall x, i :: x in Others(sels) && i in Whole(g, x).rank && 0 <= i < |g| ==> GroupLinked(g, typeOp, sels)[i] == g[i]
  {
    var group := Group(sels);
    PartValidated(g, sels, sels[0].acceptedTypes, true);
    WithTypesIsSelection(sels, sels[0].acceptedTypes, true);
    WithTypesIsSelection(sels, sels[0].acceptedTypes, false);
    LinkedSize(g, group);
    hide WithTypes, Linked, Whole, Validated, Distinct;
    forall x, i | x in Others(sels) && i in Whole(g, x).rank && 0 <= i < |g| ensures GroupLinked(g, typeOp, sels)[i] == g[i] {
      forall y | y in group ensures i !in Whole(g, y).rank {
        assert i in Whole(g, x).rank.Keys;
        assert Whole(g, x).rank.Keys !! Whole(g, y).rank.Keys;
      }
      LinkedElsewhere(g, group, i);
    }
  }

  /** A piece outside the group's nodes is untouched, too. */
  lemma PieceUntouched<S(!new)>(g: seq<OpNode>, group: seq<Selector>, p: Fragment, eval: Meaning<S>, u: Behaviour<S>)
    requires group != [] && AllValidated(g, group) && Behaves(g, p, eval, u)
    requires forall x, i :: x in group && i in p.rank ==> i !in Whole(g, x).rank
    ensures Behaves(Linked(g, group), p, eval, u)
    ensures p.rank.Keys !! LinkedPiece(g, group).rank.Keys
  {
    LinkedSize(g, group);
    assert IsFragment(g, p);
    hide AllValidated, Linked, LinkedPiece, Whole, Behaves, Ranked;
    forall i | i in p.rank ensures 0 <= i < |g| && Linked(g, group)[i] == g[i] {
      FragmentNode(g, p, i);
      LinkedElsewhere(g, group, i);
    }
    BehavesStill(g, Linked(g, group), p, eval, u);
    forall i | i in LinkedPiece(g, group).rank ensures i !in p.rank {
      var x := LinkedKeys(g, group, i);
    }
    assert forall i :: i in LinkedPiece(g, group).rank.Keys ==> i !in p.rank.Keys;
  }

  ghost predicate SmallTypes(sels: seq<Selector>) { forall x :: x in sels ==> x.acceptedTypes < 0x1_0000_0000 }

  /** The piece shares no node with the selectors. */
  ghost predicate ApartFrom(g: seq<OpNode>, p: Fragment, sels: seq<Selector>) {
    forall x, i {:trigger x in sels, i in p.rank} :: x in sels && i in p.rank ==> i !in Whole(g, x).rank
  }

  /** One more group: a piece that ends where the group's type test is written becomes its OR with the group. */
  lemma GroupChained<S(!new), F>(g: seq<OpNode>, p: Fragment, sels: seq<Selector>, eval: Meaning<S>, of: S -> F, local: F -> bool,
                                 ofType: (nat, F) -> bool, b: Selector -> Behaviour<S>, u: Behaviour<S>)
    returns (q: Fragment)
    requires sels != [] && AllValidated(g, sels) && TestsFeature(eval, of, local, ofType) && EachBehaves(g, sels, eval, b)
    requires SmallTypes(sels) && Behaves(g, p, eval, u) && ApartFrom(g, p, sels)
    ensures Group(sels) != [] && q.root == p.root && q.falseOp == Group(sels)[|Group(sels)| - 1].falseOp
    ensures Behaves(GroupLinked(g, p.falseOp, sels), q, eval, OrElse(u, GroupBehaviour(sels, b, of, ofType)))
    ensures forall i :: i in q.rank ==> i in p.rank || i in LinkedPiece(g, Group(sels)).rank
  {
    hide AllValidated, Whole, Behaves, TestsFeature, EachBehaves, Linked, LinkedPiece, TailBehaves, WithTypes, GroupBehaviour, OrElse;
    assert sels[0] in sels;
    var t := GroupBehaves(g, sels, eval, of, local, ofType, b);
    var group := Group(sels);
    PartValidated(g, sels, sels[0].acceptedTypes, true);
    WithTypesIsSelection(sels, sels[0].acceptedTypes, true);
    PieceUntouched(g, group, p, eval, u);
    ChainIsOr(Linked(g, group), p, t, eval, u, GroupBehaviour(sels, b, of, ofType));
    q := Chained(p, t);
    PieceEnds(g, p, eval, u);
  }

  lemma PieceEnds<S(!new)>(g: seq<OpNode>, p: Fragment, eval: Meaning<S>, u: Behaviour<S>)
    requires Behaves(g, p, eval, u)
    ensures 0 <= p.falseOp < |g| && p.falseOp in p.rank && IsFragment(g, p)
  {
  }

  lemma PieceLeavesOthers(g: seq<OpNode>, p: Fragment, sels: seq<Selector>, q: Fragment)
    requires sels != [] && AllValidated(g, sels) && Group(sels) != [] && ApartFrom(g, p, sels)
    requires forall i :: i in q.rank ==> i in p.rank || i in LinkedPiece(g, Group(sels)).rank
    ensures forall x, i :: x in Others(sels) && i in q.rank ==> i !in Whole(g, x).rank
  {
    PartValidated(g, sels, sels[0].acceptedTypes, true);
    WithTypesIsSelection(sels, sels[0].acceptedTypes, true);
    WithTypesIsSelection(sels, sels[0].acceptedTypes, false);
    hide WithTypes, LinkedPiece, Whole, Validated, Distinct;
    forall x, i | x in Others(sels) && i in q.rank ensures i !in Whole(g, x).rank {
      if i in LinkedPiece(g, Group(sels)).rank {
        var y := LinkedKeys(g, Group(sels), i);
        assert i in Whole(g, y).rank.Keys;
        assert Whole(g, y).rank.Keys !! Whole(g, x).rank.Keys;
      }
    }
  }

  /** From a piece on, linking the remaining groups makes the OR of the piece and all those selectors. */
  lemma {:induction false} PolyformChained<S(!new), F>(
      g: seq<OpNode>, p: Fragment, sels: seq<Selector>, eval: Meaning<S>, of: S -> F, local: F -> bool,
      ofType: (nat, F) -> bool, b: Selector -> Behaviour<S>, u: Behaviour<S>)
    returns (q: Fragment)
    requires AllValidated(g, sels) && TestsFeature(eval, of, local, ofType) && EachBehaves(g, sels, eval, b)
    requires SmallTypes(sels) && Behaves(g, p, eval, u) && ApartFrom(g, p, sels)
    ensures q.root == p.root && Behaves(Polyform(g, p.falseOp, sels), q, eval, AfterGroups(u, sels, b, of, ofType))
    decreases |sels|
  {
    hide AllValidated, Whole, Behaves, TestsFeature, EachBehaves, Linked, LinkedPiece, WithTypes, ApartFrom, GroupLinked, GroupBehaviour, OrElse;
    if sels == [] {
      q := p;
    } else {
      var p' := GroupChained(g, p, sels, eval, of, local, ofType, b, u);
      OthersReady(g, p, sels, p', eval, b, u);
      FewerRemain(sels);
      q := PolyformChained(GroupLinked(g, p.falseOp, sels), p', Others(sels), eval, of, local, ofType, b,
                           OrElse(u, GroupBehaviour(sels, b, of, ofType)));
    }
  }

  lemma OthersReady<S(!new)>(g: seq<OpNode>, p: Fragment, sels: seq<Selector>, q: Fragment, eval: Meaning<S>, b: Selector -> Behaviour<S>, u: Behaviour<S>)
    requires sels != [] && AllValidated(g, sels) && EachBehaves(g, sels, eval, b)
    requires SmallTypes(sels) && Group(sels) != [] && Behaves(g, p, eval, u) && ApartFrom(g, p, sels)
    requires forall i :: i in q.rank ==> i in p.rank || i in LinkedPiece(g, Group(sels)).rank
    ensures var g' := GroupLinked(g, p.falseOp, sels);
            && AllValidated(g', Others(sels)) && EachBehaves(g', Others(sels), eval, b)
            && SmallTypes(Others(sels)) && ApartFrom(g', q, Others(sels))
  {
    PartValidated(g, sels, sels[0].acceptedTypes, false);
    WithTypesIsSelection(sels, sels[0].acceptedTypes, false);
    PieceEnds(g, p, eval, u);
    hide AllValidated, Whole, Behaves, Linked, LinkedPiece, WithTypes, IsFragment, GroupLinked, SelectorBehaves;
    OthersUntouched(g, p.falseOp, sels);
    SelectorsStay(g, GroupLinked(g, p.falseOp, sels), Others(sels), eval, b);
    PieceLeavesOthers(g, p, sels, q);
  }

  /** The graph built from selectors with different types asks one group after the other, whatever the registers hold. */
  lemma PolyformBehaves<S(!new), F>(g: seq<OpNode>, root: int, sels: seq<Selector>, eval: Meaning<S>, of: S -> F, local: F -> bool,
                                    ofType: (nat, F) -> bool, b: Selector -> Behaviour<S>)
    returns (q: Fragment)
    requires sels != [] && AllValidated(g, sels) && TestsFeature(eval, of, local, ofType) && EachBehaves(g, sels, eval, b)
    requires SmallTypes(sels) && 0 <= root < |g| && forall x :: x in sels ==> root !in Whole(g, x).rank
    ensures Group(sels) != [] && q.root == root
    ensures Behaves(Polyform(g, root, sels), q, eval, AfterGroups(GroupBehaviour(sels, b, of, ofType), Others(sels), b, of, ofType))
  {
    hide AllValidated, Whole, Behaves, TestsFeature, EachBehaves, Linked, LinkedPiece, TailBehaves, WithTypes, GroupBehaviour, AfterGroups;
    assert sels[0] in sels;
    var t := GroupBehaves(g, sels, eval, of, local, ofType, b);
    FirstGroup(g, root, sels, t, eval, b, GroupBehaviour(sels, b, of, ofType));
    var p := Fragment(root, t.falseOp, t.rank[root := t.top]);
    FewerRemain(sels);
    q := PolyformChained(GroupLinked(g, root, sels), p, Others(sels), eval, of, local, ofType, b, GroupBehaviour(sels, b, of, ofType));
  }

  lemma FirstGroup<S(!new)>(g: seq<OpNode>, root: int, sels: seq<Selector>, t: Tail, eval: Meaning<S>, b: Selector -> Behaviour<S>, u: Behaviour<S>)
    requires sels != [] && AllValidated(g, sels) && EachBehaves(g, sels, eval, b) && Group(sels) != []
    requires SmallTypes(sels) && 0 <= root < |g| && forall x :: x in sels ==> root !in Whole(g, x).rank
    requires TailBehaves(Linked(g, Group(sels)), t, eval, u)
    requires t.entry == TypeTest(sels[0].acceptedTypes, Group(sels)[|Group(sels)| - 1].falseOp, Group(sels)[0].op)
    requires t.rank == LinkedPiece(g, Group(sels)).rank
    ensures var g', p := GroupLinked(g, root, sels), Fragment(root, t.falseOp, t.rank[root := t.top]);
            && Behaves(g', p, eval, u)
            && AllValidated(g', Others(sels)) && EachBehaves(g', Others(sels), eval, b)
            && SmallTypes(Others(sels)) && ApartFrom(g', p, Others(sels))
  {
    var group, g', p := Group(sels), GroupLinked(g, root, sels), Fragment(root, t.falseOp, t.rank[root := t.top]);
    PartValidated(g, sels, sels[0].acceptedTypes, true);
    PartValidated(g, sels, sels[0].acceptedTypes, false);
    WithTypesIsSelection(sels, sels[0].acceptedTypes, true);
    WithTypesIsSelection(sels, sels[0].acceptedTypes, false);
    LinkedSize(g, group);
    hide AllValidated, Whole, Behaves, Linked, LinkedPiece, WithTypes, SelectorBehaves, TailBehaves;
    if root in LinkedPiece(g, group).rank {
      var x := LinkedKeys(g, group, root);
    }
    TailStays(Linked(g, group), g', t, root, eval, u);
    PieceFromTail(g', t, root, eval, u);
    OthersUntouched(g, root, sels);
    SelectorsStay(g, g', Others(sels), eval, b);
    var none := Fragment(root, root, map[root := 0]);
    PieceLeavesOthers(g, none, sels, p);
  }

  /** Writing a node outside the tail's piece changes nothing for the tail. */
  lemma TailStays<S(!new)>(g: seq<OpNode>, g': seq<OpNode>, t: Tail, c: int, eval: Meaning<S>, b: Behaviour<S>)
    requires TailBehaves(g, t, eval, b) && c !in t.rank && |g'| == |g| && forall i :: 0 <= i < |g| && i != c ==> g'[i] == g[i]
    ensures TailBehaves(g', t, eval, b)
  {
    TailIndices(g, t);
    RankStays(g, g', t.rank);
    forall s ensures IsTail(g', t) && EntryOutcome(g', t, eval, s) == b(s) {
      assert EntryOutcome(g, t, eval, s) == b(s);
      var n := t.entry;
      if n.opcode != RETURN {
        if n.opcode == NOP || n.opcode == GOTO {
          OutcomeStays(g, t.rank, g', t.rank, t.falseOp, eval, n.next0, s);
        } else if n.opcode == CODE_TO_STR {
          OutcomeStays(g, t.rank, g', t.rank, t.falseOp, eval, n.next0, eval(n.opcode, n.operand, s).1);
        } else {
          var (matched, s') := eval(n.opcode, n.operand, s);
          OutcomeStays(g, t.rank, g', t.rank, t.falseOp, eval, n.Next(matched != n.negated), s');
        }
      }
    }
  }

  // ---------------------------------------------------------------- verdicts that do not depend on the registers

  ghost predicate EachDecides<S(!new), F>(sels: seq<Selector>, b: Selector -> Behaviour<S>, of: S -> F, feature: F, v: Selector -> bool) {
    forall x {:trigger x in sels} :: x in sels ==> Decides(b(x), of, feature, v(x))
  }

  lemma GroupDecides<S(!new), F>(sels: seq<Selector>, b: Selector -> Behaviour<S>, of: S -> F, ofType: (nat, F) -> bool, feature: F, v: Selector -> bool)
    requires sels != [] && Group(sels) != [] && EachDecides(sels, b, of, feature, v)
    ensures Decides(GroupBehaviour(sels, b, of, ofType), of, feature, ofType(sels[0].acceptedTypes, feature) && SomeAccepts(Group(sels), v))
  {
    hide WithTypes, Decides, FirstOf, SomeAccepts, IfType;
    var group := Group(sels);
    WithTypesIsSelection(sels, sels[0].acceptedTypes, true);
    SomeDecides(group, b, of, feature, v);
    TypeDecides(of, ofType, sels[0].acceptedTypes, FirstOf(BehavioursOf(group, b), |group| - 1), feature, SomeAccepts(group, v));
  }

  lemma SomeDecides<S(!new), F>(sels: seq<Selector>, b: Selector -> Behaviour<S>, of: S -> F, feature: F, v: Selector -> bool)
    requires sels != [] && EachDecides(sels, b, of, feature, v)
    ensures Decides(FirstOf(BehavioursOf(sels, b), |sels| - 1), of, feature, SomeAccepts(sels, v))
  {
    hide Decides, FirstOf, AnyOf, SomeAccepts, BehavioursOf, Verdicts;
    var bs, vs := BehavioursOf(sels, b), Verdicts(sels, v);
    forall m {:trigger bs[m]} | 0 <= m < |bs| ensures Decides(bs[m], of, feature, vs[m]) {
      assert sels[m] in sels;
    }
    FirstDecides(bs, |bs| - 1, of, feature, vs);
    assert vs[..|bs|] == vs;
    AnyVerdict(sels, v);
  }

  lemma TypeDecides<S(!new), F>(of: S -> F, ofType: (nat, F) -> bool, types: nat, b: Behaviour<S>, feature: F, v: bool)
    requires Decides(b, of, feature, v)
    ensures Decides(IfType(of, ofType, types, b), of, feature, ofType(types, feature) && v)
  {
    var t := IfType(of, ofType, types, b);
    forall s | of(s) == feature ensures t(s).0 == (ofType(types, feature) && v) && of(t(s).1) == feature {
      assert of(b(s).1) == feature;
    }
  }

  lemma {:induction false} GroupsDecide<S(!new), F>(u: Behaviour<S>, sels: seq<Selector>, b: Selector -> Behaviour<S>, of: S -> F,
                                                    ofType: (nat, F) -> bool, feature: F, v: Selector -> bool, x: bool)
    requires Decides(u, of, feature, x) && EachDecides(sels, b, of, feature, v)
    ensures Decides(AfterGroups(u, sels, b, of, ofType), of, feature, x || Accepted(sels, v, ofType, feature))
    decreases |sels|
  {
    hide Decides, OrElse, GroupBehaviour, SomeAccepts, Accepted;
    if sels == [] {
      NoneAccepted(v, ofType, feature);
    } else {
      FewerRemain(sels);
      WithTypesIsSelection(sels, sels[0].acceptedTypes, false);
      hide WithTypes;
      GroupDecides(sels, b, of, ofType, feature, v);
      var one := ofType(sels[0].acceptedTypes, feature) && SomeAccepts(Group(sels), v);
      OrDecides(u, GroupBehaviour(sels, b, of, ofType), of, feature, x, one);
      GroupsDecide(OrElse(u, GroupBehaviour(sels, b, of, ofType)), Others(sels), b, of, ofType, feature, v, x || one);
      GroupOrOthers(sels, v, ofType, feature);
    }
  }

  lemma NoneAccepted<F>(v: Selector -> bool, ofType: (nat, F) -> bool, feature: F)
    ensures !Accepted([], v, ofType, feature)
  {
  }

  /** So the graph accepts a feature exactly if a selector accepts its type and its clauses, whatever the groups and
      the order they were given in, if no selector's verdict depends on what others leave in the registers. */
  lemma PolyformDecides<S(!new), F>(g: seq<OpNode>, root: int, sels: seq<Selector>, eval: Meaning<S>, of: S -> F, local: F -> bool,
                                    ofType: (nat, F) -> bool, b: Selector -> Behaviour<S>, feature: F, v: Selector -> bool, s: S)
    returns (q: Fragment)
    requires sels != [] && AllValidated(g, sels) && TestsFeature(eval, of, local, ofType) && EachBehaves(g, sels, eval, b)
    requires SmallTypes(sels) && 0 <= root < |g| && forall x :: x in sels ==> root !in Whole(g, x).rank
    requires EachDecides(sels, b, of, feature, v) && of(s) == feature
    ensures q.root == root && IsFragment(Polyform(g, root, sels), q)
    ensures Walk(Polyform(g, root, sels), q.rank, eval, root, s) ==
            if exists x :: x in sels && ofType(x.acceptedTypes, feature) && v(x) then 1 else 0
  {
    FewerRemain(sels);
    hide AllValidated, Behaves, TestsFeature, EachBehaves, WithTypes, GroupBehaviour, AfterGroups, Accepted, SomeAccepts, Decides, Polyform, IsFragment;
    q := PolyformBehaves(g, root, sels, eval, of, local, ofType, b);
    GroupDecides(sels, b, of, ofType, feature, v);
    WithTypesIsSelection(sels, sels[0].acceptedTypes, false);
    var one := ofType(sels[0].acceptedTypes, feature) && SomeAccepts(Group(sels), v);
    GroupsDecide(GroupBehaviour(sels, b, of, ofType), Others(sels), b, of, ofType, feature, v, one);
    GroupOrOthers(sels, v, ofType, feature);
    var all := AfterGroups(GroupBehaviour(sels, b, of, ofType), Others(sels), b, of, ofType);
    VerdictIs(Polyform(g, root, sels), q, eval, all, s);
    DecidedAt(all, of, feature, Accepted(sels, v, ofType, feature), s);
    AcceptedMeans(sels, v, ofType, feature);
  }

  /** What the selector's own graph does; outside a selector's piece it does not matter. */
  ghost function OwnBehaviourOf<S(!new)>(g: seq<OpNode>, eval: Meaning<S>): Selector -> Behaviour<S> {
    x => if IsFragment(g, Whole(g, x)) then BehaviourOf(g, Whole(g, x), eval) else s => (false, s)
  }

  /** Walking the graph built for selectors of several types accepts a feature exactly if some selector is for its type and
      walking its own graph accepts the feature. */
  lemma PolyformAccepts<S(!new), F>(g: seq<OpNode>, root: int, sels: seq<Selector>, eval: Meaning<S>, of: S -> F, local: F -> bool,
                                    ofType: (nat, F) -> bool, feature: F, v: Selector -> bool, s: S)
    returns (q: Fragment)
    requires sels != [] && AllValidated(g, sels) && TestsFeature(eval, of, local, ofType) && of(s) == feature
    requires SmallTypes(sels) && 0 <= root < |g| && forall x :: x in sels ==> root !in Whole(g, x).rank
    requires forall x {:trigger x in sels} :: x in sels ==> OwnVerdict(g, x, eval, of, feature, v(x))
    ensures q.root == root && IsFragment(Polyform(g, root, sels), q)
    ensures Walk(Polyform(g, root, sels), q.rank, eval, root, s) ==
            if exists x :: x in sels && ofType(x.acceptedTypes, feature) && v(x) then 1 else 0
  {
    hide AllValidated, Behaves, TestsFeature, IsFragment, Whole, OwnVerdict, Polyform, BehaviourOf, SelectorBehaves, Decides;
    var b := OwnBehaviourOf(g, eval);
    forall x | x in sels ensures SelectorBehaves(g, x, eval, b(x)) && Decides(b(x), of, feature, v(x)) {
      OwnBehaviour(g, x, eval, of, local, ofType, feature, v(x));
    }
    q := PolyformDecides(g, root, sels, eval, of, local, ofType, b, feature, v, s);
  }

  lemma AcceptedMeans<F>(sels: seq<Selector>, v: Selector -> bool, ofType: (nat, F) -> bool, feature: F)
    ensures Accepted(sels, v, ofType, feature) <==> exists x :: x in sels && ofType(x.acceptedTypes, feature) && v(x)
  {
  }

  lemma RankStays(g: seq<OpNode>, g': seq<OpNode>, rank: map<int, nat>)
    requires Ranked(g, rank) && |g| == |g'| && forall i :: i in rank ==> 0 <= i < |g| && g'[i] == g[i]
    ensures Ranked(g', rank)
  {
    hide OperandOk, HasJump;
  }
}
