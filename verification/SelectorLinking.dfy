/** The steps of validateAllSelectors (src/match/MatcherValidator.cpp, lines 440-487), each one copy of a node. */
module SelectorLinking {
  import opened OpGraphs
  import opened Fragments
  import opened SelectorLists
  import opened SelectorChains
  import opened PolyformSelectors

  /** The selectors up to number `k` start with the same check for local keys. */
  ghost predicate MergeableUpTo(g: seq<OpNode>, sels: seq<Selector>, k: nat) {
    forall m {:trigger sels[m]} :: 0 <= m <= k < |sels| ==> NodeAt(g, sels[m].op).opcode == HAS_LOCAL_KEYS && ExitCode(g, sels[m]) == ExitCode(g, sels[0])
  }

  /** The first selector has clauses, or no later one starts with a check for local keys: the source follows the
      first op's false branch to compare the checks, and a selector without clauses has none. */
  ghost predicate FirstHasBranch(g: seq<OpNode>, sels: seq<Selector>) {
    sels != [] && (NodeAt(g, sels[0].op).opcode == RETURN ==> forall x :: x in sels ==> NodeAt(g, x.op).opcode != HAS_LOCAL_KEYS)
  }

  /** The same for the selectors up to number `k` */
  ghost predicate BranchUpTo(g: seq<OpNode>, sels: seq<Selector>, k: nat) {
    k < |sels| && forall m {:trigger sels[m]} :: 0 <= m <= k ==>
      NodeAt(g, sels[m].op).opcode == HAS_LOCAL_KEYS ==> NodeAt(g, sels[0].op).opcode != RETURN
  }

  lemma BranchOneMore(g: seq<OpNode>, sels: seq<Selector>, k: nat)
    requires k < |sels|
    ensures BranchUpTo(g, sels, 0)
    ensures k + 1 < |sels| ==> (BranchUpTo(g, sels, k + 1) <==>
              BranchUpTo(g, sels, k) && (NodeAt(g, sels[k + 1].op).opcode == HAS_LOCAL_KEYS ==> NodeAt(g, sels[0].op).opcode != RETURN))
    ensures !BranchUpTo(g, sels, k) ==> !FirstHasBranch(g, sels)
    ensures k + 1 == |sels| ==> (BranchUpTo(g, sels, k) <==> FirstHasBranch(g, sels))
  {
    assert forall x :: x in sels ==> exists m :: 0 <= m < |sels| && sels[m] == x;
    if k + 1 < |sels| && BranchUpTo(g, sels, k) && (NodeAt(g, sels[k + 1].op).opcode == HAS_LOCAL_KEYS ==> NodeAt(g, sels[0].op).opcode != RETURN) {
      forall m {:trigger sels[m]} | 0 <= m <= k + 1
        ensures NodeAt(g, sels[m].op).opcode == HAS_LOCAL_KEYS ==> NodeAt(g, sels[0].op).opcode != RETURN {
        assert m <= k || m == k + 1;
      }
    }
  }

  lemma SelectorNodes(g: seq<OpNode>, sels: seq<Selector>, m: nat)
    requires AllValidated(g, sels) && m < |sels|
    ensures var x := sels[m];
            && 0 <= x.op < |g| && 0 <= x.falseOp < |g| && 0 <= x.keyOp < |g|
            && x.op in Whole(g, x).rank && x.falseOp in Whole(g, x).rank && x.op != x.falseOp
            && Wholes(g, sels)[m].root == x.op && Wholes(g, sels)[m].falseOp == x.falseOp
            && (g[x.op].opcode != RETURN ==> g[x.op].next0 in Whole(g, x).rank && 0 <= g[x.op].next0 < |g|)
            && (g[x.op].opcode == RETURN ==> g[x.op].next0 == NULL)
            && Keys(sels)[m].root == x.keyOp && Keys(sels)[m].falseOp == x.falseOp
  {
    var x := sels[m];
    assert x in sels && Validated(g, x);
    WholeIsFragment(g, x);
    var w := Whole(g, x);
    RootInside(g, w);
    FragmentNode(g, w, x.op);
    NodeIsRanked(g, w.rank, x.op);
    if g[x.op].opcode != RETURN {
      FragmentNode(g, w, g[x.op].next0);
    }
    RootsDiffer(g, w);
    hide Validated, Whole, IsFragment, Ranked;
  }

  lemma RootsDiffer(g: seq<OpNode>, f: Fragment)
    requires IsFragment(g, f)
    ensures f.root != f.falseOp
  {
  }

  /** Nodes of a selector whose turn has not come, and nodes that are no false exit, are as before. */
  lemma StillOriginal(g: seq<OpNode>, sels: seq<Selector>, k: nat, m: nat, i: int)
    requires AllValidated(g, sels) && k < |sels| && m < |sels| && i in Whole(g, sels[m]).rank && (i != sels[m].falseOp || k <= m)
    ensures 0 <= i < |g| && Copied(g, Wholes(g, sels), k)[i] == g[i]
  {
    WholesAreFragments(g, sels);
    assert sels[m] in sels && Validated(g, sels[m]);
    WholeIsFragment(g, sels[m]);
    FragmentNode(g, Whole(g, sels[m]), i);
    var ws := Wholes(g, sels);
    hide Validated, AllValidated, Whole, IsFragment, Copied, Disjoint;
    forall a | 0 <= a < k ensures i != ws[a].falseOp {
      FalseOpInside(g, ws, a);
      if a != m { Apart(ws, a, m, ws[a].falseOp); }
    }
    FragmentsAreSlotted(g, ws);
    CopiedElsewhere(g, ws, k, i);
  }

  /** One round of the first loop: the next selector's first op is copied over the false exit. */
  lemma CopyStep(g: seq<OpNode>, sels: seq<Selector>, k: nat)
    requires AllValidated(g, sels) && k + 1 < |sels|
    ensures var h := Copied(g, Wholes(g, sels), k);
            && |h| == |g| && 0 <= sels[k].falseOp < |g| && 0 <= sels[k + 1].op < |g|
            && Copied(g, Wholes(g, sels), k + 1) == h[sels[k].falseOp := h[sels[k + 1].op]]
  {
    SelectorNodes(g, sels, k);
    SelectorNodes(g, sels, k + 1);
    StillOriginal(g, sels, k, k + 1, sels[k + 1].op);
    hide AllValidated, Whole;
  }

  /** What the loop then reads to compare the checks: the codes that the checks' false branches return. */
  lemma CodesRead(g: seq<OpNode>, sels: seq<Selector>, k: nat)
    requires AllValidated(g, sels) && k + 1 < |sels|
    ensures var h, op, first := Copied(g, Wholes(g, sels), k + 1), sels[k + 1].op, sels[0].op;
            && |h| == |g| && 0 <= op < |g| && 0 <= first < |g| && h[op] == g[op] && h[first] == g[first]
            && (g[op].opcode == HAS_LOCAL_KEYS ==> 0 <= g[op].next0 < |g| && CodeOf(h[g[op].next0]) == ExitCode(g, sels[k + 1]))
            && (g[first].opcode != RETURN ==> 0 <= g[first].next0 < |g|)
            && (g[op].opcode == HAS_LOCAL_KEYS && MergeableUpTo(g, sels, k) ==> CodeOf(h[g[first].next0]) == ExitCode(g, sels[0]))
  {
    var ws, op, first := Wholes(g, sels), sels[k + 1].op, sels[0].op;
    hide AllValidated, Whole, Copied, Validated, ExitCode;
    SelectorNodes(g, sels, 0);
    SelectorNodes(g, sels, k + 1);
    StillOriginal(g, sels, k + 1, k + 1, op);
    StillOriginal(g, sels, k + 1, 0, first);
    if g[op].opcode == HAS_LOCAL_KEYS {
      StillOriginal(g, sels, k + 1, k + 1, g[op].next0);
      ExitCodeIs(g, sels[k + 1]);
      if MergeableUpTo(g, sels, k) {
        FirstCode(g, sels, k);
      }
    }
  }

  lemma ExitCodeIs(g: seq<OpNode>, x: Selector)
    requires 0 <= x.op < |g| && 0 <= g[x.op].next0 < |g|
    ensures ExitCode(g, x) == CodeOf(g[g[x.op].next0])
  {
  }

  lemma FirstCode(g: seq<OpNode>, sels: seq<Selector>, k: nat)
    requires AllValidated(g, sels) && k + 1 < |sels| && MergeableUpTo(g, sels, k) && NodeAt(g, sels[k + 1].op).opcode == HAS_LOCAL_KEYS
    ensures 0 <= sels[0].op < |g| && 0 <= g[sels[0].op].next0 < |g|
    ensures CodeOf(Copied(g, Wholes(g, sels), k + 1)[g[sels[0].op].next0]) == ExitCode(g, sels[0])
  {
    hide AllValidated, Whole, Copied, Validated, ExitCode, MergeableUpTo, AllFragments, Slotted;
    FirstChecks(g, sels, k);
    SelectorNodes(g, sels, 0);
    SelectorNodes(g, sels, 1);
    var next0 := g[sels[0].op].next0;
    if next0 == sels[0].falseOp {
      WholesAreFragments(g, sels);
      FragmentsAreSlotted(g, Wholes(g, sels));
      CopiedAt(g, Wholes(g, sels), k + 1, 0);
    } else {
      StillOriginal(g, sels, k + 1, 0, next0);
      ExitCodeIs(g, sels[0]);
    }
  }

  lemma FirstChecks(g: seq<OpNode>, sels: seq<Selector>, k: nat)
    requires AllValidated(g, sels) && k + 1 < |sels| && MergeableUpTo(g, sels, k) && NodeAt(g, sels[k + 1].op).opcode == HAS_LOCAL_KEYS
    ensures 0 <= sels[0].op < |g| && 0 <= sels[1].op < |g| && g[sels[0].op].opcode == HAS_LOCAL_KEYS && CodeOf(g[sels[1].op]) == 0
    ensures g[sels[0].op].next0 == sels[0].falseOp ==> ExitCode(g, sels[0]) == 0
  {
    assert sels[0] in sels && sels[1] in sels;
    assert NodeAt(g, sels[0].op).opcode == HAS_LOCAL_KEYS && NodeAt(g, sels[1].op).opcode == HAS_LOCAL_KEYS;
    hide IsFragment, ExitCode, Whole;
    CheckedSelector(g, sels[0]);
    CheckedSelector(g, sels[1]);
  }

  lemma MergeableOneMore(g: seq<OpNode>, sels: seq<Selector>, k: nat)
    requires k + 1 < |sels|
    ensures MergeableUpTo(g, sels, k + 1) <==> MergeableUpTo(g, sels, k) && NodeAt(g, sels[k + 1].op).opcode == HAS_LOCAL_KEYS
                                               && ExitCode(g, sels[k + 1]) == ExitCode(g, sels[0])
    ensures MergeableUpTo(g, sels, 0) <==> NodeAt(g, sels[0].op).opcode == HAS_LOCAL_KEYS
    ensures k + 2 == |sels| ==> (MergeableUpTo(g, sels, k + 1) <==> Mergeable(g, sels))
  {
    hide ExitCode;
    if MergeableUpTo(g, sels, k) && NodeAt(g, sels[k + 1].op).opcode == HAS_LOCAL_KEYS && ExitCode(g, sels[k + 1]) == ExitCode(g, sels[0]) {
      forall m | 0 <= m <= k + 1 ensures NodeAt(g, sels[m].op).opcode == HAS_LOCAL_KEYS && ExitCode(g, sels[m]) == ExitCode(g, sels[0]) {
        assert m == k + 1 || m <= k;
      }
    }
  }

  /** The second loop writes over the same false exits: what the first one copied there is lost. */
  lemma CopiedOver(g: seq<OpNode>, sels: seq<Selector>)
    requires sels != [] && AllValidated(g, sels)
    ensures Copied(Copied(g, Wholes(g, sels), |sels| - 1), Keys(sels), |sels| - 1) == Copied(g, Keys(sels), |sels| - 1)
  {
    var ks, k := Keys(sels), |sels| - 1;
    var h := Copied(g, Wholes(g, sels), k);
    var twice, once := Copied(h, ks, k), Copied(g, ks, k);
    hide AllValidated, Whole, Copied;
    forall i | 0 <= i < |g| ensures twice[i] == once[i] {
      CopiedOverAt(g, sels, i);
    }
  }

  lemma CopiedOverAt(g: seq<OpNode>, sels: seq<Selector>, i: int)
    requires sels != [] && AllValidated(g, sels) && 0 <= i < |g|
    ensures Copied(Copied(g, Wholes(g, sels), |sels| - 1), Keys(sels), |sels| - 1)[i] == Copied(g, Keys(sels), |sels| - 1)[i]
  {
    hide AllValidated, Whole, Copied;
    if m :| 0 <= m < |sels| - 1 && i == sels[m].falseOp {
      CopiedOverSlot(g, sels, m);
    } else {
      CopiedOverElsewhere(g, sels, i);
    }
  }

  lemma CopiedOverSlot(g: seq<OpNode>, sels: seq<Selector>, m: nat)
    requires AllValidated(g, sels) && m + 1 < |sels|
    ensures 0 <= sels[m].falseOp < |g|
    ensures Copied(Copied(g, Wholes(g, sels), |sels| - 1), Keys(sels), |sels| - 1)[sels[m].falseOp] == Copied(g, Keys(sels), |sels| - 1)[sels[m].falseOp]
  {
    hide AllValidated, Whole, Copied, AllFragments, Slotted, Wholes, Keys;
    WholesAreFragments(g, sels);
    FragmentsAreSlotted(g, Keys(sels));
    SelectorNodes(g, sels, m);
    CopiedAt(Copied(g, Wholes(g, sels), |sels| - 1), Keys(sels), |sels| - 1, m);
    CopiedAt(g, Keys(sels), |sels| - 1, m);
    KeyOpStays(g, sels, m + 1);
  }

  lemma CopiedOverElsewhere(g: seq<OpNode>, sels: seq<Selector>, i: int)
    requires sels != [] && AllValidated(g, sels) && 0 <= i < |g|
    requires forall m :: 0 <= m < |sels| - 1 ==> i != sels[m].falseOp
    ensures Copied(Copied(g, Wholes(g, sels), |sels| - 1), Keys(sels), |sels| - 1)[i] == Copied(g, Keys(sels), |sels| - 1)[i]
  {
    hide AllValidated, Whole, Copied, AllFragments, Slotted;
    var n, ws, ks := |sels|, Wholes(g, sels), Keys(sels);
    WholesAreFragments(g, sels);
    FragmentsAreSlotted(g, ws);
    FragmentsAreSlotted(g, ks);
    forall m | 0 <= m < n - 1 ensures i != ws[m].falseOp && i != ks[m].falseOp {
      SelectorNodes(g, sels, m);
    }
    CopiedElsewhere(Copied(g, ws, n - 1), ks, n - 1, i);
    CopiedElsewhere(g, ks, n - 1, i);
    CopiedElsewhere(g, ws, n - 1, i);
  }

  lemma OneValidated(g: seq<OpNode>, sels: seq<Selector>, m: nat)
    requires AllValidated(g, sels) && m < |sels|
    ensures Validated(g, sels[m])
  {
    hide Validated, Whole;
    assert sels[m] in sels;
  }

  lemma KeyOpInside(g: seq<OpNode>, x: Selector)
    requires Validated(g, x)
    ensures 0 <= x.keyOp < |g| && x.keyOp in Whole(g, x).rank && x.keyOp != x.falseOp && KeyPiece(x).root == x.keyOp
  {
    hide IsFragment, Whole;
    WholeIsFragment(g, x);
    RootInside(g, KeyPiece(x));
    RootsDiffer(g, KeyPiece(x));
  }

  /** A selector's first key op is not overwritten. */
  lemma KeyOpStays(g: seq<OpNode>, sels: seq<Selector>, m: nat)
    requires AllValidated(g, sels) && m < |sels|
    ensures Keys(sels)[m].root == sels[m].keyOp && 0 <= sels[m].keyOp < |g|
    ensures Copied(g, Wholes(g, sels), |sels| - 1)[sels[m].keyOp] == g[sels[m].keyOp]
  {
    hide Validated, Whole, Copied, IsFragment, AllValidated, Wholes;
    OneValidated(g, sels, m);
    KeyOpInside(g, sels[m]);
    StillOriginal(g, sels, |sels| - 1, m, sels[m].keyOp);
  }

  lemma KeyUncopied(g: seq<OpNode>, h: seq<OpNode>, sels: seq<Selector>, k: nat)
    requires AllValidated(g, sels) && k + 1 < |sels| && |h| == |g|
    ensures 0 <= sels[k + 1].keyOp < |g| && Copied(h, Keys(sels), k)[sels[k + 1].keyOp] == h[sels[k + 1].keyOp]
  {
    hide AllValidated, Whole, IsFragment, Disjoint, AllFragments, Slotted, Copied;
    SelectorNodes(g, sels, k + 1);
    WholesAreFragments(g, sels);
    FragmentsAreSlotted(g, Keys(sels));
    var key := sels[k + 1].keyOp;
    forall a | 0 <= a < k ensures key != Keys(sels)[a].falseOp {
      KeyNoFalseOp(g, sels, a, k + 1);
    }
    CopiedElsewhere(h, Keys(sels), k, key);
  }

  /** One round of the second loop */
  lemma RecopyStep(g: seq<OpNode>, sels: seq<Selector>, k: nat)
    requires AllValidated(g, sels) && k + 1 < |sels|
    ensures var h0 := Copied(g, Wholes(g, sels), |sels| - 1);
            var h := Copied(h0, Keys(sels), k);
            && |h| == |g| && 0 <= sels[k].falseOp < |g| && 0 <= sels[k + 1].keyOp < |g|
            && Copied(h0, Keys(sels), k + 1) == h[sels[k].falseOp := h[sels[k + 1].keyOp]]
  {
    hide AllValidated, Whole;
    SelectorNodes(g, sels, k);
    SelectorNodes(g, sels, k + 1);
    KeyUncopied(g, Copied(g, Wholes(g, sels), |sels| - 1), sels, k);
  }

  lemma KeyNoFalseOp(g: seq<OpNode>, sels: seq<Selector>, a: nat, m: nat)
    requires AllValidated(g, sels) && a < |sels| && m < |sels| && a != m
    ensures sels[m].keyOp != Keys(sels)[a].falseOp
  {
    WholesAreFragments(g, sels);
    FalseOpInside(g, Keys(sels), a);
    FalseOpInside(g, Keys(sels), m);
    Apart(Keys(sels), m, a, sels[m].keyOp);
  }

  // ---------------------------------------------------------------- group after group

  /** In each group of selectors with the same types, the first has clauses or no later one starts with a check. */
  ghost predicate GroupsHaveBranch(g: seq<OpNode>, sels: seq<Selector>)
    decreases |sels|
  {
    sels == [] || (FewerRemain(sels); FirstHasBranch(g, Group(sels)) && GroupsHaveBranch(g, Others(sels)))
  }

  lemma OtherValidated(g: seq<OpNode>, typeOp: int, sels: seq<Selector>, x: Selector)
    requires sels != [] && AllValidated(g, sels) && Group(sels) != [] && x in Others(sels) && x in sels
    requires forall y :: y in sels ==> typeOp !in Whole(g, y).rank
    requires Group(sels)[|Group(sels)| - 1] in sels && Group(sels)[|Group(sels)| - 1] != x
    ensures var g', last := GroupLinked(g, typeOp, sels), Group(sels)[|Group(sels)| - 1];
            && |g'| == |g| && Validated(g', x) && Whole(g', x) == Whole(g, x) && NodeAt(g', x.op) == NodeAt(g, x.op)
            && last.falseOp !in Whole(g, x).rank && 0 <= last.falseOp < |g|
  {
    var last := Group(sels)[|Group(sels)| - 1];
    hide WithTypes, GroupLinked, Whole, Validated, Distinct, Group, Others;
    OthersUntouched(g, typeOp, sels);
    assert Validated(g, x) && Validated(g, last);
    ValidatedUntouched(g, GroupLinked(g, typeOp, sels), x);
    FalseExitInside(g, last);
    assert Whole(g, last).rank.Keys !! Whole(g, x).rank.Keys;
  }

  lemma FalseExitInside(g: seq<OpNode>, x: Selector)
    requires Validated(g, x)
    ensures x.falseOp in Whole(g, x).rank.Keys && 0 <= x.falseOp < |g|
  {
    WholeIsFragment(g, x);
    RootInside(g, Whole(g, x));
    hide Whole, IsFragment;
  }

  /** Linking one group leaves the other selectors as they were, ready for their turn. */
  lemma OthersValidated(g: seq<OpNode>, typeOp: int, sels: seq<Selector>)
    requires sels != [] && AllValidated(g, sels) && forall x :: x in sels ==> typeOp !in Whole(g, x).rank
    ensures Group(sels) != []
    ensures var g', end := GroupLinked(g, typeOp, sels), Group(sels)[|Group(sels)| - 1].falseOp;
            && |g'| == |g| && AllValidated(g', Others(sels)) && 0 <= end < |g|
            && forall x :: x in Others(sels) ==> NodeAt(g', x.op) == NodeAt(g, x.op) && end !in Whole(g', x).rank
  {
    hide WithTypes, GroupLinked, Whole, Validated, Distinct;
    FewerRemain(sels);
    PartValidated(g, sels, sels[0].acceptedTypes, false);
    WithTypesIsSelection(sels, sels[0].acceptedTypes, true);
    WithTypesIsSelection(sels, sels[0].acceptedTypes, false);
    var g', last := GroupLinked(g, typeOp, sels), Group(sels)[|Group(sels)| - 1];
    LinkedSize(g, Group(sels));
    GroupLinkedSize(g, typeOp, sels);
    assert last in sels && Validated(g, last);
    FalseExitInside(g, last);
    forall x | x in Others(sels)
      ensures Validated(g', x) && Whole(g', x) == Whole(g, x) && NodeAt(g', x.op) == NodeAt(g, x.op) && last.falseOp !in Whole(g, x).rank
    {
      OtherValidated(g, typeOp, sels, x);
    }
  }

  lemma GroupLinkedSize(g: seq<OpNode>, typeOp: int, sels: seq<Selector>)
    requires sels != [] && Group(sels) != []
    ensures |GroupLinked(g, typeOp, sels)| == |g|
  {
    LinkedSize(g, Group(sels));
    hide Linked, Group;
  }

  lemma {:induction false} BranchesStay(g: seq<OpNode>, g': seq<OpNode>, sels: seq<Selector>)
    requires forall x :: x in sels ==> NodeAt(g', x.op) == NodeAt(g, x.op)
    ensures GroupsHaveBranch(g', sels) <==> GroupsHaveBranch(g, sels)
    decreases |sels|
  {
    if sels != [] {
      FewerRemain(sels);
      WithTypesIsSelection(sels, sels[0].acceptedTypes, true);
      WithTypesIsSelection(sels, sels[0].acceptedTypes, false);
      hide WithTypes;
      BranchesStay(g, g', Others(sels));
    }
  }

  /** A graph with one more node */
  lemma ValidatedInLarger(g: seq<OpNode>, n: OpNode, sels: seq<Selector>)
    requires AllValidated(g, sels)
    ensures AllValidated(g + [n], sels) && forall x :: x in sels ==> |g| !in Whole(g + [n], x).rank && NodeAt(g + [n], x.op) == NodeAt(g, x.op)
  {
    hide Distinct;
    forall x | x in sels
      ensures Validated(g + [n], x) && Whole(g + [n], x) == Whole(g, x) && |g| !in Whole(g, x).rank && NodeAt(g + [n], x.op) == NodeAt(g, x.op)
    {
      assert Validated(g, x);
      OneInLarger(g, n, x);
    }
  }

  lemma OneInLarger(g: seq<OpNode>, n: OpNode, x: Selector)
    requires Validated(g, x)
    ensures Validated(g + [n], x) && Whole(g + [n], x) == Whole(g, x) && |g| !in Whole(g, x).rank && NodeAt(g + [n], x.op) == NodeAt(g, x.op)
  {
    RankInLarger(g, n, x.rank);
    hide Ranked;
  }

  lemma RankInLarger(g: seq<OpNode>, n: OpNode, rank: map<int, nat>)
    requires Ranked(g, rank)
    ensures Ranked(g + [n], rank) && forall i :: i in rank ==> 0 <= i < |g|
  {
    hide OperandOk, HasJump;
  }
}
