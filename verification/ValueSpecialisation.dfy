/** Specialising a graph of value ops to some kinds of tag values (src/match/MatcherValidator.cpp,
    cloneValueOp): what makes a copy a specialisation, as the graph grows. */
module ValueSpecialisation {
  import opened OpGraphs
  import opened ValueOps

  /** The ways through the specialised graph are the ways through the original one on which
      excluded ops count as unmatched. */
  ghost predicate Specialised(g: seq<OpNode>, rank: map<int, nat>, i: int, k: Kinds, g': seq<OpNode>, rank': map<int, nat>, i': int)
  {
    && ValueGraph(g, rank) && i in rank && ValueGraph(g', rank') && i' in rank'
    && rank'[i'] <= rank[i]
    && (forall test: Test {:trigger Exit(g', rank', test, i')} :: Exit(g', rank', test, i') == Exit(g, rank, Only(k, test), i))
    && (IsValueOp(g'[i'].opcode) <==> IsValueOp(g[FirstSuited(g, rank, k, i)].opcode))
  }

  lemma ExitIsSpecialised(g: seq<OpNode>, rank: map<int, nat>, i: int, k: Kinds)
    requires ValueGraph(g, rank) && i in rank && !IsValueOp(g[i].opcode)
    ensures Specialised(g, rank, i, k, g, rank, i)
  {
  }

  lemma SkippedIsSpecialised(g: seq<OpNode>, rank: map<int, nat>, i: int, k: Kinds, g': seq<OpNode>, rank': map<int, nat>, i': int)
    requires ValueGraph(g, rank) && i in rank && IsValueOp(g[i].opcode) && !Applies(g[i].opcode, k)
    requires Specialised(g, rank, g[i].Next(g[i].negated), k, g', rank', i')
    ensures Specialised(g, rank, i, k, g', rank', i')
  {
    ValueNext(g, rank, i, g[i].negated);
  }

  /** A specialisation survives further growth of the graph. */
  lemma SpecialisedStays(g: seq<OpNode>, rank: map<int, nat>, i: int, k: Kinds, g': seq<OpNode>, rank': map<int, nat>, i': int,
                         g'': seq<OpNode>, rank'': map<int, nat>)
    requires Specialised(g, rank, i, k, g', rank', i') && Extends(g', rank', g'', rank'')
    ensures i' in rank'' && Specialised(g, rank, i, k, g'', rank'', i')
  {
    forall test: Test ensures Exit(g'', rank'', test, i') == Exit(g, rank, Only(k, test), i) {
      ExitStays(g', rank', g'', rank'', test, i');
    }
  }

  /** A specialisation of a node's copy in a grown graph is one of the node. */
  lemma SpecialisedBefore(g0: seq<OpNode>, rank0: map<int, nat>, g: seq<OpNode>, rank: map<int, nat>, i: int, k: Kinds,
                          g': seq<OpNode>, rank': map<int, nat>, i': int)
    requires ValueGraph(g0, rank0) && i in rank0 && Extends(g0, rank0, g, rank)
    requires Specialised(g, rank, i, k, g', rank', i')
    ensures Specialised(g0, rank0, i, k, g', rank', i')
  {
    forall test: Test ensures Exit(g', rank', test, i') == Exit(g0, rank0, Only(k, test), i) {
      ExitStays(g0, rank0, g, rank, Only(k, test), i);
    }
    FirstSuitedStays(g0, rank0, g, rank, k, i);
    assert g0[FirstSuited(g0, rank0, k, i)] == g[FirstSuited(g0, rank0, k, i)];
  }

  /** A copy whose links are specialised is specialised. */
  lemma CopyIsSpecialised(g: seq<OpNode>, rank: map<int, nat>, i: int, k: Kinds, g': seq<OpNode>, rank': map<int, nat>, c: int)
    requires ValueGraph(g, rank) && i in rank && IsValueOp(g[i].opcode) && Applies(g[i].opcode, k)
    requires ValueGraph(g', rank') && c in rank' && rank'[c] == rank[i]
    requires g'[c] == g[i].(next0 := g'[c].next0, next1 := g'[c].next1)
    requires forall t: bool :: g[i].Next(t) in rank && g'[c].Next(t) in rank'
               && Specialised(g, rank, g[i].Next(t), k, g', rank', g'[c].Next(t))
    ensures Specialised(g, rank, i, k, g', rank', c)
  {
    forall test: Test ensures Exit(g', rank', test, c) == Exit(g, rank, Only(k, test), i) {
      var t := Takes(test, g'[c]);
      ValueNext(g, rank, i, t);
      assert Specialised(g, rank, g[i].Next(t), k, g', rank', g'[c].Next(t));
    }
  }

  /** A node outside the ranked ones may be written, and ranked once its links are. */
  lemma SlotWritten(g: seq<OpNode>, rank: map<int, nat>, c: int, n: OpNode)
    requires ValueGraph(g, rank) && 0 <= c < |g| && c !in rank
    ensures Extends(g, rank, g[c := n], rank) && ValueGraph(g[c := n], rank)
  {
    hide OperandOk, HasJump;
  }

  lemma SlotAdded(g: seq<OpNode>, rank: map<int, nat>, n: OpNode)
    requires ValueGraph(g, rank)
    ensures |g| !in rank && Extends(g, rank, g + [n], rank) && ValueGraph(g + [n], rank)
  {
    hide OperandOk, HasJump;
  }

  lemma NodeRanked(g: seq<OpNode>, rank: map<int, nat>, c: int, r: nat)
    requires ValueGraph(g, rank) && 0 <= c < |g| && c !in rank
    requires OperandOk(g[c]) && g[c].opcode <= RETURN && g[c].opcode != GOTO && g[c].opcode != NOP
    requires g[c].opcode != RETURN ==> g[c].next0 in rank && rank[g[c].next0] < r
    requires HasJump(g[c].opcode) ==> g[c].next1 in rank && rank[g[c].next1] < r
    ensures Extends(g, rank, g, rank[c := r])
  {
    hide OperandOk, HasJump;
  }

  lemma CopyIsRanked(g: seq<OpNode>, rank: map<int, nat>, c: int, n: OpNode, next0: int, next1: int, r: nat)
    requires ValueGraph(g, rank) && 0 <= c < |g| && c !in rank
    requires IsValueOp(n.opcode) && n.opcode != NOP && OperandOk(n)
    requires next0 in rank && rank[next0] < r && next1 in rank && rank[next1] < r
    ensures Extends(g, rank, g[c := n.(next0 := next0, next1 := next1)], rank[c := r])
  {
    var n' := n.(next0 := next0, next1 := next1);
    var g' := g[c := n'];
    SlotWritten(g, rank, c, n');
    assert ValueGraph(g', rank) && OperandOk(n');
    NodeRanked(g', rank, c, r);
    ExtendsTrans(g, rank, g', rank, g', rank[c := r]);
  }

  /** The copy of an op, made in the order of the source: copy, clone one branch, link, clone the other, link */
  lemma CopyMade(g0: seq<OpNode>, rank0: map<int, nat>, i: int, k: Kinds, c: int, g2: seq<OpNode>, rank2: map<int, nat>, op0: int,
                 g3: seq<OpNode>, g4: seq<OpNode>, rank4: map<int, nat>, op1: int, g5: seq<OpNode>)
    requires ValueGraph(g0, rank0) && i in rank0 && IsValueOp(g0[i].opcode) && Applies(g0[i].opcode, k)
    requires Extends(g0, rank0, g2, rank2) && Extends(g2, rank2, g3, rank2) && Extends(g3, rank2, g4, rank4)
    requires Specialised(g0, rank0, g0[i].next0, k, g2, rank2, op0) && Specialised(g3, rank2, g0[i].next1, k, g4, rank4, op1)
    requires 0 <= c < |g4| && c !in rank4 && g5 == g4[c := g0[i].(next0 := op0, next1 := op1)]
    ensures var rank5 := rank4[c := rank0[i]];
            Extends(g0, rank0, g5, rank5) && Specialised(g0, rank0, i, k, g5, rank5, c)
  {
    var rank5 := rank4[c := rank0[i]];
    ValueNext(g0, rank0, i, false);
    ValueNext(g0, rank0, i, true);
    ExtendsTrans(g0, rank0, g2, rank2, g3, rank2);
    ExtendsTrans(g2, rank2, g3, rank2, g4, rank4);
    ExtendsTrans(g0, rank0, g2, rank2, g4, rank4);
    SpecialisedStays(g0, rank0, g0[i].next0, k, g2, rank2, op0, g4, rank4);
    SpecialisedBefore(g0, rank0, g3, rank2, g0[i].next1, k, g4, rank4, op1);
    assert rank4[op0] < rank0[i] && rank4[op1] < rank0[i];
    CopyIsRanked(g4, rank4, c, g0[i], op0, op1, rank0[i]);
    SpecialisedStays(g0, rank0, g0[i].next0, k, g4, rank4, op0, g5, rank5);
    SpecialisedStays(g0, rank0, g0[i].next1, k, g4, rank4, op1, g5, rank5);
    ExtendsTrans(g0, rank0, g4, rank4, g5, rank5);
    CopyIsSpecialised(g0, rank0, i, k, g5, rank5, c);
  }

  /** Ranks are given to new nodes only. */
  ghost predicate RanksNew(rank: map<int, nat>, rank': map<int, nat>, size: nat) {
    forall j :: j in rank' && j < size ==> j in rank
  }
}
