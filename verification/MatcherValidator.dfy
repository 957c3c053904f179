/** Specialising the value ops of a clause to the types of tag values, and the load ops that
    dispatch on the type (src/match/MatcherValidator.cpp). */
module MatcherValidators {
  import opened OpGraphs
  import opened ValueOps
  import opened ValueSpecialisation
  import opened ValueDispatch

  class MatcherValidator {
    const graph: OpGraph

    constructor (graph: OpGraph)
      ensures this.graph == graph
    {
      this.graph := graph;
    }

    /** Copies the ops that the flags do not exclude; an excluded op gives way to its unmatched branch. */
    method CloneValueOp(valOp: int, k: Kinds, ghost rank: map<int, nat>) returns (op: int, ghost rank': map<int, nat>)
      requires ValueGraph(graph.nodes, rank) && valOp in rank
      modifies graph`nodes
      ensures old(graph.nodes) <= graph.nodes && Extends(old(graph.nodes), rank, graph.nodes, rank')
      ensures RanksNew(rank, rank', |old(graph.nodes)|) && ValueGraph(graph.nodes, rank') && op in rank'
      ensures Specialised(old(graph.nodes), rank, valOp, k, graph.nodes, rank', op)
      decreases rank[valOp]
    {
      hide Specialised, Extends, ValueGraph, Ranked;
      ghost var g0 := graph.nodes;
      InGraph(g0, rank, valOp);
      var n := graph.nodes[valOp];
      if !IsValueOp(n.opcode) {
        ExitIsSpecialised(graph.nodes, rank, valOp, k);
        ExtendsSelf(graph.nodes, rank);
        return valOp, rank;
      }
      ValueNext(graph.nodes, rank, valOp, false);
      ValueNext(graph.nodes, rank, valOp, true);
      if Applies(n.opcode, k) {
        SlotAdded(g0, rank, n);
        op := graph.Alloc(n);
        ghost var g1 := graph.nodes;
        var op0, op1;
        ghost var rank2;
        op0, rank2 := CloneValueOp(n.next0, k, rank);
        ghost var g2 := graph.nodes;
        ExtendsTrans(g0, rank, g1, rank, g2, rank2);
        Ranks(g0, rank, g2, rank2);
        SpecialisedBefore(g0, rank, g1, rank, n.next0, k, g2, rank2, op0);
        graph.nodes := graph.nodes[op := graph.nodes[op].(next0 := op0)];
        ghost var g3 := graph.nodes;
        SlotWritten(g2, rank2, op, g3[op]);
        op1, rank' := CloneValueOp(n.next1, k, rank2);
        ghost var g4 := graph.nodes;
        graph.nodes := graph.nodes[op := graph.nodes[op].(next1 := op1)];
        CopyMade(g0, rank, valOp, k, op, g2, rank2, op0, g3, g4, rank', op1, graph.nodes);
        rank' := rank'[op := rank[valOp]];
      } else {
        op, rank' := CloneValueOp(n.Next(n.negated), k, rank);
        SkippedIsSpecialised(g0, rank, valOp, k, graph.nodes, rank', op);
      }
    }

    /** Follows the branches that ops take when they do not match, up to the first that is not a value op. */
    method FindWrongTypeOp(firstValueOp: int, ghost rank: map<int, nat>) returns (wrongTypeOp: int)
      requires ValueGraph(graph.nodes, rank) && 0 <= firstValueOp < |graph.nodes|
      requires graph.nodes[firstValueOp].Next(graph.nodes[firstValueOp].negated) in rank
      ensures wrongTypeOp == Exit(graph.nodes, rank, NEVER, graph.nodes[firstValueOp].Next(graph.nodes[firstValueOp].negated))
    {
      ghost var start := graph.nodes[firstValueOp].Next(graph.nodes[firstValueOp].negated);
      wrongTypeOp := graph.nodes[firstValueOp].Next(graph.nodes[firstValueOp].negated);
      hide Ranked, ValueGraph;
      InGraph(graph.nodes, rank, wrongTypeOp);
      while IsValueOp(graph.nodes[wrongTypeOp].opcode)
        invariant wrongTypeOp in rank && 0 <= wrongTypeOp < |graph.nodes|
        invariant Exit(graph.nodes, rank, NEVER, wrongTypeOp) == Exit(graph.nodes, rank, NEVER, start)
        decreases rank[wrongTypeOp]
      {
        ValueNext(graph.nodes, rank, wrongTypeOp, graph.nodes[wrongTypeOp].negated);
        wrongTypeOp := graph.nodes[wrongTypeOp].Next(graph.nodes[wrongTypeOp].negated);
        InGraph(graph.nodes, rank, wrongTypeOp);
      }
    }

    /** The load op of a stage, in front of the ops that test what it loads. Values of other types go on to
        the load ops made before, or to what findWrongTypeOp finds from the head. */
    method LinkLoad(stage: nat, nextOp: int, head: int, ghost rank: map<int, nat>) returns (loadOp: int)
      requires ValueGraph(graph.nodes, rank) && 0 <= head < |graph.nodes|
      requires nextOp == NULL ==> graph.nodes[head].Next(graph.nodes[head].negated) in rank
      modifies graph`nodes
      ensures loadOp == |old(graph.nodes)|
      ensures graph.nodes == old(graph.nodes) + [NewOp(LoadOp(stage), Rest(old(graph.nodes), rank, nextOp, head), head)]
    {
      var rest := nextOp;
      if nextOp == NULL {
        rest := FindWrongTypeOp(head, rank);
      }
      loadOp := graph.Alloc(NewOp(LoadOp(stage), rest, head));
    }

    /** Clones the clause's ops for the values of a stage. */
    method CloneFor(ghost stage: nat, k: Kinds, ghost nextOp: int, ghost g: seq<OpNode>, ghost rank: map<int, nat>, ghost ops: set<int>,
                    ghost kinds: Kinds, valOp: int, ghost rank1: map<int, nat>)
      returns (op: int, ghost rank2: map<int, nat>)
      requires Clause(g, rank, ops, kinds, valOp) && Extends(g, rank, graph.nodes, rank1) && RanksNew(rank, rank1, |g|)
      requires Dispatches(g, rank, valOp, stage, graph.nodes, rank1, nextOp)
      modifies graph`nodes
      ensures old(graph.nodes) <= graph.nodes && Extends(g, rank, graph.nodes, rank2) && RanksNew(rank, rank2, |g|)
      ensures Dispatches(g, rank, valOp, stage, graph.nodes, rank2, nextOp)
      ensures Specialised(g, rank, valOp, k, graph.nodes, rank2, op)
      ensures ValueGraph(graph.nodes, rank2) && op in rank2 && rank2[op] <= rank[valOp] && 0 <= op < |graph.nodes|
      ensures IsValueOp(graph.nodes[op].opcode) <==> IsValueOp(g[FirstSuited(g, rank, k, valOp)].opcode)
    {
      hide Clause, Extends, Dispatches, Specialised, Ranked;
      ClauseIsGraph(g, rank, ops, kinds, valOp);
      Ranks(g, rank, graph.nodes, rank1);
      ghost var g1 := graph.nodes;
      op, rank2 := CloneValueOp(valOp, k, rank1);
      ExtendsTrans(g, rank, g1, rank1, graph.nodes, rank2);
      DispatchesStays(g, rank, valOp, stage, g1, rank1, nextOp, graph.nodes, rank2);
      SpecialisedBefore(g, rank, g1, rank1, valOp, k, graph.nodes, rank2, op);
      SpecialisedRank(g, rank, valOp, k, graph.nodes, rank2, op);
    }

    /** A STR_TO_NUM that goes on to `op` either way, or a CODE_TO_STR, in front of a clone */
    method Convert(opcode: nat, op: int, ghost cloned: int, ghost k: Kinds, ghost r: nat, ghost stage: nat, ghost nextOp: int, ghost g: seq<OpNode>, ghost rank: map<int, nat>,
                   ghost i: int, ghost rank1: map<int, nat>)
      returns (c: int, ghost rank2: map<int, nat>)
      requires opcode == STR_TO_NUM || opcode == CODE_TO_STR
      requires Extends(g, rank, graph.nodes, rank1) && RanksNew(rank, rank1, |g|) && Dispatches(g, rank, i, stage, graph.nodes, rank1, nextOp)
      requires Specialised(g, rank, i, k, graph.nodes, rank1, cloned)
      requires op in rank1 && rank1[op] < r && ValueGraph(graph.nodes, rank1)
      modifies graph`nodes
      ensures graph.nodes == old(graph.nodes) + [NewOp(opcode, op, if opcode == STR_TO_NUM then op else NULL)]
      ensures c == |old(graph.nodes)| && rank2 == rank1[c := r] && Extends(old(graph.nodes), rank1, graph.nodes, rank2)
      ensures Extends(g, rank, graph.nodes, rank2) && RanksNew(rank, rank2, |g|) && Dispatches(g, rank, i, stage, graph.nodes, rank2, nextOp)
      ensures Specialised(g, rank, i, k, graph.nodes, rank2, cloned) && ValueGraph(graph.nodes, rank2)
      ensures Converts(graph.nodes[c], op)
    {
      hide Extends, Dispatches, Specialised, Ranked, ValueGraph;
      GraphGrown(g, rank, graph.nodes, rank1);
      var next1 := if opcode == STR_TO_NUM then op else NULL;
      NodeAppended(graph.nodes, rank1, opcode, op, next1, r);
      ghost var g1 := graph.nodes;
      c := graph.Alloc(NewOp(opcode, op, next1));
      rank2 := rank1[c := r];
      Ranks(g1, rank1, graph.nodes, rank2);
      ExtendsTrans(g, rank, g1, rank1, graph.nodes, rank2);
      DispatchesStays(g, rank, i, stage, g1, rank1, nextOp, graph.nodes, rank2);
      SpecialisedStays(g, rank, i, k, g1, rank1, cloned, graph.nodes, rank2);
    }

    method AddNumberPath(kinds: Kinds, valOp: int, ghost g: seq<OpNode>, ghost rank: map<int, nat>, ghost ops: set<int>, ghost rank1: map<int, nat>)
      returns (nextOp: int, ghost rank2: map<int, nat>)
      requires Clause(g, rank, ops, kinds, valOp) && Extends(g, rank, graph.nodes, rank1) && RanksNew(rank, rank1, |g|)
      modifies graph`nodes
      ensures old(graph.nodes) <= graph.nodes && Extends(g, rank, graph.nodes, rank2) && RanksNew(rank, rank2, |g|)
      ensures Dispatches(g, rank, valOp, 1, graph.nodes, rank2, nextOp)
      ensures nextOp == NULL <==> !kinds.number || !IsValueOp(g[FirstSuited(g, rank, NUMBER_OPS, valOp)].opcode)
    {
      hide Clause, Extends, Dispatches, Specialised, Ranked, Carries;
      ClauseIsGraph(g, rank, ops, kinds, valOp);
      GraphGrown(g, rank, graph.nodes, rank1);
      NothingServed(g, rank, valOp, graph.nodes, rank1);
      nextOp, rank2 := NULL, rank1;
      if kinds.number {
        var op;
        op, rank2 := CloneFor(0, NUMBER_OPS, NULL, g, rank, ops, kinds, valOp, rank1);
        if IsValueOp(graph.nodes[op].opcode) {
          NumberCarried(g, rank, ops, kinds, valOp, graph.nodes, rank2, op);
          ClonedFindsWrongType(g, rank, valOp, NUMBER_OPS, graph.nodes, rank2, op);
          LoadLinked(g, rank, ops, kinds, valOp, 1, graph.nodes, rank2, NULL, op);
          nextOp := LinkLoad(1, NULL, op, rank2);
          rank2 := rank2[nextOp := rank[valOp] + 1];
          return;
        }
      }
      StageSkipped(g, rank, ops, kinds, valOp, 1, NUMBER_OPS, graph.nodes, rank2, NULL);
    }

    method AddStringPath(nextOp: int, kinds: Kinds, valOp: int, ghost g: seq<OpNode>, ghost rank: map<int, nat>, ghost ops: set<int>,
                         ghost rank1: map<int, nat>)
      returns (next: int, ghost rank2: map<int, nat>)
      requires Clause(g, rank, ops, kinds, valOp) && Extends(g, rank, graph.nodes, rank1) && RanksNew(rank, rank1, |g|)
      requires Dispatches(g, rank, valOp, 1, graph.nodes, rank1, nextOp)
      modifies graph`nodes
      ensures old(graph.nodes) <= graph.nodes && Extends(g, rank, graph.nodes, rank2) && RanksNew(rank, rank2, |g|)
      ensures Dispatches(g, rank, valOp, 2, graph.nodes, rank2, next)
      ensures next == NULL <==> nextOp == NULL && (!(kinds.local || kinds.text || kinds.number)
                                || !IsValueOp(g[FirstSuited(g, rank, STRING_OPS, valOp)].opcode))
    {
      hide Clause, Extends, Dispatches, Specialised, Ranked, Carries, FindsWrongType;
      ClauseIsGraph(g, rank, ops, kinds, valOp);
      GraphGrown(g, rank, graph.nodes, rank1);
      rank2 := rank1;
      if kinds.local || kinds.text || kinds.number {
        var op;
        op, rank2 := CloneFor(1, STRING_OPS, nextOp, g, rank, ops, kinds, valOp, rank1);
        if IsValueOp(graph.nodes[op].opcode) {
          var head := op;
          if kinds.number {
            head, rank2 := Convert(STR_TO_NUM, op, op, STRING_OPS, rank[valOp] + 1, 1, nextOp, g, rank, valOp, rank2);
            ConversionFindsWrongType(g, rank, valOp, STRING_OPS, graph.nodes, rank2, op, head);
          } else {
            ClonedFindsWrongType(g, rank, valOp, STRING_OPS, graph.nodes, rank2, op);
          }
          StringCarried(g, rank, ops, kinds, valOp, graph.nodes, rank2, op, head);
          LoadLinked(g, rank, ops, kinds, valOp, 2, graph.nodes, rank2, nextOp, head);
          next := LinkLoad(2, nextOp, head, rank2);
          rank2 := rank2[next := rank[valOp] + 2];
          return;
        }
      }
      next := nextOp;
      StageSkipped(g, rank, ops, kinds, valOp, 2, STRING_OPS, graph.nodes, rank2, nextOp);
    }

    method AddCodePath(nextOp: int, kinds: Kinds, valOp: int, ghost g: seq<OpNode>, ghost rank: map<int, nat>, ghost ops: set<int>,
                       ghost rank1: map<int, nat>)
      returns (next: int, ghost rank2: map<int, nat>)
      requires Clause(g, rank, ops, kinds, valOp) && Extends(g, rank, graph.nodes, rank1) && RanksNew(rank, rank1, |g|)
      requires Dispatches(g, rank, valOp, 2, graph.nodes, rank1, nextOp)
      modifies graph`nodes
      ensures old(graph.nodes) <= graph.nodes && Extends(g, rank, graph.nodes, rank2) && RanksNew(rank, rank2, |g|)
      ensures !(nextOp == NULL && kinds.number) ==> Dispatches(g, rank, valOp, 3, graph.nodes, rank2, next)
      ensures nextOp == NULL && kinds.number && next != NULL ==> StrayRoutes(g, rank, valOp, graph.nodes, rank2, next)
      ensures next == NULL <==> nextOp == NULL && (!(kinds.global || kinds.text || kinds.number)
                                || !IsValueOp(g[FirstSuited(g, rank, CODE_OPS, valOp)].opcode))
    {
      hide Clause, Extends, Dispatches, Specialised, Ranked, Carries, FindsWrongType, StrayRoutes;
      ClauseIsGraph(g, rank, ops, kinds, valOp);
      GraphGrown(g, rank, graph.nodes, rank1);
      rank2 := rank1;
      if kinds.global || kinds.text || kinds.number {
        var op;
        op, rank2 := CloneFor(2, CODE_OPS, nextOp, g, rank, ops, kinds, valOp, rank1);
        if IsValueOp(graph.nodes[op].opcode) {
          var toNum := op;
          if kinds.number {
            toNum, rank2 := Convert(STR_TO_NUM, op, op, CODE_OPS, rank[valOp] + 1, 2, nextOp, g, rank, valOp, rank2);
          }
          var head := toNum;
          if kinds.text || kinds.number {
            head, rank2 := Convert(CODE_TO_STR, toNum, op, CODE_OPS, rank[valOp] + 2, 2, nextOp, g, rank, valOp, rank2);
          }
          CodeCarried(g, rank, ops, kinds, valOp, graph.nodes, rank2, op, toNum, head);
          CodeLinked(g, rank, ops, kinds, valOp, graph.nodes, rank2, nextOp, op, toNum, head);
          next := LinkLoad(3, nextOp, head, rank2);
          rank2 := rank2[next := rank[valOp] + 3];
          return;
        }
      }
      next := nextOp;
      StageSkipped(g, rank, ops, kinds, valOp, 3, CODE_OPS, graph.nodes, rank2, nextOp);
    }

    /** A path for each type of value: afterwards, whatever the tag's value, the engine leaves the value part
        exactly where the clause leads when ops of other types count as unmatched. */
    method CreateMultiTypeLoadOps(kinds: Kinds, valOp: int, ghost g: seq<OpNode>, ghost rank: map<int, nat>, ghost ops: set<int>)
      returns (loadOp: int, ghost rank': map<int, nat>)
      requires g == graph.nodes && Clause(g, rank, ops, kinds, valOp)
      modifies graph`nodes
      ensures g <= graph.nodes && Extends(g, rank, graph.nodes, rank') && RanksNew(rank, rank', |g|)
      ensures if Astray(g, rank, kinds, valOp) then StrayRoutes(g, rank, valOp, graph.nodes, rank', loadOp)
              else Routes(g, rank, valOp, 3, graph.nodes, rank', loadOp)
      ensures LeadsLike(g, rank, valOp, graph.nodes, rank', loadOp) <==> !Astray(g, rank, kinds, valOp) || NoCodeMatches(g, rank, valOp)
    {
      hide Clause, Extends, Ranked, StrayRoutes, Routes, Settled, LeadsLike, NoCodeMatches;
      ClauseIsGraph(g, rank, ops, kinds, valOp);
      ExtendsSelf(g, rank);
      FewerSuited(g, rank, NUMBER_OPS, STRING_OPS, valOp);
      loadOp, rank' := AddNumberPath(kinds, valOp, g, rank, ops, rank);
      loadOp, rank' := AddStringPath(loadOp, kinds, valOp, g, rank, ops, rank');
      assert loadOp == NULL && kinds.number <==> Astray(g, rank, kinds, valOp);
      loadOp, rank' := AddCodePath(loadOp, kinds, valOp, g, rank, ops, rank');
      assert loadOp != NULL;
      if !Astray(g, rank, kinds, valOp) {
        RoutesAllValues(g, rank, valOp, graph.nodes, rank', loadOp);
      }
      DispatchIsRight(g, rank, ops, kinds, valOp, graph.nodes, rank', loadOp);
    }

    /** The common kinds of clauses get fewer ops: only codes, only local strings, only numbers. */
    method CreateLoadOps(kinds: Kinds, complex: bool, firstValueOp: int, ghost g: seq<OpNode>, ghost rank: map<int, nat>, ghost ops: set<int>)
      returns (loadOp: int, ghost rank': map<int, nat>)
      requires g == graph.nodes && Clause(g, rank, ops, kinds, firstValueOp)
      modifies graph`nodes
      ensures g <= graph.nodes && Extends(g, rank, graph.nodes, rank') && RanksNew(rank, rank', |g|)
      ensures if Astray(g, rank, kinds, firstValueOp) then StrayRoutes(g, rank, firstValueOp, graph.nodes, rank', loadOp)
              else LeadsLike(g, rank, firstValueOp, graph.nodes, rank', loadOp)
      ensures LeadsLike(g, rank, firstValueOp, graph.nodes, rank', loadOp)
              <==> !Astray(g, rank, kinds, firstValueOp) || NoCodeMatches(g, rank, firstValueOp)
    {
      hide Clause, Extends, Ranked, StrayRoutes, Routes, Settled, LeadsLike, FindsWrongType, Carries, NoCodeMatches;
      ClauseIsGraph(g, rank, ops, kinds, firstValueOp);
      ExtendsSelf(g, rank);
      FirstOpIsSuited(g, rank, ops, kinds, firstValueOp);
      if kinds == JUST_CODES && !complex {
        CodeClause(g, rank, ops, firstValueOp);
        LoadLinked(g, rank, ops, kinds, firstValueOp, 3, g, rank, NULL, firstValueOp);
        var wrongTypeOp := FindWrongTypeOp(firstValueOp, rank);
        loadOp := graph.Alloc(NewOp(LOAD_CODE, wrongTypeOp, firstValueOp));
        rank' := rank[loadOp := rank[firstValueOp] + 3];
        RoutesAllValues(g, rank, firstValueOp, graph.nodes, rank', loadOp);
      } else if kinds == JUST_STRINGS && !complex {
        StringClause(g, rank, ops, firstValueOp);
        LoadLinked(g, rank, ops, kinds, firstValueOp, 2, g, rank, NULL, firstValueOp);
        var wrongTypeOp := FindWrongTypeOp(firstValueOp, rank);
        loadOp := graph.Alloc(NewOp(LOAD_STRING, wrongTypeOp, firstValueOp));
        rank' := rank[loadOp := rank[firstValueOp] + 2];
        StageSkipped(g, rank, ops, kinds, firstValueOp, 3, CODE_OPS, graph.nodes, rank', loadOp);
        RoutesAllValues(g, rank, firstValueOp, graph.nodes, rank', loadOp);
      } else if kinds == NUMBER_OPS && !complex {
        NumberClause(g, rank, ops, firstValueOp);
        var wrongTypeOp := FindWrongTypeOp(firstValueOp, rank);
        var strToNumOp := graph.Alloc(NewOp(STR_TO_NUM, wrongTypeOp, firstValueOp));
        var codeToStrOp := graph.Alloc(NewOp(CODE_TO_STR, strToNumOp, NULL));
        var loadCodeOp := graph.Alloc(NewOp(LOAD_CODE, wrongTypeOp, codeToStrOp));
        var loadStringOp := graph.Alloc(NewOp(LOAD_STRING, loadCodeOp, strToNumOp));
        loadOp := graph.Alloc(NewOp(LOAD_NUM, loadStringOp, firstValueOp));
        assert graph.nodes == NumberChain(g, firstValueOp, wrongTypeOp);
        rank' := NumberChainRanks(rank, |g|, firstValueOp);
      } else {
        loadOp, rank' := CreateMultiTypeLoadOps(kinds, firstValueOp, g, rank, ops);
        if !Astray(g, rank, kinds, firstValueOp) {
          RoutesAllValues(g, rank, firstValueOp, graph.nodes, rank', loadOp);
        }
      }
      DispatchIsRight(g, rank, ops, kinds, firstValueOp, graph.nodes, rank', loadOp);
    }

    /** Puts the load ops between a clause's key op and its value ops. */
    method InsertLoadOps(keyOp: int, kinds: Kinds, complex: bool, ghost rank: map<int, nat>, ghost ops: set<int>)
      returns (ghost rank': map<int, nat>)
      requires 0 <= keyOp < |graph.nodes| && keyOp !in rank
      requires Clause(graph.nodes, rank, ops, kinds, graph.nodes[keyOp].Next(!graph.nodes[keyOp].negated))
      modifies graph`nodes
      ensures LoadsInserted(old(graph.nodes), rank, keyOp, kinds, old(graph.nodes[keyOp].Next(!graph.nodes[keyOp].negated)),
                            graph.nodes, rank')
      ensures var n := old(graph.nodes[keyOp]);
              var first := n.Next(!n.negated);
              LeadsLike(old(graph.nodes), rank, first, graph.nodes, rank', graph.nodes[keyOp].Next(!n.negated))
              <==> !Astray(old(graph.nodes), rank, kinds, first) || NoCodeMatches(old(graph.nodes), rank, first)
    {
      hide Clause, Extends, Ranked, StrayRoutes, LeadsLike, LoadsInserted, NoCodeMatches, Astray;
      ghost var g := graph.nodes;
      var n := graph.nodes[keyOp];
      var firstValueOp := n.Next(!n.negated);
      var loadOp;
      loadOp, rank' := CreateLoadOps(kinds, complex, firstValueOp, g, rank, ops);
      KeyRelinked(g, rank, keyOp, kinds, firstValueOp, graph.nodes, rank', loadOp);
      graph.nodes := graph.nodes[keyOp := if n.negated then n.(next0 := loadOp) else n.(next1 := loadOp)];
      InsertedIsRight(g, rank, ops, keyOp, kinds, graph.nodes, rank');
    }
  }

  lemma InsertedIsRight(g: seq<OpNode>, rank: map<int, nat>, ops: set<int>, keyOp: int, kinds: Kinds, g': seq<OpNode>, rank': map<int, nat>)
    requires 0 <= keyOp < |g| && Clause(g, rank, ops, kinds, g[keyOp].Next(!g[keyOp].negated))
    requires LoadsInserted(g, rank, keyOp, kinds, g[keyOp].Next(!g[keyOp].negated), g', rank')
    ensures var first := g[keyOp].Next(!g[keyOp].negated);
            |g'| > keyOp && (LeadsLike(g, rank, first, g', rank', g'[keyOp].Next(!g[keyOp].negated))
                             <==> !Astray(g, rank, kinds, first) || NoCodeMatches(g, rank, first))
  {
    hide Clause, LeadsLike, StrayRoutes, Astray, NoCodeMatches, Extends;
    var first := g[keyOp].Next(!g[keyOp].negated);
    DispatchIsRight(g, rank, ops, kinds, first, g', rank', g'[keyOp].Next(!g[keyOp].negated));
  }

  lemma FirstOpIsSuited(g: seq<OpNode>, rank: map<int, nat>, ops: set<int>, kinds: Kinds, i: int)
    requires Clause(g, rank, ops, kinds, i)
    ensures g[i].Next(g[i].negated) in rank && 0 <= i < |g| && !(kinds == JUST_CODES && Astray(g, rank, kinds, i))
    ensures kinds == NUMBER_OPS ==> !Astray(g, rank, kinds, i)
    ensures WrongType(g, rank, i) == Exit(g, rank, NEVER, g[i].Next(g[i].negated))
  {
    ValueNext(g, rank, i, g[i].negated);
  }
}
