/** The value ops of a tag clause (src/match/TagClause.cpp, OPCODE_VALUE_TYPES): which of them apply
    to which kind of tag value, and where a graph of value ops leads. */
module ValueOps {
  import opened OpGraphs

  /** A set of the VALUE_* flags */
  datatype Kinds = Kinds(global: bool, local: bool, text: bool, number: bool)

  const NUMBER_OPS: Kinds := Kinds(false, false, false, true)
  const STRING_OPS: Kinds := Kinds(false, true, true, true)
  const CODE_OPS: Kinds := Kinds(true, false, true, true)

  predicate IsValueOp(op: nat) { op <= GT }

  /** The op's OPCODE_VALUE_TYPES meet the flags. */
  predicate Applies(op: nat, k: Kinds) {
    (op == EQ_CODE && k.global) || (op == EQ_STR && k.local) || (STARTS_WITH <= op <= REGEX && k.text)
    || (EQ_NUM <= op <= GT && k.number)
  }

  /** Whether the test of an op with this opcode and operand holds; a negated op then continues the other way */
  type Test = (nat, Operand) -> bool

  const NEVER: Test := (op: nat, operand: Operand) => false

  /** The test, with ops that the flags exclude treated as unmatched */
  function Only(k: Kinds, test: Test): Test {
    (op: nat, operand: Operand) => Applies(op, k) && test(op, operand)
  }

  /** Which of its links the op continues with */
  function Takes(test: Test, n: OpNode): bool { test(n.opcode, n.operand) != n.negated }

  /** A ranked graph without NOPs */
  ghost predicate ValueGraph(g: seq<OpNode>, rank: map<int, nat>) {
    && Ranked(g, rank)
    && forall i :: i in rank ==> g[i].opcode != NOP
  }

  lemma InGraph(g: seq<OpNode>, rank: map<int, nat>, i: int)
    requires ValueGraph(g, rank) && i in rank
    ensures 0 <= i < |g| && g[i].opcode <= RETURN && g[i].opcode != NOP
  {
  }

  lemma ValueNext(g: seq<OpNode>, rank: map<int, nat>, i: int, t: bool)
    requires ValueGraph(g, rank) && i in rank && IsValueOp(g[i].opcode)
    ensures g[i].Next(t) in rank && rank[g[i].Next(t)] < rank[i]
  {
  }

  /** The first node on the way from `i` that is not a value op */
  ghost function Exit(g: seq<OpNode>, rank: map<int, nat>, test: Test, i: int): (e: int)
    requires ValueGraph(g, rank) && i in rank
    ensures e in rank && !IsValueOp(g[e].opcode)
    decreases rank[i]
  {
    if !IsValueOp(g[i].opcode) then i
    else
      ValueNext(g, rank, i, Takes(test, g[i]));
      Exit(g, rank, test, g[i].Next(Takes(test, g[i])))
  }

  /** The first op on the way from `i` that the flags do not exclude, or the exit */
  ghost function FirstSuited(g: seq<OpNode>, rank: map<int, nat>, k: Kinds, i: int): (f: int)
    requires ValueGraph(g, rank) && i in rank
    ensures f in rank && (IsValueOp(g[f].opcode) ==> Applies(g[f].opcode, k))
    decreases rank[i]
  {
    if !IsValueOp(g[i].opcode) || Applies(g[i].opcode, k) then i
    else
      ValueNext(g, rank, i, g[i].negated);
      FirstSuited(g, rank, k, g[i].Next(g[i].negated))
  }

  /** Skipping ops that are excluded does not change where the way leads. */
  lemma {:induction false} ExitFromFirstSuited(g: seq<OpNode>, rank: map<int, nat>, k: Kinds, test: Test, i: int)
    requires ValueGraph(g, rank) && i in rank
    ensures Exit(g, rank, Only(k, test), i) == Exit(g, rank, Only(k, test), FirstSuited(g, rank, k, i))
    decreases rank[i]
  {
    if IsValueOp(g[i].opcode) && !Applies(g[i].opcode, k) {
      ValueNext(g, rank, i, g[i].negated);
      ExitFromFirstSuited(g, rank, k, test, g[i].Next(g[i].negated));
    }
  }

  /** Value ops reachable from `i` without leaving the clause */
  ghost predicate ClauseOps(g: seq<OpNode>, rank: map<int, nat>, ops: set<int>) {
    forall j :: j in ops ==>
      && j in rank && 0 <= j < |g| && IsValueOp(g[j].opcode)
      && forall t: bool {:trigger g[j].Next(t)} ::
           g[j].Next(t) in ops || (g[j].Next(t) in rank && 0 <= g[j].Next(t) < |g| && !IsValueOp(g[g[j].Next(t)].opcode))
  }

  /** Tests that agree on the clause's ops lead to the same exit. */
  lemma {:induction false} ExitDependsOnTest(g: seq<OpNode>, rank: map<int, nat>, ops: set<int>, test: Test, test': Test, i: int)
    requires ValueGraph(g, rank) && i in rank && ClauseOps(g, rank, ops) && (IsValueOp(g[i].opcode) ==> i in ops)
    requires forall j :: j in ops ==> 0 <= j < |g| && test(g[j].opcode, g[j].operand) == test'(g[j].opcode, g[j].operand)
    ensures Exit(g, rank, test, i) == Exit(g, rank, test', i)
    decreases rank[i]
  {
    if IsValueOp(g[i].opcode) {
      var t := Takes(test, g[i]);
      ValueNext(g, rank, i, t);
      assert g[i].Next(t) in ops || !IsValueOp(g[g[i].Next(t)].opcode);
      ExitDependsOnTest(g, rank, ops, test, test', g[i].Next(t));
    }
  }

  // ---------------------------------------------------------------- a graph that grows

  /** The ranked nodes keep their content and their ranks. */
  ghost predicate Extends(g: seq<OpNode>, rank: map<int, nat>, g': seq<OpNode>, rank': map<int, nat>) {
    && |g| <= |g'| && ValueGraph(g', rank')
    && forall i :: i in rank ==> 0 <= i < |g| && g'[i] == g[i] && i in rank' && rank'[i] == rank[i]
  }

  lemma {:induction false} ExitStays(g: seq<OpNode>, rank: map<int, nat>, g': seq<OpNode>, rank': map<int, nat>, test: Test, i: int)
    requires ValueGraph(g, rank) && i in rank && Extends(g, rank, g', rank')
    ensures i in rank' && Exit(g', rank', test, i) == Exit(g, rank, test, i)
    decreases rank[i]
  {
    assert g[i] == g'[i];
    if IsValueOp(g[i].opcode) {
      ValueNext(g, rank, i, Takes(test, g[i]));
      ExitStays(g, rank, g', rank', test, g[i].Next(Takes(test, g[i])));
    }
  }

  lemma {:induction false} FirstSuitedStays(g: seq<OpNode>, rank: map<int, nat>, g': seq<OpNode>, rank': map<int, nat>, k: Kinds, i: int)
    requires ValueGraph(g, rank) && i in rank && Extends(g, rank, g', rank')
    ensures i in rank' && FirstSuited(g', rank', k, i) == FirstSuited(g, rank, k, i)
    decreases rank[i]
  {
    assert g[i] == g'[i];
    if IsValueOp(g[i].opcode) && !Applies(g[i].opcode, k) {
      ValueNext(g, rank, i, g[i].negated);
      FirstSuitedStays(g, rank, g', rank', k, g[i].Next(g[i].negated));
    }
  }

  lemma Ranks(g: seq<OpNode>, rank: map<int, nat>, g': seq<OpNode>, rank': map<int, nat>)
    requires Extends(g, rank, g', rank')
    ensures ValueGraph(g', rank') && |g| <= |g'| && forall i :: i in rank ==> 0 <= i < |g| && g'[i] == g[i] && i in rank' && rank'[i] == rank[i]
  {
  }

  lemma GraphGrown(g: seq<OpNode>, rank: map<int, nat>, g': seq<OpNode>, rank': map<int, nat>)
    requires Extends(g, rank, g', rank')
    ensures |g| <= |g'| && ValueGraph(g', rank')
  {
  }

  lemma ExtendsSelf(g: seq<OpNode>, rank: map<int, nat>)
    requires ValueGraph(g, rank)
    ensures Extends(g, rank, g, rank)
  {
  }

  lemma ExtendsTrans(g0: seq<OpNode>, rank0: map<int, nat>, g1: seq<OpNode>, rank1: map<int, nat>, g2: seq<OpNode>, rank2: map<int, nat>)
    requires Extends(g0, rank0, g1, rank1) && Extends(g1, rank1, g2, rank2)
    ensures Extends(g0, rank0, g2, rank2)
  {
  }
}
