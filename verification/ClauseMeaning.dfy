/** What inserting load ops means for the query: the engine's walk through a clause, and the one clause
    shape for which the load ops go wrong. */
module ClauseMeaning {
  import opened OpGraphs
  import opened ValueOps
  import opened ValueDispatch

  /** The engine's state holds the tag's value and the registers; its value part works as modelled. */
  ghost predicate Faithful<S(!new)>(eval: Meaning<S>, lib: Library, tag: S -> TagValue, regs: S -> Registers) {
    forall n: OpNode, s: S {:trigger eval(n.opcode, n.operand, s)} :: IsValuePart(n.opcode) ==>
      var (matched, s') := eval(n.opcode, n.operand, s);
      && tag(s') == tag(s) && regs(s') == Step(lib, tag(s), regs(s), n).1
      && (n.opcode != CODE_TO_STR ==> matched == Step(lib, tag(s), regs(s), n).0)
  }

  /** Walking the graph from the value part continues at the node where the value part is left. */
  lemma {:induction false} WalkThroughValuePart<S(!new)>(
      g: seq<OpNode>, rank: map<int, nat>, eval: Meaning<S>, lib: Library, tag: S -> TagValue, regs: S -> Registers, i: int, s: S)
    returns (s': S)
    requires ValueGraph(g, rank) && i in rank && Faithful(eval, lib, tag, regs)
    ensures Walk(g, rank, eval, i, s) == Walk(g, rank, eval, Run(g, rank, lib, tag(s), regs(s), i), s')
    decreases rank[i]
  {
    var n := g[i];
    s' := s;
    if IsValuePart(n.opcode) {
      var (matched, s1) := eval(n.opcode, n.operand, s);
      if n.opcode == CODE_TO_STR {
        s' := WalkThroughValuePart(g, rank, eval, lib, tag, regs, n.next0, s1);
      } else {
        s' := WalkThroughValuePart(g, rank, eval, lib, tag, regs, n.Next(matched != n.negated), s1);
      }
    }
  }

  /** The verdict of a clause that ends in RETURN ops is the one its value ops give for the tag's value,
      whatever its type and whatever the registers held before. */
  lemma VerdictOfClause<S(!new)>(
      g: seq<OpNode>, rank: map<int, nat>, first: int, g': seq<OpNode>, rank': map<int, nat>, loadOp: int,
      eval: Meaning<S>, lib: Library, tag: S -> TagValue, regs: S -> Registers, s: S)
    requires LeadsLike(g, rank, first, g', rank', loadOp) && Extends(g, rank, g', rank')
    requires Faithful(eval, lib, tag, regs)
    requires g[Reference(g, rank, lib, tag(s), first)].opcode == RETURN
    ensures Walk(g', rank', eval, loadOp, s) == g[Reference(g, rank, lib, tag(s), first)].operand.code
  {
    var e := Reference(g, rank, lib, tag(s), first);
    assert g'[e] == g[e];
    var s' := WalkThroughValuePart(g', rank', eval, lib, tag, regs, loadOp, s);
    assert Run(g', rank', lib, tag(s), regs(s), loadOp) == e;
  }

  // ---------------------------------------------------------------- clauses with a single op

  /** The flags that sum up a single op */
  function KindsOf(op: nat): Kinds { Kinds(op == EQ_CODE, op == EQ_STR, STARTS_WITH <= op <= REGEX, EQ_NUM <= op <= GT) }

  /** A clause with one value op, both of whose branches leave it, and that a key op leads to */
  ghost predicate SingleOp(g: seq<OpNode>, rank: map<int, nat>, i: int) {
    && ValueGraph(g, rank) && i in rank && 0 <= i < |g| && EQ_CODE <= g[i].opcode <= GT
    && 0 <= g[i].next0 < |g| && 0 <= g[i].next1 < |g|
    && forall j :: j in rank ==> 0 <= j < |g| && (j == i || !IsValuePart(g[j].opcode))
  }

  lemma SingleOpIsClause(g: seq<OpNode>, rank: map<int, nat>, i: int)
    requires SingleOp(g, rank, i)
    ensures Clause(g, rank, {i}, KindsOf(g[i].opcode), i) && !Astray(g, rank, KindsOf(g[i].opcode), i)
  {
    hide Ranked;
    SingleOpNext(g, rank, i, false);
    SingleOpNext(g, rank, i, true);
    assert ClauseOps(g, rank, {i}) by {
      forall j, t: bool {:trigger g[j].Next(t)} | j in {i} ensures g[j].Next(t) in rank && !IsValueOp(g[g[j].Next(t)].opcode) {
        SingleOpNext(g, rank, i, t);
      }
    }
    hide ClauseOps, ValueGraph;
    assert Applies(g[i].opcode, KindsOf(g[i].opcode));
  }

  lemma SingleOpNext(g: seq<OpNode>, rank: map<int, nat>, i: int, t: bool)
    requires SingleOp(g, rank, i)
    ensures g[i].Next(t) in rank && g[i].Next(t) != i && 0 <= g[i].Next(t) < |g| && !IsValueOp(g[g[i].Next(t)].opcode) && IsValueOp(g[i].opcode)
  {
    ValueNext(g, rank, i, t);
  }

  /** Where the loads in front of a single op lead a tag's value: a code op matches its code, a local string its own text,
      a text op the text of either kind of string, a numeric op a number or what a string spells. */
  lemma SingleOpDecides(g: seq<OpNode>, rank: map<int, nat>, keyOp: int, i: int, g': seq<OpNode>, rank': map<int, nat>,
                        lib: Library, v: TagValue, r: Registers) returns (matched: bool)
    requires SingleOp(g, rank, i) && LoadsInserted(g, rank, keyOp, KindsOf(g[i].opcode), i, g', rank')
    ensures ValueGraph(g', rank') && 0 <= keyOp < |g| <= |g'| && g'[keyOp].Next(!g[keyOp].negated) in rank'
    ensures Run(g', rank', lib, v, r, g'[keyOp].Next(!g[keyOp].negated)) == g[i].Next(matched != g[i].negated)
    ensures g[i].opcode == EQ_CODE ==> (matched <==> v.CodeValue? && g[i].operand == Code(v.code))
    ensures g[i].opcode == EQ_STR ==> (matched <==> v.StringValue? && g[i].operand == Str(v.str))
    ensures STARTS_WITH <= g[i].opcode <= REGEX ==>
              && (v.CodeValue? ==> (matched <==> lib.text(g[i].opcode, g[i].operand, lib.globalString(v.code))))
              && (v.StringValue? ==> (matched <==> lib.text(g[i].opcode, g[i].operand, v.str)))
              && (v.NarrowNumber? || v.WideNumber? ==> !matched)
    ensures EQ_NUM <= g[i].opcode <= GT ==>
              && (v.NarrowNumber? ==> (matched <==> lib.number(g[i].opcode, g[i].operand, v.stored as real - 256.0)))
              && (v.WideNumber? ==> (matched <==> lib.number(g[i].opcode, g[i].operand, v.num)))
              && (v.StringValue? ==> (matched <==> SpellsMatch(lib, g[i], v.str)))
              && (v.CodeValue? ==> (matched <==> SpellsMatch(lib, g[i], lib.globalString(v.code))))
  {
    hide Ranked, ValueGraph, Clause, Astray, SingleOp, Run, Exit, Holds, StrayRoutes, LeadsLike, LoadsInserted, Reference, SpellsMatch;
    SingleOpServed(g, rank, keyOp, i, g', rank', lib, v, r);
    matched := Holds(lib, v)(g[i].opcode, g[i].operand);
    HoldsMeans(lib, v, g[i]);
  }

  /** The string spells a number of which the op holds. */
  predicate SpellsMatch(lib: Library, n: OpNode, s: string) {
    match lib.parse(s)
    case Some(x) => lib.number(n.opcode, n.operand, x)
    case None => false
  }

  lemma SingleOpServed(g: seq<OpNode>, rank: map<int, nat>, keyOp: int, i: int, g': seq<OpNode>, rank': map<int, nat>,
                       lib: Library, v: TagValue, r: Registers)
    requires SingleOp(g, rank, i) && LoadsInserted(g, rank, keyOp, KindsOf(g[i].opcode), i, g', rank')
    ensures ValueGraph(g', rank') && 0 <= keyOp < |g| <= |g'| && 0 <= i < |g| && g'[keyOp].Next(!g[keyOp].negated) in rank'
    ensures Run(g', rank', lib, v, r, g'[keyOp].Next(!g[keyOp].negated)) ==
            g[i].Next(Holds(lib, v)(g[i].opcode, g[i].operand) != g[i].negated)
  {
    hide Ranked, Clause, Astray, SingleOp, Run, Exit, Holds, StrayRoutes;
    SingleOpIsClause(g, rank, i);
    SingleExit(g, rank, Holds(lib, v), i);
    assert Run(g', rank', lib, v, r, g'[keyOp].Next(!g[keyOp].negated)) == Reference(g, rank, lib, v, i);
  }

  lemma HoldsMeans(lib: Library, v: TagValue, n: OpNode)
    ensures var (matched, op, operand) := (Holds(lib, v)(n.opcode, n.operand), n.opcode, n.operand);
            && (op == EQ_CODE ==> (matched <==> v.CodeValue? && operand == Code(v.code)))
            && (op == EQ_STR ==> (matched <==> v.StringValue? && operand == Str(v.str)))
            && (STARTS_WITH <= op <= REGEX ==>
                  && (v.CodeValue? ==> (matched <==> lib.text(op, operand, lib.globalString(v.code))))
                  && (v.StringValue? ==> (matched <==> lib.text(op, operand, v.str)))
                  && (v.NarrowNumber? || v.WideNumber? ==> !matched))
            && (EQ_NUM <= op <= GT ==>
                  && (v.NarrowNumber? ==> (matched <==> lib.number(op, operand, v.stored as real - 256.0)))
                  && (v.WideNumber? ==> (matched <==> lib.number(op, operand, v.num)))
                  && (v.StringValue? ==> (matched <==> SpellsMatch(lib, n, v.str)))
                  && (v.CodeValue? ==> (matched <==> SpellsMatch(lib, n, lib.globalString(v.code)))))
  {
    var holds := Holds(lib, v);
    assert n.opcode == EQ_CODE ==> holds(n.opcode, n.operand) == (v.CodeValue? && n.operand == Code(v.code));
    assert n.opcode == EQ_STR ==> holds(n.opcode, n.operand) == (v.StringValue? && n.operand == Str(v.str));
    assert STARTS_WITH <= n.opcode <= REGEX ==> holds(n.opcode, n.operand) == (!v.IsNumber() && lib.text(n.opcode, n.operand, TextOf(lib, v)));
    assert EQ_NUM <= n.opcode <= GT ==>
        holds(n.opcode, n.operand) == (NumberOf(lib, v).Some? && lib.number(n.opcode, n.operand, NumberOf(lib, v).value));
  }

  lemma SingleExit(g: seq<OpNode>, rank: map<int, nat>, test: Test, i: int)
    requires SingleOp(g, rank, i)
    ensures Exit(g, rank, test, i) == g[i].Next(test(g[i].opcode, g[i].operand) != g[i].negated)
  {
    var t := Takes(test, g[i]);
    ValueNext(g, rank, i, t);
    ExitSteps(g, rank, test, i);
    ExitSteps(g, rank, test, g[i].Next(t));
  }

  // ---------------------------------------------------------------- the gap, by example

  /** [k=c][k>10] with the global string c of code 263, as one clause: both must hold */
  function CodeAndNumber(): seq<OpNode> {
    [NewOp(EQ_CODE, 3, 1).(operand := Code(263)), NewOp(GT, 3, 2).(operand := Num(10.0)),
     NewOp(RETURN, NULL, NULL).(operand := Code(1)), NewOp(RETURN, NULL, NULL).(operand := Code(0))]
  }

  const EXAMPLE_RANK: map<int, nat> := map[0 := 2, 1 := 1, 2 := 0, 3 := 0]

  const CODE_AND_NUMBER: Kinds := Kinds(true, false, false, true)

  /** The number 7, as it is stored */
  const SEVEN: TagValue := NarrowNumber(263)

  lemma ExampleIsGraph()
    ensures ValueGraph(CodeAndNumber(), EXAMPLE_RANK)
  {
    var g := CodeAndNumber();
    hide OperandOk;
    forall i | i in EXAMPLE_RANK ensures RankedOp(g, i) {
      ExampleOp(i);
    }
  }

  predicate RankedOp(g: seq<OpNode>, i: int) {
    && i in EXAMPLE_RANK && 0 <= i < |g| && g[i].opcode <= RETURN && g[i].opcode != NOP && OperandOk(g[i])
    && (g[i].opcode != RETURN ==> g[i].next0 in EXAMPLE_RANK && EXAMPLE_RANK[g[i].next0] < EXAMPLE_RANK[i]
                                  && g[i].next1 in EXAMPLE_RANK && EXAMPLE_RANK[g[i].next1] < EXAMPLE_RANK[i] && g[i].opcode != GOTO)
  }

  lemma ExampleOp(i: int)
    requires i in EXAMPLE_RANK
    ensures RankedOp(CodeAndNumber(), i)
  {
  }

  lemma ExampleIsClause()
    ensures Clause(CodeAndNumber(), EXAMPLE_RANK, {0, 1}, CODE_AND_NUMBER, 0)
  {
    ExampleIsGraph();
    var g, ops := CodeAndNumber(), {0, 1};
    hide ValueGraph, OperandOk;
    forall j, t: bool | j in ops
      ensures 0 <= j < |g| && (g[j].Next(t) in ops || (g[j].Next(t) in EXAMPLE_RANK && 0 <= g[j].Next(t) < |g| && !IsValueOp(g[g[j].Next(t)].opcode)))
    {
      if t { assert g[j].Next(true) == j + 1; } else { assert g[j].Next(false) == 3; }
    }
    assert ClauseOps(g, EXAMPLE_RANK, ops);
  }

  /** The specialised ops for codes are entered although the tag's value is a number: with the number 7, which is
      stored as the code of the string, and a string left from an earlier tag that spells a number above 10, the
      clause accepts what it excludes. */
  lemma GapAcceptsWrongly(lib: Library, r: Registers)
    requires lib.parse(r.str).Some? && lib.number(GT, Num(10.0), lib.parse(r.str).value)
    ensures Numeric(SEVEN) == 7.0
    ensures Clause(CodeAndNumber(), EXAMPLE_RANK, {0, 1}, CODE_AND_NUMBER, 0)
    ensures Astray(CodeAndNumber(), EXAMPLE_RANK, CODE_AND_NUMBER, 0)
    ensures Reference(CodeAndNumber(), EXAMPLE_RANK, lib, SEVEN, 0) == 3
    ensures StrayExit(CodeAndNumber(), EXAMPLE_RANK, lib, SEVEN, r, 0) == 2
  {
    ExampleIsClause();
    var g := CodeAndNumber();
    var left := InRegisters(lib, Registers(263, r.str, lib.parse(r.str)));
    var test, holds := Only(CODE_OPS, left), Holds(lib, SEVEN);
    assert left(EQ_CODE, Code(263)) && left(GT, Num(10.0)) && !holds(EQ_CODE, Code(263));
    hide ValueGraph, Ranked, OperandOk, InRegisters, Holds, Clause;
    ExampleIsGraph();
    ExitSteps(g, EXAMPLE_RANK, test, 0);
    ExitSteps(g, EXAMPLE_RANK, test, 1);
    ExitSteps(g, EXAMPLE_RANK, test, 2);
    ExitSteps(g, EXAMPLE_RANK, holds, 0);
    ExitSteps(g, EXAMPLE_RANK, holds, 3);
    assert FirstSuited(g, EXAMPLE_RANK, STRING_OPS, 0) == FirstSuited(g, EXAMPLE_RANK, STRING_OPS, 3) == 3;
  }

  lemma ExitSteps(g: seq<OpNode>, rank: map<int, nat>, test: Test, i: int)
    requires ValueGraph(g, rank) && i in rank
    ensures 0 <= i < |g| && (!IsValueOp(g[i].opcode) ==> Exit(g, rank, test, i) == i)
    ensures IsValueOp(g[i].opcode) ==>
      g[i].Next(Takes(test, g[i])) in rank && Exit(g, rank, test, i) == Exit(g, rank, test, g[i].Next(Takes(test, g[i])))
  {
  }
}
