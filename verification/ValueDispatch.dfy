/** How the engine loads and tests a tag value (src/match/MatcherEngine.cpp, lines 125-178 and 233-298),
    and what the load ops in front of a clause's value ops must achieve. */
module ValueDispatch {
  import opened OpGraphs
  import opened ValueOps
  import opened ValueSpecialisation

  datatype Option<T> = None | Some(value: T)

  type Short = w: nat | w < 0x1_0000

  /** A tag value: a global-string code, a local string, or a number, which is stored in 16 bits if it fits */
  datatype TagValue = CodeValue(code: Short) | StringValue(str: string) | NarrowNumber(stored: Short) | WideNumber(num: real)
  {
    predicate IsNumber() { NarrowNumber? || WideNumber? }
  }

  /** A narrow number is stored as its distance from MIN_NUMBER. */
  function Numeric(v: TagValue): real
    requires v.IsNumber()
  {
    match v
    case NarrowNumber(stored) => stored as real - 256.0
    case WideNumber(num) => num
  }

  /** What the model leaves open: string and number comparisons, the global string table, number
      parsing, and what a load leaves behind when the value is of another type */
  datatype Library = Library(
    text: (nat, Operand, string) -> bool,
    number: (nat, Operand, real) -> bool,
    globalString: nat -> string,
    parse: string -> Option<real>,
    rawCode: TagValue -> Short,
    rawString: TagValue -> string)

  /** codeValue, stringValue and doubleValue; None is not a number */
  datatype Registers = Registers(code: Short, str: string, num: Option<real>)

  /** The test of a value op on the registers; comparisons with not-a-number fail. */
  function InRegisters(lib: Library, r: Registers): Test {
    (op: nat, operand: Operand) =>
      if op == EQ_CODE then operand == Code(r.code)
      else if op == EQ_STR then operand == Str(r.str)
      else if STARTS_WITH <= op <= REGEX then lib.text(op, operand, r.str)
      else if EQ_NUM <= op <= GT then r.num.Some? && lib.number(op, operand, r.num.value)
      else false
  }

  /** What a value op asks of a tag value: codes are compared with codes and local strings with local
      strings; other string ops take both kinds; a string counts as the number it spells, if any. */
  function Holds(lib: Library, v: TagValue): Test {
    (op: nat, operand: Operand) =>
      if op == EQ_CODE then v.CodeValue? && operand == Code(v.code)
      else if op == EQ_STR then v.StringValue? && operand == Str(v.str)
      else if STARTS_WITH <= op <= REGEX then !v.IsNumber() && lib.text(op, operand, TextOf(lib, v))
      else if EQ_NUM <= op <= GT then NumberOf(lib, v).Some? && lib.number(op, operand, NumberOf(lib, v).value)
      else false
  }

  function TextOf(lib: Library, v: TagValue): string {
    match v
    case CodeValue(c) => lib.globalString(c)
    case StringValue(s) => s
    case _ => ""
  }

  function NumberOf(lib: Library, v: TagValue): Option<real> {
    if v.IsNumber() then Some(Numeric(v)) else lib.parse(TextOf(lib, v))
  }

  /** What LOAD_CODE reads: the 16 bits at the value, whatever its type */
  function Word(lib: Library, v: TagValue): Short {
    match v
    case CodeValue(c) => c
    case NarrowNumber(stored) => stored
    case _ => lib.rawCode(v)
  }

  predicate IsValuePart(op: nat) { IsValueOp(op) || LOAD_CODE <= op <= STR_TO_NUM }

  /** One op of the value part: whether it matched, and the registers after it */
  function Step(lib: Library, v: TagValue, r: Registers, n: OpNode): (bool, Registers) {
    if n.opcode == LOAD_CODE then (v.CodeValue?, r.(code := Word(lib, v)))
    else if n.opcode == LOAD_STRING then (v.StringValue?, r.(str := if v.StringValue? then v.str else lib.rawString(v)))
    else if n.opcode == LOAD_NUM then (v.IsNumber(), if v.IsNumber() then r.(num := Some(Numeric(v))) else r)
    else if n.opcode == CODE_TO_STR then (false, r.(str := lib.globalString(r.code)))
    else if n.opcode == STR_TO_NUM then (lib.parse(r.str).Some?, r.(num := lib.parse(r.str)))
    else (InRegisters(lib, r)(n.opcode, n.operand), r)
  }

  /** Where the engine leaves the value part when it enters at `i` */
  ghost function Run(g: seq<OpNode>, rank: map<int, nat>, lib: Library, v: TagValue, r: Registers, i: int): (e: int)
    requires ValueGraph(g, rank) && i in rank
    ensures e in rank && !IsValuePart(g[e].opcode)
    decreases rank[i]
  {
    var n := g[i];
    if !IsValuePart(n.opcode) then i
    else
      var (matched, r') := Step(lib, v, r, n);
      if n.opcode == CODE_TO_STR then Run(g, rank, lib, v, r', n.next0)
      else Run(g, rank, lib, v, r', n.Next(matched != n.negated))
  }

  /** Value ops leave the registers alone. */
  lemma {:induction false} RunThroughValueOps(g: seq<OpNode>, rank: map<int, nat>, lib: Library, v: TagValue, r: Registers, i: int)
    requires ValueGraph(g, rank) && i in rank
    ensures Run(g, rank, lib, v, r, i) == Run(g, rank, lib, v, r, Exit(g, rank, InRegisters(lib, r), i))
    decreases rank[i]
  {
    hide Ranked, ValueGraph;
    InGraph(g, rank, i);
    if IsValueOp(g[i].opcode) {
      var t := Takes(InRegisters(lib, r), g[i]);
      ValueNext(g, rank, i, t);
      RunThroughValueOps(g, rank, lib, v, r, g[i].Next(t));
    }
  }

  lemma {:induction false} RunStays(g: seq<OpNode>, rank: map<int, nat>, g': seq<OpNode>, rank': map<int, nat>,
                                    lib: Library, v: TagValue, r: Registers, i: int)
    requires ValueGraph(g, rank) && i in rank && Extends(g, rank, g', rank')
    ensures i in rank' && Run(g', rank', lib, v, r, i) == Run(g, rank, lib, v, r, i)
    decreases rank[i]
  {
    var n := g[i];
    if IsValuePart(n.opcode) {
      var (matched, r') := Step(lib, v, r, n);
      if n.opcode == CODE_TO_STR {
        RunStays(g, rank, g', rank', lib, v, r', n.next0);
      } else {
        RunStays(g, rank, g', rank', lib, v, r', n.Next(matched != n.negated));
      }
    }
  }

  // ---------------------------------------------------------------- the clause before load ops are inserted

  /** A clause as the parser leaves it: value ops that `kinds` summarises, and no loads yet */
  ghost predicate Clause(g: seq<OpNode>, rank: map<int, nat>, ops: set<int>, kinds: Kinds, i: int) {
    && ValueGraph(g, rank) && ClauseOps(g, rank, ops) && i in ops
    && (forall j :: j in rank ==> IsValueOp(g[j].opcode) || !IsValuePart(g[j].opcode))
    && forall j :: j in ops ==> 0 <= j < |g| && Applies(g[j].opcode, kinds)
  }

  /** Where the clause leads for a tag value, ops of other types counting as unmatched */
  ghost function Reference(g: seq<OpNode>, rank: map<int, nat>, lib: Library, v: TagValue, i: int): int
    requires ValueGraph(g, rank) && i in rank
  {
    Exit(g, rank, Holds(lib, v), i)
  }

  ghost function WrongType(g: seq<OpNode>, rank: map<int, nat>, i: int): int
    requires ValueGraph(g, rank) && i in rank
  {
    Exit(g, rank, NEVER, i)
  }

  /** The registers hold the value in every form that the clause's ops need. */
  predicate Loaded(lib: Library, v: TagValue, r: Registers, kinds: Kinds) {
    && (v.CodeValue? ==> r.code == v.code)
    && (v.StringValue? || (v.CodeValue? && (kinds.text || kinds.number)) ==> r.str == TextOf(lib, v))
    && (v.IsNumber() || kinds.number ==> r.num == NumberOf(lib, v))
  }

  /** The flags for which the ops are cloned that see this kind of value */
  function OpsFor(v: TagValue): Kinds {
    match v
    case CodeValue(_) => CODE_OPS
    case StringValue(_) => STRING_OPS
    case _ => NUMBER_OPS
  }

  lemma SuitedTestIsHolds(lib: Library, v: TagValue, r: Registers, kinds: Kinds, op: nat, operand: Operand)
    requires Loaded(lib, v, r, kinds) && Applies(op, kinds)
    ensures Only(OpsFor(v), InRegisters(lib, r))(op, operand) == Holds(lib, v)(op, operand)
  {
    var k := OpsFor(v);
    assert Only(k, InRegisters(lib, r))(op, operand) == (Applies(op, k) && InRegisters(lib, r)(op, operand));
    assert op == EQ_CODE ==> (Applies(op, k) && InRegisters(lib, r)(op, operand)) == Holds(lib, v)(op, operand);
    assert op == EQ_STR ==> (Applies(op, k) && InRegisters(lib, r)(op, operand)) == Holds(lib, v)(op, operand);
    assert STARTS_WITH <= op <= REGEX ==> (Applies(op, k) && InRegisters(lib, r)(op, operand)) == Holds(lib, v)(op, operand);
    assert EQ_NUM <= op <= GT ==> (Applies(op, k) && InRegisters(lib, r)(op, operand)) == Holds(lib, v)(op, operand);
  }

  /** Once the value is loaded, the specialised ops lead where the clause leads for that value. */
  lemma SpecialisedRun(g: seq<OpNode>, rank: map<int, nat>, ops: set<int>, kinds: Kinds, i: int,
                       g': seq<OpNode>, rank': map<int, nat>, i': int, lib: Library, v: TagValue, r: Registers)
    requires Clause(g, rank, ops, kinds, i) && Extends(g, rank, g', rank')
    requires Specialised(g, rank, i, OpsFor(v), g', rank', i') && Loaded(lib, v, r, kinds)
    ensures Run(g', rank', lib, v, r, i') == Reference(g, rank, lib, v, i)
  {
    var test := Only(OpsFor(v), InRegisters(lib, r));
    RunThroughValueOps(g', rank', lib, v, r, i');
    assert Exit(g', rank', InRegisters(lib, r), i') == Exit(g, rank, test, i);
    forall j | j in ops ensures 0 <= j < |g| && test(g[j].opcode, g[j].operand) == Holds(lib, v)(g[j].opcode, g[j].operand) {
      SuitedTestIsHolds(lib, v, r, kinds, g[j].opcode, g[j].operand);
    }
    ExitDependsOnTest(g, rank, ops, test, Holds(lib, v), i);
    var e := Exit(g, rank, test, i);
    assert g'[e] == g[e];
  }

  /** With no op matched, a specialised clause leads where the clause itself leads. */
  lemma SpecialisedWrongType(g: seq<OpNode>, rank: map<int, nat>, i: int, k: Kinds, g': seq<OpNode>, rank': map<int, nat>, i': int)
    requires Specialised(g, rank, i, k, g', rank', i')
    ensures WrongType(g', rank', i') == WrongType(g, rank, i)
  {
    assert Exit(g', rank', NEVER, i') == Exit(g, rank, Only(k, NEVER), i);
    ExitUnmatched(g, rank, Only(k, NEVER), i);
  }

  lemma {:induction false} ExitUnmatched(g: seq<OpNode>, rank: map<int, nat>, test: Test, i: int)
    requires ValueGraph(g, rank) && i in rank && forall op, operand :: !test(op, operand)
    ensures Exit(g, rank, test, i) == WrongType(g, rank, i)
    decreases rank[i]
  {
    if IsValueOp(g[i].opcode) {
      ValueNext(g, rank, i, g[i].negated);
      ExitUnmatched(g, rank, test, g[i].Next(g[i].negated));
    }
  }

  /** Only ops that see this kind of value can hold of it. */
  lemma HoldsApplies(lib: Library, v: TagValue, op: nat, operand: Operand)
    requires Holds(lib, v)(op, operand)
    ensures Applies(op, OpsFor(v))
  {
    var holds := Holds(lib, v);
    assert op == EQ_CODE ==> holds(op, operand) == (v.CodeValue? && operand == Code(v.code));
    assert op == EQ_STR ==> holds(op, operand) == (v.StringValue? && operand == Str(v.str));
    assert STARTS_WITH <= op <= REGEX && v.IsNumber() ==> !holds(op, operand);
    assert op > GT || op == NOP ==> !holds(op, operand);
  }

  /** If the clause's ops do not see this kind of value, the value takes the wrong-type exit. */
  lemma UnseenValue(g: seq<OpNode>, rank: map<int, nat>, ops: set<int>, kinds: Kinds, i: int, lib: Library, v: TagValue)
    requires Clause(g, rank, ops, kinds, i)
    requires forall op :: Applies(op, kinds) ==> !Applies(op, OpsFor(v))
    ensures Reference(g, rank, lib, v, i) == WrongType(g, rank, i)
  {
    forall j | j in ops ensures 0 <= j < |g| && Holds(lib, v)(g[j].opcode, g[j].operand) == NEVER(g[j].opcode, g[j].operand) {
      assert Applies(g[j].opcode, kinds) && !Applies(g[j].opcode, OpsFor(v));
      if Holds(lib, v)(g[j].opcode, g[j].operand) { HoldsApplies(lib, v, g[j].opcode, g[j].operand); }
    }
    ExitDependsOnTest(g, rank, ops, Holds(lib, v), NEVER, i);
  }

  /** So it does if the way from `i` meets no op that sees this kind of value. */
  lemma UnseenOnTheWay(g: seq<OpNode>, rank: map<int, nat>, ops: set<int>, kinds: Kinds, i: int, lib: Library, v: TagValue)
    requires Clause(g, rank, ops, kinds, i)
    requires !IsValueOp(g[FirstSuited(g, rank, OpsFor(v), i)].opcode)
    ensures Reference(g, rank, lib, v, i) == WrongType(g, rank, i)
  {
    var k := OpsFor(v);
    forall j | j in ops ensures 0 <= j < |g| && Holds(lib, v)(g[j].opcode, g[j].operand) == Only(k, Holds(lib, v))(g[j].opcode, g[j].operand) {
      if Holds(lib, v)(g[j].opcode, g[j].operand) { HoldsApplies(lib, v, g[j].opcode, g[j].operand); }
    }
    ExitDependsOnTest(g, rank, ops, Holds(lib, v), Only(k, Holds(lib, v)), i);
    ExitFromFirstSuited(g, rank, k, Holds(lib, v), i);
    ExitFromFirstSuited(g, rank, k, NEVER, i);
    ExitUnmatched(g, rank, Only(k, NEVER), i);
  }

  // ---------------------------------------------------------------- the dispatch, stage by stage

  /** Numbers are served from the first stage on, local strings from the second, codes from the third. */
  predicate Served(stage: nat, v: TagValue) {
    match v
    case CodeValue(_) => stage >= 3
    case StringValue(_) => stage >= 2
    case _ => stage >= 1
  }

  /** Where a value goes when the load ops of some stages are in place */
  ghost function Target(g: seq<OpNode>, rank: map<int, nat>, lib: Library, v: TagValue, i: int, stage: nat): int
    requires ValueGraph(g, rank) && i in rank
  {
    if Served(stage, v) then Reference(g, rank, lib, v, i) else WrongType(g, rank, i)
  }

  /** From `op`, every value that is served goes where the clause leads, every other to the wrong-type exit. */
  ghost predicate Routes(g: seq<OpNode>, rank: map<int, nat>, i: int, stage: nat, g': seq<OpNode>, rank': map<int, nat>, op: int) {
    && ValueGraph(g, rank) && i in rank && ValueGraph(g', rank') && op in rank' && rank'[op] <= rank[i] + stage
    && forall lib, v, r {:trigger Run(g', rank', lib, v, r, op)} ::
         Run(g', rank', lib, v, r, op) == Target(g, rank, lib, v, i, stage)
  }

  /** No load op is needed for the values served so far. */
  ghost predicate Settled(g: seq<OpNode>, rank: map<int, nat>, i: int, stage: nat) {
    && ValueGraph(g, rank) && i in rank
    && forall lib, v {:trigger Reference(g, rank, lib, v, i)} :: Served(stage, v) ==> Reference(g, rank, lib, v, i) == WrongType(g, rank, i)
  }

  ghost predicate Dispatches(g: seq<OpNode>, rank: map<int, nat>, i: int, stage: nat, g': seq<OpNode>, rank': map<int, nat>, op: int) {
    if op == NULL then Settled(g, rank, i, stage) else Routes(g, rank, i, stage, g', rank', op)
  }

  /** The load op of the stage has matched. */
  predicate JustLoaded(stage: nat, v: TagValue, r: Registers) {
    match v
    case CodeValue(c) => stage == 3 && r.code == c
    case StringValue(s) => stage == 2 && r.str == s
    case _ => stage == 1 && r.num == Some(Numeric(v))
  }

  function LoadOp(stage: nat): nat { if stage == 1 then LOAD_NUM else if stage == 2 then LOAD_STRING else LOAD_CODE }

  /** From `head`, a value that was just loaded goes where the clause leads. */
  ghost predicate Carries(g: seq<OpNode>, rank: map<int, nat>, i: int, stage: nat, g': seq<OpNode>, rank': map<int, nat>, head: int) {
    && ValueGraph(g, rank) && i in rank && ValueGraph(g', rank') && head in rank' && rank'[head] < rank[i] + stage
    && forall lib, v, r {:trigger Run(g', rank', lib, v, r, head)} ::
         JustLoaded(stage, v, r) ==> Run(g', rank', lib, v, r, head) == Reference(g, rank, lib, v, i)
  }

  lemma RoutesStays(g: seq<OpNode>, rank: map<int, nat>, i: int, stage: nat, g': seq<OpNode>, rank': map<int, nat>, op: int,
                    g'': seq<OpNode>, rank'': map<int, nat>)
    requires Routes(g, rank, i, stage, g', rank', op) && Extends(g', rank', g'', rank'')
    ensures Routes(g, rank, i, stage, g'', rank'', op)
  {
    hide Run, Target, Ranked;
    forall lib, v, r ensures op in rank'' && Run(g'', rank'', lib, v, r, op) == Target(g, rank, lib, v, i, stage) {
      RunStays(g', rank', g'', rank'', lib, v, r, op);
    }
  }

  lemma CarriesStays(g: seq<OpNode>, rank: map<int, nat>, i: int, stage: nat, g': seq<OpNode>, rank': map<int, nat>, head: int,
                     g'': seq<OpNode>, rank'': map<int, nat>)
    requires Carries(g, rank, i, stage, g', rank', head) && Extends(g', rank', g'', rank'')
    ensures Carries(g, rank, i, stage, g'', rank'', head)
  {
    forall lib, v, r | JustLoaded(stage, v, r)
      ensures head in rank'' && Run(g'', rank'', lib, v, r, head) == Reference(g, rank, lib, v, i)
    {
      RunStays(g', rank', g'', rank'', lib, v, r, head);
    }
  }

  /** As long as no load op is needed, the wrong-type exit itself serves. */
  lemma ExitRoutes(g: seq<OpNode>, rank: map<int, nat>, ops: set<int>, kinds: Kinds, i: int, stage: nat, g': seq<OpNode>, rank': map<int, nat>)
    requires Clause(g, rank, ops, kinds, i) && Settled(g, rank, i, stage) && Extends(g, rank, g', rank')
    ensures Routes(g, rank, i, stage, g', rank', WrongType(g, rank, i))
  {
    var w := WrongType(g, rank, i);
    ExitRank(g, rank, NEVER, i);
    forall lib, v, r ensures w in rank' && Run(g', rank', lib, v, r, w) == Target(g, rank, lib, v, i, stage) {
      assert Served(stage, v) ==> Reference(g, rank, lib, v, i) == WrongType(g, rank, i);
    }
  }

  lemma {:induction false} ExitRank(g: seq<OpNode>, rank: map<int, nat>, test: Test, i: int)
    requires ValueGraph(g, rank) && i in rank
    ensures rank[Exit(g, rank, test, i)] <= rank[i]
    decreases rank[i]
  {
    if IsValueOp(g[i].opcode) {
      ValueNext(g, rank, i, Takes(test, g[i]));
      ExitRank(g, rank, test, g[i].Next(Takes(test, g[i])));
    }
  }

  lemma NodeAppended(g: seq<OpNode>, rank: map<int, nat>, op: nat, next0: int, next1: int, r: nat)
    requires ValueGraph(g, rank) && LOAD_CODE <= op <= STR_TO_NUM
    requires next0 in rank && rank[next0] < r && (op != CODE_TO_STR ==> next1 in rank && rank[next1] < r)
    ensures |g| !in rank && Extends(g, rank, g + [NewOp(op, next0, next1)], rank[|g| := r])
  {
    hide Ranked, ValueGraph, Extends;
    var n := NewOp(op, next0, next1);
    SlotAdded(g, rank, n);
    NodeRanked(g + [n], rank, |g|, r);
    ExtendsTrans(g, rank, g + [n], rank, g + [n], rank[|g| := r]);
  }

  /** A load op in front of a head that carries its values, with what served the others as its false branch */
  lemma LoadAdded(g: seq<OpNode>, rank: map<int, nat>, i: int, stage: nat, g1: seq<OpNode>, rank1: map<int, nat>, rest: int, head: int)
    requires 1 <= stage <= 3
    requires Routes(g, rank, i, stage - 1, g1, rank1, rest) && Carries(g, rank, i, stage, g1, rank1, head)
    ensures var g2, rank2 := g1 + [NewOp(LoadOp(stage), rest, head)], rank1[|g1| := rank[i] + stage];
            Extends(g1, rank1, g2, rank2) && Routes(g, rank, i, stage, g2, rank2, |g1|)
  {
    hide Run, Target, Ranked, Carries, Extends, NewOp, LoadOp;
    LoadRanked(g, rank, i, stage, g1, rank1, rest, head);
    var c, g2, rank2 := |g1|, g1 + [NewOp(LoadOp(stage), rest, head)], rank1[|g1| := rank[i] + stage];
    RoutesStays(g, rank, i, stage - 1, g1, rank1, rest, g2, rank2);
    CarriesStays(g, rank, i, stage, g1, rank1, head, g2, rank2);
    forall lib, v, r ensures Run(g2, rank2, lib, v, r, c) == Target(g, rank, lib, v, i, stage) {
      LoadRuns(g, rank, i, stage, g2, rank2, rest, head, c, lib, v, r);
    }
  }

  lemma RoutesRank(g: seq<OpNode>, rank: map<int, nat>, i: int, stage: nat, g': seq<OpNode>, rank': map<int, nat>, op: int)
    requires Routes(g, rank, i, stage, g', rank', op)
    ensures i in rank && ValueGraph(g, rank) && op in rank' && ValueGraph(g', rank') && rank'[op] <= rank[i] + stage
  {
    hide Ranked, Run, Target;
  }

  lemma CarriesRank(g: seq<OpNode>, rank: map<int, nat>, i: int, stage: nat, g': seq<OpNode>, rank': map<int, nat>, head: int)
    requires Carries(g, rank, i, stage, g', rank', head)
    ensures i in rank && ValueGraph(g, rank) && head in rank' && ValueGraph(g', rank') && rank'[head] < rank[i] + stage
  {
    hide Ranked, Run, Reference, JustLoaded;
  }

  lemma LoadRanked(g: seq<OpNode>, rank: map<int, nat>, i: int, stage: nat, g1: seq<OpNode>, rank1: map<int, nat>, rest: int, head: int)
    requires 1 <= stage <= 3
    requires Routes(g, rank, i, stage - 1, g1, rank1, rest) && Carries(g, rank, i, stage, g1, rank1, head)
    ensures var g2, rank2 := g1 + [NewOp(LoadOp(stage), rest, head)], rank1[|g1| := rank[i] + stage];
            Extends(g1, rank1, g2, rank2) && ValueGraph(g2, rank2)
  {
    hide Routes, Carries, Ranked, NewOp, ValueGraph;
    RoutesRank(g, rank, i, stage - 1, g1, rank1, rest);
    CarriesRank(g, rank, i, stage, g1, rank1, head);
    NodeAppended(g1, rank1, LoadOp(stage), rest, head, rank[i] + stage);
  }

  lemma LoadRuns(g: seq<OpNode>, rank: map<int, nat>, i: int, stage: nat, g2: seq<OpNode>, rank2: map<int, nat>,
                 rest: int, head: int, c: int, lib: Library, v: TagValue, r: Registers)
    requires 1 <= stage <= 3 && c in rank2 && Routes(g, rank, i, stage - 1, g2, rank2, rest) && Carries(g, rank, i, stage, g2, rank2, head)
    requires g2[c] == NewOp(LoadOp(stage), rest, head)
    ensures Run(g2, rank2, lib, v, r, c) == Target(g, rank, lib, v, i, stage)
  {
    var (matched, r') := Step(lib, v, r, g2[c]);
    assert Run(g2, rank2, lib, v, r, c) == Run(g2, rank2, lib, v, r', g2[c].Next(matched));
    if matched {
      assert JustLoaded(stage, v, r');
    }
  }

  // ---------------------------------------------------------------- conversions in front of the ops

  /** A node that goes on to `next` with the registers `convert` makes of them */
  predicate Converts(n: OpNode, next: int) {
    !n.negated && n.next0 == next && (n.opcode == CODE_TO_STR || (n.opcode == STR_TO_NUM && n.next1 == next))
  }

  lemma ConversionRuns(g: seq<OpNode>, rank: map<int, nat>, c: int, next: int, lib: Library, v: TagValue, r: Registers)
    requires ValueGraph(g, rank) && c in rank && next in rank && Converts(g[c], next)
    ensures Run(g, rank, lib, v, r, c) == Run(g, rank, lib, v, Step(lib, v, r, g[c]).1, next)
  {
  }

  /** The clone for numbers carries them. */
  lemma NumberCarried(g: seq<OpNode>, rank: map<int, nat>, ops: set<int>, kinds: Kinds, i: int, g': seq<OpNode>, rank': map<int, nat>, op: int)
    requires Clause(g, rank, ops, kinds, i) && Extends(g, rank, g', rank') && Specialised(g, rank, i, NUMBER_OPS, g', rank', op)
    ensures Carries(g, rank, i, 1, g', rank', op)
  {
    forall lib, v, r | JustLoaded(1, v, r) ensures Run(g', rank', lib, v, r, op) == Reference(g, rank, lib, v, i) {
      SpecialisedRun(g, rank, ops, kinds, i, g', rank', op, lib, v, r);
    }
  }

  lemma StringRuns(g: seq<OpNode>, rank: map<int, nat>, ops: set<int>, kinds: Kinds, i: int, g': seq<OpNode>, rank': map<int, nat>,
                   op: int, head: int, lib: Library, v: TagValue, r: Registers)
    requires Clause(g, rank, ops, kinds, i) && Extends(g, rank, g', rank') && Specialised(g, rank, i, STRING_OPS, g', rank', op)
    requires head in rank' && JustLoaded(2, v, r)
    requires if kinds.number then g'[head].opcode == STR_TO_NUM && Converts(g'[head], op) else head == op
    ensures Run(g', rank', lib, v, r, head) == Reference(g, rank, lib, v, i)
  {
    hide Exit, Run, Reference, Ranked, ClauseOps, Converts, FirstSuited;
    if kinds.number {
      ConversionRuns(g', rank', head, op, lib, v, r);
      SpecialisedRun(g, rank, ops, kinds, i, g', rank', op, lib, v, r.(num := lib.parse(r.str)));
    } else {
      SpecialisedRun(g, rank, ops, kinds, i, g', rank', op, lib, v, r);
    }
  }

  /** The clone for local strings carries them, behind a conversion to a number if there are numeric ops. */
  lemma StringCarried(g: seq<OpNode>, rank: map<int, nat>, ops: set<int>, kinds: Kinds, i: int, g': seq<OpNode>, rank': map<int, nat>,
                      op: int, head: int)
    requires Clause(g, rank, ops, kinds, i) && Extends(g, rank, g', rank') && Specialised(g, rank, i, STRING_OPS, g', rank', op)
    requires head in rank' && rank'[head] <= rank[i] + 1
    requires if kinds.number then g'[head].opcode == STR_TO_NUM && Converts(g'[head], op) else head == op
    ensures Carries(g, rank, i, 2, g', rank', head)
  {
    hide Exit, Run, Reference, Ranked, ClauseOps, Converts, FirstSuited, JustLoaded;
    forall lib, v, r | JustLoaded(2, v, r) ensures Run(g', rank', lib, v, r, head) == Reference(g, rank, lib, v, i) {
      StringRuns(g, rank, ops, kinds, i, g', rank', op, head, lib, v, r);
    }
  }

  lemma CodeRuns(g: seq<OpNode>, rank: map<int, nat>, ops: set<int>, kinds: Kinds, i: int, g': seq<OpNode>, rank': map<int, nat>,
                 op: int, toNum: int, head: int, lib: Library, v: TagValue, r: Registers)
    requires Clause(g, rank, ops, kinds, i) && Extends(g, rank, g', rank') && Specialised(g, rank, i, CODE_OPS, g', rank', op)
    requires head in rank' && toNum in rank' && JustLoaded(3, v, r)
    requires if kinds.number then g'[toNum].opcode == STR_TO_NUM && Converts(g'[toNum], op) else toNum == op
    requires if kinds.text || kinds.number then g'[head].opcode == CODE_TO_STR && Converts(g'[head], toNum) else head == toNum
    ensures Run(g', rank', lib, v, r, head) == Reference(g, rank, lib, v, i)
  {
    hide Exit, Run, Reference, Ranked, ClauseOps, Converts, FirstSuited;
    var r1 := if kinds.text || kinds.number then r.(str := lib.globalString(r.code)) else r;
    var r2 := if kinds.number then r1.(num := lib.parse(r1.str)) else r1;
    if kinds.text || kinds.number { ConversionRuns(g', rank', head, toNum, lib, v, r); }
    if kinds.number { ConversionRuns(g', rank', toNum, op, lib, v, r1); }
    SpecialisedRun(g, rank, ops, kinds, i, g', rank', op, lib, v, r2);
  }

  /** The clone for codes carries them, behind the conversions that its ops need. */
  lemma CodeCarried(g: seq<OpNode>, rank: map<int, nat>, ops: set<int>, kinds: Kinds, i: int, g': seq<OpNode>, rank': map<int, nat>,
                    op: int, toNum: int, head: int)
    requires Clause(g, rank, ops, kinds, i) && Extends(g, rank, g', rank') && Specialised(g, rank, i, CODE_OPS, g', rank', op)
    requires head in rank' && toNum in rank' && rank'[head] <= rank[i] + 2
    requires if kinds.number then g'[toNum].opcode == STR_TO_NUM && Converts(g'[toNum], op) else toNum == op
    requires if kinds.text || kinds.number then g'[head].opcode == CODE_TO_STR && Converts(g'[head], toNum) else head == toNum
    ensures Carries(g, rank, i, 3, g', rank', head)
  {
    hide Exit, Run, Reference, Ranked, ClauseOps, Converts, FirstSuited, JustLoaded;
    forall lib, v, r | JustLoaded(3, v, r) ensures Run(g', rank', lib, v, r, head) == Reference(g, rank, lib, v, i) {
      CodeRuns(g, rank, ops, kinds, i, g', rank', op, toNum, head, lib, v, r);
    }
  }

  // ---------------------------------------------------------------- which branch values of other types take

  /** What findWrongTypeOp finds from `head` is the clause's wrong-type exit. */
  ghost predicate FindsWrongType(g: seq<OpNode>, rank: map<int, nat>, i: int, g': seq<OpNode>, rank': map<int, nat>, head: int) {
    && ValueGraph(g, rank) && i in rank && ValueGraph(g', rank') && head in rank'
    && 0 <= head < |g'| && g'[head].Next(g'[head].negated) in rank'
    && Exit(g', rank', NEVER, g'[head].Next(g'[head].negated)) == WrongType(g, rank, i)
  }

  lemma ClonedFindsWrongType(g: seq<OpNode>, rank: map<int, nat>, i: int, k: Kinds, g': seq<OpNode>, rank': map<int, nat>, op: int)
    requires Specialised(g, rank, i, k, g', rank', op) && IsValueOp(g'[op].opcode)
    ensures FindsWrongType(g, rank, i, g', rank', op)
  {
    SpecialisedWrongType(g, rank, i, k, g', rank', op);
    ValueNext(g', rank', op, g'[op].negated);
  }

  /** A conversion in front of a cloned value op finds it too; a conversion in front of another does not. */
  lemma ConversionFindsWrongType(g: seq<OpNode>, rank: map<int, nat>, i: int, k: Kinds, g': seq<OpNode>, rank': map<int, nat>, op: int, c: int)
    requires Specialised(g, rank, i, k, g', rank', op) && IsValueOp(g'[op].opcode)
    requires c in rank' && Converts(g'[c], op)
    ensures FindsWrongType(g, rank, i, g', rank', c)
  {
    SpecialisedWrongType(g, rank, i, k, g', rank', op);
  }

  /** Stages whose clone came out empty, or that were left out, leave the values they serve to the wrong-type exit. */
  lemma StageSkipped(g: seq<OpNode>, rank: map<int, nat>, ops: set<int>, kinds: Kinds, i: int, stage: nat, k: Kinds,
                     g': seq<OpNode>, rank': map<int, nat>, op: int)
    requires 1 <= stage <= 3 && Clause(g, rank, ops, kinds, i) && Dispatches(g, rank, i, stage - 1, g', rank', op)
    requires forall v :: Served(stage, v) && !Served(stage - 1, v) ==> OpsFor(v) == k
    requires (forall o :: Applies(o, kinds) ==> !Applies(o, k)) || !IsValueOp(g[FirstSuited(g, rank, k, i)].opcode)
    ensures Dispatches(g, rank, i, stage, g', rank', op)
  {
    forall lib, v | Served(stage, v) && !Served(stage - 1, v) ensures Reference(g, rank, lib, v, i) == WrongType(g, rank, i) {
      if IsValueOp(g[FirstSuited(g, rank, k, i)].opcode) {
        UnseenValue(g, rank, ops, kinds, i, lib, v);
      } else {
        UnseenOnTheWay(g, rank, ops, kinds, i, lib, v);
      }
    }
    hide Run, Reference, WrongType, Ranked, ClauseOps, FirstSuited;
  }

  /** The one gap: a clause with numeric ops whose way for local strings meets no op that applies. Then no
      load precedes LOAD_CODE, and findWrongTypeOp, started at CODE_TO_STR, stops at STR_TO_NUM. */
  ghost predicate Astray(g: seq<OpNode>, rank: map<int, nat>, kinds: Kinds, i: int) {
    ValueGraph(g, rank) && i in rank && kinds.number && !IsValueOp(g[FirstSuited(g, rank, STRING_OPS, i)].opcode)
  }

  lemma {:induction false} FewerSuited(g: seq<OpNode>, rank: map<int, nat>, k: Kinds, k': Kinds, i: int)
    requires ValueGraph(g, rank) && i in rank && forall op :: Applies(op, k) ==> Applies(op, k')
    ensures IsValueOp(g[FirstSuited(g, rank, k, i)].opcode) ==> IsValueOp(g[FirstSuited(g, rank, k', i)].opcode)
    decreases rank[i]
  {
    if IsValueOp(g[i].opcode) && !Applies(g[i].opcode, k') {
      ValueNext(g, rank, i, g[i].negated);
      FewerSuited(g, rank, k, k', g[i].Next(g[i].negated));
    }
  }

  lemma DispatchesStays(g: seq<OpNode>, rank: map<int, nat>, i: int, stage: nat, g': seq<OpNode>, rank': map<int, nat>, op: int,
                        g'': seq<OpNode>, rank'': map<int, nat>)
    requires Dispatches(g, rank, i, stage, g', rank', op) && Extends(g', rank', g'', rank'')
    ensures Dispatches(g, rank, i, stage, g'', rank'', op)
  {
    hide Extends, Routes, Settled;
    if op != NULL {
      RoutesStays(g, rank, i, stage, g', rank', op, g'', rank'');
    }
  }

  lemma NothingServed(g: seq<OpNode>, rank: map<int, nat>, i: int, g': seq<OpNode>, rank': map<int, nat>)
    requires ValueGraph(g, rank) && i in rank
    ensures Dispatches(g, rank, i, 0, g', rank', NULL)
  {
  }

  lemma ClauseIsGraph(g: seq<OpNode>, rank: map<int, nat>, ops: set<int>, kinds: Kinds, i: int)
    requires Clause(g, rank, ops, kinds, i)
    ensures ValueGraph(g, rank) && i in rank && 0 <= i < |g| && IsValueOp(g[i].opcode) && Applies(g[i].opcode, kinds)
  {
  }

  lemma SpecialisedRank(g: seq<OpNode>, rank: map<int, nat>, i: int, k: Kinds, g': seq<OpNode>, rank': map<int, nat>, i': int)
    requires Specialised(g, rank, i, k, g', rank', i')
    ensures ValueGraph(g, rank) && i in rank && ValueGraph(g', rank') && i' in rank' && rank'[i'] <= rank[i] && 0 <= i' < |g'|
    ensures IsValueOp(g'[i'].opcode) <==> IsValueOp(g[FirstSuited(g, rank, k, i)].opcode)
  {
    hide Exit, FirstSuited;
  }

  /** What happens in the gap: codes go where the clause leads, but any other value is tested by the ops
      for codes, against whatever LOAD_CODE left behind and whatever string was loaded before. */
  ghost predicate StrayRoutes(g: seq<OpNode>, rank: map<int, nat>, i: int, g': seq<OpNode>, rank': map<int, nat>, op: int) {
    && ValueGraph(g, rank) && i in rank && ValueGraph(g', rank') && op in rank' && rank'[op] <= rank[i] + 3
    && forall lib, v, r {:trigger Run(g', rank', lib, v, r, op)} ::
         Run(g', rank', lib, v, r, op) == if v.CodeValue? then Reference(g, rank, lib, v, i) else StrayExit(g, rank, lib, v, r, i)
  }

  ghost function StrayExit(g: seq<OpNode>, rank: map<int, nat>, lib: Library, v: TagValue, r: Registers, i: int): int
    requires ValueGraph(g, rank) && i in rank
  {
    Exit(g, rank, Only(CODE_OPS, InRegisters(lib, Registers(Word(lib, v), r.str, lib.parse(r.str)))), i)
  }

  lemma StrayAdded(g: seq<OpNode>, rank: map<int, nat>, ops: set<int>, kinds: Kinds, i: int, g': seq<OpNode>, rank': map<int, nat>,
                   op: int, toNum: int, head: int, c: int)
    requires Clause(g, rank, ops, kinds, i) && Extends(g, rank, g', rank') && Specialised(g, rank, i, CODE_OPS, g', rank', op)
    requires Carries(g, rank, i, 3, g', rank', head)
    requires c in rank' && rank'[c] <= rank[i] + 3 && toNum in rank'
    requires g'[toNum].opcode == STR_TO_NUM && Converts(g'[toNum], op) && g'[c] == NewOp(LOAD_CODE, toNum, head)
    ensures StrayRoutes(g, rank, i, g', rank', c)
  {
    hide Exit, Run, Reference, Ranked, ClauseOps, FirstSuited;
    forall lib, v, r
      ensures Run(g', rank', lib, v, r, c) == if v.CodeValue? then Reference(g, rank, lib, v, i) else StrayExit(g, rank, lib, v, r, i)
    {
      StrayRuns(g, rank, ops, kinds, i, g', rank', op, toNum, head, c, lib, v, r);
    }
  }

  lemma StrayRuns(g: seq<OpNode>, rank: map<int, nat>, ops: set<int>, kinds: Kinds, i: int, g': seq<OpNode>, rank': map<int, nat>,
                  op: int, toNum: int, head: int, c: int, lib: Library, v: TagValue, r: Registers)
    requires Clause(g, rank, ops, kinds, i) && Extends(g, rank, g', rank') && Specialised(g, rank, i, CODE_OPS, g', rank', op)
    requires Carries(g, rank, i, 3, g', rank', head) && c in rank' && toNum in rank'
    requires g'[toNum].opcode == STR_TO_NUM && Converts(g'[toNum], op) && g'[c] == NewOp(LOAD_CODE, toNum, head)
    ensures Run(g', rank', lib, v, r, c) == if v.CodeValue? then Reference(g, rank, lib, v, i) else StrayExit(g, rank, lib, v, r, i)
  {
    hide Exit, Ranked, ClauseOps, Clause, FirstSuited, Reference, StrayExit, Run, Specialised, ValueGraph, Extends;
    ExtensionIsGraph(g, rank, g', rank');
    InGraph(g', rank', c);
    RunStep(g', rank', lib, v, r, c);
    var r' := Step(lib, v, r, g'[c]).1;
    if v.CodeValue? {
      assert JustLoaded(3, v, r');
    } else {
      var r'' := r'.(num := lib.parse(r'.str));
      SpecialisedRank(g, rank, i, CODE_OPS, g', rank', op);
      ConversionRuns(g', rank', toNum, op, lib, v, r');
      StrayEnds(g, rank, ops, kinds, i, g', rank', op, lib, v, r'');
      assert r'' == Registers(Word(lib, v), r.str, lib.parse(r.str));
      StrayExitIs(g, rank, lib, v, r, i);
    }
  }

  lemma StrayExitIs(g: seq<OpNode>, rank: map<int, nat>, lib: Library, v: TagValue, r: Registers, i: int)
    requires ValueGraph(g, rank) && i in rank
    ensures StrayExit(g, rank, lib, v, r, i)
            == Exit(g, rank, Only(CODE_OPS, InRegisters(lib, Registers(Word(lib, v), r.str, lib.parse(r.str)))), i)
  {
  }

  /** The clone for codes tests whatever the registers hold. */
  lemma StrayEnds(g: seq<OpNode>, rank: map<int, nat>, ops: set<int>, kinds: Kinds, i: int, g': seq<OpNode>, rank': map<int, nat>,
                  op: int, lib: Library, v: TagValue, r: Registers)
    requires Clause(g, rank, ops, kinds, i) && Extends(g, rank, g', rank') && Specialised(g, rank, i, CODE_OPS, g', rank', op)
    ensures op in rank' && Run(g', rank', lib, v, r, op) == Exit(g, rank, Only(CODE_OPS, InRegisters(lib, r)), i)
  {
    hide Exit, Ranked, ClauseOps, FirstSuited;
    RunThroughValueOps(g', rank', lib, v, r, op);
    var e := Exit(g, rank, Only(CODE_OPS, InRegisters(lib, r)), i);
    assert Exit(g', rank', InRegisters(lib, r), op) == e;
    assert g'[e] == g[e] && !IsValuePart(g[e].opcode);
  }

  /** In the gap the clause's first op is EQ_CODE. */
  lemma AstrayStartsWithCode(g: seq<OpNode>, rank: map<int, nat>, ops: set<int>, kinds: Kinds, i: int)
    requires Clause(g, rank, ops, kinds, i) && Astray(g, rank, kinds, i)
    ensures g[i].opcode == EQ_CODE && FirstSuited(g, rank, CODE_OPS, i) == i
    ensures !IsValueOp(g[FirstSuited(g, rank, NUMBER_OPS, i)].opcode)
  {
    FewerSuited(g, rank, NUMBER_OPS, STRING_OPS, i);
  }

  /** No global string, whatever it is, makes the clause's ops match. */
  ghost predicate NoCodeMatches(g: seq<OpNode>, rank: map<int, nat>, i: int) {
    ValueGraph(g, rank) && i in rank
    && forall lib, c: Short {:trigger Reference(g, rank, lib, CodeValue(c), i)} :: Reference(g, rank, lib, CodeValue(c), i) == WrongType(g, rank, i)
  }

  /** In the gap, a value that is no global string goes where the global string goes whose code is the word that
      is read in its place, and which spells what the string register still holds. */
  lemma StrayIsCode(g: seq<OpNode>, rank: map<int, nat>, ops: set<int>, kinds: Kinds, i: int, lib: Library, lib': Library, v: TagValue, r: Registers)
    requires Clause(g, rank, ops, kinds, i)
    requires lib'.text == lib.text && lib'.number == lib.number && lib'.parse == lib.parse && lib'.globalString(Word(lib, v)) == r.str
    ensures StrayExit(g, rank, lib, v, r, i) == Reference(g, rank, lib', CodeValue(Word(lib, v)), i)
  {
    var code := CodeValue(Word(lib, v));
    var left := Registers(Word(lib, v), r.str, lib.parse(r.str));
    var test := Only(CODE_OPS, InRegisters(lib, left));
    forall j | j in ops ensures 0 <= j < |g| && test(g[j].opcode, g[j].operand) == Holds(lib', code)(g[j].opcode, g[j].operand) {
      SuitedTestIsHolds(lib', code, left, kinds, g[j].opcode, g[j].operand);
    }
    ExitDependsOnTest(g, rank, ops, test, Holds(lib', code), i);
  }

  /** In the gap, only global strings can make the clause match. */
  lemma AstrayUnmatched(g: seq<OpNode>, rank: map<int, nat>, ops: set<int>, kinds: Kinds, i: int, lib: Library, v: TagValue)
    requires Clause(g, rank, ops, kinds, i) && Astray(g, rank, kinds, i) && !v.CodeValue?
    ensures Reference(g, rank, lib, v, i) == WrongType(g, rank, i)
  {
    AstrayStartsWithCode(g, rank, ops, kinds, i);
    UnseenOnTheWay(g, rank, ops, kinds, i, lib, v);
  }

  // ---------------------------------------------------------------- linking a load op

  /** The false branch of a load op: the load ops made before, or what findWrongTypeOp finds from the head */
  ghost function Rest(g: seq<OpNode>, rank: map<int, nat>, nextOp: int, head: int): int
    requires ValueGraph(g, rank) && 0 <= head < |g|
    requires nextOp == NULL ==> g[head].Next(g[head].negated) in rank
  {
    if nextOp == NULL then Exit(g, rank, NEVER, g[head].Next(g[head].negated)) else nextOp
  }

  lemma LoadLinked(g: seq<OpNode>, rank: map<int, nat>, ops: set<int>, kinds: Kinds, i: int, stage: nat,
                   g1: seq<OpNode>, rank1: map<int, nat>, nextOp: int, head: int)
    requires 1 <= stage <= 3 && Clause(g, rank, ops, kinds, i) && Extends(g, rank, g1, rank1)
    requires Dispatches(g, rank, i, stage - 1, g1, rank1, nextOp) && Carries(g, rank, i, stage, g1, rank1, head)
    requires nextOp == NULL ==> FindsWrongType(g, rank, i, g1, rank1, head)
    ensures ValueGraph(g1, rank1) && 0 <= head < |g1| && i in rank
    ensures nextOp == NULL ==> g1[head].Next(g1[head].negated) in rank1
    ensures var g2, rank2 := g1 + [NewOp(LoadOp(stage), Rest(g1, rank1, nextOp, head), head)], rank1[|g1| := rank[i] + stage];
            Extends(g, rank, g2, rank2) && Dispatches(g, rank, i, stage, g2, rank2, |g1|)
  {
    hide Ranked, Carries, Settled, Run, Clause, Target, Exit, NewOp, LoadOp;
    CarriesRank(g, rank, i, stage, g1, rank1, head);
    InGraph(g1, rank1, head);
    var rest := Rest(g1, rank1, nextOp, head);
    if nextOp == NULL {
      ExitRoutes(g, rank, ops, kinds, i, stage - 1, g1, rank1);
    }
    LoadAdded(g, rank, i, stage, g1, rank1, rest, head);
    var g2, rank2 := g1 + [NewOp(LoadOp(stage), rest, head)], rank1[|g1| := rank[i] + stage];
    ExtendsTrans(g, rank, g1, rank1, g2, rank2);
  }

  /** LOAD_CODE whose false branch is the conversion of a string that was not loaded */
  lemma StrayLinked(g: seq<OpNode>, rank: map<int, nat>, ops: set<int>, kinds: Kinds, i: int, g1: seq<OpNode>, rank1: map<int, nat>,
                    op: int, toNum: int, head: int)
    requires Clause(g, rank, ops, kinds, i) && Extends(g, rank, g1, rank1)
    requires Carries(g, rank, i, 3, g1, rank1, head) && Specialised(g, rank, i, CODE_OPS, g1, rank1, op)
    requires toNum in rank1 && i in rank && rank1[toNum] <= rank[i] + 1 && 0 <= toNum < |g1| && g1[toNum].opcode == STR_TO_NUM
    requires Converts(g1[toNum], op)
    ensures var g2, rank2 := g1 + [NewOp(LOAD_CODE, toNum, head)], rank1[|g1| := rank[i] + 3];
            Extends(g, rank, g2, rank2) && StrayRoutes(g, rank, i, g2, rank2, |g1|)
  {
    hide Clause, Extends, Specialised, Ranked, Carries, StrayRoutes, ValueGraph;
    CarriesRank(g, rank, i, 3, g1, rank1, head);
    NodeAppended(g1, rank1, LOAD_CODE, toNum, head, rank[i] + 3);
    var g2, rank2 := g1 + [NewOp(LOAD_CODE, toNum, head)], rank1[|g1| := rank[i] + 3];
    Ranks(g1, rank1, g2, rank2);
    ExtendsTrans(g, rank, g1, rank1, g2, rank2);
    CarriesStays(g, rank, i, 3, g1, rank1, head, g2, rank2);
    SpecialisedStays(g, rank, i, CODE_OPS, g1, rank1, op, g2, rank2);
    StrayAdded(g, rank, ops, kinds, i, g2, rank2, op, toNum, head, |g1|);
  }

  lemma CodeLinked(g: seq<OpNode>, rank: map<int, nat>, ops: set<int>, kinds: Kinds, i: int, g1: seq<OpNode>, rank1: map<int, nat>,
                   nextOp: int, op: int, toNum: int, head: int)
    requires Clause(g, rank, ops, kinds, i) && Extends(g, rank, g1, rank1)
    requires Dispatches(g, rank, i, 2, g1, rank1, nextOp) && Carries(g, rank, i, 3, g1, rank1, head)
    requires Specialised(g, rank, i, CODE_OPS, g1, rank1, op) && 0 <= op < |g1| && IsValueOp(g1[op].opcode)
    requires i in rank && head in rank1 && toNum in rank1 && rank1[toNum] <= rank[i] + 1 && 0 <= head < |g1| && 0 <= toNum < |g1|
    requires if kinds.number then g1[toNum].opcode == STR_TO_NUM && Converts(g1[toNum], op) else toNum == op
    requires if kinds.text || kinds.number then Converts(g1[head], toNum) else head == toNum
    ensures ValueGraph(g1, rank1) && (nextOp == NULL ==> g1[head].Next(g1[head].negated) in rank1)
    ensures var g2, rank2 := g1 + [NewOp(LoadOp(3), Rest(g1, rank1, nextOp, head), head)], rank1[|g1| := rank[i] + 3];
            && Extends(g, rank, g2, rank2)
            && if nextOp == NULL && kinds.number then StrayRoutes(g, rank, i, g2, rank2, |g1|)
               else Dispatches(g, rank, i, 3, g2, rank2, |g1|)
  {
    hide Clause, Extends, Dispatches, Specialised, Ranked, Carries, FindsWrongType, StrayRoutes, NewOp;
    SpecialisedRank(g, rank, i, CODE_OPS, g1, rank1, op);
    if nextOp == NULL && kinds.number {
      StrayLinked(g, rank, ops, kinds, i, g1, rank1, op, toNum, head);
      assert Exit(g1, rank1, NEVER, toNum) == toNum;
    } else {
      if nextOp == NULL {
        if kinds.text {
          ConversionFindsWrongType(g, rank, i, CODE_OPS, g1, rank1, op, head);
        } else {
          ClonedFindsWrongType(g, rank, i, CODE_OPS, g1, rank1, op);
        }
      }
      LoadLinked(g, rank, ops, kinds, i, 3, g1, rank1, nextOp, head);
    }
  }

  // ---------------------------------------------------------------- clauses with one kind of op

  /** From `op`, every tag value goes where the clause leads. */
  ghost predicate LeadsLike(g: seq<OpNode>, rank: map<int, nat>, i: int, g': seq<OpNode>, rank': map<int, nat>, op: int) {
    && ValueGraph(g, rank) && i in rank && ValueGraph(g', rank') && op in rank'
    && forall lib, v, r {:trigger Run(g', rank', lib, v, r, op)} :: Run(g', rank', lib, v, r, op) == Reference(g, rank, lib, v, i)
  }

  lemma RoutesAllValues(g: seq<OpNode>, rank: map<int, nat>, i: int, g': seq<OpNode>, rank': map<int, nat>, op: int)
    requires Routes(g, rank, i, 3, g', rank', op)
    ensures LeadsLike(g, rank, i, g', rank', op)
  {
    hide Run, Reference, WrongType, Ranked;
  }

  /** The dispatch of a clause in the gap is right exactly if no global string makes the clause match: else the
      narrow number that is stored as the string's code, behind a tag that left this string, goes where it goes. */
  lemma StrayIsRight(g: seq<OpNode>, rank: map<int, nat>, ops: set<int>, kinds: Kinds, i: int, g': seq<OpNode>, rank': map<int, nat>, op: int)
    requires Clause(g, rank, ops, kinds, i) && Astray(g, rank, kinds, i) && StrayRoutes(g, rank, i, g', rank', op)
    ensures LeadsLike(g, rank, i, g', rank', op) <==> NoCodeMatches(g, rank, i)
  {
    hide Clause, Run, Astray, StrayExit, Reference, WrongType, Ranked;
    if NoCodeMatches(g, rank, i) {
      forall lib, v, r ensures Run(g', rank', lib, v, r, op) == Reference(g, rank, lib, v, i) {
        if !v.CodeValue? {
          StrayIsCode(g, rank, ops, kinds, i, lib, lib.(globalString := (c: nat) => r.str), v, r);
          AstrayUnmatched(g, rank, ops, kinds, i, lib, v);
        }
      }
    }
    if LeadsLike(g, rank, i, g', rank', op) {
      forall lib, c: Short ensures Reference(g, rank, lib, CodeValue(c), i) == WrongType(g, rank, i) {
        var v, r := NarrowNumber(c), Registers(0, lib.globalString(c), None);
        StrayIsCode(g, rank, ops, kinds, i, lib, lib, v, r);
        AstrayUnmatched(g, rank, ops, kinds, i, lib, v);
        assert Run(g', rank', lib, v, r, op) == Reference(g, rank, lib, v, i);
      }
    }
  }

  /** What the validator builds for a clause is right exactly if the clause is not in the gap, or no global string makes
      it match. */
  lemma DispatchIsRight(g: seq<OpNode>, rank: map<int, nat>, ops: set<int>, kinds: Kinds, i: int, g': seq<OpNode>, rank': map<int, nat>, op: int)
    requires Clause(g, rank, ops, kinds, i)
    requires if Astray(g, rank, kinds, i) then StrayRoutes(g, rank, i, g', rank', op) else LeadsLike(g, rank, i, g', rank', op)
    ensures LeadsLike(g, rank, i, g', rank', op) <==> !Astray(g, rank, kinds, i) || NoCodeMatches(g, rank, i)
  {
    hide Clause, LeadsLike, StrayRoutes, Astray, NoCodeMatches;
    if Astray(g, rank, kinds, i) {
      StrayIsRight(g, rank, ops, kinds, i, g', rank', op);
    }
  }

  /** A clause all of whose ops apply is its own specialisation. */
  lemma OwnSpecialisation(g: seq<OpNode>, rank: map<int, nat>, ops: set<int>, kinds: Kinds, i: int, k: Kinds)
    requires Clause(g, rank, ops, kinds, i) && forall op :: Applies(op, kinds) ==> Applies(op, k)
    ensures Specialised(g, rank, i, k, g, rank, i)
  {
    forall test: Test ensures Exit(g, rank, test, i) == Exit(g, rank, Only(k, test), i) {
      ExitDependsOnTest(g, rank, ops, test, Only(k, test), i);
    }
  }

  const JUST_CODES: Kinds := Kinds(true, false, false, false)
  const JUST_STRINGS: Kinds := Kinds(false, true, false, false)

  lemma CodeClause(g: seq<OpNode>, rank: map<int, nat>, ops: set<int>, i: int)
    requires Clause(g, rank, ops, JUST_CODES, i)
    ensures Dispatches(g, rank, i, 2, g, rank, NULL) && Carries(g, rank, i, 3, g, rank, i) && FindsWrongType(g, rank, i, g, rank, i)
  {
    hide Clause, Dispatches, Carries, Ranked, Specialised, FindsWrongType;
    ClauseIsGraph(g, rank, ops, JUST_CODES, i);
    ExtendsSelf(g, rank);
    NothingServed(g, rank, i, g, rank);
    StageSkipped(g, rank, ops, JUST_CODES, i, 1, NUMBER_OPS, g, rank, NULL);
    StageSkipped(g, rank, ops, JUST_CODES, i, 2, STRING_OPS, g, rank, NULL);
    OwnSpecialisation(g, rank, ops, JUST_CODES, i, CODE_OPS);
    CodeCarried(g, rank, ops, JUST_CODES, i, g, rank, i, i, i);
    ClonedFindsWrongType(g, rank, i, CODE_OPS, g, rank, i);
  }

  lemma StringClause(g: seq<OpNode>, rank: map<int, nat>, ops: set<int>, i: int)
    requires Clause(g, rank, ops, JUST_STRINGS, i)
    ensures Dispatches(g, rank, i, 1, g, rank, NULL) && Carries(g, rank, i, 2, g, rank, i) && FindsWrongType(g, rank, i, g, rank, i)
  {
    hide Clause, Dispatches, Carries, Ranked, Specialised, FindsWrongType;
    ClauseIsGraph(g, rank, ops, JUST_STRINGS, i);
    ExtendsSelf(g, rank);
    NothingServed(g, rank, i, g, rank);
    StageSkipped(g, rank, ops, JUST_STRINGS, i, 1, NUMBER_OPS, g, rank, NULL);
    OwnSpecialisation(g, rank, ops, JUST_STRINGS, i, STRING_OPS);
    StringCarried(g, rank, ops, JUST_STRINGS, i, g, rank, i, i);
    ClonedFindsWrongType(g, rank, i, STRING_OPS, g, rank, i);
  }

  /** A string that is not a number matches no numeric op. */
  lemma NotANumber(g: seq<OpNode>, rank: map<int, nat>, ops: set<int>, i: int, lib: Library, v: TagValue)
    requires Clause(g, rank, ops, NUMBER_OPS, i) && NumberOf(lib, v).None?
    ensures Reference(g, rank, lib, v, i) == WrongType(g, rank, i)
  {
    forall j | j in ops ensures 0 <= j < |g| && Holds(lib, v)(g[j].opcode, g[j].operand) == NEVER(g[j].opcode, g[j].operand) {
      assert Applies(g[j].opcode, NUMBER_OPS);
    }
    ExitDependsOnTest(g, rank, ops, Holds(lib, v), NEVER, i);
  }

  /** The five ops in front of a clause with numeric ops only: the number itself, or what the string or the
      code's string spells */
  function NumberChain(g: seq<OpNode>, first: int, wrongType: int): seq<OpNode> {
    g + [NewOp(STR_TO_NUM, wrongType, first), NewOp(CODE_TO_STR, |g|, NULL), NewOp(LOAD_CODE, wrongType, |g| + 1),
         NewOp(LOAD_STRING, |g| + 2, |g|), NewOp(LOAD_NUM, |g| + 3, first)]
  }

  function NumberChainRanks(rank: map<int, nat>, size: nat, first: int): map<int, nat>
    requires first in rank
  {
    rank[size := rank[first] + 1][size + 1 := rank[first] + 2][size + 2 := rank[first] + 3][size + 3 := rank[first] + 4]
      [size + 4 := rank[first] + 5]
  }

  lemma NumberChainRanked(g: seq<OpNode>, rank: map<int, nat>, first: int, wrongType: int)
    requires ValueGraph(g, rank) && first in rank && wrongType in rank && rank[wrongType] <= rank[first]
    ensures Extends(g, rank, NumberChain(g, first, wrongType), NumberChainRanks(rank, |g|, first))
  {
    hide Ranked, ValueGraph, Extends;
    var n, r := |g|, rank[first];
    NodeAppended(g, rank, STR_TO_NUM, wrongType, first, r + 1);
    var g1, rank1 := g + [NewOp(STR_TO_NUM, wrongType, first)], rank[n := r + 1];
    Ranks(g, rank, g1, rank1);
    NodeAppended(g1, rank1, CODE_TO_STR, n, NULL, r + 2);
    var g2, rank2 := g1 + [NewOp(CODE_TO_STR, n, NULL)], rank1[n + 1 := r + 2];
    Ranks(g1, rank1, g2, rank2);
    NodeAppended(g2, rank2, LOAD_CODE, wrongType, n + 1, r + 3);
    var g3, rank3 := g2 + [NewOp(LOAD_CODE, wrongType, n + 1)], rank2[n + 2 := r + 3];
    Ranks(g2, rank2, g3, rank3);
    NodeAppended(g3, rank3, LOAD_STRING, n + 2, n, r + 4);
    var g4, rank4 := g3 + [NewOp(LOAD_STRING, n + 2, n)], rank3[n + 3 := r + 4];
    Ranks(g3, rank3, g4, rank4);
    NodeAppended(g4, rank4, LOAD_NUM, n + 3, first, r + 5);
    var g5, rank5 := g4 + [NewOp(LOAD_NUM, n + 3, first)], rank4[n + 4 := r + 5];
    ExtendsTrans(g, rank, g1, rank1, g2, rank2);
    ExtendsTrans(g, rank, g2, rank2, g3, rank3);
    ExtendsTrans(g, rank, g3, rank3, g4, rank4);
    ExtendsTrans(g, rank, g4, rank4, g5, rank5);
    assert g5 == NumberChain(g, first, wrongType);
  }

  /** One step of the engine through a load or conversion */
  lemma RunStep(g: seq<OpNode>, rank: map<int, nat>, lib: Library, v: TagValue, r: Registers, c: int)
    requires ValueGraph(g, rank) && c in rank && 0 <= c < |g| && LOAD_CODE <= g[c].opcode <= STR_TO_NUM && !g[c].negated
    ensures var (matched, r') := Step(lib, v, r, g[c]);
            var next := if matched then g[c].next1 else g[c].next0;
            next in rank && Run(g, rank, lib, v, r, c) == Run(g, rank, lib, v, r', next)
  {
  }

  lemma ExtensionIsGraph(g: seq<OpNode>, rank: map<int, nat>, g': seq<OpNode>, rank': map<int, nat>)
    requires Extends(g, rank, g', rank')
    ensures ValueGraph(g', rank')
  {
  }

  /** From the conversion, a string goes where the clause leads for what it spells. */
  lemma SpelledNumberRuns(g: seq<OpNode>, rank: map<int, nat>, ops: set<int>, i: int, g': seq<OpNode>, rank': map<int, nat>, c: int,
                          lib: Library, v: TagValue, r: Registers)
    requires Clause(g, rank, ops, NUMBER_OPS, i) && Extends(g, rank, g', rank') && c in rank' && 0 <= c < |g'|
    requires g'[c] == NewOp(STR_TO_NUM, WrongType(g, rank, i), i)
    requires !v.IsNumber() && r.str == TextOf(lib, v) && (v.CodeValue? ==> r.code == v.code)
    ensures Run(g', rank', lib, v, r, c) == Reference(g, rank, lib, v, i)
  {
    hide Run, Exit, Ranked, ValueGraph, ClauseOps, Clause, Extends, Reference, WrongType, Specialised;
    ClauseIsGraph(g, rank, ops, NUMBER_OPS, i);
    var r' := r.(num := lib.parse(r.str));
    ExtensionIsGraph(g, rank, g', rank');
    RunStep(g', rank', lib, v, r, c);
    if lib.parse(r.str).Some? {
      OwnSpecialisation(g, rank, ops, NUMBER_OPS, i, OpsFor(v));
      ExtendsSelf(g, rank);
      SpecialisedStays(g, rank, i, OpsFor(v), g, rank, i, g', rank');
      SpecialisedRun(g, rank, ops, NUMBER_OPS, i, g', rank', i, lib, v, r');
    } else {
      NotANumber(g, rank, ops, i, lib, v);
      ExitRuns(g, rank, ops, NUMBER_OPS, i, g', rank', lib, v, r');
    }
  }

  lemma ExitRuns(g: seq<OpNode>, rank: map<int, nat>, ops: set<int>, kinds: Kinds, i: int, g': seq<OpNode>, rank': map<int, nat>,
                 lib: Library, v: TagValue, r: Registers)
    requires Clause(g, rank, ops, kinds, i) && Extends(g, rank, g', rank')
    ensures WrongType(g, rank, i) in rank' && Run(g', rank', lib, v, r, WrongType(g, rank, i)) == WrongType(g, rank, i)
  {
  }

  lemma NumberChainRuns(g: seq<OpNode>, rank: map<int, nat>, ops: set<int>, i: int, g': seq<OpNode>, rank': map<int, nat>,
                        lib: Library, v: TagValue, r: Registers)
    requires Clause(g, rank, ops, NUMBER_OPS, i) && Extends(g, rank, g', rank') && ValueGraph(g', rank')
    requires g' == NumberChain(g, i, WrongType(g, rank, i)) && forall c :: |g| <= c < |g| + 5 ==> c in rank'
    ensures Run(g', rank', lib, v, r, |g| + 4) == Reference(g, rank, lib, v, i)
  {
    hide Ranked, ValueGraph, Extends, Clause, Exit, Run, Reference, WrongType;
    var n := |g|;
    RunStep(g', rank', lib, v, r, n + 4);
    match v
    case CodeValue(code) =>
      RunStep(g', rank', lib, v, r, n + 3);
      var r1 := r.(str := lib.rawString(v));
      RunStep(g', rank', lib, v, r1, n + 2);
      var r2 := r1.(code := code);
      RunStep(g', rank', lib, v, r2, n + 1);
      SpelledNumberRuns(g, rank, ops, i, g', rank', n, lib, v, r2.(str := lib.globalString(code)));
    case StringValue(s) =>
      RunStep(g', rank', lib, v, r, n + 3);
      SpelledNumberRuns(g, rank, ops, i, g', rank', n, lib, v, r.(str := s));
    case _ =>
      OwnSpecialisation(g, rank, ops, NUMBER_OPS, i, NUMBER_OPS);
      ClauseIsGraph(g, rank, ops, NUMBER_OPS, i);
      SpecialisedStays(g, rank, i, NUMBER_OPS, g, rank, i, g', rank');
      SpecialisedRun(g, rank, ops, NUMBER_OPS, i, g', rank', i, lib, v, r.(num := Some(Numeric(v))));
  }

  lemma NumberClause(g: seq<OpNode>, rank: map<int, nat>, ops: set<int>, i: int)
    requires Clause(g, rank, ops, NUMBER_OPS, i)
    ensures ValueGraph(g, rank) && i in rank
    ensures var g', rank' := NumberChain(g, i, WrongType(g, rank, i)), NumberChainRanks(rank, |g|, i);
            Extends(g, rank, g', rank') && LeadsLike(g, rank, i, g', rank', |g| + 4)
  {
    hide Ranked, Clause, Exit, Run, Reference, NumberChain;
    ClauseIsGraph(g, rank, ops, NUMBER_OPS, i);
    var w := WrongType(g, rank, i);
    ExitRank(g, rank, NEVER, i);
    NumberChainRanked(g, rank, i, w);
    var g', rank' := NumberChain(g, i, w), NumberChainRanks(rank, |g|, i);
    var loadOp := |g| + 4;
    forall lib, v, r ensures Run(g', rank', lib, v, r, loadOp) == Reference(g, rank, lib, v, i) {
      NumberChainRuns(g, rank, ops, i, g', rank', lib, v, r);
    }
  }

  /** The branch of the key op that leads to the clause's value ops: a negated key goes there when it is unmatched */
  ghost predicate LoadsInserted(g: seq<OpNode>, rank: map<int, nat>, keyOp: int, kinds: Kinds, first: int, g': seq<OpNode>, rank': map<int, nat>) {
    && 0 <= keyOp < |g| && |g| <= |g'|
    && var n, n' := g[keyOp], g'[keyOp];
       var loadOp := n'.Next(!n.negated);
       && n' == (if n.negated then n.(next0 := loadOp) else n.(next1 := loadOp))
       && Extends(g, rank, g', rank')
       && if Astray(g, rank, kinds, first) then StrayRoutes(g, rank, first, g', rank', loadOp)
          else LeadsLike(g, rank, first, g', rank', loadOp)
  }

  /** The key op lies outside the ranked value part: relinking it changes nothing there. */
  lemma KeyRelinked(g: seq<OpNode>, rank: map<int, nat>, keyOp: int, kinds: Kinds, first: int, g1: seq<OpNode>, rank1: map<int, nat>, loadOp: int)
    requires 0 <= keyOp < |g| && g <= g1 && keyOp !in rank1 && Extends(g, rank, g1, rank1)
    requires if Astray(g, rank, kinds, first) then StrayRoutes(g, rank, first, g1, rank1, loadOp)
             else LeadsLike(g, rank, first, g1, rank1, loadOp)
    ensures var n := g[keyOp];
            LoadsInserted(g, rank, keyOp, kinds, first, g1[keyOp := if n.negated then n.(next0 := loadOp) else n.(next1 := loadOp)], rank1)
  {
    hide Ranked, Run, Exit, Reference, StrayExit, FirstSuited;
    var n := g[keyOp];
    var g2 := g1[keyOp := if n.negated then n.(next0 := loadOp) else n.(next1 := loadOp)];
    SlotWritten(g1, rank1, keyOp, g2[keyOp]);
    ExtendsTrans(g, rank, g1, rank1, g2, rank1);
    forall lib, v, r ensures Run(g2, rank1, lib, v, r, loadOp) == Run(g1, rank1, lib, v, r, loadOp) {
      RunStays(g1, rank1, g2, rank1, lib, v, r, loadOp);
    }
  }
}
