/** The op graph of a compiled tag query (src/match/OpGraph.h, OpGraph.cpp).

    Nodes live in an arena; a pointer to a node is its index in the arena, and -1 is the
    null pointer. What an op does to the engine's state, and whether it matches, is given
    by an arbitrary function, so everything proved holds for every meaning of the ops. */
module OpGraphs {

  const NULL: int := -1

  const NOP: nat := 0
  const EQ_CODE: nat := 1
  const EQ_STR: nat := 2
  const STARTS_WITH: nat := 3
  const ENDS_WITH: nat := 4
  const CONTAINS: nat := 5
  const REGEX: nat := 6
  const EQ_NUM: nat := 7
  const GT: nat := 11
  const GLOBAL_KEY: nat := 12
  const FIRST_GLOBAL_KEY: nat := 13
  const LOCAL_KEY: nat := 14
  const FIRST_LOCAL_KEY: nat := 15
  const HAS_LOCAL_KEYS: nat := 16
  const LOAD_CODE: nat := 17
  const LOAD_STRING: nat := 18
  const LOAD_NUM: nat := 19
  const CODE_TO_STR: nat := 20
  const STR_TO_NUM: nat := 21
  const FEATURE_TYPE: nat := 22
  const GOTO: nat := 23
  const RETURN: nat := 24

  datatype OperandType = NoneType | CodeType | StringType | DoubleType | RegexType | FeatureTypesType

  /** OPCODE_OPERAND_TYPES */
  function OperandTypeOf(op: nat): OperandType {
    if op == EQ_CODE || op == GLOBAL_KEY || op == FIRST_GLOBAL_KEY then CodeType
    else if EQ_STR <= op <= CONTAINS || op == LOCAL_KEY || op == FIRST_LOCAL_KEY then StringType
    else if op == REGEX then RegexType
    else if EQ_NUM <= op <= GT then DoubleType
    else if op == FEATURE_TYPE then FeatureTypesType
    else NoneType
  }

  /** OPCODE_ARGS: the words that follow the opcode word (operand and jump slot) */
  function Args(op: nat): nat {
    if op == NOP || op == CODE_TO_STR || op == RETURN then 0
    else if op == FEATURE_TYPE then 3
    else if OperandTypeOf(op) == NoneType then 1
    else 2
  }

  predicate IsPlain(op: nat) { op == NOP || op == CODE_TO_STR }

  predicate IsBranch(op: nat) { op < GOTO && !IsPlain(op) }

  predicate HasJump(op: nat) { op == GOTO || IsBranch(op) }

  datatype Operand =
    | NoOperand
    | Code(code: nat)
    | Str(str: string)
    | Num(num: real)
    | Regex(regex: nat)
    | Types(types: nat)

  datatype OpNode = OpNode(
    opcode: nat,
    operand: Operand,
    negated: bool,
    next0: int,
    next1: int,
    address: nat,
    callerCount: nat,
    deferred: bool,
    emitted: bool)
  {
    /** OpNode::inverse */
    function Inverse(): OpNode {
      this.(negated := !negated, next0 := next1, next1 := next0)
    }

    /** `next[t]` */
    function Next(t: bool): int { if t then next1 else next0 }
  }

  function NewOp(op: nat, next0: int, next1: int): OpNode {
    OpNode(op, NoOperand, false, next0, next1, 0, 0, false, false)
  }

  /** The operand a node of this opcode carries, in the width the source stores it in */
  predicate OperandOk(n: OpNode) {
    match OperandTypeOf(n.opcode)
    case CodeType => n.operand.Code? && n.operand.code < 0x1_0000
    case StringType => n.operand.Str? && |n.operand.str| < 0x1_0000
    case DoubleType => n.operand.Num?
    case RegexType => n.operand.Regex?
    case FeatureTypesType => n.operand.Types? && n.operand.types < 0x1_0000_0000
    case NoneType =>
      if n.opcode == RETURN then n.operand.Code? && n.operand.code < 0x100 else n.operand == NoOperand
  }

  /** `t` is a node the op can continue with */
  predicate IsEdge(n: OpNode, t: int) {
    (n.opcode != RETURN && t == n.next0) || (HasJump(n.opcode) && t == n.next1)
  }

  /** A finite acyclic graph: `rank` names a set of nodes closed under the links and decreases
      along every link. Every finite acyclic graph has such a rank. */
  ghost predicate Ranked(g: seq<OpNode>, rank: map<int, nat>) {
    && (forall i :: i in rank ==> 0 <= i < |g| && g[i].opcode <= RETURN && OperandOk(g[i]))
    && (forall i :: i in rank && g[i].opcode != RETURN ==>
          g[i].next0 in rank && rank[g[i].next0] < rank[i])
    && (forall i :: i in rank && HasJump(g[i].opcode) ==>
          g[i].next1 in rank && rank[g[i].next1] < rank[i])
    && (forall i :: i in rank && g[i].opcode == GOTO ==> g[i].next0 == g[i].next1)
  }

  /** What the op tests and does: `eval(opcode, operand, state) == (matched, state')` */
  type Meaning<!S> = (nat, Operand, S) -> (bool, S)

  /** Walking the graph: the reference meaning of a query. A negated op continues with
      `next[matched xor negated]`. */
  ghost function Walk<S>(g: seq<OpNode>, rank: map<int, nat>, eval: Meaning<S>, i: int, s: S): nat
    requires Ranked(g, rank) && i in rank
    decreases rank[i]
  {
    var n := g[i];
    if n.opcode == RETURN then n.operand.code
    else if n.opcode == NOP || n.opcode == GOTO then Walk(g, rank, eval, n.next0, s)
    else if n.opcode == CODE_TO_STR then Walk(g, rank, eval, n.next0, eval(n.opcode, n.operand, s).1)
    else
      var (matched, s') := eval(n.opcode, n.operand, s);
      Walk(g, rank, eval, n.Next(matched != n.negated), s')
  }

  /** The rank is only a proof of termination: it does not influence the result. */
  lemma {:induction false} WalkIgnoresRank<S>(
      g: seq<OpNode>, rank: map<int, nat>, rank': map<int, nat>, eval: Meaning<S>, i: int, s: S)
    requires Ranked(g, rank) && Ranked(g, rank') && i in rank && i in rank'
    ensures Walk(g, rank, eval, i, s) == Walk(g, rank', eval, i, s)
    decreases rank[i]
  {
    var n := g[i];
    if n.opcode == RETURN {
    } else if n.opcode == NOP || n.opcode == GOTO {
      WalkIgnoresRank(g, rank, rank', eval, n.next0, s);
    } else if n.opcode == CODE_TO_STR {
      WalkIgnoresRank(g, rank, rank', eval, n.next0, eval(n.opcode, n.operand, s).1);
    } else {
      var (matched, s') := eval(n.opcode, n.operand, s);
      WalkIgnoresRank(g, rank, rank', eval, n.Next(matched != n.negated), s');
    }
  }

  /** `k` can be reached from `root` along the links */
  ghost predicate IsPath(g: seq<OpNode>, path: seq<int>) {
    && |path| > 0
    && forall i :: 0 <= i < |path| - 1 ==> 0 <= path[i] < |g| && IsEdge(g[path[i]], path[i + 1])
  }

  ghost predicate Reachable(g: seq<OpNode>, root: int, k: int) {
    exists path :: IsPath(g, path) && path[0] == root && path[|path| - 1] == k
  }

  lemma ReachRoot(g: seq<OpNode>, root: int)
    ensures Reachable(g, root, root)
  {
    assert IsPath(g, [root]);
  }

  lemma ReachStep(g: seq<OpNode>, root: int, k: int, t: int)
    requires Reachable(g, root, k) && 0 <= k < |g| && IsEdge(g[k], t)
    ensures Reachable(g, root, t)
  {
    var path :| IsPath(g, path) && path[0] == root && path[|path| - 1] == k;
    var longer := path + [t];
    assert IsPath(g, longer);
  }

  /** A set that contains the root and is closed under the links contains every reachable node. */
  lemma ReachableInClosedSet(g: seq<OpNode>, root: int, closed: set<int>, k: int)
    requires root in closed
    requires forall i, t :: i in closed && 0 <= i < |g| && IsEdge(g[i], t) ==> t in closed
    requires Reachable(g, root, k)
    ensures k in closed
  {
    var path :| IsPath(g, path) && path[0] == root && path[|path| - 1] == k;
    var i := 0;
    while i < |path| - 1
      invariant 0 <= i < |path| && path[i] in closed
    {
      i := i + 1;
    }
  }

  /** The arena that owns the nodes */
  class OpGraph {
    var nodes: seq<OpNode>

    constructor (nodes: seq<OpNode>)
      ensures this.nodes == nodes
    {
      this.nodes := nodes;
    }

    method Alloc(n: OpNode) returns (ref: int)
      modifies this`nodes
      ensures ref == |old(nodes)| && nodes == old(nodes) + [n]
    {
      ref := |nodes|;
      nodes := nodes + [n];
    }

    /** Both links of a GOTO are its target: the emitter patches jumps through `next[1]`. */
    method CreateGoto(target: int) returns (ref: int)
      modifies this`nodes
      ensures ref == |old(nodes)| && nodes == old(nodes) + [NewOp(GOTO, target, target)]
    {
      ref := Alloc(NewOp(GOTO, target, target));
    }
  }
}
