/** The linear code the emitter writes, and the invariant of its placement loop.

    Everything here is about snapshots: the arena, the code words written so far, the word
    index of every placed node, the stack of deferred nodes and the stack of jumps. */
module Layouts {
  import opened OpGraphs

  type Word = w: int | 0 <= w < 0x1_0000

  /** The op graph handed to the emitter and the byte address of the code, where address 0
      is the start of the resource area. */
  datatype Source = Source(graph: seq<OpNode>, ghost rank: map<int, nat>, root: int, base: nat)

  function Size(n: OpNode): nat { 1 + Args(n.opcode) }

  /** The opcode word, stored as 16 bits: bit 8 negates, a RETURN keeps its value in the upper byte. */
  function OpWord(n: OpNode): Word {
    var upper :=
      if n.opcode == RETURN then if n.operand.Code? then n.operand.code else 0
      else if IsBranch(n.opcode) && n.negated then 1
      else 0;
    (n.opcode + 0x100 * upper) % 0x1_0000
  }

  /** Resources precede the code; an operand word holds the distance back to its resource. */
  function DistanceWord(operandAddress: int, resourceAddress: int): Word {
    (operandAddress - resourceAddress) % 0x1_0000
  }

  /** The word at `i`, or 0 outside the code */
  function WordAt(code: seq<Word>, i: int): int {
    if 0 <= i < |code| then code[i] else 0
  }

  ghost predicate ResourceAt(operand: Operand, word: int, address: int, res: map<nat, Operand>) {
    exists a :: a in res && res[a] == operand && word == DistanceWord(address, a)
  }

  ghost predicate OperandAt(n: OpNode, code: seq<Word>, pc: int, base: nat, res: map<nat, Operand>) {
    match OperandTypeOf(n.opcode)
    case CodeType => n.operand == Code(WordAt(code, pc + 1))
    case FeatureTypesType => n.operand == Types(WordAt(code, pc + 1) + 0x1_0000 * WordAt(code, pc + 2))
    case NoneType => true
    case _ => ResourceAt(n.operand, WordAt(code, pc + 1), base + 2 * (pc + 1), res)
  }

  ghost predicate Encoded(n: OpNode, code: seq<Word>, pc: int, base: nat, res: map<nat, Operand>) {
    && n.opcode <= RETURN && OperandOk(n)
    && 0 <= pc && pc + Size(n) <= |code|
    && WordAt(code, pc) == OpWord(n)
    && OperandAt(n, code, pc, base, res)
  }

  ghost predicate Extends(res: map<nat, Operand>, res': map<nat, Operand>) {
    forall a :: a in res ==> a in res' && res'[a] == res[a]
  }

  lemma EncodedInLongerCode(n: OpNode, code: seq<Word>, code': seq<Word>, pc: int, base: nat,
                            res: map<nat, Operand>, res': map<nat, Operand>)
    requires Encoded(n, code, pc, base, res) && code <= code'
    requires Extends(res, res')
    ensures Encoded(n, code', pc, base, res')
  {
    assert WordAt(code', pc) == WordAt(code, pc);
    assert Size(n) > 1 ==> WordAt(code', pc + 1) == WordAt(code, pc + 1);
    assert Size(n) > 2 ==> WordAt(code', pc + 2) == WordAt(code, pc + 2);
  }

  /** The opcode word may be rewritten in place without touching the operand. */
  lemma SameOperandWords(n: OpNode, code: seq<Word>, code': seq<Word>, pc: int, base: nat, res: map<nat, Operand>)
    requires n.opcode <= RETURN && OperandOk(n) && 0 <= pc && pc + Size(n) <= |code|
    requires OperandAt(n, code, pc, base, res)
    requires |code'| == |code| && code'[pc] == OpWord(n)
    requires forall i :: pc < i < |code| ==> code'[i] == code[i]
    ensures Encoded(n, code', pc, base, res)
  {
    assert Size(n) > 1 ==> WordAt(code', pc + 1) == WordAt(code, pc + 1);
    assert Size(n) > 2 ==> WordAt(code', pc + 2) == WordAt(code, pc + 2);
  }

  datatype EmitState = EmitState(
    nodes: seq<OpNode>,
    code: seq<Word>,
    at: map<int, nat>,
    deferred: seq<int>,
    jumps: seq<int>,
    res: map<nat, Operand>)
  {
    /** The node `k` points to; a node of opcode NOP without links when `k` is no node */
    function Node(k: int): OpNode {
      if 0 <= k < |nodes| then nodes[k] else NewOp(NOP, NULL, NULL)
    }

    predicate Placed(k: int) { k in at }

    function Pc(k: int): int { if k in at then at[k] else -1 }

    function End(k: int): int { Pc(k) + Size(Node(k)) }
  }

  /** Link `now` is link `before` of the original graph, possibly through an inserted GOTO. */
  ghost predicate Via(src: Source, st: EmitState, before: int, now: int) {
    || now == before
    || (|src.graph| <= now < |st.nodes| && st.nodes[now].opcode == GOTO && st.nodes[now].next0 == before)
  }

  /** `now` does what `before` does: same op, links kept, or swapped and the sense inverted. */
  ghost predicate SameOp(src: Source, st: EmitState, before: OpNode, now: OpNode) {
    && now.opcode == before.opcode && now.operand == before.operand
    && (|| (now.negated == before.negated
            && Via(src, st, before.next0, now.next0) && Via(src, st, before.next1, now.next1))
        || (IsBranch(before.opcode) && now.negated != before.negated
            && Via(src, st, before.next0, now.next1) && Via(src, st, before.next1, now.next0)))
  }

  ghost predicate IsOp(src: Source, k: int) { k in src.rank && 0 <= k < |src.graph| }

  ghost predicate IsGoto(src: Source, st: EmitState, k: int) { |src.graph| <= k < |st.nodes| }

  ghost predicate GotoOk(src: Source, st: EmitState, n: OpNode) {
    n.opcode == GOTO && n.operand == NoOperand && !n.negated && n.next0 == n.next1
    && IsOp(src, n.next0) && st.Placed(n.next0)
  }

  ghost predicate WellFormed(src: Source) {
    && Ranked(src.graph, src.rank) && src.root in src.rank
    && (forall k :: k in src.rank ==>
          src.graph[k].opcode != GOTO && src.graph[k].address == 0 && !src.graph[k].deferred)
  }

  ghost predicate Untouched(before: OpNode, now: OpNode) {
    now == before.(deferred := now.deferred)
  }

  ghost predicate GraphInv(src: Source, st: EmitState) {
    && |src.graph| <= |st.nodes|
    && (forall k :: IsOp(src, k) ==> SameOp(src, st, src.graph[k], st.Node(k)))
    && (forall k :: IsOp(src, k) && !st.Placed(k) ==> Untouched(src.graph[k], st.Node(k)))
    && (forall k :: IsGoto(src, st, k) ==> GotoOk(src, st, st.Node(k)))
  }

  ghost predicate AddressInv(src: Source, st: EmitState) {
    && (forall k :: st.Placed(k) ==> IsOp(src, k) || IsGoto(src, st, k))
    && (forall k :: st.Placed(k) ==> (st.Pc(k) == 0 <==> k == src.root))
    && (forall k :: st.Placed(k) ==> st.Node(k).address == 2 * st.Pc(k))
    && (forall k :: (IsOp(src, k) || IsGoto(src, st, k)) && !st.Placed(k) ==> st.Node(k).address == 0)
  }

  ghost predicate CodeInv(src: Source, st: EmitState) {
    && (forall k :: st.Placed(k) ==> Encoded(st.Node(k), st.code, st.Pc(k), src.base, st.res))
    && (forall j, k :: st.Placed(j) && st.Placed(k) && j != k ==>
          st.End(j) <= st.Pc(k) || st.End(k) <= st.Pc(j))
  }

  ghost predicate FallsTo(st: EmitState, k: int, next: int, cur: int) {
    (st.Placed(next) && st.Pc(next) == st.End(k)) || (next == cur != NULL && |st.code| == st.End(k))
  }

  ghost predicate Awaited(st: EmitState, next: int, cur: int) {
    st.Placed(next) || next in st.deferred || next == cur != NULL
  }

  /** Every placed op is followed by its false branch, and its true branch is placed or awaited.
      `cur` is the op about to be placed, or NULL. */
  ghost predicate FlowInv(src: Source, st: EmitState, cur: int) {
    && (forall k :: st.Placed(k) && st.Node(k).opcode < GOTO ==> FallsTo(st, k, st.Node(k).next0, cur))
    && (forall k :: st.Placed(k) && HasJump(st.Node(k).opcode) ==>
          k in st.jumps && Awaited(st, st.Node(k).next1, cur))
    && (forall k :: k in st.jumps ==> st.Placed(k) && HasJump(st.Node(k).opcode))
  }

  ghost predicate BelowRoot(src: Source, k: int) {
    && IsOp(src, k) && src.root in src.rank
    && Reachable(src.graph, src.root, k)
    && (k == src.root || src.rank[k] < src.rank[src.root])
  }

  ghost predicate PendingInv(src: Source, st: EmitState, cur: int) {
    && (forall d :: d in st.deferred ==> BelowRoot(src, d) && d != src.root)
    && (forall k :: IsOp(src, k) && st.Node(k).deferred ==> Awaited(st, k, cur))
    && (forall k :: IsOp(src, k) && st.Placed(k) ==> BelowRoot(src, k))
    && (forall k :: IsGoto(src, st, k) ==> st.Placed(k) || k == cur)
    && (cur == NULL || ((BelowRoot(src, cur) || IsGoto(src, st, cur)) && !st.Placed(cur)))
    && (st.Placed(src.root) || (cur == src.root && st.code == [] && st.at == map[] && st.deferred == []))
  }

  /** Control enters op `k` at `pc` from op `j`, placed above it: by falling through or by a jump. */
  ghost predicate EntersFrom(st: EmitState, j: int, k: int, pc: int) {
    && st.Placed(j)
    && (|| (st.Node(j).opcode < GOTO && st.End(j) == pc)
        || (HasJump(st.Node(j).opcode) && st.Node(j).next1 == k && st.Pc(j) < pc))
  }

  ghost predicate Entered(st: EmitState, k: int, pc: int) {
    exists j :: EntersFrom(st, j, k, pc)
  }

  /** A deferred op will be entered by a jump, wherever it is placed. */
  ghost predicate JumpedTo(st: EmitState, k: int) {
    exists j :: st.Placed(j) && HasJump(st.Node(j).opcode) && st.Node(j).next1 == k
  }

  ghost predicate Gapless(st: EmitState, k: int) {
    st.End(k) == |st.code| || exists j :: st.Placed(j) && st.Pc(j) == st.End(k)
  }

  /** The code is gapless, and apart from the root nothing starts that is not entered from above. */
  ghost predicate EntryInv(src: Source, st: EmitState, cur: int) {
    && (forall k :: st.Placed(k) ==> st.End(k) <= |st.code|)
    && (forall k {:trigger Gapless(st, k)} :: st.Placed(k) ==> Gapless(st, k))
    && (forall k {:trigger Entered(st, k, st.Pc(k))} :: st.Placed(k) && k != src.root ==> Entered(st, k, st.Pc(k)))
    && (forall d {:trigger JumpedTo(st, d)} :: d in st.deferred ==> JumpedTo(st, d))
    && (cur != NULL && cur != src.root ==> Entered(st, cur, |st.code|))
  }

  ghost predicate EmitInv(src: Source, st: EmitState, cur: int) {
    && GraphInv(src, st) && AddressInv(src, st) && CodeInv(src, st)
    && FlowInv(src, st, cur) && PendingInv(src, st, cur) && EntryInv(src, st, cur)
  }

  // ---------------------------------------------------------------- placing one op

  /** Op `cur` becomes node `n` at the end of the code; other nodes may only be flagged as
      deferred. At most one GOTO is created, to bridge to an op that is placed already. */
  ghost predicate PlacesNode(src: Source, st: EmitState, cur: int, st': EmitState, next: int) {
    && |st.nodes| <= |st'.nodes| <= |st.nodes| + 1
    && 0 <= cur < |st.nodes| && !st.Placed(cur) && (IsOp(src, cur) || IsGoto(src, st, cur))
    && st'.at == st.at[cur := |st.code|]
    && st.code <= st'.code && |st'.code| == |st.code| + Size(st.Node(cur))
    && (forall k :: 0 <= k < |st.nodes| && k != cur ==> Untouched(st.Node(k), st'.Node(k)))
    && var n := st'.Node(cur);
    && n.address == 2 * |st.code|
    && n.opcode == st.Node(cur).opcode
    && (IsOp(src, cur) ==> SameOp(src, st', src.graph[cur], n))
    && (!IsOp(src, cur) ==> n == st.Node(cur).(address := n.address, emitted := n.emitted))
    && (|st'.nodes| > |st.nodes| ==>
          n.opcode < GOTO && next == |st.nodes| && GotoOk(src, st, st'.Node(next)) && st'.Node(next).address == 0)
  }

  /** Where control and the bookkeeping go next */
  ghost predicate PlacesFlow(src: Source, st: EmitState, cur: int, st': EmitState, next: int) {
    var n := st'.Node(cur);
    && (if n.opcode < GOTO then
          && next == n.next0 && !st'.Placed(next)
          && (IsGoto(src, st', next) || (IsOp(src, next) && IsOp(src, cur) && IsEdge(src.graph[cur], next)))
        else next == NULL)
    && (forall j :: j in st'.jumps <==> j in st.jumps || (j == cur && HasJump(n.opcode)))
    && (IsBranch(n.opcode) ==>
          && IsOp(src, cur) && IsOp(src, n.next1) && IsEdge(src.graph[cur], n.next1)
          && (st.Placed(n.next1) || n.next1 in st'.deferred))
    && (forall d :: d in st.deferred ==> d in st'.deferred)
    && (forall d :: d in st'.deferred ==> d in st.deferred || (IsBranch(n.opcode) && d == n.next1))
    && (forall k :: IsOp(src, k) && st'.Node(k).deferred ==> st.Node(k).deferred || k in st'.deferred)
  }

  lemma SameOpKept(src: Source, st: EmitState, cur: int, st': EmitState, next: int, k: int)
    requires PlacesNode(src, st, cur, st', next) && |src.graph| <= |st.nodes|
    requires IsOp(src, k) && k != cur && SameOp(src, st, src.graph[k], st.Node(k))
    ensures SameOp(src, st', src.graph[k], st'.Node(k))
  {
    var n := st.Node(k);
    assert Untouched(n, st'.Node(k));
    ViaKept(src, st, cur, st', next, src.graph[k].next0, n.next0);
    ViaKept(src, st, cur, st', next, src.graph[k].next1, n.next1);
    ViaKept(src, st, cur, st', next, src.graph[k].next0, n.next1);
    ViaKept(src, st, cur, st', next, src.graph[k].next1, n.next0);
  }

  lemma ViaKept(src: Source, st: EmitState, cur: int, st': EmitState, next: int, before: int, now: int)
    requires PlacesNode(src, st, cur, st', next) && |src.graph| <= |st.nodes|
    ensures Via(src, st, before, now) ==> Via(src, st', before, now)
  {
    if 0 <= now < |st.nodes| {
      assert now != cur ==> Untouched(st.Node(now), st'.Node(now));
    }
  }

  lemma PlaceKeepsGraph(src: Source, st: EmitState, cur: int, st': EmitState, next: int)
    requires GraphInv(src, st) && PlacesNode(src, st, cur, st', next)
    ensures GraphInv(src, st')
  {
    forall k | IsOp(src, k)
      ensures SameOp(src, st', src.graph[k], st'.Node(k))
      ensures !st'.Placed(k) ==> Untouched(src.graph[k], st'.Node(k))
    {
      if k != cur {
        SameOpKept(src, st, cur, st', next, k);
      }
    }
    forall k | IsGoto(src, st', k) ensures GotoOk(src, st', st'.Node(k)) {
      assert k < |st.nodes| ==> GotoOk(src, st, st.Node(k));
    }
  }

  lemma PlaceKeepsAddress(src: Source, st: EmitState, cur: int, st': EmitState, next: int)
    requires GraphInv(src, st) && AddressInv(src, st) && PlacesNode(src, st, cur, st', next)
    requires st.code == [] <==> cur == src.root
    ensures AddressInv(src, st')
  {
    forall k | st'.Placed(k)
      ensures IsOp(src, k) || IsGoto(src, st', k)
      ensures st'.Pc(k) == 0 <==> k == src.root
      ensures st'.Node(k).address == 2 * st'.Pc(k)
    {
      if k != cur {
        assert st.Placed(k);
      }
    }
    forall k | (IsOp(src, k) || IsGoto(src, st', k)) && !st'.Placed(k) ensures st'.Node(k).address == 0 {
      assert k != cur && !st.Placed(k);
    }
  }

  lemma PlaceKeepsCode(src: Source, st: EmitState, cur: int, st': EmitState, next: int)
    requires CodeInv(src, st) && PlacesNode(src, st, cur, st', next)
    requires Extends(st.res, st'.res)
    requires Encoded(st'.Node(cur), st'.code, |st.code|, src.base, st'.res)
    requires forall k :: st.Placed(k) ==> 0 <= k < |st.nodes|
    requires forall k :: st.Placed(k) ==> st.End(k) <= |st.code|
    ensures CodeInv(src, st')
  {
    forall k | st'.Placed(k) && k != cur
      ensures Encoded(st'.Node(k), st'.code, st'.Pc(k), src.base, st'.res)
      ensures st'.End(k) == st.End(k) <= |st.code|
    {
      assert st.Placed(k) && Untouched(st.Node(k), st'.Node(k));
      EncodedInLongerCode(st.Node(k), st.code, st'.code, st.Pc(k), src.base, st.res, st'.res);
    }
    forall j, k | st'.Placed(j) && st'.Placed(k) && j != k
      ensures st'.End(j) <= st'.Pc(k) || st'.End(k) <= st'.Pc(j)
    {
      if j != cur && k != cur {
        assert st.Placed(j) && st.Placed(k);
      }
    }
  }

  lemma PlaceKeepsFlow(src: Source, st: EmitState, cur: int, st': EmitState, next: int)
    requires WellFormed(src) && FlowInv(src, st, cur) && GraphInv(src, st)
    requires PlacesNode(src, st, cur, st', next) && PlacesFlow(src, st, cur, st', next)
    requires forall k :: st.Placed(k) ==> 0 <= k < |st.nodes|
    ensures FlowInv(src, st', next)
  {
    forall k | st'.Placed(k)
      ensures st'.Node(k).opcode < GOTO ==> FallsTo(st', k, st'.Node(k).next0, next)
      ensures HasJump(st'.Node(k).opcode) ==> k in st'.jumps && Awaited(st', st'.Node(k).next1, next)
    {
      if k != cur {
        assert st.Placed(k) && Untouched(st.Node(k), st'.Node(k));
        assert HasJump(st.Node(k).opcode) ==> Awaited(st, st.Node(k).next1, cur);
      } else if IsGoto(src, st, cur) {
        assert GotoOk(src, st, st.Node(cur));
      }
    }
    forall k | k in st'.jumps ensures st'.Placed(k) && HasJump(st'.Node(k).opcode) {
      if k != cur {
        assert st.Placed(k) && Untouched(st.Node(k), st'.Node(k));
      }
    }
  }

  lemma StepBelowRoot(src: Source, k: int, t: int)
    requires WellFormed(src) && BelowRoot(src, k) && IsEdge(src.graph[k], t)
    ensures BelowRoot(src, t) && t != src.root
  {
    ReachStep(src.graph, src.root, k, t);
  }

  lemma PlaceKeepsPending(src: Source, st: EmitState, cur: int, st': EmitState, next: int)
    requires WellFormed(src) && PendingInv(src, st, cur) && cur != NULL && |src.graph| <= |st.nodes|
    requires PlacesNode(src, st, cur, st', next) && PlacesFlow(src, st, cur, st', next)
    ensures PendingInv(src, st', next)
  {
    hide BelowRoot, WellFormed, Awaited, SameOp, IsEdge;
    var n := st'.Node(cur);
    if IsBranch(n.opcode) {
      StepBelowRoot(src, cur, n.next1);
    }
    if IsOp(src, next) {
      StepBelowRoot(src, cur, next);
    }
    forall k | IsOp(src, k) && st'.Node(k).deferred ensures Awaited(st', k, next) {
      AwaitedKept(src, st, cur, st', next, k);
    }
    assert forall k :: st.Placed(k) ==> st'.Placed(k);
  }

  lemma AwaitedKept(src: Source, st: EmitState, cur: int, st': EmitState, next: int, k: int)
    requires st.Node(k).deferred ==> Awaited(st, k, cur)
    requires PlacesNode(src, st, cur, st', next) && PlacesFlow(src, st, cur, st', next)
    requires IsOp(src, k) && st'.Node(k).deferred
    ensures Awaited(st', k, next)
  {
  }

  lemma EnteredKept(src: Source, st: EmitState, cur: int, st': EmitState, next: int, k: int, pc: int)
    requires PlacesNode(src, st, cur, st', next)
    requires Entered(st, k, pc)
    requires forall j :: st.Placed(j) ==> 0 <= j < |st.nodes|
    ensures Entered(st', k, pc)
  {
    var j :| EntersFrom(st, j, k, pc);
    assert Untouched(st.Node(j), st'.Node(j));
    assert EntersFrom(st', j, k, pc);
  }

  lemma PlaceKeepsGapless(src: Source, st: EmitState, cur: int, st': EmitState, next: int, k: int)
    requires PlacesNode(src, st, cur, st', next)
    requires 0 <= k < |st.nodes| && st'.Placed(k)
    requires k != cur ==> st.End(k) <= |st.code| && Gapless(st, k)
    ensures st'.End(k) <= |st'.code| && Gapless(st', k)
  {
    if k != cur {
      assert Untouched(st.Node(k), st'.Node(k));
      if st.End(k) == |st.code| {
        assert st'.Placed(cur) && st'.Pc(cur) == st'.End(k);
      } else {
        var j :| st.Placed(j) && st.Pc(j) == st.End(k);
        assert st'.Placed(j) && st'.Pc(j) == st'.End(k);
      }
    }
  }

  lemma PlaceKeepsJumpedTo(src: Source, st: EmitState, cur: int, st': EmitState, next: int, d: int)
    requires PlacesNode(src, st, cur, st', next) && PlacesFlow(src, st, cur, st', next)
    requires forall k :: st.Placed(k) ==> 0 <= k < |st.nodes|
    requires d in st'.deferred
    requires d in st.deferred ==> JumpedTo(st, d)
    ensures JumpedTo(st', d)
  {
    if d in st.deferred {
      var j :| st.Placed(j) && HasJump(st.Node(j).opcode) && st.Node(j).next1 == d;
      assert Untouched(st.Node(j), st'.Node(j)) && st'.Placed(j);
    } else {
      assert st'.Placed(cur);
    }
  }

  lemma PlaceKeepsEntry(src: Source, st: EmitState, cur: int, st': EmitState, next: int)
    requires EntryInv(src, st, cur) && cur != NULL
    requires PlacesNode(src, st, cur, st', next) && PlacesFlow(src, st, cur, st', next)
    requires forall k :: st.Placed(k) ==> 0 <= k < |st.nodes|
    ensures EntryInv(src, st', next)
  {
    forall k | st'.Placed(k) ensures st'.End(k) <= |st'.code| && Gapless(st', k) {
      assert k != cur ==> st.Placed(k) && Gapless(st, k);
      PlaceKeepsGapless(src, st, cur, st', next, k);
    }
    forall k | st'.Placed(k) && k != src.root ensures Entered(st', k, st'.Pc(k)) {
      assert k != cur ==> st.Placed(k) && Entered(st, k, st.Pc(k));
      EnteredKept(src, st, cur, st', next, k, if k == cur then |st.code| else st.Pc(k));
    }
    forall d | d in st'.deferred ensures JumpedTo(st', d) {
      assert d in st.deferred ==> JumpedTo(st, d);
      PlaceKeepsJumpedTo(src, st, cur, st', next, d);
    }
    if next != NULL {
      assert EntersFrom(st', cur, next, |st'.code|);
    }
  }

  /** Placing an op keeps the invariant. */
  lemma PlaceKeepsInv(src: Source, st: EmitState, cur: int, st': EmitState, next: int)
    requires WellFormed(src) && EmitInv(src, st, cur) && cur != NULL
    requires PlacesNode(src, st, cur, st', next) && PlacesFlow(src, st, cur, st', next)
    requires Extends(st.res, st'.res)
    requires Encoded(st'.Node(cur), st'.code, |st.code|, src.base, st'.res)
    ensures EmitInv(src, st', next)
  {
    PlacedIsNode(src, st);
    EmptyOnlyAtRoot(src, st, cur);
    PlaceKeepsGraph(src, st, cur, st', next);
    PlaceKeepsAddress(src, st, cur, st', next);
    PlaceKeepsCode(src, st, cur, st', next);
    PlaceKeepsFlow(src, st, cur, st', next);
    PlaceKeepsPending(src, st, cur, st', next);
    PlaceKeepsEntry(src, st, cur, st', next);
  }

  lemma PlacedIsNode(src: Source, st: EmitState)
    requires AddressInv(src, st) && GraphInv(src, st)
    ensures forall k :: st.Placed(k) ==> 0 <= k < |st.nodes|
  {
  }

  lemma EmptyOnlyAtRoot(src: Source, st: EmitState, cur: int)
    requires PendingInv(src, st, cur) && cur != NULL
    requires forall k :: st.Placed(k) ==> st.End(k) <= |st.code|
    ensures st.code == [] <==> cur == src.root
  {
    if st.Placed(src.root) {
      assert st.End(src.root) <= |st.code|;
    }
  }

  lemma PopKeepsGraph(src: Source, st: EmitState, st': EmitState)
    requires GraphInv(src, st) && st' == st.(deferred := st'.deferred)
    ensures GraphInv(src, st')
  {
    forall k | IsOp(src, k)
      ensures SameOp(src, st', src.graph[k], st'.Node(k))
      ensures !st'.Placed(k) ==> Untouched(src.graph[k], st'.Node(k))
    {
      assert st'.Node(k) == st.Node(k) && SameOp(src, st, src.graph[k], st.Node(k));
      assert !st.Placed(k) ==> Untouched(src.graph[k], st.Node(k));
    }
    forall k | IsGoto(src, st', k) ensures GotoOk(src, st', st'.Node(k)) {
      assert GotoOk(src, st, st.Node(k));
    }
  }

  lemma PopKeepsCode(src: Source, st: EmitState, st': EmitState)
    requires AddressInv(src, st) && CodeInv(src, st) && st' == st.(deferred := st'.deferred)
    ensures AddressInv(src, st') && CodeInv(src, st')
  {
    forall k ensures st'.Node(k) == st.Node(k) && st'.Pc(k) == st.Pc(k)
                  && st'.End(k) == st.End(k) && (st'.Placed(k) <==> st.Placed(k)) && (IsGoto(src, st', k) <==> IsGoto(src, st, k)) {
    }
  }

  lemma PopKeepsFlow(src: Source, st: EmitState, st': EmitState, d: int, cur: int)
    requires FlowInv(src, st, NULL) && PendingInv(src, st, NULL) && !st.Placed(NULL)
    requires st' == st.(deferred := st'.deferred) && st.deferred == st'.deferred + [d]
    requires cur == if st.Placed(d) then NULL else d
    ensures FlowInv(src, st', cur) && PendingInv(src, st', cur)
  {
    forall k ensures st'.Node(k) == st.Node(k) && st'.Pc(k) == st.Pc(k) && st'.End(k) == st.End(k)
                  && (st'.Placed(k) <==> st.Placed(k)) && (IsGoto(src, st', k) <==> IsGoto(src, st, k)) {
    }
    assert forall k :: k in st.deferred <==> k in st'.deferred || k == d;
    forall k | Awaited(st, k, NULL) ensures k != NULL ==> Awaited(st', k, cur) {
    }
    assert d in st.deferred;
    forall k | st.Placed(k) && st.Node(k).opcode < GOTO ensures FallsTo(st', k, st'.Node(k).next0, cur) {
      assert FallsTo(st, k, st.Node(k).next0, NULL);
    }
  }

  lemma PopKeepsEntry(src: Source, st: EmitState, st': EmitState, d: int, cur: int)
    requires EntryInv(src, st, NULL) && CodeInv(src, st)
    requires st' == st.(deferred := st'.deferred) && st.deferred == st'.deferred + [d]
    requires cur == if st.Placed(d) then NULL else d
    ensures EntryInv(src, st', cur)
  {
    forall k ensures st'.Node(k) == st.Node(k) && st'.Pc(k) == st.Pc(k) && st'.End(k) == st.End(k)
                  && (st'.Placed(k) <==> st.Placed(k)) && (IsGoto(src, st', k) <==> IsGoto(src, st, k)) {
    }
    assert forall k :: k in st.deferred <==> k in st'.deferred || k == d;
    forall k | st'.Placed(k) ensures Gapless(st', k) && (k != src.root ==> Entered(st', k, st'.Pc(k))) {
      assert Gapless(st, k);
      if st.End(k) != |st.code| {
        var j :| st.Placed(j) && st.Pc(j) == st.End(k);
        assert st'.Placed(j);
      }
      if k != src.root {
        assert Entered(st, k, st.Pc(k));
        var j :| EntersFrom(st, j, k, st.Pc(k));
        assert EntersFrom(st', j, k, st.Pc(k));
      }
    }
    forall e | e in st.deferred ensures JumpedTo(st', e) {
      assert JumpedTo(st, e);
      var j :| st.Placed(j) && HasJump(st.Node(j).opcode) && st.Node(j).next1 == e;
      assert st'.Placed(j);
    }
    if cur == d {
      assert d in st.deferred && JumpedTo(st, d);
      var j :| st.Placed(j) && HasJump(st.Node(j).opcode) && st.Node(j).next1 == d;
      assert EntersFrom(st', j, d, |st'.code|);
    }
  }

  /** Popping the stack of deferred ops: one that has been placed meanwhile is dropped. */
  lemma DeferredOp(src: Source, st: EmitState, d: int)
    requires WellFormed(src) && EmitInv(src, st, NULL) && d in st.deferred
    ensures IsOp(src, d) && 0 <= d < |st.nodes| && (st.Placed(d) <==> st.nodes[d].address != 0)
  {
    assert BelowRoot(src, d) && d != src.root;
  }

  lemma PopKeepsInv(src: Source, st: EmitState, st': EmitState, d: int)
    requires EmitInv(src, st, NULL)
    requires st' == st.(deferred := st'.deferred) && st.deferred == st'.deferred + [d]
    ensures EmitInv(src, st', if st.Placed(d) then NULL else d)
  {
    PlacedIsNode(src, st);
    PopKeepsGraph(src, st, st');
    PopKeepsCode(src, st, st');
    PopKeepsFlow(src, st, st', d, if st.Placed(d) then NULL else d);
    PopKeepsEntry(src, st, st', d, if st.Placed(d) then NULL else d);
  }

  // ---------------------------------------------------------------- what the emitter does to a branching op

  function MarkPlaced(n: OpNode, address: nat): OpNode { n.(emitted := true, address := address) }

  function IsAt(nodes: seq<OpNode>, k: int): bool { 0 <= k < |nodes| && nodes[k].address != 0 }

  function Callers(nodes: seq<OpNode>, k: int): nat { if 0 <= k < |nodes| then nodes[k].callerCount else 0 }

  /** Both branches are placed: a GOTO will bridge to the false branch. */
  predicate NeedsBridge(nodes: seq<OpNode>, n: OpNode) {
    IsAt(nodes, n.next0) && IsAt(nodes, n.next1)
  }

  /** Only the false branch is placed, or more ops branch to it: jump to it instead. */
  predicate NeedsInverse(nodes: seq<OpNode>, n: OpNode) {
    !IsAt(nodes, n.next1) && (IsAt(nodes, n.next0) || Callers(nodes, n.next0) > Callers(nodes, n.next1))
  }

  /** Branching op `n` as it is placed; `bridge` is the GOTO that will be created if needed. */
  function PlacedBranch(nodes: seq<OpNode>, n: OpNode, bridge: int): OpNode {
    if NeedsBridge(nodes, n) then n.(next0 := bridge)
    else if NeedsInverse(nodes, n) then n.Inverse()
    else n
  }

  lemma PlacedBranchEncoded(nodes: seq<OpNode>, n: OpNode, bridge: int, code: seq<Word>, code': seq<Word>,
                            pc: nat, base: nat, res: map<nat, Operand>)
    requires IsBranch(n.opcode) && Encoded(n, code, pc, base, res)
    requires |code'| == |code| && code'[pc] == OpWord(PlacedBranch(nodes, n, bridge))
    requires forall i :: pc < i < |code| ==> code'[i] == code[i]
    ensures Encoded(PlacedBranch(nodes, n, bridge), code', pc, base, res)
  {
    SameOperandWords(PlacedBranch(nodes, n, bridge), code, code', pc, base, res);
  }

  function SetDeferred(nodes: seq<OpNode>, k: int): seq<OpNode> {
    if 0 <= k < |nodes| then nodes[k := nodes[k].(deferred := true)] else nodes
  }

  /** The graph with branching op `i` placed, and the GOTO to its fall-through branch if that has been placed before */
  function Oriented(nodes: seq<OpNode>, i: int, n: OpNode): seq<OpNode>
    requires 0 <= i < |nodes|
  {
    nodes[i := PlacedBranch(nodes, n, |nodes|)] + if NeedsBridge(nodes, n) then [NewOp(GOTO, n.next0, n.next0)] else []
  }

  function AfterBranch(nodes: seq<OpNode>, i: int, n: OpNode): seq<OpNode>
    requires 0 <= i < |nodes|
  {
    SetDeferred(Oriented(nodes, i, n), PlacedBranch(nodes, n, |nodes|).next1)
  }

  /** What the invariant says about the op to be placed next, as the placing step needs it */
  ghost predicate LinksOk(src: Source, st: EmitState, cur: int) {
    var n := st.Node(cur);
    && IsOp(src, cur) && |src.graph| <= |st.nodes| && !st.Placed(cur) && !st.Placed(|st.nodes|)
    && Untouched(src.graph[cur], n)
    && (n.opcode < GOTO ==> LinkOk(src, st, cur, n.next0))
    && (IsBranch(n.opcode) ==> LinkOk(src, st, cur, n.next1))
  }

  ghost predicate LinkOk(src: Source, st: EmitState, cur: int, t: int) {
    && IsOp(src, t) && t != cur && IsOp(src, cur) && IsEdge(src.graph[cur], t)
    && (st.Placed(t) <==> IsAt(st.nodes, t))
    && (st.Node(t).deferred ==> st.Placed(t) || t in st.deferred)
  }

  lemma LinkOfPending(src: Source, st: EmitState, cur: int, t: int)
    requires WellFormed(src) && AddressInv(src, st) && PendingInv(src, st, cur)
    requires IsOp(src, cur) && IsEdge(src.graph[cur], t) && |src.graph| <= |st.nodes|
    ensures LinkOk(src, st, cur, t)
  {
    assert BelowRoot(src, cur);
    StepBelowRoot(src, cur, t);
    assert st.Node(t).deferred ==> Awaited(st, t, cur);
  }

  lemma LinksOfPending(src: Source, st: EmitState, cur: int)
    requires WellFormed(src) && GraphInv(src, st) && AddressInv(src, st) && PendingInv(src, st, cur)
    requires IsOp(src, cur)
    ensures LinksOk(src, st, cur)
  {
    var n, o := st.Node(cur), src.graph[cur];
    assert Untouched(o, n) && SameOp(src, st, o, n);
    PlacedIsNode(src, st);
    if n.opcode < GOTO {
      LinkOfPending(src, st, cur, n.next0);
    }
    if IsBranch(n.opcode) {
      LinkOfPending(src, st, cur, n.next1);
    }
  }

  lemma OperandOfPending(src: Source, cur: int)
    requires WellFormed(src) && IsOp(src, cur)
    ensures var o := src.graph[cur]; o.opcode <= RETURN && OperandOk(o) && o.opcode != GOTO
  {
  }

  /** What a method that sees the invariant as a whole needs to know about the op to place */
  lemma PendingOp(src: Source, st: EmitState, cur: int)
    requires WellFormed(src) && EmitInv(src, st, cur) && IsOp(src, cur)
    ensures LinksOk(src, st, cur) && 0 <= cur < |st.nodes|
    ensures var n, o := st.Node(cur), src.graph[cur];
            && n.opcode <= RETURN && n.opcode != GOTO && OperandOk(n) && n.operand == o.operand && n.opcode == o.opcode
            && |src.graph| <= |st.nodes| && !st.Placed(cur) && Untouched(o, n)
            && (n.opcode < GOTO ==> IsOp(src, n.next0) && n.next0 != cur)
            && (IsBranch(n.opcode) ==> IsOp(src, n.next1) && n.next1 != cur)
  {
    hide CodeInv, FlowInv, EntryInv;
    LinksOfPending(src, st, cur);
    hide GraphInv, PendingInv, AddressInv;
    assert Untouched(src.graph[cur], st.Node(cur));
    OperandOfPending(src, cur);
  }

  lemma PendingGoto(src: Source, st: EmitState, cur: int)
    requires EmitInv(src, st, cur) && IsGoto(src, st, cur) && cur != NULL
    ensures st.Node(cur).opcode == GOTO && st.Node(cur).operand == NoOperand && !st.Placed(cur)
    ensures |src.graph| <= |st.nodes|
  {
    assert GotoOk(src, st, st.Node(cur));
  }

  lemma PendingIsNode(src: Source, st: EmitState, cur: int)
    requires EmitInv(src, st, cur) && cur != NULL
    ensures IsOp(src, cur) || IsGoto(src, st, cur)
  {
    hide CodeInv, FlowInv, EntryInv;
  }

  lemma BranchIsPlaced(src: Source, st: EmitState, cur: int, st': EmitState, n: OpNode)
    requires LinksOk(src, st, cur) && IsBranch(st.Node(cur).opcode)
    requires n == MarkPlaced(st.Node(cur), 2 * |st.code|)
    requires st'.nodes == AfterBranch(st.nodes, cur, n)
    requires st'.at == st.at[cur := |st.code|]
    requires st.code <= st'.code && |st'.code| == |st.code| + Size(n)
    ensures PlacesNode(src, st, cur, st', PlacedBranch(st.nodes, n, |st.nodes|).next0)
  {
    var placed := PlacedBranch(st.nodes, n, |st.nodes|);
    forall k | 0 <= k < |st.nodes| && k != cur ensures Untouched(st.Node(k), st'.Node(k)) {
    }
    assert st'.Node(cur) == placed;
    assert SameOp(src, st', src.graph[cur], placed);
  }

  lemma BranchFlows(src: Source, st: EmitState, cur: int, st': EmitState, n: OpNode)
    requires LinksOk(src, st, cur) && IsBranch(st.Node(cur).opcode)
    requires n == MarkPlaced(st.Node(cur), 2 * |st.code|)
    requires st'.nodes == AfterBranch(st.nodes, cur, n)
    requires st'.at == st.at[cur := |st.code|]
    requires st'.jumps == st.jumps + [cur]
    requires var t := PlacedBranch(st.nodes, n, |st.nodes|).next1;
             st'.deferred == if st.Node(t).deferred then st.deferred else st.deferred + [t]
    ensures PlacesFlow(src, st, cur, st', PlacedBranch(st.nodes, n, |st.nodes|).next0)
  {
    var placed := PlacedBranch(st.nodes, n, |st.nodes|);
    var t := placed.next1;
    assert LinkOk(src, st, cur, t);
    assert st'.Node(cur) == placed;
    forall k | IsOp(src, k) && st'.Node(k).deferred ensures st.Node(k).deferred || k in st'.deferred {
    }
  }

  function AfterPlain(nodes: seq<OpNode>, i: int, n: OpNode): seq<OpNode>
    requires 0 <= i < |nodes|
  {
    if IsAt(nodes, n.next0) then nodes[i := n.(next0 := |nodes|)] + [NewOp(GOTO, n.next0, n.next0)]
    else nodes[i := n]
  }

  lemma PlainIsPlaced(src: Source, st: EmitState, cur: int, st': EmitState, n: OpNode, next: int)
    requires LinksOk(src, st, cur) && IsPlain(st.Node(cur).opcode)
    requires n == MarkPlaced(st.Node(cur), 2 * |st.code|)
    requires st'.nodes == AfterPlain(st.nodes, cur, n)
    requires st'.at == st.at[cur := |st.code|]
    requires st.code <= st'.code && |st'.code| == |st.code| + Size(n)
    requires st'.jumps == st.jumps && st'.deferred == st.deferred
    requires next == if IsAt(st.nodes, n.next0) then |st.nodes| else n.next0
    ensures PlacesNode(src, st, cur, st', next) && PlacesFlow(src, st, cur, st', next)
  {
    forall k | 0 <= k < |st.nodes| && k != cur ensures Untouched(st.Node(k), st'.Node(k)) {
    }
    assert st'.Node(cur) == n.(next0 := next);
    assert SameOp(src, st', src.graph[cur], st'.Node(cur));
    forall k | IsOp(src, k) && st'.Node(k).deferred ensures st.Node(k).deferred {
    }
  }

  /** A RETURN, or a GOTO created earlier: nothing falls through. */
  lemma LastIsPlaced(src: Source, st: EmitState, cur: int, st': EmitState, n: OpNode)
    requires |src.graph| <= |st.nodes| && 0 <= cur < |st.nodes| && !st.Placed(cur)
    requires n == MarkPlaced(st.Node(cur), 2 * |st.code|)
    requires if n.opcode == RETURN then IsOp(src, cur) && Untouched(src.graph[cur], st.Node(cur))
             else n.opcode == GOTO && IsGoto(src, st, cur)
    requires st'.nodes == st.nodes[cur := n]
    requires st'.at == st.at[cur := |st.code|]
    requires st.code <= st'.code && |st'.code| == |st.code| + Size(n)
    requires st'.jumps == (if n.opcode == GOTO then st.jumps + [cur] else st.jumps) && st'.deferred == st.deferred
    ensures PlacesNode(src, st, cur, st', NULL) && PlacesFlow(src, st, cur, st', NULL)
  {
    forall k | 0 <= k < |st.nodes| && k != cur ensures Untouched(st.Node(k), st'.Node(k)) {
    }
    assert st'.Node(cur) == n;
    forall k | IsOp(src, k) && st'.Node(k).deferred ensures st.Node(k).deferred {
    }
  }

  // ---------------------------------------------------------------- the finished code

  /** At the end exactly the ops reachable from the root have been placed. */
  lemma PlacedAreReachable(src: Source, st: EmitState, k: int)
    requires WellFormed(src) && EmitInv(src, st, NULL) && st.deferred == []
    ensures IsOp(src, k) && st.Placed(k) <==> Reachable(src.graph, src.root, k)
  {
    hide CodeInv, EntryInv, AddressInv;
    if Reachable(src.graph, src.root, k) {
      var closed := set j | j in st.at && IsOp(src, j);
      forall i, t | i in closed && 0 <= i < |src.graph| && IsEdge(src.graph[i], t) ensures t in closed {
        EdgeOfPlaced(src, st, i, t);
      }
      ReachableInClosedSet(src.graph, src.root, closed, k);
    }
  }

  lemma EdgeOfPlaced(src: Source, st: EmitState, i: int, t: int)
    requires WellFormed(src) && GraphInv(src, st) && FlowInv(src, st, NULL) && st.deferred == []
    requires IsOp(src, i) && st.Placed(i) && IsEdge(src.graph[i], t)
    ensures st.Placed(t) && IsOp(src, t)
  {
    var n, o := st.Node(i), src.graph[i];
    assert SameOp(src, st, o, n);
    assert n.opcode < GOTO ==> FallsTo(st, i, n.next0, NULL);
    assert HasJump(n.opcode) ==> Awaited(st, n.next1, NULL);
    forall now | Via(src, st, t, now) && st.Placed(now) ensures st.Placed(t) {
      if now != t {
        assert IsGoto(src, st, now) && GotoOk(src, st, st.Node(now));
      }
    }
  }

  function JumpSlot(st: EmitState, k: int): int { st.End(k) - 1 }

  /** Jumps are relative to the jump slot, in bytes, and stored as 16 bits. */
  function JumpDistance(st: EmitState, k: int): int {
    2 * st.Pc(st.Node(k).next1) - 2 * JumpSlot(st, k)
  }

  ghost predicate JumpPatched(st: EmitState, k: int) {
    WordAt(st.code, JumpSlot(st, k)) == JumpDistance(st, k) % 0x1_0000
  }

  /** Code that is ready to run */
  ghost predicate Linked(src: Source, st: EmitState) {
    && GraphInv(src, st) && CodeInv(src, st) && EntryInv(src, st, NULL)
    && (forall k :: st.Placed(k) ==> IsOp(src, k) || IsGoto(src, st, k))
    && (forall k :: st.Placed(k) && st.Node(k).opcode < GOTO ==> FallsTo(st, k, st.Node(k).next0, NULL))
    && (forall k :: st.Placed(k) && HasJump(st.Node(k).opcode) ==>
          st.Placed(st.Node(k).next1) && JumpPatched(st, k))
    && st.Placed(src.root) && st.Pc(src.root) == 0
  }

  /** What fixJumps asserts of every jump */
  ghost predicate JumpsFit(st: EmitState) {
    forall k :: st.Placed(k) && HasJump(st.Node(k).opcode) ==> -0x8000 <= JumpDistance(st, k) < 0x8000
  }

  lemma ShortCodeFits(src: Source, st: EmitState)
    requires Linked(src, st) && |st.code| <= 0x4000
    ensures JumpsFit(st)
  {
    forall k | st.Placed(k) && HasJump(st.Node(k).opcode)
      ensures -0x8000 <= JumpDistance(st, k) < 0x8000
    {
      var t := st.Node(k).next1;
      assert st.Placed(t) && st.End(t) <= |st.code| && st.End(k) <= |st.code|;
    }
  }

  ghost predicate FixFlow(src: Source, st: EmitState) {
    && (forall k :: st.Placed(k) && st.Node(k).opcode < GOTO ==> FallsTo(st, k, st.Node(k).next0, NULL))
    && (forall k :: st.Placed(k) && HasJump(st.Node(k).opcode) ==>
          st.Placed(st.Node(k).next1) && (k in st.jumps || JumpPatched(st, k)))
    && (forall k :: k in st.jumps ==> st.Placed(k) && HasJump(st.Node(k).opcode))
    && st.Placed(src.root)
  }

  /** State of the loop that patches the jumps */
  ghost predicate FixInv(src: Source, st: EmitState) {
    && GraphInv(src, st) && AddressInv(src, st) && CodeInv(src, st) && EntryInv(src, st, NULL)
    && FixFlow(src, st)
  }

  lemma EmittedCanBeFixed(src: Source, st: EmitState)
    requires EmitInv(src, st, NULL) && st.deferred == [] && IsOp(src, src.root)
    ensures FixInv(src, st)
  {
    forall k | st.Placed(k) && HasJump(st.Node(k).opcode) ensures st.Placed(st.Node(k).next1) {
      assert Awaited(st, st.Node(k).next1, NULL);
    }
  }

  lemma FixedIsLinked(src: Source, st: EmitState)
    requires FixInv(src, st) && st.jumps == []
    ensures Linked(src, st)
  {
  }

  lemma EncodedWithPatch(n: OpNode, code: seq<Word>, code': seq<Word>, pc: int, base: nat,
                         res: map<nat, Operand>, slot: nat)
    requires Encoded(n, code, pc, base, res)
    requires |code'| == |code| && forall i :: 0 <= i < |code| && i != slot ==> code'[i] == code[i]
    requires slot < pc || pc + Size(n) <= slot || (HasJump(n.opcode) && slot == pc + Args(n.opcode))
    ensures Encoded(n, code', pc, base, res)
  {
    assert WordAt(code', pc) == WordAt(code, pc);
    assert Args(n.opcode) > 1 ==> WordAt(code', pc + 1) == WordAt(code, pc + 1);
    assert Args(n.opcode) > 2 ==> WordAt(code', pc + 2) == WordAt(code, pc + 2);
  }

  /** Popping jump `k` and patching its slot */
  lemma PatchKeepsCode(src: Source, st: EmitState, st': EmitState, k: int, slot: nat)
    requires CodeInv(src, st) && st.Placed(k) && HasJump(st.Node(k).opcode) && slot == JumpSlot(st, k)
    requires st' == st.(code := st'.code, jumps := st'.jumps)
    requires |st'.code| == |st.code| && forall i :: 0 <= i < |st.code| && i != slot ==> st'.code[i] == st.code[i]
    ensures CodeInv(src, st')
  {
    forall j ensures st'.Node(j) == st.Node(j) && st'.Pc(j) == st.Pc(j) && st'.End(j) == st.End(j)
                  && (st'.Placed(j) <==> st.Placed(j)) {
    }
    forall j | st'.Placed(j) ensures Encoded(st'.Node(j), st'.code, st'.Pc(j), src.base, st'.res) {
      EncodedWithPatch(st.Node(j), st.code, st'.code, st.Pc(j), src.base, st.res, slot);
    }
  }

  lemma PatchKeepsEntry(src: Source, st: EmitState, st': EmitState)
    requires EntryInv(src, st, NULL) && GraphInv(src, st) && AddressInv(src, st)
    requires st' == st.(code := st'.code, jumps := st'.jumps) && |st'.code| == |st.code|
    ensures EntryInv(src, st', NULL) && GraphInv(src, st') && AddressInv(src, st')
  {
    forall j ensures st'.Node(j) == st.Node(j) && st'.Pc(j) == st.Pc(j) && st'.End(j) == st.End(j)
                  && (st'.Placed(j) <==> st.Placed(j)) && (IsGoto(src, st', j) <==> IsGoto(src, st, j)) {
    }
    forall k | st'.Placed(k) ensures Gapless(st', k) && (k != src.root ==> Entered(st', k, st'.Pc(k))) {
      assert Gapless(st, k);
      if st.End(k) != |st.code| {
        var j :| st.Placed(j) && st.Pc(j) == st.End(k);
        assert st'.Placed(j);
      }
      if k != src.root {
        assert Entered(st, k, st.Pc(k));
        var j :| EntersFrom(st, j, k, st.Pc(k));
        assert EntersFrom(st', j, k, st.Pc(k));
      }
    }
    forall d | d in st'.deferred ensures JumpedTo(st', d) {
      assert JumpedTo(st, d);
      var j :| st.Placed(j) && HasJump(st.Node(j).opcode) && st.Node(j).next1 == d;
      assert st'.Placed(j);
    }
    forall k | IsOp(src, k)
      ensures SameOp(src, st', src.graph[k], st'.Node(k))
      ensures !st'.Placed(k) ==> Untouched(src.graph[k], st'.Node(k))
    {
      assert SameOp(src, st, src.graph[k], st.Node(k));
      assert !st.Placed(k) ==> Untouched(src.graph[k], st.Node(k));
    }
    forall k | IsGoto(src, st', k) ensures GotoOk(src, st', st'.Node(k)) {
      assert GotoOk(src, st, st.Node(k));
    }
  }

  lemma PatchKeepsFlow(src: Source, st: EmitState, st': EmitState, k: int, slot: nat)
    requires FixFlow(src, st) && st.jumps == st'.jumps + [k] && slot == JumpSlot(st, k) < |st.code|
    requires st' == st.(code := st.code[slot := JumpDistance(st, k) % 0x1_0000], jumps := st'.jumps)
    requires forall j :: st.Placed(j) && j != k ==> st.End(j) <= st.Pc(k) || st.End(k) <= st.Pc(j)
    ensures FixFlow(src, st')
  {
    forall j ensures st'.Node(j) == st.Node(j) && st'.Pc(j) == st.Pc(j) && st'.End(j) == st.End(j)
                  && (st'.Placed(j) <==> st.Placed(j)) {
    }
    assert forall j :: j in st.jumps <==> j in st'.jumps || j == k;
    forall j | st.Placed(j) && HasJump(st.Node(j).opcode) && j !in st'.jumps
      ensures JumpPatched(st', j)
    {
      PatchedJump(st, st', k, slot, j);
    }
    forall j | st'.Placed(j) && st'.Node(j).opcode < GOTO ensures FallsTo(st', j, st'.Node(j).next0, NULL) {
      assert FallsTo(st, j, st.Node(j).next0, NULL);
    }
  }

  lemma PatchKeepsInv(src: Source, st: EmitState, st': EmitState, k: int, slot: nat)
    requires FixInv(src, st) && st.jumps == st'.jumps + [k] && slot == JumpSlot(st, k) < |st.code|
    requires st' == st.(code := st.code[slot := JumpDistance(st, k) % 0x1_0000], jumps := st'.jumps)
    ensures FixInv(src, st')
  {
    hide GraphInv, AddressInv, EntryInv;
    assert k in st.jumps;
    assert st.Placed(k) && HasJump(st.Node(k).opcode);
    PatchKeepsFlow(src, st, st', k, slot);
    hide FixFlow;
    PatchKeepsCode(src, st, st', k, slot);
    hide CodeInv;
    PatchKeepsEntry(src, st, st');
  }

  lemma PatchedJump(st: EmitState, st': EmitState, k: int, slot: nat, j: int)
    requires slot == JumpSlot(st, k) < |st.code|
    requires st' == st.(code := st.code[slot := JumpDistance(st, k) % 0x1_0000], jumps := st'.jumps)
    requires j == k || JumpPatched(st, j)
    requires j != k ==> JumpSlot(st, j) != slot
    ensures JumpPatched(st', j)
  {
    assert JumpDistance(st', j) == JumpDistance(st, j) && JumpSlot(st', j) == JumpSlot(st, j);
  }

  lemma StartInv(src: Source, st: EmitState)
    requires WellFormed(src)
    requires st.nodes == src.graph && st.code == [] && st.at == map[] && st.deferred == [] && st.jumps == []
    ensures EmitInv(src, st, src.root)
  {
    ReachRoot(src.graph, src.root);
  }

  lemma RootIsOp(src: Source)
    requires WellFormed(src)
    ensures IsOp(src, src.root)
  {
  }

  /** The node a jump is popped for, and its target */
  lemma JumpTarget(src: Source, st: EmitState, k: int)
    requires FixInv(src, st) && k in st.jumps
    ensures 0 <= k < |st.nodes| && 0 <= st.nodes[k].next1 < |st.nodes|
    ensures st.nodes[k].address == 2 * st.Pc(k)
    ensures st.nodes[st.nodes[k].next1].address == 2 * st.Pc(st.nodes[k].next1)
    ensures 0 <= JumpSlot(st, k) < |st.code| && HasJump(st.nodes[k].opcode)
    ensures st.Pc(st.nodes[k].next1) != JumpSlot(st, k)
  {
    hide GraphInv, EntryInv;
    var t := st.Node(k).next1;
    assert st.Placed(k) && st.Placed(t);
    assert IsOp(src, k) || IsGoto(src, st, k);
    assert IsOp(src, t) || IsGoto(src, st, t);
  }
}
