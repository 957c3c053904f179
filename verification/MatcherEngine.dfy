/** The bytecode interpreter (src/match/MatcherEngine.cpp, `accept`), run on linked code. */
module MatcherEngines {
  import opened OpGraphs
  import opened Layouts

  /** A 16-bit word read as a signed number */
  function GetShort(w: Word): int { if w < 0x8000 then w else w - 0x1_0000 }

  /** The operand an instruction refers to: in the code, or in the resource area before it */
  function FetchOperand(opcode: nat, code: seq<Word>, pc: int, base: nat, res: map<nat, Operand>): Operand {
    match OperandTypeOf(opcode)
    case NoneType => NoOperand
    case CodeType => Code(WordAt(code, pc + 1))
    case FeatureTypesType => Types(WordAt(code, pc + 1) + 0x1_0000 * WordAt(code, pc + 2))
    case _ =>
      var address := base + 2 * (pc + 1) - WordAt(code, pc + 1);
      if address in res then res[address] else NoOperand
  }

  predicate HasResource(opcode: nat) { OperandTypeOf(opcode) in {StringType, DoubleType, RegexType} }

  /** The word of an instruction is the distance from its own address back to a resource that is its operand. */
  ghost predicate OffsetFits(operand: Operand, word: int, address: int, res: map<nat, Operand>) {
    exists a :: a in res && res[a] == operand && word == address - a && 0 < address - a < 0xffff
  }

  /** What putResourceOffset asserts of each operand that is kept as a resource */
  ghost predicate InReach(src: Source, st: EmitState) {
    forall k {:trigger st.Placed(k)} :: st.Placed(k) && HasResource(st.Node(k).opcode) ==>
      OffsetFits(st.Node(k).operand, WordAt(st.code, st.Pc(k) + 1), src.base + 2 * (st.Pc(k) + 1), st.res)
  }

  /** It is so if all resources lie before the code and nothing is more than 64K away. */
  lemma SmallMatcherReaches(src: Source, st: EmitState)
    requires Linked(src, st) && src.base + 2 * |st.code| <= 0xffff && forall a :: a in st.res ==> a < src.base
    ensures InReach(src, st)
  {
    hide Linked, OffsetFits, Encoded, HasResource;
    forall k | st.Placed(k) && HasResource(st.Node(k).opcode)
      ensures OffsetFits(st.Node(k).operand, WordAt(st.code, st.Pc(k) + 1), src.base + 2 * (st.Pc(k) + 1), st.res)
    {
      OpIsEncoded(src, st, k);
      NearResource(st.Node(k), st.code, st.Pc(k), src.base, st.res);
    }
  }

  lemma OpIsEncoded(src: Source, st: EmitState, k: int)
    requires Linked(src, st) && st.Placed(k)
    ensures Encoded(st.Node(k), st.code, st.Pc(k), src.base, st.res)
  {
    hide GraphInv, EntryInv, FallsTo, JumpPatched, Encoded;
  }

  lemma NearResource(n: OpNode, code: seq<Word>, pc: int, base: nat, res: map<nat, Operand>)
    requires Encoded(n, code, pc, base, res) && HasResource(n.opcode)
    requires base + 2 * |code| <= 0xffff && forall a :: a in res ==> a < base
    ensures OffsetFits(n.operand, WordAt(code, pc + 1), base + 2 * (pc + 1), res)
  {
    hide OperandOk, OpWord;
    var address := base + 2 * (pc + 1);
    assert ResourceAt(n.operand, WordAt(code, pc + 1), address, res);
    var a :| a in res && res[a] == n.operand && WordAt(code, pc + 1) == DistanceWord(address, a);
    assert 0 < address - a < 0xffff;
  }

  lemma FetchedOperand(src: Source, st: EmitState, k: int)
    requires InReach(src, st) && st.Placed(k) && Encoded(st.Node(k), st.code, st.Pc(k), src.base, st.res)
    requires IsBranch(st.Node(k).opcode)
    ensures FetchOperand(st.Node(k).opcode, st.code, st.Pc(k), src.base, st.res) == st.Node(k).operand
  {
    var n, pc := st.Node(k), st.Pc(k);
    var address := src.base + 2 * (pc + 1);
    if HasResource(n.opcode) {
      assert OffsetFits(n.operand, WordAt(st.code, pc + 1), address, st.res);
    }
  }

  /** The op of the original graph that placed op `k` stands for: itself, or a GOTO's target. */
  function Origin(src: Source, st: EmitState, k: int): int {
    if 0 <= k < |src.graph| then k else st.Node(k).next0
  }

  ghost predicate Runnable(src: Source, st: EmitState) {
    WellFormed(src) && Linked(src, st) && JumpsFit(st) && InReach(src, st)
  }

  /** Where control goes next follows the original graph, whatever was inverted or bridged. */
  lemma NextAgrees(src: Source, st: EmitState, k: int, matched: bool)
    requires WellFormed(src) && Linked(src, st) && st.Placed(k) && IsOp(src, k)
    requires IsBranch(src.graph[k].opcode)
    ensures var n, o := st.Node(k), src.graph[k];
            var now := n.Next(matched != n.negated);
            && n.opcode == o.opcode && n.operand == o.operand
            && st.Placed(now) && Origin(src, st, now) == o.Next(matched != o.negated)
            && (IsOp(src, now) || IsGoto(src, st, now))
  {
    hide CodeInv, EntryInv;
    assert SameOp(src, st, src.graph[k], st.Node(k));
    assert src.graph[k].next0 in src.rank && src.graph[k].next1 in src.rank;
    assert FallsTo(st, k, st.Node(k).next0, NULL);
  }

  lemma PlainNext(src: Source, st: EmitState, k: int)
    requires WellFormed(src) && Linked(src, st) && st.Placed(k) && IsOp(src, k)
    requires IsPlain(src.graph[k].opcode)
    ensures var n, o := st.Node(k), src.graph[k];
            && n.opcode == o.opcode && n.operand == o.operand == NoOperand
            && st.Placed(n.next0) && Origin(src, st, n.next0) == o.next0
            && (IsOp(src, n.next0) || IsGoto(src, st, n.next0))
            && st.Pc(n.next0) == st.Pc(k) + 1
  {
    hide CodeInv, EntryInv;
    assert SameOp(src, st, src.graph[k], st.Node(k));
    assert src.graph[k].next0 in src.rank;
    assert FallsTo(st, k, st.Node(k).next0, NULL);
  }

  lemma GotoNext(src: Source, st: EmitState, k: int)
    requires WellFormed(src) && Linked(src, st) && st.Placed(k) && !IsOp(src, k)
    ensures var n := st.Node(k);
            && n.opcode == GOTO && Origin(src, st, k) == n.next0 == n.next1 && IsOp(src, n.next0)
            && st.Placed(n.next0) && Origin(src, st, n.next0) == n.next0
            && JumpPatched(st, k) && |src.graph| <= k
  {
    hide CodeInv, EntryInv;
    assert IsGoto(src, st, k) && GotoOk(src, st, st.Node(k));
  }

  lemma DecodedOpWord(n: OpNode)
    requires n.opcode <= RETURN && OperandOk(n)
    ensures OpWord(n) % 0x100 == n.opcode
    ensures IsBranch(n.opcode) ==> (OpWord(n) / 0x100 % 2 == 1 <==> n.negated)
    ensures n.opcode == RETURN ==> n.operand == Code(OpWord(n) / 0x100)
  {
  }

  /** What the engine reads at a placed op */
  lemma WordsOfOp(src: Source, st: EmitState, k: int)
    requires Linked(src, st) && st.Placed(k)
    ensures var n, pc := st.Node(k), st.Pc(k);
            && 0 <= pc < |st.code| && pc + Size(n) <= |st.code| && n.opcode <= RETURN
            && st.code[pc] % 0x100 == n.opcode
            && (IsBranch(n.opcode) ==> (st.code[pc] / 0x100 % 2 == 1 <==> n.negated))
            && (n.opcode == RETURN ==> n.operand == Code(st.code[pc] / 0x100))
  {
    hide GraphInv, EntryInv, OperandAt, OpWord, FallsTo, JumpPatched;
    var n, pc := st.Node(k), st.Pc(k);
    assert Encoded(n, st.code, pc, src.base, st.res);
    DecodedOpWord(n);
  }

  lemma ShortRoundTrip(distance: int)
    requires -0x8000 <= distance < 0x8000
    ensures GetShort(distance % 0x1_0000) == distance
  {
  }

  /** The jump slot leads to the true branch, and the false branch follows the op. */
  lemma LinksOfOp(src: Source, st: EmitState, k: int)
    requires Linked(src, st) && st.Placed(k) && JumpsFit(st)
    ensures var n, slot := st.Node(k), JumpSlot(st, k);
            && (HasJump(n.opcode) ==> 0 <= slot < |st.code| && 2 * slot + GetShort(st.code[slot]) == 2 * st.Pc(n.next1))
            && (IsBranch(n.opcode) ==> st.Pc(n.next0) == slot + 1)
  {
    hide GraphInv, EntryInv, OperandAt, OpWord, GetShort;
    var n, pc := st.Node(k), st.Pc(k);
    assert Encoded(n, st.code, pc, src.base, st.res);
    if HasJump(n.opcode) {
      assert JumpPatched(st, k);
      ShortRoundTrip(JumpDistance(st, k));
    }
    if n.opcode < GOTO {
      assert FallsTo(st, k, n.next0, NULL);
    }
  }

  /** Ops `k` and `k'` of the linked code stand for the same continuation of the original graph. */
  ghost predicate Continues<S>(src: Source, st: EmitState, eval: Meaning<S>, k: int, s: S, k': int, s': S) {
    && WellFormed(src) && IsOp(src, Origin(src, st, k)) && IsOp(src, Origin(src, st, k'))
    && st.Placed(k') && (IsOp(src, k') || IsGoto(src, st, k'))
    && Walk(src.graph, src.rank, eval, Origin(src, st, k), s) == Walk(src.graph, src.rank, eval, Origin(src, st, k'), s')
    && 0 <= Height(src, st, k') < Height(src, st, k)
  }

  ghost function Height(src: Source, st: EmitState, k: int): int {
    var origin := Origin(src, st, k);
    if origin in src.rank then 2 * src.rank[origin] + if IsOp(src, k) then 0 else 1 else -1
  }

  lemma BranchContinues<S>(src: Source, st: EmitState, eval: Meaning<S>, k: int, s: S)
    requires WellFormed(src) && Linked(src, st) && st.Placed(k) && IsOp(src, k) && IsBranch(st.Node(k).opcode)
    ensures var n := st.Node(k);
            var (matched, s') := eval(n.opcode, n.operand, s);
            Continues(src, st, eval, k, s, n.Next(matched != n.negated), s')
  {
    hide Linked;
    var n := st.Node(k);
    var (matched, s') := eval(n.opcode, n.operand, s);
    OpcodeKept(src, st, k);
    NextAgrees(src, st, k, matched);
    var o := src.graph[k];
    assert o.next0 in src.rank && o.next1 in src.rank;
  }

  lemma OpcodeKept(src: Source, st: EmitState, k: int)
    requires Linked(src, st) && st.Placed(k) && IsOp(src, k)
    ensures st.Node(k).opcode == src.graph[k].opcode && (st.Node(k).opcode == RETURN ==> st.Node(k).operand == src.graph[k].operand)
  {
    hide CodeInv, EntryInv;
    assert SameOp(src, st, src.graph[k], st.Node(k));
  }

  lemma PlainContinues<S>(src: Source, st: EmitState, eval: Meaning<S>, k: int, s: S)
    requires WellFormed(src) && Linked(src, st) && st.Placed(k) && IsOp(src, k) && IsPlain(st.Node(k).opcode)
    ensures var n := st.Node(k);
            var s' := if n.opcode == NOP then s else eval(n.opcode, NoOperand, s).1;
            Continues(src, st, eval, k, s, n.next0, s') && st.Pc(n.next0) == st.Pc(k) + 1
  {
    hide Linked;
    OpcodeKept(src, st, k);
    PlainNext(src, st, k);
    assert src.graph[k].next0 in src.rank;
  }

  lemma GotoContinues<S>(src: Source, st: EmitState, eval: Meaning<S>, k: int, s: S)
    requires WellFormed(src) && Linked(src, st) && st.Placed(k) && !IsOp(src, k)
    ensures st.Node(k).opcode == GOTO && Continues(src, st, eval, k, s, st.Node(k).next1, s)
  {
    GotoNext(src, st, k);
    hide Linked;
  }

  lemma ReturnOfOp<S>(src: Source, st: EmitState, eval: Meaning<S>, k: int, s: S)
    requires WellFormed(src) && Linked(src, st) && st.Placed(k) && IsOp(src, k)
    ensures src.graph[k].opcode != GOTO && st.Node(k).opcode == src.graph[k].opcode
    ensures st.Node(k).opcode == RETURN ==>
              st.Node(k).operand == Code(Walk(src.graph, src.rank, eval, Origin(src, st, k), s))
  {
    hide Linked;
    OpcodeKept(src, st, k);
  }

  lemma OperandOfOp(src: Source, st: EmitState, k: int)
    requires Linked(src, st) && InReach(src, st) && st.Placed(k) && IsBranch(st.Node(k).opcode)
    ensures FetchOperand(st.Node(k).opcode, st.code, st.Pc(k), src.base, st.res) == st.Node(k).operand
  {
    hide GraphInv, EntryInv;
    assert Encoded(st.Node(k), st.code, st.Pc(k), src.base, st.res);
    FetchedOperand(src, st, k);
  }

  lemma RootIsPlaced(src: Source, st: EmitState)
    requires WellFormed(src) && Linked(src, st)
    ensures IsOp(src, src.root) && st.Placed(src.root) && st.Pc(src.root) == 0 && src.root in src.rank
    ensures Origin(src, st, src.root) == src.root && Height(src, st, src.root) >= 0
  {
  }

  /** An op that tests something: fetch the operand, evaluate, apply the negation, and jump or skip the slot. */
  method RunBranch<S>(code: seq<Word>, base: nat, res: map<nat, Operand>, eval: Meaning<S>, ip0: int, s: S,
                      ghost src: Source, ghost st: EmitState, ghost cur: int)
    returns (ip: int, s': S, ghost next: int)
    requires Runnable(src, st) && code == st.code && res == st.res && base == src.base
    requires st.Placed(cur) && IsOp(src, cur) && ip0 == 2 * st.Pc(cur) && IsBranch(st.Node(cur).opcode)
    ensures Continues(src, st, eval, cur, s, next, s') && ip == 2 * st.Pc(next)
  {
    hide Linked, WellFormed, JumpsFit, InReach, FetchOperand, GetShort, Continues;
    WordsOfOp(src, st, cur);
    LinksOfOp(src, st, cur);
    OperandOfOp(src, st, cur);
    BranchContinues(src, st, eval, cur, s);
    var pc := ip0 / 2;
    var op := code[pc];
    var opcode := op % 0x100;
    var (matched, after) := eval(opcode, FetchOperand(opcode, code, pc, base, res), s);
    var taken := matched != (op / 0x100 % 2 == 1);
    s' := after;
    next := st.Node(cur).Next(taken);
    ip := ip0 + 2 * Args(opcode);
    ip := ip + if taken then GetShort(code[pc + Args(opcode)]) else 2;
  }

  /** The loop's invariant: what is still to be run is what walking from the root amounts to. */
  ghost predicate Running<S>(src: Source, st: EmitState, eval: Meaning<S>, s0: S, cur: int, s: S) {
    && WellFormed(src) && IsOp(src, Origin(src, st, cur)) && 0 <= Height(src, st, cur)
    && st.Placed(cur) && (IsOp(src, cur) || IsGoto(src, st, cur))
    && Walk(src.graph, src.rank, eval, Origin(src, st, cur), s) == Walk(src.graph, src.rank, eval, src.root, s0)
  }

  lemma RunStarts<S>(src: Source, st: EmitState, eval: Meaning<S>, s0: S)
    requires Runnable(src, st)
    ensures Running(src, st, eval, s0, src.root, s0) && st.Pc(src.root) == 0 && st.Placed(src.root)
    ensures IsOp(src, src.root) && 0 <= Height(src, st, src.root)
    ensures Linked(src, st) && Ranked(src.graph, src.rank) && src.root in src.rank
  {
    RootIsPlaced(src, st);
    hide Linked;
  }

  lemma RunsOn<S>(src: Source, st: EmitState, eval: Meaning<S>, s0: S, k: int, s: S, k': int, s': S)
    requires Running(src, st, eval, s0, k, s) && Continues(src, st, eval, k, s, k', s')
    ensures Running(src, st, eval, s0, k', s') && 0 <= Height(src, st, k') < Height(src, st, k)
  {
  }

  lemma RunEnds<S>(src: Source, st: EmitState, eval: Meaning<S>, s0: S, k: int, s: S)
    requires Running(src, st, eval, s0, k, s) && Linked(src, st) && IsOp(src, k) && st.Node(k).opcode == RETURN
    ensures st.Node(k).operand == Code(Walk(src.graph, src.rank, eval, src.root, s0))
  {
    ReturnOfOp(src, st, eval, k, s);
  }

  lemma NotAGoto(src: Source, st: EmitState, k: int)
    requires Runnable(src, st) && st.Placed(k)
    ensures IsOp(src, k) <==> st.Node(k).opcode != GOTO
  {
    hide CodeInv, EntryInv, InReach, JumpsFit;
    if IsOp(src, k) {
      assert SameOp(src, st, src.graph[k], st.Node(k));
    } else {
      assert GotoOk(src, st, st.Node(k));
    }
  }

  /** An op that falls through, or jumps in any case */
  method RunUnconditional<S>(code: seq<Word>, eval: Meaning<S>, ip0: int, s: S,
                             ghost src: Source, ghost st: EmitState, ghost cur: int)
    returns (ip: int, s': S, ghost next: int)
    requires Runnable(src, st) && code == st.code
    requires st.Placed(cur) && ip0 == 2 * st.Pc(cur)
    requires if IsPlain(st.Node(cur).opcode) then IsOp(src, cur) else !IsOp(src, cur)
    ensures Continues(src, st, eval, cur, s, next, s') && ip == 2 * st.Pc(next)
  {
    hide Linked, WellFormed, JumpsFit, InReach, GetShort, Continues;
    WordsOfOp(src, st, cur);
    LinksOfOp(src, st, cur);
    var opcode := code[ip0 / 2] % 0x100;
    if IsPlain(opcode) {
      PlainContinues(src, st, eval, cur, s);
      s' := if opcode == NOP then s else eval(opcode, NoOperand, s).1;
      ip := ip0 + 2;
      next := st.Node(cur).next0;
    } else {
      GotoContinues(src, st, eval, cur, s);
      s' := s;
      ip := ip0 + 2;
      ip := ip + GetShort(code[ip / 2]);
      next := st.Node(cur).next1;
    }
  }

  /** `ip` is the address of an instruction in bytes. Whatever the ops mean, running linked code
      returns what walking the original graph from its root returns. */
  method Accept<S>(code: seq<Word>, base: nat, res: map<nat, Operand>, eval: Meaning<S>, s0: S,
                   ghost src: Source, ghost st: EmitState) returns (result: nat)
    requires Runnable(src, st) && code == st.code && res == st.res && base == src.base
    ensures src.root in src.rank && result == Walk(src.graph, src.rank, eval, src.root, s0)
  {
    hide Runnable, Running, Continues, Origin, Height, Walk, WellFormed, Ranked, Linked;
    var ip, s := 0, s0;
    ghost var cur := src.root;
    RunStarts(src, st, eval, s0);
    while true
      invariant ip == 2 * st.Pc(cur) && Running(src, st, eval, s0, cur, s) && st.Placed(cur)
      invariant IsOp(src, cur) || IsGoto(src, st, cur)
      invariant 0 <= Height(src, st, cur)
      decreases Height(src, st, cur)
    {
      ghost var k, before := cur, s;
      WordsOfOp(src, st, cur);
      NotAGoto(src, st, cur);
      var op := code[ip / 2];
      var opcode := op % 0x100;
      if opcode == RETURN {
        RunEnds(src, st, eval, s0, cur, s);
        result := op / 0x100;
        break;
      }
      if IsPlain(opcode) || opcode == GOTO {
        ip, s, cur := RunUnconditional(code, eval, ip, s, src, st, cur);
      } else {
        ip, s, cur := RunBranch(code, base, res, eval, ip, s, src, st, cur);
      }
      RunsOn(src, st, eval, s0, k, before, cur, s);
    }
  }

  /** Code of at most 16384 words whose resources fit before it can always be run. */
  lemma ShortCodeRuns(src: Source, st: EmitState)
    requires WellFormed(src) && Linked(src, st) && InReach(src, st) && |st.code| <= 0x4000
    ensures Runnable(src, st)
  {
    ShortCodeFits(src, st);
  }
}
