/** Code generation (src/match/MatcherEmitter.cpp, MatcherEmitter.h): the op graph is laid out
    as 16-bit words. The false branch falls through, true branches jump, an op is inverted when
    its false branch is the better jump target, and a GOTO bridges to an op placed earlier. */
module MatcherEmitters {
  import opened OpGraphs
  import opened Layouts

  const SIZEOF_DOUBLE: nat := 8

  /** `*pOpcode ^= 256` */
  function FlipNegation(w: Word): Word {
    if w / 0x100 % 2 == 1 then w - 0x100 else w + 0x100
  }

  /** Whichever way the test comes out, the op as placed leads to the target of the op as it was, or to a GOTO to it. */
  predicate LeadsTo(nodes: seq<OpNode>, placed: OpNode, matched: bool, n: OpNode) {
    var now, target := placed.Next(matched != placed.negated), n.Next(matched != n.negated);
    now == target || (0 <= now < |nodes| && nodes[now] == NewOp(GOTO, target, target))
  }

  lemma PlainEncoded(n: OpNode, code: seq<Word>, pc: nat, base: nat, res: map<nat, Operand>)
    requires IsPlain(n.opcode) && OperandOk(n) && |code| == pc + 1 && code[pc] == n.opcode
    ensures Encoded(n, code, pc, base, res)
  {
  }

  lemma LastEncoded(n: OpNode, code: seq<Word>, pc: nat, base: nat, res: map<nat, Operand>)
    requires OperandOk(n) && |code| == pc + Size(n)
    requires if n.opcode == GOTO then code[pc] == GOTO else n.opcode == RETURN && code[pc] == RETURN + n.operand.code * 0x100
    ensures Encoded(n, code, pc, base, res)
  {
  }

  lemma ReturnOperand(n: OpNode)
    requires OperandOk(n) && n.opcode == RETURN
    ensures n.operand.Code? && n.operand.code < 0x100
  {
  }

  lemma GotoOperand(n: OpNode)
    requires n.opcode == GOTO && n.operand == NoOperand
    ensures OperandOk(n)
  {
  }

  lemma SameOperandOk(n: OpNode, n': OpNode)
    requires OperandOk(n) && n'.opcode == n.opcode && n'.operand == n.operand
    ensures OperandOk(n')
  {
  }

  /** The steps by which the graph gets there */
  lemma OrientedIs(nodes: seq<OpNode>, i: int, n: OpNode)
    requires 0 <= i < |nodes|
    ensures var now, bridged, bridge := nodes[i := n], n.(next0 := |nodes|), NewOp(GOTO, n.next0, n.next0);
            Oriented(nodes, i, n) == if NeedsBridge(nodes, n) then (now + [bridge])[i := bridged]
                                     else if NeedsInverse(nodes, n) then now[i := n.Inverse()] else now
    ensures NeedsBridge(nodes, n) ==> Oriented(nodes, i, n)[|nodes|] == NewOp(GOTO, n.next0, n.next0)
    ensures |nodes| <= |Oriented(nodes, i, n)| && forall k {:trigger nodes[k]} :: 0 <= k < |nodes| && k != i ==> Oriented(nodes, i, n)[k] == nodes[k]
    ensures NeedsBridge(nodes, n) ==> |nodes| < |Oriented(nodes, i, n)|
  {
  }

  lemma FlippedWord(n: OpNode)
    requires IsBranch(n.opcode)
    ensures FlipNegation(OpWord(n)) == OpWord(n.Inverse()) && forall k :: OpWord(n) == OpWord(n.(next0 := k))
  {
    hide FlipNegation;
    FlippedBit(n.opcode);
  }

  lemma FlippedBit(opcode: nat)
    requires opcode < 0x100
    ensures FlipNegation(opcode) == opcode + 0x100 && FlipNegation(opcode + 0x100) == opcode
    ensures opcode % 0x1_0000 == opcode && (opcode + 0x100) % 0x1_0000 == opcode + 0x100
  {
  }

  lemma PlacedLeads(nodes: seq<OpNode>, n: OpNode, nodes': seq<OpNode>)
    requires NeedsBridge(nodes, n) ==> |nodes| < |nodes'| && nodes'[|nodes|] == NewOp(GOTO, n.next0, n.next0)
    ensures LeadsTo(nodes', PlacedBranch(nodes, n, |nodes|), true, n) && LeadsTo(nodes', PlacedBranch(nodes, n, |nodes|), false, n)
  {
  }

  class MatcherEmitter {
    const graph: OpGraph
    const root: int
    const pCode: array<Word>
    const base: nat             // byte address of pCode[0]; the resource area starts at 0
    const regexCount: nat       // length of the graph's list of regex operands
    const sizeofRegex: nat
    var resources: map<nat, Operand>
    var resourcesEnd: nat
    var regexResource: seq<nat>
    var deferred: seq<int>
    var jumps: seq<int>
    ghost var at: map<int, nat>

    constructor (graph: OpGraph, root: int, pCode: array<Word>, base: nat, regexCount: nat, sizeofRegex: nat)
      ensures this.graph == graph && this.root == root && this.pCode == pCode && this.base == base
      ensures this.regexCount == regexCount && this.sizeofRegex == sizeofRegex
      ensures resources == map[] && resourcesEnd == 0 && deferred == [] && jumps == [] && at == map[]
    {
      this.graph, this.root, this.pCode, this.base := graph, root, pCode, base;
      this.regexCount, this.sizeofRegex := regexCount, sizeofRegex;
      resources, resourcesEnd, regexResource, deferred, jumps := map[], 0, [], [], [];
      at := map[];
    }

    ghost function Snap(p: nat): EmitState
      reads this, graph, pCode
      requires p <= pCode.Length
    {
      EmitState(graph.nodes, pCode[..p], at, deferred, jumps, resources)
    }

    ghost predicate ResourcesOk()
      reads this
    {
      && (forall a :: a in resources ==> a < resourcesEnd)
      && |regexResource| == regexCount
      && (forall i :: 0 <= i < regexCount ==>
            regexResource[i] in resources && resources[regexResource[i]] == Regex(i))
    }

    /** Sizes are rounded up to a multiple of 8. */
    method AllocResource(size: nat, content: Operand) returns (address: nat)
      modifies this`resources, this`resourcesEnd
      requires size > 0
      requires forall a :: a in resources ==> a < resourcesEnd
      ensures address == old(resourcesEnd) < resourcesEnd
      ensures address !in old(resources) && resources == old(resources)[address := content]
      ensures forall a :: a in resources ==> a < resourcesEnd
    {
      address := resourcesEnd;
      resourcesEnd := resourcesEnd + size + (8 - size % 8) % 8;
      resources := resources[address := content];
    }

    method CreateRegexResources()
      modifies this`resources, this`resourcesEnd, this`regexResource
      requires sizeofRegex > 0 && resources == map[] && resourcesEnd == 0
      ensures ResourcesOk()
    {
      regexResource := [];
      for i := 0 to regexCount
        invariant forall a :: a in resources ==> a < resourcesEnd
        invariant |regexResource| == i
        invariant forall j :: 0 <= j < i ==>
                    regexResource[j] in resources && resources[regexResource[j]] == Regex(j)
      {
        var address := AllocResource(sizeofRegex, Regex(i));
        regexResource := regexResource + [address];
      }
    }

    method PutResourceOffset(p: nat, address: nat)
      modifies pCode
      requires p < pCode.Length
      ensures pCode[..] == old(pCode[..])[p := DistanceWord(base + 2 * p, address)]
    {
      pCode[p] := DistanceWord(base + 2 * p, address);
    }

    /** Writes the operand words of op `n` at `p`, and its resource if it has one. */
    method PutOperand(n: OpNode, p: nat) returns (p': nat)
      modifies this`resources, this`resourcesEnd, pCode
      requires IsBranch(n.opcode) && OperandOk(n) && 0 < p && p + Args(n.opcode) <= pCode.Length
      requires ResourcesOk() && (n.opcode == REGEX ==> n.operand.regex < regexCount)
      ensures p' == p + Args(n.opcode) - 1
      ensures pCode[..p] == old(pCode[..p])
      ensures ResourcesOk() && Extends(old(resources), resources)
      ensures OperandAt(n, pCode[..p + Args(n.opcode)], p - 1, base, resources)
    {
      p' := p;
      ghost var end := p + Args(n.opcode);
      var kind := OperandTypeOf(n.opcode);
      if kind == CodeType {
        pCode[p'] := n.operand.code;
        p' := p' + 1;
      } else if kind == FeatureTypesType {
        pCode[p'] := n.operand.types % 0x1_0000;
        pCode[p' + 1] := n.operand.types / 0x1_0000;
        p' := p' + 2;
        assert WordAt(pCode[..end], p) == pCode[p] && WordAt(pCode[..end], p + 1) == pCode[p + 1];
      } else if kind != NoneType {
        var address;
        if kind == RegexType {
          address := regexResource[n.operand.regex];
        } else {
          var size := if kind == StringType then |n.operand.str| + 2 else SIZEOF_DOUBLE;
          address := AllocResource(size, n.operand);
        }
        PutResourceOffset(p', address);
        p' := p' + 1;
        assert WordAt(pCode[..end], p) == DistanceWord(base + 2 * p, address);
        assert ResourceAt(n.operand, WordAt(pCode[..end], p), base + 2 * p, resources);
      }
    }

    method Defer(node: int)
      modifies this`deferred, graph`nodes
      requires 0 <= node < |graph.nodes|
      ensures graph.nodes == old(graph.nodes)[node := old(graph.nodes)[node].(deferred := true)]
      ensures deferred == if old(graph.nodes)[node].deferred then old(deferred) else old(deferred) + [node]
    {
      if graph.nodes[node].deferred {
        assert graph.nodes[node] == graph.nodes[node].(deferred := true);
        return;
      }
      graph.nodes := graph.nodes[node := graph.nodes[node].(deferred := true)];
      deferred := deferred + [node];
    }

    method AddJump(node: int)
      modifies this`jumps
      ensures jumps == old(jumps) + [node]
    {
      jumps := jumps + [node];
    }

    /** Pops deferred ops until one is found that has not been placed. */
    method TakeDeferred(p: nat, ghost src: Source) returns (node: int)
      modifies this`deferred
      requires p <= pCode.Length && WellFormed(src) && EmitInv(src, Snap(p), NULL)
      ensures EmitInv(src, Snap(p), node)
      ensures node == NULL ==> deferred == []
      ensures node != NULL ==> IsOp(src, node)
    {
      hide EmitInv;
      while deferred != []
        invariant EmitInv(src, Snap(p), NULL)
        decreases |deferred|
      {
        ghost var st := Snap(p);
        node := deferred[|deferred| - 1];
        DeferredOp(src, st, node);
        deferred := deferred[..|deferred| - 1];
        PopKeepsInv(src, st, Snap(p), node);
        if graph.nodes[node].address == 0 {
          return;
        }
      }
      node := NULL;
    }

    ghost predicate Ready(src: Source, p: nat, node: int)
      reads this, graph, pCode
    {
      && p <= pCode.Length && src.root == root && src.base == base && ResourcesOk()
      && WellFormed(src) && RegexesOk(src)
      && EmitInv(src, Snap(p), node)
    }

    ghost predicate RegexesOk(src: Source) {
      forall k :: IsOp(src, k) && src.graph[k].opcode == REGEX ==>
        src.graph[k].operand.Regex? && src.graph[k].operand.regex < regexCount
    }

    /** Opcode word, operand and an unwritten jump slot for op `n` */
    method PutBranchingOp(n: OpNode, pOpcode: nat) returns (p: nat)
      requires IsBranch(n.opcode) && OperandOk(n) && pOpcode + Size(n) <= pCode.Length
      requires ResourcesOk() && (n.opcode == REGEX ==> n.operand.regex < regexCount)
      modifies this`resources, this`resourcesEnd, pCode
      ensures p == pOpcode + Size(n) && pCode[..pOpcode] == old(pCode[..pOpcode])
      ensures ResourcesOk() && Extends(old(resources), resources)
      ensures Encoded(n, pCode[..p], pOpcode, base, resources)
    {
      p := PutOperand(n, pOpcode + 1);
      assert pCode[..pOpcode] == pCode[..pOpcode + 1][..pOpcode];
      ghost var words := pCode[..p + 1];
      pCode[pOpcode] := n.opcode + if n.negated then 0x100 else 0;
      p := p + 1;
      assert pCode[..p] == words[pOpcode := OpWord(n)];
      SameOperandWords(n, words, pCode[..p], pOpcode, base, resources);
    }

    /** Decides which branch falls through, and bridges to it if it has been placed. */
    method OrientBranch(node: int, n: OpNode, pOpcode: nat) returns (ifFalse: int, ifTrue: int)
      requires 0 <= node < |graph.nodes| && pOpcode < pCode.Length
      requires IsBranch(n.opcode) && pCode[pOpcode] == OpWord(n)
      requires 0 <= n.next0 < |graph.nodes| && 0 <= n.next1 < |graph.nodes|
      requires node != n.next0 && node != n.next1
      modifies graph, pCode
      ensures var nodes0 := old(graph.nodes);
              var placed := PlacedBranch(nodes0, n, |nodes0|);
              && 0 <= ifTrue < |nodes0| && graph.nodes == Oriented(nodes0, node, n)
              && graph.nodes[ifTrue] == nodes0[ifTrue]
              && pCode[..] == old(pCode[..])[pOpcode := OpWord(placed)]
              && ifFalse == placed.next0 && ifTrue == placed.next1
              && LeadsTo(graph.nodes, placed, true, n) && LeadsTo(graph.nodes, placed, false, n)
    {
      hide LeadsTo, Oriented, OpWord;
      ghost var nodes0 := graph.nodes;
      OrientedIs(nodes0, node, n);
      FlippedWord(n);
      graph.nodes := graph.nodes[node := n];
      ifFalse, ifTrue := n.next0, n.next1;
      if graph.nodes[ifTrue].address != 0 {
        if graph.nodes[ifFalse].address != 0 {
          ifFalse := graph.CreateGoto(ifFalse);
          graph.nodes := graph.nodes[node := n.(next0 := ifFalse)];
        }
      } else if graph.nodes[ifFalse].address != 0 || graph.nodes[ifFalse].callerCount > graph.nodes[ifTrue].callerCount {
        graph.nodes := graph.nodes[node := n.Inverse()];
        pCode[pOpcode] := FlipNegation(pCode[pOpcode]);
        ifTrue, ifFalse := ifFalse, ifTrue;
      }
      PlacedLeads(nodes0, n, graph.nodes);
    }

    /** The branching case of the switch in `emit` */
    method PlaceBranchWords(node: int, n: OpNode, pOpcode: nat) returns (next: int, p: nat)
      requires 0 <= node < |graph.nodes| && IsBranch(n.opcode) && OperandOk(n)
      requires 0 <= n.next0 < |graph.nodes| && 0 <= n.next1 < |graph.nodes|
      requires node != n.next0 && node != n.next1
      requires pOpcode + Size(n) <= pCode.Length
      requires ResourcesOk() && (n.opcode == REGEX ==> n.operand.regex < regexCount)
      modifies this`deferred, this`jumps, this`resources, this`resourcesEnd, graph, pCode
      ensures p == pOpcode + Size(n) && pCode[..pOpcode] == old(pCode[..pOpcode])
      ensures ResourcesOk() && Extends(old(resources), resources)
      ensures graph.nodes == AfterBranch(old(graph.nodes), node, n)
      ensures var placed := PlacedBranch(old(graph.nodes), n, |old(graph.nodes)|);
              && next == placed.next0
              && Encoded(placed, pCode[..p], pOpcode, base, resources)
              && 0 <= placed.next1 < |old(graph.nodes)|
              && deferred == (if old(graph.nodes)[placed.next1].deferred then old(deferred)
                              else old(deferred) + [placed.next1])
      ensures jumps == old(jumps) + [node]
    {
      hide Extends, OperandAt, OperandOk, PlacedBranch, OpWord;
      p := PutBranchingOp(n, pOpcode);
      ghost var nodes0 := graph.nodes;
      ghost var words := pCode[..p];
      ghost var placed := PlacedBranch(graph.nodes, n, |graph.nodes|);
      assert pCode[pOpcode] == WordAt(words, pOpcode);
      var ifFalse, ifTrue := OrientBranch(node, n, pOpcode);
      assert pCode[..p] == words[pOpcode := OpWord(placed)];
      PlacedBranchEncoded(nodes0, n, |nodes0|, words, pCode[..p], pOpcode, base, resources);
      Defer(ifTrue);
      AddJump(node);
      next := ifFalse;
    }

    method PlaceBranch(node: int, pOpcode: nat, ghost src: Source) returns (next: int, p: nat)
      requires Ready(src, pOpcode, node) && IsOp(src, node) && IsBranch(graph.nodes[node].opcode)
      requires pOpcode + 4 <= pCode.Length
      modifies this, graph, pCode
      ensures p == pOpcode + Size(old(graph.nodes)[node])
      ensures Ready(src, p, next) && next != NULL && at == old(at)[node := pOpcode]
      ensures |graph.nodes| == |old(graph.nodes)| + if IsOp(src, next) then 0 else 1
    {
      hide EmitInv, LinksOk, Encoded, PlacesNode, PlacesFlow, WellFormed, Extends;
      ghost var st := Snap(pOpcode);
      PendingOp(src, st, node);
      var n := MarkPlaced(graph.nodes[node], 2 * pOpcode);
      next, p := PlaceBranchWords(node, n, pOpcode);
      at := at[node := pOpcode];
      ghost var st' := Snap(p);
      BranchIsPlaced(src, st, node, st', n);
      BranchFlows(src, st, node, st', n);
      PlaceKeepsInv(src, st, node, st', next);
    }

    /** The plain case of the switch in `emit`: the op falls through to its only branch, or to a GOTO to it. */
    method PutPlain(node: int, n: OpNode, pOpcode: nat) returns (next: int, p: nat)
      requires IsPlain(n.opcode) && 0 <= node < |graph.nodes| && 0 <= n.next0 < |graph.nodes| && node != n.next0 && pOpcode < pCode.Length
      modifies graph, pCode
      ensures p == pOpcode + 1 && pCode[..p] == old(pCode[..pOpcode]) + [n.opcode]
      ensures graph.nodes == AfterPlain(old(graph.nodes), node, n)
      ensures next == (if IsAt(old(graph.nodes), n.next0) then |old(graph.nodes)| else n.next0)
      ensures |graph.nodes| == (if next == n.next0 then |old(graph.nodes)| else |old(graph.nodes)| + 1)
      ensures graph.nodes[node] == n.(next0 := next)
    {
      graph.nodes := graph.nodes[node := n];
      pCode[pOpcode] := n.opcode;
      p := pOpcode + 1;
      next := n.next0;
      if graph.nodes[next].address != 0 {
        next := graph.CreateGoto(next);
        graph.nodes := graph.nodes[node := n.(next0 := next)];
      }
    }

    method PlacePlain(node: int, pOpcode: nat, ghost src: Source) returns (next: int, p: nat)
      requires Ready(src, pOpcode, node) && IsOp(src, node) && IsPlain(graph.nodes[node].opcode)
      requires pOpcode + 1 <= pCode.Length
      modifies this, graph, pCode
      ensures p == pOpcode + 1
      ensures Ready(src, p, next) && next != NULL && at == old(at)[node := pOpcode]
      ensures |graph.nodes| == |old(graph.nodes)| + if IsOp(src, next) then 0 else 1
    {
      hide EmitInv, LinksOk, PlacesNode, PlacesFlow, WellFormed, Extends, OperandOk, RegexesOk, Encoded, AfterPlain;
      ghost var st := Snap(pOpcode);
      PendingOp(src, st, node);
      var n := MarkPlaced(graph.nodes[node], 2 * pOpcode);
      next, p := PutPlain(node, n, pOpcode);
      at := at[node := pOpcode];
      SameOperandOk(st.Node(node), graph.nodes[node]);
      PlainEncoded(graph.nodes[node], pCode[..p], pOpcode, base, resources);
      PlainIsPlaced(src, st, node, Snap(p), n, next);
      PlaceKeepsInv(src, st, node, Snap(p), next);
    }

    method PlaceLast(node: int, pOpcode: nat, ghost src: Source) returns (p: nat)
      requires Ready(src, pOpcode, node) && 0 <= node < |graph.nodes|
      requires IsGoto(src, Snap(pOpcode), node) || (IsOp(src, node) && graph.nodes[node].opcode == RETURN)
      requires node != NULL && pOpcode + Size(graph.nodes[node]) <= pCode.Length
      modifies this, graph, pCode
      ensures p == pOpcode + Size(old(graph.nodes)[node])
      ensures Ready(src, p, NULL) && at == old(at)[node := pOpcode]
      ensures |graph.nodes| == |old(graph.nodes)|
    {
      hide EmitInv, LinksOk, PlacesNode, PlacesFlow, WellFormed, Extends, OperandOk, RegexesOk, Encoded;
      ghost var st := Snap(pOpcode);
      if IsOp(src, node) {
        PendingOp(src, st, node);
        ReturnOperand(graph.nodes[node]);
      } else {
        PendingGoto(src, st, node);
        GotoOperand(graph.nodes[node]);
      }
      var n := MarkPlaced(graph.nodes[node], 2 * pOpcode);
      SameOperandOk(graph.nodes[node], n);
      graph.nodes := graph.nodes[node := n];
      p := pOpcode + 1;
      if n.opcode == GOTO {
        pCode[pOpcode] := GOTO;
        p := p + 1;
        AddJump(node);
      } else {
        pCode[pOpcode] := RETURN + n.operand.code * 0x100;
      }
      at := at[node := pOpcode];
      LastEncoded(n, pCode[..p], pOpcode, base, resources);
      LastIsPlaced(src, st, node, Snap(p), n);
      PlaceKeepsInv(src, st, node, Snap(p), NULL);
    }

    /** One round of the loop in `emit`: places op `node` and finds the op to place next. */
    method PlaceNext(node: int, pOpcode: nat, ghost src: Source) returns (next: int, p: nat)
      requires Ready(src, pOpcode, node) && node != NULL
      requires pOpcode + (if IsOp(src, node) then 4 else 2) <= pCode.Length
      modifies this, graph, pCode
      ensures Ready(src, p, next) && node !in old(at) && at == old(at)[node := pOpcode]
      ensures next == NULL ==> deferred == []
      ensures IsOp(src, node) ==>
                && p + (if next == NULL || IsOp(src, next) then 0 else 2) <= pOpcode + 6
                && |graph.nodes| <= |old(graph.nodes)| + 1
      ensures !IsOp(src, node) ==>
                (next == NULL || IsOp(src, next)) && p == pOpcode + 2 && |graph.nodes| == |old(graph.nodes)|
    {
      hide EmitInv, WellFormed, LinksOk, OperandOk, RegexesOk, Untouched;
      ghost var st := Snap(pOpcode);
      PendingIsNode(src, st, node);
      if IsOp(src, node) {
        PendingOp(src, st, node);
      } else {
        PendingGoto(src, st, node);
      }
      var opcode := graph.nodes[node].opcode;
      if IsPlain(opcode) {
        next, p := PlacePlain(node, pOpcode, src);
      } else if opcode < GOTO {
        next, p := PlaceBranch(node, pOpcode, src);
      } else {
        p := PlaceLast(node, pOpcode, src);
        next := TakeDeferred(p, src);
      }
    }

    /** Lays out the graph. Afterwards nothing is deferred, and the jumps still have to be patched.
        Every op is placed once and brings at most one GOTO with it. */
    method Emit(ghost src: Source) returns (len: nat)
      requires src == Source(graph.nodes, src.rank, root, base)
      requires WellFormed(src) && RegexesOk(src) && sizeofRegex > 0
      requires resources == map[] && resourcesEnd == 0 && deferred == [] && jumps == [] && at == map[]
      requires pCode.Length >= 6 * |src.rank|
      modifies this, graph, pCode
      ensures Ready(src, len, NULL) && deferred == []
      ensures |graph.nodes| - |src.graph| <= |PlacedOps(src, at)| && len <= 6 * |PlacedOps(src, at)|
    {
      assert forall k :: IsOp(src, k) ==> k in src.rank;
      assert IsOp(src, root);
      hide EmitInv, WellFormed, RegexesOk;
      CreateRegexResources();
      var node: int, p: nat := root, 0;
      StartInv(src, Snap(0));
      assert Ready(src, p, node);
      hide Ready, IsOp, PlacedOps;
      while true
        invariant Ready(src, p, node) && node != NULL
        invariant |graph.nodes| - |src.graph| <= |PlacedOps(src, at)| <= |src.rank|
        invariant p + (if IsOp(src, node) then 0 else 2) <= 6 * |PlacedOps(src, at)|
        decreases 2 * (|src.rank| - |PlacedOps(src, at)|) + if IsOp(src, node) then 0 else 1
      {
        PlacedOpsGrow(src, at, node, p);
        node, p := PlaceNext(node, p, src);
        if node == NULL {
          return p;
        }
      }
    }

    /** Back-patches the relative jumps. */
    method FixJumps(len: nat, ghost src: Source)
      requires len <= pCode.Length && FixInv(src, Snap(len))
      modifies this`jumps, pCode
      ensures Linked(src, Snap(len))
      ensures Snap(len) == old(Snap(len)).(code := Snap(len).code, jumps := [])
    {
      hide FixInv, Linked;
      while jumps != []
        invariant FixInv(src, Snap(len))
        invariant Snap(len) == old(Snap(len)).(code := Snap(len).code, jumps := jumps)
        decreases |jumps|
      {
        ghost var st := Snap(len);
        var node := jumps[|jumps| - 1];
        jumps := jumps[..|jumps| - 1];
        JumpTarget(src, st, node);
        var n := graph.nodes[node];
        var branchArgOffsetInBytes := n.address + Args(n.opcode) * 2;
        var targetAddress := graph.nodes[n.next1].address;
        var relativeJump := targetAddress - branchArgOffsetInBytes;
        assert relativeJump != 0;
        pCode[branchArgOffsetInBytes / 2] := relativeJump % 0x1_0000;
        assert Snap(len).code == st.code[JumpSlot(st, node) := JumpDistance(st, node) % 0x1_0000];
        PatchKeepsInv(src, st, Snap(len), node, JumpSlot(st, node));
      }
      FixedIsLinked(src, Snap(len));
    }
  }

  /** The ops of the original graph that have been placed */
  ghost function PlacedOps(src: Source, at: map<int, nat>): set<int> {
    set k | k in at && IsOp(src, k)
  }

  lemma PlacedOpsGrow(src: Source, at: map<int, nat>, node: int, pc: nat)
    requires node !in at
    ensures var before, after := PlacedOps(src, at), PlacedOps(src, at[node := pc]);
            |after| == |before| + (if IsOp(src, node) then 1 else 0) && |after| <= |src.rank|
  {
    var before, after := PlacedOps(src, at), PlacedOps(src, at[node := pc]);
    if IsOp(src, node) {
      assert after == before + {node} && node !in before;
    } else {
      assert after == before;
    }
    assert after <= src.rank.Keys;
    SubsetIsSmaller(after, src.rank.Keys);
  }

  lemma SubsetIsSmaller<T>(a: set<T>, b: set<T>)
    requires a <= b
    ensures |a| <= |b|
  {
    assert b == a + (b - a);
  }

  /** MatcherCompiler::compileMatcher from the validated graph to code that is ready to run */
  method CompileMatcher(graph: OpGraph, root: int, pCode: array<Word>, base: nat,
                        regexCount: nat, sizeofRegex: nat, ghost src: Source)
    returns (emitter: MatcherEmitter, len: nat)
    requires src == Source(graph.nodes, src.rank, root, base)
    requires WellFormed(src) && sizeofRegex > 0
    requires forall k :: IsOp(src, k) && src.graph[k].opcode == REGEX ==>
               src.graph[k].operand.Regex? && src.graph[k].operand.regex < regexCount
    requires pCode.Length >= 6 * |src.rank|
    modifies graph, pCode
    ensures fresh(emitter) && emitter.graph == graph && emitter.pCode == pCode
    ensures len <= pCode.Length && Linked(src, emitter.Snap(len)) && emitter.ResourcesOk()
    ensures forall k :: IsOp(src, k) && k in emitter.at <==> Reachable(src.graph, root, k)
    ensures |graph.nodes| - |src.graph| <= |PlacedOps(src, emitter.at)|
    ensures len <= 6 * |PlacedOps(src, emitter.at)|
  {
    hide EmitInv, FixInv, WellFormed, Linked;
    RootIsOp(src);
    emitter := new MatcherEmitter(graph, root, pCode, base, regexCount, sizeofRegex);
    len := emitter.Emit(src);
    ghost var st := emitter.Snap(len);
    forall k ensures IsOp(src, k) && k in emitter.at <==> Reachable(src.graph, root, k) {
      PlacedAreReachable(src, st, k);
    }
    EmittedCanBeFixed(src, st);
    emitter.FixJumps(len, src);
    assert emitter.Snap(len).at == st.at;
  }
}
