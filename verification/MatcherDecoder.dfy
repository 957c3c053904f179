/** The disassembler's linear sweep (src/match/MatcherDecoder.cpp, `decode`). It knows neither
    the length of the code nor the graph: it stops at a RETURN or GOTO beyond which no jump led. */
module MatcherDecoders {
  import opened OpGraphs
  import opened Layouts
  import opened MatcherEngines

  /** Integer division by 2, truncating */
  function Half(x: int): int { if x < 0 then -((-x) / 2) else x / 2 }

  lemma FallsInside(src: Source, st: EmitState, k: int)
    requires Linked(src, st) && st.Placed(k)
    ensures st.Pc(k) < st.End(k) <= |st.code|
    ensures st.Node(k).opcode < GOTO ==> st.End(k) < |st.code| && StartsAt(st, st.End(k))
    ensures HasJump(st.Node(k).opcode) ==>
              st.Placed(st.Node(k).next1) && st.Pc(st.Node(k).next1) < |st.code|
  {
    hide GraphInv, CodeInv;
    var n := st.Node(k);
    if n.opcode < GOTO {
      assert FallsTo(st, k, n.next0, NULL);
      assert StartsAt(st, st.Pc(n.next0));
      assert st.End(n.next0) <= |st.code|;
    }
    if HasJump(n.opcode) {
      assert st.Placed(n.next1) && st.End(n.next1) <= |st.code|;
    }
  }

  lemma HalfOfDistance(slot: int, distance: int, target: int)
    requires 2 * slot + distance == 2 * target
    ensures slot + Half(distance) == target
  {
  }

  /** Op `k` is decoded at `pc`: its size, and the word its jump leads to. */
  lemma DecodedOp(src: Source, st: EmitState, k: int)
    requires Linked(src, st) && JumpsFit(st) && st.Placed(k)
    ensures var n, pc := st.Node(k), st.Pc(k);
            && 0 <= pc < st.End(k) <= |st.code| && st.End(k) == pc + 1 + Args(n.opcode)
            && n.opcode <= RETURN && st.code[pc] % 0x100 == n.opcode
            && (n.opcode < GOTO ==> st.End(k) < |st.code| && StartsAt(st, st.End(k)))
            && (HasJump(n.opcode) ==>
                  var slot := pc + Args(n.opcode);
                  slot + Half(GetShort(st.code[slot])) == st.Pc(n.next1) < |st.code| && st.Placed(n.next1))
  {
    hide Linked, JumpsFit, Half, GetShort, Args;
    WordsOfOp(src, st, k);
    LinksOfOp(src, st, k);
    FallsInside(src, st, k);
    if HasJump(st.Node(k).opcode) {
      var slot := JumpSlot(st, k);
      HalfOfDistance(slot, GetShort(st.code[slot]), st.Pc(st.Node(k).next1));
    }
  }

  ghost predicate StartsAt(st: EmitState, pc: int) {
    exists k :: st.Placed(k) && st.Pc(k) == pc
  }

  /** All jumps of ops before `p` lead no further than `last`. */
  ghost predicate Furthest(st: EmitState, p: int, last: int) {
    forall k :: st.Placed(k) && HasJump(st.Node(k).opcode) && st.Pc(k) < p ==> st.Pc(st.Node(k).next1) <= last
  }

  lemma SameEnd(src: Source, st: EmitState, i: int, k: int)
    requires Linked(src, st) && st.Placed(i) && st.Placed(k) && st.End(i) == st.End(k)
    ensures i == k
  {
    hide GraphInv, EntryInv;
  }

  /** Behind a RETURN or GOTO there is more code only if a jump from above leads there. */
  lemma JumpedOver(src: Source, st: EmitState, k: int, last: int)
    requires Linked(src, st) && st.Placed(k) && st.Node(k).opcode >= GOTO
    requires Furthest(st, st.End(k), last) && 0 <= st.Pc(k)
    ensures st.End(k) == |st.code| || (st.End(k) <= last && st.End(k) < |st.code| && StartsAt(st, st.End(k)))
  {
    hide GraphInv;
    assert Gapless(st, k);
    if st.End(k) != |st.code| {
      var j :| st.Placed(j) && st.Pc(j) == st.End(k);
      assert st.End(j) <= |st.code|;
      assert j != src.root;
      assert Entered(st, j, st.Pc(j));
      var i :| EntersFrom(st, i, j, st.Pc(j));
      if st.Node(i).opcode < GOTO && st.End(i) == st.Pc(j) {
        SameEnd(src, st, i, k);
      }
    }
  }

  lemma NothingBetween(src: Source, st: EmitState, k: int, j: int)
    requires Linked(src, st) && st.Placed(k) && st.Placed(j) && st.Pc(k) <= st.Pc(j) < st.End(k)
    ensures j == k
  {
    hide GraphInv, EntryInv;
    assert Encoded(st.Node(j), st.code, st.Pc(j), src.base, st.res);
  }

  predicate Ascending(s: seq<int>) { forall i, j :: 0 <= i < j < |s| ==> s[i] < s[j] }

  ghost predicate Swept(st: EmitState, visited: seq<int>, p: int) {
    && Ascending(visited)
    && (forall v :: v in visited ==> v < p && StartsAt(st, v))
    && (forall k :: st.Placed(k) && st.Pc(k) < p ==> st.Pc(k) in visited)
  }

  lemma SweepOne(src: Source, st: EmitState, visited: seq<int>, k: int)
    requires Linked(src, st) && st.Placed(k) && Swept(st, visited, st.Pc(k))
    ensures Swept(st, visited + [st.Pc(k)], st.End(k))
  {
    hide Linked;
    var pc := st.Pc(k);
    FallsInside(src, st, k);
    SeenSoFar(src, st, visited, k);
    hide Swept;
    AppendAscending(visited, pc);
    assert StartsAt(st, pc);
    assert Swept(st, visited + [pc], st.End(k)) by { SweptBy(st, visited, pc, st.End(k)); }
  }

  lemma AppendAscending(s: seq<int>, x: int)
    requires Ascending(s) && forall v :: v in s ==> v < x
    ensures Ascending(s + [x]) && forall v :: v in s + [x] <==> v in s || v == x
  {
    assert forall i :: 0 <= i < |s| ==> s[i] in s;
  }

  lemma SweptBy(st: EmitState, visited: seq<int>, pc: int, end: int)
    requires Ascending(visited + [pc]) && pc < end && StartsAt(st, pc)
    requires forall v :: v in visited ==> v < pc && StartsAt(st, v)
    requires forall k :: st.Placed(k) && st.Pc(k) < end ==> st.Pc(k) in visited || st.Pc(k) == pc
    ensures Swept(st, visited + [pc], end)
  {
    hide StartsAt;
    assert forall v :: v in visited + [pc] <==> v in visited || v == pc;
  }

  lemma SeenSoFar(src: Source, st: EmitState, visited: seq<int>, k: int)
    requires Linked(src, st) && st.Placed(k) && Swept(st, visited, st.Pc(k))
    ensures Ascending(visited) && forall v :: v in visited ==> v < st.Pc(k) && StartsAt(st, v)
    ensures forall j :: st.Placed(j) && st.Pc(j) < st.End(k) ==> st.Pc(j) in visited || st.Pc(j) == st.Pc(k)
  {
    hide Linked, StartsAt;
    forall j | st.Placed(j) && st.Pc(j) < st.End(k) ensures st.Pc(j) in visited || st.Pc(j) == st.Pc(k) {
      if st.Pc(j) >= st.Pc(k) {
        NothingBetween(src, st, k, j);
      }
    }
  }

  lemma FurthestGrows(src: Source, st: EmitState, k: int, last: int, last': int)
    requires Linked(src, st) && st.Placed(k) && Furthest(st, st.Pc(k), last) && last <= last'
    requires HasJump(st.Node(k).opcode) ==> st.Pc(st.Node(k).next1) <= last'
    ensures Furthest(st, st.End(k), last')
  {
    forall j | st.Placed(j) && HasJump(st.Node(j).opcode) && st.Pc(j) < st.End(k)
      ensures st.Pc(st.Node(j).next1) <= last'
    {
      if st.Pc(j) >= st.Pc(k) {
        NothingBetween(src, st, k, j);
      }
    }
  }

  /** Visits exactly the emitted instructions, in ascending order, and stops where the code ends. */
  method Decode(code: seq<Word>, ghost src: Source, ghost st: EmitState) returns (visited: seq<int>, end: int)
    requires Linked(src, st) && JumpsFit(st) && code == st.code
    ensures Ascending(visited) && end == |code|
    ensures forall v :: v in visited <==> StartsAt(st, v)
  {
    hide Linked, JumpsFit, Swept, Furthest, Half, GetShort;
    var p, pLastInstruction := 0, 0;
    visited := [];
    SweepStarts(src, st);
    while true
      invariant StartsAt(st, p) && 0 <= p < |code| && 0 <= pLastInstruction < |code|
      invariant Swept(st, visited, p) && Furthest(st, p, pLastInstruction)
      decreases |code| - p
    {
      ghost var k :| st.Placed(k) && st.Pc(k) == p;
      DecodedOp(src, st, k);
      SweepOne(src, st, visited, k);
      ghost var last := pLastInstruction;
      visited := visited + [p];
      var opcode := code[p] % 0x100;
      if HasJump(opcode) {
        var slot := p + Args(opcode);
        var target := slot + Half(GetShort(code[slot]));
        pLastInstruction := if target > pLastInstruction then target else pLastInstruction;
      }
      FurthestGrows(src, st, k, last, pLastInstruction);
      p := p + 1 + Args(opcode);
      if opcode >= GOTO {
        JumpedOver(src, st, k, pLastInstruction);
        if p > pLastInstruction {
          end := p;
          break;
        }
      }
    }
    SweepEnds(src, st, visited);
  }

  lemma SweepStarts(src: Source, st: EmitState)
    requires Linked(src, st) && JumpsFit(st)
    ensures Swept(st, [], 0) && Furthest(st, 0, 0) && StartsAt(st, 0) && |st.code| > 0
  {
    assert st.Placed(src.root);
    DecodedOp(src, st, src.root);
  }

  lemma SweepEnds(src: Source, st: EmitState, visited: seq<int>)
    requires Linked(src, st) && JumpsFit(st) && Swept(st, visited, |st.code|)
    ensures Ascending(visited) && forall v :: v in visited <==> StartsAt(st, v)
  {
    forall v | StartsAt(st, v) ensures v in visited {
      var k :| st.Placed(k) && st.Pc(k) == v;
      DecodedOp(src, st, k);
    }
  }
}
