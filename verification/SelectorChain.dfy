/** A list of validated selectors as one graph: the OR of the selectors, with a shared test for local keys
    merged where possible, and a feature-type test in front of each group of selectors with the same
    types (src/match/MatcherValidator.cpp, lines 85-103 and 433-487). */
module SelectorChains {
  import opened OpGraphs
  import opened Fragments
  import opened SelectorLists

  // ---------------------------------------------------------------- a test in front of a piece

  /** A node that holds a tail's entry starts a piece. */
  lemma PieceFromTail<S(!new)>(g: seq<OpNode>, t: Tail, c: int, eval: Meaning<S>, b: Behaviour<S>)
    requires TailBehaves(g, t, eval, b) && c !in t.rank && 0 <= c < |g| && g[c] == t.entry
    ensures Behaves(g, Fragment(c, t.falseOp, t.rank[c := t.top]), eval, b)
  {
    var f := Fragment(c, t.falseOp, t.rank[c := t.top]);
    EntryIsFragment(g, t, c);
    TailIndices(g, t);
    forall s ensures Outcome(g, f.rank, f.falseOp, eval, c, s) == b(s) {
      assert EntryOutcome(g, t, eval, s) == b(s);
      OutcomeFromEntry(g, t, g, f.rank, eval, c, s);
    }
  }

  lemma TailIndices(g: seq<OpNode>, t: Tail)
    requires IsTail(g, t)
    ensures forall j :: j in t.rank ==> 0 <= j < |g|
  {
  }

  lemma EntryIsFragment(g: seq<OpNode>, t: Tail, c: int)
    requires IsTail(g, t) && c !in t.rank && 0 <= c < |g| && g[c] == t.entry
    ensures IsFragment(g, Fragment(c, t.falseOp, t.rank[c := t.top]))
  {
    var f := Fragment(c, t.falseOp, t.rank[c := t.top]);
    hide Ranked, OperandOk;
    forall i | i in f.rank ensures RankedNode(g, f.rank, i) && (g[i].opcode == RETURN ==> Returns(g[i], if i == f.falseOp then 0 else 1)) {
      if i != c { TailNode(g, t, i); }
    }
    RankedByNodes(g, f.rank);
  }

  /** What HAS_LOCAL_KEYS and FEATURE_TYPE test is a property of the feature, and they change no register. */
  ghost predicate TestsFeature<S(!new), F>(eval: Meaning<S>, of: S -> F, local: F -> bool, ofType: (nat, F) -> bool) {
    && KeepsFeature(eval, of)
    && (forall operand, s {:trigger eval(HAS_LOCAL_KEYS, operand, s)} :: eval(HAS_LOCAL_KEYS, operand, s) == (local(of(s)), s))
    && (forall operand: Operand, s {:trigger eval(FEATURE_TYPE, operand, s)} :: operand.Types? ==>
          eval(FEATURE_TYPE, operand, s) == (ofType(operand.types, of(s)), s))
  }

  function LocalTest(next0: int, next1: int): OpNode { NewOp(HAS_LOCAL_KEYS, next0, next1) }

  function TypeTest(types: nat, next0: int, next1: int): OpNode { NewOp(FEATURE_TYPE, next0, next1).(operand := Types(types)) }

  /** The tail whose entry tests something and goes on with the piece if the test holds */
  function TestTail(test: OpNode, f: Fragment): Tail
    requires f.root in f.rank && test.next0 in f.rank
  {
    Tail(test, f.falseOp, f.rank, f.rank[f.root] + f.rank[test.next0] + 1)
  }

  lemma TestTailIsTail(g: seq<OpNode>, f: Fragment, test: OpNode)
    requires IsFragment(g, f) && test.next0 in f.rank && test.next1 == f.root && OperandOk(test)
    requires test.opcode == HAS_LOCAL_KEYS || test.opcode == FEATURE_TYPE
    ensures IsTail(g, TestTail(test, f))
  {
  }

  /** The piece is asked if the feature has local keys; else the verdict is fixed. */
  function IfLocal<S, F>(of: S -> F, local: F -> bool, other: bool, b: Behaviour<S>): Behaviour<S> {
    s => if local(of(s)) then b(s) else (other, s)
  }

  function IfType<S, F>(of: S -> F, ofType: (nat, F) -> bool, types: nat, b: Behaviour<S>): Behaviour<S> {
    s => if ofType(types, of(s)) then b(s) else (false, s)
  }

  /** Without local keys the verdict is the one that the test's false branch returns. */
  lemma LocalTestBehaves<S(!new), F>(g: seq<OpNode>, f: Fragment, next0: int, eval: Meaning<S>, of: S -> F,
                                     local: F -> bool, ofType: (nat, F) -> bool, b: Behaviour<S>)
    requires next0 in f.rank && TestsFeature(eval, of, local, ofType) && Behaves(g, f, eval, b)
    requires next0 == f.falseOp || Returns(g[next0], 1)
    ensures TailBehaves(g, TestTail(LocalTest(next0, f.root), f), eval, IfLocal(of, local, next0 != f.falseOp, b))
  {
    var t := TestTail(LocalTest(next0, f.root), f);
    TestTailIsTail(g, f, t.entry);
    forall s ensures EntryOutcome(g, t, eval, s) == IfLocal(of, local, next0 != f.falseOp, b)(s) {
      var (matched, s') := eval(HAS_LOCAL_KEYS, NoOperand, s);
      assert Outcome(g, f.rank, f.falseOp, eval, f.root, s) == b(s);
      assert Outcome(g, f.rank, f.falseOp, eval, next0, s) == (next0 != f.falseOp, s);
    }
  }

  lemma TypeTestBehaves<S(!new), F>(g: seq<OpNode>, f: Fragment, types: nat, eval: Meaning<S>, of: S -> F,
                                    local: F -> bool, ofType: (nat, F) -> bool, b: Behaviour<S>)
    requires Behaves(g, f, eval, b) && TestsFeature(eval, of, local, ofType) && types < 0x1_0000_0000
    ensures TailBehaves(g, TestTail(TypeTest(types, f.falseOp, f.root), f), eval, IfType(of, ofType, types, b))
  {
    var t := TestTail(TypeTest(types, f.falseOp, f.root), f);
    TestTailIsTail(g, f, t.entry);
    forall s ensures EntryOutcome(g, t, eval, s) == IfType(of, ofType, types, b)(s) {
      var (matched, s') := eval(FEATURE_TYPE, Types(types), s);
      assert Outcome(g, f.rank, f.falseOp, eval, f.root, s) == b(s);
      assert Outcome(g, f.rank, f.falseOp, eval, f.falseOp, s) == (false, s);
    }
  }

  // ---------------------------------------------------------------- validated selectors

  ghost function KeyPiece(sel: Selector): Fragment { Fragment(sel.keyOp, sel.falseOp, sel.rank) }

  /** How validateSelector leaves a selector: its clauses, chained; and in front of them, unless it needs no local
      keys, a check that they exist, which fails the selector or lets it succeed at once. */
  ghost predicate Validated(g: seq<OpNode>, sel: Selector) {
    && IsFragment(g, KeyPiece(sel)) && 0 <= sel.op < |g| && 0 <= sel.keyOp < |g| && 0 <= sel.falseOp < |g|
    && g[sel.keyOp].opcode != HAS_LOCAL_KEYS && (g[sel.op].opcode == RETURN ==> g[sel.op].next0 == NULL)
    && (sel.op != sel.keyOp ==>
          && sel.op !in sel.rank && g[sel.keyOp].opcode != RETURN
          && g[sel.op].next0 in sel.rank && 0 <= g[sel.op].next0 < |g| && g[sel.op] == LocalTest(g[sel.op].next0, sel.keyOp)
          && (g[sel.op].next0 == sel.falseOp || Returns(g[g[sel.op].next0], 1)))
  }

  ghost function Whole(g: seq<OpNode>, sel: Selector): Fragment {
    if sel.op == sel.keyOp || !(0 <= sel.op < |g|) || sel.keyOp !in sel.rank || g[sel.op].next0 !in sel.rank then KeyPiece(sel)
    else Fragment(sel.op, sel.falseOp, sel.rank[sel.op := TestTail(LocalTest(g[sel.op].next0, sel.keyOp), KeyPiece(sel)).top])
  }

  /** The selector's own graph has this outcome in every state. */
  ghost predicate SelectorBehaves<S(!new)>(g: seq<OpNode>, sel: Selector, eval: Meaning<S>, b: Behaviour<S>) {
    Validated(g, sel) && Behaves(g, Whole(g, sel), eval, b)
  }

  /** It is that of the clauses, unless a check for local keys in front of them decides. */
  lemma WholeBehaves<S(!new), F>(g: seq<OpNode>, sel: Selector, eval: Meaning<S>, of: S -> F,
                                 local: F -> bool, ofType: (nat, F) -> bool, b: Behaviour<S>)
    requires Validated(g, sel) && Behaves(g, KeyPiece(sel), eval, b) && TestsFeature(eval, of, local, ofType) && sel.op != sel.keyOp
    ensures Behaves(g, Whole(g, sel), eval, IfLocal(of, local, g[sel.op].next0 != sel.falseOp, b))
  {
    hide Behaves, TestsFeature, IsFragment, IfLocal;
    var next0 := g[sel.op].next0;
    PieceIsFragment(g, sel);
    LocalTestBehaves(g, KeyPiece(sel), next0, eval, of, local, ofType, b);
    PieceFromTail(g, TestTail(LocalTest(next0, sel.keyOp), KeyPiece(sel)), sel.op, eval, IfLocal(of, local, next0 != sel.falseOp, b));
  }

  lemma PieceIsFragment(g: seq<OpNode>, sel: Selector)
    requires Validated(g, sel)
    ensures IsFragment(g, KeyPiece(sel)) && sel.keyOp in sel.rank && sel.falseOp in sel.rank
  {
    RootInside(g, KeyPiece(sel));
    hide IsFragment;
  }

  lemma RootInside(g: seq<OpNode>, f: Fragment)
    requires IsFragment(g, f)
    ensures f.root in f.rank && f.falseOp in f.rank
  {
    hide Ranked;
  }

  ghost function Keys(sels: seq<Selector>): (fs: seq<Fragment>)
    ensures |fs| == |sels| && forall m :: 0 <= m < |sels| ==> fs[m] == KeyPiece(sels[m])
  {
    seq(|sels|, m requires 0 <= m < |sels| => KeyPiece(sels[m]))
  }

  ghost function Wholes(g: seq<OpNode>, sels: seq<Selector>): (fs: seq<Fragment>)
    ensures |fs| == |sels| && forall m :: 0 <= m < |sels| ==> fs[m] == Whole(g, sels[m])
  {
    seq(|sels|, m requires 0 <= m < |sels| => Whole(g, sels[m]))
  }

  /** Each selector has its own nodes. */
  ghost predicate AllValidated(g: seq<OpNode>, sels: seq<Selector>) {
    && Distinct(sels)
    && (forall x {:trigger Validated(g, x)} :: x in sels ==> Validated(g, x))
    && (forall x, y {:trigger Whole(g, x), Whole(g, y)} :: x in sels && y in sels && x != y ==> Whole(g, x).rank.Keys !! Whole(g, y).rank.Keys)
  }

  lemma WholeIsFragment(g: seq<OpNode>, sel: Selector)
    requires Validated(g, sel)
    ensures IsFragment(g, Whole(g, sel)) && Whole(g, sel).root == sel.op && Whole(g, sel).falseOp == sel.falseOp
    ensures sel.rank.Keys <= Whole(g, sel).rank.Keys && sel.op in Whole(g, sel).rank
  {
    RootInside(g, KeyPiece(sel));
    hide IsFragment;
    if sel.op != sel.keyOp {
      var t := LocalTest(g[sel.op].next0, sel.keyOp);
      TestTailIsTail(g, KeyPiece(sel), t);
      EntryIsFragment(g, TestTail(t, KeyPiece(sel)), sel.op);
    }
  }

  lemma WholesAreFragments(g: seq<OpNode>, sels: seq<Selector>)
    requires AllValidated(g, sels)
    ensures AllFragments(g, Wholes(g, sels)) && AllFragments(g, Keys(sels))
  {
    hide IsFragment;
    forall m | 0 <= m < |sels|
      ensures IsFragment(g, Wholes(g, sels)[m]) && 0 <= Wholes(g, sels)[m].falseOp < |g| && 0 <= Wholes(g, sels)[m].root < |g|
      ensures IsFragment(g, Keys(sels)[m]) && 0 <= Keys(sels)[m].falseOp < |g| && 0 <= Keys(sels)[m].root < |g|
    {
      assert Validated(g, sels[m]);
      WholeIsFragment(g, sels[m]);
    }
    forall a, b | 0 <= a < b < |sels|
      ensures Keys(sels)[a].rank.Keys !! Keys(sels)[b].rank.Keys && Wholes(g, sels)[a].rank.Keys !! Wholes(g, sels)[b].rank.Keys
    {
      assert sels[a] in sels && sels[b] in sels && sels[a] != sels[b];
      assert Validated(g, sels[a]) && Validated(g, sels[b]);
      WholeIsFragment(g, sels[a]);
      WholeIsFragment(g, sels[b]);
      assert Whole(g, sels[a]).rank.Keys !! Whole(g, sels[b]).rank.Keys;
    }
  }

  // ---------------------------------------------------------------- the OR of all selectors

  /** operand.code, which is 0 in a node that was given no operand */
  function CodeOf(n: OpNode): nat { if n.operand.Code? then n.operand.code else 0 }

  /** What the branch of a selector's local-key check returns to a feature without local keys */
  ghost function ExitCode(g: seq<OpNode>, sel: Selector): nat { CodeOf(NodeAt(g, NodeAt(g, sel.op).next0)) }

  /** Every selector starts with the same check for local keys. */
  ghost predicate Mergeable(g: seq<OpNode>, sels: seq<Selector>) {
    forall m {:trigger sels[m]} :: 0 <= m < |sels| ==> NodeAt(g, sels[m].op).opcode == HAS_LOCAL_KEYS && ExitCode(g, sels[m]) == ExitCode(g, sels[0])
  }

  /** The first selector keeps its check. If that check would fail the query by entering the second selector,
      it is made to end at the last false exit. */
  ghost function Merged(g: seq<OpNode>, sels: seq<Selector>): seq<OpNode>
    requires sels != []
  {
    var m := Copied(g, Keys(sels), |sels| - 1);
    var first := NodeAt(m, sels[0].op);
    if NodeAt(m, first.next0).opcode != RETURN then Written(m, sels[0].op, first.(next0 := sels[|sels| - 1].falseOp)) else m
  }

  ghost function Linked(g: seq<OpNode>, sels: seq<Selector>): seq<OpNode>
    requires sels != []
  {
    if Mergeable(g, sels) && |sels| > 1 then Merged(g, sels) else Copied(g, Wholes(g, sels), |sels| - 1)
  }

  /** The piece that the linked selectors form */
  ghost function LinkedPiece(g: seq<OpNode>, sels: seq<Selector>): (f: Fragment)
    requires sels != []
  {
    if Mergeable(g, sels) && |sels| > 1 then
      var c := ChainOf(g, Keys(sels), |sels| - 1);
      var m := Merged(g, sels);
      var next0 := NodeAt(m, sels[0].op).next0;
      Fragment(sels[0].op, c.falseOp, if c.root in c.rank && next0 in c.rank then c.rank[sels[0].op := c.rank[c.root] + c.rank[next0] + 1] else c.rank)
    else ChainOf(g, Wholes(g, sels), |sels| - 1)
  }

  ghost predicate AllSelectorsBehave<S(!new)>(g: seq<OpNode>, sels: seq<Selector>, eval: Meaning<S>, bs: seq<Behaviour<S>>) {
    |bs| == |sels| && forall m {:trigger sels[m]} :: 0 <= m < |sels| ==> SelectorBehaves(g, sels[m], eval, bs[m])
  }

  lemma WholesBehave<S(!new)>(g: seq<OpNode>, sels: seq<Selector>, eval: Meaning<S>, bs: seq<Behaviour<S>>)
    requires AllSelectorsBehave(g, sels, eval, bs)
    ensures AllBehave(g, Wholes(g, sels), eval, bs)
  {
    hide Behaves, Whole, Validated;
    forall m | 0 <= m < |sels| ensures Behaves(g, Wholes(g, sels)[m], eval, bs[m]) {
      assert SelectorBehaves(g, sels[m], eval, bs[m]);
    }
  }

  /** What the selectors' clauses do */
  ghost function KeyBehaviours<S(!new)>(g: seq<OpNode>, sels: seq<Selector>, eval: Meaning<S>): (ks: seq<Behaviour<S>>)
    requires forall x {:trigger Validated(g, x)} :: x in sels ==> Validated(g, x)
    ensures |ks| == |sels| && forall m :: 0 <= m < |sels| ==> Behaves(g, KeyPiece(sels[m]), eval, ks[m])
  {
    if sels == [] then []
    else
      PieceIsFragment(g, sels[0]);
      BehavesAsItDoes(g, KeyPiece(sels[0]), eval);
      [BehaviourOf(g, KeyPiece(sels[0]), eval)] + KeyBehaviours(g, sels[1..], eval)
  }

  /** `b` is `k` behind a check for local keys. */
  ghost predicate BehindCheck<S(!new), F>(b: Behaviour<S>, k: Behaviour<S>, of: S -> F, local: F -> bool, other: bool) {
    forall s {:trigger b(s)} :: b(s) == IfLocal(of, local, other, k)(s)
  }

  ghost predicate LeavesFeature<S(!new), F>(k: Behaviour<S>, of: S -> F) { forall s {:trigger k(s)} :: of(k(s).1) == of(s) }

  lemma OrBehindCheck<S(!new), F>(u: Behaviour<S>, v: Behaviour<S>, x: Behaviour<S>, y: Behaviour<S>, of: S -> F, local: F -> bool, other: bool)
    requires BehindCheck(u, x, of, local, other) && BehindCheck(v, y, of, local, other) && LeavesFeature(x, of) && LeavesFeature(y, of)
    ensures BehindCheck(OrElse(u, v), OrElse(x, y), of, local, other) && LeavesFeature(OrElse(x, y), of)
  {
    hide OrElse, IfLocal;
    forall s ensures OrElse(u, v)(s) == IfLocal(of, local, other, OrElse(x, y))(s) && of(OrElse(x, y)(s).1) == of(s) {
      CheckedAt(of, local, other, x, s);
      CheckedAt(of, local, other, y, u(s).1);
      CheckedAt(of, local, other, OrElse(x, y), s);
      OrAt(u, v, s);
      OrAt(x, y, s);
    }
  }

  lemma CheckedAt<S, F>(of: S -> F, local: F -> bool, other: bool, b: Behaviour<S>, s: S)
    ensures IfLocal(of, local, other, b)(s) == if local(of(s)) then b(s) else (other, s)
  {
  }

  lemma OrAt<S>(u: Behaviour<S>, v: Behaviour<S>, s: S)
    ensures OrElse(u, v)(s) == if u(s).0 then u(s) else v(u(s).1)
  {
  }

  ghost predicate AllBehindCheck<S(!new), F>(bs: seq<Behaviour<S>>, ks: seq<Behaviour<S>>, of: S -> F, local: F -> bool, other: bool) {
    |bs| == |ks| && forall m {:trigger bs[m]} :: 0 <= m < |bs| ==> BehindCheck(bs[m], ks[m], of, local, other) && LeavesFeature(ks[m], of)
  }

  lemma BehindCheckAt<S(!new), F>(bs: seq<Behaviour<S>>, ks: seq<Behaviour<S>>, k: nat, of: S -> F, local: F -> bool, other: bool)
    requires AllBehindCheck(bs, ks, of, local, other) && k < |bs|
    ensures |bs| == |ks| && BehindCheck(bs[k], ks[k], of, local, other) && LeavesFeature(ks[k], of)
  {
  }

  /** One after the other behind checks that are all the same is the same as one check in front of them. */
  lemma {:induction false} OneCheckForAll<S(!new), F>(ks: seq<Behaviour<S>>, bs: seq<Behaviour<S>>, k: nat, of: S -> F, local: F -> bool, other: bool)
    requires k < |ks| == |bs| && AllBehindCheck(bs, ks, of, local, other)
    ensures BehindCheck(FirstOf(bs, k), FirstOf(ks, k), of, local, other) && LeavesFeature(FirstOf(ks, k), of)
  {
    hide BehindCheck, LeavesFeature, OrElse, AllBehindCheck;
    BehindCheckAt(bs, ks, k, of, local, other);
    if k > 0 {
      OneCheckForAll(ks, bs, k - 1, of, local, other);
      OrBehindCheck(FirstOf(bs, k - 1), bs[k], FirstOf(ks, k - 1), ks[k], of, local, other);
    }
  }

  lemma CheckedLike<S(!new), F>(g: seq<OpNode>, f: Fragment, eval: Meaning<S>, b: Behaviour<S>, k: Behaviour<S>, of: S -> F, local: F -> bool, other: bool)
    requires Behaves(g, f, eval, IfLocal(of, local, other, k)) && BehindCheck(b, k, of, local, other)
    ensures Behaves(g, f, eval, b)
  {
    hide Ranked, IfLocal;
    forall s ensures IsFragment(g, f) && Outcome(g, f.rank, f.falseOp, eval, f.root, s) == b(s) {
      assert b(s) == IfLocal(of, local, other, k)(s);
    }
  }

  lemma CheckedSelector(g: seq<OpNode>, sel: Selector)
    requires Validated(g, sel) && NodeAt(g, sel.op).opcode == HAS_LOCAL_KEYS
    ensures sel.op != sel.keyOp && sel.op !in sel.rank && g[sel.keyOp].opcode != RETURN && 0 <= sel.op < |g| && 0 <= sel.falseOp < |g|
    ensures var next0 := g[sel.op].next0;
            && next0 in sel.rank && 0 <= next0 < |g| && g[sel.op] == LocalTest(next0, sel.keyOp)
            && if next0 == sel.falseOp then ExitCode(g, sel) == 0 else ExitCode(g, sel) == 1 && Returns(g[next0], 1)
  {
    FragmentNode(g, KeyPiece(sel), sel.falseOp);
    hide Ranked;
  }

  /** Mergeable selectors are their clauses behind the same check. */
  lemma CheckInFront<S(!new), F>(g: seq<OpNode>, sels: seq<Selector>, m: nat, eval: Meaning<S>, of: S -> F,
                                 local: F -> bool, ofType: (nat, F) -> bool, b: Behaviour<S>, k: Behaviour<S>)
    requires m < |sels| && Mergeable(g, sels) && SelectorBehaves(g, sels[m], eval, b) && TestsFeature(eval, of, local, ofType)
    requires Behaves(g, KeyPiece(sels[m]), eval, k)
    ensures BehindCheck(b, k, of, local, ExitCode(g, sels[0]) == 1) && LeavesFeature(k, of)
  {
    var x := sels[m];
    assert NodeAt(g, x.op).opcode == HAS_LOCAL_KEYS && ExitCode(g, x) == ExitCode(g, sels[0]);
    hide IsFragment, ExitCode, IfLocal, TestsFeature, Behaves;
    CheckedSelector(g, x);
    WholeBehaves(g, x, eval, of, local, ofType, k);
    hide Validated;
    var w := Whole(g, x);
    hide Whole;
    Testing(eval, of, local, ofType);
    forall s ensures b(s) == IfLocal(of, local, g[x.op].next0 != x.falseOp, k)(s) && of(k(s).1) == of(s) {
      BehaviourKeepsFeature(g, KeyPiece(x), eval, k, of, s);
      SameOutcome(g, w, eval, b, IfLocal(of, local, g[x.op].next0 != x.falseOp, k), s);
    }
  }

  lemma SameOutcome<S(!new)>(g: seq<OpNode>, f: Fragment, eval: Meaning<S>, b: Behaviour<S>, b': Behaviour<S>, s: S)
    requires Behaves(g, f, eval, b) && Behaves(g, f, eval, b')
    ensures b(s) == b'(s)
  {
    assert IsFragment(g, f);
    hide Ranked;
    assert Outcome(g, f.rank, f.falseOp, eval, f.root, s) == b(s);
  }

  // ---------------------------------------------------------------- the merged graph

  /** The node that the first check's false branch leads to: the second selector's first key op, or still a RETURN */
  lemma FalseBranch(g: seq<OpNode>, sels: seq<Selector>)
    requires |sels| > 1 && AllValidated(g, sels) && Mergeable(g, sels)
    requires 0 <= sels[0].op < |g| && 0 <= g[sels[0].op].next0 < |g|
    ensures var m, c, next0, end := Copied(g, Keys(sels), |sels| - 1), ChainOf(g, Keys(sels), |sels| - 1), g[sels[0].op].next0, sels[|sels| - 1].falseOp;
            && end in c.rank && 0 <= end < |g|
            && if next0 == sels[0].falseOp then ExitCode(g, sels[0]) == 0 && m[next0].opcode != RETURN
               else ExitCode(g, sels[0]) == 1 && Returns(m[next0], 1) && next0 in c.rank && next0 != end
  {
    hide Validated, AllValidated, IsFragment, Disjoint, Copied, ChainOf, Whole, Mergeable, ExitCode;
    var n, keys := |sels|, Keys(sels);
    FirstTwo(g, sels);
    WholesAreFragments(g, sels);
    FalseOpInside(g, keys, n - 1);
    InChain(g, keys, n - 1, n - 1, sels[n - 1].falseOp);
    var next0 := g[sels[0].op].next0;
    if next0 == sels[0].falseOp {
      FragmentsAreSlotted(g, keys);
      CopiedAt(g, keys, n - 1, 0);
    } else {
      ChainContent(g, keys, n - 1, 0, next0);
      Apart(keys, n - 1, 0, sels[n - 1].falseOp);
    }
  }

  lemma FirstTwo(g: seq<OpNode>, sels: seq<Selector>)
    requires |sels| > 1 && AllValidated(g, sels) && Mergeable(g, sels)
    ensures 0 <= sels[1].keyOp < |g| && g[sels[1].keyOp].opcode != RETURN && 0 <= sels[0].op < |g|
    ensures var next0 := g[sels[0].op].next0;
            && next0 in sels[0].rank && 0 <= next0 < |g| && g[sels[0].op] == LocalTest(next0, sels[0].keyOp)
            && if next0 == sels[0].falseOp then ExitCode(g, sels[0]) == 0 else ExitCode(g, sels[0]) == 1 && Returns(g[next0], 1)
  {
    assert Validated(g, sels[0]) && Validated(g, sels[1]);
    hide IsFragment, ExitCode, Disjoint;
    CheckedSelector(g, sels[0]);
    CheckedSelector(g, sels[1]);
  }

  /** Where the shared check ends up: its false branch ends the query or accepts, as it did in each selector. */
  ghost predicate CheckPlaced(g: seq<OpNode>, sels: seq<Selector>, m: seq<OpNode>, m': seq<OpNode>, c: Fragment)
    requires sels != []
  {
    var first := NodeAt(m', sels[0].op);
    && 0 <= sels[0].op < |m| && sels[0].op !in c.rank && |m'| == |m| == |g| && c.root == sels[0].keyOp
    && c.falseOp == sels[|sels| - 1].falseOp
    && first == LocalTest(first.next0, c.root) && m' == m[sels[0].op := first]
    && first.next0 in c.rank && 0 <= first.next0 < |g|
    && if ExitCode(g, sels[0]) == 1 then first.next0 != c.falseOp && Returns(m[first.next0], 1) else first.next0 == c.falseOp
  }

  lemma MergedCheck(g: seq<OpNode>, sels: seq<Selector>)
    requires |sels| > 1 && AllValidated(g, sels) && Mergeable(g, sels)
    ensures CheckPlaced(g, sels, Copied(g, Keys(sels), |sels| - 1), Merged(g, sels), ChainOf(g, Keys(sels), |sels| - 1))
  {
    hide Validated, AllValidated, IsFragment, Disjoint, Copied, ChainOf, Whole, Mergeable, ExitCode;
    FirstTwo(g, sels);
    CheckOutside(g, sels);
    FalseBranch(g, sels);
    assert Keys(sels)[0] == KeyPiece(sels[0]) && Keys(sels)[|sels| - 1] == KeyPiece(sels[|sels| - 1]);
    var m := Copied(g, Keys(sels), |sels| - 1);
    assert m[sels[0].op := m[sels[0].op]] == m;
  }

  /** The first selector's check is no part of the chained key pieces, and is left as it was. */
  lemma CheckOutside(g: seq<OpNode>, sels: seq<Selector>)
    requires |sels| > 1 && AllValidated(g, sels) && Mergeable(g, sels)
    ensures var keys, first := Keys(sels), sels[0].op;
            && 0 <= first < |g| && first !in ChainOf(g, keys, |sels| - 1).rank && Copied(g, keys, |sels| - 1)[first] == g[first]
  {
    var keys, first := Keys(sels), sels[0].op;
    WholesAreFragments(g, sels);
    assert Validated(g, sels[0]);
    CheckedSelector(g, sels[0]);
    WholeIsFragment(g, sels[0]);
    forall m | 0 <= m < |sels| ensures first !in keys[m].rank {
      if m > 0 {
        assert Validated(g, sels[m]);
        WholeIsFragment(g, sels[m]);
        Apart(Wholes(g, sels), 0, m, first);
        assert first !in Whole(g, sels[m]).rank.Keys;
      }
    }
    hide Validated, AllValidated, IsFragment, Disjoint, Copied, ChainOf, Whole;
    if first in ChainOf(g, keys, |sels| - 1).rank {
      var m := ChainKeys(g, keys, |sels| - 1, first);
    }
    forall m | 0 <= m < |sels| - 1 ensures first != keys[m].falseOp {
      FalseOpInside(g, keys, m);
    }
    FragmentsAreSlotted(g, keys);
    CopiedElsewhere(g, keys, |sels| - 1, first);
  }

  /** The merged graph asks one selector after the other: with local keys it asks their clauses, without them all
      selectors agree, and the one check that is left answers for all. */
  lemma MergedBehaves<S(!new), F>(g: seq<OpNode>, sels: seq<Selector>, eval: Meaning<S>, of: S -> F, local: F -> bool,
                                  ofType: (nat, F) -> bool, bs: seq<Behaviour<S>>)
    requires |sels| > 1 && AllValidated(g, sels) && Mergeable(g, sels) && TestsFeature(eval, of, local, ofType)
    requires AllSelectorsBehave(g, sels, eval, bs)
    ensures Behaves(Merged(g, sels), LinkedPiece(g, sels), eval, FirstOf(bs, |sels| - 1))
  {
    hide AllValidated, Validated, Whole, Merged, TestsFeature, Behaves, FirstOf, LinkedPiece, AllBehindCheck, BehindCheck, LeavesFeature,
      SelectorBehaves, Mergeable, ExitCode;
    ValidatedOnes(g, sels);
    var n, ks, other := |sels|, KeyBehaviours(g, sels, eval), ExitCode(g, sels[0]) == 1;
    KeysBehave(g, sels, eval, ks);
    KeysMerged(g, sels, eval, of, local, ofType, ks);
    AllInFront(g, sels, eval, of, local, ofType, bs, ks);
    OneCheckForAll(ks, bs, n - 1, of, local, other);
    CheckedLike(Merged(g, sels), LinkedPiece(g, sels), eval, FirstOf(bs, n - 1), FirstOf(ks, n - 1), of, local, other);
  }

  lemma ValidatedOnes(g: seq<OpNode>, sels: seq<Selector>)
    requires AllValidated(g, sels)
    ensures forall x {:trigger Validated(g, x)} :: x in sels ==> Validated(g, x)
  {
    hide Validated, Whole;
  }

  lemma AllInFront<S(!new), F>(g: seq<OpNode>, sels: seq<Selector>, eval: Meaning<S>, of: S -> F, local: F -> bool,
                               ofType: (nat, F) -> bool, bs: seq<Behaviour<S>>, ks: seq<Behaviour<S>>)
    requires sels != [] && Mergeable(g, sels) && TestsFeature(eval, of, local, ofType) && AllSelectorsBehave(g, sels, eval, bs)
    requires |ks| == |sels| && forall m :: 0 <= m < |sels| ==> Behaves(g, KeyPiece(sels[m]), eval, ks[m])
    ensures AllBehindCheck(bs, ks, of, local, ExitCode(g, sels[0]) == 1)
  {
    hide TestsFeature, Behaves, BehindCheck, LeavesFeature, SelectorBehaves, Mergeable, ExitCode, KeyPiece;
    forall j {:trigger bs[j]} | 0 <= j < |sels| ensures BehindCheck(bs[j], ks[j], of, local, ExitCode(g, sels[0]) == 1) && LeavesFeature(ks[j], of) {
      assert SelectorBehaves(g, sels[j], eval, bs[j]);
      CheckInFront(g, sels, j, eval, of, local, ofType, bs[j], ks[j]);
    }
  }

  lemma MergedPieceIs(g: seq<OpNode>, sels: seq<Selector>)
    requires |sels| > 1 && Mergeable(g, sels)
    ensures var (c, next0) := (ChainOf(g, Keys(sels), |sels| - 1), NodeAt(Merged(g, sels), sels[0].op).next0);
            c.root in c.rank && next0 in c.rank ==>
              LinkedPiece(g, sels) == Fragment(sels[0].op, c.falseOp, c.rank[sels[0].op := c.rank[c.root] + c.rank[next0] + 1])
  {
    hide Merged, ChainOf;
  }

  lemma KeysBehave<S(!new)>(g: seq<OpNode>, sels: seq<Selector>, eval: Meaning<S>, ks: seq<Behaviour<S>>)
    requires |ks| == |sels| && forall m :: 0 <= m < |sels| ==> Behaves(g, KeyPiece(sels[m]), eval, ks[m])
    ensures AllBehave(g, Keys(sels), eval, ks)
  {
    hide Behaves;
  }

  lemma KeysMerged<S(!new), F>(g: seq<OpNode>, sels: seq<Selector>, eval: Meaning<S>, of: S -> F, local: F -> bool,
                               ofType: (nat, F) -> bool, ks: seq<Behaviour<S>>)
    requires |sels| > 1 && AllValidated(g, sels) && Mergeable(g, sels) && TestsFeature(eval, of, local, ofType)
    requires |ks| == |sels| && AllBehave(g, Keys(sels), eval, ks)
    ensures Behaves(Merged(g, sels), LinkedPiece(g, sels), eval, IfLocal(of, local, ExitCode(g, sels[0]) == 1, FirstOf(ks, |sels| - 1)))
  {
    hide AllValidated, Disjoint, Copied, ChainOf, Whole, ExitCode, Merged, TestsFeature, AllFragments, IsFragment, Behaves, CheckPlaced, IfLocal, FirstOf,
      AllBehave, Mergeable, LinkedPiece;
    var n, keys := |sels|, Keys(sels);
    var m, m', c := Copied(g, keys, n - 1), Merged(g, sels), ChainOf(g, keys, n - 1);
    WholesAreFragments(g, sels);
    MergedCheck(g, sels);
    ChainBehaves(g, keys, n - 1, eval, ks);
    ChainStays(g, sels, m, m', c, eval, FirstOf(ks, n - 1));
    CheckBehaves(g, sels, m, m', c, eval, of, local, ofType, FirstOf(ks, n - 1));
    MergedPieceIs(g, sels);
  }

  lemma CheckBehaves<S(!new), F>(g: seq<OpNode>, sels: seq<Selector>, m: seq<OpNode>, m': seq<OpNode>, c: Fragment, eval: Meaning<S>, of: S -> F,
                                 local: F -> bool, ofType: (nat, F) -> bool, b: Behaviour<S>)
    requires sels != [] && CheckPlaced(g, sels, m, m', c) && IsFragment(m, c) && TestsFeature(eval, of, local, ofType)
    requires Behaves(m', c, eval, b)
    ensures var next0 := NodeAt(m', sels[0].op).next0;
            && c.root in c.rank && next0 in c.rank
            && Behaves(m', Fragment(sels[0].op, c.falseOp, c.rank[sels[0].op := c.rank[c.root] + c.rank[next0] + 1]), eval,
                       IfLocal(of, local, ExitCode(g, sels[0]) == 1, b))
  {
    hide ExitCode, IsFragment, TestsFeature, Behaves, CheckPlaced, LocalTest, TailBehaves, OperandOk, IfLocal;
    ChainWithCheck(g, sels, m, m', c);
    var first := m'[sels[0].op];
    LocalTestBehaves(m', c, first.next0, eval, of, local, ofType, b);
    PieceFromTail(m', TestTail(LocalTest(first.next0, c.root), c), sels[0].op, eval, IfLocal(of, local, first.next0 != c.falseOp, b));
  }

  lemma Testing<S(!new), F>(eval: Meaning<S>, of: S -> F, local: F -> bool, ofType: (nat, F) -> bool)
    requires TestsFeature(eval, of, local, ofType)
    ensures KeepsFeature(eval, of)
  {
  }

  lemma ChainWithCheck(g: seq<OpNode>, sels: seq<Selector>, m: seq<OpNode>, m': seq<OpNode>, c: Fragment)
    requires sels != [] && CheckPlaced(g, sels, m, m', c) && IsFragment(m, c)
    ensures IsFragment(m', c) && 0 <= sels[0].op < |m'| && c.root in c.rank && sels[0].op !in c.rank
    ensures var next0 := m'[sels[0].op].next0;
            && m'[sels[0].op] == LocalTest(next0, c.root) && next0 in c.rank && 0 <= next0 < |m'|
            && (next0 == c.falseOp || Returns(m'[next0], 1)) && ((next0 != c.falseOp) <==> ExitCode(g, sels[0]) == 1)
  {
    hide ExitCode, Ranked;
    forall i | i in c.rank ensures 0 <= i < |m| && m'[i] == m[i] {
      FragmentNode(m, c, i);
    }
    FragmentStays(m, m', c);
  }

  lemma ChainStays<S(!new)>(g: seq<OpNode>, sels: seq<Selector>, m: seq<OpNode>, m': seq<OpNode>, c: Fragment, eval: Meaning<S>, b: Behaviour<S>)
    requires sels != [] && CheckPlaced(g, sels, m, m', c) && Behaves(m, c, eval, b)
    ensures Behaves(m', c, eval, b) && IsFragment(m, c)
  {
    assert IsFragment(m, c);
    hide ExitCode, Ranked, Behaves;
    forall i | i in c.rank ensures 0 <= i < |m| && m'[i] == m[i] {
      FragmentNode(m, c, i);
    }
    BehavesStill(m, m', c, eval, b);
  }

  /** The graph built from a list of selectors asks one after the other, whatever the registers hold. */
  lemma LinkedBehaves<S(!new), F>(g: seq<OpNode>, sels: seq<Selector>, eval: Meaning<S>, of: S -> F, local: F -> bool,
                                  ofType: (nat, F) -> bool, bs: seq<Behaviour<S>>)
    requires sels != [] && AllValidated(g, sels) && TestsFeature(eval, of, local, ofType)
    requires AllSelectorsBehave(g, sels, eval, bs)
    ensures Behaves(Linked(g, sels), LinkedPiece(g, sels), eval, FirstOf(bs, |sels| - 1))
  {
    hide Validated, AllValidated, Disjoint, Copied, ChainOf, Whole, Mergeable, Merged, TestsFeature, AllFragments, IsFragment, Behaves, FirstOf;
    if Mergeable(g, sels) && |sels| > 1 {
      MergedBehaves(g, sels, eval, of, local, ofType, bs);
    } else {
      WholesAreFragments(g, sels);
      WholesBehave(g, sels, eval, bs);
      ChainBehaves(g, Wholes(g, sels), |sels| - 1, eval, bs);
    }
  }

  /** So the graph accepts a feature exactly if one of the selectors does, given that no selector's verdict depends on
      what others leave in the registers. */
  lemma LinkedDecides<S(!new), F>(g: seq<OpNode>, sels: seq<Selector>, eval: Meaning<S>, of: S -> F, local: F -> bool,
                                  ofType: (nat, F) -> bool, bs: seq<Behaviour<S>>, feature: F, vs: seq<bool>, s: S)
    requires sels != [] && AllValidated(g, sels) && TestsFeature(eval, of, local, ofType)
    requires AllSelectorsBehave(g, sels, eval, bs) && |vs| == |sels| == |bs| && of(s) == feature
    requires forall m {:trigger bs[m]} :: 0 <= m < |bs| ==> Decides(bs[m], of, feature, vs[m])
    ensures var (h, f) := (Linked(g, sels), LinkedPiece(g, sels));
            IsFragment(h, f) && Walk(h, f.rank, eval, f.root, s) == if exists m :: 0 <= m < |vs| && vs[m] then 1 else 0
  {
    hide Validated, AllValidated, Linked, LinkedPiece, TestsFeature, AllSelectorsBehave, FirstOf, AnyOf, Decides, Behaves, IsFragment;
    var b := FirstOf(bs, |sels| - 1);
    LinkedBehaves(g, sels, eval, of, local, ofType, bs);
    FirstDecides(bs, |sels| - 1, of, feature, vs);
    assert vs[..|sels|] == vs;
    VerdictIs(Linked(g, sels), LinkedPiece(g, sels), eval, b, s);
    DecidedAt(b, of, feature, AnyOf(vs), s);
    SomeVerdict(vs);
  }

  /** Walking the selector's own graph returns this verdict on the feature, whatever the registers hold. */
  ghost predicate OwnVerdict<S(!new), F>(g: seq<OpNode>, x: Selector, eval: Meaning<S>, of: S -> F, feature: F, v: bool) {
    && Validated(g, x)
    && forall s {:trigger of(s)} :: of(s) == feature ==>
         (WholeIsFragment(g, x); Walk(g, Whole(g, x).rank, eval, x.op, s) == if v then 1 else 0)
  }

  ghost predicate OwnVerdicts<S(!new), F>(g: seq<OpNode>, sels: seq<Selector>, eval: Meaning<S>, of: S -> F, feature: F, vs: seq<bool>) {
    |vs| == |sels| && forall m {:trigger sels[m]} :: 0 <= m < |sels| ==> OwnVerdict(g, sels[m], eval, of, feature, vs[m])
  }

  /** Walking the graph built from a list of selectors accepts a feature exactly if walking the graph of one of them does. */
  lemma LinkedAccepts<S(!new), F>(g: seq<OpNode>, sels: seq<Selector>, eval: Meaning<S>, of: S -> F, local: F -> bool,
                                  ofType: (nat, F) -> bool, feature: F, vs: seq<bool>, s: S)
    requires sels != [] && AllValidated(g, sels) && TestsFeature(eval, of, local, ofType) && of(s) == feature
    requires OwnVerdicts(g, sels, eval, of, feature, vs)
    ensures var (h, f) := (Linked(g, sels), LinkedPiece(g, sels));
            IsFragment(h, f) && Walk(h, f.rank, eval, f.root, s) == if exists m :: 0 <= m < |vs| && vs[m] then 1 else 0
  {
    hide Validated, AllValidated, Linked, LinkedPiece, TestsFeature, Decides, Behaves, IsFragment, OwnVerdict, Whole, BehaviourOf, SelectorBehaves;
    forall m {:trigger sels[m]} | 0 <= m < |sels| ensures IsFragment(g, Whole(g, sels[m])) {
      OwnBehaviour(g, sels[m], eval, of, local, ofType, feature, vs[m]);
    }
    var bs := seq(|sels|, m requires 0 <= m < |sels| => assert IsFragment(g, Whole(g, sels[m])); BehaviourOf(g, Whole(g, sels[m]), eval));
    forall m | 0 <= m < |sels| ensures SelectorBehaves(g, sels[m], eval, bs[m]) && Decides(bs[m], of, feature, vs[m]) {
      OwnBehaviour(g, sels[m], eval, of, local, ofType, feature, vs[m]);
    }
    LinkedDecides(g, sels, eval, of, local, ofType, bs, feature, vs, s);
  }

  lemma OwnBehaviour<S(!new), F>(g: seq<OpNode>, x: Selector, eval: Meaning<S>, of: S -> F, local: F -> bool,
                                 ofType: (nat, F) -> bool, feature: F, v: bool)
    requires OwnVerdict(g, x, eval, of, feature, v) && TestsFeature(eval, of, local, ofType)
    ensures IsFragment(g, Whole(g, x))
    ensures SelectorBehaves(g, x, eval, BehaviourOf(g, Whole(g, x), eval)) && Decides(BehaviourOf(g, Whole(g, x), eval), of, feature, v)
  {
    WholeIsFragment(g, x);
    var f := Whole(g, x);
    var b := BehaviourOf(g, f, eval);
    BehavesAsItDoes(g, f, eval);
    hide Validated, Whole, Ranked;
    forall s | of(s) == feature ensures b(s).0 == v && of(b(s).1) == feature {
      OutcomeIsVerdict(g, f, eval, x.op, s);
      OutcomeKeepsFeature(g, f.rank, f.falseOp, eval, of, x.op, s);
    }
  }

  lemma SomeVerdict(vs: seq<bool>)
    ensures AnyOf(vs) <==> exists m :: 0 <= m < |vs| && vs[m]
  {
  }

  lemma DecidedAt<S(!new), F>(b: Behaviour<S>, of: S -> F, feature: F, v: bool, s: S)
    requires Decides(b, of, feature, v) && of(s) == feature
    ensures b(s).0 == v
  {
  }

  lemma VerdictIs<S(!new)>(g: seq<OpNode>, f: Fragment, eval: Meaning<S>, b: Behaviour<S>, s: S)
    requires Behaves(g, f, eval, b)
    ensures IsFragment(g, f) && Walk(g, f.rank, eval, f.root, s) == if b(s).0 then 1 else 0
  {
    OutcomeIsVerdict(g, f, eval, f.root, s);
    assert Outcome(g, f.rank, f.falseOp, eval, f.root, s) == b(s);
  }
}
