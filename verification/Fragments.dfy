/** Pieces of an op graph that decide one condition, and how the validator chains them by copying the
    first op of one piece over an exit of another (src/match/MatcherValidator.cpp, lines 343-487). */
module Fragments {
  import opened OpGraphs

  /** A closed piece of the graph: entered at `root`, it ends at `falseOp` or at some RETURN that accepts */
  datatype Fragment = Fragment(root: int, falseOp: int, rank: map<int, nat>)

  predicate Returns(n: OpNode, code: nat) { n.opcode == RETURN && n.operand == Code(code) }

  ghost predicate IsFragment(g: seq<OpNode>, f: Fragment) {
    && Ranked(g, f.rank) && f.root in f.rank && f.falseOp in f.rank && f.root != f.falseOp
    && Returns(g[f.falseOp], 0)
    && forall i :: i in f.rank && g[i].opcode == RETURN && i != f.falseOp ==> Returns(g[i], 1)
  }

  lemma FragmentNode(g: seq<OpNode>, f: Fragment, i: int)
    requires IsFragment(g, f) && i in f.rank
    ensures Ranked(g, f.rank) && 0 <= i < |g| && (g[i].opcode == RETURN ==> Returns(g[i], if i == f.falseOp then 0 else 1))
  {
  }

  /** What the ops ask about stays the same while they run: `of(s)` is the feature. */
  ghost predicate KeepsFeature<S(!new), F>(eval: Meaning<S>, of: S -> F) {
    forall op, operand, s {:trigger eval(op, operand, s)} :: of(eval(op, operand, s).1) == of(s)
  }

  /** Whether a walk ends at an exit that accepts, and the state in which it ends: what the ops on the way have left
      in the engine's registers is what the next piece starts with. */
  ghost function Outcome<S>(g: seq<OpNode>, rank: map<int, nat>, falseOp: int, eval: Meaning<S>, i: int, s: S): (bool, S)
    requires Ranked(g, rank) && i in rank
    decreases rank[i]
  {
    var n := g[i];
    if n.opcode == RETURN then (i != falseOp, s)
    else if n.opcode == NOP || n.opcode == GOTO then Outcome(g, rank, falseOp, eval, n.next0, s)
    else if n.opcode == CODE_TO_STR then Outcome(g, rank, falseOp, eval, n.next0, eval(n.opcode, n.operand, s).1)
    else
      var (matched, s') := eval(n.opcode, n.operand, s);
      Outcome(g, rank, falseOp, eval, n.Next(matched != n.negated), s')
  }

  /** The outcome is what the walk returns. */
  lemma {:induction false} OutcomeIsVerdict<S>(g: seq<OpNode>, f: Fragment, eval: Meaning<S>, i: int, s: S)
    requires IsFragment(g, f) && i in f.rank
    ensures Walk(g, f.rank, eval, i, s) == if Outcome(g, f.rank, f.falseOp, eval, i, s).0 then 1 else 0
    decreases f.rank[i]
  {
    FragmentNode(g, f, i);
    var n := g[i];
    if n.opcode == RETURN {
    } else if n.opcode == NOP || n.opcode == GOTO {
      OutcomeIsVerdict(g, f, eval, n.next0, s);
    } else if n.opcode == CODE_TO_STR {
      OutcomeIsVerdict(g, f, eval, n.next0, eval(n.opcode, n.operand, s).1);
    } else {
      var (matched, s') := eval(n.opcode, n.operand, s);
      OutcomeIsVerdict(g, f, eval, n.Next(matched != n.negated), s');
    }
  }

  lemma {:induction false} OutcomeKeepsFeature<S(!new), F>(g: seq<OpNode>, rank: map<int, nat>, falseOp: int, eval: Meaning<S>, of: S -> F, i: int, s: S)
    requires Ranked(g, rank) && i in rank && KeepsFeature(eval, of)
    ensures of(Outcome(g, rank, falseOp, eval, i, s).1) == of(s)
    decreases rank[i]
  {
    var n := g[i];
    if n.opcode == RETURN {
    } else if n.opcode == NOP || n.opcode == GOTO {
      OutcomeKeepsFeature(g, rank, falseOp, eval, of, n.next0, s);
    } else if n.opcode == CODE_TO_STR {
      OutcomeKeepsFeature(g, rank, falseOp, eval, of, n.next0, eval(n.opcode, n.operand, s).1);
    } else {
      var (matched, s') := eval(n.opcode, n.operand, s);
      OutcomeKeepsFeature(g, rank, falseOp, eval, of, n.Next(matched != n.negated), s');
    }
  }

  /** A verdict in every state, and the state that is left */
  type Behaviour<!S> = S -> (bool, S)

  /** The piece has this outcome in every state. */
  ghost predicate Behaves<S(!new)>(g: seq<OpNode>, f: Fragment, eval: Meaning<S>, b: Behaviour<S>) {
    && IsFragment(g, f)
    && forall s {:trigger Outcome(g, f.rank, f.falseOp, eval, f.root, s)} :: Outcome(g, f.rank, f.falseOp, eval, f.root, s) == b(s)
  }

  ghost function BehaviourOf<S>(g: seq<OpNode>, f: Fragment, eval: Meaning<S>): Behaviour<S>
    requires IsFragment(g, f)
  {
    s => Outcome(g, f.rank, f.falseOp, eval, f.root, s)
  }

  lemma BehavesAsItDoes<S(!new)>(g: seq<OpNode>, f: Fragment, eval: Meaning<S>)
    requires IsFragment(g, f)
    ensures Behaves(g, f, eval, BehaviourOf(g, f, eval))
  {
    hide Ranked;
  }

  lemma BehaviourKeepsFeature<S(!new), F>(g: seq<OpNode>, f: Fragment, eval: Meaning<S>, b: Behaviour<S>, of: S -> F, s: S)
    requires Behaves(g, f, eval, b) && KeepsFeature(eval, of)
    ensures of(b(s).1) == of(s)
  {
    OutcomeKeepsFeature(g, f.rank, f.falseOp, eval, of, f.root, s);
    assert Outcome(g, f.rank, f.falseOp, eval, f.root, s) == b(s);
  }

  /** The second is asked if the first rejects, in the state that this leaves. */
  function OrElse<S>(u: Behaviour<S>, v: Behaviour<S>): Behaviour<S> {
    s => var r := u(s); if r.0 then r else v(r.1)
  }

  // ---------------------------------------------------------------- chaining

  predicate LinksBelow(n: OpNode, rank: map<int, nat>, top: nat) {
    && n.opcode <= RETURN && OperandOk(n)
    && (n.opcode != RETURN ==> n.next0 in rank && rank[n.next0] < top)
    && (HasJump(n.opcode) ==> n.next1 in rank && rank[n.next1] < top)
    && (n.opcode == GOTO ==> n.next0 == n.next1)
  }

  predicate RankedNode(g: seq<OpNode>, rank: map<int, nat>, i: int) { 0 <= i < |g| && i in rank && LinksBelow(g[i], rank, rank[i]) }

  lemma NodeIsRanked(g: seq<OpNode>, rank: map<int, nat>, i: int)
    requires Ranked(g, rank) && i in rank
    ensures RankedNode(g, rank, i)
  {
  }

  lemma RankedByNodes(g: seq<OpNode>, rank: map<int, nat>)
    requires forall i :: i in rank ==> RankedNode(g, rank, i)
    ensures Ranked(g, rank)
  {
    hide OperandOk;
    forall i | i in rank ensures 0 <= i < |g| && g[i].opcode <= RETURN && OperandOk(g[i]) {
      assert RankedNode(g, rank, i);
    }
  }

  /** An op that is about to be written over an exit, and the piece of the graph that it continues with */
  datatype Tail = Tail(entry: OpNode, falseOp: int, rank: map<int, nat>, top: nat)

  ghost predicate IsTail(g: seq<OpNode>, t: Tail) {
    && Ranked(g, t.rank) && t.falseOp in t.rank && Returns(g[t.falseOp], 0)
    && (forall i :: i in t.rank && g[i].opcode == RETURN && i != t.falseOp ==> Returns(g[i], 1))
    && LinksBelow(t.entry, t.rank, t.top) && (t.entry.opcode == RETURN ==> Returns(t.entry, 1))
  }

  lemma TailNode(g: seq<OpNode>, t: Tail, i: int)
    requires IsTail(g, t) && i in t.rank
    ensures Ranked(g, t.rank) && RankedNode(g, t.rank, i) && (g[i].opcode == RETURN ==> Returns(g[i], if i == t.falseOp then 0 else 1))
  {
    NodeIsRanked(g, t.rank, i);
  }

  ghost function EntryOutcome<S>(g: seq<OpNode>, t: Tail, eval: Meaning<S>, s: S): (bool, S)
    requires IsTail(g, t)
  {
    var n := t.entry;
    if n.opcode == RETURN then (true, s)
    else if n.opcode == NOP || n.opcode == GOTO then Outcome(g, t.rank, t.falseOp, eval, n.next0, s)
    else if n.opcode == CODE_TO_STR then Outcome(g, t.rank, t.falseOp, eval, n.next0, eval(n.opcode, n.operand, s).1)
    else
      var (matched, s') := eval(n.opcode, n.operand, s);
      Outcome(g, t.rank, t.falseOp, eval, n.Next(matched != n.negated), s')
  }

  ghost predicate TailBehaves<S(!new)>(g: seq<OpNode>, t: Tail, eval: Meaning<S>, b: Behaviour<S>) {
    && IsTail(g, t)
    && forall s {:trigger EntryOutcome(g, t, eval, s)} :: EntryOutcome(g, t, eval, s) == b(s)
  }

  /** `f`'s false exit becomes the entry of the tail. */
  function Chained(f: Fragment, t: Tail): Fragment {
    Fragment(f.root, t.falseOp, map i | i in f.rank.Keys + t.rank.Keys :: if i in t.rank then t.rank[i] else f.rank[i] + t.top)
  }

  lemma ChainedNode(g: seq<OpNode>, f: Fragment, t: Tail, i: int)
    requires IsFragment(g, f) && IsTail(g, t) && f.rank.Keys !! t.rank.Keys && i in Chained(f, t).rank
    ensures var g', c := g[f.falseOp := t.entry], Chained(f, t);
            && RankedNode(g', c.rank, i)
            && (g'[i].opcode == RETURN ==> Returns(g'[i], if i == t.falseOp then 0 else 1))
  {
    hide Ranked, OperandOk;
    assert f.falseOp in f.rank.Keys && t.falseOp in t.rank.Keys;
    assert i in t.rank ==> i in t.rank.Keys;
    FragmentNode(g, f, f.falseOp);
    if i in t.rank {
      TailNode(g, t, i);
    } else if i != f.falseOp {
      FragmentNode(g, f, i);
      NodeIsRanked(g, f.rank, i);
    }
  }

  lemma ChainedIsFragment(g: seq<OpNode>, f: Fragment, t: Tail)
    requires IsFragment(g, f) && IsTail(g, t) && f.rank.Keys !! t.rank.Keys
    ensures IsFragment(g[f.falseOp := t.entry], Chained(f, t))
  {
    var g', c := g[f.falseOp := t.entry], Chained(f, t);
    assert f.root in f.rank.Keys && t.falseOp in t.rank.Keys && f.falseOp in f.rank.Keys;
    assert c.root in c.rank && c.falseOp in c.rank && c.root != c.falseOp && Returns(g'[c.falseOp], 0);
    hide Ranked, OperandOk, Chained;
    forall i | i in c.rank
      ensures 0 <= i < |g'| && RankedNode(g', c.rank, i) && (g'[i].opcode == RETURN ==> Returns(g'[i], if i == t.falseOp then 0 else 1))
    {
      ChainedNode(g, f, t, i);
    }
    RankedByNodes(g', c.rank);
  }

  lemma {:induction false} OutcomeStays<S>(g: seq<OpNode>, rank: map<int, nat>, g': seq<OpNode>, rank': map<int, nat>, falseOp: int,
                                           eval: Meaning<S>, i: int, s: S)
    requires Ranked(g, rank) && Ranked(g', rank') && i in rank
    requires forall j :: j in rank ==> j in rank' && 0 <= j < |g| && g'[j] == g[j]
    ensures Outcome(g', rank', falseOp, eval, i, s) == Outcome(g, rank, falseOp, eval, i, s)
    decreases rank[i]
  {
    var n := g[i];
    if n.opcode == RETURN {
    } else if n.opcode == NOP || n.opcode == GOTO {
      OutcomeStays(g, rank, g', rank', falseOp, eval, n.next0, s);
    } else if n.opcode == CODE_TO_STR {
      OutcomeStays(g, rank, g', rank', falseOp, eval, n.next0, eval(n.opcode, n.operand, s).1);
    } else {
      var (matched, s') := eval(n.opcode, n.operand, s);
      OutcomeStays(g, rank, g', rank', falseOp, eval, n.Next(matched != n.negated), s');
    }
  }

  /** A walk that starts at a node with the tail's entry written over it is the tail's walk. */
  lemma OutcomeFromEntry<S>(g: seq<OpNode>, t: Tail, g': seq<OpNode>, rank': map<int, nat>, eval: Meaning<S>, i: int, s: S)
    requires IsTail(g, t) && Ranked(g', rank') && i in rank' && g'[i] == t.entry && i != t.falseOp
    requires forall j :: j in t.rank ==> j in rank' && 0 <= j < |g| && g'[j] == g[j]
    ensures Outcome(g', rank', t.falseOp, eval, i, s) == EntryOutcome(g, t, eval, s)
  {
    var n := t.entry;
    if n.opcode == RETURN {
    } else if n.opcode == NOP || n.opcode == GOTO {
      OutcomeStays(g, t.rank, g', rank', t.falseOp, eval, n.next0, s);
    } else if n.opcode == CODE_TO_STR {
      OutcomeStays(g, t.rank, g', rank', t.falseOp, eval, n.next0, eval(n.opcode, n.operand, s).1);
    } else {
      var (matched, s') := eval(n.opcode, n.operand, s);
      OutcomeStays(g, t.rank, g', rank', t.falseOp, eval, n.Next(matched != n.negated), s');
    }
  }

  lemma SecondInChain<S>(g: seq<OpNode>, f: Fragment, t: Tail, eval: Meaning<S>, s: S)
    requires IsFragment(g, f) && f.rank.Keys !! t.rank.Keys && IsTail(g, t)
    ensures var g', c := g[f.falseOp := t.entry], Chained(f, t);
            && Ranked(g', c.rank) && f.falseOp in c.rank
            && Outcome(g', c.rank, t.falseOp, eval, f.falseOp, s) == EntryOutcome(g, t, eval, s)
  {
    var g', c := g[f.falseOp := t.entry], Chained(f, t);
    ChainedIsFragment(g, f, t);
    hide Ranked;
    assert f.falseOp in f.rank.Keys && t.falseOp in t.rank.Keys;
    forall j | j in t.rank ensures j in c.rank && 0 <= j < |g| && g'[j] == g[j] {
      TailNode(g, t, j);
      assert j in t.rank.Keys;
    }
    OutcomeFromEntry(g, t, g', c.rank, eval, f.falseOp, s);
  }

  /** From any op of the first piece, the chain accepts what that piece accepts, and else asks the second. */
  lemma {:induction false} FirstInChain<S>(g: seq<OpNode>, f: Fragment, t: Tail, g': seq<OpNode>, c: Fragment, eval: Meaning<S>, i: int, s: S)
    requires IsFragment(g, f) && f.rank.Keys !! t.rank.Keys && IsTail(g, t)
    requires g' == g[f.falseOp := t.entry] && c == Chained(f, t) && IsFragment(g', c) && i in f.rank
    ensures Ranked(g, f.rank) && i in c.rank
    ensures var first := Outcome(g, f.rank, f.falseOp, eval, i, s);
            Outcome(g', c.rank, t.falseOp, eval, i, s) == if first.0 then first else EntryOutcome(g, t, eval, first.1)
    decreases f.rank[i]
  {
    FragmentNode(g, f, i);
    assert i in f.rank.Keys && t.falseOp in t.rank.Keys;
    var n := g[i];
    if i == f.falseOp {
      SecondInChain(g, f, t, eval, s);
    } else if n.opcode == RETURN {
    } else if n.opcode == NOP || n.opcode == GOTO {
      FirstInChain(g, f, t, g', c, eval, n.next0, s);
    } else if n.opcode == CODE_TO_STR {
      FirstInChain(g, f, t, g', c, eval, n.next0, eval(n.opcode, n.operand, s).1);
    } else {
      var (matched, s') := eval(n.opcode, n.operand, s);
      FirstInChain(g, f, t, g', c, eval, n.Next(matched != n.negated), s');
    }
  }

  /** Writing the first op of one piece over the false exit of another makes their OR. */
  lemma ChainIsOr<S(!new)>(g: seq<OpNode>, f: Fragment, t: Tail, eval: Meaning<S>, u: Behaviour<S>, v: Behaviour<S>)
    requires f.rank.Keys !! t.rank.Keys && Behaves(g, f, eval, u) && TailBehaves(g, t, eval, v)
    ensures Behaves(g[f.falseOp := t.entry], Chained(f, t), eval, OrElse(u, v))
  {
    var g', c := g[f.falseOp := t.entry], Chained(f, t);
    ChainedIsFragment(g, f, t);
    forall s ensures Outcome(g', c.rank, c.falseOp, eval, c.root, s) == OrElse(u, v)(s) {
      assert Outcome(g, f.rank, f.falseOp, eval, f.root, s) == u(s);
      assert EntryOutcome(g, t, eval, u(s).1) == v(u(s).1);
      FirstInChain(g, f, t, g', c, eval, f.root, s);
    }
  }

  /** The tail that a copy of a piece's first op enters */
  function TailOf(g: seq<OpNode>, h: Fragment): Tail {
    Tail(NodeAt(g, h.root), h.falseOp, h.rank, if h.root in h.rank then h.rank[h.root] else 0)
  }

  function NodeAt(g: seq<OpNode>, i: int): OpNode { if 0 <= i < |g| then g[i] else NewOp(NOP, NULL, NULL) }

  function Written(g: seq<OpNode>, i: int, n: OpNode): (g': seq<OpNode>)
    ensures |g'| == |g| && forall j :: 0 <= j < |g| ==> g'[j] == if j == i then n else g[j]
  {
    if 0 <= i < |g| then g[i := n] else g
  }

  lemma TailOfBehaves<S(!new)>(g: seq<OpNode>, h: Fragment, eval: Meaning<S>, b: Behaviour<S>)
    requires Behaves(g, h, eval, b) && 0 <= h.root < |g|
    ensures TailBehaves(g, TailOf(g, h), eval, b)
  {
    NodeIsRanked(g, h.rank, h.root);
    FragmentNode(g, h, h.root);
    var t := TailOf(g, h);
    assert IsTail(g, t);
    forall s ensures EntryOutcome(g, t, eval, s) == b(s) {
      assert Outcome(g, h.rank, h.falseOp, eval, h.root, s) == b(s);
    }
  }

  // ---------------------------------------------------------------- a whole list of pieces

  ghost predicate Disjoint(fs: seq<Fragment>) {
    forall a, b {:trigger fs[a], fs[b]} :: 0 <= a < b < |fs| ==> fs[a].rank.Keys !! fs[b].rank.Keys
  }

  /** The graph after the first op of each of the pieces 1 to `k` has been copied over the false exit before it */
  function Copied(g: seq<OpNode>, fs: seq<Fragment>, k: nat): (g': seq<OpNode>)
    requires k < |fs|
    ensures |g'| == |g|
  {
    if k == 0 then g else Written(Copied(g, fs, k - 1), fs[k - 1].falseOp, NodeAt(g, fs[k].root))
  }

  function ChainOf(g: seq<OpNode>, fs: seq<Fragment>, k: nat): (c: Fragment)
    requires k < |fs|
    ensures c.root == fs[0].root && c.falseOp == fs[k].falseOp
  {
    if k == 0 then fs[0] else Chained(ChainOf(g, fs, k - 1), TailOf(g, fs[k]))
  }

  ghost predicate AllFragments(g: seq<OpNode>, fs: seq<Fragment>) {
    Disjoint(fs) && forall m {:trigger fs[m]} :: 0 <= m < |fs| ==> IsFragment(g, fs[m]) && 0 <= fs[m].falseOp < |g| && 0 <= fs[m].root < |g|
  }

  lemma Apart(fs: seq<Fragment>, a: nat, b: nat, i: int)
    requires Disjoint(fs) && a < |fs| && b < |fs| && a != b && i in fs[a].rank
    ensures i !in fs[b].rank
  {
    assert i in fs[a].rank.Keys;
    if a < b { assert fs[a].rank.Keys !! fs[b].rank.Keys; } else { assert fs[b].rank.Keys !! fs[a].rank.Keys; }
  }

  /** The false exits are nodes of the graph, and no two are the same. */
  predicate Slotted(size: nat, fs: seq<Fragment>) {
    && (forall m {:trigger fs[m]} :: 0 <= m < |fs| ==> 0 <= fs[m].falseOp < size && 0 <= fs[m].root < size)
    && forall a, b {:trigger fs[a], fs[b]} :: 0 <= a < b < |fs| ==> fs[a].falseOp != fs[b].falseOp
  }

  lemma FragmentsAreSlotted(g: seq<OpNode>, fs: seq<Fragment>)
    requires AllFragments(g, fs)
    ensures Slotted(|g|, fs)
  {
    forall a, b | 0 <= a < b < |fs| ensures fs[a].falseOp != fs[b].falseOp {
      FalseOpInside(g, fs, a);
      FalseOpInside(g, fs, b);
      Apart(fs, a, b, fs[a].falseOp);
    }
  }

  /** Only false exits are overwritten. */
  lemma {:induction false} CopiedElsewhere(g: seq<OpNode>, fs: seq<Fragment>, k: nat, j: int)
    requires Slotted(|g|, fs) && k < |fs| && 0 <= j < |g|
    requires forall m :: 0 <= m < k ==> j != fs[m].falseOp
    ensures Copied(g, fs, k)[j] == g[j]
  {
    if k > 0 {
      CopiedElsewhere(g, fs, k - 1, j);
    }
  }

  lemma FalseOpInside(g: seq<OpNode>, fs: seq<Fragment>, m: nat)
    requires AllFragments(g, fs) && m < |fs|
    ensures fs[m].falseOp in fs[m].rank && fs[m].root in fs[m].rank && Disjoint(fs)
  {
    assert IsFragment(g, fs[m]);
    hide Disjoint, Ranked;
  }

  lemma {:induction false} CopiedAt(g: seq<OpNode>, fs: seq<Fragment>, k: nat, m: nat)
    requires Slotted(|g|, fs) && m < k < |fs|
    ensures Copied(g, fs, k)[fs[m].falseOp] == g[fs[m + 1].root]
  {
    if m < k - 1 {
      CopiedAt(g, fs, k - 1, m);
    }
  }

  lemma {:induction false} ChainKeys(g: seq<OpNode>, fs: seq<Fragment>, k: nat, i: int) returns (m: nat)
    requires k < |fs| && i in ChainOf(g, fs, k).rank
    ensures m <= k && i in fs[m].rank
  {
    if k == 0 || i in fs[k].rank { m := k; } else {
      m := ChainKeys(g, fs, k - 1, i);
    }
  }

  /** A piece whose nodes are untouched behaves as before. */
  lemma BehavesStill<S(!new)>(g: seq<OpNode>, g': seq<OpNode>, f: Fragment, eval: Meaning<S>, b: Behaviour<S>)
    requires Behaves(g, f, eval, b) && |g| == |g'| && forall i :: i in f.rank ==> 0 <= i < |g| && g'[i] == g[i]
    ensures Behaves(g', f, eval, b)
  {
    FragmentStays(g, g', f);
    hide Ranked;
    forall s ensures Outcome(g', f.rank, f.falseOp, eval, f.root, s) == b(s) {
      assert Outcome(g, f.rank, f.falseOp, eval, f.root, s) == b(s);
      OutcomeStays(g, f.rank, g', f.rank, f.falseOp, eval, f.root, s);
    }
  }

  lemma FragmentStays(g: seq<OpNode>, g': seq<OpNode>, f: Fragment)
    requires IsFragment(g, f) && |g| == |g'| && forall i :: i in f.rank ==> 0 <= i < |g| && g'[i] == g[i]
    ensures IsFragment(g', f) && Ranked(g', f.rank)
  {
    hide OperandOk, HasJump;
  }

  /** One after the other is asked, until one accepts. */
  function FirstOf<S>(bs: seq<Behaviour<S>>, k: nat): Behaviour<S>
    requires k < |bs|
  {
    if k == 0 then bs[0] else OrElse(FirstOf(bs, k - 1), bs[k])
  }

  ghost predicate AllBehave<S(!new)>(g: seq<OpNode>, fs: seq<Fragment>, eval: Meaning<S>, bs: seq<Behaviour<S>>) {
    |bs| == |fs| && forall m {:trigger fs[m]} :: 0 <= m < |fs| ==> Behaves(g, fs[m], eval, bs[m])
  }

  /** The chain of all pieces asks one after the other, in the state that the one before leaves. */
  lemma {:induction false} ChainBehaves<S(!new)>(g: seq<OpNode>, fs: seq<Fragment>, k: nat, eval: Meaning<S>, bs: seq<Behaviour<S>>)
    requires AllFragments(g, fs) && k < |fs| == |bs| && AllBehave(g, fs, eval, bs)
    ensures Behaves(Copied(g, fs, k), ChainOf(g, fs, k), eval, FirstOf(bs, k))
  {
    hide IsFragment, Disjoint, Chained, Behaves, AllFragments, AllBehave;
    if k == 0 {
      OnePieceBehaves(g, fs, eval, bs);
    } else {
      ChainBehaves(g, fs, k - 1, eval, bs);
      OneMoreBehaves(g, fs, k, eval, bs);
    }
  }

  lemma OnePieceBehaves<S(!new)>(g: seq<OpNode>, fs: seq<Fragment>, eval: Meaning<S>, bs: seq<Behaviour<S>>)
    requires fs != [] && AllBehave(g, fs, eval, bs)
    ensures Behaves(g, fs[0], eval, bs[0])
  {
    hide Behaves;
    assert Behaves(g, fs[0], eval, bs[0]);
  }

  lemma OneMoreBehaves<S(!new)>(g: seq<OpNode>, fs: seq<Fragment>, k: nat, eval: Meaning<S>, bs: seq<Behaviour<S>>)
    requires AllFragments(g, fs) && 0 < k < |fs| == |bs| && AllBehave(g, fs, eval, bs)
    requires Behaves(Copied(g, fs, k - 1), ChainOf(g, fs, k - 1), eval, FirstOf(bs, k - 1))
    ensures Behaves(Copied(g, fs, k), ChainOf(g, fs, k), eval, FirstOf(bs, k))
  {
    hide IsFragment, Disjoint, Chained, Behaves, AllBehave, OrElse;
    PieceLeft(g, fs, k, eval, bs);
    ChainApart(g, fs, k);
    TailOfBehaves(Copied(g, fs, k - 1), fs[k], eval, bs[k]);
    ChainIsOr(Copied(g, fs, k - 1), ChainOf(g, fs, k - 1), TailOf(g, fs[k]), eval, FirstOf(bs, k - 1), bs[k]);
  }

  /** Piece `k` is untouched before its turn. */
  lemma PieceLeft<S(!new)>(g: seq<OpNode>, fs: seq<Fragment>, k: nat, eval: Meaning<S>, bs: seq<Behaviour<S>>)
    requires AllFragments(g, fs) && 0 < k < |fs| == |bs| && AllBehave(g, fs, eval, bs)
    ensures Behaves(Copied(g, fs, k - 1), fs[k], eval, bs[k])
    ensures Copied(g, fs, k - 1)[fs[k].root] == g[fs[k].root]
  {
    hide IsFragment, Disjoint, Copied;
    UntouchedPiece(g, fs, k - 1, k);
    FalseOpInside(g, fs, k);
    assert Behaves(g, fs[k], eval, bs[k]);
    hide Behaves;
    BehavesStill(g, Copied(g, fs, k - 1), fs[k], eval, bs[k]);
  }

  // ---------------------------------------------------------------- verdicts that do not depend on the registers

  /** The verdict on a feature is the same in every state. */
  ghost predicate Decides<S(!new), F>(b: Behaviour<S>, of: S -> F, feature: F, verdict: bool) {
    forall s {:trigger b(s)} :: of(s) == feature ==> b(s).0 == verdict && of(b(s).1) == feature
  }

  predicate AnyOf(vs: seq<bool>) { exists m :: 0 <= m < |vs| && vs[m] }

  /** If each piece decides for itself, then one after the other accepts a feature exactly if one of them does. */
  lemma {:induction false} FirstDecides<S(!new), F>(bs: seq<Behaviour<S>>, k: nat, of: S -> F, feature: F, vs: seq<bool>)
    requires k < |bs| == |vs| && forall m {:trigger bs[m]} :: 0 <= m < |bs| ==> Decides(bs[m], of, feature, vs[m])
    ensures Decides(FirstOf(bs, k), of, feature, AnyOf(vs[..k + 1]))
  {
    hide Decides, OrElse, AnyOf;
    assert Decides(bs[k], of, feature, vs[k]);
    AnyOfOneMore(vs, k);
    if k > 0 {
      FirstDecides(bs, k - 1, of, feature, vs);
      OrDecides(FirstOf(bs, k - 1), bs[k], of, feature, AnyOf(vs[..k]), vs[k]);
    }
  }

  lemma OrDecides<S(!new), F>(u: Behaviour<S>, v: Behaviour<S>, of: S -> F, feature: F, x: bool, y: bool)
    requires Decides(u, of, feature, x) && Decides(v, of, feature, y)
    ensures Decides(OrElse(u, v), of, feature, x || y)
  {
    forall s | of(s) == feature ensures OrElse(u, v)(s).0 == (x || y) && of(OrElse(u, v)(s).1) == feature {
      assert u(s).0 == x && of(u(s).1) == feature;
      assert v(u(s).1).0 == y;
    }
  }

  lemma AnyOfOneMore(vs: seq<bool>, k: nat)
    requires k < |vs|
    ensures AnyOf(vs[..k + 1]) == (AnyOf(vs[..k]) || vs[k]) && (k == 0 ==> !AnyOf(vs[..k]))
  {
    var more := vs[..k + 1];
    if AnyOf(vs[..k]) {
      var m :| 0 <= m < k && vs[..k][m];
      assert more[m];
    } else if vs[k] {
      assert more[k];
    }
  }

  lemma UntouchedPiece(g: seq<OpNode>, fs: seq<Fragment>, k: nat, later: nat)
    requires AllFragments(g, fs) && k < later < |fs|
    ensures forall i :: i in fs[later].rank ==> 0 <= i < |g| && Copied(g, fs, k)[i] == g[i]
  {
    hide Copied, Disjoint;
    forall i | i in fs[later].rank ensures 0 <= i < |g| && Copied(g, fs, k)[i] == g[i] {
      FragmentNode(g, fs[later], i);
      forall m | 0 <= m < k ensures i != fs[m].falseOp {
        FalseOpInside(g, fs, m);
        Apart(fs, m, later, fs[m].falseOp);
      }
      FragmentsAreSlotted(g, fs);
      CopiedElsewhere(g, fs, k, i);
    }
  }

  lemma RootsInside(g: seq<OpNode>, fs: seq<Fragment>)
    requires AllFragments(g, fs)
    ensures forall m {:trigger fs[m]} :: 0 <= m < |fs| ==> fs[m].root in fs[m].rank && 0 <= fs[m].root < |g|
  {
    hide Disjoint, IsFragment;
    forall m {:trigger fs[m]} | 0 <= m < |fs| ensures fs[m].root in fs[m].rank && 0 <= fs[m].root < |g| {
      FalseOpInside(g, fs, m);
    }
  }

  lemma ChainApart(g: seq<OpNode>, fs: seq<Fragment>, k: nat)
    requires 0 < k < |fs| && AllFragments(g, fs)
    ensures forall m {:trigger fs[m]} :: 0 <= m < |fs| ==> fs[m].root in fs[m].rank && 0 <= fs[m].root < |g|
    ensures ChainOf(g, fs, k - 1).rank.Keys !! fs[k].rank.Keys
  {
    hide ChainOf, Chained, IsFragment, Disjoint;
    RootsInside(g, fs);
    var c := ChainOf(g, fs, k - 1).rank;
    forall i | i in c ensures i !in fs[k].rank {
      var m := ChainKeys(g, fs, k - 1, i);
      FalseOpInside(g, fs, m);
      Apart(fs, m, k, i);
    }
    assert forall i :: i in c.Keys ==> i !in fs[k].rank.Keys;
  }

  /** What a chain's nodes look like: false exits hold copies, everything else is as before. */
  lemma ChainContent(g: seq<OpNode>, fs: seq<Fragment>, k: nat, m: nat, i: int)
    requires AllFragments(g, fs) && m <= k < |fs| && i in fs[m].rank && i != fs[m].falseOp
    ensures i in ChainOf(g, fs, k).rank && 0 <= i < |g| && Copied(g, fs, k)[i] == g[i]
  {
    hide ChainOf;
    assert IsFragment(g, fs[m]);
    FragmentNode(g, fs[m], i);
    forall a | 0 <= a < k ensures i != fs[a].falseOp {
      FalseOpInside(g, fs, a);
      if a != m { Apart(fs, a, m, fs[a].falseOp); }
    }
    FragmentsAreSlotted(g, fs);
    CopiedElsewhere(g, fs, k, i);
    InChain(g, fs, k, m, i);
  }

  lemma {:induction false} InChain(g: seq<OpNode>, fs: seq<Fragment>, k: nat, m: nat, i: int)
    requires m <= k < |fs| && i in fs[m].rank
    ensures i in ChainOf(g, fs, k).rank
  {
    if m < k {
      InChain(g, fs, k - 1, m, i);
    }
  }
}
