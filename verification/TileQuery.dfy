/** The concurrent tile query as a step system (src/query/Query.cpp, src/query/TileQueryTask.cpp,
    include/clarisma/thread/ThreadPool.h): one consumer, any number of workers, a bounded pool.
    Every region held under a lock is one step; steps interleave in every order. */
module TileQueries {

  type Item = nat
  type Bucket = seq<Item>

  /** What running a tile's task yields */
  type Task = seq<Bucket>

  /** A tile the walker comes to; only a tile that is loaded and current is submitted. */
  datatype Tile = Tile(loaded: bool, task: Task)

  /** Where requestTiles returns to: the constructor, or `next` with the batch just taken */
  datatype After = ToCaller | ToNext(batch: seq<Bucket>)

  datatype Pc =
    | Requesting(posted: bool, after: After)
    | JustPosted(after: After)
    | RunningHere(task: Task, after: After)
    | Advancing(posted: bool, after: After)
    | Idle
    | Scanning
    | CheckPending
    | Taking
    | Taken(batch: seq<Bucket>)
    | Delivering(batch: seq<Bucket>)
    | Finished
    | Destroying
    | TakingToDelete
    | Destroyed

  datatype State = State(
    pc: Pc,
    requests: seq<Tile>,
    allRequested: bool,
    capacity: nat,
    pool: seq<Task>,
    workers: seq<seq<Task>>,  // per worker: the task it runs, or nothing
    queued: seq<Bucket>,
    completed: int,
    pending: int,
    current: seq<Bucket>,
    currentPos: nat,
    returned: multiset<Item>,
    deleted: multiset<Item>)

  datatype Step = CallNext | CallDestroy | Consumer | Fetch(w: nat) | Offer(w: nat)

  function AfterRequest(a: After): Pc {
    match a
    case ToCaller => Idle
    case ToNext(batch) => Delivering(batch)
  }

  predicate Busy(s: State, w: nat) { w < |s.workers| && s.workers[w] != [] }

  predicate Enabled(s: State, step: Step) {
    match step
    case CallNext => s.pc == Idle
    case CallDestroy => s.pc == Idle || s.pc == Finished
    case Consumer =>
      && s.pc !in {Idle, Finished, Destroyed}
      && (s.pc == Taking || s.pc == TakingToDelete ==> s.completed > 0)
    case Fetch(w) => w < |s.workers| && s.workers[w] == [] && s.pool != []
    case Offer(w) => Busy(s, w)
  }

  /** `offer`: the task's buckets are spliced behind the queued ones. */
  function Offered(s: State, results: seq<Bucket>): State {
    s.(queued := s.queued + results, completed := s.completed + 1)
  }

  /** `requestTiles`, up to the next point where another thread can interfere */
  function Request(s: State, posted: bool, after: After): State {
    if s.requests == [] then s.(pc := AfterRequest(after), allRequested := true)
    else if !s.requests[0].loaded then s.(requests := s.requests[1..], pc := Advancing(posted, after))
    else if |s.pool| < s.capacity then
      s.(pool := s.pool + [s.requests[0].task], requests := s.requests[1..], pc := JustPosted(after))
    else if posted then s.(pc := AfterRequest(after))
    else s.(pending := s.pending + 1, requests := s.requests[1..], pc := RunningHere(s.requests[0].task, after))
  }

  /** `next`: the current bucket's item, or the next bucket's first item, or on to the queue */
  function Scan(s: State): State {
    if s.current != [] && s.currentPos < |s.current[0]| then
      s.(returned := s.returned + multiset{s.current[0][s.currentPos]}, currentPos := s.currentPos + 1, pc := Idle)
    else if |s.current| > 1 && s.current[1] != [] then
      s.(returned := s.returned + multiset{s.current[1][0]}, current := s.current[1..], currentPos := 1, pc := Idle)
    else s.(current := [], currentPos := 0, pc := CheckPending)
  }

  /** The buckets that were not read, and the part that was not read of the first */
  function Unread(bs: seq<Bucket>, pos: nat): seq<Bucket> {
    if bs == [] || pos > |bs[0]| then [] else [bs[0][pos..]] + bs[1..]
  }

  function Consume(s: State): State
    requires Enabled(s, Consumer)
  {
    match s.pc
    case Requesting(posted, after) => Request(s, posted, after)
    case JustPosted(after) => s.(pending := s.pending + 1, pc := Advancing(true, after))
    case RunningHere(task, after) => Offered(s, task).(pc := Advancing(true, after))
    case Advancing(posted, after) =>
      if s.requests == [] then s.(pc := AfterRequest(after), allRequested := true)
      else s.(pc := Requesting(posted, after))
    case Scanning => Scan(s)
    case CheckPending => s.(pc := if s.pending == 0 then Finished else Taking)
    case Taking =>
      s.(pc := Taken(s.queued), queued := [], pending := s.pending - s.completed, completed := 0)
    case Taken(batch) =>
      s.(pc := if s.allRequested then Delivering(batch) else Requesting(false, ToNext(batch)))
    case Delivering(batch) =>
      if batch == [] then s.(pc := CheckPending)
      else s.(pc := Scanning, current := batch, currentPos := 0)
    case Destroying =>
      if s.pending != 0 then s.(pc := TakingToDelete)
      else s.(pc := Destroyed, current := [], currentPos := 0, deleted := s.deleted + AllOf(Unread(s.current, s.currentPos)))
    case TakingToDelete =>
      s.(pc := Destroying, deleted := s.deleted + AllOf(s.queued),
         queued := [], pending := s.pending - s.completed, completed := 0)
    case _ => s
  }

  function Do(s: State, step: Step): State
    requires Enabled(s, step)
  {
    match step
    case CallNext => s.(pc := Scanning)
    case CallDestroy => s.(pc := Destroying)
    case Consumer => Consume(s)
    case Fetch(w) => s.(workers := s.workers[w := [s.pool[0]]], pool := s.pool[1..])
    case Offer(w) => Offered(s, s.workers[w][0]).(workers := s.workers[w := []])
  }

  // ---------------------------------------------------------------- items, counted

  /** How often item `x` occurs in a list of buckets */
  function Items(bs: seq<Bucket>, x: Item): nat {
    if bs == [] then 0 else multiset(bs[0])[x] + Items(bs[1..], x)
  }

  function TaskItems(ts: seq<Task>, x: Item): nat {
    if ts == [] then 0 else Items(ts[0], x) + TaskItems(ts[1..], x)
  }

  function WorkerItems(ws: seq<seq<Task>>, x: Item): nat {
    if ws == [] then 0 else TaskItems(ws[0], x) + WorkerItems(ws[1..], x)
  }

  function TileItems(ts: seq<Tile>, x: Item): nat {
    if ts == [] then 0 else (if ts[0].loaded then Items(ts[0].task, x) else 0) + TileItems(ts[1..], x)
  }

  /** In the part of the current batch that has not been returned */
  function Rest(bs: seq<Bucket>, pos: nat, x: Item): nat {
    if bs == [] then 0
    else (if pos <= |bs[0]| then multiset(bs[0][pos..])[x] else 0) + Items(bs[1..], x)
  }

  function AfterItems(a: After, x: Item): nat { if a.ToNext? then Items(a.batch, x) else 0 }

  function PcItems(pc: Pc, x: Item): nat {
    match pc
    case Requesting(_, a) => AfterItems(a, x)
    case JustPosted(a) => AfterItems(a, x)
    case RunningHere(t, a) => Items(t, x) + AfterItems(a, x)
    case Advancing(_, a) => AfterItems(a, x)
    case Taken(b) => Items(b, x)
    case Delivering(b) => Items(b, x)
    case _ => 0
  }

  /** Item `x` wherever it currently is: to be requested, in a task, queued, in a batch, or returned */
  function Everywhere(s: State, x: Item): nat {
    s.returned[x] + s.deleted[x] + Rest(s.current, s.currentPos, x) + PcItems(s.pc, x) + Items(s.queued, x)
    + TaskItems(s.pool, x) + WorkerItems(s.workers, x) + TileItems(s.requests, x)
  }

  /** The items of a list of buckets as a multiset */
  function AllOf(bs: seq<Bucket>): (all: multiset<Item>)
    ensures forall x :: all[x] == Items(bs, x)
  {
    if bs == [] then multiset{} else multiset(bs[0]) + AllOf(bs[1..])
  }

  lemma {:induction false} ItemsConcat(a: seq<Bucket>, b: seq<Bucket>, x: Item)
    ensures Items(a + b, x) == Items(a, x) + Items(b, x)
  {
    if a == [] {
      assert a + b == b;
    } else {
      assert (a + b)[1..] == a[1..] + b;
      ItemsConcat(a[1..], b, x);
    }
  }

  lemma {:induction false} TaskItemsAppend(ts: seq<Task>, t: Task, x: Item)
    ensures TaskItems(ts + [t], x) == TaskItems(ts, x) + Items(t, x)
  {
    if ts != [] {
      assert (ts + [t])[1..] == ts[1..] + [t];
      TaskItemsAppend(ts[1..], t, x);
    } else {
      assert [t][1..] == [];
    }
  }

  lemma {:induction false} WorkerItemsUpdate(ws: seq<seq<Task>>, w: nat, ts: seq<Task>, x: Item)
    requires w < |ws|
    ensures WorkerItems(ws[w := ts], x) + TaskItems(ws[w], x) == WorkerItems(ws, x) + TaskItems(ts, x)
  {
    if w == 0 {
      assert ws[w := ts][1..] == ws[1..];
    } else {
      assert ws[w := ts][1..] == ws[1..][w - 1 := ts] && ws[1..][w - 1] == ws[w];
      WorkerItemsUpdate(ws[1..], w - 1, ts, x);
    }
  }

  // ---------------------------------------------------------------- what the counts count

  /** A one-to-one map from one set onto another */
  lemma {:induction false} SameSize<A(!new), B>(s: set<A>, t: set<B>, f: A -> B)
    requires forall a :: a in s ==> f(a) in t
    requires forall a, a' :: a in s && a' in s && f(a) == f(a') ==> a == a'
    requires forall y :: y in t ==> exists a :: a in s && f(a) == y
    ensures |s| == |t|
    decreases |s|
  {
    if s == {} {
      assert t == {};
    } else {
      var a := Element(s);
      assert f(a) in t;
      SameSize(s - {a}, t - {f(a)}, f);
    }
  }

  lemma Element<A>(s: set<A>) returns (a: A)
    requires s != {}
    ensures a in s
  {
    a :| a in s;
  }

  lemma PartSizes<A>(part: set<A>, whole: set<A>)
    requires part <= whole
    ensures |whole| == |part| + |whole - part|
  {
    assert whole == part + (whole - part);
  }

  /** Positions of `x` in a bucket, in a list of buckets, and in the loaded ones among some tiles */
  ghost function InBucket(b: Bucket, x: Item): set<nat> { set p: nat | p < |b| && b[p] == x }

  ghost function InTask(bs: seq<Bucket>, x: Item): set<(nat, nat)> {
    set b: nat, p: nat {:trigger bs[b][p]} | b < |bs| && p < |bs[b]| && bs[b][p] == x :: (b, p)
  }

  ghost function InTiles(ts: seq<Tile>, x: Item): set<(nat, nat, nat)> {
    set i: nat, b: nat, p: nat {:trigger ts[i].task[b][p]} |
      i < |ts| && ts[i].loaded && b < |ts[i].task| && p < |ts[i].task[b]| && ts[i].task[b][p] == x :: (i, b, p)
  }

  lemma {:induction false} BucketCounts(b: Bucket, x: Item)
    ensures multiset(b)[x] == |InBucket(b, x)|
  {
    if b == [] {
      assert InBucket(b, x) == {};
    } else {
      var n := |b| - 1;
      var init := b[..n];
      BucketCounts(init, x);
      assert b == init + [b[n]];
      assert multiset(b) == multiset(init) + multiset{b[n]};
      assert InBucket(b, x) == InBucket(init, x) + if b[n] == x then {n} else {};
    }
  }

  lemma {:induction false} TaskCounts(bs: seq<Bucket>, x: Item)
    ensures Items(bs, x) == |InTask(bs, x)|
  {
    if bs == [] {
      assert InTask(bs, x) == {};
    } else {
      var n := |bs| - 1;
      var init := bs[..n];
      TaskCounts(init, x);
      assert bs == init + [bs[n]];
      ItemsConcat(init, [bs[n]], x);
      OneBucket(bs[n], x);
      BucketCounts(bs[n], x);
      LastBucket(bs, x);
    }
  }

  lemma OneBucket(b: Bucket, x: Item)
    ensures Items([b], x) == multiset(b)[x]
  {
    assert [b][1..] == [];
  }

  lemma LastBucket(bs: seq<Bucket>, x: Item)
    requires bs != []
    ensures |InTask(bs, x)| == |InTask(bs[..|bs| - 1], x)| + |InBucket(bs[|bs| - 1], x)|
  {
    var n := |bs| - 1;
    var f := (p: nat) => (n, p);
    var whole, part, bucket := InTask(bs, x), InTask(bs[..n], x), InBucket(bs[n], x);
    forall q: (nat, nat) ensures q in part <==> q in whole && q.0 != n {
      TaskPlace(bs, x, q.0, q.1);
      TaskPlace(bs[..n], x, q.0, q.1);
      assert q == (q.0, q.1);
    }
    forall p: nat ensures f(p) in whole <==> p in bucket {
      TaskPlace(bs, x, n, p);
    }
    hide InTask, InBucket;
    PartSizes(part, whole);
    forall y | y in whole - part ensures exists p :: p in bucket && f(p) == y {
      assert f(y.1) == y;
    }
    SameSize(bucket, whole - part, f);
  }

  lemma TaskPlace(bs: seq<Bucket>, x: Item, b: nat, p: nat)
    ensures (b, p) in InTask(bs, x) <==> b < |bs| && p < |bs[b]| && bs[b][p] == x
  {
  }

  lemma TilePlace(ts: seq<Tile>, x: Item, i: nat, b: nat, p: nat)
    ensures (i, b, p) in InTiles(ts, x) <==> i < |ts| && ts[i].loaded && (b, p) in InTask(ts[i].task, x)
  {
    if i < |ts| { TaskPlace(ts[i].task, x, b, p); }
  }

  lemma {:induction false} TileItemsConcat(a: seq<Tile>, b: seq<Tile>, x: Item)
    ensures TileItems(a + b, x) == TileItems(a, x) + TileItems(b, x)
  {
    hide Items;
    if a == [] {
      assert a + b == b;
    } else {
      assert (a + b)[1..] == a[1..] + b;
      TileItemsConcat(a[1..], b, x);
    }
  }

  lemma OneTile(t: Tile, x: Item)
    ensures TileItems([t], x) == if t.loaded then Items(t.task, x) else 0
  {
    hide Items;
    assert [t][1..] == [];
  }

  lemma LastTile(ts: seq<Tile>, x: Item)
    requires ts != []
    ensures var (n, t) := (|ts| - 1, ts[|ts| - 1]);
            |InTiles(ts, x)| == |InTiles(ts[..n], x)| + if t.loaded then |InTask(t.task, x)| else 0
  {
    hide InTask, InTiles;
    var n, t := |ts| - 1, ts[|ts| - 1];
    var f := (bp: (nat, nat)) => (n, bp.0, bp.1);
    var whole, part, places := InTiles(ts, x), InTiles(ts[..n], x), if t.loaded then InTask(t.task, x) else {};
    forall q: (nat, nat, nat) ensures q in part <==> q in whole && q.0 != n {
      TilePlace(ts, x, q.0, q.1, q.2);
      TilePlace(ts[..n], x, q.0, q.1, q.2);
      assert q == (q.0, q.1, q.2);
    }
    forall bp: (nat, nat) ensures f(bp) in whole <==> bp in places {
      TilePlace(ts, x, n, bp.0, bp.1);
      assert bp == (bp.0, bp.1);
    }
    PartSizes(part, whole);
    forall y | y in whole - part ensures exists bp :: bp in places && f(bp) == y {
      assert f((y.1, y.2)) == y;
    }
    SameSize(places, whole - part, f);
  }

  /** The number that conservation is about counts the places at which the loaded tiles hold the item. */
  lemma {:induction false} TilesCount(ts: seq<Tile>, x: Item)
    ensures TileItems(ts, x) ==
            |set i: nat, b: nat, p: nat {:trigger ts[i].task[b][p]} |
              i < |ts| && ts[i].loaded && b < |ts[i].task| && p < |ts[i].task[b]| && ts[i].task[b][p] == x :: (i, b, p)|
  {
    hide Items;
    if ts == [] {
      assert InTiles(ts, x) == {};
    } else {
      var n := |ts| - 1;
      TilesCount(ts[..n], x);
      assert ts == ts[..n] + [ts[n]];
      TileItemsConcat(ts[..n], [ts[n]], x);
      OneTile(ts[n], x);
      TaskCounts(ts[n].task, x);
      LastTile(ts, x);
    }
  }

  lemma SomeTileHolds(ts: seq<Tile>, x: Item)
    ensures TileItems(ts, x) > 0 <==> exists t, b :: t in ts && t.loaded && b in t.task && x in b
  {
    hide TileItems, Items;
    TilesCount(ts, x);
    assert TileItems(ts, x) == |InTiles(ts, x)|;
    if InTiles(ts, x) != {} {
      var q := Element(InTiles(ts, x));
      var t := ts[q.0];
      var b := t.task[q.1];
      assert t in ts && t.loaded && b in t.task && x in b;
    }
    if t, b :| t in ts && t.loaded && b in t.task && x in b {
      var i: nat :| i < |ts| && ts[i] == t;
      var j: nat :| j < |t.task| && t.task[j] == b;
      var p: nat :| p < |b| && b[p] == x;
      assert ts[i].task[j][p] == x;
      assert (i, j, p) in InTiles(ts, x);
    }
  }

  // ---------------------------------------------------------------- the invariant

  function BusyCount(ws: seq<seq<Task>>): nat {
    if ws == [] then 0 else (if ws[0] == [] then 0 else 1) + BusyCount(ws[1..])
  }

  lemma {:induction false} BusyCountUpdate(ws: seq<seq<Task>>, w: nat, ts: seq<Task>)
    requires w < |ws|
    ensures BusyCount(ws[w := ts]) + (if ws[w] == [] then 0 else 1) == BusyCount(ws) + (if ts == [] then 0 else 1)
  {
    if w == 0 {
      assert ws[w := ts][1..] == ws[1..];
    } else {
      assert ws[w := ts][1..] == ws[1..][w - 1 := ts];
      BusyCountUpdate(ws[1..], w - 1, ts);
    }
  }

  lemma {:induction false} SomeoneIsBusy(ws: seq<seq<Task>>) returns (w: nat)
    requires BusyCount(ws) > 0
    ensures w < |ws| && ws[w] != []
  {
    if ws[0] != [] { w := 0; } else {
      w := SomeoneIsBusy(ws[1..]);
      w := w + 1;
    }
  }

  /** Buckets are never empty: one is created when its first item is added. */
  predicate Full(bs: seq<Bucket>) { forall b :: b in bs ==> b != [] }

  predicate FullPc(pc: Pc) {
    match pc
    case Requesting(_, ToNext(b)) => Full(b)
    case JustPosted(ToNext(b)) => Full(b)
    case RunningHere(t, ToNext(b)) => Full(t) && Full(b)
    case RunningHere(t, ToCaller) => Full(t)
    case Advancing(_, ToNext(b)) => Full(b)
    case Taken(b) => Full(b)
    case Delivering(b) => Full(b)
    case _ => true
  }

  /** Tasks under way: in the pool, with a worker, or run by the consumer itself */
  function UnderWay(s: State): nat {
    |s.pool| + BusyCount(s.workers) + if s.pc.RunningHere? then 1 else 0
  }

  /** Between looking for a batch and having one, the current batch is used up. */
  predicate Fetching(pc: Pc) {
    pc.CheckPending? || pc.Taking? || pc.Taken? || pc.Delivering?
    || pc.Requesting? || pc.JustPosted? || pc.RunningHere? || pc.Advancing?
  }

  /** `pendingTiles_` is what is queued, running, or completed but untaken; it lags by one between
      the post of a task and its increment. */
  predicate CountsInv(s: State) {
    && s.pending + (if s.pc.JustPosted? then 1 else 0) == UnderWay(s) + s.completed
    && s.pending >= 0 && s.completed >= 0 && (s.completed == 0 ==> s.queued == [])
    && |s.pool| <= s.capacity && |s.workers| > 0
    && forall w :: 0 <= w < |s.workers| ==> |s.workers[w]| <= 1
  }

  /** No bucket anywhere is empty. */
  predicate BucketsInv(s: State) {
    TasksFull(s) && Full(s.queued) && Full(s.current) && FullPc(s.pc)
  }

  predicate TasksFull(s: State) {
    && (forall w :: 0 <= w < |s.workers| ==> forall t :: t in s.workers[w] ==> Full(t))
    && (forall t :: t in s.pool ==> Full(t)) && (forall t :: t in s.requests ==> Full(t.task))
  }

  predicate FlowInv(s: State) {
    && (s.allRequested <==> s.requests == [] && !s.pc.JustPosted? && !s.pc.RunningHere? && !s.pc.Advancing?)
    && (s.pc.Requesting? ==> s.requests != [] && (s.pc.posted ==> s.pending > 0))
    && (s.pc.Advancing? && s.pc.posted ==> s.pending > 0)
    && (s.pc.Delivering? || s.pc == Idle || s.pc == Scanning || s.pc == CheckPending ==> s.allRequested || s.pending > 0)
    && (s.pc == Taking ==> s.pending > 0) && (s.pc == TakingToDelete ==> s.pending > 0)
    && (s.pc == Finished ==> s.allRequested && s.pending == 0)
    && (s.pc == Destroyed ==> s.pending == 0)
  }

  predicate Destructing(pc: Pc) { pc.Destroying? || pc.TakingToDelete? || pc.Destroyed? }

  predicate BatchInv(s: State) {
    && (!Destructing(s.pc) ==> s.deleted == multiset{})
    && (Fetching(s.pc) || s.pc.Finished? || s.pc.Destroyed? ==> s.current == [])
    && (s.current != [] ==> s.currentPos <= |s.current[0]|)
  }

  predicate Inv(s: State) { CountsInv(s) && BucketsInv(s) && FlowInv(s) && BatchInv(s) }

  // ---------------------------------------------------------------- what every step keeps

  /** The query is constructed: requestTiles is about to run, with the root tile current. */
  predicate Init(s: State) {
    && s.pc == Requesting(false, ToCaller) && s.requests != [] && !s.allRequested
    && s.pool == [] && |s.workers| > 0 && (forall w :: 0 <= w < |s.workers| ==> s.workers[w] == [])
    && s.queued == [] && s.completed == 0 && s.pending == 0 && s.current == [] && s.currentPos == 0
    && s.returned == multiset{} && s.deleted == multiset{}
    && (forall t :: t in s.requests ==> Full(t.task))
  }

  lemma {:induction false} NobodyIsBusy(ws: seq<seq<Task>>)
    requires forall w :: 0 <= w < |ws| ==> ws[w] == []
    ensures BusyCount(ws) == 0 && forall x :: WorkerItems(ws, x) == 0
  {
    if ws != [] {
      NobodyIsBusy(ws[1..]);
    }
  }

  lemma InitInv(s: State)
    requires Init(s)
    ensures Inv(s) && forall x :: Everywhere(s, x) == TileItems(s.requests, x)
  {
    NobodyIsBusy(s.workers);
  }

  lemma ScanOnlyReads(s: State)
    ensures var s' := Scan(s);
            && s' == s.(returned := s'.returned, current := s'.current, currentPos := s'.currentPos, pc := s'.pc)
            && (s'.pc == Idle || s'.pc == CheckPending)
  {
  }

  lemma ScanKeepsItems(s: State, x: Item)
    requires s.pc == Scanning && Full(s.current)
    ensures var s' := Scan(s);
            s'.returned[x] + Rest(s'.current, s'.currentPos, x) == s.returned[x] + Rest(s.current, s.currentPos, x)
  {
    var cur, pos := s.current, s.currentPos;
    if cur != [] {
      if pos < |cur[0]| {
        assert cur[0][pos..] == [cur[0][pos]] + cur[0][pos + 1..];
      } else {
        assert pos <= |cur[0]| ==> cur[0][pos..] == [];
        if |cur| > 1 {
          assert cur[1] in cur;
          assert cur[1..][0] == cur[1] && cur[1..][1..] == cur[2..];
          assert cur[1] == [cur[1][0]] + cur[1][1..];
        } else {
          assert cur[1..] == [];
        }
      }
    }
  }

  lemma RequestKeepsItems(s: State, posted: bool, after: After, x: Item)
    requires s.pc == Requesting(posted, after)
    ensures Everywhere(Request(s, posted, after), x) == Everywhere(s, x)
  {
    hide Rest, WorkerItems, Items;
    var s' := Request(s, posted, after);
    assert PcItems(AfterRequest(after), x) == AfterItems(after, x);
    if s.requests == [] {
      assert s' == s.(pc := AfterRequest(after), allRequested := true);
    } else if !s.requests[0].loaded {
      assert s' == s.(requests := s.requests[1..], pc := Advancing(posted, after));
    } else if |s.pool| < s.capacity {
      TaskItemsAppend(s.pool, s.requests[0].task, x);
      hide TaskItems;
      assert s'.pool == s.pool + [s.requests[0].task] && s'.requests == s.requests[1..];
    }
  }

  lemma TakeKeepsItems(s: State, x: Item)
    requires s.pc in {Taking, TakingToDelete} && Enabled(s, Consumer)
    ensures Everywhere(Consume(s), x) == Everywhere(s, x)
  {
    hide Rest, WorkerItems, TaskItems, TileItems;
    assert Items([], x) == 0;
  }

  lemma HereKeepsItems(s: State, x: Item)
    requires s.pc.RunningHere?
    ensures Everywhere(Consume(s), x) == Everywhere(s, x)
  {
    hide Rest, WorkerItems, TaskItems, TileItems;
    ItemsConcat(s.queued, s.pc.task, x);
    hide Items;
  }

  lemma DeliverKeepsItems(s: State, x: Item)
    requires s.pc.Delivering? && s.current == []
    ensures Everywhere(Consume(s), x) == Everywhere(s, x)
  {
    hide WorkerItems, TaskItems, TileItems;
    var batch := s.pc.batch;
    if batch != [] {
      assert batch[0][0..] == batch[0];
    }
  }

  lemma DestroyKeepsItems(s: State, x: Item)
    requires s.pc == Destroying && (s.current != [] ==> s.currentPos <= |s.current[0]|)
    ensures Everywhere(Consume(s), x) == Everywhere(s, x)
  {
    hide WorkerItems, TaskItems, TileItems, Items, Unread;
    UnreadIsRest(s.current, s.currentPos, x);
  }

  lemma OnlyPcMoves(s: State, x: Item)
    requires s.pc.JustPosted? || s.pc.Advancing? || s.pc == CheckPending || s.pc.Taken?
    ensures Everywhere(Consume(s), x) == Everywhere(s, x)
  {
    hide Rest, WorkerItems, TaskItems, TileItems, Items;
  }

  lemma ScanStepKeepsItems(s: State, x: Item)
    requires s.pc == Scanning && Full(s.current)
    ensures Everywhere(Consume(s), x) == Everywhere(s, x)
  {
    ScanKeepsItems(s, x);
    ScanOnlyReads(s);
    assert Consume(s) == Scan(s);
    hide Consume, Scan, Rest, WorkerItems, TaskItems, TileItems, Items;
  }

  lemma RequestStepKeepsItems(s: State, x: Item)
    requires s.pc.Requesting?
    ensures Everywhere(Consume(s), x) == Everywhere(s, x)
  {
    RequestKeepsItems(s, s.pc.posted, s.pc.after, x);
    hide Everywhere, Request;
  }

  /** No step of the consumer creates, duplicates or loses an item. */
  lemma ConsumerKeepsItems(s: State, x: Item)
    requires Inv(s) && Enabled(s, Consumer)
    ensures Everywhere(Consume(s), x) == Everywhere(s, x)
  {
    assert Fetching(s.pc) ==> s.current == [];
    assert s.current != [] ==> s.currentPos <= |s.current[0]|;
    assert Full(s.current);
    hide Inv, Everywhere, Consume, Full;
    match s.pc
    case Requesting(_, _) => RequestStepKeepsItems(s, x);
    case RunningHere(_, _) => HereKeepsItems(s, x);
    case Scanning => ScanStepKeepsItems(s, x);
    case Delivering(_) => DeliverKeepsItems(s, x);
    case Destroying => DestroyKeepsItems(s, x);
    case Taking => TakeKeepsItems(s, x);
    case TakingToDelete => TakeKeepsItems(s, x);
    case _ => OnlyPcMoves(s, x);
  }

  lemma UnreadIsRest(bs: seq<Bucket>, pos: nat, x: Item)
    requires bs != [] ==> pos <= |bs[0]|
    ensures Items(Unread(bs, pos), x) == Rest(bs, pos, x)
  {
    if bs != [] {
      assert Unread(bs, pos)[1..] == bs[1..];
    }
  }

  lemma OneTask(t: Task, x: Item)
    ensures TaskItems([t], x) == Items(t, x)
  {
    TaskItemsAppend([], t, x);
    assert [] + [t] == [t];
  }

  lemma WorkerKeepsItems(s: State, w: nat, x: Item)
    requires Inv(s)
    ensures Enabled(s, Fetch(w)) ==> Everywhere(Do(s, Fetch(w)), x) == Everywhere(s, x)
    ensures Enabled(s, Offer(w)) ==> Everywhere(Do(s, Offer(w)), x) == Everywhere(s, x)
  {
    if Enabled(s, Fetch(w)) {
      WorkerItemsUpdate(s.workers, w, [s.pool[0]], x);
      OneTask(s.pool[0], x);
    }
    if Enabled(s, Offer(w)) {
      var task := s.workers[w][0];
      WorkerItemsUpdate(s.workers, w, [], x);
      assert s.workers[w] == [task];
      OneTask(task, x);
      ItemsConcat(s.queued, task, x);
    }
  }

  /** Conservation: in every interleaving, unprocessed tiles, queued and running tasks, completed
      buckets, the current batch and what was returned (or deleted) hold the same items. */
  lemma StepKeepsItems(s: State, step: Step, x: Item)
    requires Inv(s) && Enabled(s, step)
    ensures Everywhere(Do(s, step), x) == Everywhere(s, x)
  {
    hide Inv;
    match step
    case Consumer => ConsumerKeepsItems(s, x);
    case Fetch(w) => WorkerKeepsItems(s, w, x);
    case Offer(w) => WorkerKeepsItems(s, w, x);
    case _ =>
  }

  lemma RequestKeepsCounts(s: State)
    requires CountsInv(s) && s.pc.Requesting?
    ensures CountsInv(Request(s, s.pc.posted, s.pc.after))
  {
    hide BusyCount, AllOf, Unread;
  }

  lemma OtherKeepsCounts(s: State)
    requires CountsInv(s) && Enabled(s, Consumer) && !s.pc.Requesting?
    ensures CountsInv(Consume(s))
  {
    hide BusyCount, AllOf, Unread, Request, Scan, Consume, AfterRequest;
    ScanOnlyReads(s);
    if s.pc == Taking || s.pc == TakingToDelete {
      TakeCounts(s);
    } else {
      OtherCounts(s);
    }
  }

  lemma TakeCounts(s: State)
    requires CountsInv(s) && (s.pc == Taking || s.pc == TakingToDelete) && Enabled(s, Consumer)
    ensures CountsInv(Consume(s))
  {
    hide BusyCount, AllOf, Unread;
  }

  lemma OtherCounts(s: State)
    requires CountsInv(s) && Enabled(s, Consumer) && !s.pc.Requesting? && s.pc != Taking && s.pc != TakingToDelete
    ensures CountsInv(Consume(s))
  {
    hide BusyCount, AllOf, Unread, Request, Scan;
    ScanOnlyReads(s);
  }
  lemma FullConcat(a: seq<Bucket>, b: seq<Bucket>)
    requires Full(a) && Full(b)
    ensures Full(a + b)
  {
  }

  lemma FullTail(a: seq<Bucket>)
    requires Full(a) && a != []
    ensures Full(a[1..]) && a[0] != []
  {
    assert a[0] in a;
    assert forall b :: b in a[1..] ==> b in a;
  }

  lemma RequestKeepsBuckets(s: State)
    requires BucketsInv(s) && s.pc.Requesting?
    ensures BucketsInv(Consume(s))
  {
    hide Full;
    if s.requests != [] {
      assert s.requests[0] in s.requests;
      assert forall t :: t in s.requests[1..] ==> t in s.requests;
    }
  }

  lemma ScanKeepsBuckets(s: State)
    requires BucketsInv(s) && s.pc == Scanning
    ensures BucketsInv(Consume(s))
  {
    if s.current != [] { FullTail(s.current); }
    assert Full([]);
    hide Full;
  }

  lemma OtherKeepsBuckets(s: State)
    requires BucketsInv(s) && Enabled(s, Consumer) && !s.pc.Requesting? && s.pc != Scanning
    ensures BucketsInv(Consume(s))
  {
    hide Full, AllOf, Unread, TasksFull;
    OtherKeepsTasks(s);
    if s.pc.RunningHere? { FullConcat(s.queued, s.pc.task); }
    NothingIsFull();
  }

  lemma NothingIsFull()
    ensures Full([])
  {
  }

  lemma OtherKeepsTasks(s: State)
    requires TasksFull(s) && Enabled(s, Consumer) && !s.pc.Requesting? && s.pc != Scanning
    ensures TasksFull(Consume(s))
  {
    hide Full, AllOf, Unread, AfterRequest;
  }

  lemma RequestKeepsFlow(s: State)
    requires CountsInv(s) && FlowInv(s) && s.pc.Requesting?
    ensures FlowInv(Request(s, s.pc.posted, s.pc.after))
  {
    hide BusyCount, AllOf, Unread;
  }

  lemma OtherKeepsFlow(s: State)
    requires CountsInv(s) && FlowInv(s) && Enabled(s, Consumer) && !s.pc.Requesting?
    ensures FlowInv(Consume(s))
  {
    ScanOnlyReads(s);
    hide BusyCount, AllOf, Unread, Request, Scan;
  }
  lemma DeletesOnlyInDestructor(s: State)
    requires Enabled(s, Consumer) && !s.pc.Requesting? && !s.pc.Scanning?
    ensures Consume(s).deleted == s.deleted || Destructing(s.pc)
    ensures Destructing(s.pc) <==> Destructing(Consume(s).pc)
  {
    hide AllOf, Unread, Request, Scan;
  }

  lemma ScanKeepsBatch(s: State)
    requires BatchInv(s) && Full(s.current) && s.pc.Scanning?
    ensures BatchInv(Scan(s))
  {
    if |s.current| > 1 {
      FullTail(s.current);
      FullTail(s.current[1..]);
    }
    hide Full;
  }

  lemma RequestKeepsBatch(s: State)
    requires BatchInv(s) && s.pc.Requesting?
    ensures BatchInv(Request(s, s.pc.posted, s.pc.after))
  {
  }

  lemma OtherKeepsBatch(s: State)
    requires BatchInv(s) && Enabled(s, Consumer) && !s.pc.Requesting? && !s.pc.Scanning?
    ensures BatchInv(Consume(s))
  {
    DeletesOnlyInDestructor(s);
    hide AllOf, Unread, Destructing, Request, Scan;
  }

  /** Calling `next` returns one more item; no other step of the consumer does. */
  lemma ConsumerReturns(s: State)
    requires Enabled(s, Consumer)
    ensures if s.pc.Scanning? && Consume(s).pc.Idle? then |Consume(s).returned| == |s.returned| + 1
            else Consume(s).returned == s.returned
  {
    hide AllOf, Unread;
  }

  lemma ConsumerKeepsInv(s: State)
    requires Inv(s) && Enabled(s, Consumer)
    ensures Inv(Consume(s))
  {
    if s.pc.Requesting? { RequestKeepsCounts(s); } else { OtherKeepsCounts(s); }
    if s.pc.Requesting? { RequestKeepsBuckets(s); } else if s.pc == Scanning { ScanKeepsBuckets(s); } else { OtherKeepsBuckets(s); }
    if s.pc.Requesting? { RequestKeepsFlow(s); } else { OtherKeepsFlow(s); }
    if s.pc.Requesting? { RequestKeepsBatch(s); } else if s.pc == Scanning { ScanKeepsBatch(s); } else { OtherKeepsBatch(s); }
    assert s.pc.Requesting? ==> Consume(s) == Request(s, s.pc.posted, s.pc.after);
    assert s.pc.Scanning? ==> Consume(s) == Scan(s);
    hide Consume, Request, Scan, CountsInv, BucketsInv, FlowInv, BatchInv;
  }

  lemma WorkerKeepsInv(s: State, w: nat)
    requires Inv(s)
    ensures Enabled(s, Fetch(w)) ==> Inv(Do(s, Fetch(w)))
    ensures Enabled(s, Offer(w)) ==> Inv(Do(s, Offer(w)))
  {
    if Enabled(s, Fetch(w)) {
      BusyCountUpdate(s.workers, w, [s.pool[0]]);
    }
    if Enabled(s, Offer(w)) {
      BusyCountUpdate(s.workers, w, []);
      assert s.workers[w][0] in s.workers[w];
    }
  }

  lemma StepKeepsInv(s: State, step: Step)
    requires Inv(s) && Enabled(s, step)
    ensures Inv(Do(s, step))
  {
    match step
    case Consumer => ConsumerKeepsInv(s);
    case Fetch(w) => WorkerKeepsInv(s, w);
    case Offer(w) => WorkerKeepsInv(s, w);
    case _ =>
  }

  // ---------------------------------------------------------------- whole runs

  /** A run: a state, and for each step taken the state it led to */
  predicate Run(states: seq<State>, steps: seq<Step>) {
    && |states| == |steps| + 1
    && forall i :: 0 <= i < |steps| ==> Enabled(states[i], steps[i]) && states[i + 1] == Do(states[i], steps[i])
  }

  lemma {:induction false} RunKeepsInv(states: seq<State>, steps: seq<Step>, k: nat, x: Item)
    requires Run(states, steps) && Init(states[0]) && k < |states|
    ensures Inv(states[k]) && Everywhere(states[k], x) == TileItems(states[0].requests, x)
  {
    if k == 0 {
      InitInv(states[0]);
    } else {
      RunKeepsInv(states, steps, k - 1, x);
      assert Enabled(states[k - 1], steps[k - 1]);
      StepKeepsInv(states[k - 1], steps[k - 1]);
      StepKeepsItems(states[k - 1], steps[k - 1], x);
    }
  }

  /** At no point of any run has an item been returned more often than its tiles hold it. */
  lemma ReturnedAtMostOnce(states: seq<State>, steps: seq<Step>, k: nat, x: Item)
    requires Run(states, steps) && Init(states[0]) && k < |states|
    ensures var tiles := states[0].requests;
            states[k].returned[x] + states[k].deleted[x] <=
            |set i: nat, b: nat, p: nat {:trigger tiles[i].task[b][p]} |
              i < |tiles| && tiles[i].loaded && b < |tiles[i].task| && p < |tiles[i].task[b]| && tiles[i].task[b][p] == x :: (i, b, p)|
  {
    TilesCount(states[0].requests, x);
    ReturnedAreHeld(states, steps, k, x);
  }

  lemma ReturnedAreHeld(states: seq<State>, steps: seq<Step>, k: nat, x: Item)
    requires Run(states, steps) && Init(states[0]) && k < |states|
    ensures states[k].returned[x] + states[k].deleted[x] <= TileItems(states[0].requests, x)
  {
    RunKeepsInv(states, steps, k, x);
    hide Inv, Rest, WorkerItems, TaskItems, TileItems, Items;
  }

  lemma {:induction false} IdleWorkersHoldNothing(ws: seq<seq<Task>>, x: Item)
    requires BusyCount(ws) == 0
    ensures WorkerItems(ws, x) == 0
  {
    if ws != [] {
      IdleWorkersHoldNothing(ws[1..], x);
    }
  }

  /** When `next` reports the end, every tile was requested and consumed and every item returned. */
  lemma FinishedReturnedAll(states: seq<State>, steps: seq<Step>, k: nat, x: Item)
    requires Run(states, steps) && Init(states[0]) && k < |states| && states[k].pc == Finished
    ensures states[k].requests == [] && states[k].pool == [] && BusyCount(states[k].workers) == 0
    ensures var tiles := states[0].requests;
            states[k].returned[x] ==
            |set i: nat, b: nat, p: nat {:trigger tiles[i].task[b][p]} |
              i < |tiles| && tiles[i].loaded && b < |tiles[i].task| && p < |tiles[i].task[b]| && tiles[i].task[b][p] == x :: (i, b, p)|
  {
    RunKeepsInv(states, steps, k, x);
    IdleWorkersHoldNothing(states[k].workers, x);
    TilesCount(states[0].requests, x);
  }

  /** What is returned comes from a loaded tile; and once `next` reports the end, whatever a loaded tile holds has been
      returned. */
  lemma ReturnedAreLoaded(states: seq<State>, steps: seq<Step>, k: nat, x: Item)
    requires Run(states, steps) && Init(states[0]) && k < |states|
    ensures x in states[k].returned ==> exists t, b :: t in states[0].requests && t.loaded && b in t.task && x in b
    ensures states[k].pc == Finished ==>
              forall t, b :: t in states[0].requests && t.loaded && b in t.task && x in b ==> x in states[k].returned
  {
    hide Inv, Run, Init, TileItems, Items;
    ReturnedAreHeld(states, steps, k, x);
    SomeTileHolds(states[0].requests, x);
    if states[k].pc == Finished {
      FinishedReturnedAll(states, steps, k, x);
      TilesCount(states[0].requests, x);
    }
  }

  /** Within a call of requestTiles */
  predicate InCall(pc: Pc) { pc.Requesting? || pc.JustPosted? || pc.RunningHere? || pc.Advancing? }

  /** A tile is being submitted: the consumer has posted it, or runs it itself. */
  predicate Submits(pc: Pc) { pc.JustPosted? || pc.RunningHere? }

  predicate PostedAny(pc: Pc) { Submits(pc) || (pc.Requesting? && pc.posted) || (pc.Advancing? && pc.posted) }

  /** The call of requestTiles that state `j` is in began with state `i`. */
  ghost predicate CallFrom(states: seq<State>, i: nat, j: nat) {
    && i <= j < |states| && (i > 0 ==> !InCall(states[i - 1].pc))
    && forall k {:trigger states[k]} :: i <= k <= j ==> InCall(states[k].pc)
  }

  ghost predicate SubmittedIn(states: seq<State>, i: nat, j: nat) { exists k {:trigger states[k]} :: i <= k <= j < |states| && Submits(states[k].pc) }

  lemma StepInCall(s: State, step: Step)
    requires Enabled(s, step) && InCall(Do(s, step).pc)
    ensures InCall(s.pc) ==> (PostedAny(Do(s, step).pc) <==> PostedAny(s.pc) || Submits(Do(s, step).pc))
    ensures !InCall(s.pc) ==> !PostedAny(Do(s, step).pc)
  {
    hide AllOf, Unread;
  }

  /** The flag tells whether the call has submitted a tile. */
  lemma {:induction false} CallBegins(states: seq<State>, steps: seq<Step>, j: nat) returns (i: nat)
    requires Run(states, steps) && Init(states[0]) && j < |states| && InCall(states[j].pc)
    ensures CallFrom(states, i, j) && (PostedAny(states[j].pc) <==> SubmittedIn(states, i, j))
  {
    if j == 0 {
      i := 0;
    } else {
      assert Enabled(states[j - 1], steps[j - 1]) && states[j] == Do(states[j - 1], steps[j - 1]);
      StepInCall(states[j - 1], steps[j - 1]);
      hide Init, Do, Enabled;
      if InCall(states[j - 1].pc) {
        i := CallBegins(states, steps, j - 1);
        assert Submits(states[j].pc) ==> SubmittedIn(states, i, j);
      } else {
        i := j;
      }
    }
  }

  /** In one call of requestTiles, the consumer runs a tile itself only if the pool is full and the call has submitted no
      other tile; and the call leaves tiles for later only if the pool is full and it has submitted one. */
  lemma CallSubmits(states: seq<State>, steps: seq<Step>, j: nat) returns (i: nat)
    requires Run(states, steps) && Init(states[0]) && j < |steps| && steps[j] == Consumer && InCall(states[j].pc)
    ensures CallFrom(states, i, j)
    ensures states[j].pc.Requesting? && states[j + 1].pc.RunningHere? ==>
              |states[j].pool| >= states[j].capacity && forall k :: i <= k <= j ==> !states[k].pc.JustPosted? && !states[k].pc.RunningHere?
    ensures !InCall(states[j + 1].pc) && states[j + 1].requests != [] ==>
              |states[j].pool| >= states[j].capacity && exists k :: i <= k <= j && (states[k].pc.JustPosted? || states[k].pc.RunningHere?)
  {
    i := CallBegins(states, steps, j);
    assert Enabled(states[j], steps[j]) && states[j + 1] == Do(states[j], steps[j]);
    hide Init, AllOf, Unread, Run;
  }

  /** The destructor returns only when no task that refers to the query is outstanding. */
  lemma DestroyedLeavesNothing(states: seq<State>, steps: seq<Step>, k: nat, w: nat)
    requires Run(states, steps) && Init(states[0]) && k < |states| && states[k].pc == Destroyed
    ensures states[k].pool == [] && !Busy(states[k], w) && states[k].queued == [] && states[k].pending == 0
  {
    RunKeepsInv(states, steps, k, 0);
    if w < |states[k].workers| { BusyIsCounted(states[k].workers, w); }
  }

  lemma {:induction false} BusyIsCounted(ws: seq<seq<Task>>, w: nat)
    requires w < |ws|
    ensures ws[w] != [] ==> BusyCount(ws) > 0
  {
    if w > 0 {
      BusyIsCounted(ws[1..], w - 1);
    }
  }

  /** A consumer blocked in `take` always leaves a worker that can go on. */
  lemma WaitingConsumerIsServed(s: State) returns (step: Step)
    requires Inv(s) && (s.pc == Taking || s.pc == TakingToDelete) && s.completed == 0
    ensures Enabled(s, step) && (step.Fetch? || step.Offer?)
  {
    if BusyCount(s.workers) > 0 {
      var w := SomeoneIsBusy(s.workers);
      step := Offer(w);
    } else {
      assert s.pool != [];
      BusyIsCounted(s.workers, 0);
      step := Fetch(0);
    }
  }

  /** No reachable state is stuck: there is always a step, unless the query is destroyed. */
  lemma NeverStuck(s: State) returns (step: Step)
    requires Inv(s) && s.pc != Destroyed
    ensures Enabled(s, step)
  {
    if s.pc == Idle || s.pc == Finished {
      step := CallDestroy;
    } else if (s.pc == Taking || s.pc == TakingToDelete) && s.completed == 0 {
      step := WaitingConsumerIsServed(s);
    } else {
      step := Consumer;
    }
  }

  // ---------------------------------------------------------------- termination

  /** Work still to be done for tiles: requesting, queueing, running, taking */
  function Work(s: State): int {
    4 * |s.requests| + 3 * |s.pool| + 2 * BusyCount(s.workers) + s.completed + if s.pc.RunningHere? then 2 else 0
  }

  /** How far the consumer is from its next interaction */
  function Distance(pc: Pc): (d: nat)
    ensures d <= 14
  {
    match pc
    case JustPosted(_) => 14
    case RunningHere(_, _) => 14
    case Advancing(_, _) => 13
    case Taken(_) => 13
    case Requesting(_, _) => 12
    case Delivering(_) => 11
    case Idle => 11
    case Scanning => 10
    case CheckPending => 9
    case Taking => 8
    case Finished => 7
    case Destroying => 6
    case TakingToDelete => 5
    case Destroyed => 0
  }

  lemma RequestWorks(s: State)
    requires CountsInv(s) && s.pc.Requesting?
    ensures 0 <= Work(Consume(s)) <= Work(s)
    ensures Work(Consume(s)) < Work(s) || Distance(Consume(s).pc) < Distance(s.pc)
  {
    hide BusyCount;
  }

  lemma OtherWorks(s: State)
    requires CountsInv(s) && Enabled(s, Consumer) && !s.pc.Requesting?
    ensures 0 <= Work(Consume(s)) <= Work(s)
    ensures Work(Consume(s)) < Work(s) ==> !s.pc.Scanning?
    ensures (s.pc.Scanning? && Consume(s).pc.Idle?) || Work(Consume(s)) < Work(s) || Distance(Consume(s).pc) < Distance(s.pc)
  {
    hide BusyCount, AllOf, Unread, Request, Scan, Consume, AfterRequest;
    ScanOnlyReads(s);
    if s.pc == Taking || s.pc == TakingToDelete || s.pc == Destroying {
      TakeWorks(s);
    } else {
      AdvanceWorks(s);
    }
  }

  lemma TakeWorks(s: State)
    requires CountsInv(s) && Enabled(s, Consumer) && (s.pc == Taking || s.pc == TakingToDelete || s.pc == Destroying)
    ensures 0 <= Work(Consume(s)) <= Work(s)
    ensures Work(Consume(s)) < Work(s) || Distance(Consume(s).pc) < Distance(s.pc)
  {
    hide BusyCount, AllOf, Unread;
  }

  lemma AdvanceWorks(s: State)
    requires CountsInv(s) && Enabled(s, Consumer) && !s.pc.Requesting?
    requires s.pc != Taking && s.pc != TakingToDelete && s.pc != Destroying
    ensures 0 <= Work(Consume(s)) <= Work(s)
    ensures Work(Consume(s)) < Work(s) ==> !s.pc.Scanning?
    ensures (s.pc.Scanning? && Consume(s).pc.Idle?) || Work(Consume(s)) < Work(s) || Distance(Consume(s).pc) < Distance(s.pc)
  {
    hide BusyCount, AllOf, Unread, Request, Scan;
    ScanOnlyReads(s);
  }

  /** Every step makes progress: it does work for a tile, returns an item, or brings the consumer on. */
  lemma StepProgresses(s: State, step: Step)
    requires Inv(s) && Enabled(s, step)
    ensures var s' := Do(s, step);
            && 0 <= Work(s') <= Work(s) && |s.returned| <= |s'.returned| <= |s.returned| + 1
            && (Work(s') < Work(s) || |s'.returned| > |s.returned| || Distance(s'.pc) < Distance(s.pc))
            && (Work(s') < Work(s) ==> |s'.returned| == |s.returned|)
  {
    match step
    case Fetch(w) => BusyCountUpdate(s.workers, w, [s.pool[0]]);
    case Offer(w) => BusyCountUpdate(s.workers, w, []);
    case Consumer => if s.pc.Requesting? { RequestWorks(s); } else { OtherWorks(s); } ConsumerReturns(s); hide Consume, Work, Distance, Inv;
    case _ => hide BusyCount, Items, Rest, Full;
  }

  /** The items of all tiles that will be submitted, as a multiset */
  function AllTileItems(ts: seq<Tile>): (all: multiset<Item>)
    ensures forall x :: all[x] == TileItems(ts, x)
  {
    if ts == [] then multiset{} else (if ts[0].loaded then AllOf(ts[0].task) else multiset{}) + AllTileItems(ts[1..])
  }

  lemma PartIsNoLarger(part: multiset<Item>, whole: multiset<Item>)
    requires forall x :: part[x] <= whole[x]
    ensures |part| <= |whole|
  {
    assert whole == part + (whole - part);
  }

  /** What is left to do when `total` items are to be returned: falls with every step */
  function Effort(s: State, total: nat): int { 15 * (Work(s) + total - |s.returned|) + Distance(s.pc) }

  lemma EffortFalls(s: State, step: Step, total: nat)
    requires Inv(s) && Enabled(s, step)
    ensures Effort(Do(s, step), total) < Effort(s, total)
  {
    hide Do, Work, Inv, Enabled, Distance;
    StepProgresses(s, step);
  }

  lemma {:induction false} EffortFallsAlongRuns(states: seq<State>, steps: seq<Step>, k: nat, total: nat)
    requires Run(states, steps) && Init(states[0]) && k < |states|
    ensures Effort(states[k], total) + k <= Effort(states[0], total)
  {
    if k > 0 {
      EffortFallsAlongRuns(states, steps, k - 1, total);
      RunKeepsInv(states, steps, k - 1, 0);
      assert Enabled(states[k - 1], steps[k - 1]);
      EffortFalls(states[k - 1], steps[k - 1], total);
    }
  }

  lemma EffortLeft(states: seq<State>, steps: seq<Step>, k: nat)
    requires Run(states, steps) && Init(states[0]) && k < |states|
    ensures Effort(states[k], |AllTileItems(states[0].requests)|) >= 0
  {
    var all := AllTileItems(states[0].requests);
    forall x ensures states[k].returned[x] <= all[x] {
      ReturnedAreHeld(states, steps, k, x);
    }
    PartIsNoLarger(states[k].returned, all);
    RunKeepsInv(states, steps, k, 0);
    hide AllTileItems, TileItems, BucketsInv, FlowInv, BatchInv, BusyCount;
  }

  /** No run is endless, whatever the interleaving: tiles and items bound the number of steps.
      With NeverStuck, every run that keeps stepping ends with the query destroyed. */
  lemma EveryRunIsFinite(states: seq<State>, steps: seq<Step>)
    requires Run(states, steps) && Init(states[0])
    ensures |steps| <= 15 * (4 * |states[0].requests| + |AllTileItems(states[0].requests)|) + 12
  {
    var total := |AllTileItems(states[0].requests)|;
    EffortFallsAlongRuns(states, steps, |steps|, total);
    EffortLeft(states, steps, |steps|);
    NobodyIsBusy(states[0].workers);
    hide AllTileItems, TileItems, Inv;
  }
}
