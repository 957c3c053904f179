/** The linked bucket lists of a query (include/geodesk/query/QueryResults.h, src/query/Query.cpp,
    src/query/TileQueryTask.cpp). A task builds a circular list, `offer` splices circular lists,
    `take` cuts the circle open, `next` walks the chain. Each operation is proved against lists of
    buckets, the values on which the step system of TileQueries works. */
module QueryResultLists {
  import opened TileQueries

  const BUCKET_SIZE: nat := 256

  class QueryResults {
    var next: QueryResults
    var items: seq<Item>

    constructor ()
      ensures items == [] && next == this
    {
      next, items := this, [];
    }

    predicate IsFull()
      reads this
    {
      |items| == BUCKET_SIZE
    }
  }

  /** The sentinel follows itself and passes for a full bucket. */
  ghost predicate Sentinel(empty: QueryResults)
    reads empty
  {
    empty.next == empty && empty.IsFull()
  }

  ghost predicate Distinct(nodes: seq<QueryResults>) {
    forall i, j :: 0 <= i < j < |nodes| ==> nodes[i] != nodes[j]
  }

  ghost function Links(nodes: seq<QueryResults>): (links: seq<QueryResults>)
    reads nodes`next
    ensures |links| == |nodes| && forall i :: 0 <= i < |nodes| ==> links[i] == nodes[i].next
  {
    if nodes == [] then [] else [nodes[0].next] + Links(nodes[1..])
  }

  /** `last` is the last node of a circle through `nodes`, or the sentinel if there are none. */
  ghost predicate Ring(last: QueryResults, nodes: seq<QueryResults>, links: seq<QueryResults>, empty: QueryResults)
  {
    && |links| == |nodes| && Distinct(nodes) && empty !in nodes
    && (if nodes == [] then last == empty else last == nodes[|nodes| - 1] && links[|nodes| - 1] == nodes[0])
    && forall i :: 0 <= i < |nodes| - 1 ==> links[i] == nodes[i + 1]
  }

  /** `first` starts a chain through `nodes` that ends at the sentinel. */
  ghost predicate Chain(first: QueryResults, nodes: seq<QueryResults>, links: seq<QueryResults>, empty: QueryResults)
  {
    && |links| == |nodes| && Distinct(nodes) && empty !in nodes
    && (if nodes == [] then first == empty else first == nodes[0] && links[|nodes| - 1] == empty)
    && forall i :: 0 <= i < |nodes| - 1 ==> links[i] == nodes[i + 1]
  }

  lemma DistinctConcat(a: seq<QueryResults>, b: seq<QueryResults>)
    requires Distinct(a) && Distinct(b) && forall n <- b :: n !in a
    ensures Distinct(a + b)
  {
    forall i, j | 0 <= i < j < |a + b| ensures (a + b)[i] != (a + b)[j] {
      assert |a| <= j ==> (a + b)[j] in b;
    }
  }

  ghost function Buckets(nodes: seq<QueryResults>): (bs: seq<Bucket>)
    reads nodes`items
    ensures |bs| == |nodes| && forall i :: 0 <= i < |nodes| ==> bs[i] == nodes[i].items
  {
    if nodes == [] then [] else [nodes[0].items] + Buckets(nodes[1..])
  }

  /** All items of a list of buckets, in order */
  function Flat(bs: seq<Bucket>): seq<Item> {
    if bs == [] then [] else bs[0] + Flat(bs[1..])
  }

  lemma {:induction false} FlatConcat(a: seq<Bucket>, b: seq<Bucket>)
    ensures Flat(a + b) == Flat(a) + Flat(b)
  {
    if a == [] {
      assert a + b == b;
    } else {
      assert (a + b)[1..] == a[1..] + b;
      FlatConcat(a[1..], b);
    }
  }

  /** The buckets after one more item: in the last bucket, or in a new one when that is full */
  function Added(bs: seq<Bucket>, item: Item): seq<Bucket> {
    if bs == [] || |bs[|bs| - 1]| == BUCKET_SIZE then bs + [[item]]
    else bs[|bs| - 1 := bs[|bs| - 1] + [item]]
  }

  /** Buckets as a task fills them: all full but the last, which is not empty */
  predicate Packed(bs: seq<Bucket>) {
    forall i :: 0 <= i < |bs| ==> 0 < |bs[i]| <= BUCKET_SIZE && (i < |bs| - 1 ==> |bs[i]| == BUCKET_SIZE)
  }

  /** Adding an item appends it to the items and keeps every bucket but the last full. */
  lemma AddedAppends(bs: seq<Bucket>, item: Item)
    requires Packed(bs)
    ensures Packed(Added(bs, item)) && Full(Added(bs, item))
    ensures Flat(Added(bs, item)) == Flat(bs) + [item]
  {
    var n := |bs|;
    assert Flat([[item]]) == [item];
    if n == 0 || |bs[n - 1]| == BUCKET_SIZE {
      FlatConcat(bs, [[item]]);
    } else {
      var last := bs[n - 1];
      assert bs == bs[..n - 1] + [last] && Added(bs, item) == bs[..n - 1] + [last + [item]];
      FlatConcat(bs[..n - 1], [last]);
      FlatConcat(bs[..n - 1], [last + [item]]);
      assert Flat([last]) == last && Flat([last + [item]]) == last + [item];
    }
  }

  /** Running one tile's task: its results, a circular list */
  class TileQueryTask {
    const empty: QueryResults
    var results: QueryResults
    ghost var nodes: seq<QueryResults>

    ghost predicate Valid()
      reads this, nodes, empty
    {
      Sentinel(empty) && Ring(results, nodes, Links(nodes), empty)
    }

    constructor (empty: QueryResults)
      requires Sentinel(empty)
      ensures Valid() && nodes == [] && this.empty == empty
    {
      this.empty, results, nodes := empty, empty, [];
    }

    /** Places a new bucket at the end of the circle. */
    method AddBucket()
      requires Valid()
      modifies this`results, this`nodes, nodes
      ensures Valid() && fresh(results) && results.items == []
      ensures nodes == old(nodes) + [results]
      ensures forall n <- old(nodes) :: n.items == old(n.items)
    {
      hide Ring, Links, Distinct;
      RingLast(results, nodes, Links(nodes), empty);
      ghost var links := Links(nodes);
      var next := new QueryResults();
      RingGrows(results, nodes, links, empty, next);
      var last := if results == empty then next else results;
      next.next := last.next;
      last.next := next;
      results := next;
      nodes := nodes + [next];
      assert Links(nodes) == Grown(links, next);
    }

    /** Writes an item behind those in the last bucket. */
    method PutItem(item: Item)
      requires Valid() && nodes != []
      modifies results
      ensures Valid()
      ensures forall n <- nodes :: n.items == if n == results then old(n.items) + [item] else old(n.items)
    {
      results.items := results.items + [item];
    }

    method AddResult(item: Item)
      requires Valid()
      modifies this`results, this`nodes, nodes
      ensures Valid()
      ensures Buckets(nodes) == Added(old(Buckets(nodes)), item)
      ensures forall n <- nodes :: n in old(nodes) || fresh(n)
    {
      hide Ring, Buckets, Links;
      RingLast(results, nodes, Links(nodes), empty);
      ghost var before := Buckets(nodes);
      if results.IsFull() {
        AddBucket();
      } else {
        assert nodes != [];
      }
      RingLast(results, nodes, Links(nodes), empty);
      hide TileQueryTask.Valid;
      ghost var grown := Buckets(nodes);
      assert grown == if before == [] || |before[|before| - 1]| == BUCKET_SIZE then before + [[]] else before;
      PutItem(item);
      assert Buckets(nodes) == grown[|grown| - 1 := grown[|grown| - 1] + [item]];
      var none: Bucket := [];
      assert none + [item] == [item] && (before + [none])[|before| := [item]] == before + [[item]];
    }
  }

  function Cut(links: seq<QueryResults>, empty: QueryResults): seq<QueryResults> {
    if links == [] then [] else links[|links| - 1 := empty]
  }

  lemma CutOpen(last: QueryResults, nodes: seq<QueryResults>, links: seq<QueryResults>, empty: QueryResults)
    requires Ring(last, nodes, links, empty)
    ensures Chain(if nodes == [] then empty else nodes[0], nodes, Cut(links, empty), empty)
    ensures if nodes == [] then last == empty else last == nodes[|nodes| - 1] && links[|nodes| - 1] == nodes[0]
    ensures Distinct(nodes) && empty !in nodes && Ring(empty, [], [], empty)
  {
  }

  function Grown(links: seq<QueryResults>, next: QueryResults): seq<QueryResults> {
    if links == [] then [next] else links[|links| - 1 := next] + [links[|links| - 1]]
  }

  lemma RingGrows(last: QueryResults, nodes: seq<QueryResults>, links: seq<QueryResults>, empty: QueryResults, next: QueryResults)
    requires Ring(last, nodes, links, empty) && next !in nodes && next != empty
    ensures Ring(next, nodes + [next], Grown(links, next), empty)
    ensures forall i, j :: 0 <= i < j < |nodes| ==> nodes[i] != nodes[j]
  {
  }

  lemma ChainAvoids(first: QueryResults, nodes: seq<QueryResults>, links: seq<QueryResults>, empty: QueryResults)
    requires Chain(first, nodes, links, empty)
    ensures empty !in nodes && (if nodes == [] then first == empty else first == nodes[0])
  {
  }

  lemma RingLast(last: QueryResults, nodes: seq<QueryResults>, links: seq<QueryResults>, empty: QueryResults)
    requires Ring(last, nodes, links, empty)
    ensures Distinct(nodes) && empty !in nodes
    ensures if nodes == [] then last == empty else last == nodes[|nodes| - 1]
  {
  }

  function Joined(a: seq<QueryResults>, b: seq<QueryResults>): seq<QueryResults>
    requires a != [] && b != []
  {
    a[|a| - 1 := b[|b| - 1]] + b[|b| - 1 := a[|a| - 1]]
  }

  /** Two circles whose last nodes exchange their links are one circle. */
  lemma RingsJoin(last0: QueryResults, nodes0: seq<QueryResults>, links0: seq<QueryResults>,
                  last1: QueryResults, nodes1: seq<QueryResults>, links1: seq<QueryResults>, empty: QueryResults)
    requires Ring(last0, nodes0, links0, empty) && Ring(last1, nodes1, links1, empty)
    requires nodes0 != [] && nodes1 != [] && forall n <- nodes1 :: n !in nodes0
    ensures Ring(last1, nodes0 + nodes1, Joined(links0, links1), empty)
    ensures last0 == nodes0[|nodes0| - 1] && last1 == nodes1[|nodes1| - 1]
    ensures forall i, j :: 0 <= i < j < |nodes0 + nodes1| ==> (nodes0 + nodes1)[i] != (nodes0 + nodes1)[j]
  {
    DistinctConcat(nodes0, nodes1);
  }

  /** Two circles become one: the second's nodes follow the first's, and its last node is the last. */
  method Splice(queued: QueryResults, ghost queuedNodes: seq<QueryResults>, res: QueryResults, ghost nodes: seq<QueryResults>,
                ghost empty: QueryResults)
    requires Ring(queued, queuedNodes, Links(queuedNodes), empty) && Ring(res, nodes, Links(nodes), empty)
    requires queuedNodes != [] && nodes != [] && forall n <- nodes :: n !in queuedNodes
    modifies queued`next, res`next
    ensures Ring(res, queuedNodes + nodes, Links(queuedNodes + nodes), empty)
    ensures Buckets(queuedNodes) == old(Buckets(queuedNodes)) && Buckets(nodes) == old(Buckets(nodes))
  {
    hide Links, Buckets, Ring, Distinct;
    RingsJoin(queued, queuedNodes, Links(queuedNodes), res, nodes, Links(nodes), empty);
    ghost var joined := Joined(Links(queuedNodes), Links(nodes));
    var first := queued.next;
    queued.next := res.next;
    res.next := first;
    assert Links(queuedNodes + nodes) == joined;
  }

  lemma BucketsConcat(a: seq<QueryResults>, b: seq<QueryResults>)
    ensures Buckets(a + b) == Buckets(a) + Buckets(b)
  {
  }

  lemma NoBuckets()
    ensures Buckets([]) == []
  {
  }

  /** Splicing, when either circle may be missing */
  method Join(queued: QueryResults, ghost queuedNodes: seq<QueryResults>, res: QueryResults, ghost nodes: seq<QueryResults>,
              empty: QueryResults) returns (last: QueryResults)
    requires Ring(queued, queuedNodes, Links(queuedNodes), empty) && Ring(res, nodes, Links(nodes), empty)
    requires forall n <- nodes :: n !in queuedNodes
    modifies queuedNodes`next, nodes`next
    ensures Ring(last, queuedNodes + nodes, Links(queuedNodes + nodes), empty)
    ensures Buckets(queuedNodes + nodes) == old(Buckets(queuedNodes)) + old(Buckets(nodes))
  {
    hide Links, Ring, Buckets;
    RingLast(queued, queuedNodes, Links(queuedNodes), empty);
    RingLast(res, nodes, Links(nodes), empty);
    if queued == empty {
      last := res;
      NoBuckets();
      assert queuedNodes == [] && queuedNodes + nodes == nodes;
    } else if res != empty {
      Splice(queued, queuedNodes, res, nodes, empty);
      BucketsConcat(queuedNodes, nodes);
      last := res;
    } else {
      last := queued;
      NoBuckets();
      assert nodes == [] && queuedNodes + nodes == queuedNodes;
    }
  }

  lemma NoNodes(empty: QueryResults)
    ensures Ring(empty, [], Links([]), empty)
  {
  }

  /** The circle becomes a chain that ends at the sentinel. */
  method Open(res: QueryResults, ghost nodes: seq<QueryResults>, empty: QueryResults) returns (first: QueryResults)
    requires Ring(res, nodes, Links(nodes), empty) && Sentinel(empty)
    modifies res`next
    ensures Chain(first, nodes, Links(nodes), empty) && Sentinel(empty)
    ensures Buckets(nodes) == old(Buckets(nodes))
  {
    hide Ring, Chain, Links, Distinct;
    CutOpen(res, nodes, Links(nodes), empty);
    first := res.next;
    res.next := empty;
    assert Links(nodes) == old(Cut(Links(nodes), empty));
  }

  /** The parts of a query that hold results */
  class Query {
    const empty: QueryResults
    var queuedResults: QueryResults
    var completedTiles: int
    var pendingTiles: int
    var currentResults: QueryResults
    var currentPos: nat
    ghost var queuedNodes: seq<QueryResults>
    ghost var currentNodes: seq<QueryResults>

    ghost predicate Valid()
      reads this, queuedNodes, currentNodes, empty
    {
      && Sentinel(empty)
      && Ring(queuedResults, queuedNodes, Links(queuedNodes), empty)
      && Chain(currentResults, currentNodes, Links(currentNodes), empty)
      && forall n <- queuedNodes :: n !in currentNodes
    }

    constructor (empty: QueryResults)
      requires Sentinel(empty)
      ensures Valid() && this.empty == empty && queuedNodes == [] && currentNodes == []
      ensures completedTiles == 0 && pendingTiles == 0
    {
      this.empty, queuedResults, currentResults := empty, empty, empty;
      completedTiles, pendingTiles, currentPos := 0, 0, BUCKET_SIZE;
      queuedNodes, currentNodes := [], [];
    }

    /** A task hands in its circle of buckets: they follow the buckets already queued. */
    method Offer(res: QueryResults, ghost nodes: seq<QueryResults>)
      requires Valid() && Ring(res, nodes, Links(nodes), empty)
      requires forall n <- nodes :: n !in queuedNodes && n !in currentNodes
      modifies this`queuedResults, this`completedTiles, this`queuedNodes, queuedNodes, nodes
      ensures Valid() && completedTiles == old(completedTiles) + 1
      ensures queuedNodes == old(queuedNodes) + nodes
      ensures Buckets(queuedNodes) == old(Buckets(queuedNodes)) + old(Buckets(nodes))
    {
      hide Links, Ring, Chain, Buckets, Distinct, Sentinel;
      RingLast(queuedResults, queuedNodes, Links(queuedNodes), empty);
      RingLast(res, nodes, Links(nodes), empty);
      ChainAvoids(currentResults, currentNodes, Links(currentNodes), empty);
      assert forall i :: 0 <= i < |currentNodes| ==> currentNodes[i] in currentNodes;
      queuedResults := Join(queuedResults, queuedNodes, res, nodes, empty);
      assert Links(currentNodes) == old(Links(currentNodes));
      queuedNodes := queuedNodes + nodes;
      completedTiles := completedTiles + 1;
    }

    /** Everything queued becomes a batch: the circle, cut open after its last node. */
    method Take() returns (first: QueryResults, ghost batch: seq<QueryResults>)
      requires Valid() && completedTiles > 0
      modifies this`queuedResults, this`completedTiles, this`pendingTiles, this`queuedNodes, queuedNodes`next, empty`next
      ensures Valid() && queuedNodes == [] && batch == old(queuedNodes)
      ensures Chain(first, batch, Links(batch), empty)
      ensures Buckets(batch) == old(Buckets(queuedNodes))
      ensures completedTiles == 0 && pendingTiles == old(pendingTiles) - old(completedTiles)
    {
      hide Links, Buckets, Ring, Chain, Distinct, Sentinel;
      CutOpen(queuedResults, queuedNodes, Links(queuedNodes), empty);
      ChainAvoids(currentResults, currentNodes, Links(currentNodes), empty);
      first := Open(queuedResults, queuedNodes, empty);
      assert forall i :: 0 <= i < |currentNodes| ==> currentNodes[i] in currentNodes;
      assert Links(currentNodes) == old(Links(currentNodes));
      batch := queuedNodes;
      NoNodes(empty);
      queuedResults, queuedNodes := empty, [];
      pendingTiles := pendingTiles - completedTiles;
      completedTiles := 0;
    }

    /** The items of the current batch that were not returned yet, in order */
    ghost function Remaining(): seq<Item>
      reads this, currentNodes
    {
      Flat(Unread(Buckets(currentNodes), currentPos))
    }

    /** The position is in the current bucket or at its end; the sentinel counts as used up. */
    ghost predicate Positioned()
      reads this, currentNodes
    {
      && Full(Buckets(currentNodes))
      && if currentNodes == [] then currentPos == BUCKET_SIZE else currentPos <= |currentNodes[0].items|
    }

    /** A batch that was taken becomes the current one, which must be used up. */
    method StartBatch(first: QueryResults, ghost batch: seq<QueryResults>)
      requires Valid() && currentNodes == [] && batch != [] && Full(Buckets(batch))
      requires Chain(first, batch, Links(batch), empty) && forall n <- queuedNodes :: n !in batch
      modifies this`currentResults, this`currentPos, this`currentNodes
      ensures Valid() && Positioned() && currentNodes == batch && Remaining() == Flat(Buckets(batch))
    {
      hide Ring, Links, Chain;
      currentResults, currentPos, currentNodes := first, 0, batch;
      ghost var bs := Buckets(batch);
      assert Unread(bs, 0) == bs by { assert bs[0][0..] == bs[0]; }
    }

    ghost predicate AtEnd()
      reads this, currentResults
    {
      currentPos == |currentResults.items|
    }

    /** The batch moves on to its next bucket, if it has one. */
    method NextBucket()
      requires Valid() && Positioned() && AtEnd()
      modifies this`currentResults, this`currentPos, this`currentNodes
      ensures Valid() && old(Remaining()) == Remaining()
      ensures if currentNodes == [] then currentResults == empty && Remaining() == [] else Positioned() && !AtEnd()
    {
      hide Ring, Links, Chain, Distinct, Buckets, Flat, Unread;
      ChainHead(currentResults, currentNodes, Links(currentNodes), empty);
      TailLinks(currentNodes);
      if currentNodes != [] { FullTail(Buckets(currentNodes)); }
      UnreadHead(Buckets(currentNodes), currentPos);
      var next := currentResults.next;
      currentPos := 0;
      currentResults := next;
      currentNodes := Tail(currentNodes);
      ChainHead(currentResults, currentNodes, Links(currentNodes), empty);
      if currentNodes != [] { FullTail(Buckets(currentNodes)); }
      UnreadHead(Buckets(currentNodes), currentPos);
    }

    /** `next`, as far as the batch at hand goes: its items come one by one, in order. */
    method NextInBatch() returns (found: bool, item: Item)
      requires Valid() && Positioned()
      modifies this`currentResults, this`currentPos, this`currentNodes
      ensures Valid()
      ensures found ==> Positioned() && old(Remaining()) == [item] + Remaining()
      ensures !found ==> old(Remaining()) == [] && currentNodes == [] && currentResults == empty
    {
      hide Ring, Links, Chain, Distinct, Buckets, Flat, Unread;
      if currentPos == |currentResults.items| {
        NextBucket();
        if currentResults == empty {
          ChainHead(currentResults, currentNodes, Links(currentNodes), empty);
          return false, 0;
        }
      }
      ChainHead(currentResults, currentNodes, Links(currentNodes), empty);
      UnreadHead(Buckets(currentNodes), currentPos);
      found, item := true, currentResults.items[currentPos];
      currentPos := currentPos + 1;
    }
  }

  ghost function Tail(nodes: seq<QueryResults>): seq<QueryResults> { if nodes == [] then [] else nodes[1..] }

  lemma TailLinks(nodes: seq<QueryResults>)
    ensures nodes != [] ==> Links(Tail(nodes)) == Links(nodes)[1..] && Buckets(Tail(nodes)) == Buckets(nodes)[1..]
    ensures forall n <- Tail(nodes) :: n in nodes
  {
  }

  lemma ChainHead(first: QueryResults, nodes: seq<QueryResults>, links: seq<QueryResults>, empty: QueryResults)
    requires Chain(first, nodes, links, empty)
    ensures if nodes == [] then first == empty else first == nodes[0] && first != empty
    ensures nodes != [] ==> Chain(links[0], nodes[1..], links[1..], empty)
  {
  }

  /** What is unread: nothing, an item of the first bucket and the rest, or what the later buckets hold */
  lemma UnreadHead(bs: seq<Bucket>, pos: nat)
    requires bs != [] ==> pos <= |bs[0]|
    ensures bs == [] ==> Flat(Unread(bs, pos)) == []
    ensures bs != [] && pos < |bs[0]| ==> Flat(Unread(bs, pos)) == [bs[0][pos]] + Flat(Unread(bs, pos + 1))
    ensures bs != [] && pos == |bs[0]| ==> Flat(Unread(bs, pos)) == Flat(Unread(bs[1..], 0))
  {
    if bs != [] {
      var rest := bs[1..];
      assert Flat(Unread(bs, pos)) == bs[0][pos..] + Flat(rest) by { assert Unread(bs, pos)[1..] == rest; }
      if pos < |bs[0]| {
        assert bs[0][pos..] == [bs[0][pos]] + bs[0][pos + 1..];
        assert Unread(bs, pos + 1)[1..] == rest;
      } else {
        assert bs[0][pos..] == [];
        assert rest != [] ==> rest[0][0..] == rest[0];
        assert Unread(rest, 0) == rest;
      }
    }
  }

  /** The step system's `Scan` returns the batch's items in the same order. */
  lemma ScanReturnsInOrder(s: State)
    requires BatchInv(s) && Full(s.current)
    ensures var s', left := Scan(s), Flat(Unread(s.current, s.currentPos));
            && (s'.pc == Idle ==> left != [] && s'.returned == s.returned + multiset{left[0]}
                                  && left[1..] == Flat(Unread(s'.current, s'.currentPos)))
            && (s'.pc == CheckPending ==> left == [] && s'.current == [])
  {
    UnreadHead(s.current, s.currentPos);
    if s.current != [] {
      FullTail(s.current);
      UnreadHead(s.current[1..], 0);
      if |s.current| > 1 {
        FullTail(s.current[1..]);
        UnreadHead(s.current[1..], 1);
      }
    }
  }
}
