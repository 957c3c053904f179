/** A feature that reaches into several tiles has a copy in each. The leaf search
    (src/query/TileQueryTask.cpp, searchLeaf) and the flags of the walk (src/query/TileIndexWalker.cpp,
    lines 162-166) see to it that a query returns it once. */
module TileTwins {
  import opened Quotients
  import opened TileIndexes
  import opened TileTrees
  import opened TileScans

  /** An entry of a spatial index's leaf. `north` and `west` say that a copy lies in the tile above or to the left. */
  datatype Feature = Feature(bounds: Box, north: bool, west: bool, last: bool)

  predicate BoxesMeet(a: Box, b: Box) { a.minX <= b.maxX && a.minY <= b.maxY && a.maxX >= b.minX && a.maxY >= b.minY }

  /** Boxes that are not empty meet exactly if some point lies in both. */
  lemma BoxesMeetAtPoint(a: Box, b: Box)
    requires a.minX <= a.maxX && a.minY <= a.maxY && b.minX <= b.maxX && b.minY <= b.maxY
    ensures BoxesMeet(a, b) <==> exists x, y :: PointIn(a, x, y) && PointIn(b, x, y)
  {
    if BoxesMeet(a, b) {
      var x, y := if a.minX < b.minX then b.minX else a.minX, if a.minY < b.minY then b.minY else a.minY;
      assert PointIn(a, x, y) && PointIn(b, x, y);
    }
  }

  /** The tests of the leaf search that depend on the tile: the flags, and the boxes */
  predicate Passes(f: Feature, north: bool, west: bool, box: Box) {
    !(f.north && north) && !(f.west && west) && BoxesMeet(f.bounds, box)
  }

  /** No entry before `p` is marked as the last. */
  ghost predicate GoesTo(leaf: seq<Feature>, p: nat) { p < |leaf| && forall j :: 0 <= j < p ==> !leaf[j].last }

  /** The results are, in order, the first `p` entries that pass the tests and are accepted. */
  ghost predicate Found(results: seq<nat>, leaf: seq<Feature>, p: nat, north: bool, west: bool, box: Box, accepts: Feature -> bool)
    requires p <= |leaf|
  {
    && (forall i: nat :: i in results <==> i < p && Passes(leaf[i], north, west, box) && accepts(leaf[i]))
    && forall a, b :: 0 <= a < b < |results| ==> results[a] < results[b]
  }

  lemma FoundOneMore(results: seq<nat>, leaf: seq<Feature>, p: nat, north: bool, west: bool, box: Box, accepts: Feature -> bool)
    requires p < |leaf| && Found(results, leaf, p, north, west, box, accepts)
    ensures var more := if Passes(leaf[p], north, west, box) && accepts(leaf[p]) then results + [p] else results;
            Found(more, leaf, p + 1, north, west, box, accepts)
  {
    hide Passes;
    if Passes(leaf[p], north, west, box) && accepts(leaf[p]) {
      var more := results + [p];
      forall i: nat ensures i in more <==> i < p + 1 && Passes(leaf[i], north, west, box) && accepts(leaf[i]) {
        assert i in more <==> i in results || i == p;
      }
      forall a, b | 0 <= a < b < |more| ensures more[a] < more[b] {
        assert results[a] in results;
      }
    }
  }

  lemma GoesOn(leaf: seq<Feature>, p: nat)
    requires GoesTo(leaf, p) && !leaf[p].last && exists k: nat :: k < |leaf| && leaf[k].last
    ensures GoesTo(leaf, p + 1)
  {
  }

  lemma FoundMeans(results: seq<nat>, leaf: seq<Feature>, k: nat, north: bool, west: bool, box: Box, accepts: Feature -> bool)
    requires GoesTo(leaf, k) && Found(results, leaf, k + 1, north, west, box, accepts)
    ensures forall j :: 0 <= j < k ==> !leaf[j].last
    ensures forall i: nat :: i in results <==>
              i <= k && !(leaf[i].north && north) && !(leaf[i].west && west) && BoxesMeet(leaf[i].bounds, box) && accepts(leaf[i])
    ensures forall a, b :: 0 <= a < b < |results| ==> results[a] < results[b]
  {
  }

  /** Goes through a leaf up to the entry that is marked as the last, and keeps what passes the tests and is accepted. */
  method SearchLeaf(leaf: seq<Feature>, north: bool, west: bool, box: Box, accepts: Feature -> bool) returns (results: seq<nat>)
    requires exists k: nat :: k < |leaf| && leaf[k].last
    ensures exists k: nat :: GoesTo(leaf, k) && leaf[k].last && Found(results, leaf, k + 1, north, west, box, accepts)
  {
    results := [];
    var p := 0;
    while true
      invariant 0 <= p && GoesTo(leaf, p) && Found(results, leaf, p, north, west, box, accepts)
      decreases |leaf| - p
    {
      hide Found, GoesTo;
      var f := leaf[p];
      FoundOneMore(results, leaf, p, north, west, box, accepts);
      if !(f.north && north) && !(f.west && west) {
        if !(f.bounds.minX > box.maxX || f.bounds.minY > box.maxY || f.bounds.maxX < box.minX || f.bounds.maxY < box.minY) {
          if accepts(f) {
            results := results + [p];
          }
        }
      }
      if f.last {
        break;
      }
      GoesOn(leaf, p);
      p := p + 1;
    }
  }

  // ---------------------------------------------------------------- twins

  /** A rectangle of tiles of one zoom level */
  datatype Block = Block(zoom: nat, firstCol: int, lastCol: int, firstRow: int, lastRow: int)

  predicate InBlock(b: Block, t: Tile) { t.zoom == b.zoom && b.firstCol <= t.col <= b.lastCol && b.firstRow <= t.row <= b.lastRow }

  /** The block has every tile that the feature's bounds meet. */
  predicate Covers(b: Block, bounds: Box) {
    && b.firstCol <= Column(bounds.minX, b.zoom) && Column(bounds.maxX, b.zoom) <= b.lastCol
    && b.firstRow <= Row(bounds.maxY, b.zoom) && Row(bounds.minY, b.zoom) <= b.lastRow
  }

  /** The copy in tile `t`: flagged exactly if there is a copy above, or to the left */
  function CopyIn(b: Block, bounds: Box, t: Tile): Feature {
    Feature(bounds, t.row > b.firstRow, t.col > b.firstCol, false)
  }

  /** The walk's flags at a tile */
  predicate NorthFlag(box: Box, t: Tile) { box.maxY > TopY(t) }

  predicate WestFlag(box: Box, t: Tile) { box.minX < LeftX(t) }

  /** The tile is visited, has a copy, and the copy passes. */
  predicate Returned(b: Block, bounds: Box, box: Box, t: Tile) {
    InBlock(b, t) && Meets(box, t) && Passes(CopyIn(b, bounds, t), NorthFlag(box, t), WestFlag(box, t), box)
  }

  /** The query box reaches beyond a tile exactly if it starts in an earlier column or row. */
  lemma FlagsByNumbers(box: Box, t: Tile)
    ensures WestFlag(box, t) <==> Column(box.minX, t.zoom) < t.col
    ensures NorthFlag(box, t) <==> Row(box.maxY, t.zoom) < t.row
  {
    QuotientAtLeast(box.minX + HALF, Extent(t.zoom), t.col);
    QuotientAtLeast(HALF - 1 - box.maxY, Extent(t.zoom), t.row);
  }

  /** The tile from which the feature is returned: the first of its tiles that the query visits */
  function Chosen(b: Block, box: Box): Tile {
    Tile(Max(b.firstCol, Column(box.minX, b.zoom)), Max(b.firstRow, Row(box.maxY, b.zoom)), b.zoom)
  }

  lemma NumbersMeet(low: int, high: int, low': int, high': int, e: nat)
    requires e > 0 && low <= high' && low' <= high && low <= high && low' <= high'
    ensures low / e <= high' / e && low' / e <= high / e && low / e <= high / e && low' / e <= high' / e
  {
    QuotientAtLeast(high', e, low / e);
    QuotientAtLeast(high, e, low' / e);
    QuotientAtLeast(high, e, low / e);
    QuotientAtLeast(high', e, low' / e);
    QuotientAtLeast(low, e, low / e);
    QuotientAtLeast(low', e, low' / e);
  }

  /** A feature is returned from exactly one of its tiles if its bounds meet the query box, and from none otherwise. */
  lemma ReturnedFromOneTile(b: Block, bounds: Box, box: Box, t: Tile)
    requires Simple(box) && Simple(bounds) && Covers(b, bounds)
    ensures Returned(b, bounds, box, t) <==> (exists x, y :: PointIn(bounds, x, y) && PointIn(box, x, y)) && t == Chosen(b, box)
  {
    hide Simple, Covers, Returned, BoxesMeet, Chosen, PointIn;
    ReturnedFromChosen(b, bounds, box, t);
    SimpleMeetAtPoint(bounds, box);
  }

  lemma SimpleMeetAtPoint(bounds: Box, box: Box)
    requires Simple(box) && Simple(bounds)
    ensures BoxesMeet(bounds, box) <==> exists x, y :: PointIn(bounds, x, y) && PointIn(box, x, y)
  {
    BoxesMeetAtPoint(bounds, box);
  }

  lemma ReturnedFromChosen(b: Block, bounds: Box, box: Box, t: Tile)
    requires Simple(box) && Simple(bounds) && Covers(b, bounds)
    ensures Returned(b, bounds, box, t) <==> BoxesMeet(bounds, box) && t == Chosen(b, box)
  {
    hide Pow2, Meets, NorthFlag, WestFlag, TopY, LeftX;
    if t.zoom == b.zoom {
      FlagsByNumbers(box, t);
      MeetsByNumbers(box, t);
      if BoxesMeet(bounds, box) {
        NumbersMeet(bounds.minX + HALF, bounds.maxX + HALF, box.minX + HALF, box.maxX + HALF, Extent(b.zoom));
        NumbersMeet(HALF - 1 - bounds.maxY, HALF - 1 - bounds.minY, HALF - 1 - box.maxY, HALF - 1 - box.minY, Extent(b.zoom));
      }
    }
  }

  lemma {:induction false} MeetingOnce(vs: seq<Visit>, box: Box)
    requires Once(vs)
    ensures Once(Meeting(vs, box))
  {
    if vs != [] {
      MeetingOnce(vs[1..], box);
      MeetingIsSelection(vs[1..], box);
      hide Meets;
      forall v | v in Meeting(vs[1..], box) ensures v.tile != vs[0].tile {
        var j :| 0 <= j < |vs[1..]| && vs[1..][j] == v;
        assert vs[j + 1] == v;
      }
      OnceConcat([vs[0]], Meeting(vs[1..], box));
    }
  }

  /** Over the whole walk: of the tiles that are visited, exactly one returns the feature, or none does. */
  lemma ReturnedOnceByWalk(ix: Index, box: Box, b: Block, bounds: Box)
    requires Record(ix, 0, 1) && ValidSteps(ix) && Simple(box) && Simple(bounds) && Covers(b, bounds)
    requires forall t :: InBlock(b, t) ==> exists v :: v in AllTiles(ix) && v.tile == t
    ensures (exists x, y :: PointIn(bounds, x, y) && PointIn(box, x, y)) ==>
              exists i {:trigger Meeting(AllTiles(ix), box)[i]} :: 0 <= i < |Meeting(AllTiles(ix), box)| &&
                forall j :: 0 <= j < |Meeting(AllTiles(ix), box)| ==> (Returned(b, bounds, box, Meeting(AllTiles(ix), box)[j].tile) <==> j == i)
    ensures !(exists x, y :: PointIn(bounds, x, y) && PointIn(box, x, y)) ==> forall v :: v in Meeting(AllTiles(ix), box) ==> !Returned(b, bounds, box, v.tile)
  {
    hide AllTiles, Meeting, Record, Returned, Meets, Chosen, Covers, Simple, ValidSteps, BoxesMeet, PointIn, Once, InBlock;
    var all, visited := AllTiles(ix), Meeting(AllTiles(ix), box);
    SimpleMeetAtPoint(bounds, box);
    AllTilesOnce(ix);
    MeetingOnce(all, box);
    MeetingIsSelection(all, box);
    forall t ensures Returned(b, bounds, box, t) <==> BoxesMeet(bounds, box) && t == Chosen(b, box) {
      ReturnedFromChosen(b, bounds, box, t);
    }
    if BoxesMeet(bounds, box) {
      ReturnedIsVisited(b, bounds, box, Chosen(b, box));
      var v :| v in all && v.tile == Chosen(b, box);
      var i := OnePlace(visited, v);
    }
  }

  lemma OnePlace(vs: seq<Visit>, v: Visit) returns (i: nat)
    requires Once(vs) && v in vs
    ensures i < |vs| && forall j :: 0 <= j < |vs| ==> (vs[j].tile == v.tile <==> j == i)
  {
    i :| 0 <= i < |vs| && vs[i] == v;
  }

  lemma ReturnedIsVisited(b: Block, bounds: Box, box: Box, t: Tile)
    requires Returned(b, bounds, box, t)
    ensures InBlock(b, t) && Meets(box, t)
  {
  }
}
