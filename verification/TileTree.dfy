/** Where the tiles of the packed index (src/query/TileIndexWalker.cpp) lie on the map */
module TileTrees {
  import opened Quotients
  import opened TileIndexes

  lemma ChildZoom(ix: Index, l: nat)
    requires l < |ix.steps|
    ensures Zoom(ix, l + 1) == Zoom(ix, l) + Step(ix, l)
  {
  }

  lemma RootZoom(ix: Index)
    ensures Zoom(ix, 0) == 0
  {
  }

  lemma Shifts32()
    ensures Pow2(32) == 0x1_0000_0000 && Pow2(31) == HALF
  {
    assert Pow2(8) == 256;
    Pow2Sum(8, 8);
    Pow2Sum(16, 16);
  }

  lemma InRange(n: nat, k: nat, e: nat)
    requires n < k && e > 0
    ensures 0 <= n * e < k * e
  {
    LessTimes(n, k, e);
  }

  /** Exactly the visits whose tiles meet the box are left. */
  lemma {:induction false} MeetingIsSelection(vs: seq<Visit>, box: Box)
    ensures forall v :: v in Meeting(vs, box) <==> v in vs && Meets(box, v.tile)
  {
    if vs != [] {
      hide Meets;
      MeetingIsSelection(vs[1..], box);
      assert vs == [vs[0]] + vs[1..];
    }
  }

  lemma {:induction false} AllMeet(vs: seq<Visit>, box: Box)
    requires forall v :: v in vs ==> Meets(box, v.tile)
    ensures Meeting(vs, box) == vs
  {
    if vs != [] {
      assert vs[0] in vs;
      AllMeet(vs[1..], box);
      assert vs == [vs[0]] + vs[1..];
    }
  }

  /** Tile `a` lies within tile `t`: `t` is `a`, or what `a` becomes when zoomed out. */
  predicate Inside(a: Tile, t: Tile) {
    t.zoom <= a.zoom && a.col / Pow2(a.zoom - t.zoom) == t.col && a.row / Pow2(a.zoom - t.zoom) == t.row
  }

  lemma ChildInside(a: Tile, t: Tile, step: nat, c: nat)
    requires c < Cells(step) && Inside(a, Child(t, step, c))
    ensures Inside(a, t) && a.zoom >= t.zoom + step
  {
    hide Pow2, Cells;
    var d := a.zoom - t.zoom - step;
    Pow2Sum(d, step);
    CellInRow(step, c);
    NestedQuotient(a.col, Pow2(d), Pow2(step), t.col, c % Pow2(step));
    NestedQuotient(a.row, Pow2(d), Pow2(step), t.row, c / Pow2(step));
  }

  lemma SameCell(t: Tile, step: nat, a: nat, b: nat)
    requires a < Cells(step) && b < Cells(step) && Child(t, step, a) == Child(t, step, b)
    ensures a == b
  {
    hide Pow2;
    assert a == Pow2(step) * (a / Pow2(step)) + a % Pow2(step) && b == Pow2(step) * (b / Pow2(step)) + b % Pow2(step);
  }

  ghost predicate Once(vs: seq<Visit>) { forall i, j :: 0 <= i < j < |vs| ==> vs[i].tile != vs[j].tile }

  lemma OnceConcat(a: seq<Visit>, b: seq<Visit>)
    requires Once(a) && Once(b) && forall u, v :: u in a && v in b ==> u.tile != v.tile
    ensures Once(a + b)
  {
    forall i, j | 0 <= i < j < |a + b| ensures (a + b)[i].tile != (a + b)[j].tile {
      if i < |a| <= j {
        assert (a + b)[i] in a && (a + b)[j] in b;
      }
    }
  }

  /** The tiles of a subtree lie within its tile, and each is visited once. */
  lemma {:induction false} SubtreeOnce(ix: Index, l: nat, p: int, tile: Tile)
    requires Entry(ix, l, p) && ValidSteps(ix)
    ensures Once(Subtree(ix, l, p, tile)) && forall v :: v in Subtree(ix, l, p, tile) ==> Inside(v.tile, tile)
    decreases |ix.steps| - l, 1, 0
  {
    if IsPointer(ix.words[p]) {
      var t := Target(p, ix.words[p]);
      ChildrenOnce(ix, l, t, tile, 0);
      hide Children, Record, Inside;
      OnceConcat([Visit(t, tile)], Children(ix, l, t, tile, 0));
      InsideItself(tile);
    } else {
      InsideItself(tile);
    }
  }

  lemma InsideItself(t: Tile)
    ensures Inside(t, t)
  {
  }

  /** The children from cell `c` on lie within cells from `c` on, further down than the tile itself. */
  ghost predicate InCells(v: Visit, tile: Tile, step: nat, c: nat) {
    exists k: nat :: c <= k < Cells(step) && Inside(v.tile, Child(tile, step, k))
  }

  lemma {:induction false} ChildrenOnce(ix: Index, l: nat, t: int, tile: Tile, c: nat)
    requires Record(ix, l, t) && ValidSteps(ix) && c <= Cells(Step(ix, l))
    ensures Once(Children(ix, l, t, tile, c))
    ensures forall v :: v in Children(ix, l, t, tile, c) ==> InCells(v, tile, Step(ix, l), c) && Inside(v.tile, tile) && v.tile.zoom > tile.zoom
    decreases |ix.steps| - l, 0, Cells(Step(ix, l)) - c
  {
    var step := Step(ix, l);
    if c < Cells(step) {
      ChildrenOnce(ix, l, t, tile, c + 1);
      var later := Children(ix, l, t, tile, c + 1);
      if Bit(MaskAt(ix, t), c) {
        var first := Subtree(ix, l + 1, EntryAt(ix, l, t, c), Child(tile, step, c));
        SubtreeOnce(ix, l + 1, EntryAt(ix, l, t, c), Child(tile, step, c));
        CellFirst(tile, step, c, first, later);
      }
      forall v | v in later ensures InCells(v, tile, step, c) {
        LaterCell(v, tile, step, c);
      }
    }
  }

  lemma LaterCell(v: Visit, tile: Tile, step: nat, c: nat)
    requires InCells(v, tile, step, c + 1)
    ensures InCells(v, tile, step, c)
  {
  }

  lemma CellFirst(tile: Tile, step: nat, c: nat, first: seq<Visit>, later: seq<Visit>)
    requires c < Cells(step) && step > 0 && Once(first) && Once(later)
    requires forall v :: v in first ==> Inside(v.tile, Child(tile, step, c))
    requires forall v :: v in later ==> InCells(v, tile, step, c + 1)
    ensures Once(first + later)
    ensures forall v :: v in first ==> InCells(v, tile, step, c) && Inside(v.tile, tile) && v.tile.zoom > tile.zoom
  {
    hide Pow2, Inside, Child;
    forall v | v in first ensures InCells(v, tile, step, c) && Inside(v.tile, tile) && v.tile.zoom > tile.zoom {
      ChildInside(v.tile, tile, step, c);
    }
    forall u, v | u in first && v in later ensures u.tile != v.tile {
      var k: nat :| c + 1 <= k < Cells(step) && Inside(v.tile, Child(tile, step, k));
      if u.tile == v.tile {
        OneCell(u.tile, tile, step, c, k);
      }
    }
    OnceConcat(first, later);
  }

  lemma OneCell(a: Tile, tile: Tile, step: nat, c: nat, k: nat)
    requires c < Cells(step) && k < Cells(step) && Inside(a, Child(tile, step, c)) && Inside(a, Child(tile, step, k))
    ensures c == k
  {
    hide Pow2;
    assert Child(tile, step, c) == Child(tile, step, k);
    SameCell(tile, step, c, k);
  }

  /** Each tile of the tree is visited once. */
  lemma AllTilesOnce(ix: Index)
    requires Record(ix, 0, 1) && ValidSteps(ix)
    ensures Once(AllTiles(ix))
  {
    ChildrenOnce(ix, 0, 1, ROOT, 0);
    hide Children, Record;
    OnceConcat([Visit(1, ROOT)], Children(ix, 0, 1, ROOT, 0));
  }

  lemma {:induction false} SubtreeZooms(ix: Index, l: nat, p: int, tile: Tile)
    requires Entry(ix, l, p) && ValidSteps(ix) && l <= |ix.steps| && tile.zoom == Zoom(ix, l)
    ensures forall v :: v in Subtree(ix, l, p, tile) ==> v.tile.zoom <= 12
    decreases |ix.steps| - l, 1, 0
  {
    ZoomBound(ix, l);
    if IsPointer(ix.words[p]) {
      ChildrenZooms(ix, l, Target(p, ix.words[p]), tile, 0);
    }
  }

  lemma {:induction false} ChildrenZooms(ix: Index, l: nat, t: int, tile: Tile, c: nat)
    requires Record(ix, l, t) && ValidSteps(ix) && c <= Cells(Step(ix, l)) && tile.zoom == Zoom(ix, l)
    ensures forall v :: v in Children(ix, l, t, tile, c) ==> v.tile.zoom <= 12
    decreases |ix.steps| - l, 0, Cells(Step(ix, l)) - c
  {
    if c < Cells(Step(ix, l)) {
      ChildrenZooms(ix, l, t, tile, c + 1);
      ChildZoom(ix, l);
      if Bit(MaskAt(ix, t), c) {
        SubtreeZooms(ix, l + 1, EntryAt(ix, l, t, c), Child(tile, Step(ix, l), c));
      }
    }
  }

  // ---------------------------------------------------------------- the tree, by ways from its root

  /** A tile, with its tip: where its record starts if it has children, and else its own entry */
  datatype Place = Place(tip: int, tile: Tile, record: bool)

  /** One step down, to column `dx` and row `dy` of the matrix: the child is there if its bit is set, and its entry is as
      far behind the first child's as there are children before it. */
  ghost predicate StepsTo(ix: Index, l: nat, from: Place, to: Place, dx: nat, dy: nat) {
    && from.record && l < |ix.steps| && dx < Pow2(ix.steps[l]) && dy < Pow2(ix.steps[l])
    && to.tile == Tile(from.tile.col * Pow2(ix.steps[l]) + dx, from.tile.row * Pow2(ix.steps[l]) + dy, from.tile.zoom + ix.steps[l])
    && Bit(MaskAt(ix, from.tip), dy * Pow2(ix.steps[l]) + dx)
    && LeadsTo(ix, EntryAt(ix, l, from.tip, dy * Pow2(ix.steps[l]) + dx), to)
  }

  /** The entry is that of the tile itself, or points to its record. */
  predicate LeadsTo(ix: Index, e: int, to: Place) {
    0 <= e < |ix.words| && if IsPointer(ix.words[e]) then to.record && to.tip == Target(e, ix.words[e]) else !to.record && to.tip == e
  }

  ghost predicate Descends(ix: Index, l: nat, from: Place, to: Place) { exists dx, dy :: StepsTo(ix, l, from, to, dx, dy) }

  /** From the root down, level by level */
  ghost predicate IsWay(ix: Index, way: seq<Place>) {
    && way != [] && way[0] == Place(1, ROOT, true)
    && forall i: nat {:trigger way[i]} :: i < |way| - 1 ==> Descends(ix, i, way[i], way[i + 1])
  }

  lemma WayOn(ix: Index, way: seq<Place>, to: Place)
    requires IsWay(ix, way) && Descends(ix, |way| - 1, way[|way| - 1], to)
    ensures IsWay(ix, way + [to])
  {
    hide Descends;
    var longer := way + [to];
    forall i: nat | i < |longer| - 1 ensures Descends(ix, i, longer[i], longer[i + 1]) {
      if i < |way| - 1 { assert Descends(ix, i, way[i], way[i + 1]); }
    }
  }

  lemma CellDescends(ix: Index, l: nat, t: int, tile: Tile, c: nat, to: Place)
    requires l < |ix.steps| && c < Cells(Step(ix, l)) && Bit(MaskAt(ix, t), c)
    requires to.tile == Child(tile, Step(ix, l), c) && LeadsTo(ix, EntryAt(ix, l, t, c), to)
    ensures Descends(ix, l, Place(t, tile, true), to)
  {
    hide Pow2, Bit, LeadsTo, MaskAt, EntryAt;
    var p := Pow2(ix.steps[l]);
    CellInRow(ix.steps[l], c);
    assert c == (c / p) * p + c % p;
    assert StepsTo(ix, l, Place(t, tile, true), to, c % p, c / p);
  }

  lemma {:induction false} SubtreeWay(ix: Index, l: nat, e: int, tile: Tile, v: Visit, way: seq<Place>) returns (longer: seq<Place>)
    requires Entry(ix, l, e) && v in Subtree(ix, l, e, tile)
    requires IsWay(ix, way) && |way| == l + 1 && LeadsTo(ix, e, way[l]) && way[l].tile == tile
    ensures IsWay(ix, longer) && longer[|longer| - 1].tip == v.tip && longer[|longer| - 1].tile == v.tile
    decreases |ix.steps| - l, 1, 0
  {
    hide Children, IsWay, IsPointer, Target;
    longer := way;
    if IsPointer(ix.words[e]) {
      var t := Target(e, ix.words[e]);
      if v in Children(ix, l, t, tile, 0) {
        longer := ChildrenWay(ix, l, t, tile, 0, v, way);
      }
    }
  }

  lemma {:induction false} ChildrenWay(ix: Index, l: nat, t: int, tile: Tile, c: nat, v: Visit, way: seq<Place>) returns (longer: seq<Place>)
    requires Record(ix, l, t) && c <= Cells(Step(ix, l)) && v in Children(ix, l, t, tile, c)
    requires IsWay(ix, way) && |way| == l + 1 && way[l] == Place(t, tile, true)
    ensures IsWay(ix, longer) && longer[|longer| - 1].tip == v.tip && longer[|longer| - 1].tile == v.tile
    decreases |ix.steps| - l, 0, Cells(Step(ix, l)) - c
  {
    hide Subtree, Bit, IsWay, IsPointer, Target, Descends, Pow2, Child, MaskAt, EntryAt;
    if v in Children(ix, l, t, tile, c + 1) {
      longer := ChildrenWay(ix, l, t, tile, c + 1, v, way);
    } else {
      var e, child := EntryAt(ix, l, t, c), Child(tile, Step(ix, l), c);
      var to := Place(if IsPointer(ix.words[e]) then Target(e, ix.words[e]) else e, child, IsPointer(ix.words[e]));
      CellDescends(ix, l, t, tile, c, to);
      WayOn(ix, way, to);
      longer := SubtreeWay(ix, l + 1, e, child, v, way + [to]);
    }
  }

  lemma {:induction false} CellInChildren(ix: Index, l: nat, t: int, tile: Tile, k: nat, c: nat, v: Visit)
    requires Record(ix, l, t) && k <= c < Cells(Step(ix, l)) && Bit(MaskAt(ix, t), c)
    requires Entry(ix, l + 1, EntryAt(ix, l, t, c)) && v in Subtree(ix, l + 1, EntryAt(ix, l, t, c), Child(tile, Step(ix, l), c))
    ensures v in Children(ix, l, t, tile, k)
    decreases c - k
  {
    hide Subtree, Bit, Pow2, Child, MaskAt, EntryAt, Children, Record;
    ChildrenStep(ix, l, t, tile, k);
    if k < c {
      CellInChildren(ix, l, t, tile, k + 1, c, v);
    }
  }

  ghost predicate Listed(ix: Index, l: nat, q: Place)
    requires Record(ix, 0, 1)
  {
    && Visit(q.tip, q.tile) in AllTiles(ix)
    && (q.record ==> Record(ix, l, q.tip) && forall v :: v in Children(ix, l, q.tip, q.tile, 0) ==> v in AllTiles(ix))
  }

  lemma ListedBelow(ix: Index, l: nat, from: Place, to: Place)
    requires Record(ix, 0, 1) && Listed(ix, l, from) && Descends(ix, l, from, to)
    ensures Listed(ix, l + 1, to)
  {
    hide AllTiles, Children, IsPointer, Target, Pow2, Bit, EntryAt, MaskAt;
    var dx: nat, dy: nat :| StepsTo(ix, l, from, to, dx, dy);
    var step := ix.steps[l];
    var c := dy * Pow2(step) + dx;
    CellOf(step, dx, dy);
    CellNumber(from.tile, step, dx, dy);
    var e := EntryAt(ix, l, from.tip, c);
    assert Entry(ix, l + 1, e);
    forall v | v in Subtree(ix, l + 1, e, to.tile) ensures v in AllTiles(ix) {
      CellInChildren(ix, l, from.tip, from.tile, 0, c, v);
    }
  }

  lemma CellOf(step: nat, dx: nat, dy: nat)
    requires dx < Pow2(step) && dy < Pow2(step)
    ensures 0 <= dy * Pow2(step) + dx < Cells(step)
  {
    hide Pow2;
    LessOrEqualTimes(dy + 1, Pow2(step), Pow2(step));
    assert (dy + 1) * Pow2(step) == dy * Pow2(step) + Pow2(step);
  }

  lemma {:induction false} WayIsListed(ix: Index, way: seq<Place>)
    requires Record(ix, 0, 1) && IsWay(ix, way)
    ensures Listed(ix, |way| - 1, way[|way| - 1])
    decreases |way|
  {
    hide Descends, Listed;
    var n := |way| - 1;
    if n == 0 {
      RootIsListed(ix);
    } else {
      var init := way[..n];
      forall i: nat | i < |init| - 1 ensures Descends(ix, i, init[i], init[i + 1]) {
        assert Descends(ix, i, way[i], way[i + 1]);
      }
      WayIsListed(ix, init);
      assert way[n - 1] == init[n - 1] && Descends(ix, n - 1, way[n - 1], way[n]);
      ListedBelow(ix, n - 1, way[n - 1], way[n]);
    }
  }

  lemma RootIsListed(ix: Index)
    requires Record(ix, 0, 1)
    ensures Listed(ix, 0, Place(1, ROOT, true))
  {
    hide Children, Record;
  }

  /** The tiles of the tree are those to which a way leads from the root, with the tips where these ways end. */
  lemma AllTilesByWays(ix: Index, v: Visit)
    requires Record(ix, 0, 1)
    ensures v in AllTiles(ix) <==> exists way: seq<Place> :: IsWay(ix, way) && way[|way| - 1].tip == v.tip && way[|way| - 1].tile == v.tile
  {
    hide Children, Record, Descends, Listed;
    if v in AllTiles(ix) {
      RootWay(ix);
      if v in Children(ix, 0, 1, ROOT, 0) {
        var way := ChildrenWay(ix, 0, 1, ROOT, 0, v, [Place(1, ROOT, true)]);
      }
    }
    forall way: seq<Place> | IsWay(ix, way) && way[|way| - 1].tip == v.tip && way[|way| - 1].tile == v.tile ensures v in AllTiles(ix) {
      WayIsListed(ix, way);
      ListedMeans(ix, |way| - 1, way[|way| - 1]);
    }
  }

  lemma RootWay(ix: Index)
    ensures IsWay(ix, [Place(1, ROOT, true)])
  {
  }

  lemma ListedMeans(ix: Index, l: nat, q: Place)
    requires Record(ix, 0, 1) && Listed(ix, l, q)
    ensures Visit(q.tip, q.tile) in AllTiles(ix)
  {
  }

  // ---------------------------------------------------------------- the map

  predicate OnTheMap(t: Tile) { t.zoom <= 12 && 0 <= t.col < Pow2(t.zoom) && 0 <= t.row < Pow2(t.zoom) }

  lemma AllOnTheMap(ix: Index)
    requires Record(ix, 0, 1) && ValidSteps(ix)
    ensures forall v :: v in AllTiles(ix) ==> OnTheMap(v.tile)
  {
    hide Children, Record, Once, InCells, Inside, OnTheMap, Zoom, ValidSteps;
    RootZoom(ix);
    ChildrenOnce(ix, 0, 1, ROOT, 0);
    ChildrenZooms(ix, 0, 1, ROOT, 0);
    InsideItself(ROOT);
    forall v | v in AllTiles(ix) ensures OnTheMap(v.tile) {
      InsideRoot(v.tile);
    }
  }

  lemma InsideRoot(t: Tile)
    requires Inside(t, ROOT) && t.zoom <= 12
    ensures OnTheMap(t)
  {
    hide Pow2;
    QuotientAtLeast(t.col, Pow2(t.zoom), 0);
    QuotientAtLeast(t.row, Pow2(t.zoom), 0);
  }

  /** The cells of a tile's matrix are on the map if the tile is. */
  lemma ChildOnTheMap(t: Tile, step: nat, c: nat)
    requires OnTheMap(t) && c < Cells(step) && t.zoom + step <= 12
    ensures OnTheMap(Child(t, step, c))
  {
    hide Pow2, Child, Cells;
    CellInRow(step, c);
    Pow2Sum(t.zoom, step);
    InMatrix(t.col, Pow2(t.zoom), Pow2(step), c % Pow2(step), Pow2(t.zoom + step));
    InMatrix(t.row, Pow2(t.zoom), Pow2(step), c / Pow2(step), Pow2(t.zoom + step));
    ChildParts(t, step, c, Pow2(step), c % Pow2(step), c / Pow2(step));
  }

  lemma ChildParts(t: Tile, step: nat, c: nat, p: nat, col: nat, row: nat)
    requires p == Pow2(step) && p > 0 && col == c % p && row == c / p
    ensures Child(t, step, c) == Tile(t.col * p + col, t.row * p + row, t.zoom + step)
  {
    hide Pow2;
  }

  lemma InMatrix(n: nat, k: nat, p: nat, d: nat, all: nat)
    requires n < k && d < p && all == k * p
    ensures 0 <= n * p + d < all
  {
    LessOrEqualTimes(n + 1, k, p);
    assert (n + 1) * p == n * p + p;
  }

  const WORLD: Box := Box(-HALF, -HALF, HALF - 1, HALF - 1)

  lemma MapTileMeetsWorld(t: Tile)
    requires OnTheMap(t)
    ensures Meets(WORLD, t)
  {
    hide Pow2;
    var e := Extent(t.zoom);
    Shifts32();
    Pow2Sum(t.zoom, 32 - t.zoom);
    LessOrEqualTimes(t.col + 1, Pow2(t.zoom), e);
    LessOrEqualTimes(t.row + 1, Pow2(t.zoom), e);
    assert (t.col + 1) * e == t.col * e + e && (t.row + 1) * e == t.row * e + e;
  }

  /** A walk over the world visits every tile. */
  lemma WorldIsAll(ix: Index)
    requires Record(ix, 0, 1) && ValidSteps(ix)
    ensures Meeting(AllTiles(ix), WORLD) == AllTiles(ix)
  {
    AllOnTheMap(ix);
    hide AllTiles, OnTheMap, Meets;
    forall v | v in AllTiles(ix) ensures Meets(WORLD, v.tile) {
      MapTileMeetsWorld(v.tile);
    }
    AllMeet(AllTiles(ix), WORLD);
  }

  lemma WorldIsSimple()
    ensures Simple(WORLD) && Fits32(WORLD)
  {
  }
}
