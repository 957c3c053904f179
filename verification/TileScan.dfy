/** The cells at which the walk over the tile index (src/query/TileIndexWalker.cpp) stops, for any box */
module TileScans {
  import opened Quotients
  import opened TileIndexes
  import opened TileTrees

  function Max(a: int, b: int): int { if a < b then b else a }

  function Min(a: int, b: int): int { if a < b then a else b }

  /** The part of the matrix of a tile's children that meets the box */
  datatype Window = Window(startCol: int, startRow: int, endCol: int, endRow: int)

  function WindowOf(tile: Tile, step: nat, box: Box): Window {
    var zoom := tile.zoom + step;
    Window(
      Max(Column(box.minX, zoom) - tile.col * Pow2(step), 0), Max(Row(box.maxY, zoom) - tile.row * Pow2(step), 0),
      Min(Column(box.maxX, zoom) - tile.col * Pow2(step), Pow2(step) - 1), Min(Row(box.minY, zoom) - tile.row * Pow2(step), Pow2(step) - 1))
  }

  predicate InWindow(w: Window, col: int, row: int) { w.startCol <= col <= w.endCol && w.startRow <= row <= w.endRow }

  /** The cells at which the walk stops: those of the window, if it has columns and rows. The end of a row is seen only
      behind a cell, and the end of the last row only behind a row. So a window without rows still has its first row
      scanned; and in one without columns the walk stops in its start column, in each row but the first. */
  predicate ScansCell(w: Window, col: int, row: int) {
    if w.startCol <= w.endCol then w.startCol <= col <= w.endCol && w.startRow <= row && (row <= w.endRow || row == w.startRow)
    else col == w.startCol && w.startRow < row <= w.endRow
  }

  predicate Scans(box: Box, tile: Tile, step: nat, c: nat) { ScansCell(WindowOf(tile, step, box), c % Pow2(step), c / Pow2(step)) }

  function CellAt(step: nat, col: int, row: int): int { row * Pow2(step) + col }

  lemma CellParts(step: nat, col: int, row: int)
    requires 0 <= col < Pow2(step) && 0 <= row < Pow2(step)
    ensures 0 <= CellAt(step, col, row) < Cells(step)
    ensures CellAt(step, col, row) % Pow2(step) == col && CellAt(step, col, row) / Pow2(step) == row
  {
    assert row * Pow2(step) + Pow2(step) <= Pow2(step) * Pow2(step) by { LessOrEqualTimes(row + 1, Pow2(step), Pow2(step)); }
    DivideUnique(CellAt(step, col, row), Pow2(step), row, col);
  }

  /** A child meets the box exactly if it lies in the window. */
  lemma MeetsInWindow(tile: Tile, step: nat, box: Box, c: nat)
    requires c < Cells(step)
    ensures Meets(box, Child(tile, step, c)) <==> InWindow(WindowOf(tile, step, box), c % Pow2(step), c / Pow2(step))
  {
    hide Pow2, Meets, Column, Row;
    MeetsByNumbers(box, Child(tile, step, c));
    CellInRow(step, c);
  }

  /** If the tile meets the box, so does some child's place. */
  lemma WindowNotEmpty(tile: Tile, step: nat, box: Box)
    requires Meets(box, tile) && tile.zoom + step <= 32 && box.minX <= box.maxX && box.minY <= box.maxY
    ensures var w := WindowOf(tile, step, box); 0 <= w.startCol <= w.endCol < Pow2(step) && 0 <= w.startRow <= w.endRow < Pow2(step)
  {
    hide Pow2;
    var k, e := Pow2(step), Pow2(32 - tile.zoom - step);
    Pow2Sum(step, 32 - tile.zoom - step);
    FinerNumbers(box.minX + HALF, box.maxX + HALF, k, e, tile.col);
    FinerNumbers(HALF - 1 - box.maxY, HALF - 1 - box.minY, k, e, tile.row);
  }

  lemma FinerNumbers(low: int, high: int, k: nat, e: nat, n: int)
    requires k > 0 && e > 0 && low <= high && n * (k * e) <= high && low < n * (k * e) + k * e
    ensures n * k <= high / e && low / e <= n * k + k - 1 && low / e <= high / e
  {
    assert n * k * e == n * (k * e);
    assert (n * k + k - 1) * e + e == n * (k * e) + k * e;
    QuotientAtLeast(high, e, n * k);
    QuotientAtLeast(low, e, n * k + k - 1);
    QuotientAtLeast(high, e, low / e);
    assert (low / e) * e <= low by { QuotientAtLeast(low, e, low / e); }
  }

  // ---------------------------------------------------------------- the tiles that are visited

  /** A tile and what the walk visits below it */
  ghost function Visited(ix: Index, l: nat, p: int, tile: Tile, box: Box): seq<Visit>
    requires Entry(ix, l, p)
    decreases |ix.steps| - l, 1, 0
  {
    if IsPointer(ix.words[p]) then
      var t := Target(p, ix.words[p]);
      [Visit(t, tile)] + Scanned(ix, l, t, tile, 0, box)
    else [Visit(p, tile)]
  }

  /** What the walk visits below a tile, from cell `c` on */
  ghost function Scanned(ix: Index, l: nat, t: int, tile: Tile, c: nat, box: Box): seq<Visit>
    requires Record(ix, l, t) && c <= Cells(Step(ix, l))
    decreases |ix.steps| - l, 0, Cells(Step(ix, l)) - c
  {
    if c == Cells(Step(ix, l)) then []
    else
      (if Bit(MaskAt(ix, t), c) && Scans(box, tile, Step(ix, l), c)
       then Visited(ix, l + 1, EntryAt(ix, l, t, c), Child(tile, Step(ix, l), c), box) else [])
      + Scanned(ix, l, t, tile, c + 1, box)
  }

  /** A whole walk, root first */
  ghost function Walked(ix: Index, box: Box): seq<Visit>
    requires Record(ix, 0, 1)
  {
    [Visit(1, ROOT)] + Scanned(ix, 0, 1, ROOT, 0, box)
  }

  lemma ScannedStep(ix: Index, l: nat, t: int, tile: Tile, c: nat, box: Box)
    requires Record(ix, l, t) && c < Cells(Step(ix, l))
    ensures Bit(MaskAt(ix, t), c) ==> Entry(ix, l + 1, EntryAt(ix, l, t, c))
    ensures Scanned(ix, l, t, tile, c, box) ==
            (if Bit(MaskAt(ix, t), c) && Scans(box, tile, Step(ix, l), c)
             then Visited(ix, l + 1, EntryAt(ix, l, t, c), Child(tile, Step(ix, l), c), box) else [])
            + Scanned(ix, l, t, tile, c + 1, box)
  {
    hide Pow2, Bit, Visited, Scans;
  }

  /** Cells at which the walk does not stop contribute nothing. */
  lemma {:induction false} SkipCells(ix: Index, l: nat, t: int, tile: Tile, c: nat, c': nat, box: Box)
    requires Record(ix, l, t) && c <= c' <= Cells(Step(ix, l))
    requires forall k: nat {:trigger Scans(box, tile, Step(ix, l), k)} :: c <= k < c' ==> !Scans(box, tile, Step(ix, l), k)
    ensures Scanned(ix, l, t, tile, c, box) == Scanned(ix, l, t, tile, c', box)
    decreases c' - c
  {
    hide Pow2, Bit, Visited, Scans, Scanned;
    if c < c' {
      ScannedStep(ix, l, t, tile, c, box);
      SkipCells(ix, l, t, tile, c + 1, c', box);
      assert !Scans(box, tile, Step(ix, l), c);
      assert Scanned(ix, l, t, tile, c, box) == Scanned(ix, l, t, tile, c + 1, box);
    }
  }

  // ---------------------------------------------------------------- boxes that do not cross the antimeridian

  /** Below a tile that meets a simple box, the walk stops at the children that meet it. */
  lemma ScansMeeting(box: Box, tile: Tile, step: nat, c: nat)
    requires Simple(box) && Meets(box, tile) && tile.zoom + step <= 32 && c < Cells(step)
    ensures Scans(box, tile, step, c) <==> Meets(box, Child(tile, step, c))
  {
    WindowNotEmpty(tile, step, box);
    MeetsInWindow(tile, step, box, c);
  }

  lemma {:induction false} VisitedMeets(ix: Index, l: nat, p: int, tile: Tile, box: Box)
    requires Entry(ix, l, p) && ValidSteps(ix) && Simple(box) && Meets(box, tile) && l <= |ix.steps| && tile.zoom == Zoom(ix, l)
    ensures Visited(ix, l, p, tile, box) == Meeting(Subtree(ix, l, p, tile), box)
    decreases |ix.steps| - l, 1, 0
  {
    hide Meets, Scanned, Children;
    if IsPointer(ix.words[p]) {
      ScannedMeets(ix, l, Target(p, ix.words[p]), tile, 0, box);
    }
  }

  /** Below a tile that meets a simple box, the tiles visited are those that meet it, in order. */
  lemma {:induction false} ScannedMeets(ix: Index, l: nat, t: int, tile: Tile, c: nat, box: Box)
    requires Record(ix, l, t) && ValidSteps(ix) && Simple(box) && Meets(box, tile) && tile.zoom == Zoom(ix, l) && c <= Cells(Step(ix, l))
    ensures Scanned(ix, l, t, tile, c, box) == Meeting(Children(ix, l, t, tile, c), box)
    decreases |ix.steps| - l, 0, Cells(Step(ix, l)) - c
  {
    hide Meets, Scans, Bit, Pow2, Child, Scanned, Children, Meeting, Visited, Subtree;
    if c < Cells(Step(ix, l)) {
      var below := Children(ix, l, t, tile, c + 1);
      ChildrenStep(ix, l, t, tile, c);
      ScannedStep(ix, l, t, tile, c, box);
      ScannedMeets(ix, l, t, tile, c + 1, box);
      if Bit(MaskAt(ix, t), c) {
        var p, child := EntryAt(ix, l, t, c), Child(tile, Step(ix, l), c);
        CellMeets(ix, l, p, tile, c, box);
        MeetingConcat(Subtree(ix, l + 1, p, child), below, box);
      } else {
        assert Children(ix, l, t, tile, c) == below;
      }
    } else {
      NothingScanned(ix, l, t, tile, box);
    }
  }

  lemma NothingScanned(ix: Index, l: nat, t: int, tile: Tile, box: Box)
    requires Record(ix, l, t)
    ensures Scanned(ix, l, t, tile, Cells(Step(ix, l)), box) == [] == Meeting(Children(ix, l, t, tile, Cells(Step(ix, l))), box)
  {
  }

  lemma {:induction false} CellMeets(ix: Index, l: nat, p: int, tile: Tile, c: nat, box: Box)
    requires l < |ix.steps| && Entry(ix, l + 1, p) && c < Cells(Step(ix, l))
    requires ValidSteps(ix) && Simple(box) && Meets(box, tile) && tile.zoom == Zoom(ix, l)
    ensures var child := Child(tile, Step(ix, l), c);
            (if Scans(box, tile, Step(ix, l), c) then Visited(ix, l + 1, p, child, box) else []) == Meeting(Subtree(ix, l + 1, p, child), box)
    decreases |ix.steps| - l, 0, 0
  {
    var child := Child(tile, Step(ix, l), c);
    ChildZoom(ix, l);
    ZoomBound(ix, l + 1);
    ScansMeeting(box, tile, Step(ix, l), c);
    hide Meets, Scans, Pow2, Visited, Subtree, Meeting;
    if Meets(box, child) {
      VisitedMeets(ix, l + 1, p, child, box);
    } else {
      NothingBelow(ix, l + 1, p, child, box);
    }
  }

  /** The root tile is the whole map. */
  lemma WorldMeets(box: Box)
    requires Simple(box)
    ensures Meets(box, ROOT)
  {
    hide Pow2;
    Shifts32();
  }

  /** A walk over a simple box visits exactly the tiles that meet it, in order. */
  lemma SimpleWalk(ix: Index, box: Box)
    requires Record(ix, 0, 1) && ValidSteps(ix) && Simple(box)
    ensures Walked(ix, box) == Meeting(AllTiles(ix), box)
  {
    WorldMeets(box);
    RootZoom(ix);
    hide Meets, Scanned, Children;
    ScannedMeets(ix, 0, 1, ROOT, 0, box);
    MeetingConcat([Visit(1, ROOT)], Children(ix, 0, 1, ROOT, 0), box);
  }

  // ---------------------------------------------------------------- boxes that do

  /** The tile's square has a point in common with the box; a box whose west side lies beyond its east side
      reaches from the former across the antimeridian to the latter. */
  predicate MeetsAcross(box: Box, t: Tile) {
    var e := Extent(t.zoom);
    && (if box.minX <= box.maxX then LeftX(t) <= box.maxX && box.minX < LeftX(t) + e else LeftX(t) <= box.maxX || box.minX < LeftX(t) + e)
    && TopY(t) >= box.minY && box.maxY > TopY(t) - e
  }

  predicate PointAcross(box: Box, x: int, y: int) {
    -HALF <= x < HALF && (x >= box.minX || x <= box.maxX) && box.minY <= y <= box.maxY
  }

  /** A tile of the map meets a box that crosses the antimeridian exactly if some point of the one lies in the other. */
  lemma MeetsAcrossAtPoint(box: Box, t: Tile)
    requires Fits32(box) && box.minX > box.maxX && box.minY <= box.maxY && OnTheMap(t)
    ensures MeetsAcross(box, t) <==>
            exists x, y {:trigger PointAcross(box, x, y)} :: PointAcross(box, x, y) && (x + 0x8000_0000) / Pow2(32 - t.zoom) == t.col && (0x7fff_ffff - y) / Pow2(32 - t.zoom) == t.row
  {
    hide Pow2, OnTheMap;
    var e := Extent(t.zoom);
    SidesOnMap(t);
    QuotientAtLeast(HALF - 1 - box.maxY, e, t.row);
    QuotientAtLeast(HALF - 1 - box.minY, e, t.row);
    if MeetsAcross(box, t) {
      var x := if LeftX(t) <= box.maxX then LeftX(t) else LeftX(t) + e - 1;
      QuotientAtLeast(x + HALF, e, t.col);
      var fromNorth := InColumn(HALF - 1 - box.maxY, HALF - 1 - box.minY, e, t.row);
      assert PointAcross(box, x, HALF - 1 - fromNorth);
    }
    if x, y :| PointAcross(box, x, y) && (x + 0x8000_0000) / Pow2(32 - t.zoom) == t.col && (0x7fff_ffff - y) / Pow2(32 - t.zoom) == t.row {
      QuotientAtLeast(x + HALF, e, t.col);
      QuotientGrows(HALF - 1 - box.maxY, HALF - 1 - y, e);
      QuotientGrows(HALF - 1 - y, HALF - 1 - box.minY, e);
    }
  }

  lemma SidesOnMap(t: Tile)
    requires OnTheMap(t)
    ensures t.zoom <= 32 && -HALF <= LeftX(t) && LeftX(t) + Extent(t.zoom) <= HALF
  {
    hide Pow2;
    Shifts32();
    Pow2Sum(t.zoom, 32 - t.zoom);
    LessOrEqualTimes(t.col + 1, Pow2(t.zoom), Extent(t.zoom));
    assert (t.col + 1) * Extent(t.zoom) == t.col * Extent(t.zoom) + Extent(t.zoom);
  }

  /** The walk visits exactly the tiles of the index that meet the box. */
  ghost predicate WalkIsRight(ix: Index, box: Box)
    requires Record(ix, 0, 1)
  {
    forall v :: v in Walked(ix, box) <==> v in AllTiles(ix) && MeetsAcross(box, v.tile)
  }

  lemma {:induction false} VisitedInside(ix: Index, l: nat, p: int, tile: Tile, box: Box, v: Visit)
    requires Entry(ix, l, p) && v in Visited(ix, l, p, tile, box)
    ensures Inside(v.tile, tile)
    decreases |ix.steps| - l, 1, 0
  {
    hide Inside, Scanned;
    InsideItself(tile);
    if IsPointer(ix.words[p]) && v.tile != tile {
      var k := ScannedInside(ix, l, Target(p, ix.words[p]), tile, 0, box, v);
      ChildInside(v.tile, tile, Step(ix, l), k);
    }
  }

  /** Whatever is visited below a tile lies in a cell at which the walk stops. */
  lemma {:induction false} ScannedInside(ix: Index, l: nat, t: int, tile: Tile, c: nat, box: Box, v: Visit) returns (k: nat)
    requires Record(ix, l, t) && c <= Cells(Step(ix, l)) && v in Scanned(ix, l, t, tile, c, box)
    ensures k < Cells(Step(ix, l)) && Scans(box, tile, Step(ix, l), k) && Inside(v.tile, Child(tile, Step(ix, l), k))
    decreases |ix.steps| - l, 0, Cells(Step(ix, l)) - c
  {
    hide Pow2, Inside, Scans, Child, Visited, Bit;
    if v in Scanned(ix, l, t, tile, c + 1, box) {
      k := ScannedInside(ix, l, t, tile, c + 1, box, v);
    } else {
      VisitedInside(ix, l + 1, EntryAt(ix, l, t, c), Child(tile, Step(ix, l), c), box, v);
      k := c;
    }
  }

  /** An index of the world in four tiles, one level below the root */
  const QUARTERS: Index := Index([6, 0, 15, 0, 0, 0, 0], [1])

  lemma FourBits(i: nat)
    requires i < 4
    ensures Bit(15, i)
  {
    assert Pow2(1) == 2 && Pow2(2) == 4 && Pow2(3) == 8;
  }

  lemma {:induction false} FourOnes(i: nat)
    requires i <= 4
    ensures Ones(15, i) == i
  {
    hide Bit;
    if i > 0 {
      FourBits(i - 1);
      FourOnes(i - 1);
    }
  }

  lemma QuartersBits(c: nat)
    requires c < 4
    ensures Cells(Step(QUARTERS, 0)) == 4 && MaskAt(QUARTERS, 1) == 15 && Bit(15, c) && EntryAt(QUARTERS, 0, 1, c) == 3 + c
  {
    hide Bit, Ones;
    FourBits(c);
    FourOnes(c);
    assert Pow2(1) == 2;
  }

  lemma QuartersIndex()
    ensures Record(QUARTERS, 0, 1) && ValidSteps(QUARTERS) && Cells(Step(QUARTERS, 0)) == 4
  {
    assert Zoom(QUARTERS, 1) == 1;
    hide Bit, EntryAt, MaskAt, Cells;
    QuartersBits(0);
    forall c: nat | c < 4 ensures Entry(QUARTERS, 1, EntryAt(QUARTERS, 0, 1, c)) {
      QuartersBits(c);
    }
  }

  lemma {:induction false} QuarterAt(c: nat, k: nat)
    requires k <= c < 4 && Record(QUARTERS, 0, 1) && Cells(Step(QUARTERS, 0)) == 4
    ensures Visit(3 + c, Child(ROOT, 1, c)) in Children(QUARTERS, 0, 1, ROOT, k)
    decreases c - k
  {
    QuartersBits(k);
    hide Bit, EntryAt, MaskAt, Cells, Child, Children;
    ChildrenStep(QUARTERS, 0, 1, ROOT, k);
    if k < c {
      QuarterAt(c, k + 1);
    }
  }

  lemma QuarterListed(c: nat)
    requires c < 4
    ensures Record(QUARTERS, 0, 1) && Visit(3 + c, Child(ROOT, 1, c)) in AllTiles(QUARTERS)
  {
    hide Child, Children, Record, Cells, ValidSteps;
    QuartersIndex();
    QuarterAt(c, 0);
  }

  /** Columns and rows of the quarters */
  lemma QuarterNumbers(n: int)
    requires 0 <= n < 0x1_0000_0000
    ensures Extent(1) == HALF && n / Extent(1) == if n < HALF then 0 else 1
  {
    Shifts32();
  }

  /** The box starts in this column and row of the quarters. */
  predicate StartsIn(box: Box, left: int, top: int) {
    left == (if box.minX < 0 then 0 else 1) && top == if box.maxY >= 0 then 0 else 1
  }

  /** If the box crosses the antimeridian, the walk misses the quarter on one side of it. */
  lemma MissedQuarter(box: Box) returns (v: Visit)
    requires Fits32(box) && box.minX > box.maxX && box.minY <= box.maxY
    ensures Record(QUARTERS, 0, 1) && v in AllTiles(QUARTERS) && MeetsAcross(box, v.tile) && v !in Walked(QUARTERS, box)
  {
    var left, top := if box.minX < 0 then 0 else 1, if box.maxY >= 0 then 0 else 1;
    hide AllTiles, Walked, MeetsAcross, Record, Scans, Child;
    QuarterMeets(box, left, top);
    QuarterUnscanned(box, left, top);
    v := Visit(3 + 2 * top + 1 - left, Child(ROOT, 1, 2 * top + 1 - left));
    QuarterListed(2 * top + 1 - left);
    NotVisited(box, 2 * top + 1 - left, v);
  }

  lemma NotVisited(box: Box, c: nat, v: Visit)
    requires c < 4 && !Scans(box, ROOT, 1, c) && v == Visit(3 + c, Child(ROOT, 1, c)) && Record(QUARTERS, 0, 1)
    ensures v !in Walked(QUARTERS, box)
  {
    hide Inside, Scans, Scanned, Record;
    QuartersBits(c);
    if v in Scanned(QUARTERS, 0, 1, ROOT, 0, box) {
      var k := ScannedInside(QUARTERS, 0, 1, ROOT, 0, box, v);
      InsideItself(v.tile);
      OneCell(v.tile, ROOT, 1, c, k);
      assert false;
    }
  }

  lemma QuarterMeets(box: Box, left: int, top: int)
    requires Fits32(box) && box.minX > box.maxX && box.minY <= box.maxY
    requires StartsIn(box, left, top)
    ensures Child(ROOT, 1, 2 * top + 1 - left) == Tile(1 - left, top, 1) && MeetsAcross(box, Tile(1 - left, top, 1))
  {
    hide Extent, Pow2, LeftX, TopY, Child;
    TwoByTwo(1 - left, top);
    QuarterSides(1 - left, top);
    assert 2 * top + 1 - left == 2 * top + (1 - left);
  }

  lemma QuarterSides(col: int, row: int)
    requires 0 <= col < 2 && 0 <= row < 2
    ensures Extent(1) == HALF && LeftX(Tile(col, row, 1)) == (if col == 0 then -HALF else 0) && TopY(Tile(col, row, 1)) == if row == 0 then HALF - 1 else -1
  {
    hide Extent, Pow2;
    QuarterNumbers(0);
    assert col * HALF == if col == 0 then 0 else HALF;
    assert row * HALF == if row == 0 then 0 else HALF;
  }

  lemma QuarterUnscanned(box: Box, left: int, top: int)
    requires Fits32(box) && box.minX > box.maxX && box.minY <= box.maxY
    requires StartsIn(box, left, top)
    ensures !Scans(box, ROOT, 1, 2 * top + 1 - left)
  {
    hide Extent, Pow2, Child, WindowOf;
    TwoByTwo(1 - left, top);
    assert 2 * top + 1 - left == 2 * top + (1 - left);
    QuarterWindow(box);
  }

  lemma QuarterNumber(n: int)
    requires -HALF <= n < HALF
    ensures Column(n, 1) == (if n < 0 then 0 else 1) && Row(n, 1) == if n >= 0 then 0 else 1
  {
    hide Extent, Pow2;
    QuarterNumbers(n + HALF);
    QuarterNumbers(HALF - 1 - n);
  }

  lemma RootWindow(box: Box, left: nat, top: nat, right: nat, bottom: nat)
    requires left == Column(box.minX, 1) && top == Row(box.maxY, 1) && right == Column(box.maxX, 1) <= 1 && bottom == Row(box.minY, 1) <= 1
    ensures WindowOf(ROOT, 1, box) == Window(left, top, right, bottom)
  {
    hide Column, Row;
    assert Pow2(1) == 2;
  }

  lemma QuarterWindow(box: Box)
    requires Fits32(box)
    ensures WindowOf(ROOT, 1, box) == Window(if box.minX < 0 then 0 else 1, if box.maxY >= 0 then 0 else 1,
                                             if box.maxX < 0 then 0 else 1, if box.minY >= 0 then 0 else 1)
  {
    hide WindowOf, Column, Row;
    QuarterNumber(box.minX);
    QuarterNumber(box.maxX);
    QuarterNumber(box.maxY);
    QuarterNumber(box.minY);
    RootWindow(box, Column(box.minX, 1), Row(box.maxY, 1), Column(box.maxX, 1), Row(box.minY, 1));
  }

  lemma TwoByTwo(col: int, row: int)
    requires 0 <= col < 2 && 0 <= row < 2
    ensures Pow2(1) == 2 && (2 * row + col) % 2 == col && (2 * row + col) / 2 == row
    ensures Child(ROOT, 1, 2 * row + col) == Tile(col, row, 1)
  {
    assert Pow2(1) == 2;
    hide Pow2;
  }

  lemma SimpleIsRight(ix: Index, box: Box)
    requires Record(ix, 0, 1) && ValidSteps(ix) && Simple(box)
    ensures WalkIsRight(ix, box)
  {
    SimpleWalk(ix, box);
    hide Record, AllTiles, Meeting, Walked;
    MeetingIsSelection(AllTiles(ix), box);
  }

  /** Whatever the index, the walk visits exactly the tiles that meet a box that is not empty: this holds if and only if
      the box does not cross the antimeridian. */
  lemma RightUnlessAcross(box: Box)
    requires Fits32(box) && box.minY <= box.maxY
    ensures (forall ix :: Record(ix, 0, 1) && ValidSteps(ix) ==> WalkIsRight(ix, box)) <==> box.minX <= box.maxX
  {
    hide Record, ValidSteps, WalkIsRight;
    if box.minX <= box.maxX {
      forall ix | Record(ix, 0, 1) && ValidSteps(ix) ensures WalkIsRight(ix, box) {
        SimpleIsRight(ix, box);
      }
    } else {
      QuartersMissed(box);
    }
  }

  lemma QuartersMissed(box: Box)
    requires Fits32(box) && box.minX > box.maxX && box.minY <= box.maxY
    ensures Record(QUARTERS, 0, 1) && ValidSteps(QUARTERS) && !WalkIsRight(QUARTERS, box)
  {
    QuartersIndex();
    hide Record, ValidSteps, AllTiles, Walked, MeetsAcross;
    var v := MissedQuarter(box);
  }
}
