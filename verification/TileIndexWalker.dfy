/** The walk over the packed tile index (src/query/TileIndexWalker.cpp), without a filter, and the reverse index
    that a walk over the whole world fills (src/feature/ReverseTileIndex.cpp). */
module TileIndexWalkers {
  import opened Quotients
  import opened TileIndexes
  import opened TileTrees
  import opened TileScans

  datatype Level = Level(
    childTileMask: nat,
    pChildEntries: int,
    topLeftChildTile: Tile,
    step: nat,
    startCol: int,
    endCol: int,
    endRow: int,
    currentCol: int,
    currentRow: int)

  // ---------------------------------------------------------------- tiles that the walk can reach

  /** The tile is on the map and does not lie before the column and row where the box starts;
      if the box is simple, the tile meets it. */
  predicate Reached(box: Box, tile: Tile) {
    && OnTheMap(tile) && Column(box.minX, tile.zoom) <= tile.col && Row(box.maxY, tile.zoom) <= tile.row
    && (Simple(box) ==> Meets(box, tile))
  }

  lemma RootReached(box: Box)
    requires Fits32(box)
    ensures Reached(box, ROOT)
  {
    hide Meets;
    if Simple(box) { WorldMeets(box); }
    assert Pow2(0) == 1;
    Shifts32();
    hide Pow2;
    QuotientAtLeast(box.minX + HALF, Extent(0), 0);
    QuotientAtLeast(HALF - 1 - box.maxY, Extent(0), 0);
  }

  /** The box does not start beyond the matrix of a tile that is reached. */
  lemma WindowStarts(box: Box, tile: Tile, step: nat)
    requires Reached(box, tile) && tile.zoom + step <= 32
    ensures var w := WindowOf(tile, step, box);
            && 0 <= w.startCol < Pow2(step) && 0 <= w.startRow < Pow2(step) && w.endCol < Pow2(step) && w.endRow < Pow2(step)
            && Column(box.minX, tile.zoom + step) <= tile.col * Pow2(step) + w.startCol
            && Row(box.maxY, tile.zoom + step) <= tile.row * Pow2(step) + w.startRow
  {
    hide Pow2, Meets, OnTheMap, Simple;
    var k, e := Pow2(step), Pow2(32 - tile.zoom - step);
    Pow2Sum(step, 32 - tile.zoom - step);
    FinerStart(box.minX + HALF, k, e, tile.col, Column(box.minX, tile.zoom), Column(box.minX, tile.zoom + step));
    FinerStart(HALF - 1 - box.maxY, k, e, tile.row, Row(box.maxY, tile.zoom), Row(box.maxY, tile.zoom + step));
  }

  lemma FinerStart(low: int, k: nat, e: nat, n: int, coarse: int, fine: int)
    requires k > 0 && e > 0 && k * e > 0 && coarse == low / (k * e) && fine == low / e && coarse <= n
    ensures 0 <= Max(fine - n * k, 0) < k && fine <= n * k + Max(fine - n * k, 0)
  {
    assert (n * k + k - 1) * e + e == n * (k * e) + k * e;
    QuotientAtLeast(low, k * e, n);
    QuotientAtLeast(low, e, n * k + k - 1);
  }

  /** So is each child at which the walk stops. */
  lemma ChildReached(box: Box, tile: Tile, step: nat, c: nat)
    requires Reached(box, tile) && tile.zoom + step <= 12 && c < Cells(step) && Scans(box, tile, step, c)
    ensures Reached(box, Child(tile, step, c))
  {
    hide Pow2, Meets, Column, Row, OnTheMap, WindowOf, Simple;
    ChildOnTheMap(tile, step, c);
    WindowStarts(box, tile, step);
    if Simple(box) {
      ScansMeeting(box, tile, step, c);
    }
  }

  // ---------------------------------------------------------------- places in a matrix

  /** Where the walk can stand in a matrix of `p` columns and rows: before the first cell, or at a cell where it stops */
  predicate Stands(w: Window, p: nat, col: int, row: int) {
    && 0 <= w.startCol < p && 0 <= w.startRow < p && w.endCol < p && w.endRow < p
    && w.startRow <= row && (row == w.startRow || row <= w.endRow)
    && (if w.startCol <= w.endCol then w.startCol - 1 <= col <= w.endCol
        else col == if row == w.startRow then w.startCol - 1 else w.startCol)
  }

  /** At the end of a row, no cell before the start of the next one is left. */
  lemma RowLeft(w: Window, p: nat, col: int, row: int, k: nat)
    requires Stands(w, p, col, row) && col >= w.endCol && row * p + col < k < (row + 1) * p + w.startCol
    ensures p > 0 && !ScansCell(w, k % p, k / p)
  {
    AfterPlace(p, col, row, k);
    BeforePlace(p, w.startCol, row + 1, k);
  }

  lemma AfterPlace(p: nat, col: int, row: int, k: nat)
    requires -1 <= col < p && p > 0 && row * p + col < k
    ensures k / p > row || (k / p == row && k % p > col)
  {
    var q, r := k / p, k % p;
    assert k == q * p + r;
    MultipleGrows(p, row - q);
    assert p * (row - q) == row * p - q * p;
  }

  lemma BeforePlace(p: nat, col: int, row: int, k: nat)
    requires 0 <= col < p && k < row * p + col
    ensures k / p < row || (k / p == row && k % p < col)
  {
    var q, r := k / p, k % p;
    assert k == q * p + r;
    MultipleGrows(p, q - row);
    assert p * (q - row) == q * p - row * p;
  }

  /** At the end of the last row, no cell is left. */
  lemma MatrixLeft(w: Window, p: nat, col: int, row: int, k: nat)
    requires Stands(w, p, col, row) && col >= w.endCol && row >= w.endRow && row * p + col < k
    ensures p > 0 && !ScansCell(w, k % p, k / p)
  {
    AfterPlace(p, col, row, k);
  }

  lemma BeforeStart(w: Window, p: nat, k: nat)
    requires 0 <= w.startCol < p && 0 <= w.startRow && k < w.startRow * p + w.startCol
    ensures !ScansCell(w, k % p, k / p)
  {
    BeforePlace(p, w.startCol, w.startRow, k);
  }

  // ---------------------------------------------------------------- a level of the walk

  /** The level stands somewhere in the matrix of the children of the tile whose record starts at `t`. */
  ghost predicate LevelOk(ix: Index, box: Box, l: nat, lv: Level, t: int, tile: Tile) {
    && Record(ix, l, t) && tile.zoom == Zoom(ix, l) && lv.step == Step(ix, l) && Reached(box, tile)
    && lv.childTileMask == MaskAt(ix, t) && lv.pChildEntries == FirstChild(ix, l, t)
    && lv.topLeftChildTile == Tile(tile.col * Pow2(lv.step), tile.row * Pow2(lv.step), Zoom(ix, l + 1))
    && var w := WindowOf(tile, lv.step, box);
       && lv.startCol == w.startCol && lv.endCol == w.endCol && lv.endRow == w.endRow
       && Stands(w, Pow2(lv.step), lv.currentCol, lv.currentRow)
  }

  /** The cell after the current one */
  function NextCell(lv: Level): int { CellAt(lv.step, lv.currentCol + 1, lv.currentRow) }

  lemma NextCellInMatrix(ix: Index, box: Box, l: nat, lv: Level, t: int, tile: Tile)
    requires LevelOk(ix, box, l, lv, t, tile)
    ensures Record(ix, l, t) && 0 <= NextCell(lv) <= Cells(Step(ix, l))
  {
    hide Record, Pow2, WindowOf, Reached;
    CellsBounded(Pow2(lv.step), lv.currentCol + 1, lv.currentRow);
  }

  lemma CellsBounded(p: nat, col: int, row: int)
    requires 0 <= col <= p && 0 <= row < p
    ensures 0 <= row * p + col <= p * p
  {
    LessOrEqualTimes(row + 1, p, p);
    assert row * p + p == (row + 1) * p;
  }

  /** What the level has still to visit */
  ghost function Ahead(ix: Index, box: Box, l: nat, lv: Level, t: int, tile: Tile): seq<Visit>
    requires LevelOk(ix, box, l, lv, t, tile)
  {
    NextCellInMatrix(ix, box, l, lv, t, tile);
    Scanned(ix, l, t, tile, NextCell(lv), box)
  }

  /** A level at its start has all of the tile's cells ahead. */
  lemma LevelStarted(ix: Index, box: Box, l: nat, lv: Level, t: int, tile: Tile)
    requires LevelOk(ix, box, l, lv, t, tile)
    requires lv.currentCol == lv.startCol - 1 && lv.currentRow == WindowOf(tile, lv.step, box).startRow
    ensures Record(ix, l, t) && Ahead(ix, box, l, lv, t, tile) == Scanned(ix, l, t, tile, 0, box)
  {
    var w, p := WindowOf(tile, lv.step, box), Pow2(lv.step);
    hide Record, Pow2, WindowOf, ScansCell, Scanned, Reached;
    NextCellInMatrix(ix, box, l, lv, t, tile);
    forall k: nat {:trigger Scans(box, tile, Step(ix, l), k)} | 0 <= k < NextCell(lv) ensures !Scans(box, tile, Step(ix, l), k) {
      BeforeStart(w, p, k);
    }
    SkipCells(ix, l, t, tile, 0, NextCell(lv), box);
  }

  predicate AtCell(lv: Level) { lv.startCol <= lv.currentCol }

  /** The next cell of the row, or else the start of the next row */
  function Advanced(lv: Level): Level {
    if lv.currentCol < lv.endCol then lv.(currentCol := lv.currentCol + 1)
    else lv.(currentRow := lv.currentRow + 1, currentCol := lv.startCol)
  }

  predicate AtEnd(lv: Level) { lv.currentCol >= lv.endCol && lv.currentRow >= lv.endRow }

  lemma AdvancedOk(ix: Index, box: Box, l: nat, lv: Level, t: int, tile: Tile)
    requires LevelOk(ix, box, l, lv, t, tile) && !AtEnd(lv)
    ensures LevelOk(ix, box, l, Advanced(lv), t, tile) && AtCell(Advanced(lv))
    ensures var (lv', w, p) := (Advanced(lv), WindowOf(tile, lv.step, box), Pow2(lv.step));
            && Stands(w, p, lv.currentCol, lv.currentRow) && lv.endCol == w.endCol && lv.startCol == w.startCol
            && lv.step == lv'.step == Step(ix, l) && Record(ix, l, t)
            && NextCell(lv) == lv.currentRow * p + lv.currentCol + 1
            && (lv.currentCol < lv.endCol ==> NextCell(lv') == NextCell(lv) + 1)
            && (lv.currentCol >= lv.endCol ==> NextCell(lv') == (lv.currentRow + 1) * p + w.startCol + 1 > NextCell(lv))
  {
    hide Record, Pow2, WindowOf, Reached;
    assert (lv.currentRow + 1) * Pow2(lv.step) == lv.currentRow * Pow2(lv.step) + Pow2(lv.step);
  }

  /** The walk stops at the cell where a level stands. */
  lemma StopsHere(ix: Index, box: Box, l: nat, lv: Level, t: int, tile: Tile)
    requires LevelOk(ix, box, l, lv, t, tile) && AtCell(lv)
    ensures var c := CellAt(lv.step, lv.currentCol, lv.currentRow);
            && 0 <= c < Cells(lv.step) && NextCell(lv) == c + 1 && Scans(box, tile, lv.step, c) && Record(ix, l, t) && lv.step == Step(ix, l)
            && Child(tile, lv.step, c) == TileAtCell(lv) && lv.childTileMask == MaskAt(ix, t) && lv.pChildEntries == FirstChild(ix, l, t)
            && tile.zoom == Zoom(ix, l) && Reached(box, tile) && l < |ix.steps| && TileAtCell(lv).zoom == Zoom(ix, l + 1)
  {
    hide Pow2, WindowOf, Reached;
    assert l < |ix.steps|;
    ChildZoom(ix, l);
    hide Record, Zoom;
    CellParts(lv.step, lv.currentCol, lv.currentRow);
  }

  // ---------------------------------------------------------------- the stack of levels

  ghost predicate LevelsOk(ix: Index, box: Box, lvs: seq<Level>, tips: seq<int>, tiles: seq<Tile>, n: nat) {
    && n <= |lvs| && n <= |tips| && n <= |tiles|
    && forall k: nat {:trigger lvs[k]} :: k < n ==> LevelOk(ix, box, k, lvs[k], tips[k], tiles[k])
  }

  /** What is left to visit: the rest of the innermost level, then of the level around it, and so on */
  ghost function AllAhead(ix: Index, box: Box, lvs: seq<Level>, tips: seq<int>, tiles: seq<Tile>, n: nat): seq<Visit>
    requires LevelsOk(ix, box, lvs, tips, tiles, n)
  {
    if n == 0 then []
    else
      assert LevelOk(ix, box, n - 1, lvs[n - 1], tips[n - 1], tiles[n - 1]);
      Ahead(ix, box, n - 1, lvs[n - 1], tips[n - 1], tiles[n - 1]) + AllAhead(ix, box, lvs, tips, tiles, n - 1)
  }

  lemma {:induction false} OuterLevelsStay(ix: Index, box: Box, lvs: seq<Level>, tips: seq<int>, tiles: seq<Tile>,
                                           lvs': seq<Level>, tips': seq<int>, tiles': seq<Tile>, n: nat)
    requires LevelsOk(ix, box, lvs, tips, tiles, n) && n <= |lvs'| && n <= |tips'| && n <= |tiles'|
    requires lvs[..n] == lvs'[..n] && tips[..n] == tips'[..n] && tiles[..n] == tiles'[..n]
    ensures LevelsOk(ix, box, lvs', tips', tiles', n) && AllAhead(ix, box, lvs', tips', tiles', n) == AllAhead(ix, box, lvs, tips, tiles, n)
  {
    hide LevelOk;
    forall k: nat | k < n ensures lvs'[k] == lvs[k] && tips'[k] == tips[k] && tiles'[k] == tiles[k] {
      assert lvs[..n][k] == lvs'[..n][k] && tips[..n][k] == tips'[..n][k] && tiles[..n][k] == tiles'[..n][k];
    }
    if n > 0 {
      assert lvs[..n - 1] == lvs[..n][..n - 1] && lvs'[..n - 1] == lvs'[..n][..n - 1];
      assert tips[..n - 1] == tips[..n][..n - 1] && tips'[..n - 1] == tips'[..n][..n - 1];
      assert tiles[..n - 1] == tiles[..n][..n - 1] && tiles'[..n - 1] == tiles'[..n][..n - 1];
      OuterLevelsStay(ix, box, lvs, tips, tiles, lvs', tips', tiles', n - 1);
    }
  }

  // ---------------------------------------------------------------- coordinates of a tile, as the source computes them

  function Wrap32(n: int): int { (n + HALF) % 0x1_0000_0000 - HALF }

  /** Tile::topY in 32-bit arithmetic */
  function TopY32(t: Tile): int { Wrap32(HALF - 1 - Wrap32(t.row * Extent(t.zoom))) }

  /** Tile::leftX in 32-bit arithmetic */
  function LeftX32(t: Tile): int
    requires t.zoom >= 1
  {
    Wrap32((t.col - Pow2(t.zoom - 1)) * Extent(t.zoom))
  }

  lemma WrapTwice(a: int)
    requires -HALF <= HALF - 1 - a < HALF
    ensures Wrap32(HALF - 1 - Wrap32(a)) == HALF - 1 - a
  {
  }

  lemma NoWrap(n: int)
    requires -HALF <= n < HALF
    ensures Wrap32(n) == n
  {
  }

  /** On tiles of the map nothing is lost to wrap-around. */
  lemma CoordinatesFit(t: Tile)
    requires 1 <= t.zoom <= 12 && 0 <= t.col < Pow2(t.zoom) && 0 <= t.row < Pow2(t.zoom)
    ensures TopY32(t) == TopY(t) && LeftX32(t) == LeftX(t)
  {
    hide Pow2, Wrap32;
    Shifts32();
    Pow2Sum(t.zoom, 32 - t.zoom);
    Pow2Sum(t.zoom - 1, 32 - t.zoom);
    var e, k := Extent(t.zoom), Pow2(t.zoom);
    InRange(t.row, k, e);
    InRange(t.col, k, e);
    assert (t.col - Pow2(t.zoom - 1)) * e == t.col * e - Pow2(t.zoom - 1) * e;
    WrapTwice(t.row * e);
    NoWrap(t.col * e - HALF);
  }

  // ---------------------------------------------------------------- the walker

  /** Trailing zeros of a non-zero number */
  function TrailingZeros(n: nat): nat {
    if n == 0 || n % 2 == 1 then 0 else 1 + TrailingZeros(n / 2)
  }

  /** The steps between the zoom levels that are set in a mask whose lowest bit stands for level 1 */
  function StepsOf(zoomLevels: nat): seq<nat>
    decreases zoomLevels
  {
    if zoomLevels == 0 then []
    else
      var step := TrailingZeros(zoomLevels) + 1;
      ShiftedIsSmaller(zoomLevels, step);
      [step] + StepsOf(zoomLevels / Pow2(step))
  }

  lemma ShiftedIsSmaller(n: nat, step: nat)
    requires n > 0 && step > 0
    ensures n / Pow2(step) < n
  {
    var p := Pow2(step);
    assert p == 2 * Pow2(step - 1);
    QuotientAtLeast(n, p, n - 1);
    LessOrEqualTimes(2, p, n - 1);
    QuotientAtLeast(n, p, n);
  }

  lemma StartedLevel(ix: Index, box: Box, l: nat, lv: Level, tip: int, tile: Tile)
    requires ValidSteps(ix) && l < |ix.steps| && Record(ix, l, tip) && tile.zoom == Zoom(ix, l) && Reached(box, tile)
    requires var w := WindowOf(tile, ix.steps[l], box);
             lv == Level(MaskAt(ix, tip), FirstChild(ix, l, tip), Tile(tile.col * Pow2(ix.steps[l]), tile.row * Pow2(ix.steps[l]), Zoom(ix, l + 1)),
                         ix.steps[l], w.startCol, w.endCol, w.endRow, w.startCol - 1, w.startRow)
    ensures LevelOk(ix, box, l, lv, tip, tile) && Ahead(ix, box, l, lv, tip, tile) == Scanned(ix, l, tip, tile, 0, box)
  {
    hide Record, Pow2, Scanned, WindowOf, Reached, MaskAt;
    ZoomBound(ix, l + 1);
    ChildZoom(ix, l);
    WindowStarts(box, tile, ix.steps[l]);
    LevelStarted(ix, box, l, lv, tip, tile);
  }

  lemma FirstStep(z: nat, steps: seq<nat>)
    requires StepsOf(z) == steps && steps != []
    ensures z > 0 && steps[0] == TrailingZeros(z) + 1 && StepsOf(z / Pow2(steps[0])) == steps[1..]
  {
    hide Pow2;
  }

  lemma MoreSteps(z: nat)
    ensures z == 0 <==> StepsOf(z) == []
  {
  }

  lemma {:induction false} LowZeros(n: nat, z: nat)
    requires n > 0
    ensures var t := TrailingZeros(n); (z < t ==> !Bit(n, z)) && (z == t ==> Bit(n, z))
  {
    if n % 2 == 0 {
      if z > 0 {
        LowZeros(n / 2, z - 1);
        HalfAgain(n, z - 1);
      }
    }
  }

  function Quotient(n: nat, d: nat): nat
    requires d > 0
  {
    n / d
  }

  lemma BitAbove(n: nat, k: nat, z: nat)
    ensures Bit(Quotient(n, Pow2(k)), z) <==> Bit(n, k + z)
  {
    hide Pow2, Bit;
    Pow2Sum(k, z);
    DivideTwice(n, Pow2(k), Pow2(z), Pow2(k + z));
    BitIs(Quotient(n, Pow2(k)), z, Quotient(n, Pow2(k + z)));
    BitIs(n, k + z, Quotient(n, Pow2(k + z)));
  }

  lemma BitIs(n: nat, i: nat, q: nat)
    requires q == n / Pow2(i)
    ensures Bit(n, i) <==> q % 2 == 1
  {
    hide Pow2;
  }

  /** What is left of the mask after `k` steps */
  function Left(n: nat, ix: Index, k: nat): nat { Quotient(n, Pow2(Zoom(ix, k))) }

  lemma LeftStep(n: nat, ix: Index, k: nat)
    requires k < |ix.steps|
    ensures Left(n, ix, k + 1) == Left(n, ix, k) / Pow2(ix.steps[k])
  {
    hide Pow2, Zoom;
    ChildZoom(ix, k);
    Pow2Sum(Zoom(ix, k), ix.steps[k]);
    DivideTwice(n, Pow2(Zoom(ix, k)), Pow2(ix.steps[k]), Pow2(Zoom(ix, k + 1)));
  }

  /** It has the steps that are left. */
  lemma {:induction false} StepsLeft(n: nat, ix: Index, k: nat)
    requires ix.steps == StepsOf(n) && k <= |ix.steps|
    ensures StepsOf(Left(n, ix, k)) == ix.steps[k..]
  {
    hide StepsOf, Pow2, Left;
    if k == 0 {
      NothingDone(n, ix);
    } else {
      StepsLeft(n, ix, k - 1);
      LeftStep(n, ix, k - 1);
      FirstStep(Left(n, ix, k - 1), ix.steps[k - 1..]);
      assert ix.steps[k - 1..][1..] == ix.steps[k..];
    }
  }

  lemma NothingDone(n: nat, ix: Index)
    ensures Left(n, ix, 0) == n
  {
    assert Pow2(0) == 1;
    RootZoom(ix);
  }

  /** Between two levels no bit is set, and the bit of the next level is. */
  lemma LevelBits(n: nat, ix: Index, k: nat, z: nat)
    requires ix.steps == StepsOf(n) && k < |ix.steps| && Zoom(ix, k) <= z < Zoom(ix, k + 1)
    ensures Bit(n, z) <==> z + 1 == Zoom(ix, k + 1)
  {
    hide StepsOf, Pow2, Bit, Zoom, TrailingZeros;
    var low, left := Zoom(ix, k), Left(n, ix, k);
    StepsLeft(n, ix, k);
    ChildZoom(ix, k);
    FirstStep(left, ix.steps[k..]);
    LowZeros(left, z - low);
    BitAbove(n, low, z - low);
  }

  lemma NoBitLeft(n: nat, ix: Index, z: nat)
    requires ix.steps == StepsOf(n) && z >= Zoom(ix, |ix.steps|)
    ensures !Bit(n, z)
  {
    hide StepsOf, Pow2, Zoom;
    StepsLeft(n, ix, |ix.steps|);
    MoreSteps(Left(n, ix, |ix.steps|));
    BitAbove(n, Zoom(ix, |ix.steps|), z - Zoom(ix, |ix.steps|));
    assert 0 / Pow2(z - Zoom(ix, |ix.steps|)) == 0;
  }

  lemma {:induction false} LevelOfBit(n: nat, ix: Index, z: nat, k: nat)
    requires ix.steps == StepsOf(n) && k <= |ix.steps| && z >= Zoom(ix, k) && Bit(n, z)
    ensures exists l :: k < l <= |ix.steps| && Zoom(ix, l) == z + 1
    decreases |ix.steps| - k
  {
    hide StepsOf, Pow2, Bit, Zoom;
    if k == |ix.steps| {
      NoBitLeft(n, ix, z);
    } else if z < Zoom(ix, k + 1) {
      LevelBits(n, ix, k, z);
    } else {
      LevelOfBit(n, ix, z, k + 1);
    }
  }

  /** The levels of the tree are the zoom levels whose bits are set, level 0 aside. */
  lemma LevelsAreBits(zoomLevels: nat, ix: Index, z: nat)
    requires ix.steps == StepsOf(zoomLevels / 2) && z >= 1
    ensures zoomLevels / Pow2(z) % 2 == 1 <==> exists l: nat :: 1 <= l <= |ix.steps| && Zoom(ix, l) == z
  {
    var n := zoomLevels / 2;
    HalfAgain(zoomLevels, z - 1);
    assert Bit(n, z - 1) <==> zoomLevels / Pow2(z) % 2 == 1;
    hide StepsOf, Pow2, Bit, Zoom;
    RootZoom(ix);
    if Bit(n, z - 1) {
      LevelOfBit(n, ix, z - 1, 0);
    }
    if l: nat :| 1 <= l <= |ix.steps| && Zoom(ix, l) == z {
      ChildZoom(ix, l - 1);
      StepIsPositive(n, ix, l - 1);
      LevelBits(n, ix, l - 1, z - 1);
    }
  }

  lemma StepIsPositive(n: nat, ix: Index, k: nat)
    requires ix.steps == StepsOf(n) && k < |ix.steps|
    ensures ix.steps[k] > 0
  {
    hide StepsOf, Pow2, Zoom;
    StepsLeft(n, ix, k);
    FirstStep(Left(n, ix, k), ix.steps[k..]);
  }

  lemma RootStarted(ix: Index, box: Box, lvs: seq<Level>)
    requires Record(ix, 0, 1) && lvs != [] && LevelOk(ix, box, 0, lvs[0], 1, ROOT)
    requires Ahead(ix, box, 0, lvs[0], 1, ROOT) == Scanned(ix, 0, 1, ROOT, 0, box)
    ensures LevelsOk(ix, box, lvs, [1], [ROOT], 1)
    ensures [Visit(1, ROOT)] + AllAhead(ix, box, lvs, [1], [ROOT], 1) == Walked(ix, box)
  {
    hide Record, LevelOk, Ahead, Scanned;
    assert Ahead(ix, box, 0, lvs[0], 1, ROOT) + [] == Ahead(ix, box, 0, lvs[0], 1, ROOT);
  }

  lemma FewSteps(ix: Index)
    requires ValidSteps(ix)
    ensures 0 < |ix.steps| < MAX_LEVELS
  {
  }

  const MAX_LEVELS: nat := 13

  class TileIndexWalker {
    const ix: Index
    const box: Box
    const levels: array<Level>
    var currentLevel: nat
    var currentTile: Tile
    var currentTip: int
    var north: bool   // MULTITILE_NORTH, MULTITILE_WEST of northwestFlags
    var west: bool
    ghost var tips: seq<int>
    ghost var tiles: seq<Tile>

    /** The walk starts at the root tile, with all that it will visit below the root pending. */
    constructor (ix: Index, zoomLevels: nat, box: Box)
      requires ix.steps == StepsOf(zoomLevels / 2) && ValidSteps(ix) && Fits32(box) && Record(ix, 0, 1)
      ensures Valid() && fresh(levels) && this.ix == ix && this.box == box
      ensures currentTile == ROOT && currentTip == 1 && !north && !west
      ensures [Visit(currentTip, currentTile)] + Pending() == Walked(ix, box)
    {
      this.ix, this.box, levels := ix, box, new Level[MAX_LEVELS - 1];
      currentLevel, currentTile, currentTip, north, west := 0, ROOT, 1, false, false;
      tips, tiles := [1], [ROOT];
      new;
      hide Record, StepsOf, Walked, ValidSteps, Fits32, TileIndexWalker.Valid, TileIndexWalker.Pending;
      Begin(zoomLevels);
    }

    /** Starts the first level, at the root tile. */
    method Begin(zoomLevels: nat)
      requires ix.steps == StepsOf(zoomLevels / 2) && ValidSteps(ix) && Fits32(box) && Record(ix, 0, 1)
      requires levels.Length == MAX_LEVELS - 1 && currentLevel == 0 && currentTile == ROOT && tips == [1] && tiles == [ROOT]
      modifies levels
      ensures Valid() && [Visit(1, ROOT)] + Pending() == Walked(ix, box)
    {
      hide Record, StepsOf, LevelOk, LevelsOk, Ahead, AllAhead, Reached, Scanned, Pow2, Walked, Zoom, ValidSteps, Fits32;
      FewSteps(ix);
      FillLevels(zoomLevels);
      RootReached(box);
      RootZoom(ix);
      StartLevel(0, 1);
      RootStarted(ix, box, levels[..]);
    }

    /** Gives each level its step and zoom: the distances between the bits that are set. */
    method FillLevels(zoomLevels: nat)
      requires ix.steps == StepsOf(zoomLevels / 2) && ValidSteps(ix) && levels.Length == MAX_LEVELS - 1
      modifies levels
      ensures forall k: nat {:trigger levels[k]} :: k < |ix.steps| < MAX_LEVELS ==> levels[k].step == ix.steps[k] && levels[k].topLeftChildTile.zoom == Zoom(ix, k + 1)
    {
      hide StepsOf, Pow2, TrailingZeros, Zoom, ValidSteps;
      FewSteps(ix);
      RootZoom(ix);
      var zoom: nat, l: nat, z: nat := 0, 0, zoomLevels / 2;
      assert ix.steps[0..] == ix.steps;
      while true
        invariant 0 <= l < |ix.steps| && StepsOf(z) == ix.steps[l..] && zoom == Zoom(ix, l)
        invariant forall k: nat {:trigger levels[k]} :: k < l ==> levels[k].step == ix.steps[k] && levels[k].topLeftChildTile.zoom == Zoom(ix, k + 1)
        decreases |ix.steps| - l
      {
        FirstStep(z, ix.steps[l..]);
        ChildZoom(ix, l);
        var step := TrailingZeros(z) + 1;
        zoom := zoom + step;
        levels[l] := levels[l].(topLeftChildTile := Tile(0, 0, zoom), step := step);
        z := z / Pow2(step);
        assert ix.steps[l..][1..] == ix.steps[l + 1..];
        MoreSteps(z);
        if z == 0 { break; }
        l := l + 1;
      }
    }

    /** Every level knows its step and zoom; the levels up to the current one stand in a tile's children. */
    ghost predicate Valid()
      reads this, levels
    {
      && ValidSteps(ix) && Fits32(box) && levels.Length == MAX_LEVELS - 1
      && currentLevel < |ix.steps| && |tips| == |tiles| == currentLevel + 1
      && (forall k: nat {:trigger levels[k]} :: k < |ix.steps| ==> levels[k].step == ix.steps[k] && levels[k].topLeftChildTile.zoom == Zoom(ix, k + 1))
      && LevelsOk(ix, box, levels[..], tips, tiles, currentLevel + 1)
    }

    /** The tiles still to come */
    ghost function Pending(): seq<Visit>
      requires Valid()
      reads this, levels
    {
      AllAhead(ix, box, levels[..], tips, tiles, currentLevel + 1)
    }

    /** Starts the level in front of the first child of the tile whose record is at `tip`. */
    method StartLevel(l: nat, tip: int)
      requires ValidSteps(ix) && Fits32(box) && levels.Length == MAX_LEVELS - 1 && l < |ix.steps| && Record(ix, l, tip)
      requires levels[l].step == ix.steps[l] && levels[l].topLeftChildTile.zoom == Zoom(ix, l + 1)
      requires currentTile.zoom == Zoom(ix, l) && Reached(box, currentTile)
      modifies levels
      ensures forall k :: 0 <= k < levels.Length && k != l ==> levels[k] == old(levels[k])
      ensures levels[l].step == ix.steps[l] && levels[l].topLeftChildTile.zoom == Zoom(ix, l + 1)
      ensures LevelOk(ix, box, l, levels[l], tip, currentTile)
      ensures Ahead(ix, box, l, levels[l], tip, currentTile) == Scanned(ix, l, tip, currentTile, 0, box)
    {
      hide Record, Pow2, Scanned, Column, Row, Reached, LevelOk, MaskAt, Max, Min, Fits32, Zoom, Ahead, Extent, ValidSteps;
      ChildZoom(ix, l);
      FewSteps(ix);
      var lv := levels[l];
      var zoom, step := lv.topLeftChildTile.zoom, lv.step;
      var extent := Pow2(step);
      var tileTop, tileLeft := currentTile.row * Pow2(step), currentTile.col * Pow2(step);
      var left, right := Column(box.minX, zoom), Column(box.maxX, zoom);
      var top, bottom := Row(box.maxY, zoom), Row(box.minY, zoom);
      var startCol, startRow := Max(left - tileLeft, 0), Max(top - tileTop, 0);
      levels[l] := Level(
        MaskAt(ix, tip), tip + if step == 3 then 3 else 2, Tile(tileLeft, tileTop, zoom), step,
        startCol, Min(right - tileLeft, extent - 1), Min(bottom - tileTop, extent - 1), startCol - 1, startRow);
      StartedLevel(ix, box, l, levels[l], tip, currentTile);
    }

    /** Moves to the next cell of the row, to the start of the next row, or out to the parent level. */
    method Advance() returns (moved: bool, done: bool)
      requires Valid()
      modifies this`currentLevel, this`tips, this`tiles, levels
      ensures done ==> !moved && old(Pending()) == []
      ensures !done ==> Valid() && currentLevel < levels.Length
      ensures !moved && !done ==> currentLevel < old(currentLevel) && Pending() == old(Pending())
      ensures moved ==> currentLevel == old(currentLevel) < levels.Length && tips == old(tips) && tiles == old(tiles)
      ensures moved ==> AtCell(levels[currentLevel]) && CellsLeft(levels[currentLevel]) < CellsLeft(old(levels[currentLevel]))
      ensures moved ==> old(Pending()) == CurrentCell(ix, box, currentLevel, levels[currentLevel], tips[currentLevel], tiles[currentLevel]) + Pending()
    {
      hide LevelOk, LevelsOk, Ahead, Record, Zoom, CurrentCell, ValidSteps, Fits32, CellsLeft, AllAhead;
      ghost var before, l := levels[..], currentLevel;
      TopLevel(ix, box, before, tips, tiles, currentLevel);
      var lv := levels[currentLevel];
      LevelMoves(ix, box, currentLevel, lv, tips[currentLevel], tiles[currentLevel]);
      levels[currentLevel] := lv.(currentCol := lv.currentCol + 1);
      if levels[currentLevel].currentCol > levels[currentLevel].endCol {
        levels[currentLevel] := levels[currentLevel].(currentRow := lv.currentRow + 1);
        if levels[currentLevel].currentRow > levels[currentLevel].endRow {
          if currentLevel == 0 {
            NoLevels(ix, box, before, tips, tiles);
            return false, true;
          }
          currentLevel := currentLevel - 1;
          LevelLeft(ix, box, before, tips, tiles, l, levels[..]);
          tips, tiles := tips[..l], tiles[..l];
          return false, false;
        }
        levels[currentLevel] := levels[currentLevel].(currentCol := lv.startCol);
      }
      moved, done := true, false;
      LevelReplaced(ix, box, before, tips, tiles, l, levels[..]);
    }

    /** Makes the tile at the level's current cell the current tile, and enters its children if it has any. */
    method VisitCell()
      requires Valid() && currentLevel < levels.Length && AtTile(levels[currentLevel])
      modifies this`currentLevel, this`currentTile, this`currentTip, this`north, this`west, this`tips, this`tiles, levels
      ensures Valid()
      ensures old(CurrentCell(ix, box, currentLevel, levels[currentLevel], tips[currentLevel], tiles[currentLevel]) + Pending()) ==
              [Visit(currentTip, currentTile)] + Pending()
      ensures OnTheMap(currentTile) && (Simple(box) ==> Meets(box, currentTile)) && north == (box.maxY > TopY(currentTile)) && west == (box.minX < LeftX(currentTile))
    {
      hide LevelOk, LevelsOk, Ahead, Record, Entry, Zoom, CurrentCell, ValidSteps, Fits32, AllAhead, TopY32, LeftX32, TopY, LeftX, Reached, OnTheMap, Meets, Simple,
        Scanned, ToInt32, IsPointer, BitCount, ShiftLeft64, Bit, CellAt;
      ghost var before, l := levels[..], currentLevel;
      TopLevel(ix, box, before, tips, tiles, l);
      var lv := levels[currentLevel];
      CellVisited(ix, box, l, lv, tips[l], tiles[l]);
      FewSteps(ix);
      var childNumber := CellAt(lv.step, lv.currentCol, lv.currentRow);
      var childEntry := BitCount(ShiftLeft64(lv.childTileMask, 63 - childNumber)) - 1;
      currentTile := TileAtCell(lv);
      north := box.maxY > TopY32(currentTile);
      west := box.minX < LeftX32(currentTile);
      var tip := lv.pChildEntries + childEntry;
      var pageOrPtr := ix.words[tip];
      if IsPointer(pageOrPtr) {
        currentLevel := currentLevel + 1;
        tip := tip + (ToInt32(pageOrPtr) - 1) / 4;
        StartLevel(currentLevel, tip);
        LevelEntered(ix, box, before, tips, tiles, l, levels[..], tip, currentTile);
        tips, tiles := tips + [tip], tiles + [currentTile];
      }
      currentTip := tip;
    }

    /** Moves to the next tile: what was pending is this tile and what is pending then. */
    method Next() returns (more: bool)
      requires Valid()
      modifies this`currentLevel, this`currentTile, this`currentTip, this`north, this`west, this`tips, this`tiles, levels
      ensures !more ==> old(Pending()) == []
      ensures more ==> Valid() && old(Pending()) == [Visit(currentTip, currentTile)] + Pending()
      ensures more ==> OnTheMap(currentTile) && (Simple(box) ==> Meets(box, currentTile)) && north == (box.maxY > TopY(currentTile)) && west == (box.minX < LeftX(currentTile))
    {
      hide LevelsOk, Record, Entry, Zoom, ValidSteps, Fits32, AllAhead, CellsLeft, TopY, LeftX, Meets, Simple, OnTheMap, Bit, CellAt, CurrentCell;
      InnermostLevel();
      while true
        invariant Valid() && currentLevel < levels.Length && Pending() == old(Pending())
        decreases currentLevel, CellsLeft(levels[currentLevel])
      {
        var moved, done := Advance();
        if done {
          return false;
        }
        InnermostLevel();
        if moved {
          var lv := levels[currentLevel];
          var childNumber := CellAt(lv.step, lv.currentCol, lv.currentRow);
          CellInside();
          if Bit(lv.childTileMask, childNumber) {
            VisitCell();
            return true;
          }
        }
      }
    }

    lemma InnermostLevel()
      requires Valid()
      ensures currentLevel < levels.Length && 0 <= CellsLeft(levels[currentLevel])
    {
      hide Record, Zoom;
      TopLevel(ix, box, levels[..], tips, tiles, currentLevel);
      NextCellInMatrix(ix, box, currentLevel, levels[currentLevel], tips[currentLevel], tiles[currentLevel]);
    }

    lemma CellInside()
      requires Valid() && currentLevel < levels.Length && AtCell(levels[currentLevel])
      ensures var lv := levels[currentLevel];
              && 0 <= CellAt(lv.step, lv.currentCol, lv.currentRow)
              && (!Bit(lv.childTileMask, CellAt(lv.step, lv.currentCol, lv.currentRow)) ==>
                    CurrentCell(ix, box, currentLevel, lv, tips[currentLevel], tiles[currentLevel]) == [])
    {
      hide Record, Zoom, LevelOk, LevelsOk, Visited, Entry, EntryAt, Child, Ahead, AllAhead, AtCell, CellAt, Bit, Fits32, ValidSteps;
      TopLevel(ix, box, levels[..], tips, tiles, currentLevel);
      CellNotNegative(ix, box, currentLevel, levels[currentLevel], tips[currentLevel], tiles[currentLevel]);
    }
  }

  lemma CellNotNegative(ix: Index, box: Box, l: nat, lv: Level, t: int, tile: Tile)
    requires LevelOk(ix, box, l, lv, t, tile) && AtCell(lv)
    ensures 0 <= CellAt(lv.step, lv.currentCol, lv.currentRow)
  {
    StopsHere(ix, box, l, lv, t, tile);
  }

  /** A measure of the cells that a level has left */
  function CellsLeft(lv: Level): int { Cells(lv.step) - NextCell(lv) }

  predicate AtTile(lv: Level) {
    AtCell(lv) && CellAt(lv.step, lv.currentCol, lv.currentRow) >= 0 && Bit(lv.childTileMask, CellAt(lv.step, lv.currentCol, lv.currentRow))
  }

  /** The tile at the level's current cell */
  function TileAtCell(lv: Level): Tile {
    Tile(lv.topLeftChildTile.col + lv.currentCol, lv.topLeftChildTile.row + lv.currentRow, lv.topLeftChildTile.zoom)
  }

  /** What the current cell of a level contributes: nothing, or what is visited of its subtree */
  ghost function CurrentCell(ix: Index, box: Box, l: nat, lv: Level, t: int, tile: Tile): seq<Visit> {
    var c := CellAt(lv.step, lv.currentCol, lv.currentRow);
    if 0 <= c && Bit(lv.childTileMask, c) && Entry(ix, l + 1, EntryAt(ix, l, t, c))
    then Visited(ix, l + 1, EntryAt(ix, l, t, c), Child(tile, lv.step, c), box)
    else []
  }

  /** Where the level goes next, and what that leaves ahead of it */
  lemma LevelMoves(ix: Index, box: Box, l: nat, lv: Level, t: int, tile: Tile)
    requires LevelOk(ix, box, l, lv, t, tile)
    ensures var lv' := Advanced(lv);
            if AtEnd(lv) then Ahead(ix, box, l, lv, t, tile) == []
            else
              && LevelOk(ix, box, l, lv', t, tile) && AtCell(lv') && 0 <= CellsLeft(lv') < CellsLeft(lv)
              && Ahead(ix, box, l, lv, t, tile) == CurrentCell(ix, box, l, lv', t, tile) + Ahead(ix, box, l, lv', t, tile)
  {
    hide LevelOk, Record, Pow2, Scanned, Cells, AtEnd, Advanced, CurrentCell, NextCell, AtCell, WindowOf, Stands;
    if AtEnd(lv) {
      NothingAhead(ix, box, l, lv, t, tile);
    } else {
      AdvancedOk(ix, box, l, lv, t, tile);
      NextCellInMatrix(ix, box, l, lv, t, tile);
      NextCellInMatrix(ix, box, l, Advanced(lv), t, tile);
      NothingBetween(ix, box, l, lv, t, tile);
      CellEntered(ix, box, l, Advanced(lv), t, tile);
    }
  }

  lemma NothingAhead(ix: Index, box: Box, l: nat, lv: Level, t: int, tile: Tile)
    requires LevelOk(ix, box, l, lv, t, tile) && AtEnd(lv)
    ensures Ahead(ix, box, l, lv, t, tile) == []
  {
    var w, p := WindowOf(tile, lv.step, box), Pow2(lv.step);
    hide Record, Pow2, WindowOf, ScansCell, Reached;
    NextCellInMatrix(ix, box, l, lv, t, tile);
    forall k: nat {:trigger Scans(box, tile, Step(ix, l), k)} | NextCell(lv) <= k < Cells(Step(ix, l)) ensures !Scans(box, tile, Step(ix, l), k) {
      MatrixLeft(w, p, lv.currentCol, lv.currentRow, k);
    }
    SkipCells(ix, l, t, tile, NextCell(lv), Cells(Step(ix, l)), box);
  }

  lemma NothingBetween(ix: Index, box: Box, l: nat, lv: Level, t: int, tile: Tile)
    requires LevelOk(ix, box, l, lv, t, tile) && !AtEnd(lv)
    ensures Record(ix, l, t) && 0 <= NextCell(lv) <= NextCell(Advanced(lv)) - 1 <= Cells(Step(ix, l))
    ensures Scanned(ix, l, t, tile, NextCell(lv), box) == Scanned(ix, l, t, tile, NextCell(Advanced(lv)) - 1, box)
  {
    var w, p := WindowOf(tile, lv.step, box), Pow2(lv.step);
    hide LevelOk, Record, Pow2, WindowOf, ScansCell, Reached, Scanned, Cells, Stands, NextCell;
    AdvancedOk(ix, box, l, lv, t, tile);
    NextCellInMatrix(ix, box, l, lv, t, tile);
    NextCellInMatrix(ix, box, l, Advanced(lv), t, tile);
    forall k: nat {:trigger Scans(box, tile, Step(ix, l), k)} | NextCell(lv) <= k < NextCell(Advanced(lv)) - 1
      ensures !Scans(box, tile, Step(ix, l), k) {
      RowLeft(w, p, lv.currentCol, lv.currentRow, k);
    }
    SkipCells(ix, l, t, tile, NextCell(lv), NextCell(Advanced(lv)) - 1, box);
  }

  lemma CellEntered(ix: Index, box: Box, l: nat, lv: Level, t: int, tile: Tile)
    requires LevelOk(ix, box, l, lv, t, tile) && AtCell(lv)
    ensures Record(ix, l, t) && 1 <= NextCell(lv) <= Cells(Step(ix, l))
    ensures Scanned(ix, l, t, tile, NextCell(lv) - 1, box) == CurrentCell(ix, box, l, lv, t, tile) + Scanned(ix, l, t, tile, NextCell(lv), box)
  {
    hide LevelOk, Record, Pow2, Scans, Scanned, Visited, Bit, Entry, Cells, Reached, Child, EntryAt;
    StopsHere(ix, box, l, lv, t, tile);
    ScannedStep(ix, l, t, tile, NextCell(lv) - 1, box);
  }

  lemma NoLevels(ix: Index, box: Box, lvs: seq<Level>, tips: seq<int>, tiles: seq<Tile>)
    ensures LevelsOk(ix, box, lvs, tips, tiles, 0) && AllAhead(ix, box, lvs, tips, tiles, 0) == []
  {
  }

  lemma TopLevel(ix: Index, box: Box, lvs: seq<Level>, tips: seq<int>, tiles: seq<Tile>, l: nat)
    requires LevelsOk(ix, box, lvs, tips, tiles, l + 1)
    ensures l < |lvs| && l < |tips| && l < |tiles| && LevelOk(ix, box, l, lvs[l], tips[l], tiles[l]) && LevelsOk(ix, box, lvs, tips, tiles, l)
    ensures AllAhead(ix, box, lvs, tips, tiles, l + 1) == Ahead(ix, box, l, lvs[l], tips[l], tiles[l]) + AllAhead(ix, box, lvs, tips, tiles, l)
  {
    hide LevelOk, Ahead;
  }

  /** The innermost level has moved within its matrix. */
  lemma LevelReplaced(ix: Index, box: Box, lvs: seq<Level>, tips: seq<int>, tiles: seq<Tile>, l: nat, lvs': seq<Level>)
    requires LevelsOk(ix, box, lvs, tips, tiles, l + 1) && |lvs'| == |lvs| && l < |lvs| && lvs'[..l] == lvs[..l]
    requires LevelOk(ix, box, l, lvs'[l], tips[l], tiles[l])
    ensures LevelsOk(ix, box, lvs', tips, tiles, l + 1) && LevelsOk(ix, box, lvs, tips, tiles, l)
    ensures AllAhead(ix, box, lvs', tips, tiles, l + 1) == Ahead(ix, box, l, lvs'[l], tips[l], tiles[l]) + AllAhead(ix, box, lvs, tips, tiles, l)
  {
    hide LevelOk, Ahead, AllAhead;
    TopLevel(ix, box, lvs, tips, tiles, l);
    OuterLevelsStay(ix, box, lvs, tips, tiles, lvs', tips, tiles, l);
    assert LevelsOk(ix, box, lvs', tips, tiles, l + 1);
    TopLevel(ix, box, lvs', tips, tiles, l);
  }

  /** The innermost level is exhausted: the levels around it go on. */
  lemma LevelLeft(ix: Index, box: Box, lvs: seq<Level>, tips: seq<int>, tiles: seq<Tile>, l: nat, lvs': seq<Level>)
    requires LevelsOk(ix, box, lvs, tips, tiles, l + 1) && |lvs'| == |lvs| && l < |lvs| && lvs'[..l] == lvs[..l]
    requires |tips| == |tiles| == l + 1
    ensures LevelsOk(ix, box, lvs', tips[..l], tiles[..l], l) && LevelsOk(ix, box, lvs, tips, tiles, l)
    ensures AllAhead(ix, box, lvs', tips[..l], tiles[..l], l) == AllAhead(ix, box, lvs, tips, tiles, l)
  {
    hide LevelOk, Ahead, AllAhead;
    TopLevel(ix, box, lvs, tips, tiles, l);
    assert tips[..l][..l] == tips[..l] && tiles[..l][..l] == tiles[..l];
    OuterLevelsStay(ix, box, lvs, tips, tiles, lvs', tips[..l], tiles[..l], l);
  }

  /** The source's way to the entry of the current cell */
  lemma CellEntry(ix: Index, box: Box, l: nat, lv: Level, t: int, tile: Tile)
    requires LevelOk(ix, box, l, lv, t, tile) && AtTile(lv) && ValidSteps(ix)
    ensures CellAt(lv.step, lv.currentCol, lv.currentRow) < 64 && l < |ix.steps|
    ensures var c := CellAt(lv.step, lv.currentCol, lv.currentRow);
            && lv.pChildEntries + BitCount(ShiftLeft64(lv.childTileMask, 63 - c)) - 1 == EntryAt(ix, l, t, c)
            && Entry(ix, l + 1, EntryAt(ix, l, t, c)) && TileAtCell(lv) == Child(tile, lv.step, c) && lv.childTileMask == MaskAt(ix, t)
    ensures Reached(box, TileAtCell(lv)) && 1 <= TileAtCell(lv).zoom == Zoom(ix, l + 1) <= 12
  {
    hide Pow2, Record, Entry, BitCount, ShiftLeft64, Ones, Bit, Reached, LevelOk, Cells, Scans, Child, Scanned, Visited;
    var c := CellAt(lv.step, lv.currentCol, lv.currentRow);
    StopsHere(ix, box, l, lv, t, tile);
    ScannedStep(ix, l, t, tile, c, box);
    FewCells(ix, l);
    RankByShift(lv.childTileMask, c);
    ZoomBound(ix, l + 1);
    ChildZoom(ix, l);
    ChildReached(box, tile, lv.step, c);
  }

  /** What the source finds there */
  lemma CellVisited(ix: Index, box: Box, l: nat, lv: Level, t: int, tile: Tile)
    requires LevelOk(ix, box, l, lv, t, tile) && AtTile(lv) && ValidSteps(ix)
    ensures CellAt(lv.step, lv.currentCol, lv.currentRow) < 64
    ensures var p := lv.pChildEntries + BitCount(ShiftLeft64(lv.childTileMask, 63 - CellAt(lv.step, lv.currentCol, lv.currentRow))) - 1;
            && 0 <= p < |ix.words|
            && if IsPointer(ix.words[p]) then
                 var t' := p + (ToInt32(ix.words[p]) - 1) / 4;
                 && l + 1 < |ix.steps| && Record(ix, l + 1, t')
                 && CurrentCell(ix, box, l, lv, t, tile) == [Visit(t', TileAtCell(lv))] + Scanned(ix, l + 1, t', TileAtCell(lv), 0, box)
               else CurrentCell(ix, box, l, lv, t, tile) == [Visit(p, TileAtCell(lv))]
    ensures Reached(box, TileAtCell(lv)) && 1 <= TileAtCell(lv).zoom == Zoom(ix, l + 1)
    ensures OnTheMap(TileAtCell(lv)) && (Simple(box) ==> Meets(box, TileAtCell(lv)))
    ensures TopY32(TileAtCell(lv)) == TopY(TileAtCell(lv)) && LeftX32(TileAtCell(lv)) == LeftX(TileAtCell(lv))
  {
    hide Pow2, Record, Entry, BitCount, ShiftLeft64, Ones, Meets, Simple, LevelOk, EntryAt, Child, TopY32, LeftX32, TopY, LeftX, Scanned, Visited, Column, Row;
    CellEntry(ix, box, l, lv, t, tile);
    CoordinatesFit(TileAtCell(lv));
    EntryVisited(ix, l + 1, EntryAt(ix, l, t, CellAt(lv.step, lv.currentCol, lv.currentRow)), TileAtCell(lv), box);
  }

  lemma FewCells(ix: Index, l: nat)
    requires ValidSteps(ix) && l < |ix.steps|
    ensures Cells(Step(ix, l)) <= 64
  {
    assert Pow2(1) == 2 && Pow2(2) == 4 && Pow2(3) == 8;
  }

  lemma EntryVisited(ix: Index, l: nat, p: int, tile: Tile, box: Box)
    requires Entry(ix, l, p)
    ensures 0 <= p < |ix.words|
    ensures if IsPointer(ix.words[p]) then
              var t := Target(p, ix.words[p]);
              && l < |ix.steps| && Record(ix, l, t)
              && Visited(ix, l, p, tile, box) == [Visit(t, tile)] + Scanned(ix, l, t, tile, 0, box)
            else Visited(ix, l, p, tile, box) == [Visit(p, tile)]
  {
    hide Scanned, Record;
  }

  /** A level was started inside the innermost one. */
  lemma LevelEntered(ix: Index, box: Box, lvs: seq<Level>, tips: seq<int>, tiles: seq<Tile>, l: nat, lvs': seq<Level>, tip: int, tile: Tile)
    requires LevelsOk(ix, box, lvs, tips, tiles, l + 1) && |lvs'| == |lvs| && l + 1 < |lvs| && lvs'[..l + 1] == lvs[..l + 1]
    requires |tips| == |tiles| == l + 1 && LevelOk(ix, box, l + 1, lvs'[l + 1], tip, tile)
    ensures LevelsOk(ix, box, lvs', tips + [tip], tiles + [tile], l + 2)
    ensures AllAhead(ix, box, lvs', tips + [tip], tiles + [tile], l + 2) ==
            Ahead(ix, box, l + 1, lvs'[l + 1], tip, tile) + AllAhead(ix, box, lvs, tips, tiles, l + 1)
  {
    hide LevelOk, Ahead, AllAhead;
    assert (tips + [tip])[..l + 1] == tips[..l + 1] && (tiles + [tile])[..l + 1] == tiles[..l + 1];
    OuterLevelsStay(ix, box, lvs, tips, tiles, lvs', tips + [tip], tiles + [tile], l + 1);
    assert LevelsOk(ix, box, lvs', tips + [tip], tiles + [tile], l + 2);
    TopLevel(ix, box, lvs', tips + [tip], tiles + [tile], l + 1);
  }

  // ---------------------------------------------------------------- a whole walk

  /** The root and repeated `next`, for any box; if the box is simple: exactly the tree's tiles that meet it, in pre-order */
  method Walk(ix: Index, zoomLevels: nat, box: Box) returns (visits: seq<Visit>)
    requires ix.steps == StepsOf(zoomLevels / 2) && ValidSteps(ix) && Fits32(box) && Record(ix, 0, 1)
    ensures visits == Walked(ix, box)
    ensures Simple(box) ==> visits == Meeting(AllTiles(ix), box)
  {
    hide Record, ValidSteps, StepsOf, Walked, Meeting, AllTiles, Simple, Fits32, TileIndexWalker.Valid, TileIndexWalker.Pending, Meets, TopY, LeftX, OnTheMap;
    if Simple(box) { SimpleWalk(ix, box); }
    var tiw := new TileIndexWalker(ix, zoomLevels, box);
    visits := [Visit(tiw.currentTip, tiw.currentTile)];
    var more := tiw.Next();
    while more
      invariant fresh(tiw) && fresh(tiw.levels) && (more ==> tiw.Valid())
      invariant Walked(ix, box) == if more then visits + [Visit(tiw.currentTip, tiw.currentTile)] + tiw.Pending() else visits
      decreases if more then 1 + |tiw.Pending()| else 0
    {
      visits := visits + [Visit(tiw.currentTip, tiw.currentTile)];
      more := tiw.Next();
    }
  }

  // ---------------------------------------------------------------- the reverse index

  /** A tile as a 32-bit number */
  function TileNumber(t: Tile): int { 0x100_0000 * t.zoom + 0x1000 * t.row + t.col }

  /** Column, row and zoom level are bits 0 to 11, 12 to 23 and 24 to 27 of the number. */
  lemma TileNumberBits(t: Tile)
    requires OnTheMap(t)
    ensures var n := TileNumber(t);
            && 0 <= n < 0x1000_0000 && n % 0x1000 == t.col && n / 0x1000 % 0x1000 == t.row && n / 0x100_0000 == t.zoom
  {
    hide Pow2;
    SmallPow2(t.zoom);
    hide OnTheMap;
    NumberParts(t.zoom, t.row, t.col);
  }

  lemma NumberParts(z: nat, r: nat, c: nat)
    requires z <= 12 && r < 0x1000 && c < 0x1000
    ensures var n := 0x100_0000 * z + 0x1000 * r + c;
            n % 0x1000 == c && n / 0x1000 % 0x1000 == r && n / 0x100_0000 == z
  {
    By12Bits(0x1000 * (0x1000 * z + r) + c, 0x1000 * z + r, c);
    By12Bits(0x1000 * z + r, z, r);
    By24Bits(0x100_0000 * z + (0x1000 * r + c), z, 0x1000 * r + c);
  }

  lemma By12Bits(n: nat, q: nat, r: nat)
    requires n == 0x1000 * q + r && r < 0x1000
    ensures n / 0x1000 == q && n % 0x1000 == r
  {
  }

  lemma By24Bits(n: nat, q: nat, r: nat)
    requires n == 0x100_0000 * q + r && r < 0x100_0000
    ensures n / 0x100_0000 == q
  {
  }

  /** The number tells the tile. */
  lemma TileNumberTells(a: Tile, b: Tile)
    requires OnTheMap(a) && OnTheMap(b) && TileNumber(a) == TileNumber(b)
    ensures a == b
  {
    hide Pow2;
    SmallPow2(a.zoom);
    SmallPow2(b.zoom);
    hide OnTheMap;
    NumberTells(a.zoom, a.row, a.col, b.zoom, b.row, b.col);
  }

  lemma NumberTells(z: int, r: int, c: int, z': int, r': int, c': int)
    requires 0 <= r < 0x1000 && 0 <= r' < 0x1000 && 0 <= c < 0x1000 && 0 <= c' < 0x1000
    requires 0x100_0000 * z + 0x1000 * r + c == 0x100_0000 * z' + 0x1000 * r' + c'
    ensures z == z' && r == r' && c == c'
  {
    assert 0x1000 * (0x1000 * z + r - 0x1000 * z' - r') == c' - c;
    assert 0x1000 * z + r == 0x1000 * z' + r';
  }

  lemma {:induction false} SmallPow2(n: nat)
    requires n <= 12
    ensures Pow2(n) <= 0x1000
    decreases 12 - n
  {
    if n < 12 {
      SmallPow2(n + 1);
    } else {
      assert Pow2(6) == 64;
      Pow2Sum(6, 6);
    }
  }

  /** No two tiles share an entry, and every entry lies within the index. */
  ghost predicate OwnTips(ix: Index, tipCount: nat)
    requires Record(ix, 0, 1)
  {
    && (forall v :: v in AllTiles(ix) ==> 1 <= v.tip <= tipCount)
    && forall u, v :: u in AllTiles(ix) && v in AllTiles(ix) && u.tip == v.tip ==> u == v
  }

  /** The reverse index maps the tip of each tile back to the tile. */
  method InitializeReverseIndex(ix: Index, zoomLevels: nat, tipCount: nat) returns (index: array<int>)
    requires ix.steps == StepsOf(zoomLevels / 2) && ValidSteps(ix) && Record(ix, 0, 1) && OwnTips(ix, tipCount)
    ensures fresh(index) && index.Length == tipCount + 1 && index[0] == tipCount
    ensures forall v :: v in AllTiles(ix) ==> 0 <= v.tip <= tipCount && index[v.tip] == TileNumber(v.tile)
  {
    hide Record, ValidSteps, StepsOf, Pow2, Meeting, AllTiles, Fits32, Simple, Walked, OnTheMap, TileIndexWalker.Valid, TileIndexWalker.Pending, TileNumber, OwnTips, Meets, TopY, LeftX, Filled;
    WorldIsAll(ix);
    ghost var all := AllTiles(ix);
    index := new int[tipCount + 1];
    index[0] := tipCount;
    WorldIsSimple();
    SimpleWalk(ix, WORLD);
    var tiw := new TileIndexWalker(ix, zoomLevels, WORLD);
    ghost var seen: seq<Visit> := [];
    ghost var left := tiw.Pending();
    NothingFilled(index[..]);
    assert all == [Visit(tiw.currentTip, tiw.currentTile)] + left;
    var more := true;
    while more
      invariant fresh(index) && index.Length == tipCount + 1 && index[0] == tipCount
      invariant fresh(tiw) && fresh(tiw.levels) && (more ==> tiw.Valid() && left == tiw.Pending())
      invariant all == if more then seen + [Visit(tiw.currentTip, tiw.currentTile)] + left else seen
      invariant Filled(index[..], seen)
      decreases if more then 1 + |left| else 0
    {
      Put(index, Visit(tiw.currentTip, tiw.currentTile), ix, tipCount, seen, left);
      seen := seen + [Visit(tiw.currentTip, tiw.currentTile)];
      more := tiw.Next();
      if more {
        assert all == seen + ([Visit(tiw.currentTip, tiw.currentTile)] + tiw.Pending());
        left := tiw.Pending();
      } else {
        assert all == seen + [];
      }
    }
    FilledAll(index[..], all);
  }

  lemma NothingFilled(index: seq<int>)
    ensures Filled(index, [])
  {
  }

  lemma FilledAll(index: seq<int>, all: seq<Visit>)
    requires Filled(index, all)
    ensures forall v :: v in all ==> 0 < v.tip < |index| && index[v.tip] == TileNumber(v.tile)
  {
  }

  ghost predicate Filled(index: seq<int>, seen: seq<Visit>) {
    forall v {:trigger v in seen} :: v in seen ==> 0 < v.tip < |index| && index[v.tip] == TileNumber(v.tile)
  }

  method Put(index: array<int>, visit: Visit, ghost ix: Index, ghost tipCount: nat, ghost seen: seq<Visit>, ghost left: seq<Visit>)
    requires Record(ix, 0, 1) && OwnTips(ix, tipCount) && AllTiles(ix) == seen + [visit] + left
    requires index.Length == tipCount + 1 && Filled(index[..], seen)
    modifies index
    ensures Filled(index[..], seen + [visit]) && index[0] == old(index[0])
  {
    hide Record, AllTiles, TileNumber;
    assert visit in seen + [visit] + left && forall v :: v in seen ==> v in seen + [visit] + left;
    OwnTip(ix, tipCount, visit, seen);
    hide OwnTips;
    index[visit.tip] := TileNumber(visit.tile);
  }

  lemma OwnTip(ix: Index, tipCount: nat, visit: Visit, seen: seq<Visit>)
    requires Record(ix, 0, 1) && OwnTips(ix, tipCount) && visit in AllTiles(ix) && forall v :: v in seen ==> v in AllTiles(ix)
    ensures 1 <= visit.tip <= tipCount && forall v :: v in seen ==> v.tip != visit.tip || v == visit
  {
    hide AllTiles, Record;
  }
}
