/** The packed tile index (src/query/TileIndexWalker.cpp, include/geodesk/geom/Tile.h): tiles, the words of the
    index, and the tree of tiles that they hold. */
module TileIndexes {
  import opened Quotients

  // ---------------------------------------------------------------- powers of two, bits

  function Pow2(n: nat): (p: nat)
    ensures p > 0
  {
    if n == 0 then 1 else 2 * Pow2(n - 1)
  }

  lemma {:induction false} Pow2Sum(a: nat, b: nat)
    ensures Pow2(a + b) == Pow2(a) * Pow2(b)
  {
    if a > 0 {
      Pow2Sum(a - 1, b);
      assert Pow2(a + b) == 2 * Pow2(a - 1 + b) == 2 * (Pow2(a - 1) * Pow2(b)) == Pow2(a) * Pow2(b);
    }
  }

  predicate Bit(n: nat, i: nat) { n / Pow2(i) % 2 == 1 }

  /** Set bits of a number: the population count */
  function BitCount(n: nat): nat {
    if n == 0 then 0 else n % 2 + BitCount(n / 2)
  }

  /** Set bits below position `i` */
  function Ones(n: nat, i: nat): (ones: nat)
    ensures ones <= i
  {
    if i == 0 then 0 else Ones(n, i - 1) + if Bit(n, i - 1) then 1 else 0
  }

  lemma HalfAgain(n: nat, i: nat)
    ensures n / 2 / Pow2(i) == n / Pow2(i + 1)
  {
    var p := Pow2(i);
    var q, r := n / 2 / p, n / 2 % p;
    assert n == 2 * (q * p + r) + n % 2;
    assert 0 <= 2 * r + n % 2 < 2 * p;
    DivideUnique(n, 2 * p, q, 2 * r + n % 2);
  }

  /** Shifting out the lowest bit */
  lemma {:induction false} OnesShift(n: nat, i: nat)
    requires i > 0
    ensures Ones(n, i) == n % 2 + Ones(n / 2, i - 1)
  {
    if i == 1 {
      assert Ones(n, 1) == Ones(n, 0) + if Bit(n, 0) then 1 else 0;
    } else {
      OnesShift(n, i - 1);
      HalfAgain(n, i - 2);
    }
  }

  /** The population count of a number below 2^i counts its set bits. */
  lemma {:induction false} BitCountIsOnes(n: nat, i: nat)
    requires n < Pow2(i)
    ensures BitCount(n) == Ones(n, i)
  {
    if i > 0 {
      BitCountIsOnes(n / 2, i - 1);
      OnesShift(n, i);
    }
  }

  lemma {:induction false} BitCountOfShifted(n: nat, k: nat)
    ensures BitCount(n * Pow2(k)) == BitCount(n)
  {
    if k > 0 {
      var m := n * Pow2(k - 1);
      assert n * Pow2(k) == 2 * m;
      BitCountOfShifted(n, k - 1);
      hide Pow2;
      BitCountTwice(m);
    }
  }

  lemma BitCountTwice(m: nat)
    ensures BitCount(2 * m) == BitCount(m)
  {
    assert 2 * m % 2 == 0 && 2 * m / 2 == m;
  }

  lemma Doubles(j: nat)
    ensures Pow2(j + 1) == 2 * Pow2(j)
  {
  }

  lemma RankBit(n: nat, i: nat)
    ensures Ones(n, i + 1) == Ones(n, i) + if Bit(n, i) then 1 else 0
  {
  }

  lemma LowQuotient(n: nat, p: nat, m: nat, q: nat, low: nat)
    requires p > 0 && n == p * (2 * (m * q)) + low
    ensures n / p % 2 == low / p % 2
  {
    var c := m * q;
    assert n == p * (2 * c + low / p) + low % p;
    DivideUnique(n, p, 2 * c + low / p, low % p);
  }

  lemma LowerDigit(n: nat, p: nat, m: nat, big: nat)
    requires p > 0 && m > 0 && big == (2 * p) * m
    ensures big > 0 && n / p % 2 == n % big / p % 2
  {
    MultipleGrows(2 * p, m);
    var q, low := n / big, n % big;
    assert n == big * q + low;
    assert (2 * p) * m * q == p * (2 * (m * q));
    LowQuotient(n, p, m, q, low);
  }

  lemma LowBits(n: nat, i: nat, j: nat)
    requires j < i
    ensures Bit(n % Pow2(i), j) == Bit(n, j)
  {
    hide Pow2;
    Doubles(j);
    Pow2Sum(j + 1, i - j - 1);
    LowerDigit(n, Pow2(j), Pow2(i - j - 1), Pow2(i));
  }

  lemma {:induction false} OnesOfLow(n: nat, i: nat, j: nat)
    requires j <= i
    ensures Ones(n % Pow2(i), j) == Ones(n, j)
  {
    if j > 0 {
      OnesOfLow(n, i, j - 1);
      LowBits(n, i, j - 1);
    }
  }

  /** A left shift of a 64-bit word: what is shifted out is lost. */
  function ShiftLeft64(n: nat, k: nat): nat { n * Pow2(k) % Pow2(64) }

  lemma ShiftKeepsLow(mask: nat, low: nat, high: nat, d: nat, e: nat)
    requires d > 0 && e > 0 && mask == d * high + low && low < d
    ensures mask * e % (d * e) == low * e
  {
    assert mask * e == d * e * high + low * e;
    LessTimes(low, d, e);
    DivideUnique(mask * e, d * e, high, low * e);
  }

  /** The branch-free rank of a set bit: shift the higher bits out, count, and take one off. */
  lemma RankByShift(mask: nat, c: nat)
    requires c < 64 && Bit(mask, c)
    ensures BitCount(ShiftLeft64(mask, 63 - c)) - 1 == Ones(mask, c)
  {
    hide Pow2, Bit, Ones, BitCount;
    var low := mask % Pow2(c + 1);
    assert mask == Pow2(c + 1) * (mask / Pow2(c + 1)) + low;
    RankBit(mask, c);
    Pow2Sum(c + 1, 63 - c);
    ShiftKeepsLow(mask, low, mask / Pow2(c + 1), Pow2(c + 1), Pow2(63 - c));
    BitCountOfShifted(low, 63 - c);
    BitCountIsOnes(low, c + 1);
    OnesOfLow(mask, c + 1, c + 1);
  }

  // ---------------------------------------------------------------- tiles and boxes

  const HALF: int := 0x8000_0000   // 2^31

  datatype Tile = Tile(col: int, row: int, zoom: nat)

  datatype Box = Box(minX: int, minY: int, maxX: int, maxY: int)

  /** The coordinates of a box are 32-bit numbers. */
  predicate Fits32(box: Box) {
    -HALF <= box.minX < HALF && -HALF <= box.maxX < HALF && -HALF <= box.minY < HALF && -HALF <= box.maxY < HALF
  }

  predicate PointIn(box: Box, x: int, y: int) { box.minX <= x <= box.maxX && box.minY <= y <= box.maxY }

  /** A box that is not empty and does not cross the antimeridian */
  predicate Simple(box: Box) { Fits32(box) && box.minX <= box.maxX && box.minY <= box.maxY }

  /** The width of a tile */
  function Extent(zoom: nat): (e: nat)
    ensures e > 0
  {
    Pow2(if zoom <= 32 then 32 - zoom else 0)
  }

  function LeftX(t: Tile): int { t.col * Extent(t.zoom) - HALF }

  function TopY(t: Tile): int { HALF - 1 - t.row * Extent(t.zoom) }

  /** The tile's square has a point in common with the box. */
  predicate Meets(box: Box, t: Tile) {
    && LeftX(t) <= box.maxX && box.minX < LeftX(t) + Extent(t.zoom)
    && TopY(t) >= box.minY && box.maxY > TopY(t) - Extent(t.zoom)
  }

  /** columnFromXZ, rowFromYZ */
  function Column(x: int, zoom: nat): int
  {
    (x + HALF) / Extent(zoom)
  }

  function Row(y: int, zoom: nat): int
  {
    (HALF - 1 - y) / Extent(zoom)
  }

  /** A tile meets a box exactly if its column and row lie between those of the box's corners. */
  lemma MeetsByNumbers(box: Box, t: Tile)
    ensures Meets(box, t) <==>
              Column(box.minX, t.zoom) <= t.col <= Column(box.maxX, t.zoom) && Row(box.maxY, t.zoom) <= t.row <= Row(box.minY, t.zoom)
  {
    var e := Extent(t.zoom);
    QuotientAtLeast(box.minX + HALF, e, t.col);
    QuotientAtLeast(box.maxX + HALF, e, t.col);
    QuotientAtLeast(HALF - 1 - box.maxY, e, t.row);
    QuotientAtLeast(HALF - 1 - box.minY, e, t.row);
  }

  /** A tile meets a simple box exactly if they have a point in common: one whose coordinates lie in the box, and whose
      distances from the west and the north of the map, in widths of a tile, are the tile's column and row. */
  lemma MeetsAtPoint(box: Box, t: Tile)
    requires Simple(box) && t.zoom <= 32
    ensures Meets(box, t) <==>
            exists x, y {:trigger PointIn(box, x, y)} :: PointIn(box, x, y) && (x + 0x8000_0000) / Pow2(32 - t.zoom) == t.col && (0x7fff_ffff - y) / Pow2(32 - t.zoom) == t.row
  {
    MeetsByNumbers(box, t);
    if Meets(box, t) {
      var fromWest := InColumn(box.minX + HALF, box.maxX + HALF, Extent(t.zoom), t.col);
      var fromNorth := InColumn(HALF - 1 - box.maxY, HALF - 1 - box.minY, Extent(t.zoom), t.row);
      assert PointIn(box, fromWest - HALF, HALF - 1 - fromNorth);
    }
    if x, y :| PointIn(box, x, y) && (x + 0x8000_0000) / Pow2(32 - t.zoom) == t.col && (0x7fff_ffff - y) / Pow2(32 - t.zoom) == t.row {
      QuotientGrows(box.minX + HALF, x + HALF, Extent(t.zoom));
      QuotientGrows(x + HALF, box.maxX + HALF, Extent(t.zoom));
      QuotientGrows(HALF - 1 - box.maxY, HALF - 1 - y, Extent(t.zoom));
      QuotientGrows(HALF - 1 - y, HALF - 1 - box.minY, Extent(t.zoom));
    }
  }

  lemma QuotientGrows(a: int, b: int, e: nat)
    requires e > 0 && a <= b
    ensures a / e <= b / e
  {
    QuotientAtLeast(b, e, a / e);
    QuotientAtLeast(a, e, a / e);
  }

  lemma InColumn(low: int, high: int, e: nat, n: int) returns (x: int)
    requires e > 0 && low <= high && low / e <= n <= high / e
    ensures low <= x <= high && x / e == n
  {
    if low / e == n { x := low; } else {
      x := n * e;
      QuotientAtLeast(high, e, n);
      QuotientAtLeast(low, e, n - 1);
      QuotientAtLeast(x, e, n);
    }
  }

  /** The tile at cell `c` of the matrix that a tile is divided into, row by row */
  function Child(t: Tile, step: nat, c: nat): Tile {
    Tile(t.col * Pow2(step) + c % Pow2(step), t.row * Pow2(step) + c / Pow2(step), t.zoom + step)
  }

  /** Cells are numbered row by row, from the top left. */
  lemma CellNumber(t: Tile, step: nat, dx: nat, dy: nat)
    requires dx < Pow2(step) && dy < Pow2(step)
    ensures Child(t, step, dy * Pow2(step) + dx) == Tile(t.col * Pow2(step) + dx, t.row * Pow2(step) + dy, t.zoom + step)
  {
    hide Pow2;
    DivideUnique(dy * Pow2(step) + dx, Pow2(step), dy, dx);
  }

  function Cells(step: nat): nat { Pow2(step) * Pow2(step) }

  lemma CellInRow(step: nat, c: nat)
    requires c < Cells(step)
    ensures c / Pow2(step) < Pow2(step) && c % Pow2(step) < Pow2(step)
  {
    QuotientAtLeast(c, Pow2(step), Pow2(step));
  }

  lemma WithinParent(col: int, d: nat, k: nat, e: nat)
    requires d < k
    ensures col * (k * e) <= (col * k + d) * e && (col * k + d) * e + e <= col * (k * e) + k * e
  {
    assert (col * k + d) * e == col * (k * e) + d * e;
    assert (d + 1) * e <= k * e;
  }

  /** A child's square lies in its parent's. */
  lemma ChildMeets(box: Box, t: Tile, step: nat, c: nat)
    requires c < Cells(step) && t.zoom + step <= 32 && Meets(box, Child(t, step, c))
    ensures Meets(box, t)
  {
    hide Pow2;
    var k, e := Pow2(step), Pow2(32 - t.zoom - step);
    Pow2Sum(step, 32 - t.zoom - step);
    CellInRow(step, c);
    WithinParent(t.col, c % k, k, e);
    WithinParent(t.row, c / k, k, e);
  }

  // ---------------------------------------------------------------- the words of the index

  /** `step` says by how many zoom levels each level of the tree goes down. */
  datatype Index = Index(words: seq<nat>, steps: seq<nat>)

  function Word(ix: Index, i: int): nat { if 0 <= i < |ix.words| then ix.words[i] else 0 }

  function Step(ix: Index, l: nat): nat { if l < |ix.steps| then ix.steps[l] else 0 }

  function Zoom(ix: Index, l: nat): nat { if l == 0 || l > |ix.steps| then 0 else Zoom(ix, l - 1) + ix.steps[l - 1] }

  predicate ValidSteps(ix: Index) {
    0 < |ix.steps| <= 12 && Zoom(ix, |ix.steps|) <= 12 && forall l :: 0 <= l < |ix.steps| ==> 1 <= ix.steps[l] <= 3
  }

  /** The 64 bits after a tile's entry: its mask of children; for steps of one or two levels, the upper half is
      the word that follows the mask. */
  function MaskAt(ix: Index, t: int): nat { Word(ix, t + 1) + 0x1_0000_0000 * Word(ix, t + 2) }

  function FirstChild(ix: Index, l: nat, t: int): int { t + if Step(ix, l) == 3 then 3 else 2 }

  /** Entries of cells without a tile are left out. */
  function EntryAt(ix: Index, l: nat, t: int, c: nat): int { FirstChild(ix, l, t) + Ones(MaskAt(ix, t), c) }

  predicate IsPointer(word: nat) { word % 4 == 1 }

  function ToInt32(word: nat): int { if word < 0x8000_0000 then word else word - 0x1_0000_0000 }

  /** A pointer is relative to its own place, in words, above two flag bits. */
  function Target(p: int, word: nat): int { p + (ToInt32(word) - 1) / 4 }

  /** At `t` starts the record of a tile with children at level `l` of the tree. */
  ghost predicate Record(ix: Index, l: nat, t: int)
    decreases |ix.steps| - l, 0
  {
    && l < |ix.steps| && 0 <= t && t + 2 < |ix.words|
    && forall c: nat {:trigger EntryAt(ix, l, t, c)} :: c < Cells(Step(ix, l)) && Bit(MaskAt(ix, t), c) ==> Entry(ix, l + 1, EntryAt(ix, l, t, c))
  }

  /** At `p` is the entry of a tile, or a pointer to the record of a tile that has children at level `l`. */
  ghost predicate Entry(ix: Index, l: nat, p: int)
    decreases |ix.steps| - l, 1
  {
    0 <= p < |ix.words| && (IsPointer(ix.words[p]) ==> l < |ix.steps| && Record(ix, l, Target(p, ix.words[p])))
  }

  /** The words between a record's start and its first child are those that it takes to hold a bit for each cell. */
  lemma MaskWords(ix: Index, l: nat, t: int)
    requires ValidSteps(ix) && l < |ix.steps|
    ensures var words := FirstChild(ix, l, t) - t - 1; 32 * (words - 1) < Cells(ix.steps[l]) <= 32 * words
  {
    assert Pow2(1) == 2 && Pow2(2) == 4 && Pow2(3) == 8;
  }

  /** Bit `c` of the mask is bit `c` of the words behind the tile's own entry, lower word first. */
  lemma MaskBits(ix: Index, t: int, c: nat)
    requires 0 <= t && t + 2 < |ix.words| && ix.words[t + 1] < 0x1_0000_0000 && ix.words[t + 2] < 0x1_0000_0000 && c < 64
    ensures Bit(MaskAt(ix, t), c) <==> ix.words[t + 1 + c / 32] / Pow2(c % 32) % 2 == 1
  {
    var low, high := ix.words[t + 1], ix.words[t + 2];
    Pow2Of32();
    hide Pow2;
    if c < 32 {
      Pow2Sum(c, 32 - c);
      Pow2Sum(1, 31 - c);
      assert Pow2(1) == 2 by { OneBit(); }
      LowDigit(low, high, Pow2(c), Pow2(31 - c));
    } else {
      Pow2Sum(32, c - 32);
      HighDigit(low, high, Pow2(c - 32));
    }
  }

  lemma Pow2Of32()
    ensures Pow2(32) == 0x1_0000_0000
  {
    assert Pow2(8) == 256;
    Pow2Sum(8, 8);
    Pow2Sum(16, 16);
  }

  lemma OneBit()
    ensures Pow2(1) == 2
  {
  }

  lemma LowDigit(low: nat, high: nat, p: nat, q: nat)
    requires p > 0 && p * (2 * q) == 0x1_0000_0000
    ensures (low + 0x1_0000_0000 * high) / p % 2 == low / p % 2
  {
    var n, d, r := low + 0x1_0000_0000 * high, low / p, low % p;
    assert low == d * p + r;
    assert 0x1_0000_0000 * high == (2 * q * high) * p;
    assert n == (d + 2 * (q * high)) * p + r;
    DivideUnique(n, p, d + 2 * (q * high), r);
    EvenAway(d, q * high);
  }

  lemma EvenAway(d: nat, k: nat)
    ensures (d + 2 * k) % 2 == d % 2
  {
  }

  lemma HighDigit(low: nat, high: nat, p: nat)
    requires p > 0 && low < 0x1_0000_0000
    ensures (low + 0x1_0000_0000 * high) / (0x1_0000_0000 * p) == high / p
  {
    var n, d, r := low + 0x1_0000_0000 * high, high / p, high % p;
    assert high == d * p + r;
    assert n == d * (0x1_0000_0000 * p) + (0x1_0000_0000 * r + low);
    DivideUnique(n, 0x1_0000_0000 * p, d, 0x1_0000_0000 * r + low);
  }

  function BitsBelow(n: nat, i: nat): set<nat> { set k: nat | k < i && Bit(n, k) }

  lemma {:induction false} OnesAreBits(n: nat, i: nat)
    ensures Ones(n, i) == |BitsBelow(n, i)|
  {
    hide Bit;
    if i > 0 {
      OnesAreBits(n, i - 1);
      assert BitsBelow(n, i) == BitsBelow(n, i - 1) + if Bit(n, i - 1) then {i - 1} else {};
    }
  }

  /** Entries are as far from the first child's as there are children in the cells before. */
  lemma OnesCount(n: nat, i: nat)
    ensures Ones(n, i) == |set k: nat | k < i && n / Pow2(k) % 2 == 1|
  {
    hide Pow2;
    OnesAreBits(n, i);
    assert BitsBelow(n, i) == set k: nat | k < i && n / Pow2(k) % 2 == 1;
  }

  /** A pointer holds four times the distance to its target, signed, plus one. */
  lemma TargetIs(p: int, word: nat)
    requires word < 0x1_0000_0000
    ensures IsPointer(word) <==> (4 * (Target(p, word) - p) + 1 - word) % 0x1_0000_0000 == 0
    ensures IsPointer(word) ==> -0x8000_0000 <= 4 * (Target(p, word) - p) + 1 < 0x8000_0000
  {
  }

  // ---------------------------------------------------------------- the tree of tiles

  datatype Visit = Visit(tip: int, tile: Tile)

  /** A tile and all below it, parents before children */
  ghost function Subtree(ix: Index, l: nat, p: int, tile: Tile): seq<Visit>
    requires Entry(ix, l, p)
    decreases |ix.steps| - l, 1, 0
  {
    if IsPointer(ix.words[p]) then
      var t := Target(p, ix.words[p]);
      [Visit(t, tile)] + Children(ix, l, t, tile, 0)
    else [Visit(p, tile)]
  }

  /** The subtrees of a tile's children, from cell `c` on */
  ghost function Children(ix: Index, l: nat, t: int, tile: Tile, c: nat): seq<Visit>
    requires Record(ix, l, t) && c <= Cells(Step(ix, l))
    decreases |ix.steps| - l, 0, Cells(Step(ix, l)) - c
  {
    if c == Cells(Step(ix, l)) then []
    else
      (if Bit(MaskAt(ix, t), c) then Subtree(ix, l + 1, EntryAt(ix, l, t, c), Child(tile, Step(ix, l), c)) else [])
      + Children(ix, l, t, tile, c + 1)
  }

  lemma ChildrenStep(ix: Index, l: nat, t: int, tile: Tile, c: nat)
    requires Record(ix, l, t) && c < Cells(Step(ix, l))
    ensures Bit(MaskAt(ix, t), c) ==> Entry(ix, l + 1, EntryAt(ix, l, t, c))
    ensures Children(ix, l, t, tile, c) ==
            (if Bit(MaskAt(ix, t), c) then Subtree(ix, l + 1, EntryAt(ix, l, t, c), Child(tile, Step(ix, l), c)) else [])
            + Children(ix, l, t, tile, c + 1)
  {
    hide Pow2, Bit, Subtree;
  }

  const ROOT: Tile := Tile(0, 0, 0)

  /** The root's tip is 1. */
  ghost function AllTiles(ix: Index): seq<Visit>
    requires Record(ix, 0, 1)
  {
    [Visit(1, ROOT)] + Children(ix, 0, 1, ROOT, 0)
  }

  /** The visits whose tiles meet the box, in the same order */
  function Meeting(vs: seq<Visit>, box: Box): seq<Visit> {
    if vs == [] then [] else (if Meets(box, vs[0].tile) then [vs[0]] else []) + Meeting(vs[1..], box)
  }

  lemma {:induction false} MeetingConcat(a: seq<Visit>, b: seq<Visit>, box: Box)
    ensures Meeting(a + b, box) == Meeting(a, box) + Meeting(b, box)
  {
    if a == [] {
      assert a + b == b;
    } else {
      assert (a + b)[1..] == a[1..] + b;
      MeetingConcat(a[1..], b, box);
    }
  }

  /** If a tile does not meet the box, nothing below it does. */
  lemma {:induction false} NothingBelow(ix: Index, l: nat, p: int, tile: Tile, box: Box)
    requires Entry(ix, l, p) && !Meets(box, tile) && tile.zoom == Zoom(ix, l) && ValidSteps(ix) && l <= |ix.steps|
    ensures Meeting(Subtree(ix, l, p, tile), box) == []
    decreases |ix.steps| - l, 1, 0
  {
    if IsPointer(ix.words[p]) {
      var t := Target(p, ix.words[p]);
      NoChildren(ix, l, t, tile, 0, box);
      MeetingConcat([Visit(t, tile)], Children(ix, l, t, tile, 0), box);
    }
  }

  lemma {:induction false} ZoomBound(ix: Index, l: nat)
    requires ValidSteps(ix) && l <= |ix.steps|
    ensures l <= Zoom(ix, l) <= 12
    decreases |ix.steps| - l
  {
    if l < |ix.steps| {
      ZoomBound(ix, l + 1);
    }
    ZoomGrows(ix, l);
  }

  lemma {:induction false} ZoomGrows(ix: Index, l: nat)
    requires ValidSteps(ix) && l <= |ix.steps|
    ensures l <= Zoom(ix, l)
  {
    if l > 0 {
      ZoomGrows(ix, l - 1);
    }
  }

  lemma {:induction false} NoChildren(ix: Index, l: nat, t: int, tile: Tile, c: nat, box: Box)
    requires Record(ix, l, t) && !Meets(box, tile) && tile.zoom == Zoom(ix, l) && ValidSteps(ix) && c <= Cells(Step(ix, l))
    ensures Meeting(Children(ix, l, t, tile, c), box) == []
    decreases |ix.steps| - l, 0, Cells(Step(ix, l)) - c
  {
    if c < Cells(Step(ix, l)) {
      NoChildren(ix, l, t, tile, c + 1, box);
      if Bit(MaskAt(ix, t), c) {
        var child := Child(tile, Step(ix, l), c);
        ZoomBound(ix, l + 1);
        if Meets(box, child) {
          ChildMeets(box, tile, Step(ix, l), c);
        }
        NothingBelow(ix, l + 1, EntryAt(ix, l, t, c), child, box);
        MeetingConcat(Subtree(ix, l + 1, EntryAt(ix, l, t, c), child), Children(ix, l, t, tile, c + 1), box);
      } else {
        MeetingConcat([], Children(ix, l, t, tile, c + 1), box);
      }
    }
  }

}
