/**
 The diagonal multipartition of `make_set.f`: `p * p` ranks share the `p * p * p` cells of the grid, `p` each.
 Coordinates, cell numbers and directions count from 1, as in the source.
 */
module Multipartition {
  import opened Numbers

  /** The rank of a bottom cell at (`i`, `j`), counted from 0. */
  function RankOf(i: int, j: int, p: int): int {
    i + Prod(p, j)
  }

  lemma RankPair(i: int, j: int, p: int)
    requires 0 <= i < p && 0 <= j < p
    ensures 0 <= RankOf(i, j, p) < p * p && Rem(RankOf(i, j, p), p) == i && Quot(RankOf(i, j, p), p) == j
  {
    hide Quot, Rem;
    DivisionUnique(RankOf(i, j, p), p, j, i);
    ProductBounds(j, p);
  }

  lemma ProductBounds(j: int, p: int)
    requires p > 0
    ensures 0 <= j < p ==> 0 <= Prod(p, j) <= p * p - p
    ensures j >= p ==> Prod(p, j) >= p * p
    ensures j < 0 ==> Prod(p, j) <= -p
  {
    hide Prod;
    Square(p);
    ProdOne(p);
    ProdSum(p, p, j);
    ProdAtLeast(p, j);
    ProdAtLeast(p, p - j);
  }

  lemma Square(p: int)
    ensures Prod(p, p) == p * p
  {
  }

  lemma RankParts(node: int, p: int)
    requires p > 0 && 0 <= node < p * p
    ensures 0 <= Rem(node, p) < p && 0 <= Quot(node, p) < p && node == RankOf(Rem(node, p), Quot(node, p), p)
  {
    hide Prod, Quot, Rem;
    Division(node, p);
    ProductBounds(Quot(node, p), p);
  }

  // ---- Where the cells of a rank are ----

  datatype Coord = Coord(x: int, y: int, z: int)

  /** Coordinates of cell `c` of a rank: one step along the diagonal per layer. */
  function CoordOf(node: int, p: int, c: int): (r: Coord)
    requires p > 0
  {
    Coord(Rem(Rem(node, p) + c - 1, p) + 1, Rem(Quot(node, p) - (c - 1), p) + 1, c)
  }

  ghost predicate InGrid(r: Coord, p: int) {
    1 <= r.x <= p && 1 <= r.y <= p && 1 <= r.z <= p
  }

  /** The rank that holds the cell at given coordinates; its number there is the layer. */
  function OwnerOf(r: Coord, p: int): int
    requires p > 0
  {
    RankOf(Rem(r.x - 1 - (r.z - 1), p), Rem(r.y - 1 + (r.z - 1), p), p)
  }

  /** The cells cover the grid: every cell of the grid is the one of its owner on its layer, ... */
  lemma OwnerHasCell(r: Coord, p: int)
    requires p > 0 && InGrid(r, p)
    ensures 0 <= OwnerOf(r, p) < p * p && CoordOf(OwnerOf(r, p), p, r.z) == r
  {
    hide Quot, Rem, RankOf;
    var x, y, z := r.x - 1, r.y - 1, r.z - 1;
    Division(x - z, p);
    Division(y + z, p);
    RankPair(Rem(x - z, p), Rem(y + z, p), p);
    RemCancel(x, -z, p);
    RemCancel(y, z, p);
  }

  /** ... and no cell is held twice. */
  lemma CellHasOwner(node: int, p: int, c: int)
    requires p > 0 && 0 <= node < p * p && 1 <= c <= p
    ensures InGrid(CoordOf(node, p, c), p) && OwnerOf(CoordOf(node, p, c), p) == node
  {
    hide Quot, Rem, RankOf;
    RankParts(node, p);
    Division(Rem(node, p) + c - 1, p);
    Division(Quot(node, p) - (c - 1), p);
    RemCancel(Rem(node, p), c - 1, p);
    RemCancel(Quot(node, p), -(c - 1), p);
  }

  /** On the bottom layer ranks lie row by row, ... */
  lemma FirstLayer(node: int, p: int)
    requires p > 0 && 0 <= node < p * p
    ensures CoordOf(node, p, 1) == Coord(node % p + 1, node / p + 1, 1)
  {
    hide Rem, Quot;
    RankParts(node, p);
    RemOfSmall(Rem(node, p), p);
    RemOfSmall(Quot(node, p), p);
    AsOperators(node, p);
  }

  /** ... and one layer up they have moved one cell east and one south, around the ends. */
  lemma NextLayer(node: int, p: int, c: int)
    requires p > 0 && 0 <= node < p * p && 1 <= c < p
    ensures var r := CoordOf(node, p, c);
      CoordOf(node, p, c + 1) == Coord(if r.x == p then 1 else r.x + 1, if r.y == 1 then p else r.y - 1, c + 1)
  {
    hide Rem, Quot;
    Division(Rem(node, p) + c - 1, p);
    RemStep(Rem(node, p) + c - 1, p);
    RemStep(Quot(node, p) - c, p);
    Division(Quot(node, p) - c, p);
  }

  lemma AsOperators(x: int, p: int)
    requires p > 0
    ensures Rem(x, p) == x % p && Quot(x, p) == x / p
  {
  }

  function Along(r: Coord, dir: int): int {
    if dir == 1 then r.x else if dir == 2 then r.y else r.z
  }

  /** The number of the cell of a rank in plane `n` of a direction: `slice`. */
  function CellIn(node: int, p: int, dir: int, n: int): int
    requires p > 0
  {
    if dir == 1 then Rem(n - 1 - Rem(node, p), p) + 1
    else if dir == 2 then Rem(Quot(node, p) - (n - 1), p) + 1
    else n
  }

  /** A rank has exactly one cell in every coordinate plane of every direction. */
  lemma OneCellPerPlane(node: int, p: int, dir: int, n: int, c: int)
    requires p > 0 && 0 <= node < p * p && 1 <= dir <= 3 && 1 <= n <= p && 1 <= c <= p
    ensures 1 <= CellIn(node, p, dir, n) <= p
    ensures Along(CoordOf(node, p, c), dir) == n <==> c == CellIn(node, p, dir, n)
  {
    hide Quot, Rem;
    var i, j := Rem(node, p), Quot(node, p);
    if dir == 1 {
      Division(n - 1 - i, p);
      RemCancel(n - 1, -i, p);
      RemCancel(c - 1, i, p);
    } else if dir == 2 {
      Division(j - (n - 1), p);
      RemMirror(j, n - 1, p);
      RemMirror(j, c - 1, p);
    }
  }

  // ---- Neighbours ----

  /** `successor` and `predecessor`, from the coordinates `i`, `j` of the bottom cell. */
  function Successor(node: int, p: int, dir: int): int
    requires p > 0
  {
    var i, j := Rem(node, p), Quot(node, p);
    if dir == 1 then RankOf(Rem(i + 1, p), j, p)
    else if dir == 2 then RankOf(i, Rem(j + 1, p), p)
    else RankOf(Rem(i - 1 + p, p), Rem(j + 1, p), p)
  }

  function Predecessor(node: int, p: int, dir: int): int
    requires p > 0
  {
    var i, j := Rem(node, p), Quot(node, p);
    if dir == 1 then RankOf(Rem(i - 1 + p, p), j, p)
    else if dir == 2 then RankOf(i, Rem(j - 1 + p, p), p)
    else RankOf(Rem(i + 1, p), Rem(j - 1 + p, p), p)
  }

  function Moved(r: Coord, dir: int, step: int): Coord {
    if dir == 1 then r.(x := r.x + step) else if dir == 2 then r.(y := r.y + step) else r.(z := r.z + step)
  }

  /** The cell that a neighbour in direction `dir` counts with the same plane: one layer up or down for `dir == 3`. */
  function Partner(c: int, dir: int, step: int): int {
    if dir == 3 then c + step else c
  }

  lemma SuccessorParts(node: int, p: int, dir: int)
    requires p > 0 && 0 <= node < p * p && 1 <= dir <= 3
    ensures var s, i, j := Successor(node, p, dir), Rem(node, p), Quot(node, p);
      && 0 <= s < p * p
      && Rem(s, p) == (if dir == 1 then Rem(i + 1, p) else if dir == 2 then i else Rem(i - 1, p))
      && Quot(s, p) == (if dir == 1 then j else Rem(j + 1, p))
  {
    hide Quot, Rem, RankOf;
    var i, j := Rem(node, p), Quot(node, p);
    RankParts(node, p);
    Division(i + 1, p);
    Division(i - 1 + p, p);
    Division(j + 1, p);
    RemTurn(i - 1, p);
    if dir == 1 {
      RankPair(Rem(i + 1, p), j, p);
    } else if dir == 2 {
      RankPair(i, Rem(j + 1, p), p);
    } else {
      RankPair(Rem(i - 1 + p, p), Rem(j + 1, p), p);
    }
  }

  lemma PredecessorParts(node: int, p: int, dir: int)
    requires p > 0 && 0 <= node < p * p && 1 <= dir <= 3
    ensures var s, i, j := Predecessor(node, p, dir), Rem(node, p), Quot(node, p);
      && 0 <= s < p * p
      && Rem(s, p) == (if dir == 1 then Rem(i - 1, p) else if dir == 2 then i else Rem(i + 1, p))
      && Quot(s, p) == (if dir == 1 then j else Rem(j - 1, p))
  {
    hide Quot, Rem, RankOf;
    var i, j := Rem(node, p), Quot(node, p);
    RankParts(node, p);
    Division(i + 1, p);
    Division(i - 1 + p, p);
    Division(j - 1 + p, p);
    RemTurn(i - 1, p);
    RemTurn(j - 1, p);
    if dir == 1 {
      RankPair(Rem(i - 1 + p, p), j, p);
    } else if dir == 2 {
      RankPair(i, Rem(j - 1 + p, p), p);
    } else {
      RankPair(Rem(i + 1, p), Rem(j - 1 + p, p), p);
    }
  }

  /** One rank further along is one cell further along, unless the end of the grid is in between. */
  lemma RankStep(i: int, k: int, p: int)
    requires p > 0
    ensures Rem(Rem(i + 1, p) + k, p) == if Rem(i + k, p) + 1 < p then Rem(i + k, p) + 1 else 0
    ensures Rem(Rem(i - 1, p) + k, p) == Rem(i + (k - 1), p) && Rem(Rem(i + 1, p) + k, p) == Rem(i + (k + 1), p)
  {
    hide Rem;
    RemAdd(i + 1, k, p);
    RemAdd(i - 1, k, p);
    RemStep(i + k, p);
  }

  /** `successor(dir)` holds the next cell in direction `dir` of every cell of a rank. */
  lemma SuccessorHasNext(node: int, p: int, dir: int, c: int)
    requires p > 0 && 0 <= node < p * p && 1 <= dir <= 3 && 1 <= c <= p
    requires Along(CoordOf(node, p, c), dir) < p
    ensures CoordOf(Successor(node, p, dir), p, Partner(c, dir, 1)) == Moved(CoordOf(node, p, c), dir, 1)
  {
    hide Successor, Rem, Quot;
    SuccessorParts(node, p, dir);
    if dir == 1 {
      RankStep(Rem(node, p), c - 1, p);
    } else if dir == 2 {
      RankStep(Quot(node, p), -(c - 1), p);
    } else {
      RankStep(Rem(node, p), c, p);
      RankStep(Quot(node, p), -c, p);
    }
  }

  /** `predecessor(dir)` and `successor(dir)` undo each other. */
  lemma PredecessorOfSuccessor(node: int, p: int, dir: int)
    requires p > 0 && 0 <= node < p * p && 1 <= dir <= 3
    ensures Predecessor(Successor(node, p, dir), p, dir) == node
  {
    hide Successor, Rem, Quot, RankOf;
    RankParts(node, p);
    SuccessorParts(node, p, dir);
    UpDown(Rem(node, p), p);
    UpDown(Quot(node, p), p);
  }

  lemma UpDown(i: int, p: int)
    requires 0 <= i < p
    ensures Rem(Rem(i + 1, p) - 1 + p, p) == i && Rem(Rem(i - 1, p) + 1, p) == i
  {
    hide Rem;
    RemTurn(Rem(i + 1, p) - 1, p);
    RemCancel(i, 1, p);
    RemCancel(i, -1, p);
  }

  lemma SuccessorOfPredecessor(node: int, p: int, dir: int)
    requires p > 0 && 0 <= node < p * p && 1 <= dir <= 3
    ensures 0 <= Predecessor(node, p, dir) < p * p && Successor(Predecessor(node, p, dir), p, dir) == node
  {
    hide Predecessor, Rem, Quot, RankOf;
    RankParts(node, p);
    PredecessorParts(node, p, dir);
    UpDown(Rem(node, p), p);
    UpDown(Quot(node, p), p);
  }

  // ---- Which grid points a cell has ----

  /** Points of plane `n` of the cells when `g` points are cut in `p`. */
  function SizeOf(g: int, p: int, n: int): int
    requires p > 0
  {
    if n <= Rem(g, p) then Quot(g, p) + 1 else Quot(g, p)
  }

  function LowOf(g: int, p: int, n: int): int
    requires p > 0
  {
    if n <= Rem(g, p) then Prod(Quot(g, p) + 1, n - 1)
    else Prod(Quot(g, p) + 1, Rem(g, p)) + Prod(Quot(g, p), n - Rem(g, p) - 1)
  }

  function HighOf(g: int, p: int, n: int): int
    requires p > 0
  {
    LowOf(g, p, n) + SizeOf(g, p, n) - 1
  }

  /** The intervals follow each other from 0 to `g - 1` without gap or overlap. */
  lemma IntervalsMeet(g: int, p: int, n: int)
    requires p > 0 && g >= 0 && 1 <= n <= p
    ensures n == 1 ==> LowOf(g, p, n) == 0
    ensures n < p ==> LowOf(g, p, n + 1) == HighOf(g, p, n) + 1
    ensures n == p ==> HighOf(g, p, n) == g - 1
  {
    hide Prod, Quot, Rem;
    var size, excess := Quot(g, p), Rem(g, p);
    Division(g, p);
    ProdOne(size);
    ProdOne(size + 1);
    if n <= excess {
      ProdSum(size + 1, n - 1, 1);
    } else {
      ProdSum(size, n - excess - 1, 1);
      AllPoints(p, size, excess);
    }
    if n == 1 && excess == 0 { assert LowOf(g, p, n) == 0; }
  }

  /** `excess` planes with a point more and the others make up all points. */
  lemma AllPoints(p: int, size: int, excess: int)
    ensures Prod(size + 1, excess) + Prod(size, p - excess) == Prod(p, size) + excess
  {
    hide Prod;
    ProdSwap(size, excess);
    ProdSwap(size, p);
    ProdSum(size, p, excess);
  }

  /** The sizes of two planes differ by one point at most, and the larger come first. */
  lemma SizesBalanced(g: int, p: int, m: int, n: int)
    requires p > 0 && 1 <= m <= n <= p
    ensures 0 <= SizeOf(g, p, m) - SizeOf(g, p, n) <= 1
  {
  }

  ghost predicate HasPoint(g: int, p: int, n: int, x: int)
    requires p > 0
  {
    LowOf(g, p, n) <= x <= HighOf(g, p, n)
  }

  lemma {:induction false} IntervalsAscend(g: int, p: int, m: int, n: int)
    requires p > 0 && g >= 0 && 1 <= m < n <= p
    ensures HighOf(g, p, m) < LowOf(g, p, n)
    decreases n - m
  {
    hide LowOf, HighOf;
    IntervalsMeet(g, p, n - 1);
    if m < n - 1 {
      IntervalsAscend(g, p, m, n - 1);
      SizeNotNegative(g, p, n - 1);
    }
  }

  lemma SizeNotNegative(g: int, p: int, n: int)
    requires p > 0 && g >= 0
    ensures SizeOf(g, p, n) >= 0 && LowOf(g, p, n) <= HighOf(g, p, n) + 1
  {
    hide Prod, Quot, Rem, LowOf;
    Division(g, p);
    ProdAtLeast(p, Quot(g, p));
  }

  /** The plane of cells that holds grid point `x`, searched from plane `n` down. */
  function PlaneOf(g: int, p: int, x: int, n: int): (m: int)
    requires p > 0 && g >= 0 && 1 <= n <= p && 0 <= x <= HighOf(g, p, n)
    ensures 1 <= m <= n && HasPoint(g, p, m, x)
    decreases n
  {
    IntervalsMeet(g, p, n);
    if LowOf(g, p, n) <= x then n
    else
      IntervalsMeet(g, p, n - 1);
      PlaneOf(g, p, x, n - 1)
  }

  /** Every grid point is in exactly one plane of cells. */
  lemma OnePlanePerPoint(g: int, p: int, x: int, n: int)
    requires p > 0 && 0 <= x < g && 1 <= n <= p
    ensures HighOf(g, p, p) == g - 1
    ensures HasPoint(g, p, n, x) <==> n == PlaneOf(g, p, x, p)
  {
    hide LowOf, HighOf;
    IntervalsMeet(g, p, p);
    var m := PlaneOf(g, p, x, p);
    if n < m { IntervalsAscend(g, p, n, m); }
    if m < n { IntervalsAscend(g, p, m, n); }
  }

  // ---- make_set ----

  lemma FirstCell(node: int, p: int)
    requires p > 0 && 0 <= node < p * p
    ensures Placed(CoordOf(node, p, 1), Rem(node, p), Quot(node, p), 0)
  {
    hide Quot, Rem;
    RankParts(node, p);
    RemOfSmall(Rem(node, p), p);
    RemOfSmall(Quot(node, p), p);
  }

  /** One step of the walk, on coordinates that still count from 0. */
  lemma NextCell(node: int, p: int, c: int, x: int, y: int, z: int)
    requires p > 0 && Placed(CoordOf(node, p, c - 1), x, y, z)
    ensures Placed(CoordOf(node, p, c), Rem(x + 1, p), Rem(y - 1 + p, p), c - 1)
  {
    hide Quot, Rem;
    RemAdd(Rem(node, p) + c - 2, 1, p);
    RemAdd(Quot(node, p) - (c - 2), -1, p);
    RemTurn(y - 1, p);
  }

  lemma CutOf(g: int, p: int, n: int)
    requires p > 0
    ensures n <= Rem(g, p) ==> SizeOf(g, p, n) == Quot(g, p) + 1 && LowOf(g, p, n) == Prod(Quot(g, p) + 1, n - 1)
    ensures n > Rem(g, p) ==> SizeOf(g, p, n) == Quot(g, p)
    ensures n > Rem(g, p) ==>
      LowOf(g, p, n) == Prod(Quot(g, p) + 1, Rem(g, p)) + Prod(Quot(g, p), n - Rem(g, p) - 1)
    ensures HighOf(g, p, n) == LowOf(g, p, n) + SizeOf(g, p, n) - 1
  {
  }

  /** Coordinates that still count from 0. */
  ghost predicate Placed(r: Coord, x: int, y: int, z: int) {
    x == r.x - 1 && y == r.y - 1 && z == r.z - 1
  }

  /** A row of the tables describes plane `n` of the cells. */
  ghost predicate IsCut(g: int, p: int, n: int, size: int, low: int, high: int)
    requires p > 0
  {
    size == SizeOf(g, p, n) && low == LowOf(g, p, n) && high == HighOf(g, p, n)
  }

  /** The tables of the `/partition/` common block; row and column 0 are unused. */
  class Partition {
    const p: nat
    const cellCoord: array2<int>
    const slice: array2<int>
    const cellSize: array2<int>
    const cellLow: array2<int>
    const cellHigh: array2<int>
    const predecessor: array<int>
    const successor: array<int>

    /** Tables for `cells` cells a side. */
    constructor (cells: nat)
      requires cells > 0
      ensures Valid() && p == cells && fresh(cellCoord) && fresh(slice) && fresh(cellSize) && fresh(cellLow)
      ensures fresh(cellHigh)
      ensures fresh(predecessor) && fresh(successor)
    {
      p := cells;
      cellCoord, slice := new int[4, cells + 1], new int[4, cells + 1];
      cellSize, cellLow, cellHigh := new int[4, cells + 1], new int[4, cells + 1], new int[4, cells + 1];
      predecessor, successor := new int[4], new int[4];
    }

    ghost predicate Valid() {
      && p > 0 && predecessor.Length == successor.Length == 4 && predecessor != successor
      && cellCoord.Length0 == slice.Length0 == cellSize.Length0 == cellLow.Length0 == cellHigh.Length0 == 4
      && cellCoord.Length1 == slice.Length1 == cellSize.Length1 == cellLow.Length1 == cellHigh.Length1 == p + 1
      && cellCoord != slice && cellCoord != cellSize && cellCoord != cellLow && cellCoord != cellHigh
      && slice != cellSize && slice != cellLow && slice != cellHigh
      && cellSize != cellLow && cellSize != cellHigh && cellLow != cellHigh
    }

    /** The diagonal walk through the layers, still counting from 0. */
    method WalkDiagonal(node: int)
      requires Valid() && 0 <= node < p * p
      modifies cellCoord
      ensures forall c :: 1 <= c <= p ==> Placed(CoordOf(node, p, c), cellCoord[1, c], cellCoord[2, c], cellCoord[3, c])
    {
      hide CoordOf, Placed, Rem, Quot;
      FirstCell(node, p);
      cellCoord[1, 1], cellCoord[2, 1], cellCoord[3, 1] := Rem(node, p), Quot(node, p), 0;
      for c := 2 to p + 1
        invariant forall c' :: 1 <= c' < c ==>
          Placed(CoordOf(node, p, c'), cellCoord[1, c'], cellCoord[2, c'], cellCoord[3, c'])
      {
        NextCell(node, p, c, cellCoord[1, c - 1], cellCoord[2, c - 1], cellCoord[3, c - 1]);
        var x, y := Rem(cellCoord[1, c - 1] + 1, p), Rem(cellCoord[2, c - 1] - 1 + p, p);
        assert Placed(CoordOf(node, p, c), x, y, c - 1);
        cellCoord[1, c], cellCoord[2, c], cellCoord[3, c] := x, y, c - 1;
      }
    }

    /** Coordinates counted from 0 become coordinates counted from 1. */
    method ShiftCoords()
      requires Valid()
      modifies cellCoord
      ensures forall d, c :: 1 <= d <= 3 && 1 <= c <= p ==> cellCoord[d, c] == old(cellCoord[d, c]) + 1
    {
      for dir := 1 to 4
        invariant forall d, c :: 1 <= d <= 3 && 1 <= c <= p ==>
          cellCoord[d, c] == old(cellCoord[d, c]) + (if d < dir then 1 else 0)
      {
        for c := 1 to p + 1
          invariant forall d, c' :: 1 <= d <= 3 && 1 <= c' <= p ==>
            cellCoord[d, c'] == old(cellCoord[d, c']) + (if d < dir || (d == dir && c' < c) then 1 else 0)
        {
          cellCoord[dir, c] := cellCoord[dir, c] + 1;
        }
      }
    }

    method PlaceCells(node: int)
      requires Valid() && 0 <= node < p * p
      modifies cellCoord
      ensures forall d, c :: 1 <= d <= 3 && 1 <= c <= p ==> cellCoord[d, c] == Along(CoordOf(node, p, c), d)
    {
      hide CoordOf;
      WalkDiagonal(node);
      label Walked:
      ShiftCoords();
      forall d, c | 1 <= d <= 3 && 1 <= c <= p
        ensures cellCoord[d, c] == Along(CoordOf(node, p, c), d)
      {
        assert old@Walked(Placed(CoordOf(node, p, c), cellCoord[1, c], cellCoord[2, c], cellCoord[3, c]));
      }
    }

    /** Every plane of every direction is assigned: the one cell that lies in it. */
    method FillSlices(node: int)
      requires Valid() && 0 <= node < p * p
      requires forall d, c :: 1 <= d <= 3 && 1 <= c <= p ==> cellCoord[d, c] == Along(CoordOf(node, p, c), d)
      modifies slice
      ensures forall d, n :: 1 <= d <= 3 && 1 <= n <= p ==> slice[d, n] == CellIn(node, p, d, n)
    {
      hide CoordOf, CellIn;
      for dir := 1 to 4
        invariant forall d, n :: 1 <= d < dir && 1 <= n <= p ==> slice[d, n] == CellIn(node, p, d, n)
      {
        forall n | 1 <= n <= p
          ensures 1 <= CellIn(node, p, dir, n) < p + 1
        {
          OneCellPerPlane(node, p, dir, n, 1);
        }
        for c := 1 to p + 1
          invariant forall d, n :: 1 <= d < dir && 1 <= n <= p ==> slice[d, n] == CellIn(node, p, d, n)
          invariant forall n :: 1 <= n <= p && CellIn(node, p, dir, n) < c ==> slice[dir, n] == CellIn(node, p, dir, n)
        {
          CellHasOwner(node, p, c);
          forall n | 1 <= n <= p
            ensures Along(CoordOf(node, p, c), dir) == n <==> c == CellIn(node, p, dir, n)
          {
            OneCellPerPlane(node, p, dir, n, c);
          }
          slice[dir, cellCoord[dir, c]] := c;
        }
      }
    }

    method FindNeighbours(node: int)
      requires Valid() && 0 <= node < p * p
      requires forall d, c :: 1 <= d <= 3 && 1 <= c <= p ==> cellCoord[d, c] == Along(CoordOf(node, p, c), d)
      modifies predecessor, successor
      ensures forall d :: 1 <= d <= 3 ==>
        && predecessor[d] == Predecessor(node, p, d)
        && successor[d] == Successor(node, p, d)
    {
      hide Rem, Quot, RankOf;
      FirstCell(node, p);
      var i, j := cellCoord[1, 1] - 1, cellCoord[2, 1] - 1;
      assert i == Rem(node, p) && j == Quot(node, p);
      predecessor[1] := RankOf(Rem(i - 1 + p, p), j, p);
      predecessor[2] := RankOf(i, Rem(j - 1 + p, p), p);
      predecessor[3] := RankOf(Rem(i + 1, p), Rem(j - 1 + p, p), p);
      successor[1] := RankOf(Rem(i + 1, p), j, p);
      successor[2] := RankOf(i, Rem(j + 1, p), p);
      successor[3] := RankOf(Rem(i - 1 + p, p), Rem(j + 1, p), p);
    }

    /** The sizes and limits of the cells; `ok` is false where the program aborts because a cell is thinner than 3. */
    method CutCells(gridPoints: seq<int>) returns (ok: bool)
      requires Valid() && |gridPoints| == 4
      modifies cellSize, cellLow, cellHigh
      ensures ok ==> forall d, c :: 1 <= d <= 3 && 1 <= c <= p ==>
        IsCut(gridPoints[d], p, cellCoord[d, c], cellSize[d, c], cellLow[d, c], cellHigh[d, c])
      ensures ok == forall d, c :: 1 <= d <= 3 && 1 <= c <= p ==> SizeOf(gridPoints[d], p, cellCoord[d, c]) > 2
    {
      hide SizeOf, LowOf, HighOf, Prod, Quot, Rem;
      for dir := 1 to 4
        invariant forall d, c :: 1 <= d < dir && 1 <= c <= p ==>
          IsCut(gridPoints[d], p, cellCoord[d, c], cellSize[d, c], cellLow[d, c], cellHigh[d, c])
        invariant forall d, c :: 1 <= d < dir && 1 <= c <= p ==> SizeOf(gridPoints[d], p, cellCoord[d, c]) > 2
      {
        var size, excess := Quot(gridPoints[dir], p), Rem(gridPoints[dir], p);
        for c := 1 to p + 1
          invariant forall d, c' :: 1 <= d <= dir && 1 <= c' <= p && (d < dir || c' < c) ==>
            IsCut(gridPoints[d], p, cellCoord[d, c'], cellSize[d, c'], cellLow[d, c'], cellHigh[d, c'])
          invariant forall d, c' :: 1 <= d <= dir && 1 <= c' <= p && (d < dir || c' < c) ==>
            SizeOf(gridPoints[d], p, cellCoord[d, c']) > 2
        {
          CutOf(gridPoints[dir], p, cellCoord[dir, c]);
          if cellCoord[dir, c] <= excess {
            cellSize[dir, c] := size + 1;
            cellLow[dir, c] := Prod(size + 1, cellCoord[dir, c] - 1);
            cellHigh[dir, c] := cellLow[dir, c] + size;
          } else {
            cellSize[dir, c] := size;
            cellLow[dir, c] := Prod(size + 1, excess) + Prod(size, cellCoord[dir, c] - excess - 1);
            cellHigh[dir, c] := cellLow[dir, c] + size - 1;
          }
          if cellSize[dir, c] <= 2 { return false; }
        }
      }
      return true;
    }

    /** `make_set` of one rank. */
    method MakeSet(node: int, gridPoints: seq<int>) returns (ok: bool)
      requires Valid() && 0 <= node < p * p && |gridPoints| == 4
      modifies cellCoord, slice, predecessor, successor, cellSize, cellLow, cellHigh
      ensures forall d, c :: 1 <= d <= 3 && 1 <= c <= p ==> cellCoord[d, c] == Along(CoordOf(node, p, c), d)
      ensures forall d, n :: 1 <= d <= 3 && 1 <= n <= p ==> slice[d, n] == CellIn(node, p, d, n)
      ensures forall d :: 1 <= d <= 3 ==>
        && predecessor[d] == Predecessor(node, p, d)
        && successor[d] == Successor(node, p, d)
      ensures ok ==> forall d, c :: 1 <= d <= 3 && 1 <= c <= p ==>
        IsCut(gridPoints[d], p, cellCoord[d, c], cellSize[d, c], cellLow[d, c], cellHigh[d, c])
      ensures ok == forall d, c :: 1 <= d <= 3 && 1 <= c <= p ==> SizeOf(gridPoints[d], p, cellCoord[d, c]) > 2
    {
      PlaceCells(node);
      FillSlices(node);
      FindNeighbours(node);
      ok := CutCells(gridPoints);
    }
  }
}
