/**
 The ranks of a grid with the storage that the source declares for them: its constant buffer size is
 enough for the six regions whenever the program's check of the cell sizes passes.
 */
module BuildRanks {
  import opened Numbers
  import opened Multipartition
  import opened FaceOrder
  import opened FacePairs
  import opened CopyFaces
  import opened HaloExchange

  /** What is compiled in: the largest problem and the largest number of cells a side. */
  datatype Compiled = Compiled(problemSize: nat, maxcells: nat)

  /** `MAX_CELL_DIM`. */
  function CellDim(k: Compiled): int
    requires k.maxcells > 0
  {
    Quot(k.problemSize, k.maxcells) + 1
  }

  /** `BUF_SIZE`. */
  function BufferSize(k: Compiled): int
    requires k.maxcells > 0
  {
    CellDim(k) * CellDim(k) * (k.maxcells - 1) * 60 + 1
  }

  /** `MAX_CELL_DIM` cells are just too long for the problem, one less are not. */
  lemma CellDimIs(k: Compiled)
    requires k.maxcells > 0
    ensures (CellDim(k) - 1) * k.maxcells <= k.problemSize < CellDim(k) * k.maxcells
  {
    var q := k.problemSize / k.maxcells;
    assert k.problemSize == q * k.maxcells + k.problemSize % k.maxcells;
  }

  /** The sample problem on four ranks: regions of two cells a side, seven points long. */
  lemma SampleBuffer()
    ensures BufferSize(Compiled(12, 2)) == 6 * (7 * 7 * 2 * 5) + 1
  {
    DivisionUnique(12, 2, 6, 0);
  }

  /** The check before the solver starts: no cell of the rank is longer than the declared arrays. */
  ghost predicate WithinArrays(g: Grid, node: int, m: int)
    requires IsRank(g, node)
  {
    forall c, d :: 1 <= c <= g.p && 1 <= d <= 3 ==> Size(g, node, c, d) <= m
  }

  /** No more cells a side than are compiled in, and the check passes. */
  ghost predicate Runs(g: Grid, node: int, k: Compiled) {
    IsRank(g, node) && g.p <= k.maxcells && WithinArrays(g, node, CellDim(k))
  }

  lemma SizeBelow(g: Grid, node: int, c: int, d: int, m: int)
    requires IsRank(g, node) && WithinArrays(g, node, m) && 1 <= c <= g.p && 1 <= d <= 3
    ensures 0 <= Size(g, node, c, d) <= m
  {
    hide Plane;
    SizeNotNegative(g.points[d], g.p, Plane(g, node, c, d));
  }

  /** The longest interval is short enough exactly when that many for every plane hold all points. */
  lemma LongestPlane(points: int, p: int, m: int)
    requires p > 0
    ensures (forall n :: 1 <= n <= p ==> SizeOf(points, p, n) <= m) <==> points <= Prod(p, m)
  {
    hide Prod, Quot, Rem;
    Division(points, p);
    var q := Quot(points, p);
    ProdSum(p, m, q);
    ProdAtLeast(p, m - q);
    ProdOne(p);
    if q > m || (q == m && Rem(points, p) > 0) {
      assert SizeOf(points, p, 1) > m;
    }
  }

  /**
   The check passes on a rank exactly when cells of the declared length would hold the grid, so it passes on
   all ranks or on none.
   */
  lemma CheckIs(g: Grid, node: int, m: int)
    requires IsRank(g, node)
    ensures WithinArrays(g, node, m) <==> forall d :: 1 <= d <= 3 ==> g.points[d] <= Prod(g.p, m)
  {
    hide CellIn, CoordOf, SizeOf, Prod;
    forall d | 1 <= d <= 3
      ensures (forall c :: 1 <= c <= g.p ==> Size(g, node, c, d) <= m) <==> g.points[d] <= Prod(g.p, m)
    {
      LongestPlane(g.points[d], g.p, m);
      forall c | 1 <= c <= g.p
        ensures 1 <= Plane(g, node, c, d) <= g.p
      {
        CellHasOwner(node, g.p, c);
      }
      forall n | 1 <= n <= g.p
        ensures 1 <= CellIn(node, g.p, d, n) <= g.p && Plane(g, node, CellIn(node, g.p, d, n), d) == n
      {
        OneCellPerPlane(node, g.p, d, n, 1);
        OneCellPerPlane(node, g.p, d, n, CellIn(node, g.p, d, n));
      }
      EveryPlaneOnce(g, node, d, m);
    }
  }

  lemma EveryPlaneOnce(g: Grid, node: int, d: int, m: int)
    requires IsRank(g, node) && 1 <= d <= 3
    requires forall c :: 1 <= c <= g.p ==> 1 <= Plane(g, node, c, d) <= g.p
    requires forall n :: 1 <= n <= g.p ==>
      1 <= CellIn(node, g.p, d, n) <= g.p && Plane(g, node, CellIn(node, g.p, d, n), d) == n
    ensures (forall c :: 1 <= c <= g.p ==> Size(g, node, c, d) <= m) <==>
      forall n :: 1 <= n <= g.p ==> SizeOf(g.points[d], g.p, n) <= m
  {
    hide CellIn, Plane, SizeOf;
    if forall c :: 1 <= c <= g.p ==> Size(g, node, c, d) <= m {
      forall n | 1 <= n <= g.p
        ensures SizeOf(g.points[d], g.p, n) <= m
      {
        assert Size(g, node, CellIn(node, g.p, d, n), d) <= m;
      }
    }
  }

  /** With all cells a side that are compiled in, no grid up to the compiled problem fails the check. */
  lemma FullGridRuns(g: Grid, node: int, k: Compiled)
    requires IsRank(g, node) && k.maxcells == g.p && forall d :: 1 <= d <= 3 ==> g.points[d] <= k.problemSize
    ensures Runs(g, node, k)
  {
    hide Prod, Quot, Rem, WithinArrays;
    Division(k.problemSize, g.p);
    ProdSum(g.p, Quot(k.problemSize, g.p), 1);
    ProdOne(g.p);
    CheckIs(g, node, CellDim(k));
  }

  /** Fewer cells a side can run too: twelve points in three cells of four, compiled for four cells. */
  lemma FewerCellsRun(node: int)
    requires 0 <= node < 9
    ensures var g := Grid(3, [0, 12, 12, 12]); IsRank(g, node) && Runs(g, node, Compiled(12, 4))
  {
    var g := Grid(3, [0, 12, 12, 12]);
    DivisionUnique(12, 3, 4, 0);
    DivisionUnique(12, 4, 3, 0);
    CheckIs(g, node, 4);
  }

  lemma ProductBelow(a: nat, b: nat, m: nat)
    requires a <= m && b <= m
    ensures a * b <= m * m
  {
    assert a * b <= a * m <= m * m;
  }

  lemma FaceSizeBelow(g: Grid, node: int, dir: int, c: int, m: int)
    requires IsRank(g, node) && 1 <= dir <= 3
    requires 1 <= c <= g.p && WithinArrays(g, node, m)
    ensures 0 <= FaceSize(g, node, dir, c) <= m * m * 10
  {
    hide Size, WithinArrays;
    SizeBelow(g, node, c, 1, m);
    SizeBelow(g, node, c, 2, m);
    SizeBelow(g, node, c, 3, m);
    var s1, s2, s3 := Size(g, node, c, 1), Size(g, node, c, 2), Size(g, node, c, 3);
    ProductBelow(s1, s2, m);
    ProductBelow(s1, s3, m);
    ProductBelow(s2, s3, m);
  }

  /** The cell without a neighbour across a face. */
  function EndCell(g: Grid, node: int, f: int): int
    requires g.p > 0
  {
    CellIn(node, g.p, Dir(f), if High(f) then g.p else 1)
  }

  /** `k` layers of at most `w` numbers. */
  function Amount(k: int, w: int): int {
    k * w
  }

  lemma AmountNext(k: int, w: int)
    ensures Amount(k + 1, w) == Amount(k, w) + w && Amount(0, w) == 0
  {
  }

  /** The cells up to `n`, without the end cell. */
  function Packing(e: int, n: int): int {
    if e <= n then n - 1 else n
  }

  lemma EndCellIs(g: Grid, node: int, f: int, c: int)
    requires IsRank(g, node) && 0 <= f < 6 && 1 <= c <= g.p
    ensures 1 <= EndCell(g, node, f) <= g.p && (Has(g, node, f, c) <==> c != EndCell(g, node, f))
  {
    OneCellPerPlane(node, g.p, Dir(f), if High(f) then g.p else 1, c);
  }

  /** A rank packs at a face for all its cells but one. */
  lemma {:induction false} FaceTotalBelow(g: Grid, node: int, f: int, n: nat, m: nat)
    requires IsRank(g, node) && 0 <= f < 6 && n <= g.p && WithinArrays(g, node, m)
    ensures FaceTotal(g, node, f, n) <= Amount(Packing(EndCell(g, node, f), n), m * m * 10)
    ensures 1 <= EndCell(g, node, f) <= g.p
  {
    hide Inner, Walk, FaceSize, EndCell, Has, Amount, WithinArrays;
    EndCellIs(g, node, f, if n == 0 then 1 else n);
    if n == 0 {
      AmountNext(0, m * m * 10);
    } else {
      FaceTotalBelow(g, node, f, n - 1, m);
      FaceSizeIs(g, node, f, n);
      FaceSizeBelow(g, node, Dir(f), n, m);
      AmountNext(Packing(EndCell(g, node, f), n - 1), m * m * 10);
    }
  }

  /** The constant buffer size holds the six regions of every rank that passes the check. */
  lemma RegionsFit(g: Grid, node: int, k: Compiled, size: seq<int>, start: seq<int>)
    requires Runs(g, node, k) && |size| == 6 && Laid(g, node, size, start, AllSizes(size))
    ensures AllSizes(size) <= BufferSize(k)
  {
    hide CellDim, FaceTotal, EndCell, Amount, Packing, BufferSize, WithinArrays;
    var m := CellDim(k);
    SizeBelow(g, node, 1, 1, m);
    var b := SixBelow(k, m);
    forall f | 0 <= f < 6
      ensures size[f] <= b
    {
      FaceTotalOfAll(g, node, f, m);
      AmountMono(g.p - 1, k.maxcells - 1, m * m * 10);
      assert size[f] == FaceTotal(g, node, f, g.p);
    }
  }

  /** What one face packs at most; six times that is the buffer. */
  lemma SixBelow(k: Compiled, m: int) returns (b: int)
    requires k.maxcells > 0 && m == CellDim(k)
    ensures b == Amount(k.maxcells - 1, m * m * 10) && 6 * b <= BufferSize(k)
  {
    b := (k.maxcells - 1) * (m * m * 10);
    assert 6 * b == m * m * (k.maxcells - 1) * 60;
  }

  lemma AmountMono(a: int, b: int, w: nat)
    requires a <= b
    ensures Amount(a, w) <= Amount(b, w)
  {
  }

  lemma FaceTotalOfAll(g: Grid, node: int, f: int, m: nat)
    requires IsRank(g, node) && 0 <= f < 6 && WithinArrays(g, node, m)
    ensures m * m * 10 >= 0 && FaceTotal(g, node, f, g.p) <= Amount(g.p - 1, m * m * 10)
  {
    hide FaceTotal, EndCell, Amount, WithinArrays;
    ProductBelow(0, 0, m);
    FaceTotalBelow(g, node, f, g.p, m);
  }

  /** One rank, with its buffers laid out. */
  method NewRank(g: Grid, k: Compiled, r: int) returns (rank: FaceRank)
    requires Runs(g, r, k)
    ensures RankOk(rank, g, r) && fresh(rank) && fresh(rank.Arrays())
  {
    hide Laid, Declared, Blank, BufferSize, CellDim, AllSizes, WithinArrays;
    SizeBelow(g, r, 1, 1, CellDim(k));
    RoomIsNat(k, CellDim(k));
    rank := new FaceRank(g, r, Blank(g, r), BufferSize(k));
    rank.ComputeBufferSize();
    RegionsFit(g, r, k, rank.size[..], rank.start[..]);
  }

  /** All ranks of a grid; the check of one of them is the check of all. */
  method NewRanks(g: Grid, k: Compiled) returns (ranks: seq<FaceRank>)
    requires GridOk(g) && Runs(g, 0, k)
    ensures Machine(ranks, g) && forall r :: 0 <= r < |ranks| ==> fresh(ranks[r]) && ranks[r].Ready()
  {
    hide RankOk, GridOk, WithinArrays;
    ranks := [];
    var n := g.p * g.p;
    assert n >= 0;
    for r := 0 to n
      invariant |ranks| == r && forall s :: 0 <= s < r ==> RankOk(ranks[s], g, s)
      invariant forall s, t :: 0 <= s < t < r ==> ranks[s].Arrays() !! ranks[t].Arrays()
      invariant forall s :: 0 <= s < r ==> fresh(ranks[s]) && fresh(ranks[s].Arrays())
    {
      CheckIs(g, 0, CellDim(k));
      CheckIs(g, r, CellDim(k));
      var rank := NewRank(g, k, r);
      ranks := ranks + [rank];
    }
    forall r | 0 <= r < |ranks|
      ensures ranks[r].g == g && ranks[r].node == r && ranks[r].Valid() && ranks[r].Ready()
    {
      RankFacts(ranks[r], g, r);
    }
  }

  ghost predicate RankOk(rank: FaceRank, g: Grid, r: int)
    reads rank, rank.size, rank.start
  {
    rank.g == g && rank.node == r && rank.Valid() && rank.Ready()
  }

  lemma RankFacts(rank: FaceRank, g: Grid, r: int)
    requires RankOk(rank, g, r)
    ensures rank.g == g && rank.node == r && rank.Valid() && rank.Ready()
  {
  }

  lemma NotNegative(a: int, b: int)
    requires a >= 0 && b >= 0
    ensures a * b >= 0
  {
  }

  lemma RoomIsNat(k: Compiled, m: int)
    requires k.maxcells > 0 && m == CellDim(k) && m >= 0
    ensures BufferSize(k) >= 0
  {
    hide CellDim;
    ProductBelow(0, 0, m);
    NotNegative(m * m, k.maxcells - 1);
  }
}
