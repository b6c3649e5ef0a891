/**
 The solver on all ranks from right-hand sides to solutions: cells are built for every rank and stage,
 `SolveOnAllRanks` runs over them, and the solutions are gathered from the owners of the cells.
 */
module SolveGrid {
  import opened Numbers
  import opened Blocks
  import opened LineSystem
  import opened LineSolve
  import opened CellSolve
  import opened Multipartition
  import opened LineSolver
  import opened SolveRanks

  /** A task in which all lines are solved, each a system of `n` rows. */
  ghost predicate FullTask(t: Task) {
    && TaskOk(t) && (forall s :: 0 <= s < t.p ==> t.sizes[s] >= 1)
    && forall row :: 0 <= row < |t.sys| ==> FullRow(t.sys[row], t.solved[row], t.n)
  }

  ghost predicate FullRow(sys: seq<seq<Row>>, solved: seq<bool>, n: nat) {
    Systems(sys, solved, n) && forall l :: 0 <= l < |sys| ==> solved[l] && |sys[l]| == n && System(sys[l], n)
  }

  // ---- Building ----

  /** The cells of one rank, before the first stage. */
  ghost predicate NewRank(cs: seq<GridCell>, bs: seq<seq<seq<Row>>>, t: Task, r: int)
    reads AllStorage(cs)
  {
    && |cs| == |bs| == t.p && (forall s :: 0 <= s < |cs| ==> NewStage(cs[s], bs[s], t, r, s))
    && forall s, s' :: 0 <= s < |cs| && 0 <= s' < |cs| && s != s' ==> cs[s].Repr !! cs[s'].Repr
  }

  ghost predicate NewStage(cell: GridCell, blocks: seq<seq<Row>>, t: Task, r: int, s: int)
    reads cell.Repr
  {
    CellOk(cell, t, r, s) && AtStage(cell, t, r, s, 0) && StageComputed(blocks, t, r, s)
  }

  method BuildStage(t: Task, r: int, s: int) returns (cell: GridCell, blocks: seq<seq<Row>>)
    requires FullTask(t) && IsStage(t, r, s)
    ensures NewStage(cell, blocks, t, r, s) && fresh(cell.Repr)
  {
    hide System, GridCell.Waiting, GridCell.Valid, Computed, Cut, RowAt, Systems;
    var row := RowAt(r, t.p, s);
    assert FullRow(t.sys[row], t.solved[row], t.n);
    CutFacts(t.sizes, t.starts, t.n);
    cell := NewCell(t.sys[row], t.solved[row], t.n, t.starts[s], t.sizes[s]);
    blocks := PartOf(t.sys[row], t.starts[s], t.sizes[s]);
    PartComputed(t.sys[row], t.solved[row], t.n, t.starts[s], t.sizes[s]);
  }

  method BuildRank(t: Task, r: int) returns (cs: seq<GridCell>, bs: seq<seq<seq<Row>>>)
    requires FullTask(t) && 0 <= r < t.p * t.p
    ensures NewRank(cs, bs, t, r) && fresh(AllStorage(cs))
  {
    hide NewStage;
    cs, bs := [], [];
    for s := 0 to t.p
      invariant |cs| == |bs| == s && forall k :: 0 <= k < s ==> NewStage(cs[k], bs[k], t, r, k) && fresh(cs[k].Repr)
      invariant forall k, k' :: 0 <= k < s && 0 <= k' < s && k != k' ==> cs[k].Repr !! cs[k'].Repr
    {
      var cell, blocks := BuildStage(t, r, s);
      cs, bs := cs + [cell], bs + [blocks];
    }
  }

  method BuildTeam(t: Task) returns (cells: seq<seq<GridCell>>, blocks: seq<seq<seq<seq<Row>>>>)
    requires FullTask(t)
    ensures Team(cells, t) && AllComputed(blocks, t) && AllAt(cells, t, seq(|cells|, _ => 0))
    ensures fresh(StorageOfAll(cells))
  {
    hide NewRank, FullTask;
    cells, blocks := [], [];
    assert TaskOk(t) by { FullIsOk(t); }
    for r := 0 to t.p * t.p
      invariant |cells| == |blocks| == r
      invariant forall k :: 0 <= k < r ==> NewRank(cells[k], blocks[k], t, k) && fresh(AllStorage(cells[k]))
      invariant forall k, k' :: 0 <= k < k' < r ==> AllStorage(cells[k]) !! AllStorage(cells[k'])
    {
      var cs, bs := BuildRank(t, r);
      cells, blocks := cells + [cs], blocks + [bs];
    }
    assert |cells| == t.p * t.p;
    TeamIsBuilt(cells, blocks, t);
    StorageIs(cells);
  }

  lemma FullIsOk(t: Task)
    requires FullTask(t)
    ensures TaskOk(t)
  {
  }

  lemma StorageIs(cells: seq<seq<GridCell>>)
    ensures forall a :: a in StorageOfAll(cells) ==> exists r :: 0 <= r < |cells| && a in AllStorage(cells[r])
  {
    forall a | a in StorageOfAll(cells)
      ensures exists r :: 0 <= r < |cells| && a in AllStorage(cells[r])
    {
      var r, s :| 0 <= r < |cells| && 0 <= s < |cells[r]| && a in cells[r][s].Repr;
      assert a in AllStorage(cells[r]);
    }
  }

  lemma TeamIsBuilt(cells: seq<seq<GridCell>>, blocks: seq<seq<seq<seq<Row>>>>, t: Task)
    requires TaskOk(t) && |cells| == |blocks| == t.p * t.p
    requires forall r :: 0 <= r < |cells| ==> NewRank(cells[r], blocks[r], t, r)
    requires forall r, r' :: 0 <= r < r' < |cells| ==> AllStorage(cells[r]) !! AllStorage(cells[r'])
    ensures Team(cells, t) && AllComputed(blocks, t) && AllAt(cells, t, seq(|cells|, _ => 0))
  {
    hide TaskOk, CellOk, AtStage, StageComputed, AllStorage;
    forall r, s | 0 <= r < |cells| && 0 <= s < t.p
      ensures |cells[r]| == |blocks[r]| == t.p && CellOk(cells[r][s], t, r, s) && AtStage(cells[r][s], t, r, s, 0)
      ensures StageComputed(blocks[r][s], t, r, s) && cells[r][s].Repr <= AllStorage(cells[r])
    {
      assert NewStage(cells[r][s], blocks[r][s], t, r, s);
      InStorage(cells[r], s);
    }
    assert Team(cells, t);
    forall r, s | 0 <= r < |cells| && 0 <= s < t.p
      ensures CellAtStage(cells, t, r, s, 0)
    {
    }
  }

  // ---- Gathering ----

  /** The rank that holds cell `s` of a row of cells works on it at stage `s`. */
  function OwnerAt(row: nat, p: nat, s: nat): (r: nat)
    requires p > 0 && row < p * p && s < p
    ensures r < p * p && RowAt(r, p, s) == row
  {
    RankParts(row, p);
    var at := Coord(s + 1, Rem(row, p) + 1, Quot(row, p) + 1);
    OwnerHasCell(at, p);
    OwnerStage(at, p, OwnerOf(at, p), s);
    OwnerOf(at, p)
  }

  lemma OwnerStage(at: Coord, p: nat, r: int, s: nat)
    requires p > 0 && 0 <= r < p * p && s < p && InGrid(at, p) && CoordOf(r, p, at.z) == at && at.x == s + 1
    ensures RowAt(r, p, s) == RankOf(at.y - 1, at.z - 1, p)
  {
    hide CoordOf, CellIn, RankOf;
    OneCellPerPlane(r, p, 1, s + 1, at.z);
  }

  method GatherLine(cells: seq<seq<GridCell>>, t: Task, row: nat, l: nat) returns (xs: seq<Vec>)
    requires FullTask(t) && Team(cells, t) && row < |t.sys| && l < |t.sys[row]|
    requires AllSolved(cells, t)
    ensures OnlySolution(t.sys[row][l], xs)
  {
    hide Pivotal, Bounded, Answer, GridCell.AnsweredLines, GridCell.Valid, OwnerAt, Solved, Systems, Team, RowAt;
    TeamSize(cells, t);
    assert FullRow(t.sys[row], t.solved[row], t.n);
    ghost var rows := t.sys[row][l];
    xs := [];
    CutFacts(t.sizes, t.starts, t.n);
    for s := 0 to t.p
      invariant AllSolved(cells, t)
      invariant |xs| == t.starts[s] <= t.n && forall i :: 0 <= i < |xs| ==> xs[i] == Answer(rows, i)
    {
      var r := OwnerAt(row, t.p, s);
      TeamFacts(cells, t, r, s);
      assert Solved(cells[r][s], t, r, s);
      var part := GatherPart(cells[r][s], t, r, s, l);
      ghost var before := xs;
      xs := xs + part;
      forall i | 0 <= i < |xs|
        ensures xs[i] == Answer(rows, i)
      {
        if i >= |before| { assert xs[i] == part[i - |before|]; }
      }
    }
    assert xs == Answers(rows);
    AnswersOnly(rows);
  }

  method GatherPart(cell: GridCell, t: Task, r: int, s: int, l: nat) returns (part: seq<Vec>)
    requires FullTask(t) && Solved(cell, t, r, s) && l < |t.sys[RowAt(r, t.p, s)]|
    ensures IsStage(t, r, s) && IsLine(t.sys[RowAt(r, t.p, s)][l]) && |t.sys[RowAt(r, t.p, s)][l]| == t.n
    ensures |part| == t.sizes[s] && t.starts[s] + |part| <= t.n
    ensures forall k :: 0 <= k < |part| ==> part[k] == Answer(t.sys[RowAt(r, t.p, s)][l], t.starts[s] + k)
  {
    hide Pivotal, Bounded, Answer, GridCell.AnsweredLines, GridCell.Valid, RowAt, Systems;
    ghost var row := RowAt(r, t.p, s);
    assert FullRow(t.sys[row], t.solved[row], t.n);
    part := ReadPart(cell, l, t.sys[row], t.solved[row], t.n, t.starts[s]);
  }

  /**
   For any lines through the `p * p` rows of cells and any cut into `p` cells, the ranks together compute for
   each line the solution of its block-tridiagonal system, and the only one.
   */
  method SolveAllLines(p: nat, sizes: seq<nat>, n: nat, sys: seq<seq<seq<Row>>>) returns (xs: seq<seq<seq<Vec>>>)
    requires p > 0 && |sizes| == p && (forall s :: 0 <= s < p ==> sizes[s] >= 1) && StartsOf(sizes, p)[p] == n
    requires |sys| == p * p
    requires forall row, l :: 0 <= row < |sys| && 0 <= l < |sys[row]| ==> System(sys[row][l], n)
    ensures |xs| == |sys| && forall row :: 0 <= row < |sys| ==>
      && |xs[row]| == |sys[row]|
      && forall l :: 0 <= l < |sys[row]| ==> OnlySolution(sys[row][l], xs[row][l])
  {
    hide FullTask, Team, AllComputed, AllAt, AllSolved, OnlySolution, System;
    var solved := seq(|sys|, row requires 0 <= row < |sys| => seq(|sys[row]|, _ => true));
    var t := Task(p, n, sizes, StartsOf(sizes, p), solved, sys);
    TaskIsFull(t);
    var cells, blocks := BuildTeam(t);
    SolveOnAllRanks(cells, blocks, t);
    xs := [];
    for row := 0 to |sys|
      invariant |xs| == row && forall k :: 0 <= k < row ==> RowSolved(sys[k], xs[k])
      invariant AllSolved(cells, t)
    {
      var lines := GatherRow(cells, t, row);
      xs := xs + [lines];
    }
  }

  ghost predicate RowSolved(sys: seq<seq<Row>>, xs: seq<seq<Vec>>) {
    |xs| == |sys| && forall l :: 0 <= l < |sys| ==> OnlySolution(sys[l], xs[l])
  }

  method GatherRow(cells: seq<seq<GridCell>>, t: Task, row: nat) returns (xs: seq<seq<Vec>>)
    requires FullTask(t) && Team(cells, t) && row < |t.sys|
    requires AllSolved(cells, t)
    ensures RowSolved(t.sys[row], xs)
  {
    hide FullTask, Team, Solved, OnlySolution, StorageOfAll;
    TeamSize(cells, t);
    xs := [];
    for l := 0 to |t.sys[row]|
      invariant |xs| == l && forall k :: 0 <= k < l ==> OnlySolution(t.sys[row][k], xs[k])
      invariant AllSolved(cells, t)
    {
      label Before:
      var x := GatherLine(cells, t, row, l);
      forall r, s | 0 <= r < |cells| && 0 <= s < t.p
        ensures |cells[r]| == t.p && Solved(cells[r][s], t, r, s)
      {
        TeamFacts(cells, t, r, s);
        assert old@Before(Solved(cells[r][s], t, r, s));
      }
      xs := xs + [x];
    }
  }

  lemma TaskIsFull(t: Task)
    requires t.p > 0 && |t.sizes| == t.p && (forall s :: 0 <= s < t.p ==> t.sizes[s] >= 1)
    requires t.starts == StartsOf(t.sizes, t.p) && t.starts[t.p] == t.n && |t.sys| == |t.solved| == t.p * t.p
    requires forall row, l :: 0 <= row < |t.sys| && 0 <= l < |t.sys[row]| ==> System(t.sys[row][l], t.n)
    requires forall row :: 0 <= row < |t.sys| ==>
      |t.solved[row]| == |t.sys[row]| && forall l :: 0 <= l < |t.sys[row]| ==> t.solved[row][l]
    ensures FullTask(t)
  {
    hide System;
    StartsCut(t.sizes, t.starts);
    CutHolds(t.sizes, t.starts, t.n);
    CutFacts(t.sizes, t.starts, t.n);
    forall row | 0 <= row < |t.sys|
      ensures FullRow(t.sys[row], t.solved[row], t.n)
    {
      SystemsHold(t.sys[row], t.solved[row], t.n);
    }
  }
}
