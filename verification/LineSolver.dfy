/**
 The solver from right-hand sides to solutions: cells are set up, `x_solve` runs over them, and what they
 hold afterwards is read out.
 */
module LineSolver {
  import opened Blocks
  import opened BlockRoutines
  import opened LineSystem
  import opened LineSolve
  import opened CellSolve

  /** Where each cell begins: the running sums of the sizes. */
  function StartsOf(sizes: seq<nat>, k: nat): (starts: seq<nat>)
    requires k <= |sizes|
    ensures |starts| == k + 1 && starts[0] == 0
  {
    if k == 0 then [0] else var before := StartsOf(sizes, k - 1); before + [before[k - 1] + sizes[k - 1]]
  }

  lemma {:induction false} StartsMeet(sizes: seq<nat>, k: nat, s: nat)
    requires s < k <= |sizes|
    ensures StartsOf(sizes, k)[s] + sizes[s] == StartsOf(sizes, k)[s + 1]
  {
    var before := StartsOf(sizes, k - 1);
    assert StartsOf(sizes, k) == before + [before[k - 1] + sizes[k - 1]];
    if s < k - 1 { StartsMeet(sizes, k - 1, s); }
  }

  lemma StartsCut(sizes: seq<nat>, starts: seq<nat>)
    requires starts == StartsOf(sizes, |sizes|)
    ensures forall s :: 0 <= s < |sizes| ==> starts[s] + sizes[s] == starts[s + 1]
  {
    forall s | 0 <= s < |sizes|
      ensures starts[s] + sizes[s] == starts[s + 1]
    {
      StartsMeet(sizes, |sizes|, s);
    }
  }

  /** The part of every line's system that lies in a cell. */
  function PartOf(sys: seq<seq<Row>>, lo: nat, size: nat): (blocks: seq<seq<Row>>)
    requires forall l :: 0 <= l < |sys| ==> lo + size <= |sys[l]|
    ensures |blocks| == |sys| && forall l :: 0 <= l < |sys| ==> blocks[l] == sys[l][lo..lo + size]
  {
    seq(|sys|, l requires 0 <= l < |sys| && lo + size <= |sys[l]| => sys[l][lo..lo + size])
  }

  lemma PartComputed(sys: seq<seq<Row>>, solved: seq<bool>, n: nat, lo: nat, size: nat)
    requires Systems(sys, solved, n) && (forall l :: 0 <= l < |sys| ==> |sys[l]| == n) && lo + size <= n
    requires forall l :: 0 <= l < |sys| ==> solved[l]
    ensures Computed(PartOf(sys, lo, size), sys, solved, n, lo, size)
  {
  }

  lemma SystemsHold(sys: seq<seq<Row>>, solved: seq<bool>, n: nat)
    requires |solved| == |sys| && forall l :: 0 <= l < |sys| ==> System(sys[l], n)
    ensures Systems(sys, solved, n) && forall l :: 0 <= l < |sys| ==> |sys[l]| == n && IsLine(sys[l]) && Pivotal(sys[l])
  {
  }

  lemma CutHolds(sizes: seq<nat>, starts: seq<nat>, n: nat)
    requires |sizes| > 0 && (forall s :: 0 <= s < |sizes| ==> sizes[s] >= 1) && |starts| == |sizes| + 1
    requires starts[0] == 0 && starts[|sizes|] == n && forall s :: 0 <= s < |sizes| ==>
      starts[s] + sizes[s] == starts[s + 1]
    ensures Cut(sizes, starts, n)
  {
  }

  /** A new cell with the right-hand sides of its part of the lines. */
  method NewCell(sys: seq<seq<Row>>, solved: seq<bool>, n: nat, lo: nat, size: nat) returns (cell: GridCell)
    requires size >= 1 && lo + size <= n && Systems(sys, solved, n) && forall l :: 0 <= l < |sys| ==> solved[l]
    ensures cell.Valid() && cell.size == size && |cell.lines| == |sys| && fresh(cell.Repr)
    ensures cell.Waiting(sys, solved, n, lo)
  {
    hide Pivotal, Bounded, LineCell.Clear, LineCell.RhsGiven, VecAt;
    cell := new GridCell(size, |sys|);
    for l := 0 to |sys|
      invariant forall k :: 0 <= k < |sys| ==> cell.lines[k].Clear()
      invariant forall k :: 0 <= k < l ==> cell.lines[k].RhsGiven(sys[k], lo)
    {
      LoadLine(cell.lines[l], sys[l], lo);
    }
    forall l | 0 <= l < |sys|
      ensures cell.lines[l].EndsClear(lo == 0, lo + size == n)
    {
      EndsAreClear(cell.lines[l], lo == 0, lo + size == n);
    }
  }

  lemma EndsAreClear(line: LineCell, first: bool, last: bool)
    requires line.Valid() && line.Clear()
    ensures line.EndsClear(first, last)
  {
  }

  method LoadLine(line: LineCell, rows: seq<Row>, lo: nat)
    requires line.Valid() && IsLine(rows) && lo + line.size <= |rows|
    modifies line.rhs
    ensures line.RhsGiven(rows, lo)
  {
    var vs := seq(line.size, k requires 0 <= k < line.size && lo + line.size <= |rows| => rows[lo + k].r);
    line.LoadRhs(vs);
  }

  /** The solution of line `l` as the cells hold it. */
  method ReadLine(cells: seq<GridCell>, l: nat, ghost sys: seq<seq<Row>>, ghost solved: seq<bool>, ghost n: nat,
      ghost sizes: seq<nat>, starts: seq<nat>)
      returns (xs: seq<Vec>)
    requires Cut(sizes, starts, n) && RowOfCells(cells, sizes, |sys|) && Systems(sys, solved, n) && l < |sys|
    requires solved[l]
    requires forall s :: 0 <= s < |cells| ==>
      && starts[s] + cells[s].size <= n
      && cells[s].AnsweredLines(sys, solved, n, starts[s])
    ensures xs == Answers(sys[l])
  {
    hide Pivotal, Bounded, VecAt, Answer, GridCell.AnsweredLines, LineCell.Valid;
    xs := [];
    CutFacts(sizes, starts, n);
    for s := 0 to |cells|
      invariant |xs| == starts[s] <= n && forall i :: 0 <= i < |xs| ==> xs[i] == Answer(sys[l], i)
    {
      var part := ReadPart(cells[s], l, sys, solved, n, starts[s]);
      ghost var before := xs;
      xs := xs + part;
      forall i | 0 <= i < |xs|
        ensures xs[i] == Answer(sys[l], i)
      {
        if i >= |before| { assert xs[i] == part[i - |before|]; }
      }
    }
    assert xs == Answers(sys[l]);
  }

  method ReadPart(cell: GridCell, l: nat, ghost sys: seq<seq<Row>>, ghost solved: seq<bool>, ghost n: nat,
      ghost lo: nat)
      returns (part: seq<Vec>)
    requires cell.Valid() && Systems(sys, solved, n) && |sys| == |cell.lines| && l < |sys| && solved[l]
    requires lo + cell.size <= n
    requires cell.AnsweredLines(sys, solved, n, lo)
    ensures |part| == cell.size && forall k :: 0 <= k < cell.size ==> part[k] == Answer(sys[l], lo + k)
  {
    hide Pivotal, Bounded, VecAt, Answer;
    part := cell.lines[l].ReadRhs();
    forall k | 0 <= k < cell.size
      ensures part[k] == Answer(sys[l], lo + k)
    {
      assert cell.lines[l].AnswerAt(sys[l], lo, k + 1);
    }
  }

  /** All cells of a row, ready for the sweep. */
  method NewCells(sys: seq<seq<Row>>, solved: seq<bool>, n: nat, sizes: seq<nat>, starts: seq<nat>)
      returns (cells: seq<GridCell>, blocks: seq<seq<seq<Row>>>)
    requires Cut(sizes, starts, n) && Systems(sys, solved, n) && forall l :: 0 <= l < |sys| ==>
      && solved[l]
      && |sys[l]| == n
    ensures RowOfCells(cells, sizes, |sys|) && |blocks| == |cells| && fresh(AllStorage(cells))
    ensures forall s :: 0 <= s < |cells| ==> starts[s] + cells[s].size <= n
    ensures forall s :: 0 <= s < |cells| ==> Computed(blocks[s], sys, solved, n, starts[s], cells[s].size)
    ensures forall s :: 0 <= s < |cells| ==> cells[s].Waiting(sys, solved, n, starts[s])
  {
    hide System, Computed, GridCell.Waiting, GridCell.Valid;
    CutFacts(sizes, starts, n);
    cells, blocks := [], [];
    for s := 0 to |sizes|
      invariant |cells| == |blocks| == s
      invariant forall k :: 0 <= k < s ==>
        && cells[k].Valid()
        && cells[k].size == sizes[k]
        && |cells[k].lines| == |sys|
        && fresh(cells[k].Repr)
      invariant forall k, k' :: 0 <= k < k' < s ==> cells[k].Repr !! cells[k'].Repr
      invariant forall k :: 0 <= k < s ==> Computed(blocks[k], sys, solved, n, starts[k], sizes[k])
      invariant forall k :: 0 <= k < s ==> cells[k].Waiting(sys, solved, n, starts[k])
    {
      var cell := NewCell(sys, solved, n, starts[s], sizes[s]);
      PartComputed(sys, solved, n, starts[s], sizes[s]);
      cells, blocks := cells + [cell], blocks + [PartOf(sys, starts[s], sizes[s])];
    }
  }

  /**
   For any lines and any cut into cells, the sweep over the cells returns for each line the solution of its
   block-tridiagonal system, and the only one.
   */
  method SolveSystems(sys: seq<seq<Row>>, sizes: seq<nat>, n: nat) returns (xs: seq<seq<Vec>>)
    requires |sizes| > 0 && (forall s :: 0 <= s < |sizes| ==> sizes[s] >= 1) && StartsOf(sizes, |sizes|)[|sizes|] == n
    requires forall l :: 0 <= l < |sys| ==> System(sys[l], n)
    ensures |xs| == |sys| && forall l :: 0 <= l < |sys| ==> OnlySolution(sys[l], xs[l])
  {
    hide System, Systems, Computed, GridCell.Waiting, GridCell.AnsweredLines, GridCell.Valid, Answers, Cut,
      OnlySolution;
    var starts := StartsOf(sizes, |sizes|);
    var solved := seq(|sys|, _ => true);
    SystemsHold(sys, solved, n);
    StartsCut(sizes, starts);
    CutHolds(sizes, starts, n);
    var cells, blocks := NewCells(sys, solved, n, sizes, starts);
    XSolve(cells, blocks, solved, sys, n, sizes, starts);
    xs := ReadLines(cells, sys, solved, n, sizes, starts);
  }

  method ReadLines(cells: seq<GridCell>, sys: seq<seq<Row>>, ghost solved: seq<bool>, ghost n: nat,
      ghost sizes: seq<nat>, starts: seq<nat>)
      returns (xs: seq<seq<Vec>>)
    requires Cut(sizes, starts, n) && RowOfCells(cells, sizes, |sys|) && Systems(sys, solved, n)
    requires forall l :: 0 <= l < |sys| ==> solved[l] && System(sys[l], n)
    requires forall s :: 0 <= s < |cells| ==>
      && starts[s] + cells[s].size <= n
      && cells[s].AnsweredLines(sys, solved, n, starts[s])
    ensures |xs| == |sys| && forall l :: 0 <= l < |sys| ==> OnlySolution(sys[l], xs[l])
  {
    hide Bounded, Pivotal, Systems, GridCell.AnsweredLines, GridCell.Valid, Answers, Cut, OnlySolution;
    xs := [];
    for l := 0 to |sys|
      invariant |xs| == l && forall k :: 0 <= k < l ==> OnlySolution(sys[k], xs[k])
    {
      var x := ReadLine(cells, l, sys, solved, n, sizes, starts);
      AnswersOnly(sys[l]);
      xs := xs + [x];
    }
  }

  ghost predicate OnlySolution(rows: seq<Row>, xs: seq<Vec>) {
    IsLine(rows) && forall ys :: Solves(rows, ys) <==> ys == xs
  }

  lemma AnswersOnly(rows: seq<Row>)
    requires IsLine(rows) && Pivotal(rows)
    ensures OnlySolution(rows, Answers(rows))
  {
    hide Solves, Answers, Pivotal;
    forall ys
      ensures Solves(rows, ys) <==> ys == Answers(rows)
    {
      SweepSolves(rows, ys);
    }
  }
}
