/**
 `x_solve` over the cells of a row of cells: every cell solves all its lines at each stage and hands on one
 message for all of them. A cell's lines are numbered in the order of the loops over `k` and `j`.
 */
module CellSolve {
  import opened Blocks
  import opened BlockRoutines
  import opened LineSystem
  import opened LineSolve

  /** What a line takes in the two messages: a block and a vector, or a vector. */
  const FORWARD: nat := 30
  const BACKWARD: nat := 5

  function ForwardPart(m: seq<real>, l: nat): seq<real>
    requires FORWARD * l + FORWARD <= |m|
  {
    m[FORWARD * l..FORWARD * l + FORWARD]
  }

  function BackwardPart(m: seq<real>, l: nat): seq<real>
    requires BACKWARD * l + BACKWARD <= |m|
  {
    m[BACKWARD * l..BACKWARD * l + BACKWARD]
  }

  /** A line's system: `n` rows, the end rows as the program leaves them, no zero pivot. */
  ghost predicate System(rows: seq<Row>, n: nat) {
    IsLine(rows) && |rows| == n && Bounded(rows) && Pivotal(rows)
  }

  /**
   The systems of the lines that are solved. Lines at the boundary of the grid are not, but travel with the
   others.
   */
  ghost predicate Systems(sys: seq<seq<Row>>, solved: seq<bool>, n: nat) {
    |sys| == |solved| && forall l :: 0 <= l < |sys| && solved[l] ==> System(sys[l], n)
  }

  /** What the formulas of the solver compute for the points of a cell: the blocks of their rows. */
  ghost predicate Computed(blocks: seq<seq<Row>>, sys: seq<seq<Row>>, solved: seq<bool>, n: nat, lo: nat, size: nat) {
    && Systems(sys, solved, n) && |blocks| == |sys| && lo + size <= n
    && forall l :: 0 <= l < |sys| && solved[l] ==> LineComputed(blocks[l], sys[l], lo, size)
  }

  ghost predicate LineComputed(blocks: seq<Row>, rows: seq<Row>, lo: nat, size: nat)
    requires lo + size <= |rows|
  {
    |blocks| == size && forall k :: 0 <= k < size ==> IsRow(blocks[k]) && SameBlocks(blocks[k], rows[lo + k])
  }

  /** The message carries what the next cell needs, for every solved line. */
  ghost predicate Carries(message: seq<real>, sys: seq<seq<Row>>, solved: seq<bool>, n: nat, at: nat)
    requires Systems(sys, solved, n) && 0 < at < n
  {
    && |message| == FORWARD * |sys|
    && forall l :: 0 <= l < |sys| && solved[l] ==>
      ForwardPart(message, l) == Packed(SweptC(sys[l], at - 1), SweptR(sys[l], at - 1))
  }

  /** The message carries what the cell before needs. */
  ghost predicate Returns(message: seq<real>, sys: seq<seq<Row>>, solved: seq<bool>, n: nat, at: nat)
    requires Systems(sys, solved, n) && at < n
  {
    && |message| == BACKWARD * |sys|
    && forall l :: 0 <= l < |sys| && solved[l] ==> BackwardPart(message, l) == Answer(sys[l], at)
  }

  /** The lines of a new cell over its work arrays. */
  method NewLines(n: nat, count: nat, a: array3<real>, b: array3<real>)
      returns (lines: seq<LineCell>, ghost repr: set<object>)
    requires n >= 1 && a != b && Shaped(a) && Shaped(b) && a.Length0 == b.Length0 == n + 1
    ensures |lines| == count && fresh(repr) && forall l :: 0 <= l < count ==>
      && NewLine(lines[l], n, a, b)
      && lines[l].Own() <= repr
    ensures forall l, l' :: 0 <= l < l' < count ==> lines[l].Own() !! lines[l'].Own()
  {
    hide LineCell.Clear;
    lines, repr := [], {};
    for l := 0 to count
      invariant |lines| == l && fresh(repr) && forall k :: 0 <= k < l ==>
        && NewLine(lines[k], n, a, b)
        && lines[k].Own() <= repr
      invariant forall k, l' :: 0 <= k < l' < l ==> lines[k].Own() !! lines[l'].Own()
    {
      var line := new LineCell(n, a, b);
      lines, repr := lines + [line], repr + line.Own();
    }
  }

  ghost predicate NewLine(line: LineCell, n: nat, a: array3<real>, b: array3<real>)
    reads line.lhsc
  {
    line.Valid() && line.size == n && line.lhsa == a && line.lhsb == b && line.Clear()
  }

  class GridCell {
    const size: nat
    const lhsa: array3<real>
    const lhsb: array3<real>
    const lines: seq<LineCell>
    /** The work arrays and the arrays of the lines. */
    ghost const Repr: set<object>

    /** A cell of `count` lines of `n` points, with `lhsc` zero as `lhsinit` leaves it. */
    constructor (n: nat, count: nat)
      requires n >= 1
      ensures Valid() && size == n && |lines| == count && fresh(Repr)
      ensures forall l :: 0 <= l < count ==> lines[l].Clear()
    {
      hide LineCell.Clear;
      var a, b := new real[n + 1, N, N], new real[n + 1, N, N];
      var newLines;
      ghost var repr;
      newLines, repr := NewLines(n, count, a, b);
      size, lhsa, lhsb, lines := n, a, b, newLines;
      var work: set<object> := {a, b};
      Repr := repr + work;
    }

    ghost predicate Valid() {
      && Shaped(lhsa) && Shaped(lhsb) && lhsa != lhsb && size >= 1 && lhsa.Length0 == lhsb.Length0 == size + 1
      && lhsa in Repr && lhsb in Repr
      && (forall l :: 0 <= l < |lines| ==> LineOk(lines[l]))
      && forall l, l' :: 0 <= l < l' < |lines| ==> lines[l].Own() !! lines[l'].Own()
    }

    ghost predicate LineOk(line: LineCell) {
      && line.Valid() && line.size == size && line.lhsa == lhsa && line.lhsb == lhsb
      && line.lhsc in Repr && line.rhs in Repr && line.backsubInfo in Repr
    }

    /** `lhsabinit`: zero blocks, and the identity on the diagonal. */
    method InitWork()
      requires Valid()
      modifies lhsa, lhsb
      ensures forall pos :: 1 <= pos <= size ==> BlockAt(lhsa, pos) == Zero() && BlockAt(lhsb, pos) == Identity()
    {
      hide BlockAt;
      for i := 1 to size + 1
        invariant forall pos :: 1 <= pos < i ==> BlockAt(lhsa, pos) == Zero() && BlockAt(lhsb, pos) == Identity()
      {
        FillBlock(lhsa, i, Zero());
        FillBlock(lhsb, i, Identity());
      }
    }

    /** What the lines that are not solved hold. */
    ghost function Unsolved(solved: seq<bool>): (kept: seq<seq<(Vec, Mat)>>)
      requires Valid() && |solved| == |lines|
      reads Repr
      ensures |kept| == |lines| && forall l :: 0 <= l < |lines| ==>
        && (solved[l] ==> kept[l] == [])
        && (!solved[l] ==> kept[l] == lines[l].Points())
    {
      seq(|lines|, l reads Repr requires Valid() && 0 <= l < |lines| == |solved| =>
        if solved[l] then [] else lines[l].Points())
    }

    lemma SameUnsolved(kept: seq<seq<(Vec, Mat)>>, solved: seq<bool>)
      requires Valid() && |solved| == |lines| == |kept|
      requires forall l :: 0 <= l < |lines| ==>
        && (solved[l] ==> kept[l] == [])
        && (!solved[l] ==> kept[l] == lines[l].Points())
      ensures Unsolved(solved) == kept
    {
    }

    /** The right-hand sides of the lines that are not solved are as they were. */
    twostate predicate LeavesUnsolved(solved: seq<bool>)
      requires Valid() && |solved| == |lines|
      reads Repr
    {
      forall l, pos :: 0 <= l < |lines| && !solved[l] && 1 <= pos <= size ==>
        VecAt(lines[l].rhs, pos) == old(VecAt(lines[l].rhs, pos))
    }

    twostate lemma UnsolvedLeft(solved: seq<bool>)
      requires Valid() && |solved| == |lines| && Unsolved(solved) == old(Unsolved(solved))
      ensures LeavesUnsolved(solved)
    {
      hide VecAt, BlockAt, LineCell.Points, Unsolved;
      forall l, pos | 0 <= l < |lines| && !solved[l] && 1 <= pos <= size
        ensures VecAt(lines[l].rhs, pos) == old(VecAt(lines[l].rhs, pos))
      {
        assert Unsolved(solved)[l] == lines[l].Points() && old(Unsolved(solved)[l]) == old(lines[l].Points());
        assert lines[l].Points()[pos - 1].0 == VecAt(lines[l].rhs, pos);
        assert old(lines[l].Points()[pos - 1].0) == old(VecAt(lines[l].rhs, pos));
      }
    }

    /** Ready for the forward sweep: right-hand sides in place and nothing left over in `lhsc` at the ends. */
    ghost predicate Waiting(sys: seq<seq<Row>>, solved: seq<bool>, n: nat, lo: nat)
      requires Valid() && Systems(sys, solved, n) && |sys| == |lines| && lo + size <= n
      reads Repr
    {
      forall l :: 0 <= l < |lines| && solved[l] ==>
        lines[l].RhsGiven(sys[l], lo) && lines[l].EndsClear(lo == 0, lo + size == n)
    }

    /** What the cell before handed on is in place. */
    ghost predicate HandedOn(sys: seq<seq<Row>>, solved: seq<bool>, n: nat, lo: nat)
      requires Valid() && Systems(sys, solved, n) && |sys| == |lines| && 0 < lo && lo + size <= n
      reads Repr
    {
      forall l :: 0 <= l < |lines| && solved[l] ==> lines[l].SweptAt(sys[l], lo, 0)
    }

    ghost predicate SweptLines(sys: seq<seq<Row>>, solved: seq<bool>, n: nat, lo: nat)
      requires Valid() && Systems(sys, solved, n) && |sys| == |lines| && lo + size <= n
      reads Repr
    {
      forall l :: 0 <= l < |lines| && solved[l] ==> lines[l].AllSwept(sys[l], lo)
    }

    ghost predicate AnsweredLines(sys: seq<seq<Row>>, solved: seq<bool>, n: nat, lo: nat)
      requires Valid() && Systems(sys, solved, n) && |sys| == |lines| && lo + size <= n
      reads Repr
    {
      forall l :: 0 <= l < |lines| && solved[l] ==> lines[l].AllAnswered(sys[l], lo)
    }

    /** The work arrays, and the blocks and right-hand sides of the lines that are solved. */
    ghost function Working(solved: seq<bool>): set<object>
      requires |solved| == |lines|
    {
      (set l | 0 <= l < |lines| && solved[l] :: lines[l].lhsc as object)
      + (set l | 0 <= l < |lines| && solved[l] :: lines[l].rhs as object)
      + {lhsa as object, lhsb}
    }

    lemma InWorking(solved: seq<bool>, l: nat)
      requires |solved| == |lines| && l < |lines| && solved[l]
      ensures lines[l].lhsc in Working(solved) && lines[l].rhs in Working(solved)
      ensures lhsa in Working(solved) && lhsb in Working(solved)
    {
    }

    /** `x_solve_cell`: one line after the other over the same work arrays. */
    method SolveLines(blocks: seq<seq<Row>>, solved: seq<bool>, ghost sys: seq<seq<Row>>, n: nat, lo: nat)
      requires Valid() && Computed(blocks, sys, solved, n, lo, size) && |sys| == |lines|
      requires Waiting(sys, solved, n, lo) && (lo > 0 ==> HandedOn(sys, solved, n, lo))
      modifies Working(solved)
      ensures SweptLines(sys, solved, n, lo)
    {
      hide Pivotal, Bounded, LineCell.AllSwept, LineReady, BlockAt, LineComputed, Working;
      AllReady(sys, solved, n, lo);
      WorkArrays(solved);
      InitWork();
      for l := 0 to |lines|
        invariant forall k :: 0 <= k < l && solved[k] ==> lines[k].AllSwept(sys[k], lo)
        invariant forall k :: l <= k < |lines| && solved[k] ==> LineReady(lines[k], sys[k], n, lo)
        invariant EndsOfWork(lo == 0, lo + size == n)
      {
        if solved[l] {
          InWorking(solved, l);
          SolveLine(l, blocks[l], sys[l], n, lo);
        }
      }
    }

    lemma WorkArrays(solved: seq<bool>)
      requires |solved| == |lines|
      ensures lhsa in Working(solved) && lhsb in Working(solved)
    {
    }

    lemma NotWorking(solved: seq<bool>, l: nat)
      requires Valid() && |solved| == |lines| && l < |lines| && !solved[l]
      ensures lines[l].lhsc !in Working(solved) && lines[l].rhs !in Working(solved)
    {
    }

    lemma WorkingInRepr(solved: seq<bool>)
      requires Valid() && |solved| == |lines|
      ensures Working(solved) <= Repr
    {
    }

    lemma AllReady(sys: seq<seq<Row>>, solved: seq<bool>, n: nat, lo: nat)
      requires Valid() && Systems(sys, solved, n) && |sys| == |lines| && lo + size <= n
      requires Waiting(sys, solved, n, lo) && (lo > 0 ==> HandedOn(sys, solved, n, lo))
      ensures forall l :: 0 <= l < |lines| && solved[l] ==> LineReady(lines[l], sys[l], n, lo)
    {
    }

    /** A line that waits for its sweep. */
    ghost predicate LineReady(line: LineCell, rows: seq<Row>, n: nat, lo: nat)
      requires lo + size <= n
      reads line.lhsc, line.rhs
    {
      && LineOk(line) && System(rows, n) && line.RhsGiven(rows, lo) && line.EndsClear(lo == 0, lo + size == n)
      && (lo > 0 ==> line.SweptAt(rows, lo, 0))
    }

    ghost predicate EndsOfWork(first: bool, last: bool)
      requires Valid()
      reads lhsa, lhsb
    {
      && (first ==> BlockAt(lhsa, 1) == Zero() && BlockAt(lhsb, 1) == Identity())
      && (last ==> BlockAt(lhsa, size) == Zero() && BlockAt(lhsb, size) == Identity())
    }

    /** One line: its left-hand side, then the sweep. The work arrays are left as they were at the ends. */
    method SolveLine(l: nat, blocks: seq<Row>, ghost rows: seq<Row>, n: nat, lo: nat)
      requires Valid() && l < |lines| && System(rows, n) && lo + size <= n && LineComputed(blocks, rows, lo, size)
      requires LineReady(lines[l], rows, n, lo) && EndsOfWork(lo == 0, lo + size == n)
      modifies lhsa, lhsb, lines[l].lhsc, lines[l].rhs
      ensures lines[l].AllSwept(rows, lo) && EndsOfWork(lo == 0, lo + size == n)
    {
      hide Pivotal, Bounded, LineCell.RhsGiven, LineCell.EndsClear, LineCell.AllSwept, LineCell.AllGiven, BlockAt;
      var line := lines[l];
      line.LoadLine(lo == 0, lo + size == n, blocks, rows, lo);
      line.SolveCell(lo == 0, lo + size == n, rows, lo);
    }
  
    // ---- Messages ----

    /** `x_send_solve_info`: all lines of the face, solved or not, one after the other. */
    method PackSolveInfo() returns (message: seq<real>)
      requires Valid()
      ensures |message| == FORWARD * |lines|
      ensures forall l :: 0 <= l < |lines| ==>
        ForwardPart(message, l) == Packed(BlockAt(lines[l].lhsc, size), VecAt(lines[l].rhs, size))
    {
      hide BlockAt, VecAt, Packed;
      var inBuffer := new real[FORWARD * |lines|];
      var ptr := 0;
      for l := 0 to |lines|
        invariant ptr == FORWARD * l
        invariant forall k :: 0 <= k < l ==>
          ForwardPart(inBuffer[..], k) == Packed(BlockAt(lines[k].lhsc, size), VecAt(lines[k].rhs, size))
      {
        ghost var was := inBuffer[..];
        lines[l].PackSolveInfo(inBuffer, ptr);
        forall k | 0 <= k < l
          ensures ForwardPart(inBuffer[..], k) == ForwardPart(was, k)
        {
        }
        ptr := ptr + FORWARD;
      }
      message := inBuffer[..];
    }

    /** `x_unpack_solve_info`. */
    method UnpackSolveInfo(message: seq<real>, solved: seq<bool>, ghost sys: seq<seq<Row>>, n: nat, lo: nat)
      requires Valid() && Systems(sys, solved, n) && |sys| == |lines| && 0 < lo && lo + size <= n
      requires Waiting(sys, solved, n, lo) && Carries(message, sys, solved, n, lo)
      modifies Repr
      ensures Waiting(sys, solved, n, lo) && HandedOn(sys, solved, n, lo)
      ensures Unsolved(solved) == old(Unsolved(solved))
    {
      hide Pivotal, Bounded, LineCell.RhsGiven, LineCell.EndsClear, LineCell.SweptAt, BlockAt, VecAt, Packed, SweptC,
        SweptR, LineCell.Points;
      ghost var kept := Unsolved(solved);
      var ptr := 0;
      for l := 0 to |lines|
        invariant ptr == FORWARD * l
        invariant forall k :: 0 <= k < |lines| && solved[k] ==>
          && lines[k].RhsGiven(sys[k], lo) && lines[k].EndsClear(lo == 0, lo + size == n)
          && (k < l ==> lines[k].SweptAt(sys[k], lo, 0))
        invariant forall k :: 0 <= k < |lines| && !solved[k] ==> kept[k] == lines[k].Points()
      {
        UnpackLine(l, message, ptr, solved[l], sys[l], n, lo);
        ptr := ptr + FORWARD;
      }
      SameUnsolved(kept, solved);
    }

    method UnpackLine(l: nat, message: seq<real>, ptr: nat, solved: bool, ghost rows: seq<Row>, n: nat, lo: nat)
      requires Valid() && l < |lines| && 0 < lo && lo + size <= n && ptr + FORWARD <= |message|
      requires solved ==> System(rows, n) && lines[l].RhsGiven(rows, lo) && lines[l].EndsClear(lo == 0, lo + size == n)
      requires solved ==> message[ptr..ptr + FORWARD] == Packed(SweptC(rows, lo - 1), SweptR(rows, lo - 1))
      modifies lines[l].lhsc, lines[l].rhs
      ensures solved ==>
        && lines[l].RhsGiven(rows, lo)
        && lines[l].EndsClear(lo == 0, lo + size == n)
        && lines[l].SweptAt(rows, lo, 0)
      ensures lines[l].Points() == old(lines[l].Points())
    {
      hide Pivotal, Bounded, BlockAt, VecAt, Packed, SweptC, SweptR, LineCell.Points;
      var line := lines[l];
      line.UnpackSolveInfo(message, ptr);
      line.PointsKept();
      if solved {
        PackedOnce(BlockAt(line.lhsc, 0), VecAt(line.rhs, 0), SweptC(rows, lo - 1), SweptR(rows, lo - 1));
        forall pos | 1 <= pos <= size
          ensures VecAt(line.rhs, pos) == rows[lo + pos - 1].r
        {
          assert VecAt(line.rhs, pos) == old(VecAt(line.rhs, pos));
        }
        assert BlockAt(line.lhsc, size) == old(BlockAt(line.lhsc, size));
        assert BlockAt(line.lhsc, 1) == old(BlockAt(line.lhsc, 1));
      }
    }
  
    // ---- The way back ----

    /** `x_backsubstitute`: all solved lines. */
    method BackSubstitute(solved: seq<bool>, ghost sys: seq<seq<Row>>, n: nat, lo: nat)
      requires Valid() && Systems(sys, solved, n) && |sys| == |lines| && lo + size <= n
      requires SweptLines(sys, solved, n, lo) && (lo + size < n ==> HandedBack(sys, solved, n, lo))
      modifies Repr
      ensures AnsweredLines(sys, solved, n, lo) && Unsolved(solved) == old(Unsolved(solved))
    {
      hide Pivotal, Bounded, LineCell.AllSwept, LineCell.AllAnswered, VecAt, BlockAt, Answer, LineCell.Points;
      ghost var kept := Unsolved(solved);
      for l := 0 to |lines|
        invariant forall k :: 0 <= k < l && solved[k] ==> lines[k].AllAnswered(sys[k], lo)
        invariant forall k :: l <= k < |lines| && solved[k] ==>
          && lines[k].AllSwept(sys[k], lo)
          && (lo + size < n ==> VecAt(lines[k].backsubInfo, 0) == Answer(sys[k], lo + size))
        invariant forall k :: 0 <= k < |lines| && !solved[k] ==> kept[k] == lines[k].Points()
      {
        if solved[l] { lines[l].BackSubstitute(lo + size == n, sys[l], lo); }
      }
      SameUnsolved(kept, solved);
    }

    /** What the cell after handed back is in place. */
    ghost predicate HandedBack(sys: seq<seq<Row>>, solved: seq<bool>, n: nat, lo: nat)
      requires Valid() && Systems(sys, solved, n) && |sys| == |lines| && lo + size < n
      reads set l | 0 <= l < |lines| :: lines[l].backsubInfo
    {
      forall l :: 0 <= l < |lines| && solved[l] ==> VecAt(lines[l].backsubInfo, 0) == Answer(sys[l], lo + size)
    }

    /** `x_send_backsub_info`. */
    method PackBacksubInfo() returns (message: seq<real>)
      requires Valid()
      ensures |message| == BACKWARD * |lines|
      ensures forall l :: 0 <= l < |lines| ==> BackwardPart(message, l) == VecAt(lines[l].rhs, 1)
    {
      hide VecAt;
      var inBuffer := new real[BACKWARD * |lines|];
      var ptr := 0;
      for l := 0 to |lines|
        invariant ptr == BACKWARD * l
        invariant forall k :: 0 <= k < l ==> BackwardPart(inBuffer[..], k) == VecAt(lines[k].rhs, 1)
      {
        ghost var was := inBuffer[..];
        lines[l].PackBacksubInfo(inBuffer, ptr);
        forall k | 0 <= k < l
          ensures BackwardPart(inBuffer[..], k) == BackwardPart(was, k)
        {
        }
        ptr := ptr + BACKWARD;
      }
      message := inBuffer[..];
    }

    /** `x_unpack_backsub_info`. */
    method UnpackBacksubInfo(message: seq<real>)
      requires Valid() && |message| == BACKWARD * |lines|
      modifies set l | 0 <= l < |lines| :: lines[l].backsubInfo
      ensures forall l :: 0 <= l < |lines| ==> VecAt(lines[l].backsubInfo, 0) == BackwardPart(message, l)
    {
      hide VecAt;
      var ptr := 0;
      for l := 0 to |lines|
        invariant ptr == BACKWARD * l
        invariant forall k :: 0 <= k < l ==> VecAt(lines[k].backsubInfo, 0) == BackwardPart(message, k)
      {
        lines[l].UnpackBacksubInfo(message, ptr);
        ptr := ptr + BACKWARD;
      }
    }

    // ---- One stage ----

    /** First loop of `x_solve`: unpack, sweep, send on. */
    method ForwardStage(received: seq<real>, blocks: seq<seq<Row>>, solved: seq<bool>, ghost sys: seq<seq<Row>>,
        n: nat, lo: nat)
        returns (sent: seq<real>)
      requires Valid() && Computed(blocks, sys, solved, n, lo, size) && |sys| == |lines| && Waiting(sys, solved, n, lo)
      requires lo > 0 ==> Carries(received, sys, solved, n, lo)
      modifies Repr
      ensures SweptLines(sys, solved, n, lo) && Unsolved(solved) == old(Unsolved(solved))
      ensures lo + size < n ==> Carries(sent, sys, solved, n, lo + size)
    {
      hide Pivotal, Bounded, BlockAt, VecAt, Packed, SweptC, SweptR, Waiting, HandedOn, Unsolved, Working,
        LineCell.Points;
      if lo > 0 { UnpackSolveInfo(received, solved, sys, n, lo); }
      WorkingInRepr(solved);
      ghost var kept := Unsolved(solved);
      SolveLines(blocks, solved, sys, n, lo);
      forall l | 0 <= l < |lines| && !solved[l]
        ensures kept[l] == lines[l].Points()
      {
        NotWorking(solved, l);
      }
      SameUnsolved(kept, solved);
      sent := [];
      if lo + size < n {
        sent := PackSolveInfo();
        forall l | 0 <= l < |lines| && solved[l]
          ensures ForwardPart(sent, l) == Packed(SweptC(sys[l], lo + size - 1), SweptR(sys[l], lo + size - 1))
        {
          assert lines[l].SweptAt(sys[l], lo, size);
        }
      }
    }

    /** Second loop of `x_solve`: unpack, substitute, send back. */
    method BackwardStage(received: seq<real>, solved: seq<bool>, ghost sys: seq<seq<Row>>, n: nat, lo: nat)
        returns (sent: seq<real>)
      requires Valid() && Systems(sys, solved, n) && |sys| == |lines| && lo + size <= n
      requires SweptLines(sys, solved, n, lo)
      requires lo + size < n ==> Returns(received, sys, solved, n, lo + size)
      modifies Repr
      ensures AnsweredLines(sys, solved, n, lo) && Returns(sent, sys, solved, n, lo)
      ensures Unsolved(solved) == old(Unsolved(solved))
    {
      hide Pivotal, Bounded, BlockAt, VecAt, SweptC, SweptR, Answer, LineCell.AllSwept, LineCell.SweptAt;
      ghost var kept := Unsolved(solved);
      if lo + size < n { UnpackBacksubInfo(received); }
      SameUnsolved(kept, solved);
      BackSubstitute(solved, sys, n, lo);
      sent := PackBacksubInfo();
      forall l | 0 <= l < |lines| && solved[l]
        ensures BackwardPart(sent, l) == Answer(sys[l], lo)
      {
        assert lines[l].AnswerAt(sys[l], lo, 1);
      }
    }
  }

  // ---- The row of cells ----

  /** Cell `s` begins at row `starts[s]`, and the cells together are the line. */
  ghost predicate Cut(sizes: seq<nat>, starts: seq<nat>, n: nat) {
    && |starts| == |sizes| + 1 > 1 && starts[0] == 0 && starts[|sizes|] == n
    && (forall s :: 0 <= s < |sizes| ==> sizes[s] >= 1 && starts[s] + sizes[s] == starts[s + 1])
  }

  lemma {:induction false} CutWithin(sizes: seq<nat>, starts: seq<nat>, n: nat, s: nat, t: nat)
    requires Cut(sizes, starts, n) && s <= t <= |sizes|
    ensures starts[s] <= starts[t] && (s < t ==> starts[s] + sizes[s] <= starts[t])
    decreases t
  {
    if s < t { CutWithin(sizes, starts, n, s, t - 1); }
  }

  /** In a cut, a cell lies within the line, and only the first begins it and only the last ends it. */
  lemma CutEnds(sizes: seq<nat>, starts: seq<nat>, n: nat, s: nat)
    requires Cut(sizes, starts, n) && s < |sizes|
    ensures starts[s] + sizes[s] <= n && starts[s] + sizes[s] == starts[s + 1]
    ensures (s == 0) == (starts[s] == 0) && (s == |sizes| - 1) == (starts[s] + sizes[s] == n)
  {
    CutWithin(sizes, starts, n, s, |sizes|);
    CutWithin(sizes, starts, n, 0, s);
    if s < |sizes| - 1 { CutWithin(sizes, starts, n, s + 1, |sizes|); }
  }

  lemma CutFacts(sizes: seq<nat>, starts: seq<nat>, n: nat)
    requires Cut(sizes, starts, n)
    ensures |starts| == |sizes| + 1 > 1
    ensures forall s :: 0 <= s < |sizes| ==> starts[s] + sizes[s] <= n && starts[s] + sizes[s] == starts[s + 1]
    ensures forall s :: 0 <= s < |sizes| ==> starts[s] < n && (s > 0 ==> starts[s] > 0)
  {
    forall s | 0 <= s < |sizes|
      ensures starts[s] + sizes[s] <= n && starts[s] + sizes[s] == starts[s + 1] && starts[s] < n
      ensures (s > 0 ==> starts[s] > 0)
    {
      CutEnds(sizes, starts, n, s);
    }
  }

  /** The cells of a row, one per stage, with as many lines each and storage of their own. */
  ghost predicate RowOfCells(cells: seq<GridCell>, sizes: seq<nat>, count: nat) {
    && |cells| == |sizes|
    && (forall s :: 0 <= s < |cells| ==> cells[s].Valid() && cells[s].size == sizes[s] && |cells[s].lines| == count)
    && forall s, t :: 0 <= s < t < |cells| ==> cells[s].Repr !! cells[t].Repr
  }

  ghost function AllStorage(cells: seq<GridCell>): set<object> {
    set s, a: object | 0 <= s < |cells| && a in cells[s].Repr :: a
  }

  lemma InStorage(cells: seq<GridCell>, s: nat)
    requires s < |cells|
    ensures cells[s].Repr <= AllStorage(cells)
  {
  }

  /** The first loop of `x_solve`. */
  method ForwardSweep(cells: seq<GridCell>, blocks: seq<seq<seq<Row>>>, solved: seq<bool>, ghost sys: seq<seq<Row>>,
      n: nat, ghost sizes: seq<nat>, starts: seq<nat>)
    requires Cut(sizes, starts, n) && RowOfCells(cells, sizes, |sys|) && Systems(sys, solved, n) && |blocks| == |cells|
    requires forall s :: 0 <= s < |cells| ==> starts[s] + cells[s].size <= n
    requires forall s :: 0 <= s < |cells| ==> Computed(blocks[s], sys, solved, n, starts[s], cells[s].size)
    requires forall s :: 0 <= s < |cells| ==> cells[s].Waiting(sys, solved, n, starts[s])
    modifies AllStorage(cells)
    ensures forall s :: 0 <= s < |cells| ==>
      && starts[s] + cells[s].size <= n
      && cells[s].SweptLines(sys, solved, n, starts[s])
      && cells[s].Unsolved(solved) == old(cells[s].Unsolved(solved))
  {
    hide GridCell.Waiting, GridCell.SweptLines, Carries, Cut, Systems, Computed, GridCell.Valid, AllStorage;
    hide GridCell.Unsolved;
    CutFacts(sizes, starts, n);
    CountLines(sys, solved, n);
    var message: seq<real> := [];
    for stage := 0 to |cells|
      invariant forall s :: 0 <= s < stage ==> cells[s].SweptLines(sys, solved, n, starts[s])
      invariant forall s :: stage <= s < |cells| ==> cells[s].Waiting(sys, solved, n, starts[s])
      invariant 0 < stage < |cells| ==> Carries(message, sys, solved, n, starts[stage])
      invariant forall s :: 0 <= s < |cells| ==> cells[s].Unsolved(solved) == old(cells[s].Unsolved(solved))
    {
      CutEnds(sizes, starts, n, stage);
      InStorage(cells, stage);
      message := cells[stage].ForwardStage(message, blocks[stage], solved, sys, n, starts[stage]);
    }
  }

  /** The second loop of `x_solve`. */
  method BackwardSweep(cells: seq<GridCell>, solved: seq<bool>, ghost sys: seq<seq<Row>>, n: nat,
      ghost sizes: seq<nat>, starts: seq<nat>)
    requires Cut(sizes, starts, n) && RowOfCells(cells, sizes, |sys|) && Systems(sys, solved, n)
    requires forall s :: 0 <= s < |cells| ==>
      && starts[s] + cells[s].size <= n
      && cells[s].SweptLines(sys, solved, n, starts[s])
    modifies AllStorage(cells)
    ensures forall s :: 0 <= s < |cells| ==>
      && starts[s] + cells[s].size <= n
      && cells[s].AnsweredLines(sys, solved, n, starts[s])
      && cells[s].Unsolved(solved) == old(cells[s].Unsolved(solved))
  {
    hide GridCell.AnsweredLines, GridCell.SweptLines, Returns, Cut, Systems, GridCell.Valid, AllStorage;
    hide GridCell.Unsolved;
    CutFacts(sizes, starts, n);
    CountLines(sys, solved, n);
    var message: seq<real> := [];
    for stage := |cells| downto 0
      invariant forall s :: 0 <= s < stage ==> cells[s].SweptLines(sys, solved, n, starts[s])
      invariant forall s :: stage <= s < |cells| ==> cells[s].AnsweredLines(sys, solved, n, starts[s])
      invariant 0 < stage < |cells| ==> Returns(message, sys, solved, n, starts[stage])
      invariant forall s :: 0 <= s < |cells| ==> cells[s].Unsolved(solved) == old(cells[s].Unsolved(solved))
    {
      CutEnds(sizes, starts, n, stage);
      InStorage(cells, stage);
      message := cells[stage].BackwardStage(message, solved, sys, n, starts[stage]);
    }
  }

  /**
   `x_solve`: however the lines are cut into cells, every point of every solved line ends with its part of
   the one solution of its block-tridiagonal system.
   */
  method XSolve(cells: seq<GridCell>, blocks: seq<seq<seq<Row>>>, solved: seq<bool>, ghost sys: seq<seq<Row>>, n: nat,
      ghost sizes: seq<nat>, starts: seq<nat>)
    requires Cut(sizes, starts, n) && RowOfCells(cells, sizes, |sys|) && Systems(sys, solved, n) && |blocks| == |cells|
    requires forall s :: 0 <= s < |cells| ==> starts[s] + cells[s].size <= n
    requires forall s :: 0 <= s < |cells| ==> Computed(blocks[s], sys, solved, n, starts[s], cells[s].size)
    requires forall s :: 0 <= s < |cells| ==> cells[s].Waiting(sys, solved, n, starts[s])
    modifies AllStorage(cells)
    ensures forall s :: 0 <= s < |cells| ==>
      && starts[s] + cells[s].size <= n
      && cells[s].AnsweredLines(sys, solved, n, starts[s])
    ensures forall s :: 0 <= s < |cells| ==> cells[s].LeavesUnsolved(solved)
  {
    hide GridCell.Waiting, GridCell.SweptLines, GridCell.AnsweredLines, Cut, Systems, Computed, GridCell.Unsolved;
    hide GridCell.LeavesUnsolved, GridCell.Valid;
    CountLines(sys, solved, n);
    ForwardSweep(cells, blocks, solved, sys, n, sizes, starts);
    BackwardSweep(cells, solved, sys, n, sizes, starts);
    forall s | 0 <= s < |cells|
      ensures cells[s].LeavesUnsolved(solved)
    {
      cells[s].UnsolvedLeft(solved);
    }
  }

  lemma CountLines(sys: seq<seq<Row>>, solved: seq<bool>, n: nat)
    requires Systems(sys, solved, n)
    ensures |solved| == |sys|
  {
  }
}
