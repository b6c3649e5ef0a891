/**
 `x_solve` on all ranks of the multipartition: which stage of which rank each message connects, and the whole
 run, with the ranks going on in any order as their messages allow. Stages count from 0.
 */
module SolveRanks {
  import opened Numbers
  import opened Messages
  import opened Blocks
  import opened LineSystem
  import opened LineSolve
  import opened CellSolve
  import opened Multipartition

  // ---- Who works on what ----

  /** The cell that a rank works on at a stage: `slice(1,stage)`. */
  function CellAt(node: int, p: int, s: int): int
    requires p > 0
  {
    CellIn(node, p, 1, s + 1)
  }

  lemma CellOfStage(node: int, p: int, s: int)
    requires p > 0 && 0 <= node < p * p && 0 <= s < p
    ensures 1 <= CellAt(node, p, s) <= p
    ensures var r := CoordOf(node, p, CellAt(node, p, s));
      r.x == s + 1 && 1 <= r.y <= p && 1 <= r.z <= p && r.z == CellAt(node, p, s)
  {
    hide CellIn, CoordOf;
    var c := CellAt(node, p, s);
    OneCellPerPlane(node, p, 1, s + 1, 1);
    OneCellPerPlane(node, p, 1, s + 1, c);
    CellHasOwner(node, p, c);
    Layer(node, p, c);
  }

  lemma Layer(node: int, p: int, c: int)
    requires p > 0
    ensures CoordOf(node, p, c).z == c
  {
  }

  /** The row of cells that this cell belongs to: `jp+kp*NCELLS`. */
  function RowAt(node: int, p: int, s: int): (row: nat)
    requires p > 0 && 0 <= node < p * p && 0 <= s < p
    ensures row < p * p
  {
    CellOfStage(node, p, s);
    var r := CoordOf(node, p, CellAt(node, p, s));
    RankPair(r.y - 1, r.z - 1, p);
    RankOf(r.y - 1, r.z - 1, p)
  }

  // ---- Messages ----

  /** `x_send_solve_info`. */
  function ForwardTo(node: int, p: int, s: int): Envelope
    requires p > 0 && 0 <= node < p * p && 0 <= s < p
  {
    Envelope(node, Successor(node, p, 1), 3000 + RowAt(node, p, s))
  }

  /** `x_receive_solve_info`. */
  function ForwardFrom(node: int, p: int, s: int): Envelope
    requires p > 0 && 0 <= node < p * p && 0 <= s < p
  {
    Envelope(Predecessor(node, p, 1), node, 3000 + RowAt(node, p, s))
  }

  /** `x_send_backsub_info`. */
  function BackTo(node: int, p: int, s: int): Envelope
    requires p > 0 && 0 <= node < p * p && 0 <= s < p
  {
    Envelope(node, Predecessor(node, p, 1), 2000 + RowAt(node, p, s))
  }

  /** `x_receive_backsub_info`. */
  function BackFrom(node: int, p: int, s: int): Envelope
    requires p > 0 && 0 <= node < p * p && 0 <= s < p
  {
    Envelope(Successor(node, p, 1), node, 2000 + RowAt(node, p, s))
  }

  /** The successor works on the next cell of the same row, one stage later. */
  lemma NextStage(node: int, p: int, s: int)
    requires p > 0 && 0 <= node < p * p && 0 <= s < p - 1
    ensures var next := Successor(node, p, 1);
      && 0 <= next < p * p && Predecessor(next, p, 1) == node && RowAt(next, p, s + 1) == RowAt(node, p, s)
      && CoordOf(next, p, CellAt(next, p, s + 1)) == Moved(CoordOf(node, p, CellAt(node, p, s)), 1, 1)
  {
    hide CellIn, CoordOf, Successor, Predecessor;
    var next, c := Successor(node, p, 1), CellAt(node, p, s);
    SuccessorParts(node, p, 1);
    PredecessorOfSuccessor(node, p, 1);
    CellOfStage(node, p, s);
    SuccessorHasNext(node, p, 1, c);
    OneCellPerPlane(next, p, 1, s + 2, c);
  }

  /**
   What a rank sends at a stage of the first loop is what its successor asks for at the next stage, for the
   next cell of the same row of cells.
   */
  lemma StageHandsOn(node: int, p: int, s: int)
    requires p > 0 && 0 <= node < p * p && 0 <= s < p - 1
    ensures var next := Successor(node, p, 1);
      && 0 <= next < p * p && ForwardFrom(next, p, s + 1) == ForwardTo(node, p, s)
      && CoordOf(next, p, CellAt(next, p, s + 1)) == Moved(CoordOf(node, p, CellAt(node, p, s)), 1, 1)
      && RowAt(next, p, s + 1) == RowAt(node, p, s)
  {
    hide Successor, Predecessor, RowAt, CellAt, CoordOf;
    NextStage(node, p, s);
  }

  /** And what it sends in the second loop is what its predecessor asks for, for the cell before. */
  lemma StageHandsBack(node: int, p: int, s: int)
    requires p > 0 && 0 <= node < p * p && 0 < s < p
    ensures var prev := Predecessor(node, p, 1);
      && 0 <= prev < p * p && BackFrom(prev, p, s - 1) == BackTo(node, p, s)
      && CoordOf(node, p, CellAt(node, p, s)) == Moved(CoordOf(prev, p, CellAt(prev, p, s - 1)), 1, 1)
      && RowAt(prev, p, s - 1) == RowAt(node, p, s)
  {
    hide Successor, Predecessor, RowAt, CellAt, CoordOf;
    SuccessorOfPredecessor(node, p, 1);
    NextStage(Predecessor(node, p, 1), p, s - 1);
  }

  /** A rank works on different rows of cells at different stages. */
  lemma RowsDiffer(node: int, p: int, s: int, t: int)
    requires p > 0 && 0 <= node < p * p && 0 <= s < p && 0 <= t < p && RowAt(node, p, s) == RowAt(node, p, t)
    ensures s == t
  {
    hide CoordOf, RankOf, Rem, Quot, Prod, CellAt;
    CellOfStage(node, p, s);
    CellOfStage(node, p, t);
    var a, b := CoordOf(node, p, CellAt(node, p, s)), CoordOf(node, p, CellAt(node, p, t));
    RankPair(a.y - 1, a.z - 1, p);
    RankPair(b.y - 1, b.z - 1, p);
  }

  /** With three or more cells a side the two neighbours of a rank are different ranks. */
  lemma NeighboursDiffer(node: int, p: int)
    requires p > 2 && 0 <= node < p * p
    ensures Successor(node, p, 1) != Predecessor(node, p, 1)
  {
    hide Successor, Predecessor, Rem, Quot;
    SuccessorParts(node, p, 1);
    PredecessorParts(node, p, 1);
    RankParts(node, p);
    var i := Rem(node, p);
    RemStep(i, p);
    RemStep(i - 1, p);
    RemOfSmall(i, p);
    Division(i - 1, p);
  }

  lemma ManyRows(p: int)
    requires p > 0 && p * p > 1000
    ensures p > 2
  {
  }

  /** No two messages of the two loops look alike, also where both neighbours of a rank are one rank. */
  lemma SolveEnvelopesDiffer(node: int, node': int, p: int, s: int, t: int)
    requires p > 0 && 0 <= node < p * p && 0 <= node' < p * p && 0 <= s < p && 0 <= t < p
    ensures ForwardTo(node, p, s) == ForwardTo(node', p, t) <==> node == node' && s == t
    ensures BackTo(node, p, s) == BackTo(node', p, t) <==> node == node' && s == t
    ensures ForwardTo(node, p, s) != BackTo(node', p, t)
  {
    hide Successor, Predecessor, RowAt;
    if node == node' {
      if RowAt(node, p, s) == RowAt(node, p, t) { RowsDiffer(node, p, s, t); }
      if 3000 + RowAt(node, p, s) == 2000 + RowAt(node, p, t) {
        ManyRows(p);
        NeighboursDiffer(node, p);
      }
    }
  }

  // ---- The whole run ----

  /** What all ranks solve: a cut into `p` cells, and for each of the `p * p` rows of cells its lines. */
  datatype Task = Task(p: nat, n: nat, sizes: seq<nat>, starts: seq<nat>, solved: seq<seq<bool>>,
    sys: seq<seq<seq<Row>>>)

  ghost predicate TaskOk(t: Task) {
    && t.p > 0 && Cut(t.sizes, t.starts, t.n) && |t.sizes| == t.p && |t.sys| == |t.solved| == t.p * t.p
    && (forall s :: 0 <= s < t.p ==> t.starts[s] + t.sizes[s] <= t.n)
    && (forall s :: 0 < s < t.p ==> 0 < t.starts[s] < t.n)
    && forall row :: 0 <= row < |t.sys| ==> Systems(t.sys[row], t.solved[row], t.n)
  }

  ghost predicate IsStage(t: Task, r: int, s: int) {
    TaskOk(t) && 0 <= r < t.p * t.p && 0 <= s < t.p
  }

  /** The cell for stage `s` of rank `r`: as long as the cut says, with the lines of its row. */
  ghost predicate CellOk(cell: GridCell, t: Task, r: int, s: int) {
    && IsStage(t, r, s) && cell.Valid() && cell.size == t.sizes[s] && |cell.lines| == |t.sys[RowAt(r, t.p, s)]|
    && t.starts[s] + cell.size <= t.n
  }

  /** `cells[r][s]` is the cell of rank `r` for stage `s`; all cells have storage of their own. */
  ghost predicate Team(cells: seq<seq<GridCell>>, t: Task) {
    && TaskOk(t) && |cells| == t.p * t.p && (forall r :: 0 <= r < |cells| ==> |cells[r]| == t.p)
    && (forall r, s :: 0 <= r < |cells| && 0 <= s < t.p ==> CellOk(cells[r][s], t, r, s))
    && forall r, s, r', s' :: 0 <= r < |cells| && 0 <= s < t.p && 0 <= r' < |cells| && 0 <= s' < t.p ==>
      (r == r' && s == s') || cells[r][s].Repr !! cells[r'][s'].Repr
  }

  /** What the formulas of the solver compute for each cell. */
  ghost predicate AllComputed(blocks: seq<seq<seq<seq<Row>>>>, t: Task) {
    && TaskOk(t) && |blocks| == t.p * t.p && (forall r :: 0 <= r < |blocks| ==> |blocks[r]| == t.p)
    && forall r, s :: 0 <= r < |blocks| && 0 <= s < t.p ==> StageComputed(blocks[r][s], t, r, s)
  }

  ghost predicate StageComputed(blocks: seq<seq<Row>>, t: Task, r: int, s: int)
    requires IsStage(t, r, s)
  {
    var row := RowAt(r, t.p, s);
    Computed(blocks, t.sys[row], t.solved[row], t.n, t.starts[s], t.sizes[s])
  }

  /**
   A rank that has done `d` stages of the two loops: `p` of the first, then `p` of the second with the stages
   in descending order.
   */
  function StageOf(d: nat, p: nat): (s: int)
    ensures d < 2 * p ==> 0 <= s < p
  {
    if d < p then d else 2 * p - 1 - d
  }

  /** What the cell for stage `s` holds when its rank has done `d` stages. */
  ghost predicate AtStage(cell: GridCell, t: Task, r: int, s: int, d: nat)
    requires CellOk(cell, t, r, s)
    reads cell.Repr
  {
    var row := RowAt(r, t.p, s);
    if d <= s then cell.Waiting(t.sys[row], t.solved[row], t.n, t.starts[s])
    else if d + s < 2 * t.p then cell.SweptLines(t.sys[row], t.solved[row], t.n, t.starts[s])
    else cell.AnsweredLines(t.sys[row], t.solved[row], t.n, t.starts[s])
  }

  /** The cell holds its part of the solution of every solved line. */
  ghost predicate Solved(cell: GridCell, t: Task, r: int, s: int)
    reads cell.Repr
  {
    && CellOk(cell, t, r, s)
    && cell.AnsweredLines(t.sys[RowAt(r, t.p, s)], t.solved[RowAt(r, t.p, s)], t.n, t.starts[s])
  }

  /** What its lines that are not solved hold. */
  ghost function Kept(cell: GridCell, t: Task, r: int, s: int): seq<seq<(Vec, Mat)>>
    requires CellOk(cell, t, r, s)
    reads cell.Repr
  {
    cell.Unsolved(t.solved[RowAt(r, t.p, s)])
  }

  /** The right-hand sides of those lines are as they were. */
  twostate predicate LeftAlone(cell: GridCell, t: Task, r: int, s: int)
    requires CellOk(cell, t, r, s)
    reads cell.Repr
  {
    cell.LeavesUnsolved(t.solved[RowAt(r, t.p, s)])
  }

  ghost predicate Progress(done: seq<nat>, t: Task) {
    TaskOk(t) && |done| == t.p * t.p && forall r :: 0 <= r < |done| ==> done[r] <= 2 * t.p
  }

  // ---- What is in the mail ----

  ghost predicate ForwardPosted(mail: Mail, t: Task, r: int, s: int, d: nat)
    requires IsStage(t, r, s) && s < t.p - 1
  {
    var row := RowAt(r, t.p, s);
    && (s < d ==> ForwardTo(r, t.p, s) in mail)
    && (ForwardTo(r, t.p, s) in mail ==>
      Carries(mail[ForwardTo(r, t.p, s)], t.sys[row], t.solved[row], t.n, t.starts[s + 1]))
  }

  ghost predicate BackPosted(mail: Mail, t: Task, r: int, s: int, d: nat)
    requires IsStage(t, r, s) && 0 < s
  {
    var row := RowAt(r, t.p, s);
    && (d + s >= 2 * t.p ==> BackTo(r, t.p, s) in mail)
    && (BackTo(r, t.p, s) in mail ==>
      Returns(mail[BackTo(r, t.p, s)], t.sys[row], t.solved[row], t.n, t.starts[s]))
  }

  /** Every message that is due has been sent, and every message sent carries what its receiver needs. */
  ghost predicate MailOk(mail: Mail, t: Task, done: seq<nat>)
    requires Progress(done, t)
  {
    && (forall r, s :: 0 <= r < |done| && 0 <= s < t.p - 1 ==> ForwardPosted(mail, t, r, s, done[r]))
    && (forall r, s :: 0 <= r < |done| && 0 < s < t.p ==> BackPosted(mail, t, r, s, done[r]))
  }

  lemma NothingPosted(t: Task, done: seq<nat>)
    requires Progress(done, t) && forall r :: 0 <= r < |done| ==> done[r] == 0
    ensures MailOk(map[], t, done)
  {
  }

  lemma PostForward(mail: Mail, t: Task, done: seq<nat>, r: int, message: seq<real>)
    requires Progress(done, t) && MailOk(mail, t, done) && 0 <= r < |done| && done[r] < t.p
    requires done[r] < t.p - 1 ==>
      var row := RowAt(r, t.p, done[r]);
      Carries(message, t.sys[row], t.solved[row], t.n, t.starts[done[r] + 1])
    ensures var s := done[r];
      MailOk(if s < t.p - 1 then mail[ForwardTo(r, t.p, s) := message] else mail, t, done[r := s + 1])
  {
    hide TaskOk, RowAt, ForwardTo, BackTo, Carries, Returns;
    var s := done[r];
    var mail' := if s < t.p - 1 then mail[ForwardTo(r, t.p, s) := message] else mail;
    var done' := done[r := s + 1];
    forall r', s' | 0 <= r' < |done| && 0 <= s' < t.p - 1
      ensures ForwardPosted(mail', t, r', s', done'[r'])
    {
      assert ForwardPosted(mail, t, r', s', done[r']);
      SolveEnvelopesDiffer(r, r', t.p, s, s');
    }
    forall r', s' | 0 <= r' < |done| && 0 < s' < t.p
      ensures BackPosted(mail', t, r', s', done'[r'])
    {
      assert BackPosted(mail, t, r', s', done[r']);
      SolveEnvelopesDiffer(r, r', t.p, s, s');
    }
  }

  lemma PostBack(mail: Mail, t: Task, done: seq<nat>, r: int, s: int, message: seq<real>)
    requires Progress(done, t) && MailOk(mail, t, done) && 0 <= r < |done| && t.p <= done[r] < 2 * t.p
    requires s == 2 * t.p - 1 - done[r]
    requires s > 0 ==>
      var row := RowAt(r, t.p, s);
      Returns(message, t.sys[row], t.solved[row], t.n, t.starts[s])
    ensures MailOk(if s > 0 then mail[BackTo(r, t.p, s) := message] else mail, t, done[r := done[r] + 1])
  {
    hide TaskOk, RowAt, ForwardTo, BackTo, Carries, Returns;
    var mail' := if s > 0 then mail[BackTo(r, t.p, s) := message] else mail;
    var done' := done[r := done[r] + 1];
    forall r', s' | 0 <= r' < |done| && 0 <= s' < t.p - 1
      ensures ForwardPosted(mail', t, r', s', done'[r'])
    {
      assert ForwardPosted(mail, t, r', s', done[r']);
      SolveEnvelopesDiffer(r', r, t.p, s', s);
    }
    forall r', s' | 0 <= r' < |done| && 0 < s' < t.p
      ensures BackPosted(mail', t, r', s', done'[r'])
    {
      assert BackPosted(mail, t, r', s', done[r']);
      SolveEnvelopesDiffer(r, r', t.p, s, s');
    }
  }

  /** What a rank finds under the envelope that it asks for is meant for the cell that it works on. */
  lemma ForwardArrives(mail: Mail, t: Task, done: seq<nat>, r: int, s: int)
    requires Progress(done, t) && MailOk(mail, t, done) && IsStage(t, r, s) && s > 0
    requires ForwardFrom(r, t.p, s) in mail
    ensures var row := RowAt(r, t.p, s);
      Carries(mail[ForwardFrom(r, t.p, s)], t.sys[row], t.solved[row], t.n, t.starts[s])
  {
    hide Successor, Predecessor, RowAt, CellAt, CoordOf, Carries;
    var from := Predecessor(r, t.p, 1);
    SuccessorOfPredecessor(r, t.p, 1);
    StageHandsOn(from, t.p, s - 1);
    assert ForwardPosted(mail, t, from, s - 1, done[from]);
  }

  lemma BackArrives(mail: Mail, t: Task, done: seq<nat>, r: int, s: int)
    requires Progress(done, t) && MailOk(mail, t, done) && IsStage(t, r, s) && s < t.p - 1
    requires BackFrom(r, t.p, s) in mail
    ensures var row := RowAt(r, t.p, s);
      Returns(mail[BackFrom(r, t.p, s)], t.sys[row], t.solved[row], t.n, t.starts[s + 1])
  {
    hide Successor, Predecessor, RowAt, CellAt, CoordOf, Returns;
    var from := Successor(r, t.p, 1);
    SuccessorParts(r, t.p, 1);
    PredecessorOfSuccessor(r, t.p, 1);
    StageHandsBack(from, t.p, s + 1);
    assert BackPosted(mail, t, from, s + 1, done[from]);
  }

  // ---- Who can go on ----

  /** The next stage of a rank needs no message, or its message is there. */
  predicate CanGo(mail: Mail, p: nat, r: int, d: nat)
    requires p > 0 && 0 <= r < p * p
  {
    && d < 2 * p
    && var s := StageOf(d, p);
      if d < p then s == 0 || ForwardFrom(r, p, s) in mail else s == p - 1 || BackFrom(r, p, s) in mail
  }

  lemma {:induction false} LeastDone(done: seq<nat>, n: nat) returns (r: nat)
    requires 0 < n <= |done|
    ensures r < n && forall q :: 0 <= q < n ==> done[r] <= done[q]
  {
    if n == 1 {
      r := 0;
    } else {
      r := LeastDone(done, n - 1);
      if done[n - 1] < done[r] { r := n - 1; }
    }
  }

  /** As long as not all are finished some rank can go on: the two loops never wait for each other in a circle. */
  lemma SomeoneCanGo(mail: Mail, t: Task, done: seq<nat>) returns (r: nat)
    requires Progress(done, t) && MailOk(mail, t, done) && exists q :: 0 <= q < |done| && done[q] < 2 * t.p
    ensures r < |done| && CanGo(mail, t.p, r, done[r])
  {
    hide Successor, Predecessor, RowAt, CellAt, CoordOf, Carries, Returns;
    r := LeastDone(done, |done|);
    var d, s := done[r], StageOf(done[r], t.p);
    if d < t.p {
      if s > 0 {
        var from := Predecessor(r, t.p, 1);
        SuccessorOfPredecessor(r, t.p, 1);
        StageHandsOn(from, t.p, s - 1);
        assert ForwardPosted(mail, t, from, s - 1, done[from]);
      }
    } else if s < t.p - 1 {
      var from := Successor(r, t.p, 1);
      SuccessorParts(r, t.p, 1);
      PredecessorOfSuccessor(r, t.p, 1);
      StageHandsBack(from, t.p, s + 1);
      assert BackPosted(mail, t, from, s + 1, done[from]);
    }
  }

  /** Stages that are still to be done. */
  function Left(done: seq<nat>, p: nat, n: nat): int
    requires n <= |done|
  {
    if n == 0 then 0 else Left(done, p, n - 1) + (2 * p - done[n - 1])
  }

  lemma {:induction false} LeftDrops(done: seq<nat>, p: nat, r: nat, n: nat)
    requires n <= |done| && r < |done| && forall q :: 0 <= q < |done| ==> done[q] <= 2 * p
    ensures Left(done[r := done[r] + 1], p, n) == Left(done, p, n) - if r < n then 1 else 0
    ensures Left(done, p, n) >= 0
  {
    if n > 0 { LeftDrops(done, p, r, n - 1); }
  }

  /** Between two stages of its own nothing about a cell changes. */
  lemma OtherStage(cell: GridCell, t: Task, r: int, s: int, d: nat)
    requires CellOk(cell, t, r, s) && AtStage(cell, t, r, s, d) && d < 2 * t.p && s != StageOf(d, t.p)
    ensures AtStage(cell, t, r, s, d + 1)
  {
    hide GridCell.Waiting, GridCell.SweptLines, GridCell.AnsweredLines, GridCell.Valid, RowAt;
  }

  ghost function StorageOfAll(cells: seq<seq<GridCell>>): set<object> {
    set r, s, a: object | 0 <= r < |cells| && 0 <= s < |cells[r]| && a in cells[r][s].Repr :: a
  }

  /** One stage of one rank. */
  method Stage(cell: GridCell, blocks: seq<seq<Row>>, t: Task, r: int, s: int, d: nat, mail: Mail, ghost done: seq<nat>)
      returns (mail': Mail)
    requires Progress(done, t) && MailOk(mail, t, done) && IsStage(t, r, s) && d == done[r] && CanGo(mail, t.p, r, d)
    requires s == StageOf(d, t.p) && CellOk(cell, t, r, s) && AtStage(cell, t, r, s, d)
    requires StageComputed(blocks, t, r, s)
    modifies cell.Repr
    ensures AtStage(cell, t, r, s, d + 1) && MailOk(mail', t, done[r := d + 1])
    ensures Kept(cell, t, r, s) == old(Kept(cell, t, r, s))
  {
    hide Successor, Predecessor, RowAt, CellAt, CoordOf, Carries, Returns, MailOk, Systems, Computed, ForwardFrom;
    hide ForwardTo, BackFrom, BackTo, GridCell.Waiting, GridCell.SweptLines, GridCell.AnsweredLines, GridCell.Valid;
    hide GridCell.Unsolved;
    var row := RowAt(r, t.p, s);
    var received: seq<real> := [];
    mail' := mail;
    CutEnds(t.sizes, t.starts, t.n, s);
    if d < t.p {
      if s > 0 {
        ForwardArrives(mail, t, done, r, s);
        received := mail[ForwardFrom(r, t.p, s)];
      }
      var sent := cell.ForwardStage(received, blocks, t.solved[row], t.sys[row], t.n, t.starts[s]);
      PostForward(mail, t, done, r, sent);
      if s < t.p - 1 { mail' := mail[ForwardTo(r, t.p, s) := sent]; }
    } else {
      if s < t.p - 1 {
        BackArrives(mail, t, done, r, s);
        received := mail[BackFrom(r, t.p, s)];
      }
      var sent := cell.BackwardStage(received, t.solved[row], t.sys[row], t.n, t.starts[s]);
      PostBack(mail, t, done, r, s, sent);
      if s > 0 { mail' := mail[BackTo(r, t.p, s) := sent]; }
    }
  }

  /** Every cell holds what it holds when its rank has done that many stages. */
  ghost predicate AllAt(cells: seq<seq<GridCell>>, t: Task, done: seq<nat>)
    requires Team(cells, t) && |done| == |cells|
    reads StorageOfAll(cells)
  {
    forall r, s :: 0 <= r < |cells| && 0 <= s < t.p ==> CellAtStage(cells, t, r, s, done[r])
  }

  ghost predicate CellAtStage(cells: seq<seq<GridCell>>, t: Task, r: int, s: int, d: nat)
    requires Team(cells, t) && 0 <= r < |cells| && 0 <= s < t.p
    reads cells[r][s].Repr
  {
    AtStage(cells[r][s], t, r, s, d)
  }

  ghost function KeptAt(cells: seq<seq<GridCell>>, t: Task, r: int, s: int): seq<seq<(Vec, Mat)>>
    requires Team(cells, t) && 0 <= r < |cells| && 0 <= s < t.p
    reads cells[r][s].Repr
  {
    Kept(cells[r][s], t, r, s)
  }

  twostate predicate AllKept(cells: seq<seq<GridCell>>, t: Task)
    requires Team(cells, t)
    reads StorageOfAll(cells)
  {
    forall r, s :: 0 <= r < |cells| && 0 <= s < t.p ==> KeptAt(cells, t, r, s) == old(KeptAt(cells, t, r, s))
  }

  lemma TeamFacts(cells: seq<seq<GridCell>>, t: Task, r: int, s: int)
    requires Team(cells, t) && 0 <= r < |cells| && 0 <= s < t.p
    ensures |cells[r]| == t.p && IsStage(t, r, s) && CellOk(cells[r][s], t, r, s)
    ensures cells[r][s].Repr <= StorageOfAll(cells)
    ensures forall r', s' :: 0 <= r' < |cells| && 0 <= s' < t.p && (r' != r || s' != s) ==>
      cells[r'][s'].Repr !! cells[r][s].Repr
  {
    hide TaskOk, CellOk;
    assert TaskOk(t);
  }

  /** The next stage of a rank, among all the others. */
  method GoOn(cells: seq<seq<GridCell>>, blocks: seq<seq<seq<seq<Row>>>>, t: Task, done: seq<nat>, mail: Mail, r: int)
      returns (mail': Mail)
    requires Team(cells, t) && AllComputed(blocks, t) && Progress(done, t) && |done| == |cells|
    requires MailOk(mail, t, done) && AllAt(cells, t, done) && 0 <= r < |done| && CanGo(mail, t.p, r, done[r])
    modifies StorageOfAll(cells)
    ensures AllAt(cells, t, done[r := done[r] + 1]) && MailOk(mail', t, done[r := done[r] + 1])
    ensures AllKept(cells, t)
  {
    hide TaskOk, Kept, AtStage, MailOk, StageComputed, StorageOfAll, ForwardFrom, BackFrom, StageOf, GridCell.Valid;
    hide CellOk, RowAt;
    var s, d := StageOf(done[r], t.p), done[r];
    TeamFacts(cells, t, r, s);
    assert CellAtStage(cells, t, r, s, d);
    assert StageComputed(blocks[r][s], t, r, s);
    label Before:
    mail' := Stage(cells[r][s], blocks[r][s], t, r, s, d, mail, done);
    var done' := done[r := d + 1];
    forall r', s' | 0 <= r' < |cells| && 0 <= s' < t.p
      ensures CellAtStage(cells, t, r', s', done'[r']) && KeptAt(cells, t, r', s') == old(KeptAt(cells, t, r', s'))
    {
      assert old@Before(CellAtStage(cells, t, r', s', done[r']));
      assert old@Before(KeptAt(cells, t, r', s')) == old(KeptAt(cells, t, r', s'));
      if r' == r && s' != s {
        TeamFacts(cells, t, r, s');
        OtherStage(cells[r][s'], t, r, s', d);
      }
    }
  }

  /** Rank after rank goes on, in any order. */
  method RunAll(cells: seq<seq<GridCell>>, blocks: seq<seq<seq<seq<Row>>>>, t: Task)
    requires Team(cells, t) && AllComputed(blocks, t) && AllAt(cells, t, seq(|cells|, _ => 0))
    modifies StorageOfAll(cells)
    ensures AllSolved(cells, t)
    ensures AllKept(cells, t)
  {
    hide TaskOk, AtStage, MailOk, AllAt, CanGo, Team, AllComputed, StorageOfAll, RowAt, AllSolved, Kept, CellOk;
    TeamSize(cells, t);
    var done: seq<nat> := seq(|cells|, _ => 0);
    var mail: Mail := map[];
    NothingPosted(t, done);
    while exists q :: 0 <= q < |done| && done[q] < 2 * t.p
      invariant Progress(done, t) && |done| == |cells| && MailOk(mail, t, done) && AllAt(cells, t, done)
      invariant AllKept(cells, t)
      decreases Left(done, t.p, |done|)
    {
      ghost var able := SomeoneCanGo(mail, t, done);
      var r: nat :| r < |done| && CanGo(mail, t.p, r, done[r]);
      StillGoing(mail, t.p, r, done[r]);
      LeftDrops(done, t.p, r, |done|);
      mail := GoOn(cells, blocks, t, done, mail, r);
      done := done[r := done[r] + 1];
    }
    AllAnswered(cells, t, done);
  }

  /**
   `x_solve` on all ranks. Whichever rank goes on next, as long as its message has arrived, no rank is left
   waiting, and in the end every cell of every rank holds its part of the solution of all its lines.
   */
  method SolveOnAllRanks(cells: seq<seq<GridCell>>, blocks: seq<seq<seq<seq<Row>>>>, t: Task)
    requires Team(cells, t) && AllComputed(blocks, t) && AllAt(cells, t, seq(|cells|, _ => 0))
    modifies StorageOfAll(cells)
    ensures AllSolved(cells, t)
    ensures forall r, s :: 0 <= r < |cells| && 0 <= s < t.p ==> LeftAlone(cells[r][s], t, r, s)
  {
    hide Team, AllComputed, AllAt, AllSolved, StorageOfAll, CellOk, GridCell.Unsolved, GridCell.LeavesUnsolved;
    TeamSize(cells, t);
    RunAll(cells, blocks, t);
    forall r, s | 0 <= r < |cells| && 0 <= s < t.p
      ensures |cells[r]| == t.p && CellOk(cells[r][s], t, r, s) && LeftAlone(cells[r][s], t, r, s)
    {
      TeamFacts(cells, t, r, s);
      LinesCounted(cells[r][s], t, r, s);
      assert KeptAt(cells, t, r, s) == old(KeptAt(cells, t, r, s));
      cells[r][s].UnsolvedLeft(t.solved[RowAt(r, t.p, s)]);
    }
  }

  lemma LinesCounted(cell: GridCell, t: Task, r: int, s: int)
    requires CellOk(cell, t, r, s)
    ensures cell.Valid() && |t.solved| == t.p * t.p && |t.solved[RowAt(r, t.p, s)]| == |cell.lines|
  {
    hide GridCell.Valid;
  }

  ghost predicate AllSolved(cells: seq<seq<GridCell>>, t: Task)
    reads StorageOfAll(cells)
  {
    Team(cells, t) && forall r, s :: 0 <= r < |cells| && 0 <= s < t.p ==> Solved(cells[r][s], t, r, s)
  }

  lemma TeamSize(cells: seq<seq<GridCell>>, t: Task)
    requires Team(cells, t)
    ensures TaskOk(t) && |cells| == t.p * t.p && t.p > 0
  {
  }

  lemma StillGoing(mail: Mail, p: nat, r: int, d: nat)
    requires p > 0 && 0 <= r < p * p && CanGo(mail, p, r, d)
    ensures d < 2 * p
  {
  }

  lemma AllAnswered(cells: seq<seq<GridCell>>, t: Task, done: seq<nat>)
    requires Team(cells, t) && |done| == |cells| && AllAt(cells, t, done)
    requires forall r :: 0 <= r < |done| ==> done[r] >= 2 * t.p
    ensures AllSolved(cells, t)
  {
    hide TaskOk, CellOk, AtStage, Solved;
    forall r, s | 0 <= r < |cells| && 0 <= s < t.p
      ensures Solved(cells[r][s], t, r, s)
    {
      TeamFacts(cells, t, r, s);
      assert CellAtStage(cells, t, r, s, done[r]);
      SolvedAt(cells[r][s], t, r, s, done[r]);
    }
  }

  lemma SolvedAt(cell: GridCell, t: Task, r: int, s: int, d: nat)
    requires CellOk(cell, t, r, s) && AtStage(cell, t, r, s, d) && d >= 2 * t.p
    ensures Solved(cell, t, r, s)
  {
  }
}
