/**
 `x_solve` on one line inside one cell: the forward sweep from what the cell before hands on, back
 substitution from what the cell after hands back, and the line's part of the two messages.
 */
module LineSolve {
  import opened Blocks
  import opened BlockRoutines
  import opened LineSystem

  /** The message of `x_send_solve_info` for one line: the block row by row, then the vector. */
  function Packed(c: Mat, r: Vec): (m: seq<real>)
    requires IsMat(c, N) && IsVec(r)
    ensures |m| == N * N + N
  {
    seq(N * N + N, i requires 0 <= i < N * N + N && IsMat(c, N) && IsVec(r) =>
      if i < N * N then c[i / N][i % N] else r[i - N * N])
  }

  /** Where everything is in the message. */
  lemma PackedAt(c: Mat, r: Vec, m: nat, n: nat)
    requires IsMat(c, 5) && IsVec(r) && m < 5 && n < 5
    ensures Packed(c, r)[5 * m + n] == c[m][n] && Packed(c, r)[25 + n] == r[n]
  {
    assert (5 * m + n) / 5 == m && (5 * m + n) % 5 == n;
  }

  lemma PackedIs(c: Mat, r: Vec, message: seq<real>)
    requires IsMat(c, N) && IsVec(r) && |message| == N * N + N
    requires forall i, j :: 0 <= i < N && 0 <= j < N ==> c[i][j] == message[N * i + j]
    requires forall i :: 0 <= i < N ==> r[i] == message[N * N + i]
    ensures Packed(c, r) == message
  {
    var m := Packed(c, r);
    forall k | 0 <= k < N * N + N
      ensures m[k] == message[k]
    {
      if k < N * N {
        assert c[k / N][k % N] == message[N * (k / N) + k % N];
      } else {
        assert r[k - N * N] == message[N * N + (k - N * N)];
      }
    }
  }

  /** Unpacking is unambiguous. */
  lemma PackedOnce(c: Mat, r: Vec, c': Mat, r': Vec)
    requires IsMat(c, N) && IsVec(r) && IsMat(c', N) && IsVec(r') && Packed(c, r) == Packed(c', r')
    ensures c == c' && r == r'
  {
    var m := Packed(c, r);
    forall i | 0 <= i < N
      ensures c[i] == c'[i]
    {
      forall j | 0 <= j < N
        ensures c[i][j] == c'[i][j]
      {
        assert m[N * i + j] == Packed(c', r')[N * i + j];
      }
    }
    forall i | 0 <= i < N
      ensures r[i] == r'[i]
    {
      assert m[N * N + i] == Packed(c', r')[N * N + i];
    }
  }

  /** `u - C v` with rows before `m` done and row `m` done for the columns before `n`. */
  ghost predicate PartImage(w: Vec, u: Vec, c: Mat, v: Vec, m: nat, n: nat)
    requires IsVec(w) && IsVec(u) && IsMat(c, N) && IsVec(v) && n <= N
  {
    forall k :: 0 <= k < N ==>
      w[k] == if k < m then u[k] - Dot(c[k], v, N) else if k == m then u[k] - Dot(c[k], v, n) else u[k]
  }

  lemma NothingTaken(u: Vec, c: Mat, v: Vec)
    requires IsVec(u) && IsMat(c, N) && IsVec(v)
    ensures PartImage(u, u, c, v, 0, 0)
  {
  }

  lemma TermTaken(w: Vec, u: Vec, c: Mat, v: Vec, m: nat, n: nat, x: real)
    requires IsVec(w) && IsVec(u) && IsMat(c, N) && IsVec(v) && m < N && n < N && PartImage(w, u, c, v, m, n)
    requires x == w[m] - c[m][n] * v[n]
    ensures PartImage(w[m := x], u, c, v, m, n + 1)
  {
  }

  lemma RowTaken(w: Vec, u: Vec, c: Mat, v: Vec, m: nat)
    requires IsVec(w) && IsVec(u) && IsMat(c, N) && IsVec(v) && m < N && PartImage(w, u, c, v, m, N)
    ensures PartImage(w, u, c, v, m + 1, 0)
  {
    assert forall k :: 0 <= k < N ==> Dot(c[k], v, 0) == 0.0;
  }

  lemma AllTaken(w: Vec, u: Vec, c: Mat, v: Vec)
    requires IsVec(w) && IsVec(u) && IsMat(c, N) && IsVec(v) && PartImage(w, u, c, v, N, 0)
    ensures w == MinusImage(u, c, v)
  {
    assert forall k :: 0 <= k < N ==> w[k] == MinusImage(u, c, v)[k];
  }

  /** Equal augmented rows have equal blocks on the left. */
  lemma SameLeft(b: Mat, c: Mat, r: Vec, b': Mat, c': Mat, r': Vec, cw: nat)
    requires IsMat(b, N) && IsMat(c, cw) && IsVec(r) && IsMat(b', N) && IsMat(c', cw) && IsVec(r')
    requires Augmented(b, c, r, cw) == Augmented(b', c', r', cw)
    ensures b == b'
  {
    forall i | 0 <= i < N
      ensures b[i] == b'[i]
    {
      AugmentedRow(b, c, r, cw, i);
      AugmentedRow(b', c', r', cw, i);
      assert forall j :: 0 <= j < N ==> b[i][j] == b'[i][j];
    }
  }

  /** One assignment to an entry, as an update of the vector's value. */
  lemma SetElement(r: array2<real>, k: nat, i: nat, w: Vec)
    requires ShapedVec(r) && k < r.Length0 && i < N && IsVec(w)
    requires forall i' :: 0 <= i' < N && i' != i ==> r[k, i'] == w[i']
    ensures VecAt(r, k) == w[i := r[k, i]]
  {
    assert forall i' :: 0 <= i' < N ==> VecAt(r, k)[i'] == w[i := r[k, i]][i'];
  }

  /**
   The part of a line inside one cell. Index 0 of the arrays is the Fortran index -1, the place for
   what the cell before hands on; the cell's own points are 1 to `size`.
   */
  lemma ZeroBlock(a: array3<real>, k: nat)
    requires Shaped(a) && k < a.Length0 && forall i, j :: 0 <= i < N && 0 <= j < N ==> a[k, i, j] == 0.0
    ensures BlockAt(a, k) == Zero()
  {
    assert forall i :: 0 <= i < N ==> RowAt(a, k, i) == Zero()[i];
  }

  class LineCell {
    const size: nat
    const lhsa: array3<real>
    const lhsb: array3<real>
    const lhsc: array3<real>
    const rhs: array2<real>
    const backsubInfo: array2<real>

    /** A line of `n` points over the work arrays of its cell. */
    constructor (n: nat, a: array3<real>, b: array3<real>)
      requires n >= 1 && a != b && Shaped(a) && Shaped(b) && a.Length0 == b.Length0 == n + 1
      ensures Valid() && size == n && lhsa == a && lhsb == b && fresh(lhsc) && fresh(rhs) && fresh(backsubInfo)
      ensures Clear()
    {
      size, lhsa, lhsb := n, a, b;
      lhsc := new real[n + 1, N, N]((_, _, _) => 0.0);
      rhs := new real[n + 1, N];
      backsubInfo := new real[1, N];
      new;
      hide BlockAt;
      forall pos | 1 <= pos <= n
        ensures BlockAt(lhsc, pos) == Zero()
      {
        ZeroBlock(lhsc, pos);
      }
    }

    /** `lhsc` is zero at all points, as `lhsinit` leaves it. */
    ghost predicate Clear()
      requires Valid()
      reads lhsc
    {
      forall pos :: 1 <= pos <= size ==> BlockAt(lhsc, pos) == Zero()
    }

    ghost predicate Valid() {
      && Shaped(lhsa) && Shaped(lhsb) && Shaped(lhsc) && ShapedVec(rhs) && ShapedVec(backsubInfo)
      && size >= 1 && lhsa.Length0 == lhsb.Length0 == lhsc.Length0 == rhs.Length0 == size + 1
      && backsubInfo.Length0 == 1
      && lhsa != lhsb && lhsa != lhsc && lhsb != lhsc && rhs != backsubInfo
    }

    /** The arrays that belong to this line alone; `lhsa` and `lhsb` are shared by the lines of a cell. */
    ghost function Own(): set<object> {
      {lhsc, rhs, backsubInfo}
    }

    /** Point `pos` holds row `lo + pos - 1` of the original system. */
    ghost predicate Given(rows: seq<Row>, lo: nat, pos: nat)
      requires Valid() && IsLine(rows) && 1 <= pos <= size && lo + size <= |rows|
      reads lhsa, lhsb, lhsc, rhs
    {
      var row := rows[lo + pos - 1];
      && BlockAt(lhsa, pos) == row.a && BlockAt(lhsb, pos) == row.b && BlockAt(lhsc, pos) == row.c
      && VecAt(rhs, pos) == row.r
    }

    /** Point `pos` holds that row after the forward sweep. */
    ghost predicate SweptAt(rows: seq<Row>, lo: nat, pos: nat)
      requires Valid() && IsLine(rows) && pos <= size && 1 <= lo + pos <= |rows|
      reads lhsc, rhs
    {
      && VecAt(rhs, pos) == SweptR(rows, lo + pos - 1)
      && (lo + pos < |rows| ==> BlockAt(lhsc, pos) == SweptC(rows, lo + pos - 1))
    }

    /** All points but `pos` kept their block row. */
    twostate predicate OthersKept(pos: nat)
      requires Valid()
      reads lhsa, lhsb, lhsc, rhs
    {
      forall p :: 0 <= p <= size && p != pos ==>
        && BlockAt(lhsa, p) == old(BlockAt(lhsa, p)) && BlockAt(lhsb, p) == old(BlockAt(lhsb, p))
        && BlockAt(lhsc, p) == old(BlockAt(lhsc, p)) && VecAt(rhs, p) == old(VecAt(rhs, p))
    }

    twostate lemma KeptByOnly(pos: nat)
      requires Valid() && unchanged(lhsa) && OnlyBlock(lhsb, pos) && OnlyBlock(lhsc, pos) && OnlyVec(rhs, pos)
      ensures OthersKept(pos)
    {
    }

    /** First row of a line: `binvcrhs` alone. */
    method EliminateFirst(ghost rows: seq<Row>)
      requires Valid() && IsLine(rows) && size <= |rows| && Given(rows, 0, 1) && Pivotal(rows)
      modifies lhsb, lhsc, rhs
      ensures SweptAt(rows, 0, 1) && OthersKept(1)
      ensures rows[0].b == Identity() ==> BlockAt(lhsb, 1) == Identity()
    {
      hide Augmented, Steps, CPart, RPart, Pivots, MinusProduct, MinusImage;
      assert Pivots(Pending(rows, 0), Width(rows, 0));
      assert RowsAt(lhsb, lhsc, rhs, 1) == Pending(rows, 0);
      Binvcrhs(lhsb, lhsc, rhs, 1);
      assert RowsAt(lhsb, lhsc, rhs, 1) == Swept(rows, 0);
      AugmentedParts(BlockAt(lhsb, 1), BlockAt(lhsc, 1), VecAt(rhs, 1), N);
      if rows[0].b == Identity() {
        BoundaryRowStays(rows, 0);
        SameLeft(BlockAt(lhsb, 1), BlockAt(lhsc, 1), VecAt(rhs, 1), Identity(), rows[0].c, rows[0].r, N);
      }
    }

    /** The three calls for one point: take out the row before, then `binvcrhs`. */
    method EliminateRow(pos: nat, ghost rows: seq<Row>, ghost lo: nat)
      requires Valid() && IsLine(rows) && 1 <= pos <= size && lo + size <= |rows| && 0 < lo + pos - 1 < |rows| - 1
      requires Given(rows, lo, pos) && SweptAt(rows, lo, pos - 1) && Pivotal(rows)
      modifies lhsb, lhsc, rhs
      ensures SweptAt(rows, lo, pos) && OthersKept(pos)
    {
      hide BlockAt, VecAt, OnlyBlock, OnlyVec, OthersKept, SweptAt, Given, Pivotal;
      EliminateRowBlocks(pos, rows, lo);
      KeptByOnly(pos);
    }

    method EliminateRowBlocks(pos: nat, ghost rows: seq<Row>, ghost lo: nat)
      requires Valid() && IsLine(rows) && 1 <= pos <= size && lo + size <= |rows| && 0 < lo + pos - 1 < |rows| - 1
      requires Given(rows, lo, pos) && SweptAt(rows, lo, pos - 1) && Pivotal(rows)
      modifies lhsb, lhsc, rhs
      ensures SweptAt(rows, lo, pos)
      ensures OnlyBlock(lhsb, pos) && OnlyBlock(lhsc, pos) && OnlyVec(rhs, pos)
    {
      hide BlockAt, VecAt, MinusProduct, MinusImage, Augmented, Steps, CPart, RPart, Pivots;
      ghost var i := lo + pos - 1;
      assert Pivots(Pending(rows, i), Width(rows, i));
      MatvecSub(lhsa, pos, rhs, pos - 1, pos);
      MatmulSub(lhsa, pos, lhsc, pos - 1, lhsb, pos);
      assert RowsAt(lhsb, lhsc, rhs, pos) == Pending(rows, i);
      Binvcrhs(lhsb, lhsc, rhs, pos);
      assert RowsAt(lhsb, lhsc, rhs, pos) == Swept(rows, i);
      AugmentedParts(BlockAt(lhsb, pos), BlockAt(lhsc, pos), VecAt(rhs, pos), N);
    }

    /** Last row of a line: `binvrhs` in place of `binvcrhs`. */
    method EliminateLast(ghost rows: seq<Row>, ghost lo: nat)
      requires Valid() && IsLine(rows) && lo + size == |rows|
      requires Given(rows, lo, size) && SweptAt(rows, lo, size - 1) && Pivotal(rows)
      modifies lhsb, rhs
      ensures SweptAt(rows, lo, size) && OthersKept(size) && BlockAt(lhsc, size) == old(BlockAt(lhsc, size))
      ensures rows[lo + size - 1].a == Zero() && rows[lo + size - 1].b == Identity() ==>
        BlockAt(lhsb, size) == Identity()
    {
      hide BlockAt, VecAt, OnlyBlock, OnlyVec, OthersKept, SweptAt, Given, Pivotal;
      EliminateLastBlocks(rows, lo);
      KeptByOnly(size);
    }

    method EliminateLastBlocks(ghost rows: seq<Row>, ghost lo: nat)
      requires Valid() && IsLine(rows) && lo + size == |rows|
      requires Given(rows, lo, size) && SweptAt(rows, lo, size - 1) && Pivotal(rows)
      modifies lhsb, rhs
      ensures SweptAt(rows, lo, size)
      ensures OnlyBlock(lhsb, size) && OnlyBlock(lhsc, size) && OnlyVec(rhs, size)
      ensures rows[lo + size - 1].a == Zero() && rows[lo + size - 1].b == Identity() ==>
        BlockAt(lhsb, size) == Identity()
    {
      hide BlockAt, VecAt, MinusProduct, MinusImage, Augmented, Steps, CPart, RPart, Pivots;
      ghost var i := lo + size - 1;
      assert Pivots(Pending(rows, i), Width(rows, i));
      MatvecSub(lhsa, size, rhs, size - 1, size);
      MatmulSub(lhsa, size, lhsc, size - 1, lhsb, size);
      assert LastRowsAt(lhsb, rhs, size) == Pending(rows, i);
      Binvrhs(lhsb, rhs, size);
      assert LastRowsAt(lhsb, rhs, size) == Swept(rows, i);
      AugmentedParts(BlockAt(lhsb, size), NoColumns(), VecAt(rhs, size), 0);
      if rows[i].a == Zero() && rows[i].b == Identity() {
        BoundaryRowStays(rows, i);
        SameLeft(BlockAt(lhsb, size), NoColumns(), VecAt(rhs, size), Identity(), NoColumns(), rows[i].r, 0);
      }
    }

    /** The work arrays hold what `lhsabinit` puts at the ends of the line. */
    ghost predicate EndsReady(first: bool, last: bool)
      requires Valid()
      reads lhsa, lhsb
    {
      && (first ==> BlockAt(lhsa, 1) == Zero() && BlockAt(lhsb, 1) == Identity())
      && (last ==> BlockAt(lhsa, size) == Zero() && BlockAt(lhsb, size) == Identity())
    }

    ghost predicate EndsClear(first: bool, last: bool)
      requires Valid()
      reads lhsc
    {
      (first ==> BlockAt(lhsc, 1) == Zero()) && (last ==> BlockAt(lhsc, size) == Zero())
    }

    /** One block of the three arrays gets its values. */
    method LoadPoint(pos: nat, row: Row)
      requires Valid() && IsRow(row) && 1 <= pos <= size
      modifies lhsa, lhsb, lhsc
      ensures BlockAt(lhsa, pos) == row.a && BlockAt(lhsb, pos) == row.b && BlockAt(lhsc, pos) == row.c
      ensures forall p :: 0 <= p <= size && p != pos ==>
        && BlockAt(lhsa, p) == old(BlockAt(lhsa, p)) && BlockAt(lhsb, p) == old(BlockAt(lhsb, p))
        && BlockAt(lhsc, p) == old(BlockAt(lhsc, p))
    {
      FillBlock(lhsa, pos, row.a);
      FillBlock(lhsb, pos, row.b);
      FillBlock(lhsc, pos, row.c);
    }

    /** The left-hand side of a line is computed for all points but the ends of the whole line. */
    method LoadLine(first: bool, last: bool, blocks: seq<Row>, ghost rows: seq<Row>, ghost lo: nat)
      requires Valid() && IsLine(rows) && lo + size <= |rows| && Bounded(rows) && RhsGiven(rows, lo)
      requires first == (lo == 0) && last == (lo + size == |rows|) && EndsReady(first, last) && EndsClear(first, last)
      requires |blocks| == size && forall k :: 0 <= k < size ==> IsRow(blocks[k]) && SameBlocks(blocks[k], rows[lo + k])
      modifies lhsa, lhsb, lhsc
      ensures AllGiven(rows, lo) && BlockAt(lhsc, 0) == old(BlockAt(lhsc, 0))
    {
      hide BlockAt, VecAt;
      var start, stop := if first then 2 else 1, if last then size else size + 1;
      for pos := start to stop
        invariant forall p :: 1 <= p <= size && (p < pos || stop <= p) ==> BlocksGiven(rows, lo, p)
        invariant last ==> BlocksGiven(rows, lo, size)
        invariant BlockAt(lhsc, 0) == old(BlockAt(lhsc, 0))
      {
        label Before:
        LoadPoint(pos, blocks[pos - 1]);
        forall p | 1 <= p <= size && p != pos && old@Before(BlocksGiven(rows, lo, p))
          ensures BlocksGiven(rows, lo, p)
        {
          assert BlockAt(lhsa, p) == old@Before(BlockAt(lhsa, p)) && BlockAt(lhsb, p) == old@Before(BlockAt(lhsb, p));
          assert BlockAt(lhsc, p) == old@Before(BlockAt(lhsc, p));
        }
      }
      forall pos | 1 <= pos <= size
        ensures Given(rows, lo, pos)
      {
        assert BlocksGiven(rows, lo, pos);
      }
    }

    /** Point `pos` holds the blocks of its row. */
    ghost predicate BlocksGiven(rows: seq<Row>, lo: nat, pos: nat)
      requires Valid() && IsLine(rows) && 1 <= pos <= size && lo + size <= |rows|
      reads lhsa, lhsb, lhsc
    {
      var row := rows[lo + pos - 1];
      BlockAt(lhsa, pos) == row.a && BlockAt(lhsb, pos) == row.b && BlockAt(lhsc, pos) == row.c
    }

    /** The loop over the points that have a row before and a row after them. */
    method SweepPoints(start: nat, stop: nat, ghost rows: seq<Row>, ghost lo: nat)
      requires Valid() && IsLine(rows) && lo + size <= |rows| && Pivotal(rows)
      requires 1 <= start <= stop <= size + 1 && 1 < lo + start && lo + stop <= |rows|
      requires SweptAt(rows, lo, start - 1)
      requires forall p :: 1 <= p < start ==> SweptAt(rows, lo, p)
      requires forall p :: start <= p <= size ==> Given(rows, lo, p)
      modifies lhsb, lhsc, rhs
      ensures SweptAt(rows, lo, stop - 1)
      ensures forall p :: 1 <= p < stop ==> SweptAt(rows, lo, p)
      ensures forall p :: stop <= p <= size ==> Given(rows, lo, p)
      ensures forall p :: 1 <= p < start ==> BlockAt(lhsb, p) == old(BlockAt(lhsb, p))
    {
      hide BlockAt, VecAt, SweptC, SweptR, Pivotal;
      for pos := start to stop
        invariant SweptAt(rows, lo, pos - 1)
        invariant forall p :: 1 <= p < pos ==> SweptAt(rows, lo, p)
        invariant forall p :: pos <= p <= size ==> Given(rows, lo, p)
        invariant forall p :: 1 <= p < start ==> BlockAt(lhsb, p) == old(BlockAt(lhsb, p))
      {
        label Before:
        EliminateRow(pos, rows, lo);
        forall p | 1 <= p < pos
          ensures SweptAt(rows, lo, p) && BlockAt(lhsb, p) == old@Before(BlockAt(lhsb, p))
        {
          assert old@Before(SweptAt(rows, lo, p));
          assert VecAt(rhs, p) == old@Before(VecAt(rhs, p));
          assert BlockAt(lhsc, p) == old@Before(BlockAt(lhsc, p));
        }
        forall p | pos < p <= size
          ensures Given(rows, lo, p)
        {
          assert old@Before(Given(rows, lo, p));
          assert VecAt(rhs, p) == old@Before(VecAt(rhs, p));
        }
      }
    }

    /** `x_solve_cell`: the forward sweep over this cell, from what the cell before handed on. */
    method SolveCell(first: bool, last: bool, ghost rows: seq<Row>, ghost lo: nat)
      requires Valid() && IsLine(rows) && lo + size <= |rows| && Pivotal(rows)
      requires first == (lo == 0) && last == (lo + size == |rows|)
      requires (!first ==> SweptAt(rows, lo, 0)) && AllGiven(rows, lo)
      modifies lhsb, lhsc, rhs
      ensures AllSwept(rows, lo) && (Bounded(rows) ==> EndsReady(first, last))
    {
      hide BlockAt, VecAt, SweptC, SweptR, Pivotal, OnlyBlock, OnlyVec;
      if first {
        EliminateFirst(rows);
        forall p | 1 < p <= size
          ensures Given(rows, lo, p)
        {
          assert old(Given(rows, lo, p));
          assert VecAt(rhs, p) == old(VecAt(rhs, p));
        }
      }
      var start, stop := if first then 2 else 1, if last then size else size + 1;
      SweepPoints(start, stop, rows, lo);
      if last {
        assert SweptAt(rows, lo, size - 1) && Given(rows, lo, size);
        label Late:
        EliminateLast(rows, lo);
        forall p | 1 <= p < size
          ensures SweptAt(rows, lo, p) && BlockAt(lhsb, p) == old@Late(BlockAt(lhsb, p))
        {
          assert old@Late(SweptAt(rows, lo, p));
          assert VecAt(rhs, p) == old@Late(VecAt(rhs, p));
          assert BlockAt(lhsc, p) == old@Late(BlockAt(lhsc, p));
        }
      }
    }

    /**
     `rhs(pos) = rhs(pos) - C'(pos) * v`, accumulated term by term, where `v` is the value handed back by
     the next cell or the next point's own.
     */
    method SubtractImage(pos: nat, from: array2<real>, k: nat)
      requires Valid() && 1 <= pos <= size && ShapedVec(from) && k < from.Length0 && (from != rhs || k != pos)
      modifies rhs
      ensures VecAt(rhs, pos) == MinusImage(old(VecAt(rhs, pos)), BlockAt(lhsc, pos), old(VecAt(from, k)))
      ensures forall p :: 0 <= p <= size && p != pos ==> VecAt(rhs, p) == old(VecAt(rhs, p))
    {
      hide Dot, PartImage, MinusImage;
      ghost var c, u, v := BlockAt(lhsc, pos), VecAt(rhs, pos), VecAt(from, k);
      NothingTaken(u, c, v);
      for m := 0 to N
        invariant PartImage(VecAt(rhs, pos), u, c, v, m, 0) && VecAt(from, k) == v && OnlyVec(rhs, pos)
      {
        for n := 0 to N
          invariant PartImage(VecAt(rhs, pos), u, c, v, m, n) && VecAt(from, k) == v && OnlyVec(rhs, pos)
        {
          ghost var w := VecAt(rhs, pos);
          rhs[pos, m] := rhs[pos, m] - lhsc[pos, m, n] * from[k, n];
          TermTaken(w, u, c, v, m, n, rhs[pos, m]);
          SetElement(rhs, pos, m, w);
        }
        RowTaken(VecAt(rhs, pos), u, c, v, m);
      }
      AllTaken(VecAt(rhs, pos), u, c, v);
    }
  
    /** The right-hand sides and blocks C at the points of the line. */
    ghost function Points(): (ps: seq<(Vec, Mat)>)
      requires Valid()
      reads lhsc, rhs
      ensures |ps| == size
      ensures forall pos :: 1 <= pos <= size ==> ps[pos - 1] == (VecAt(rhs, pos), BlockAt(lhsc, pos))
    {
      seq(size, k reads lhsc, rhs requires Valid() && 0 <= k < size => (VecAt(rhs, k + 1), BlockAt(lhsc, k + 1)))
    }

    /** What arrives before the first point changes none of them. */
    twostate lemma PointsKept()
      requires Valid() && OthersKept(0)
      ensures Points() == old(Points())
    {
      hide BlockAt, VecAt;
      forall k | 0 <= k < size
        ensures Points()[k] == old(Points()[k])
      {
        assert Points()[k] == (VecAt(rhs, k + 1), BlockAt(lhsc, k + 1));
        assert old(Points()[k]) == (old(VecAt(rhs, k + 1)), old(BlockAt(lhsc, k + 1)));
      }
    }

    /** Point `pos` holds its part of the solution. */
    ghost predicate AnswerAt(rows: seq<Row>, lo: nat, pos: nat)
      requires Valid() && IsLine(rows) && 1 <= pos <= size && lo + size <= |rows|
      reads rhs
    {
      VecAt(rhs, pos) == Answer(rows, lo + pos - 1)
    }

    /** `x_backsubstitute`: from the value that the next cell handed back, or from the end of the line. */
    method BackSubstitute(last: bool, ghost rows: seq<Row>, ghost lo: nat)
      requires Valid() && IsLine(rows) && lo + size <= |rows| && last == (lo + size == |rows|)
      requires AllSwept(rows, lo)
      requires !last ==> VecAt(backsubInfo, 0) == Answer(rows, lo + size)
      modifies rhs
      ensures AllAnswered(rows, lo)
    {
      hide BlockAt, VecAt, SweptC, SweptR, MinusImage;
      assert SweptAt(rows, lo, size);
      if !last {
        label Start:
        SubtractImage(size, backsubInfo, 0);
        forall p | 1 <= p < size
          ensures SweptAt(rows, lo, p)
        {
          assert old@Start(SweptAt(rows, lo, p)) && VecAt(rhs, p) == old@Start(VecAt(rhs, p));
        }
      }
      assert AnswerAt(rows, lo, size);
      for pos := size downto 1
        invariant forall p :: pos <= p <= size ==> AnswerAt(rows, lo, p)
        invariant forall p :: 1 <= p < pos ==> SweptAt(rows, lo, p)
      {
        assert AnswerAt(rows, lo, pos + 1) && SweptAt(rows, lo, pos);
        label Before:
        SubtractImage(pos, rhs, pos + 1);
        forall p | 1 <= p <= size && p != pos
          ensures if p < pos then SweptAt(rows, lo, p) else AnswerAt(rows, lo, p)
        {
          assert VecAt(rhs, p) == old@Before(VecAt(rhs, p));
          assert if p < pos then old@Before(SweptAt(rows, lo, p)) else old@Before(AnswerAt(rows, lo, p));
        }
      }
    }

    /** The right-hand sides of the line's points. */
    method LoadRhs(vs: seq<Vec>)
      requires Valid() && |vs| == size && forall k :: 0 <= k < size ==> IsVec(vs[k])
      modifies rhs
      ensures forall pos :: 1 <= pos <= size ==> VecAt(rhs, pos) == vs[pos - 1]
    {
      forall pos, i | 1 <= pos <= size && 0 <= i < N {
        rhs[pos, i] := vs[pos - 1][i];
      }
      forall pos | 1 <= pos <= size
        ensures VecAt(rhs, pos) == vs[pos - 1]
      {
        assert forall i :: 0 <= i < N ==> VecAt(rhs, pos)[i] == vs[pos - 1][i];
      }
    }

    method ReadRhs() returns (vs: seq<Vec>)
      requires Valid()
      ensures |vs| == size && forall k :: 0 <= k < size ==> vs[k] == VecAt(rhs, k + 1)
    {
      vs := [];
      for pos := 1 to size + 1
        invariant |vs| == pos - 1 && forall k :: 0 <= k < pos - 1 ==> vs[k] == VecAt(rhs, k + 1)
      {
        vs := vs + [[rhs[pos, 0], rhs[pos, 1], rhs[pos, 2], rhs[pos, 3], rhs[pos, 4]]];
      }
    }

    // ---- The line's part of a message ----

    /** `x_send_solve_info`: the block row by row and the vector of the last point, from `ptr` on. */
    method PackSolveInfo(inBuffer: array<real>, ptr: nat)
      requires Valid() && ptr + N * N + N <= inBuffer.Length
      modifies inBuffer
      ensures inBuffer[ptr..ptr + N * N + N] == Packed(BlockAt(lhsc, size), VecAt(rhs, size))
      ensures forall i :: 0 <= i < inBuffer.Length && (i < ptr || ptr + N * N + N <= i) ==>
        inBuffer[i] == old(inBuffer[i])
    {
      PackBlock(inBuffer, ptr);
      PackVec(inBuffer, ptr + N * N);
      PackedIs(BlockAt(lhsc, size), VecAt(rhs, size), inBuffer[ptr..ptr + N * N + N]);
    }

    method PackBlock(inBuffer: array<real>, start: nat)
      requires Valid() && start + N * N <= inBuffer.Length
      modifies inBuffer
      ensures forall i, j :: 0 <= i < N && 0 <= j < N ==> lhsc[size, i, j] == inBuffer[start + N * i + j]
      ensures forall i :: 0 <= i < inBuffer.Length && (i < start || start + N * N <= i) ==>
        inBuffer[i] == old(inBuffer[i])
    {
      var ptr := start;
      for m := 0 to N
        invariant ptr == start + N * m
        invariant forall i, j :: 0 <= i < m && 0 <= j < N ==> lhsc[size, i, j] == inBuffer[start + N * i + j]
        invariant forall i :: 0 <= i < inBuffer.Length && (i < start || ptr <= i) ==> inBuffer[i] == old(inBuffer[i])
      {
        for n := 0 to N
          invariant forall j :: 0 <= j < n ==> lhsc[size, m, j] == inBuffer[start + N * m + j]
          invariant forall i, j :: 0 <= i < m && 0 <= j < N ==> lhsc[size, i, j] == inBuffer[start + N * i + j]
          invariant forall i :: 0 <= i < inBuffer.Length && (i < start || ptr + n <= i) ==>
            inBuffer[i] == old(inBuffer[i])
        {
          inBuffer[ptr + n] := lhsc[size, m, n];
        }
        ptr := ptr + N;
      }
    }

    method PackVec(inBuffer: array<real>, ptr: nat)
      requires Valid() && ptr + N <= inBuffer.Length
      modifies inBuffer
      ensures forall i :: 0 <= i < N ==> rhs[size, i] == inBuffer[ptr + i]
      ensures forall i :: 0 <= i < inBuffer.Length && (i < ptr || ptr + N <= i) ==> inBuffer[i] == old(inBuffer[i])
    {
      for n := 0 to N
        invariant forall i :: 0 <= i < n ==> rhs[size, i] == inBuffer[ptr + i]
        invariant forall i :: 0 <= i < inBuffer.Length && (i < ptr || ptr + n <= i) ==> inBuffer[i] == old(inBuffer[i])
      {
        inBuffer[ptr + n] := rhs[size, n];
      }
    }

    /** `x_unpack_solve_info`: from `ptr` on, into the place before the cell's first point. */
    method UnpackSolveInfo(outBuffer: seq<real>, ptr: nat)
      requires Valid() && ptr + N * N + N <= |outBuffer|
      modifies lhsc, rhs
      ensures Packed(BlockAt(lhsc, 0), VecAt(rhs, 0)) == outBuffer[ptr..ptr + N * N + N] && OthersKept(0)
    {
      UnpackBlock(outBuffer, ptr);
      UnpackVec(outBuffer, ptr + N * N);
      PackedIs(BlockAt(lhsc, 0), VecAt(rhs, 0), outBuffer[ptr..ptr + N * N + N]);
    }

    method UnpackBlock(outBuffer: seq<real>, start: nat)
      requires Valid() && start + N * N <= |outBuffer|
      modifies lhsc
      ensures OnlyBlock(lhsc, 0) && forall i, j :: 0 <= i < N && 0 <= j < N ==>
        lhsc[0, i, j] == outBuffer[start + N * i + j]
    {
      var ptr := start;
      for m := 0 to N
        invariant ptr == start + N * m && OnlyBlock(lhsc, 0)
        invariant forall i, j :: 0 <= i < m && 0 <= j < N ==> lhsc[0, i, j] == outBuffer[start + N * i + j]
      {
        for n := 0 to N
          invariant OnlyBlock(lhsc, 0) && forall j :: 0 <= j < n ==> lhsc[0, m, j] == outBuffer[start + N * m + j]
          invariant forall i, j :: 0 <= i < m && 0 <= j < N ==> lhsc[0, i, j] == outBuffer[start + N * i + j]
        {
          lhsc[0, m, n] := outBuffer[ptr + n];
        }
        ptr := ptr + N;
      }
    }

    method UnpackVec(outBuffer: seq<real>, ptr: nat)
      requires Valid() && ptr + N <= |outBuffer|
      modifies rhs
      ensures OnlyVec(rhs, 0) && forall i :: 0 <= i < N ==> rhs[0, i] == outBuffer[ptr + i]
    {
      for n := 0 to N
        invariant OnlyVec(rhs, 0) && forall i :: 0 <= i < n ==> rhs[0, i] == outBuffer[ptr + i]
      {
        rhs[0, n] := outBuffer[ptr + n];
      }
    }

    /** `x_send_backsub_info`: the value of the first point, for the cell before. */
    method PackBacksubInfo(inBuffer: array<real>, ptr: nat)
      requires Valid() && ptr + N <= inBuffer.Length
      modifies inBuffer
      ensures inBuffer[ptr..ptr + N] == VecAt(rhs, 1)
      ensures forall i :: 0 <= i < inBuffer.Length && (i < ptr || ptr + N <= i) ==> inBuffer[i] == old(inBuffer[i])
    {
      for n := 0 to N
        invariant forall i :: ptr <= i < ptr + n ==> inBuffer[i] == rhs[1, i - ptr]
        invariant forall i :: 0 <= i < inBuffer.Length && (i < ptr || ptr + n <= i) ==> inBuffer[i] == old(inBuffer[i])
      {
        inBuffer[ptr + n] := rhs[1, n];
      }
    }

    /** `x_unpack_backsub_info`. */
    method UnpackBacksubInfo(outBuffer: seq<real>, ptr: nat)
      requires Valid() && ptr + N <= |outBuffer|
      modifies backsubInfo
      ensures VecAt(backsubInfo, 0) == outBuffer[ptr..ptr + N]
    {
      for n := 0 to N
        invariant forall i :: 0 <= i < n ==> backsubInfo[0, i] == outBuffer[ptr + i]
      {
        backsubInfo[0, n] := outBuffer[ptr + n];
      }
    }

    // ---- All points of the line ----

    /** The points hold the right-hand sides of their rows. */
    ghost predicate RhsGiven(rows: seq<Row>, lo: nat)
      requires Valid() && IsLine(rows) && lo + size <= |rows|
      reads rhs
    {
      forall pos :: 1 <= pos <= size ==> VecAt(rhs, pos) == rows[lo + pos - 1].r
    }

    ghost predicate AllGiven(rows: seq<Row>, lo: nat)
      requires Valid() && IsLine(rows) && lo + size <= |rows|
      reads lhsa, lhsb, lhsc, rhs
    {
      forall pos :: 1 <= pos <= size ==> Given(rows, lo, pos)
    }

    ghost predicate AllSwept(rows: seq<Row>, lo: nat)
      requires Valid() && IsLine(rows) && lo + size <= |rows|
      reads lhsc, rhs
    {
      forall pos :: 1 <= pos <= size ==> SweptAt(rows, lo, pos)
    }

    ghost predicate AllAnswered(rows: seq<Row>, lo: nat)
      requires Valid() && IsLine(rows) && lo + size <= |rows|
      reads rhs
    {
      forall pos :: 1 <= pos <= size ==> AnswerAt(rows, lo, pos)
    }
  }
}
