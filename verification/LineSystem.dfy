/**
 A line of grid points as a block-tridiagonal system, and the sweep that solves it: forward elimination
 along the line, back substitution against it. All over exact reals.
 */
module LineSystem {
  import opened Blocks
  import opened BlockRoutines

  /** `A x_before + B x + C x_after == r`. */
  datatype Row = Row(a: Mat, b: Mat, c: Mat, r: Vec)

  ghost predicate IsRow(row: Row) {
    IsMat(row.a, N) && IsMat(row.b, N) && IsMat(row.c, N) && IsVec(row.r)
  }

  /** The corner blocks (A of the first row, C of the last) are never read. */
  ghost predicate IsLine(rows: seq<Row>) {
    |rows| >= 2 && forall i :: 0 <= i < |rows| ==> IsRow(rows[i])
  }

  ghost predicate IsVecs(xs: seq<Vec>, n: nat) {
    |xs| == n && forall i :: 0 <= i < n ==> IsVec(xs[i])
  }

  ghost predicate RowHolds(rows: seq<Row>, xs: seq<Vec>, i: nat)
    requires IsLine(rows) && IsVecs(xs, |rows|) && i < |rows|
  {
    var row := rows[i];
    if i == 0 then Balanced(row.b, row.c, row.r, xs[0], xs[1])
    else if i < |rows| - 1 then Balanced3(row.a, row.b, row.c, row.r, xs[i - 1], xs[i], xs[i + 1])
    else Balanced3(row.a, row.b, NoColumns(), row.r, xs[i - 1], xs[i], [])
  }

  /** `xs` solves the line. */
  ghost predicate Solves(rows: seq<Row>, xs: seq<Vec>)
    requires IsLine(rows)
  {
    IsVecs(xs, |rows|) && forall i :: 0 <= i < |rows| ==> RowHolds(rows, xs, i)
  }

  // ---- The forward sweep ----

  /** Row `i` once the row above has been taken out of it; the last row drops its C. */
  function Pending(rows: seq<Row>, i: nat): (m: Mat)
    requires IsLine(rows) && i < |rows|
    ensures IsMat(m, Width(rows, i))
    decreases i, 0
  {
    var row := rows[i];
    if i == 0 then Augmented(row.b, row.c, row.r, N)
    else
      var b, r := MinusProduct(row.b, row.a, SweptC(rows, i - 1)), MinusImage(row.r, row.a, SweptR(rows, i - 1));
      if i < |rows| - 1 then Augmented(b, row.c, r, N) else Augmented(b, NoColumns(), r, 0)
  }

  function Width(rows: seq<Row>, i: nat): nat {
    N + (if i < |rows| - 1 then N else 0) + 1
  }

  function Swept(rows: seq<Row>, i: nat): (m: Mat)
    requires IsLine(rows) && i < |rows|
    ensures IsMat(m, Width(rows, i))
    decreases i, 1
  {
    Steps(Pending(rows, i), N, Width(rows, i))
  }

  /** `C'` and `rhs'` of row `i`. */
  function SweptC(rows: seq<Row>, i: nat): (c: Mat)
    requires IsLine(rows) && i < |rows| - 1
    ensures IsMat(c, N)
    decreases i, 2
  {
    CPart(Swept(rows, i), N)
  }

  function SweptR(rows: seq<Row>, i: nat): (r: Vec)
    requires IsLine(rows) && i < |rows|
    ensures IsVec(r)
    decreases i, 2
  {
    RPart(Swept(rows, i), if i < |rows| - 1 then N else 0)
  }

  /** The sweep divides by no zero. */
  ghost predicate Pivotal(rows: seq<Row>)
    requires IsLine(rows)
  {
    forall i :: 0 <= i < |rows| ==> Pivots(Pending(rows, i), Width(rows, i))
  }

  /** Row `i` of the swept system: `x + C' x_after == rhs'`. */
  ghost predicate SweptHolds(rows: seq<Row>, xs: seq<Vec>, i: nat)
    requires IsLine(rows) && IsVecs(xs, |rows|) && i < |rows|
  {
    if i < |rows| - 1 then Explicit(SweptC(rows, i), SweptR(rows, i), xs[i], xs[i + 1])
    else Explicit(NoColumns(), SweptR(rows, i), xs[i], [])
  }

  lemma NoColumnsLeft(m: Mat)
    requires IsMat(m, N + 1)
    ensures CPart(m, 0) == NoColumns()
  {
  }

  /** Given the row above, a row and its swept form say the same. */
  lemma SweepRow(rows: seq<Row>, xs: seq<Vec>, i: nat)
    requires IsLine(rows) && IsVecs(xs, |rows|) && i < |rows| && Pivotal(rows)
    requires i > 0 ==> SweptHolds(rows, xs, i - 1)
    ensures RowHolds(rows, xs, i) <==> SweptHolds(rows, xs, i)
  {
    hide Balanced, Balanced3, Explicit, Augmented, Steps, CPart, RPart, Pivots, MinusProduct, MinusImage;
    var row := rows[i];
    assert Pivots(Pending(rows, i), Width(rows, i));
    if i == 0 {
      EliminationSolves(row.b, row.c, row.r, xs[0], xs[1]);
    } else {
      var c0, r0 := SweptC(rows, i - 1), SweptR(rows, i - 1);
      var b, r := MinusProduct(row.b, row.a, c0), MinusImage(row.r, row.a, r0);
      if i < |rows| - 1 {
        EliminateAbove(row.a, row.b, row.c, row.r, c0, r0, xs[i - 1], xs[i], xs[i + 1]);
        EliminationSolves(b, row.c, r, xs[i], xs[i + 1]);
        assert SweptC(rows, i) == CPart(Steps(Augmented(b, row.c, r, N), N, N + N + 1), N);
        assert SweptR(rows, i) == RPart(Steps(Augmented(b, row.c, r, N), N, N + N + 1), N);
      } else {
        EliminateAbove(row.a, row.b, NoColumns(), row.r, c0, r0, xs[i - 1], xs[i], []);
        EliminationSolves(b, NoColumns(), r, xs[i], []);
        NoColumnsLeft(Swept(rows, i));
      }
    }
  }

  /** The forward sweep changes no solution, row by row from the start of the line. */
  lemma {:induction false} SweepKeepsSolutions(rows: seq<Row>, xs: seq<Vec>, k: nat)
    requires IsLine(rows) && IsVecs(xs, |rows|) && k <= |rows| && Pivotal(rows)
    ensures (forall i :: 0 <= i < k ==> RowHolds(rows, xs, i)) <==> (forall i :: 0 <= i < k ==> SweptHolds(rows, xs, i))
  {
    hide RowHolds, SweptHolds, Pivotal, IsLine, IsVecs;
    if k > 0 {
      SweepKeepsSolutions(rows, xs, k - 1);
      if forall i :: 0 <= i < k - 1 ==> SweptHolds(rows, xs, i) {
        assert k > 1 ==> SweptHolds(rows, xs, k - 2);
        SweepRow(rows, xs, k - 1);
      }
    }
  }

  // ---- Back substitution ----

  /** The value that back substitution leaves at row `i`. */
  function Answer(rows: seq<Row>, i: nat): (x: Vec)
    requires IsLine(rows) && i < |rows|
    ensures IsVec(x)
    decreases |rows| - i
  {
    if i == |rows| - 1 then SweptR(rows, i) else MinusImage(SweptR(rows, i), SweptC(rows, i), Answer(rows, i + 1))
  }

  function Answers(rows: seq<Row>): (xs: seq<Vec>)
    requires IsLine(rows)
    ensures |xs| == |rows| && forall i :: 0 <= i < |rows| ==> xs[i] == Answer(rows, i)
  {
    seq(|rows|, i requires 0 <= i < |rows| => Answer(rows, i))
  }

  lemma OneExplicit(c: Mat, r: Vec, x: Vec, z: Vec)
    requires IsMat(c, N) && IsVec(r) && IsVec(x) && IsVec(z)
    ensures Explicit(c, r, x, z) <==> x == MinusImage(r, c, z)
  {
    hide Dot;
    var d := MinusImage(r, c, z);
    assert x == d <==> forall i :: 0 <= i < N ==> x[i] == d[i];
  }

  lemma LastExplicit(r: Vec, x: Vec)
    requires IsVec(r) && IsVec(x)
    ensures Explicit(NoColumns(), r, x, []) <==> x == r
  {
    assert x == r <==> forall i :: 0 <= i < N ==> x[i] == r[i];
    assert forall i :: 0 <= i < N ==> Dot(NoColumns()[i], [], 0) == 0.0;
  }

  /** Back substitution gives the one solution of the swept system, row by row from the end. */
  lemma {:induction false} BackIsUnique(rows: seq<Row>, xs: seq<Vec>, k: nat)
    requires IsLine(rows) && IsVecs(xs, |rows|) && k <= |rows|
    ensures (forall i :: k <= i < |rows| ==> SweptHolds(rows, xs, i)) <==>
      (forall i :: k <= i < |rows| ==> xs[i] == Answer(rows, i))
    decreases |rows| - k
  {
    hide Explicit, SweptC, SweptR, MinusImage;
    if k < |rows| {
      BackIsUnique(rows, xs, k + 1);
      if k == |rows| - 1 {
        LastExplicit(SweptR(rows, k), xs[k]);
        assert SweptHolds(rows, xs, k) <==> xs[k] == Answer(rows, k);
      } else if forall i :: k + 1 <= i < |rows| ==> xs[i] == Answer(rows, i) {
        assert xs[k + 1] == Answer(rows, k + 1);
        OneExplicit(SweptC(rows, k), SweptR(rows, k), xs[k], xs[k + 1]);
        assert SweptHolds(rows, xs, k) <==> xs[k] == Answer(rows, k);
      }
    }
  }

  /**
   The solver's theorem: with no zero pivot the swept and back-substituted values solve the original
   block-tridiagonal system, and nothing else does.
   */
  lemma SweepSolves(rows: seq<Row>, xs: seq<Vec>)
    requires IsLine(rows) && Pivotal(rows)
    ensures Solves(rows, xs) <==> xs == Answers(rows)
  {
    hide RowHolds, SweptHolds, Answer;
    if IsVecs(xs, |rows|) {
      SweepKeepsSolutions(rows, xs, |rows|);
      BackIsUnique(rows, xs, 0);
    }
  }

  // ---- Boundary rows ----

  function Zero(): (m: Mat)
    ensures IsMat(m, N)
  {
    seq(N, i requires 0 <= i < N => seq(N, j requires 0 <= j < N => 0.0))
  }

  lemma {:induction false} DotZero(z: Vec, v: Vec, n: nat)
    requires n <= |z| && n <= |v| && forall j :: 0 <= j < n ==> z[j] == 0.0
    ensures Dot(z, v, n) == 0.0
  {
    if n > 0 { DotZero(z, v, n - 1); }
  }

  /**
   The solver computes no blocks for the two ends of a line: they keep A zero and B the identity from
   `lhsabinit`, line after line. That is sound because the sweep leaves such a row as it was, B included.
   */
  lemma BoundaryRowStays(rows: seq<Row>, i: nat)
    requires IsLine(rows) && (i == 0 || i == |rows| - 1)
    requires rows[i].b == Identity() && (i > 0 ==> rows[i].a == Zero())
    ensures Swept(rows, i) == Pending(rows, i)
      == (if i == 0 then Augmented(Identity(), rows[i].c, rows[i].r, N)
        else Augmented(Identity(), NoColumns(), rows[i].r, 0))
  {
    hide Steps, Dot, SweptC, SweptR;
    var row := rows[i];
    if i > 0 {
      var c0, r0 := SweptC(rows, i - 1), SweptR(rows, i - 1);
      forall k | 0 <= k < N
        ensures MinusImage(row.r, Zero(), r0)[k] == row.r[k]
        ensures MinusProduct(Identity(), Zero(), c0)[k] == Identity()[k]
      {
        DotZero(Zero()[k], r0, N);
        forall j | 0 <= j < N
          ensures MinusProduct(Identity(), Zero(), c0)[k][j] == Identity()[k][j]
        {
          DotZero(Zero()[k], Column(c0, j), N);
        }
      }
      assert MinusImage(row.r, Zero(), r0) == row.r;
      assert MinusProduct(Identity(), Zero(), c0) == Identity();
    }
    IdentityStays(Pending(rows, i), N, Width(rows, i));
  }

  /** The rows at the two ends of a line are not computed: zero blocks around the identity. */
  ghost predicate Bounded(rows: seq<Row>)
    requires IsLine(rows)
  {
    EndRow(rows[0]) && EndRow(rows[|rows| - 1])
  }

  ghost predicate EndRow(row: Row) {
    row.a == Zero() && row.b == Identity() && row.c == Zero()
  }

  ghost predicate SameBlocks(x: Row, y: Row) {
    x.a == y.a && x.b == y.b && x.c == y.c
  }
}
