/**
 The 5x5 block routines of the BT solver (`solve_subs.f`), over exact reals and in place, and what
 they do to a linear system: one block row `B x + C z == r` is turned into `x == r' - C' z`, which
 has exactly the same solutions.
 */
module Blocks {
  /** `BLOCK_SIZE`. */
  const N: nat := 5

  type Vec = seq<real>
  type Mat = seq<seq<real>>

  ghost predicate IsMat(m: Mat, w: nat) {
    |m| == N && forall i :: 0 <= i < N ==> |m[i]| == w
  }

  ghost predicate IsVec(v: Vec) {
    |v| == N
  }

  function Dot(a: Vec, b: Vec, n: nat): real
    requires n <= |a| && n <= |b|
  {
    if n == 0 then 0.0 else Dot(a, b, n - 1) + a[n - 1] * b[n - 1]
  }

  // ---- Linearity ----

  lemma {:induction false} DotPrefix(a: Vec, b: Vec, c: Vec, d: Vec, n: nat)
    requires n <= |a| && n <= |b| && n <= |c| && n <= |d|
    requires forall k :: 0 <= k < n ==> a[k] == c[k] && b[k] == d[k]
    ensures Dot(a, b, n) == Dot(c, d, n)
  {
    if n > 0 { DotPrefix(a, b, c, d, n - 1); }
  }

  lemma {:induction false} DotAppend(a: Vec, b: Vec, u: Vec, v: Vec, n: nat)
    requires |a| == |u| && n <= |b| && n <= |v|
    ensures Dot(a + b, u + v, |a| + n) == Dot(a, u, |a|) + Dot(b, v, n)
  {
    if n == 0 {
      DotPrefix(a + b, u + v, a, u, |a|);
    } else {
      DotAppend(a, b, u, v, n - 1);
    }
  }

  lemma Distribute(s: real, a: real, b: real, v: real)
    ensures (s * a) * v == s * (a * v) && (a - s * b) * v == a * v - s * (b * v)
    ensures s * (a + b) == s * a + s * b
  {
  }

  lemma {:induction false} DotScale(a: Vec, b: Vec, s: real, v: Vec, n: nat)
    requires n <= |a| && n <= |b| && n <= |v|
    requires forall k :: 0 <= k < n ==> b[k] == s * a[k]
    ensures Dot(b, v, n) == s * Dot(a, v, n)
  {
    if n > 0 {
      DotScale(a, b, s, v, n - 1);
      Distribute(s, a[n - 1], 0.0, v[n - 1]);
      Distribute(s, Dot(a, v, n - 1), a[n - 1] * v[n - 1], 0.0);
    }
  }

  lemma {:induction false} DotReduce(a: Vec, b: Vec, c: Vec, s: real, v: Vec, n: nat)
    requires n <= |a| && n <= |b| && n <= |c| && n <= |v|
    requires forall k :: 0 <= k < n ==> c[k] == a[k] - s * b[k]
    ensures Dot(c, v, n) == Dot(a, v, n) - s * Dot(b, v, n)
  {
    if n > 0 {
      DotReduce(a, b, c, s, v, n - 1);
      Distribute(s, a[n - 1], b[n - 1], v[n - 1]);
      Distribute(s, Dot(b, v, n - 1), b[n - 1] * v[n - 1], 0.0);
    }
  }

  // ---- Elimination on values ----

  function Recip(x: real): real {
    if x == 0.0 then 0.0 else 1.0 / x
  }

  /** The two entry operations of the elimination. */
  function Times(x: real, s: real): real {
    x * s
  }

  function Less(x: real, s: real, y: real): real {
    x - s * y
  }

  function Scaled(row: Vec, from: nat, s: real): (r: Vec)
    ensures |r| == |row|
  {
    seq(|row|, n requires 0 <= n < |row| => if n >= from then Times(row[n], s) else row[n])
  }

  function Reduced(row: Vec, pivot: Vec, from: nat, s: real): (r: Vec)
    requires |row| == |pivot|
    ensures |r| == |row|
  {
    seq(|row|, n requires 0 <= n < |row| == |pivot| => if n >= from then Less(row[n], s, pivot[n]) else row[n])
  }

  /**
   One pivot step on the rows of an augmented matrix, as the routines do it: the pivot row is divided
   by the pivot and then taken out of every other row, but only right of the pivot column. Columns up
   to the pivot keep stale numbers that nothing reads again.
   */
  function Step(m: Mat, p: nat, w: nat): (r: Mat)
    requires IsMat(m, w) && p < N <= w
    ensures IsMat(r, w)
  {
    var pivotRow := Scaled(m[p], p + 1, Recip(m[p][p]));
    seq(N, i requires 0 <= i < N => if i == p then pivotRow else Reduced(m[i], pivotRow, p + 1, m[i][p]))
  }

  function Steps(m: Mat, p: nat, w: nat): (r: Mat)
    requires IsMat(m, w) && p <= N <= w
    ensures IsMat(r, w)
  {
    if p == 0 then m else Step(Steps(m, p - 1, w), p - 1, w)
  }

  /** No division by zero on the way. */
  ghost predicate Pivots(m: Mat, w: nat)
    requires IsMat(m, w) && N <= w
  {
    PivotsBelow(m, N, w)
  }

  ghost predicate PivotsBelow(m: Mat, k: nat, w: nat)
    requires IsMat(m, w) && k <= N <= w
  {
    forall p :: 0 <= p < k ==> Steps(m, p, w)[p][p] != 0.0
  }

  function Unit(i: nat, j: nat): real {
    if i == j then 1.0 else 0.0
  }

  /** What the rows stand for after `p` steps: the stale columns are columns of the identity. */
  function Meant(m: Mat, p: nat, w: nat): (r: Mat)
    requires IsMat(m, w) && p <= N <= w
    ensures IsMat(r, w)
  {
    seq(N, i requires 0 <= i < N => seq(w, j requires 0 <= j < w => if j < p then Unit(i, j) else m[i][j]))
  }

  /** `v` is orthogonal to the first `k` rows. */
  ghost predicate Kills(m: Mat, w: nat, k: nat, v: Vec)
    requires IsMat(m, w) && |v| == w && k <= N
  {
    forall i :: 0 <= i < k ==> Dot(m[i], v, w) == 0.0
  }

  lemma NonZeroProduct(a: real, b: real)
    requires a != 0.0
    ensures a * b == 0.0 <==> b == 0.0
    ensures Recip(a) * a == 1.0 && Recip(a) != 0.0
  {
  }

  /** A step in terms of what the rows mean: the pivot row is scaled, ... */
  lemma PivotEntry(m: Mat, p: nat, w: nat, j: nat)
    requires IsMat(m, w) && p < N <= w && m[p][p] != 0.0 && j < w
    ensures Meant(Step(m, p, w), p + 1, w)[p][j] == Recip(m[p][p]) * Meant(m, p, w)[p][j]
  {
    NonZeroProduct(m[p][p], 0.0);
  }

  /** ... and subtracted from every other row. */
  lemma OtherEntry(m: Mat, p: nat, w: nat, i: nat, j: nat)
    requires IsMat(m, w) && p < N <= w && i < N && i != p && j < w
    ensures Meant(Step(m, p, w), p + 1, w)[i][j] ==
      Meant(m, p, w)[i][j] - m[i][p] * Meant(Step(m, p, w), p + 1, w)[p][j]
  {
    if j < p {
      Distribute(m[i][p], 0.0, 0.0, 0.0);
    }
  }

  lemma PivotRow(m: Mat, p: nat, w: nat, v: Vec)
    requires IsMat(m, w) && p < N <= w && |v| == w && m[p][p] != 0.0
    ensures Dot(Meant(Step(m, p, w), p + 1, w)[p], v, w) == Recip(m[p][p]) * Dot(Meant(m, p, w)[p], v, w)
  {
    hide Meant, Step, Dot;
    forall j | 0 <= j < w
      ensures Meant(Step(m, p, w), p + 1, w)[p][j] == Recip(m[p][p]) * Meant(m, p, w)[p][j]
    {
      PivotEntry(m, p, w, j);
    }
    DotScale(Meant(m, p, w)[p], Meant(Step(m, p, w), p + 1, w)[p], Recip(m[p][p]), v, w);
  }

  lemma OtherRow(m: Mat, p: nat, w: nat, v: Vec, i: nat)
    requires IsMat(m, w) && p < N <= w && |v| == w && i < N && i != p
    ensures Dot(Meant(Step(m, p, w), p + 1, w)[i], v, w)
         == Dot(Meant(m, p, w)[i], v, w) - m[i][p] * Dot(Meant(Step(m, p, w), p + 1, w)[p], v, w)
  {
    hide Meant, Step, Dot;
    var before, after := Meant(m, p, w), Meant(Step(m, p, w), p + 1, w);
    forall j | 0 <= j < w
      ensures after[i][j] == before[i][j] - m[i][p] * after[p][j]
    {
      OtherEntry(m, p, w, i, j);
    }
    DotReduce(before[i], after[p], after[i], m[i][p], v, w);
  }

  /** A step with a pivot among the first `k` rows keeps exactly the vectors that these rows kill. */
  lemma StepKills(m: Mat, p: nat, w: nat, k: nat, v: Vec)
    requires IsMat(m, w) && p < k <= N <= w && |v| == w && m[p][p] != 0.0
    ensures Kills(Meant(m, p, w), w, k, v) <==> Kills(Meant(Step(m, p, w), p + 1, w), w, k, v)
  {
    hide Meant, Step, Dot;
    var before, after := Meant(m, p, w), Meant(Step(m, p, w), p + 1, w);
    NonZeroProduct(m[p][p], 0.0);
    NonZeroProduct(Recip(m[p][p]), Dot(before[p], v, w));
    PivotRow(m, p, w, v);
    forall i | 0 <= i < N && i != p
      ensures Dot(after[i], v, w) == Dot(before[i], v, w) - m[i][p] * Dot(after[p], v, w)
    {
      OtherRow(m, p, w, v, i);
    }
  }

  lemma {:induction false} StepsKill(m: Mat, p: nat, w: nat, k: nat, v: Vec)
    requires IsMat(m, w) && p <= k <= N <= w && |v| == w && PivotsBelow(m, p, w)
    ensures Kills(m, w, k, v) <==> Kills(Meant(Steps(m, p, w), p, w), w, k, v)
  {
    hide Kills, Dot, Step;
    if p == 0 {
      assert forall i :: 0 <= i < N ==> Meant(m, 0, w)[i] == m[i];
      assert Meant(m, 0, w) == m;
    } else {
      StepsKill(m, p - 1, w, k, v);
      StepKills(Steps(m, p - 1, w), p - 1, w, k, v);
    }
  }

  // ---- A block row: B x + C z == r ----

  /** The rows of B, C and r side by side; C has `cw` columns, none for the last row of a line. */
  function Augmented(b: Mat, c: Mat, r: Vec, cw: nat): (m: Mat)
    requires IsMat(b, N) && IsMat(c, cw) && IsVec(r)
    ensures IsMat(m, N + cw + 1)
  {
    seq(N, i requires 0 <= i < N => b[i] + c[i] + [r[i]])
  }

  function CPart(m: Mat, cw: nat): (c: Mat)
    requires IsMat(m, N + cw + 1)
    ensures IsMat(c, cw)
  {
    seq(N, i requires 0 <= i < N => m[i][N..N + cw])
  }

  lemma AugmentedParts(b: Mat, c: Mat, r: Vec, cw: nat)
    requires IsMat(b, N) && IsMat(c, cw) && IsVec(r)
    ensures CPart(Augmented(b, c, r, cw), cw) == c && RPart(Augmented(b, c, r, cw), cw) == r
  {
    assert forall i :: 0 <= i < N ==> CPart(Augmented(b, c, r, cw), cw)[i] == c[i];
  }

  function RPart(m: Mat, cw: nat): (r: Vec)
    requires IsMat(m, N + cw + 1)
    ensures IsVec(r)
  {
    seq(N, i requires 0 <= i < N => m[i][N + cw])
  }

  /** Row by row, `B x + C z == r`. */
  ghost predicate Balanced(b: Mat, c: Mat, r: Vec, x: Vec, z: Vec)
    requires IsMat(b, N) && IsMat(c, |z|) && IsVec(r) && IsVec(x)
  {
    forall i :: 0 <= i < N ==> Dot(b[i], x, N) + Dot(c[i], z, |z|) == r[i]
  }

  /** Row by row, `x + C z == r`. */
  ghost predicate Explicit(c: Mat, r: Vec, x: Vec, z: Vec)
    requires IsMat(c, |z|) && IsVec(r) && IsVec(x)
  {
    forall i :: 0 <= i < N ==> x[i] + Dot(c[i], z, |z|) == r[i]
  }

  lemma {:induction false} DotUnit(e: Vec, x: Vec, i: nat, n: nat)
    requires n <= |e| && n <= |x| && forall j :: 0 <= j < n ==> e[j] == Unit(i, j)
    ensures Dot(e, x, n) == if i < n then x[i] else 0.0
  {
    if n > 0 { DotUnit(e, x, i, n - 1); }
  }

  /** A row of three parts against a vector of three parts. */
  lemma {:induction false} DotThree(a: Vec, c: Vec, r: real, x: Vec, z: Vec)
    requires |a| == |x| && |c| == |z|
    ensures Dot(a + c + [r], x + z + [-1.0], |a| + |c| + 1) == Dot(a, x, |a|) + Dot(c, z, |c|) - r
  {
    hide Dot;
    DotAppend(a, c, x, z, |c|);
    DotOneMore(a + c, r, x + z, |a| + |c|);
  }

  lemma DotOneMore(a: Vec, r: real, x: Vec, n: nat)
    requires |a| == |x| == n
    ensures Dot(a + [r], x + [-1.0], n + 1) == Dot(a, x, n) - r
  {
    hide Dot;
    DotAppend(a, [r], x, [-1.0], 1);
    DotMinusOne(r);
  }

  lemma DotMinusOne(r: real)
    ensures Dot([r], [-1.0], 1) == -r
  {
    assert Dot([r], [-1.0], 0) == 0.0;
  }

  lemma BalancedKills(b: Mat, c: Mat, r: Vec, x: Vec, z: Vec)
    requires IsMat(b, N) && IsMat(c, |z|) && IsVec(r) && IsVec(x)
    ensures Balanced(b, c, r, x, z) <==> Kills(Augmented(b, c, r, |z|), N + |z| + 1, N, x + z + [-1.0])
  {
    hide Dot;
    var m, v := Augmented(b, c, r, |z|), x + z + [-1.0];
    forall i | 0 <= i < N
      ensures Dot(m[i], v, N + |z| + 1) == Dot(b[i], x, N) + Dot(c[i], z, |z|) - r[i]
    {
      DotThree(b[i], c[i], r[i], x, z);
    }
  }

  lemma ExplicitKills(m: Mat, x: Vec, z: Vec)
    requires IsMat(m, N + |z| + 1) && IsVec(x)
    ensures Explicit(CPart(m, |z|), RPart(m, |z|), x, z) <==>
      Kills(Meant(m, N, N + |z| + 1), N + |z| + 1, N, x + z + [-1.0])
  {
    hide Dot;
    var w, v, d := N + |z| + 1, x + z + [-1.0], Meant(m, N, N + |z| + 1);
    forall i | 0 <= i < N
      ensures Dot(d[i], v, w) == x[i] + Dot(CPart(m, |z|)[i], z, |z|) - RPart(m, |z|)[i]
    {
      var e := seq(N, j requires 0 <= j < N => Unit(i, j));
      assert d[i] == e + CPart(m, |z|)[i] + [RPart(m, |z|)[i]];
      DotThree(e, CPart(m, |z|)[i], RPart(m, |z|)[i], x, z);
      DotUnit(e, x, i, N);
    }
  }

  /**
   What `binvcrhs` (and, with no columns in C, `binvrhs`) computes: as long as no pivot is zero,
   `x == r' - C' z` has exactly the solutions of `B x + C z == r`.
   */
  lemma EliminationSolves(b: Mat, c: Mat, r: Vec, x: Vec, z: Vec)
    requires IsMat(b, N) && IsMat(c, |z|) && IsVec(r) && IsVec(x)
    requires Pivots(Augmented(b, c, r, |z|), N + |z| + 1)
    ensures var m := Steps(Augmented(b, c, r, |z|), N, N + |z| + 1);
      Balanced(b, c, r, x, z) <==> Explicit(CPart(m, |z|), RPart(m, |z|), x, z)
  {
    hide Balanced, Explicit, Kills, Augmented, Steps, Meant, CPart, RPart, PivotsBelow;
    var w, v := N + |z| + 1, x + z + [-1.0];
    BalancedKills(b, c, r, x, z);
    StepsKill(Augmented(b, c, r, |z|), N, w, N, v);
    ExplicitKills(Steps(Augmented(b, c, r, |z|), N, w), x, z);
  }

  /** The identity on the diagonal, as `lhsabinit` leaves it in rows that are not computed. */
  function Identity(): (m: Mat)
    ensures IsMat(m, N)
  {
    seq(N, i requires 0 <= i < N => seq(N, j requires 0 <= j < N => Unit(i, j)))
  }

  /** A row of the identity is a fixed point of every routine, so it can stay in the work array for the next line. */
  lemma {:induction false} IdentityStays(m: Mat, p: nat, w: nat)
    requires IsMat(m, w) && p <= N <= w
    requires forall i, j :: 0 <= i < N && 0 <= j < N ==> m[i][j] == Unit(i, j)
    ensures Steps(m, p, w) == m
  {
    hide Step;
    if p > 0 {
      IdentityStays(m, p - 1, w);
      IdentityStep(m, p - 1, w);
    }
  }

  lemma IdentityStep(m: Mat, p: nat, w: nat)
    requires IsMat(m, w) && p < N <= w
    requires forall i, j :: 0 <= i < N && 0 <= j < N ==> m[i][j] == Unit(i, j)
    ensures Step(m, p, w) == m
  {
    var after := Step(m, p, w);
    assert Recip(1.0) == 1.0;
    forall i | 0 <= i < N
      ensures after[i] == m[i]
    {
      assert forall j :: 0 <= j < w ==> after[i][j] == m[i][j];
    }
  }

  // ---- Taking out the block below the diagonal ----

  function Column(m: Mat, j: nat): (c: Vec)
    requires |m| == N && forall i :: 0 <= i < N ==> j < |m[i]|
    ensures IsVec(c)
  {
    seq(N, i requires 0 <= i < N => m[i][j])
  }

  function ProductEntry(c: Mat, a: Mat, b: Mat, i: nat, j: nat): real
    requires IsMat(a, N) && IsMat(b, N) && IsMat(c, N) && i < N && j < N
  {
    c[i][j] - Dot(a[i], Column(b, j), N)
  }

  /** `C - A B`. */
  function MinusProduct(c: Mat, a: Mat, b: Mat): (d: Mat)
    requires IsMat(a, N) && IsMat(b, N) && IsMat(c, N)
    ensures IsMat(d, N)
  {
    seq(N, i requires 0 <= i < N =>
      seq(N, j requires 0 <= j < N && IsMat(a, N) && IsMat(b, N) && IsMat(c, N) => ProductEntry(c, a, b, i, j)))
  }

  /** `u - A v`. */
  function MinusImage(u: Vec, a: Mat, v: Vec): (d: Vec)
    requires IsMat(a, N) && IsVec(u) && IsVec(v)
    ensures IsVec(d)
  {
    seq(N, i requires 0 <= i < N => u[i] - Dot(a[i], v, N))
  }

  /** `B v`, over the first `n` columns. */
  function Image(b: Mat, v: Vec, n: nat): (d: Vec)
    requires IsMat(b, N) && IsVec(v) && n <= N
    ensures IsVec(d)
  {
    seq(N, k requires 0 <= k < N => Dot(b[k], v, n))
  }

  lemma {:induction false} DotFlip(a: Vec, b: Vec, n: nat)
    requires n <= |a| && n <= |b|
    ensures Dot(a, b, n) == Dot(b, a, n)
  {
    if n > 0 { DotFlip(a, b, n - 1); }
  }

  lemma ImageEntry(b: Mat, v: Vec, n: nat, k: nat)
    requires IsMat(b, N) && IsVec(v) && n < N && k < N
    ensures Image(b, v, n + 1)[k] == Image(b, v, n)[k] - (-v[n]) * Column(b, n)[k]
  {
    Distribute(-1.0, v[n], 0.0, b[k][n]);
  }

  /** `a (B v)`, adding one column of B. */
  lemma ImageNext(a: Vec, b: Mat, v: Vec, n: nat)
    requires IsVec(a) && IsMat(b, N) && IsVec(v) && n < N
    ensures Dot(a, Image(b, v, n + 1), N) == Dot(a, Image(b, v, n), N) + Dot(a, Column(b, n), N) * v[n]
  {
    hide Image, Dot, Column;
    var before, after, col := Image(b, v, n), Image(b, v, n + 1), Column(b, n);
    DotFlip(a, before, N);
    DotFlip(a, after, N);
    DotFlip(a, col, N);
    forall k | 0 <= k < N
      ensures after[k] == before[k] - (-v[n]) * col[k]
    {
      ImageEntry(b, v, n, k);
    }
    DotReduce(before, col, after, -v[n], a, N);
  }

  lemma {:induction false} ProductThenImage(c: Mat, a: Mat, b: Mat, v: Vec, i: nat, n: nat)
    requires IsMat(a, N) && IsMat(b, N) && IsMat(c, N) && IsVec(v) && i < N && n <= N
    ensures Dot(MinusProduct(c, a, b)[i], v, n) == Dot(c[i], v, n) - Dot(a[i], Image(b, v, n), N)
  {
    hide Image, Column;
    if n == 0 {
      NoImage(a[i], b, v, N);
    } else {
      ProductThenImage(c, a, b, v, i, n - 1);
      ImageNext(a[i], b, v, n - 1);
      Distribute(1.0, c[i][n - 1], Dot(a[i], Column(b, n - 1), N), v[n - 1]);
    }
  }

  lemma {:induction false} NoImage(a: Vec, b: Mat, v: Vec, n: nat)
    requires IsVec(a) && IsMat(b, N) && IsVec(v) && n <= N
    ensures Dot(a, Image(b, v, 0), n) == 0.0
  {
    if n > 0 { NoImage(a, b, v, n - 1); }
  }

  /** Row by row, `A y + B x + C z == r`. */
  ghost predicate Balanced3(a: Mat, b: Mat, c: Mat, r: Vec, y: Vec, x: Vec, z: Vec)
    requires IsMat(a, N) && IsMat(b, N) && IsMat(c, |z|) && IsVec(r) && IsVec(x) && IsVec(y)
  {
    forall i :: 0 <= i < N ==> Dot(a[i], y, N) + Dot(b[i], x, N) + Dot(c[i], z, |z|) == r[i]
  }

  /**
   What `matvec_sub` and `matmul_sub` are for: once the row above reads `y + C' x == r'`, the row
   `A y + B x + C z == r` says the same as `(B - A C') x + C z == r - A r'`.
   */
  lemma EliminateAbove(a: Mat, b: Mat, c: Mat, r: Vec, c0: Mat, r0: Vec, y: Vec, x: Vec, z: Vec)
    requires IsMat(a, N) && IsMat(b, N) && IsMat(c, |z|) && IsVec(r) && IsVec(x) && IsVec(y) && IsMat(c0, N)
    requires IsVec(r0)
    requires Explicit(c0, r0, y, x)
    ensures Balanced3(a, b, c, r, y, x, z) <==> Balanced(MinusProduct(b, a, c0), c, MinusImage(r, a, r0), x, z)
  {
    hide Dot, MinusProduct;
    var image := Image(c0, x, N);
    forall i | 0 <= i < N
      ensures Dot(MinusProduct(b, a, c0)[i], x, N) == Dot(b[i], x, N) - Dot(a[i], image, N)
      ensures Dot(a[i], y, N) == Dot(a[i], r0, N) - Dot(a[i], image, N)
    {
      ProductThenImage(b, a, c0, x, i, N);
      DotFlip(a[i], y, N);
      DotFlip(a[i], r0, N);
      DotFlip(a[i], image, N);
      DotReduce(r0, image, y, 1.0, a[i], N);
    }
  }
}
