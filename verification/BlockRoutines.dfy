/**
 `matvec_sub`, `matmul_sub`, `binvcrhs` and `binvrhs`, overwriting block `k` of the arrays they are given.
 The unrolled statements of the source appear as loops over the same rows and columns in the same order.
 */
module BlockRoutines {
  import opened Blocks

  /** One 5x5 block per grid point of a line. */
  ghost predicate Shaped(a: array3<real>) {
    a.Length1 == a.Length2 == N
  }

  ghost predicate ShapedVec(r: array2<real>) {
    r.Length1 == N
  }

  ghost function RowAt(a: array3<real>, k: nat, i: nat): (row: Vec)
    requires Shaped(a) && k < a.Length0 && i < N
    reads a
    ensures IsVec(row)
  {
    [a[k, i, 0], a[k, i, 1], a[k, i, 2], a[k, i, 3], a[k, i, 4]]
  }

  ghost function BlockAt(a: array3<real>, k: nat): (m: Mat)
    requires Shaped(a) && k < a.Length0
    reads a
    ensures IsMat(m, N)
  {
    [RowAt(a, k, 0), RowAt(a, k, 1), RowAt(a, k, 2), RowAt(a, k, 3), RowAt(a, k, 4)]
  }

  ghost function VecAt(r: array2<real>, k: nat): (v: Vec)
    requires ShapedVec(r) && k < r.Length0
    reads r
    ensures IsVec(v)
  {
    [r[k, 0], r[k, 1], r[k, 2], r[k, 3], r[k, 4]]
  }

  /** Nothing outside row `i` of block `k` changed. */
  twostate predicate OnlyRow(a: array3<real>, k: nat, i: nat)
    reads a
  {
    forall k', i', j' :: 0 <= k' < a.Length0 && 0 <= i' < a.Length1 && 0 <= j' < a.Length2 && (k' != k || i' != i)
      ==> a[k', i', j'] == old(a[k', i', j'])
  }

  /** Nothing outside block `k` changed. */
  twostate predicate OnlyBlock(a: array3<real>, k: nat)
    reads a
  {
    forall k', i', j' :: 0 <= k' < a.Length0 && 0 <= i' < a.Length1 && 0 <= j' < a.Length2 && k' != k
      ==> a[k', i', j'] == old(a[k', i', j'])
  }

  twostate predicate OnlyVec(r: array2<real>, k: nat)
    reads r
  {
    forall k', i' :: 0 <= k' < r.Length0 && 0 <= i' < r.Length1 && k' != k ==> r[k', i'] == old(r[k', i'])
  }

  lemma RowChanged(before: Mat, after: Mat, i: nat)
    requires IsMat(before, N) && IsMat(after, N) && i < N
    requires forall i', j' :: 0 <= i' < N && 0 <= j' < N && i' != i ==> after[i'][j'] == before[i'][j']
    ensures after == before[i := after[i]]
  {
    var set' := before[i := after[i]];
    assert forall i' :: 0 <= i' < N ==> after[i'] == set'[i'];
  }

  method ScaleRow(a: array3<real>, k: nat, i: nat, start: nat, s: real)
    requires Shaped(a) && k < a.Length0 && i < N && start <= N
    modifies a
    ensures BlockAt(a, k) == old(BlockAt(a, k))[i := Scaled(old(BlockAt(a, k))[i], start, s)] && OnlyBlock(a, k)
  {
    hide Scaled;
    ghost var row := RowAt(a, k, i);
    ghost var target := Scaled(row, start, s);
    ScaledEntries(row, start, s);
    for n := start to N
      invariant forall j :: 0 <= j < N ==> RowAt(a, k, i)[j] == if j < n then target[j] else row[j]
      invariant OnlyRow(a, k, i)
    {
      a[k, i, n] := a[k, i, n] * s;
    }
    assert RowAt(a, k, i) == target;
    RowChanged(old(BlockAt(a, k)), BlockAt(a, k), i);
  }

  lemma ScaledEntries(row: Vec, start: nat, s: real)
    ensures var target := Scaled(row, start, s);
      |target| == |row| && forall n :: 0 <= n < |row| ==> target[n] == if n >= start then Times(row[n], s) else row[n]
  {
  }

  method ReduceRow(a: array3<real>, k: nat, i: nat, p: nat, start: nat, s: real)
    requires Shaped(a) && k < a.Length0 && i < N && p < N && i != p && start <= N
    modifies a
    ensures BlockAt(a, k) == old(BlockAt(a, k))[i := Reduced(old(BlockAt(a, k))[i], old(BlockAt(a, k))[p], start, s)]
    ensures OnlyBlock(a, k)
  {
    hide Reduced;
    ghost var row, pivot := RowAt(a, k, i), RowAt(a, k, p);
    ghost var target := Reduced(row, pivot, start, s);
    ReducedEntries(row, pivot, start, s);
    for n := start to N
      invariant forall j :: 0 <= j < N ==> RowAt(a, k, i)[j] == if j < n then target[j] else row[j]
      invariant RowAt(a, k, p) == pivot && OnlyRow(a, k, i)
    {
      a[k, i, n] := a[k, i, n] - s * a[k, p, n];
    }
    assert RowAt(a, k, i) == target;
    RowChanged(old(BlockAt(a, k)), BlockAt(a, k), i);
  }

  lemma ReducedEntries(row: Vec, pivot: Vec, start: nat, s: real)
    requires |row| == |pivot|
    ensures var target := Reduced(row, pivot, start, s);
      |target| == |row| && forall n :: 0 <= n < |row| ==>
        target[n] == if n >= start then Less(row[n], s, pivot[n]) else row[n]
  {
  }

  /** The five products of one statement. */
  lemma MinusFive(u: real, a: Vec, b: Vec)
    requires IsVec(a) && IsVec(b)
    ensures u - a[0] * b[0] - a[1] * b[1] - a[2] * b[2] - a[3] * b[3] - a[4] * b[4] == u - Dot(a, b, N)
  {
    var t0, t1, t2, t3, t4 := a[0] * b[0], a[1] * b[1], a[2] * b[2], a[3] * b[3], a[4] * b[4];
    assert Dot(a, b, 1) == t0;
    assert Dot(a, b, 2) == t0 + t1;
    assert Dot(a, b, 3) == t0 + t1 + t2;
    assert Dot(a, b, 4) == t0 + t1 + t2 + t3;
    assert Dot(a, b, 5) == t0 + t1 + t2 + t3 + t4;
  }

  ghost predicate ImageSoFar(w: Vec, u: Vec, a: Mat, v: Vec, i: nat)
    requires IsVec(w) && IsVec(u) && IsMat(a, N) && IsVec(v)
  {
    forall k :: 0 <= k < N ==> w[k] == if k < i then u[k] - Dot(a[k], v, N) else u[k]
  }

  lemma OneImage(w: Vec, u: Vec, a: Mat, v: Vec, i: nat, x: real)
    requires IsVec(w) && IsVec(u) && IsMat(a, N) && IsVec(v) && i < N && ImageSoFar(w, u, a, v, i)
    requires x == w[i] - a[i][0] * v[0] - a[i][1] * v[1] - a[i][2] * v[2] - a[i][3] * v[3] - a[i][4] * v[4]
    ensures ImageSoFar(w[i := x], u, a, v, i + 1)
  {
    hide Dot;
    MinusFive(w[i], a[i], v);
  }

  lemma NoImage(u: Vec, a: Mat, v: Vec)
    requires IsVec(u) && IsMat(a, N) && IsVec(v)
    ensures ImageSoFar(u, u, a, v, 0)
  {
  }

  lemma AllImage(w: Vec, u: Vec, a: Mat, v: Vec)
    requires IsVec(w) && IsVec(u) && IsMat(a, N) && IsVec(v) && ImageSoFar(w, u, a, v, N)
    ensures w == MinusImage(u, a, v)
  {
  }

  lemma BlockEntries(a: array3<real>, k: nat)
    requires Shaped(a) && k < a.Length0
    ensures forall i, j :: 0 <= i < N && 0 <= j < N ==> BlockAt(a, k)[i][j] == a[k, i, j]
  {
  }

  lemma VecEntries(r: array2<real>, k: nat)
    requires ShapedVec(r) && k < r.Length0
    ensures forall i :: 0 <= i < N ==> VecAt(r, k)[i] == r[k, i]
  {
  }

  lemma SetVecEntry(r: array2<real>, k: nat, i: nat, w: Vec)
    requires ShapedVec(r) && k < r.Length0 && i < N && IsVec(w)
    requires forall j :: 0 <= j < N && j != i ==> r[k, j] == w[j]
    ensures VecAt(r, k) == w[i := r[k, i]]
  {
  }

  /** `bvec = bvec - ablock*avec`. */
  method MatvecSub(ablock: array3<real>, ka: nat, rhs: array2<real>, kv: nat, k: nat)
    requires Shaped(ablock) && ka < ablock.Length0 && ShapedVec(rhs) && kv < rhs.Length0 && k < rhs.Length0 && kv != k
    modifies rhs
    ensures VecAt(rhs, k) == MinusImage(old(VecAt(rhs, k)), BlockAt(ablock, ka), old(VecAt(rhs, kv)))
    ensures OnlyVec(rhs, k)
  {
    hide Dot, ImageSoFar, MinusImage, BlockAt, VecAt;
    ghost var a, v, u := BlockAt(ablock, ka), VecAt(rhs, kv), VecAt(rhs, k);
    NoImage(u, a, v);
    BlockEntries(ablock, ka);
    VecEntries(rhs, kv);
    for i := 0 to N
      invariant ImageSoFar(VecAt(rhs, k), u, a, v, i) && OnlyVec(rhs, k)
    {
      ghost var w := VecAt(rhs, k);
      VecEntries(rhs, k);
      rhs[k, i] := rhs[k, i] - ablock[ka, i, 0] * rhs[kv, 0] - ablock[ka, i, 1] * rhs[kv, 1]
        - ablock[ka, i, 2] * rhs[kv, 2] - ablock[ka, i, 3] * rhs[kv, 3] - ablock[ka, i, 4] * rhs[kv, 4];
      OneImage(w, u, a, v, i, rhs[k, i]);
      SetVecEntry(rhs, k, i, w);
    }
    AllImage(VecAt(rhs, k), u, a, v);
  }

  ghost predicate ProductSoFar(d: Mat, c: Mat, a: Mat, b: Mat, j: nat, i: nat)
    requires IsMat(d, N) && IsMat(c, N) && IsMat(a, N) && IsMat(b, N)
  {
    forall i', j' :: 0 <= i' < N && 0 <= j' < N ==>
      d[i'][j'] == if j' < j || (j' == j && i' < i) then ProductEntry(c, a, b, i', j') else c[i'][j']
  }

  lemma NoProducts(c: Mat, a: Mat, b: Mat)
    requires IsMat(c, N) && IsMat(a, N) && IsMat(b, N)
    ensures ProductSoFar(c, c, a, b, 0, 0)
  {
  }

  lemma OneProduct(d: Mat, c: Mat, a: Mat, b: Mat, j: nat, i: nat, x: real)
    requires IsMat(d, N) && IsMat(c, N) && IsMat(a, N) && IsMat(b, N) && i < N && j < N
    requires ProductSoFar(d, c, a, b, j, i)
    requires x ==
      d[i][j] - a[i][0] * b[0][j] - a[i][1] * b[1][j] - a[i][2] * b[2][j] - a[i][3] * b[3][j] - a[i][4] * b[4][j]
    ensures ProductSoFar(d[i := d[i][j := x]], c, a, b, j, i + 1)
  {
    hide Dot;
    MinusFive(d[i][j], a[i], Column(b, j));
  }

  lemma NextColumn(d: Mat, c: Mat, a: Mat, b: Mat, j: nat)
    requires IsMat(d, N) && IsMat(c, N) && IsMat(a, N) && IsMat(b, N) && ProductSoFar(d, c, a, b, j, N)
    ensures ProductSoFar(d, c, a, b, j + 1, 0)
  {
  }

  lemma AllProducts(d: Mat, c: Mat, a: Mat, b: Mat)
    requires IsMat(d, N) && IsMat(c, N) && IsMat(a, N) && IsMat(b, N) && ProductSoFar(d, c, a, b, N, 0)
    ensures d == MinusProduct(c, a, b)
  {
    assert forall i :: 0 <= i < N ==> d[i] == MinusProduct(c, a, b)[i];
  }

  /** One assignment to an entry, as an update of the block's value. */
  lemma SetEntry(a: array3<real>, k: nat, i: nat, j: nat, d: Mat)
    requires Shaped(a) && k < a.Length0 && i < N && j < N && IsMat(d, N)
    requires forall i', j' :: 0 <= i' < N && 0 <= j' < N && (i' != i || j' != j) ==> a[k, i', j'] == d[i'][j']
    ensures BlockAt(a, k) == d[i := d[i][j := a[k, i, j]]]
  {
    var e := d[i := d[i][j := a[k, i, j]]];
    forall i' | 0 <= i' < N
      ensures RowAt(a, k, i') == e[i']
    {
      assert forall j' :: 0 <= j' < N ==> RowAt(a, k, i')[j'] == a[k, i', j'];
    }
  }

  /** `cblock = cblock - ablock*bblock`. */
  method MatmulSub(ablock: array3<real>, ka: nat, bblock: array3<real>, kb: nat, cblock: array3<real>, kc: nat)
    requires Shaped(ablock) && ka < ablock.Length0 && Shaped(bblock) && kb < bblock.Length0 && Shaped(cblock)
    requires kc < cblock.Length0
    requires cblock != ablock && cblock != bblock
    modifies cblock
    ensures BlockAt(cblock, kc) == MinusProduct(old(BlockAt(cblock, kc)), BlockAt(ablock, ka), BlockAt(bblock, kb))
    ensures OnlyBlock(cblock, kc)
  {
    hide Dot, ProductEntry, ProductSoFar, MinusProduct, BlockAt;
    BlockEntries(ablock, ka);
    BlockEntries(bblock, kb);
    ghost var a, b, c := BlockAt(ablock, ka), BlockAt(bblock, kb), BlockAt(cblock, kc);
    NoProducts(c, a, b);
    for j := 0 to N
      invariant ProductSoFar(BlockAt(cblock, kc), c, a, b, j, 0) && OnlyBlock(cblock, kc)
    {
      for i := 0 to N
        invariant ProductSoFar(BlockAt(cblock, kc), c, a, b, j, i) && OnlyBlock(cblock, kc)
      {
        ghost var d := BlockAt(cblock, kc);
        BlockEntries(cblock, kc);
        cblock[kc, i, j] := cblock[kc, i, j] - ablock[ka, i, 0] * bblock[kb, 0, j] - ablock[ka, i, 1] * bblock[kb, 1, j]
          - ablock[ka, i, 2] * bblock[kb, 2, j] - ablock[ka, i, 3] * bblock[kb, 3, j]
          - ablock[ka, i, 4] * bblock[kb, 4, j];
        OneProduct(d, c, a, b, j, i, cblock[kc, i, j]);
        SetEntry(cblock, kc, i, j, d);
      }
      NextColumn(BlockAt(cblock, kc), c, a, b, j);
    }
    AllProducts(BlockAt(cblock, kc), c, a, b);
  }

  /** Assigning a whole block. */
  method FillBlock(a: array3<real>, k: nat, m: Mat)
    requires Shaped(a) && k < a.Length0 && IsMat(m, N)
    modifies a
    ensures BlockAt(a, k) == m
    ensures forall p :: 0 <= p < a.Length0 && p != k ==> BlockAt(a, p) == old(BlockAt(a, p))
  {
    forall i, j | 0 <= i < N && 0 <= j < N {
      a[k, i, j] := m[i][j];
    }
    forall i | 0 <= i < N
      ensures RowAt(a, k, i) == m[i]
    {
      assert forall j :: 0 <= j < N ==> RowAt(a, k, i)[j] == m[i][j];
    }
  }

  // ---- binvcrhs and binvrhs ----

  /** Pivot step `p` has dealt with the pivot row and the other rows before `i`. */
  ghost predicate Stepping(b: Mat, c: Mat, r: Vec, cw: nat, m: Mat, p: nat, i: nat)
    requires IsMat(b, N) && IsMat(c, cw) && IsVec(r) && IsMat(m, N + cw + 1) && p < N
  {
    var done := Step(m, p, N + cw + 1);
    forall k :: 0 <= k < N ==> Augmented(b, c, r, cw)[k] == if k == p || k < i then done[k] else m[k]
  }

  lemma SplitScaled(b: Vec, c: Vec, r: real, start: nat, s: real)
    requires start <= |b|
    ensures Scaled(b + c + [r], start, s) == Scaled(b, start, s) + Scaled(c, 0, s) + [Times(r, s)]
  {
    var left, right := Scaled(b + c + [r], start, s), Scaled(b, start, s) + Scaled(c, 0, s) + [Times(r, s)];
    assert forall n :: 0 <= n < |b| + |c| + 1 ==> left[n] == right[n];
  }

  lemma SplitReduced(b: Vec, c: Vec, r: real, b': Vec, c': Vec, r': real, start: nat, s: real)
    requires start <= |b| == |b'| && |c| == |c'|
    ensures Reduced(b + c + [r], b' + c' + [r'], start, s) ==
      Reduced(b, b', start, s) + Reduced(c, c', 0, s) + [Less(r, s, r')]
  {
    var left := Reduced(b + c + [r], b' + c' + [r'], start, s);
    var right := Reduced(b, b', start, s) + Reduced(c, c', 0, s) + [Less(r, s, r')];
    assert forall n :: 0 <= n < |b| + |c| + 1 ==> left[n] == right[n];
  }

  /** The row that a step leaves at the pivot, and the row it leaves elsewhere. */
  lemma StepRows(m: Mat, p: nat, w: nat, i: nat)
    requires IsMat(m, w) && p < N <= w && i < N
    ensures Step(m, p, w)[p] == Scaled(m[p], p + 1, Recip(m[p][p]))
    ensures i != p ==> Step(m, p, w)[i] == Reduced(m[i], Step(m, p, w)[p], p + 1, m[i][p])
  {
  }

  lemma AugmentedRow(b: Mat, c: Mat, r: Vec, cw: nat, k: nat)
    requires IsMat(b, N) && IsMat(c, cw) && IsVec(r) && k < N
    ensures Augmented(b, c, r, cw)[k] == b[k] + c[k] + [r[k]]
    ensures forall p :: 0 <= p < N ==> Augmented(b, c, r, cw)[k][p] == b[k][p]
  {
  }

  lemma AugmentedUpdate(b: Mat, c: Mat, r: Vec, cw: nat, i: nat, b': Vec, c': Vec, r': real)
    requires IsMat(b, N) && IsMat(c, cw) && IsVec(r) && i < N && |b'| == N && |c'| == cw
    ensures Augmented(b[i := b'], c[i := c'], r[i := r'], cw) == Augmented(b, c, r, cw)[i := b' + c' + [r']]
  {
  }

  lemma PivotRowDone(b: Mat, c: Mat, r: Vec, cw: nat, p: nat)
    requires IsMat(b, N) && IsMat(c, cw) && IsVec(r) && p < N
    ensures var s := Recip(b[p][p]);
      Stepping(b[p := Scaled(b[p], p + 1, s)], c[p := Scaled(c[p], 0, s)], r[p := Times(r[p], s)], cw,
        Augmented(b, c, r, cw), p, 0)
  {
    hide Step, Augmented;
    var s := Recip(b[p][p]);
    AugmentedRow(b, c, r, cw, p);
    SplitScaled(b[p], c[p], r[p], p + 1, s);
    StepRows(Augmented(b, c, r, cw), p, N + cw + 1, p);
    AugmentedUpdate(b, c, r, cw, p, Scaled(b[p], p + 1, s), Scaled(c[p], 0, s), Times(r[p], s));
  }

  lemma OtherRowDone(b: Mat, c: Mat, r: Vec, cw: nat, m: Mat, p: nat, i: nat)
    requires IsMat(b, N) && IsMat(c, cw) && IsVec(r) && IsMat(m, N + cw + 1) && p < N && i < N && i != p
    requires Stepping(b, c, r, cw, m, p, i)
    ensures var s := b[i][p];
      Stepping(b[i := Reduced(b[i], b[p], p + 1, s)], c[i := Reduced(c[i], c[p], 0, s)], r[i := Less(r[i], s, r[p])],
        cw, m, p, i + 1)
  {
    hide Step, Augmented;
    var s := b[i][p];
    AugmentedRow(b, c, r, cw, i);
    AugmentedRow(b, c, r, cw, p);
    SplitReduced(b[i], c[i], r[i], b[p], c[p], r[p], p + 1, s);
    StepRows(m, p, N + cw + 1, i);
    AugmentedUpdate(b, c, r, cw, i, Reduced(b[i], b[p], p + 1, s), Reduced(c[i], c[p], 0, s), Less(r[i], s, r[p]));
  }

  lemma SkipPivot(b: Mat, c: Mat, r: Vec, cw: nat, m: Mat, p: nat)
    requires IsMat(b, N) && IsMat(c, cw) && IsVec(r) && IsMat(m, N + cw + 1) && p < N
    requires Stepping(b, c, r, cw, m, p, p)
    ensures Stepping(b, c, r, cw, m, p, p + 1)
  {
  }

  lemma StepDone(b: Mat, c: Mat, r: Vec, cw: nat, m: Mat, p: nat)
    requires IsMat(b, N) && IsMat(c, cw) && IsVec(r) && IsMat(m, N + cw + 1) && p < N
    requires Stepping(b, c, r, cw, m, p, N)
    ensures Augmented(b, c, r, cw) == Step(m, p, N + cw + 1)
  {
    hide Augmented, Step;
  }

  /** The pivot that a routine divides by is the one that `Pivots` speaks of. */
  lemma PivotIs(b: Mat, c: Mat, r: Vec, cw: nat, m: Mat, p: nat)
    requires IsMat(b, N) && IsMat(c, cw) && IsVec(r) && IsMat(m, N + cw + 1) && p < N
    requires Augmented(b, c, r, cw) == Steps(m, p, N + cw + 1) && Pivots(m, N + cw + 1)
    ensures b[p][p] != 0.0
  {
    hide Steps;
    AugmentedRow(b, c, r, cw, p);
  }

  method ScaleEntry(r: array2<real>, k: nat, i: nat, s: real)
    requires ShapedVec(r) && k < r.Length0 && i < N
    modifies r
    ensures VecAt(r, k) == old(VecAt(r, k))[i := Times(old(VecAt(r, k))[i], s)] && OnlyVec(r, k)
  {
    ghost var v := VecAt(r, k);
    r[k, i] := r[k, i] * s;
    assert forall j :: 0 <= j < N ==> VecAt(r, k)[j] == v[i := Times(v[i], s)][j];
    assert VecAt(r, k) == v[i := Times(v[i], s)];
  }

  method ReduceEntry(r: array2<real>, k: nat, i: nat, p: nat, s: real)
    requires ShapedVec(r) && k < r.Length0 && i < N && p < N
    modifies r
    ensures VecAt(r, k) == old(VecAt(r, k))[i := Less(old(VecAt(r, k))[i], s, old(VecAt(r, k))[p])] && OnlyVec(r, k)
  {
    ghost var v := VecAt(r, k);
    r[k, i] := r[k, i] - s * r[k, p];
    assert forall j :: 0 <= j < N ==> VecAt(r, k)[j] == v[i := Less(v[i], s, v[p])][j];
  }

  ghost predicate RoomFor(lhs: array3<real>, c: array3<real>, r: array2<real>, k: nat) {
    && Shaped(lhs) && Shaped(c) && ShapedVec(r) && k < lhs.Length0 && k < c.Length0 && k < r.Length0
    && lhs != c
  }

  /** The block row at grid point `k`. */
  ghost function RowsAt(lhs: array3<real>, c: array3<real>, r: array2<real>, k: nat): (m: Mat)
    requires RoomFor(lhs, c, r, k)
    reads lhs, c, r
    ensures IsMat(m, N + N + 1)
  {
    Augmented(BlockAt(lhs, k), BlockAt(c, k), VecAt(r, k), N)
  }

  /** One pivot of `binvcrhs`. */
  method PivotStep(lhs: array3<real>, c: array3<real>, r: array2<real>, k: nat, p: nat)
    requires RoomFor(lhs, c, r, k) && p < N && lhs[k, p, p] != 0.0
    modifies lhs, c, r
    ensures RowsAt(lhs, c, r, k) == Step(old(RowsAt(lhs, c, r, k)), p, N + N + 1)
    ensures OnlyBlock(lhs, k) && OnlyBlock(c, k) && OnlyVec(r, k)
  {
    hide Scaled, Reduced, Step, Augmented, Stepping, BlockAt, VecAt;
    ghost var m := RowsAt(lhs, c, r, k);
    ghost var b0, c0, r0 := BlockAt(lhs, k), BlockAt(c, k), VecAt(r, k);
    var pivot := 1.0 / lhs[k, p, p];
    PivotRowDone(b0, c0, r0, N, p);
    BlockEntry(lhs, k, p, p);
    ScaleRow(lhs, k, p, p + 1, pivot);
    ScaleRow(c, k, p, 0, pivot);
    ScaleEntry(r, k, p, pivot);
    for i := 0 to N
      invariant Stepping(BlockAt(lhs, k), BlockAt(c, k), VecAt(r, k), N, m, p, i)
      invariant OnlyBlock(lhs, k) && OnlyBlock(c, k) && OnlyVec(r, k)
    {
      if i != p {
        OtherRowDone(BlockAt(lhs, k), BlockAt(c, k), VecAt(r, k), N, m, p, i);
        BlockEntry(lhs, k, i, p);
        var coeff := lhs[k, i, p];
        ReduceRow(lhs, k, i, p, p + 1, coeff);
        ReduceRow(c, k, i, p, 0, coeff);
        ReduceEntry(r, k, i, p, coeff);
      } else {
        SkipPivot(BlockAt(lhs, k), BlockAt(c, k), VecAt(r, k), N, m, p);
      }
    }
    StepDone(BlockAt(lhs, k), BlockAt(c, k), VecAt(r, k), N, m, p);
  }

  lemma BlockEntry(a: array3<real>, k: nat, i: nat, j: nat)
    requires Shaped(a) && k < a.Length0 && i < N && j < N
    ensures BlockAt(a, k)[i][j] == a[k, i, j]
  {
  }

  /** `binvcrhs`: the block row becomes what elimination makes of it; other grid points keep their blocks. */
  method Binvcrhs(lhs: array3<real>, c: array3<real>, r: array2<real>, k: nat)
    requires RoomFor(lhs, c, r, k) && Pivots(RowsAt(lhs, c, r, k), N + N + 1)
    modifies lhs, c, r
    ensures RowsAt(lhs, c, r, k) == Steps(old(RowsAt(lhs, c, r, k)), N, N + N + 1)
    ensures OnlyBlock(lhs, k) && OnlyBlock(c, k) && OnlyVec(r, k)
  {
    hide Step, Augmented, BlockAt, VecAt, Pivots;
    ghost var m := RowsAt(lhs, c, r, k);
    for p := 0 to N
      invariant RowsAt(lhs, c, r, k) == Steps(m, p, N + N + 1)
      invariant OnlyBlock(lhs, k) && OnlyBlock(c, k) && OnlyVec(r, k)
    {
      PivotIs(BlockAt(lhs, k), BlockAt(c, k), VecAt(r, k), N, m, p);
      BlockEntry(lhs, k, p, p);
      PivotStep(lhs, c, r, k, p);
    }
  }

  /** A right-hand side alone: no columns in C. */
  function NoColumns(): (c: Mat)
    ensures IsMat(c, 0)
  {
    [[], [], [], [], []]
  }

  ghost predicate RoomForLast(lhs: array3<real>, r: array2<real>, k: nat) {
    Shaped(lhs) && ShapedVec(r) && k < lhs.Length0 && k < r.Length0
  }

  ghost function LastRowsAt(lhs: array3<real>, r: array2<real>, k: nat): (m: Mat)
    requires RoomForLast(lhs, r, k)
    reads lhs, r
    ensures IsMat(m, N + 1)
  {
    Augmented(BlockAt(lhs, k), NoColumns(), VecAt(r, k), 0)
  }

  /** One pivot of `binvrhs`. */
  method LastPivotStep(lhs: array3<real>, r: array2<real>, k: nat, p: nat)
    requires RoomForLast(lhs, r, k) && p < N && lhs[k, p, p] != 0.0
    modifies lhs, r
    ensures LastRowsAt(lhs, r, k) == Step(old(LastRowsAt(lhs, r, k)), p, N + 1)
    ensures OnlyBlock(lhs, k) && OnlyVec(r, k)
  {
    hide Scaled, Reduced, Step, Augmented, Stepping, BlockAt, VecAt;
    ghost var m := LastRowsAt(lhs, r, k);
    ghost var b0, r0 := BlockAt(lhs, k), VecAt(r, k);
    var pivot := 1.0 / lhs[k, p, p];
    PivotRowDone(b0, NoColumns(), r0, 0, p);
    BlockEntry(lhs, k, p, p);
    NothingToChange(p, Scaled([], 0, pivot));
    ScaleRow(lhs, k, p, p + 1, pivot);
    ScaleEntry(r, k, p, pivot);
    for i := 0 to N
      invariant Stepping(BlockAt(lhs, k), NoColumns(), VecAt(r, k), 0, m, p, i)
      invariant OnlyBlock(lhs, k) && OnlyVec(r, k)
    {
      if i != p {
        OtherRowDone(BlockAt(lhs, k), NoColumns(), VecAt(r, k), 0, m, p, i);
        BlockEntry(lhs, k, i, p);
        var coeff := lhs[k, i, p];
        NothingToChange(i, Reduced([], [], 0, coeff));
        ReduceRow(lhs, k, i, p, p + 1, coeff);
        ReduceEntry(r, k, i, p, coeff);
      } else {
        SkipPivot(BlockAt(lhs, k), NoColumns(), VecAt(r, k), 0, m, p);
      }
    }
    StepDone(BlockAt(lhs, k), NoColumns(), VecAt(r, k), 0, m, p);
  }

  lemma NothingToChange(i: nat, row: Vec)
    requires i < N && |row| == 0
    ensures NoColumns()[i := row] == NoColumns() && forall k :: 0 <= k < N ==> NoColumns()[k] == []
  {
  }

  /** `binvrhs`. */
  method Binvrhs(lhs: array3<real>, r: array2<real>, k: nat)
    requires RoomForLast(lhs, r, k) && Pivots(LastRowsAt(lhs, r, k), N + 1)
    modifies lhs, r
    ensures LastRowsAt(lhs, r, k) == Steps(old(LastRowsAt(lhs, r, k)), N, N + 1)
    ensures OnlyBlock(lhs, k) && OnlyVec(r, k)
  {
    hide Step, Augmented, BlockAt, VecAt, Pivots;
    ghost var m := LastRowsAt(lhs, r, k);
    for p := 0 to N
      invariant LastRowsAt(lhs, r, k) == Steps(m, p, N + 1)
      invariant OnlyBlock(lhs, k) && OnlyVec(r, k)
    {
      PivotIs(BlockAt(lhs, k), NoColumns(), VecAt(r, k), 0, m, p);
      BlockEntry(lhs, k, p, p);
      LastPivotStep(lhs, r, k, p);
    }
  }
}
