/**
 When the elimination without pivoting divides by no zero: exactly when every leading block of the matrix
 is regular. So the condition is one on B alone, whatever stands beside it.
 */
module Pivoting {
  import opened Blocks

  /** `v` is zero from column `k` on. */
  ghost predicate Within(v: Vec, k: nat) {
    forall j :: k <= j < |v| ==> v[j] == 0.0
  }

  ghost predicate Zero(v: Vec) {
    forall j :: 0 <= j < |v| ==> v[j] == 0.0
  }

  /** The leading `k` by `k` block sends only the zero vector to zero. */
  ghost predicate Regular(m: Mat, w: nat, k: nat)
    requires IsMat(m, w) && k <= N <= w
  {
    forall v :: |v| == w && Within(v, k) && Kills(m, w, k, v) ==> Zero(v)
  }

  lemma {:induction false} DotWithin(a: Vec, v: Vec, k: nat, n: nat)
    requires k <= n <= |a| && n <= |v| && Within(v, k)
    ensures Dot(a, v, n) == Dot(a, v, k)
  {
    if n > k { DotWithin(a, v, k, n - 1); }
  }

  /** With no zero pivot before it, step `k` finds the identity in the leading block. */
  lemma PivotsGiveRegular(m: Mat, w: nat, k: nat)
    requires IsMat(m, w) && k <= N <= w && PivotsBelow(m, k, w)
    ensures Regular(m, w, k)
  {
    hide Meant, Steps, Dot, PivotsBelow;
    forall v | |v| == w && Within(v, k) && Kills(m, w, k, v)
      ensures Zero(v)
    {
      StepsKill(m, k, w, k, v);
      var d := Meant(Steps(m, k, w), k, w);
      forall i | 0 <= i < k
        ensures v[i] == 0.0
      {
        DotWithin(d[i], v, k, w);
        MeantUnit(Steps(m, k, w), k, w, i);
        DotUnit(d[i], v, i, k);
      }
    }
  }

  lemma MeantUnit(m: Mat, p: nat, w: nat, i: nat)
    requires IsMat(m, w) && p <= N <= w && i < N
    ensures forall j :: 0 <= j < p ==> Meant(m, p, w)[i][j] == Unit(i, j)
    ensures forall j :: p <= j < w ==> Meant(m, p, w)[i][j] == m[i][j]
  {
  }

  /** What a zero pivot in column `p` leaves in the kernel: that column's numbers, negated, and 1. */
  function Witness(m: Mat, p: nat, w: nat): (v: Vec)
    requires IsMat(m, w) && p < N <= w
    ensures |v| == w
  {
    seq(w, j requires 0 <= j < w => if j < p then -m[j][p] else Unit(p, j))
  }

  lemma WitnessKilled(m: Mat, p: nat, w: nat, i: nat)
    requires IsMat(m, w) && p < N <= w && i <= p && m[p][p] == 0.0
    ensures Dot(Meant(m, p, w)[i], Witness(m, p, w), w) == 0.0
  {
    hide Dot, Meant;
    var row, v := Meant(m, p, w)[i], Witness(m, p, w);
    MeantUnit(m, p, w, i);
    DotWithin(row, v, p + 1, w);
    DotUnit(row, v, i, p);
    DotLast(row, v, p);
  }

  lemma DotLast(a: Vec, v: Vec, p: nat)
    requires p < |a| && p < |v| && v[p] == 1.0
    ensures Dot(a, v, p + 1) == Dot(a, v, p) + a[p]
  {
  }

  /** A zero pivot means that the leading block up to it is singular. */
  lemma ZeroPivotSingular(m: Mat, w: nat, p: nat)
    requires IsMat(m, w) && p < N <= w && PivotsBelow(m, p, w) && Steps(m, p, w)[p][p] == 0.0
    ensures !Regular(m, w, p + 1)
  {
    hide Meant, Steps, Dot, PivotsBelow;
    var s := Steps(m, p, w);
    var v := Witness(s, p, w);
    forall i | 0 <= i < p + 1
      ensures Dot(Meant(s, p, w)[i], v, w) == 0.0
    {
      WitnessKilled(s, p, w, i);
    }
    StepsKill(m, p, w, p + 1, v);
    assert v[p] == 1.0;
  }

  lemma {:induction false} PivotsIff(m: Mat, w: nat, k: nat)
    requires IsMat(m, w) && k <= N <= w
    ensures PivotsBelow(m, k, w) <==> forall l :: 1 <= l <= k ==> Regular(m, w, l)
  {
    hide Steps, Regular;
    if k > 0 {
      PivotsIff(m, w, k - 1);
      if PivotsBelow(m, k - 1, w) {
        if Steps(m, k - 1, w)[k - 1][k - 1] == 0.0 {
          ZeroPivotSingular(m, w, k - 1);
        } else {
          PivotsGiveRegular(m, w, k);
        }
      }
    }
  }

  // ---- In terms of B ----

  /** The leading `k` by `k` block of B is regular. */
  ghost predicate LeadingRegular(b: Mat, k: nat)
    requires IsMat(b, N) && k <= N
  {
    forall x :: IsVec(x) && Within(x, k) && Kills(b, N, k, x) ==> Zero(x)
  }

  lemma SameKernel(b: Mat, c: Mat, r: Vec, cw: nat, k: nat, v: Vec)
    requires IsMat(b, N) && IsMat(c, cw) && IsVec(r) && k <= N && |v| == N + cw + 1 && Within(v, k)
    ensures Kills(Augmented(b, c, r, cw), N + cw + 1, k, v) <==> Kills(b, N, k, v[..N])
  {
    hide Dot;
    var m := Augmented(b, c, r, cw);
    forall i | 0 <= i < k
      ensures Dot(m[i], v, N + cw + 1) == Dot(b[i], v[..N], N)
    {
      DotWithin(m[i], v, N, N + cw + 1);
      DotPrefix(m[i], v, b[i], v[..N], N);
    }
  }

  lemma LeadingBlock(b: Mat, c: Mat, r: Vec, cw: nat, k: nat)
    requires IsMat(b, N) && IsMat(c, cw) && IsVec(r) && k <= N
    ensures Regular(Augmented(b, c, r, cw), N + cw + 1, k) <==> LeadingRegular(b, k)
  {
    hide Kills, Augmented;
    var m, w := Augmented(b, c, r, cw), N + cw + 1;
    forall v: Vec | |v| == w && Within(v, k)
      ensures Kills(m, w, k, v) <==> Kills(b, N, k, v[..N])
      ensures Zero(v) <==> Zero(v[..N])
    {
      SameKernel(b, c, r, cw, k, v);
      assert forall j :: 0 <= j < N ==> v[..N][j] == v[j];
    }
    if Regular(m, w, k) {
      forall x | IsVec(x) && Within(x, k) && Kills(b, N, k, x)
        ensures Zero(x)
      {
        var v := x + seq(cw + 1, j => 0.0);
        assert v[..N] == x && Within(v, k);
      }
    }
  }

  /** The elimination of a block row divides by no zero if and only if all leading blocks of B are regular. */
  lemma NoZeroPivot(b: Mat, c: Mat, r: Vec, cw: nat)
    requires IsMat(b, N) && IsMat(c, cw) && IsVec(r)
    ensures Pivots(Augmented(b, c, r, cw), N + cw + 1) <==> forall k :: 1 <= k <= N ==> LeadingRegular(b, k)
  {
    hide Regular, LeadingRegular, PivotsBelow, Augmented;
    var m, w := Augmented(b, c, r, cw), N + cw + 1;
    PivotsIff(m, w, N);
    forall k | 1 <= k <= N
      ensures Regular(m, w, k) <==> LeadingRegular(b, k)
    {
      LeadingBlock(b, c, r, cw, k);
    }
    assert Pivots(m, w) <==> forall k :: 1 <= k <= N ==> Regular(m, w, k);
  }
}
