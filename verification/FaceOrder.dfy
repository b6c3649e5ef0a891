/**
 The order in which `copy_faces.f` walks through a layer of a cell, to pack it or to unpack it:
 five components per point, `i` fastest, then `j`, then `k`.
 */
module FaceOrder {
  const DIM: nat := 5

  /** A component of a point, relative to the corner of a box. */
  datatype Point = Point(m: nat, i: nat, j: nat, k: nat)

  function Ms(n: nat, i: nat, j: nat, k: nat): seq<Point> {
    if n == 0 then [] else Ms(n - 1, i, j, k) + [Point(n - 1, i, j, k)]
  }

  function Is(n: nat, j: nat, k: nat): seq<Point> {
    if n == 0 then [] else Is(n - 1, j, k) + Ms(DIM, n - 1, j, k)
  }

  function Js(ni: nat, n: nat, k: nat): seq<Point> {
    if n == 0 then [] else Js(ni, n - 1, k) + Is(ni, n - 1, k)
  }

  /** All points of a box of `ni * nj * n`, in visiting order. */
  function Ks(ni: nat, nj: nat, n: nat): seq<Point> {
    if n == 0 then [] else Ks(ni, nj, n - 1) + Js(ni, nj, n - 1)
  }

  // ---- Lengths ----

  lemma {:induction false} MsLength(n: nat, i: nat, j: nat, k: nat)
    ensures |Ms(n, i, j, k)| == n
  {
    if n > 0 { MsLength(n - 1, i, j, k); }
  }

  lemma {:induction false} IsLength(n: nat, j: nat, k: nat)
    ensures |Is(n, j, k)| == n * DIM
  {
    if n > 0 {
      IsLength(n - 1, j, k);
      MsLength(DIM, n - 1, j, k);
    }
  }

  lemma {:induction false} JsLength(ni: nat, n: nat, k: nat)
    ensures |Js(ni, n, k)| == n * (ni * DIM)
  {
    if n > 0 {
      JsLength(ni, n - 1, k);
      IsLength(ni, n - 1, k);
      assert n * (ni * DIM) == (n - 1) * (ni * DIM) + ni * DIM;
    }
  }

  lemma {:induction false} KsLength(ni: nat, nj: nat, n: nat)
    ensures |Ks(ni, nj, n)| == n * (nj * (ni * DIM))
  {
    hide Js;
    if n > 0 {
      KsLength(ni, nj, n - 1);
      JsLength(ni, nj, n - 1);
      assert n * (nj * (ni * DIM)) == (n - 1) * (nj * (ni * DIM)) + nj * (ni * DIM);
    }
  }

  // ---- Every point is visited, and none before its turn ----

  lemma {:induction false} InMs(q: Point, n: nat, i: nat, j: nat, k: nat)
    ensures q in Ms(n, i, j, k) <==> q.m < n && q.i == i && q.j == j && q.k == k
  {
    if n > 0 { InMs(q, n - 1, i, j, k); }
  }

  lemma {:induction false} InIs(q: Point, n: nat, j: nat, k: nat)
    ensures q in Is(n, j, k) <==> q.m < DIM && q.i < n && q.j == j && q.k == k
  {
    hide Ms;
    if n > 0 {
      InIs(q, n - 1, j, k);
      InMs(q, DIM, n - 1, j, k);
    }
  }

  lemma {:induction false} InJs(q: Point, ni: nat, n: nat, k: nat)
    ensures q in Js(ni, n, k) <==> q.m < DIM && q.i < ni && q.j < n && q.k == k
  {
    hide Is;
    if n > 0 {
      InJs(q, ni, n - 1, k);
      InIs(q, ni, n - 1, k);
    }
  }

  /** The walk visits exactly the points of the box. */
  lemma {:induction false} InKs(q: Point, ni: nat, nj: nat, n: nat)
    ensures q in Ks(ni, nj, n) <==> q.m < DIM && q.i < ni && q.j < nj && q.k < n
  {
    hide Js;
    if n > 0 {
      InKs(q, ni, nj, n - 1);
      InJs(q, ni, nj, n - 1);
    }
  }

  /** What has been visited just before component `m` of point (`i`, `j`, `k`). */
  function Before(ni: nat, nj: nat, m: nat, i: nat, j: nat, k: nat): seq<Point> {
    Ks(ni, nj, k) + Js(ni, j, k) + Is(i, j, k) + Ms(m, i, j, k)
  }

  lemma NotYet(ni: nat, nj: nat, m: nat, i: nat, j: nat, k: nat)
    ensures Point(m, i, j, k) !in Before(ni, nj, m, i, j, k)
  {
    var q := Point(m, i, j, k);
    InKs(q, ni, nj, k);
    InJs(q, ni, j, k);
    InIs(q, i, j, k);
    InMs(q, m, i, j, k);
  }

  /** The walk in steps: next component, next point, next row, next plane. */
  lemma NextM(ni: nat, nj: nat, m: nat, i: nat, j: nat, k: nat)
    ensures Before(ni, nj, m + 1, i, j, k) == Before(ni, nj, m, i, j, k) + [Point(m, i, j, k)]
  {
  }

  lemma NextI(ni: nat, nj: nat, i: nat, j: nat, k: nat)
    ensures Before(ni, nj, DIM, i, j, k) == Before(ni, nj, 0, i + 1, j, k)
  {
  }

  lemma NextJ(ni: nat, nj: nat, j: nat, k: nat)
    ensures Before(ni, nj, 0, ni, j, k) == Before(ni, nj, 0, 0, j + 1, k)
  {
  }

  lemma NextK(ni: nat, nj: nat, k: nat)
    ensures Before(ni, nj, 0, 0, nj, k) == Before(ni, nj, 0, 0, 0, k + 1)
  {
  }

  lemma FirstOfAll(ni: nat, nj: nat)
    ensures Before(ni, nj, 0, 0, 0, 0) == []
  {
  }

  lemma LastOfAll(ni: nat, nj: nat, nk: nat)
    ensures Before(ni, nj, 0, 0, 0, nk) == Ks(ni, nj, nk)
  {
  }

  /** A digit below its base, and a rest below the digit's weight. */
  lemma DigitFits(d: nat, base: nat, weight: nat, rest: nat)
    requires d < base && rest < weight
    ensures d * weight + rest < base * weight
  {
    assert (d + 1) * weight <= base * weight;
  }

  lemma {:induction false} BeforeFits(ni: nat, nj: nat, m: nat, i: nat, j: nat, k: nat, nk: nat)
    requires m < DIM && i < ni && j < nj && k < nk
    ensures |Before(ni, nj, m, i, j, k)| < |Ks(ni, nj, nk)|
  {
    hide Ms, Is, Js, Ks;
    MsLength(m, i, j, k);
    IsLength(i, j, k);
    JsLength(ni, j, k);
    KsLength(ni, nj, k);
    KsLength(ni, nj, nk);
    DigitFits(i, ni, DIM, m);
    DigitFits(j, nj, ni * DIM, i * DIM + m);
    DigitFits(k, nk, nj * (ni * DIM), j * (ni * DIM) + (i * DIM + m));
  }

  // ---- The place of every point ----

  ghost predicate Distinct<T>(s: seq<T>) {
    forall i, j :: 0 <= i < j < |s| ==> s[i] != s[j]
  }

  lemma DistinctSum<T>(s: seq<T>, t: seq<T>)
    requires Distinct(s) && Distinct(t) && forall x :: x in s ==> x !in t
    ensures Distinct(s + t)
  {
    forall i, j | 0 <= i < j < |s + t|
      ensures (s + t)[i] != (s + t)[j]
    {
      if i < |s| <= j { assert s[i] in s && t[j - |s|] in t; }
    }
  }

  lemma {:induction false} MsDistinct(n: nat, i: nat, j: nat, k: nat)
    ensures Distinct(Ms(n, i, j, k))
  {
    if n > 0 {
      MsDistinct(n - 1, i, j, k);
      InMs(Point(n - 1, i, j, k), n - 1, i, j, k);
      DistinctSum(Ms(n - 1, i, j, k), [Point(n - 1, i, j, k)]);
    }
  }

  lemma {:induction false} IsDistinct(n: nat, j: nat, k: nat)
    ensures Distinct(Is(n, j, k))
  {
    hide Ms;
    if n > 0 {
      IsDistinct(n - 1, j, k);
      MsDistinct(DIM, n - 1, j, k);
      var s, t := Is(n - 1, j, k), Ms(DIM, n - 1, j, k);
      forall q | q in s
        ensures q !in t
      {
        InIs(q, n - 1, j, k);
        InMs(q, DIM, n - 1, j, k);
      }
      DistinctSum(s, t);
    }
  }

  lemma {:induction false} JsDistinct(ni: nat, n: nat, k: nat)
    ensures Distinct(Js(ni, n, k))
  {
    hide Is;
    if n > 0 {
      JsDistinct(ni, n - 1, k);
      IsDistinct(ni, n - 1, k);
      var s, t := Js(ni, n - 1, k), Is(ni, n - 1, k);
      forall q | q in s
        ensures q !in t
      {
        InJs(q, ni, n - 1, k);
        InIs(q, ni, n - 1, k);
      }
      DistinctSum(s, t);
    }
  }

  /** No point is visited twice. */
  lemma {:induction false} KsDistinct(ni: nat, nj: nat, n: nat)
    ensures Distinct(Ks(ni, nj, n))
  {
    hide Js;
    if n > 0 {
      KsDistinct(ni, nj, n - 1);
      JsDistinct(ni, nj, n - 1);
      var s, t := Ks(ni, nj, n - 1), Js(ni, nj, n - 1);
      forall q | q in s
        ensures q !in t
      {
        InKs(q, ni, nj, n - 1);
        InJs(q, ni, nj, n - 1);
      }
      DistinctSum(s, t);
    }
  }

  lemma {:induction false} MsAt(n: nat, i: nat, j: nat, k: nat, m: nat)
    requires m < n
    ensures m < |Ms(n, i, j, k)| && Ms(n, i, j, k)[m] == Point(m, i, j, k)
  {
    MsLength(n, i, j, k);
    MsLength(n - 1, i, j, k);
    if m < n - 1 { MsAt(n - 1, i, j, k, m); }
  }

  lemma {:induction false} IsAt(n: nat, j: nat, k: nat, m: nat, i: nat)
    requires m < DIM && i < n
    ensures |Is(i, j, k)| + m < |Is(n, j, k)| && Is(n, j, k)[|Is(i, j, k)| + m] == Point(m, i, j, k)
  {
    hide Ms;
    MsAt(DIM, n - 1, j, k, m);
    if i < n - 1 { IsAt(n - 1, j, k, m, i); }
  }

  lemma {:induction false} JsAt(ni: nat, n: nat, k: nat, m: nat, i: nat, j: nat)
    requires m < DIM && i < ni && j < n
    ensures var t := |Js(ni, j, k)| + |Is(i, j, k)| + m; t < |Js(ni, n, k)| && Js(ni, n, k)[t] == Point(m, i, j, k)
  {
    hide Is;
    IsAt(ni, n - 1, k, m, i);
    if j < n - 1 { JsAt(ni, n - 1, k, m, i, j); }
  }

  lemma {:induction false} KsAt(ni: nat, nj: nat, n: nat, m: nat, i: nat, j: nat, k: nat)
    requires m < DIM && i < ni && j < nj && k < n
    ensures var t := |Ks(ni, nj, k)| + |Js(ni, j, k)| + |Is(i, j, k)| + m;
      t < |Ks(ni, nj, n)| && Ks(ni, nj, n)[t] == Point(m, i, j, k)
  {
    hide Is, Js;
    JsAt(ni, nj, n - 1, m, i, j);
    if k < n - 1 { KsAt(ni, nj, n - 1, m, i, j, k); }
  }

  /** The layout of a message: `m` fastest, then `i`, `j` and `k`. */
  lemma PlaceOf(ni: nat, nj: nat, nk: nat, m: nat, i: nat, j: nat, k: nat)
    requires m < 5 && i < ni && j < nj && k < nk
    ensures var t := k * (nj * (ni * 5)) + j * (ni * 5) + i * 5 + m;
      0 <= t < |Ks(ni, nj, nk)| && Ks(ni, nj, nk)[t] == Point(m, i, j, k)
  {
    hide Is, Js, Ks;
    KsAt(ni, nj, nk, m, i, j, k);
    KsLength(ni, nj, k);
    JsLength(ni, j, k);
    IsLength(i, j, k);
  }
}
