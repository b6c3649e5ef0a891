/**
 Which layers of which cells the ranks of a multipartition exchange, how many numbers that is, and why
 what one rank packs is what its neighbour unpacks. Faces: 0 east, 1 west, 2 north, 3 south, 4 top, 5 bottom.
 */
module FacePairs {
  import opened Numbers
  import opened Multipartition
  import opened FaceOrder

  /** The grid: `p * p` ranks, and `grid_points` with index 0 unused. */
  datatype Grid = Grid(p: nat, points: seq<int>)

  /** More than one rank, and no cell so thin that `make_set` aborts. */
  ghost predicate GridOk(g: Grid) {
    && g.p >= 2 && |g.points| == 4 && (forall d :: 1 <= d <= 3 ==> g.points[d] >= 0)
    && forall d, n :: 1 <= d <= 3 && 1 <= n <= g.p ==> SizeOf(g.points[d], g.p, n) > 2
  }

  ghost predicate IsRank(g: Grid, node: int) {
    GridOk(g) && 0 <= node < g.p * g.p
  }

  function Dir(f: int): int {
    if f < 2 then 1 else if f < 4 then 2 else 3
  }

  function High(f: int): bool {
    f == 0 || f == 2 || f == 4
  }

  function Opposite(f: int): int {
    if High(f) then f + 1 else f - 1
  }

  /** The plane of a cell in direction `d`. */
  function Plane(g: Grid, node: int, c: int, d: int): int
    requires g.p > 0
  {
    Along(CoordOf(node, g.p, c), d)
  }

  /** `cell_size(d,c)`. */
  function Size(g: Grid, node: int, c: int, d: int): nat
    requires g.p > 0 && |g.points| == 4 && 1 <= d <= 3
  {
    var s := SizeOf(g.points[d], g.p, Plane(g, node, c, d));
    if s < 0 then 0 else s
  }

  /** The cell has a neighbour across the face. */
  predicate Has(g: Grid, node: int, f: int, c: int)
    requires g.p > 0
  {
    Plane(g, node, c, Dir(f)) != (if High(f) then g.p else 1)
  }

  /** Element (`m`,`i`,`j`,`k`,`c`) of `u`, with `m` from 0. */
  datatype Index = Index(m: int, i: int, j: int, k: int, c: int)

  datatype Box = Box(i0: int, j0: int, k0: int, ni: nat, nj: nat, nk: nat, c: int)

  function Spot(b: Box, q: Point): Index {
    Index(q.m, b.i0 + q.i, b.j0 + q.j, b.k0 + q.k, b.c)
  }

  function Walk(b: Box): seq<Point> {
    Ks(b.ni, b.nj, b.nk)
  }

  ghost predicate InBox(b: Box, x: Index) {
    0 <= x.m < DIM && b.i0 <= x.i < b.i0 + b.ni && b.j0 <= x.j < b.j0 + b.nj && b.k0 <= x.k < b.k0 + b.nk && x.c == b.c
  }

  lemma WalkIsBox(b: Box, q: Point)
    ensures q in Walk(b) <==> InBox(b, Spot(b, q))
  {
    InKs(q, b.ni, b.nj, b.nk);
  }

  /** A layer across direction `Dir(f)`, two deep, starting at `at`. */
  function Layer(g: Grid, node: int, f: int, c: int, at: int): Box
    requires g.p > 0 && |g.points| == 4
  {
    var s1, s2, s3 := Size(g, node, c, 1), Size(g, node, c, 2), Size(g, node, c, 3);
    if Dir(f) == 1 then Box(at, 0, 0, 2, s2, s3, c)
    else if Dir(f) == 2 then Box(0, at, 0, s1, 2, s3, c)
    else Box(0, 0, at, s1, s2, 2, c)
  }

  /** What is packed at a face: the outermost two layers of the cell itself. */
  function Inner(g: Grid, node: int, f: int, c: int): Box
    requires g.p > 0 && |g.points| == 4
  {
    Layer(g, node, f, c, if High(f) then Size(g, node, c, Dir(f)) - 2 else 0)
  }

  /** What is unpacked at a face: the two layers outside the cell. */
  function Outer(g: Grid, node: int, f: int, c: int): Box
    requires g.p > 0 && |g.points| == 4
  {
    Layer(g, node, f, c, if High(f) then Size(g, node, c, Dir(f)) else -2)
  }

  // ---- How much ----

  /** Numbers packed (or unpacked) at a face by the cells up to `n`. */
  function FaceTotal(g: Grid, node: int, f: int, n: nat): nat
    requires g.p > 0 && |g.points| == 4
  {
    if n == 0 then 0
    else FaceTotal(g, node, f, n - 1) + (if Has(g, node, f, n) then |Walk(Inner(g, node, f, n))| else 0)
  }

  lemma {:induction false} FaceTotalMono(g: Grid, node: int, f: int, m: nat, n: nat)
    requires g.p > 0 && |g.points| == 4 && m <= n
    ensures FaceTotal(g, node, f, m) <= FaceTotal(g, node, f, n)
  {
    hide Walk, Inner, Has;
    if m < n { FaceTotalMono(g, node, f, m, n - 1); }
  }

  /** The product of the two other sizes, twice, times the number of components. */
  function FaceSize(g: Grid, node: int, dir: int, c: int): int
    requires g.p > 0 && |g.points| == 4
  {
    var s1, s2, s3 := Size(g, node, c, 1), Size(g, node, c, 2), Size(g, node, c, 3);
    (if dir == 1 then s2 * s3 else if dir == 2 then s1 * s3 else s1 * s2) * DIM * 2
  }

  lemma Reorder(a: nat, b: nat)
    ensures a * (b * (2 * DIM)) == b * a * DIM * 2
    ensures a * (2 * (b * DIM)) == b * a * DIM * 2
    ensures 2 * (a * (b * DIM)) == b * a * DIM * 2
  {
    assert a * (b * (2 * DIM)) == a * b * 10;
    assert b * a == a * b;
  }

  /** `compute_buffer_size` counts what the walk visits. */
  lemma FaceSizeIs(g: Grid, node: int, f: int, c: int)
    requires g.p > 0 && |g.points| == 4 && 0 <= f < 6
    ensures |Walk(Inner(g, node, f, c))| == |Walk(Outer(g, node, f, c))| == FaceSize(g, node, Dir(f), c)
  {
    hide Size;
    var b := Inner(g, node, f, c);
    KsLength(b.ni, b.nj, b.nk);
    var s1, s2, s3 := Size(g, node, c, 1), Size(g, node, c, 2), Size(g, node, c, 3);
    if Dir(f) == 1 {
      Reorder(s3, s2);
    } else if Dir(f) == 2 {
      Reorder(s3, s1);
    } else {
      Reorder(s2, s1);
    }
  }

  // ---- Who with ----

  function Neighbour(g: Grid, node: int, f: int): int
    requires g.p > 0
  {
    if High(f) then Successor(node, g.p, Dir(f)) else Predecessor(node, g.p, Dir(f))
  }

  /** The number that the neighbour gives to the cell on the other side. */
  function Across(c: int, f: int): int {
    Partner(c, Dir(f), if High(f) then 1 else -1)
  }

  /** In the horizontal directions the cells without an eastern neighbour face those without a western one. */
  lemma EndsMeet(g: Grid, node: int, f: int, c: int)
    requires IsRank(g, node) && 0 <= f < 6 && High(f) && Dir(f) != 3 && 1 <= c <= g.p
    ensures Has(g, node, f, c) <==> Has(g, Successor(node, g.p, Dir(f)), Opposite(f), c)
  {
    hide Successor, Plane, Rem, Quot;
    var p, dir := g.p, Dir(f);
    SuccessorParts(node, p, dir);
    HorizontalPlane(g, node, c);
    HorizontalPlane(g, Successor(node, p, dir), c);
    if dir == 1 {
      RankStep(Rem(node, p), c - 1, p);
      Division(Rem(node, p) + (c - 1), p);
    } else {
      RankStep(Quot(node, p), -(c - 1), p);
      Division(Quot(node, p) - (c - 1), p);
    }
  }

  lemma HorizontalPlane(g: Grid, node: int, c: int)
    requires g.p > 0
    ensures Plane(g, node, c, 1) == Rem(Rem(node, g.p) + (c - 1), g.p) + 1
    ensures Plane(g, node, c, 2) == Rem(Quot(node, g.p) - (c - 1), g.p) + 1
  {
    hide Rem, Quot;
  }

  /** The cell across a high face: one plane further in that direction, the same planes in the others. */
  lemma CellAcross(g: Grid, node: int, f: int, c: int)
    requires IsRank(g, node) && 0 <= f < 6 && High(f) && 1 <= c <= g.p && Has(g, node, f, c)
    ensures var s := Successor(node, g.p, Dir(f));
      && 0 <= s < g.p * g.p && 1 <= Across(c, f) <= g.p && Has(g, s, Opposite(f), Across(c, f))
      && forall d :: 1 <= d <= 3 ==>
        Plane(g, s, Across(c, f), d) == Plane(g, node, c, d) + (if d == Dir(f) then 1 else 0)
  {
    hide CoordOf, Successor;
    var p, dir := g.p, Dir(f);
    SuccessorParts(node, p, dir);
    CellHasOwner(node, p, c);
    SuccessorHasNext(node, p, dir, c);
    CellZ(node, p, c);
  }

  lemma CellZ(node: int, p: int, c: int)
    requires p > 0
    ensures CoordOf(node, p, c).z == c
  {
  }

  lemma SameWalk(a: Box, b: Box)
    requires a.ni == b.ni && a.nj == b.nj && a.nk == b.nk
    ensures Walk(a) == Walk(b)
  {
  }

  /** Neighbouring cells agree in the two other directions, so their layers have the same shape. */
  lemma SameShape(g: Grid, node: int, f: int, c: int)
    requires IsRank(g, node) && 0 <= f < 6 && High(f) && 1 <= c <= g.p && Has(g, node, f, c)
    ensures var s, o := Successor(node, g.p, Dir(f)), Opposite(f);
      && Walk(Inner(g, node, f, c)) == Walk(Outer(g, s, o, Across(c, f)))
      && Walk(Inner(g, s, o, Across(c, f))) == Walk(Outer(g, node, f, c))
  {
    hide Walk, Successor, SizeOf, Plane, Across;
    CellAcross(g, node, f, c);
    var s, o, c' := Successor(node, g.p, Dir(f)), Opposite(f), Across(c, f);
    assert forall d :: 1 <= d <= 3 && d != Dir(f) ==> Size(g, s, c', d) == Size(g, node, c, d);
    SameWalk(Inner(g, node, f, c), Outer(g, s, o, c'));
    SameWalk(Inner(g, s, o, c'), Outer(g, node, f, c));
  }

  /** Cell by cell the neighbour's amounts are the same, so equal cells lie at equal places of the messages. */
  lemma {:induction false} SameTotals(g: Grid, node: int, f: int, n: nat)
    requires IsRank(g, node) && 0 <= f < 6 && High(f)
    requires if Dir(f) == 3 then n < g.p else n <= g.p
    ensures var s, o := Successor(node, g.p, Dir(f)), Opposite(f);
      0 <= Across(n, f) && FaceTotal(g, s, o, Across(n, f)) == FaceTotal(g, node, f, n)
  {
    hide Walk, Successor, Has, Inner;
    var s, o := Successor(node, g.p, Dir(f)), Opposite(f);
    if n == 0 {
      FirstLayer(g, s, o);
    } else {
      SameTotals(g, node, f, n - 1);
      EqualStep(g, node, f, n);
    }
  }

  lemma FirstLayer(g: Grid, node: int, f: int)
    requires GridOk(g) && 0 <= f < 6 && !High(f)
    ensures Dir(f) == 3 ==> !Has(g, node, f, 1) && FaceTotal(g, node, f, 1) == 0
    ensures FaceTotal(g, node, f, 0) == 0
  {
    hide Walk;
    CellZ(node, g.p, 1);
    assert FaceTotal(g, node, f, 1) ==
      FaceTotal(g, node, f, 0) + (if Has(g, node, f, 1) then |Walk(Inner(g, node, f, 1))| else 0);
  }

  lemma EqualStep(g: Grid, node: int, f: int, c: int)
    requires IsRank(g, node) && 0 <= f < 6 && High(f) && 1 <= c
    requires if Dir(f) == 3 then c < g.p else c <= g.p
    ensures var s, o, c' := Successor(node, g.p, Dir(f)), Opposite(f), Across(c, f);
      && (Has(g, node, f, c) <==> Has(g, s, o, c'))
      && (Has(g, node, f, c) ==> |Walk(Inner(g, node, f, c))| == |Walk(Inner(g, s, o, c'))|)
  {
    hide Walk, Successor, Inner, Outer;
    if Dir(f) == 3 {
      CellZ(node, g.p, c);
    } else {
      EndsMeet(g, node, f, c);
    }
    if Has(g, node, f, c) {
      CellAcross(g, node, f, c);
      SameShape(g, node, f, c);
      FaceSizeIs(g, node, f, c);
    }
  }

  /** The whole messages are equally long: `b_size` of the receive is that of the matching send. */
  lemma SameMessage(g: Grid, node: int, f: int)
    requires IsRank(g, node) && 0 <= f < 6 && High(f)
    ensures FaceTotal(g, Successor(node, g.p, Dir(f)), Opposite(f), g.p) == FaceTotal(g, node, f, g.p)
  {
    hide Walk, Successor, Inner;
    if Dir(f) == 3 {
      SameTotals(g, node, f, g.p - 1);
      CellZ(node, g.p, g.p);
      assert !Has(g, node, f, g.p);
    } else {
      SameTotals(g, node, f, g.p);
    }
  }
}
