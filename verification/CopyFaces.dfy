/**
 `compute_buffer_size` and `copy_faces`: every rank packs six regions of one buffer, sends each to one
 neighbour, and unpacks six regions into the layers around its cells.
 */
module CopyFaces {
  import opened Multipartition
  import opened FaceOrder
  import opened FacePairs

  type Field = map<Index, real>

  /** The declared bounds of `u`, two layers around each cell. */
  ghost predicate InBounds(g: Grid, node: int, x: Index)
    requires g.p > 0 && |g.points| == 4
  {
    && 0 <= x.m < DIM && 1 <= x.c <= g.p && -2 <= x.i < Size(g, node, x.c, 1) + 2
    && -2 <= x.j < Size(g, node, x.c, 2) + 2 && -2 <= x.k < Size(g, node, x.c, 3) + 2
  }

  ghost predicate Declared(g: Grid, node: int, u: Field)
    requires g.p > 0 && |g.points| == 4
  {
    forall x :: InBounds(g, node, x) ==> x in u
  }

  /** A field with nothing in it yet. */
  function Blank(g: Grid, node: int): (u: Field)
    requires g.p > 0 && |g.points| == 4
    ensures Declared(g, node, u)
  {
    var elements := set m, c, i, j, k | 0 <= m < DIM && 1 <= c <= g.p && -2 <= i < Size(g, node, c, 1) + 2
      && -2 <= j < Size(g, node, c, 2) + 2 && -2 <= k < Size(g, node, c, 3) + 2 :: Index(m, i, j, k, c);
    assert forall x :: InBounds(g, node, x) ==> Index(x.m, x.i, x.j, x.k, x.c) in elements;
    map x | x in elements :: 0.0
  }

  /** A point of a cell itself. */
  ghost predicate Interior(g: Grid, node: int, x: Index)
    requires g.p > 0 && |g.points| == 4
  {
    && 0 <= x.m < DIM && 1 <= x.c <= g.p && 0 <= x.i < Size(g, node, x.c, 1)
    && 0 <= x.j < Size(g, node, x.c, 2) && 0 <= x.k < Size(g, node, x.c, 3)
  }

  /** Cells are at least three points wide. */
  lemma Wide(g: Grid, node: int, c: int)
    requires IsRank(g, node) && 1 <= c <= g.p
    ensures forall d :: 1 <= d <= 3 ==> Size(g, node, c, d) > 2
    ensures forall d :: 1 <= d <= 3 ==> 1 <= Plane(g, node, c, d) <= g.p
  {
    hide SizeOf, CoordOf;
    CellHasOwner(node, g.p, c);
  }

  lemma InnerIsInterior(g: Grid, node: int, f: int, c: int, x: Index)
    requires IsRank(g, node) && 0 <= f < 6 && 1 <= c <= g.p && InBox(Inner(g, node, f, c), x)
    ensures Interior(g, node, x)
  {
    hide Size, Plane;
    Wide(g, node, c);
  }

  lemma OuterInBounds(g: Grid, node: int, f: int, c: int, x: Index)
    requires IsRank(g, node) && 0 <= f < 6 && 1 <= c <= g.p && InBox(Outer(g, node, f, c), x)
    ensures InBounds(g, node, x) && !Interior(g, node, x)
  {
    hide Size;
  }

  /** The layers around the cells do not overlap. */
  lemma OutersApart(g: Grid, node: int, f: int, c: int, f': int, c': int, x: Index)
    requires IsRank(g, node) && 0 <= f < 6 && 0 <= f' < 6 && 1 <= c <= g.p && 1 <= c' <= g.p
    requires InBox(Outer(g, node, f, c), x) && InBox(Outer(g, node, f', c'), x)
    ensures f == f' && c == c'
  {
    hide Size;
  }

  // ---- Buffers ----

  /** The numbers `s` lie in `buf` from `start` on. */
  ghost predicate Holds(buf: seq<real>, start: nat, s: seq<real>) {
    start + |s| <= |buf| && forall t :: 0 <= t < |s| ==> s[t] == buf[start + t]
  }

  function Values(u: Field, b: Box, pts: seq<Point>): (s: seq<real>)
    requires forall q :: q in pts ==> Spot(b, q) in u
    ensures |s| == |pts|
  {
    seq(|pts|, t requires 0 <= t < |pts| && pts[t] in pts && Spot(b, pts[t]) in u => u[Spot(b, pts[t])])
  }

  /** What a rank has packed at a face after its cells up to `n`. */
  ghost function Sent(g: Grid, node: int, u: Field, f: int, n: nat): (s: seq<real>)
    requires IsRank(g, node) && Declared(g, node, u) && 0 <= f < 6 && n <= g.p
    ensures |s| == FaceTotal(g, node, f, n)
  {
    if n == 0 then []
    else Sent(g, node, u, f, n - 1) + (if Has(g, node, f, n) then Packed(g, node, u, f, n) else [])
  }

  ghost function Packed(g: Grid, node: int, u: Field, f: int, c: int): (s: seq<real>)
    requires IsRank(g, node) && Declared(g, node, u) && 0 <= f < 6 && 1 <= c <= g.p
    ensures |s| == |Walk(Inner(g, node, f, c))|
  {
    InnerDeclared(g, node, u, f, c);
    Values(u, Inner(g, node, f, c), Walk(Inner(g, node, f, c)))
  }

  lemma InnerDeclared(g: Grid, node: int, u: Field, f: int, c: int)
    requires IsRank(g, node) && Declared(g, node, u) && 0 <= f < 6 && 1 <= c <= g.p
    ensures forall q :: q in Walk(Inner(g, node, f, c)) ==> Spot(Inner(g, node, f, c), q) in u
  {
    hide Inner, Walk;
    var b := Inner(g, node, f, c);
    forall q | q in Walk(b)
      ensures Spot(b, q) in u
    {
      WalkIsBox(b, q);
      InnerIsInterior(g, node, f, c, Spot(b, q));
      assert InBounds(g, node, Spot(b, q));
    }
  }

  lemma OuterDeclared(g: Grid, node: int, u: Field, f: int, c: int)
    requires IsRank(g, node) && Declared(g, node, u) && 0 <= f < 6 && 1 <= c <= g.p
    ensures forall q :: q in Walk(Outer(g, node, f, c)) ==> Spot(Outer(g, node, f, c), q) in u
  {
    hide Outer, Walk;
    var b := Outer(g, node, f, c);
    forall q | q in Walk(b)
      ensures Spot(b, q) in u
    {
      WalkIsBox(b, q);
      OuterInBounds(g, node, f, c, Spot(b, q));
    }
  }

  /** A cell's part of a message, at the place where the amounts of the earlier cells put it. */
  lemma {:induction false} PartOfMessage(g: Grid, node: int, u: Field, f: int, c: int, n: nat)
    requires IsRank(g, node) && Declared(g, node, u) && 0 <= f < 6 && 1 <= c <= n <= g.p && Has(g, node, f, c)
    ensures Holds(Sent(g, node, u, f, n), FaceTotal(g, node, f, c - 1), Packed(g, node, u, f, c))
  {
    hide Has, Packed, FaceTotal;
    if c < n { PartOfMessage(g, node, u, f, c, n - 1); }
  }

  // ---- Packing one layer ----

  /** The buffer holds the values of the points visited so far, and nothing else of it changed. */
  ghost predicate PackedSoFar(buf: seq<real>, was: seq<real>, base: nat, u: Field, b: Box, pts: seq<Point>) {
    && |buf| == |was| && base + |pts| <= |buf| && (forall q :: q in pts ==> Spot(b, q) in u)
    && Holds(buf, base, Values(u, b, pts))
    && forall x :: 0 <= x < |buf| && (x < base || base + |pts| <= x) ==> buf[x] == was[x]
  }

  lemma PackNothing(buf: seq<real>, base: nat, u: Field, b: Box)
    requires base <= |buf|
    ensures PackedSoFar(buf, buf, base, u, b, [])
  {
  }

  lemma PackOne(buf: seq<real>, was: seq<real>, base: nat, u: Field, b: Box, pts: seq<Point>, q: Point)
    requires PackedSoFar(buf, was, base, u, b, pts) && base + |pts| < |buf| && Spot(b, q) in u
    ensures PackedSoFar(buf[base + |pts| := u[Spot(b, q)]], was, base, u, b, pts + [q])
  {
    var s, s' := Values(u, b, pts), Values(u, b, pts + [q]);
    var buf' := buf[base + |pts| := u[Spot(b, q)]];
    forall t | 0 <= t < |s'|
      ensures s'[t] == buf'[base + t]
    {
      if t < |s| { assert s'[t] == s[t]; }
    }
  }

  // ---- Unpacking one layer ----

  ghost predicate UnpackedSoFar(u: Field, was: Field, buf: seq<real>, base: nat, b: Box, pts: seq<Point>) {
    && base + |pts| <= |buf| && u.Keys == was.Keys && (forall q :: q in pts ==> Spot(b, q) in u)
    && Holds(buf, base, Values(u, b, pts))
    && forall x :: x in u && (forall q :: q in pts ==> Spot(b, q) != x) ==> u[x] == was[x]
  }

  lemma UnpackNothing(u: Field, buf: seq<real>, base: nat, b: Box)
    requires base <= |buf|
    ensures UnpackedSoFar(u, u, buf, base, b, [])
  {
  }

  lemma UnpackOne(u: Field, was: Field, buf: seq<real>, base: nat, b: Box, pts: seq<Point>, q: Point)
    requires UnpackedSoFar(u, was, buf, base, b, pts) && base + |pts| < |buf| && Spot(b, q) in u && q !in pts
    ensures UnpackedSoFar(u[Spot(b, q) := buf[base + |pts|]], was, buf, base, b, pts + [q])
  {
    var u' := u[Spot(b, q) := buf[base + |pts|]];
    assert u'.Keys == u.Keys;
    var s, s' := Values(u, b, pts), Values(u', b, pts + [q]);
    forall t | 0 <= t < |s'|
      ensures s'[t] == buf[base + t]
    {
      if t < |s| {
        assert pts[t] in pts && pts[t] != q;
        assert s[t] == buf[base + t];
      }
    }
    forall x | x in u' && (forall q' :: q' in pts + [q] ==> Spot(b, q') != x)
      ensures u'[x] == was[x]
    {
      assert q in pts + [q];
      assert forall q' :: q' in pts ==> q' in pts + [q];
    }
  }

  ghost function Around(g: Grid, node: int, u: Field, f: int, c: int): (s: seq<real>)
    requires IsRank(g, node) && Declared(g, node, u) && 0 <= f < 6 && 1 <= c <= g.p
    ensures |s| == |Walk(Outer(g, node, f, c))|
  {
    OuterDeclared(g, node, u, f, c);
    Values(u, Outer(g, node, f, c), Walk(Outer(g, node, f, c)))
  }

  /** One more layer packed: its region grows, ... */
  lemma RegionGrows(g: Grid, node: int, u: Field, f: int, c: int, buf: seq<real>, was: seq<real>, start: nat)
    requires IsRank(g, node) && Declared(g, node, u) && 0 <= f < 6 && 1 <= c <= g.p && Has(g, node, f, c)
    requires Holds(was, start, Sent(g, node, u, f, c - 1))
    requires PackedSoFar(buf, was, start + FaceTotal(g, node, f, c - 1), u, Inner(g, node, f, c),
      Walk(Inner(g, node, f, c)))
    ensures Holds(buf, start, Sent(g, node, u, f, c))
  {
    hide Has, Inner, Walk, FaceTotal, InBox, Declared;
    var s, t := Sent(g, node, u, f, c - 1), Packed(g, node, u, f, c);
    assert Sent(g, node, u, f, c) == s + t;
    assert Holds(buf, start + |s|, t);
    assert forall i :: 0 <= i < |s| ==> (s + t)[i] == s[i] == buf[start + i];
    assert forall i :: |s| <= i < |s + t| ==> (s + t)[i] == t[i - |s|];
  }

  /** ... and a region elsewhere stays. */
  lemma RegionStays(s: seq<real>, start: nat, buf: seq<real>, was: seq<real>, base: nat, u: Field, b: Box,
      pts: seq<Point>)
    requires Holds(was, start, s) && PackedSoFar(buf, was, base, u, b, pts)
    requires start + |s| <= base || base + |pts| <= start
    ensures Holds(buf, start, s)
  {
  }

  /** A layer around a cell survives unpacking another one. */
  lemma AroundStays(g: Grid, node: int, f: int, c: int, f': int, c': int, u: Field, was: Field, buf: seq<real>,
      base: nat)
    requires IsRank(g, node) && Declared(g, node, u) && Declared(g, node, was) && 0 <= f < 6 && 1 <= c <= g.p
    requires 0 <= f' < 6 && 1 <= c' <= g.p
    requires (f != f' || c != c') && UnpackedSoFar(u, was, buf, base, Outer(g, node, f, c), Walk(Outer(g, node, f, c)))
    ensures Around(g, node, u, f', c') == Around(g, node, was, f', c')
  {
    hide Outer, Walk, InBox, Declared;
    var b, b' := Outer(g, node, f, c), Outer(g, node, f', c');
    OuterDeclared(g, node, u, f', c');
    var pts := Walk(b');
    forall t | 0 <= t < |pts|
      ensures u[Spot(b', pts[t])] == was[Spot(b', pts[t])]
    {
      var x := Spot(b', pts[t]);
      assert pts[t] in pts;
      WalkIsBox(b', pts[t]);
      forall q | q in Walk(b)
        ensures Spot(b, q) != x
      {
        WalkIsBox(b, q);
        if Spot(b, q) == x { OutersApart(g, node, f, c, f', c', x); }
      }
    }
  }

  /** Elements that unpacking may change. */
  ghost predicate Touched(g: Grid, node: int, x: Index)
    requires IsRank(g, node)
  {
    exists f, c :: 0 <= f < 6 && 1 <= c <= g.p && Has(g, node, f, c) && InBox(Outer(g, node, f, c), x)
  }

  lemma OthersStay(g: Grid, node: int, f: int, c: int, u: Field, was: Field, buf: seq<real>, base: nat, x: Index)
    requires IsRank(g, node) && 0 <= f < 6 && 1 <= c <= g.p && Has(g, node, f, c) && x in was && !Touched(g, node, x)
    requires UnpackedSoFar(u, was, buf, base, Outer(g, node, f, c), Walk(Outer(g, node, f, c)))
    ensures x in u && u[x] == was[x]
  {
    hide Outer, Walk, InBox, Has;
    var b := Outer(g, node, f, c);
    forall q | q in Walk(b)
      ensures Spot(b, q) != x
    {
      WalkIsBox(b, q);
    }
  }

  // ---- One rank ----

  /** The six regions are as long as what is packed, and lie in the buffers side by side. */
  ghost predicate Laid(g: Grid, node: int, size: seq<int>, start: seq<int>, room: int)
    requires g.p > 0 && |g.points| == 4
  {
    && |size| == |start| == 6
    && (forall f :: 0 <= f < 6 ==> size[f] == FaceTotal(g, node, f, g.p) && 0 <= start[f] && start[f] + size[f] <= room)
    && forall f, f' :: 0 <= f < 6 && 0 <= f' < 6 && f != f' ==>
      start[f] + size[f] <= start[f'] || start[f'] + size[f'] <= start[f]
  }

  /** All six regions together. */
  function AllSizes(size: seq<int>): int
    requires |size| == 6
  {
    size[0] + size[1] + size[2] + size[3] + size[4] + size[5]
  }

  lemma SideBySide(g: Grid, node: int, size: seq<int>, start: seq<int>, room: int)
    requires g.p > 0 && |g.points| == 4 && |size| == |start| == 6
    requires forall f :: 0 <= f < 6 ==> size[f] == FaceTotal(g, node, f, g.p)
    requires start[1] == 0 && start[0] == start[1] + size[1] && start[3] == start[0] + size[0]
    requires start[2] == start[3] + size[3] && start[5] == start[2] + size[2] && start[4] == start[5] + size[5]
    ensures Laid(g, node, size, start, room) <==> AllSizes(size) <= room
  {
    hide FaceTotal;
    assert forall f :: 0 <= f < 6 ==> size[f] >= 0;
    assert forall f :: 0 <= f < 6 ==> 0 <= start[f] && start[f] + size[f] <= start[4] + size[4] == AllSizes(size);
  }

  /** A part of a buffer outside the positions that changed. */
  lemma StillHolds(was: seq<real>, buf: seq<real>, at: int, s: seq<real>, base: int, n: nat)
    requires |was| == |buf| && at >= 0 && Holds(was, at, s) && (at + |s| <= base || base + n <= at)
    requires forall i :: 0 <= i < |buf| && (i < base || base + n <= i) ==> buf[i] == was[i]
    ensures Holds(buf, at, s)
  {
  }

  class FaceRank {
    const g: Grid
    const node: int
    var u: Field
    const outBuffer: array<real>
    const inBuffer: array<real>
    /**
     `west_size` ... `bottom_size` and the starts, by face; the starts of sends and receives are the same six
     numbers.
     */
    const size: array<int>
    const start: array<int>

    /** A rank with the given field, and buffers of `room` numbers. */
    constructor (grid: Grid, rank: int, field: Field, room: nat)
      requires IsRank(grid, rank) && Declared(grid, rank, field)
      ensures Valid() && g == grid && node == rank && u == field
      ensures outBuffer.Length == inBuffer.Length == room && fresh(outBuffer) && fresh(inBuffer) && fresh(size)
      ensures fresh(start)
    {
      g, node, u := grid, rank, field;
      outBuffer, inBuffer := new real[room], new real[room];
      size, start := new int[6], new int[6];
    }

    ghost predicate Valid()
      reads `u
    {
      IsRank(g, node) && Declared(g, node, u) && size.Length == start.Length == 6 && size != start
        && outBuffer != inBuffer
    }

    ghost function Arrays(): set<object> {
      var buffers: set<object>, tables: set<object> := {outBuffer, inBuffer}, {size, start};
      buffers + tables
    }

    /** The regions are laid out in both buffers. */
    ghost predicate Ready()
      requires IsRank(g, node)
      reads size, start
    {
      Laid(g, node, size[..], start[..], outBuffer.Length) && inBuffer.Length == outBuffer.Length
    }

    /** Every region of the output buffer holds what its face sends. */
    ghost predicate AllPacked()
      requires Valid()
      reads `u, outBuffer, start
    {
      forall f :: 0 <= f < 6 ==> start[f] >= 0 && Holds(outBuffer[..], start[f], Sent(g, node, u, f, g.p))
    }

    /** Region `f` of the input buffer holds a message. */
    ghost predicate Arrived(f: int, message: seq<real>)
      requires start.Length == 6 && 0 <= f < 6
      reads inBuffer, start
    {
      start[f] >= 0 && Holds(inBuffer[..], start[f], message)
    }

    /** Both faces of one direction: sizes add up over the cells that have the neighbour. */
    method FaceSizes(high: int, low: int)
      requires IsRank(g, node) && size.Length == 6 && 0 <= high < 6 && 0 <= low < 6 && High(high)
      requires low == Opposite(high)
      modifies size
      ensures size[high] == FaceTotal(g, node, high, g.p) && size[low] == FaceTotal(g, node, low, g.p)
      ensures forall f :: 0 <= f < 6 && f != high && f != low ==> size[f] == old(size[f])
    {
      hide Has, Walk, Inner, Outer, FaceSize;
      size[low], size[high] := 0, 0;
      for c := 1 to g.p + 1
        invariant size[high] == FaceTotal(g, node, high, c - 1) && size[low] == FaceTotal(g, node, low, c - 1)
        invariant forall f :: 0 <= f < 6 && f != high && f != low ==> size[f] == old(size[f])
      {
        var faceSize := FaceSize(g, node, Dir(high), c);
        FaceSizeIs(g, node, high, c);
        FaceSizeIs(g, node, low, c);
        if Has(g, node, low, c) { size[low] := size[low] + faceSize; }
        if Has(g, node, high, c) { size[high] := size[high] + faceSize; }
      }
    }

    /** `compute_buffer_size`. */
    method ComputeBufferSize()
      requires IsRank(g, node) && size.Length == start.Length == 6 && size != start
      modifies size, start
      ensures Laid(g, node, size[..], start[..], AllSizes(size[..]))
      ensures Laid(g, node, size[..], start[..], outBuffer.Length) <==> AllSizes(size[..]) <= outBuffer.Length
    {
      hide FaceTotal, Laid;
      FaceSizes(0, 1);
      FaceSizes(2, 3);
      FaceSizes(4, 5);
      start[1] := 0;
      start[0] := start[1] + size[1];
      start[3] := start[0] + size[0];
      start[2] := start[3] + size[3];
      start[5] := start[2] + size[2];
      start[4] := start[5] + size[5];
      SideBySide(g, node, size[..], start[..], outBuffer.Length);
      SideBySide(g, node, size[..], start[..], AllSizes(size[..]));
    }

    /** One loop nest of the packing half, for cell `b.c`. */
    method PackBox(b: Box, at: nat, ptr: nat) returns (ptr': nat)
      requires (forall q :: q in Walk(b) ==> Spot(b, q) in u) && at + ptr + |Walk(b)| <= outBuffer.Length
      modifies outBuffer
      ensures ptr' == ptr + |Walk(b)|
      ensures PackedSoFar(outBuffer[..], old(outBuffer[..]), at + ptr, u, b, Walk(b))
    {
      hide PackedSoFar, Before, Ks;
      ghost var was := outBuffer[..];
      ptr' := ptr;
      PackNothing(was, at + ptr, u, b);
      FirstOfAll(b.ni, b.nj);
      for k := 0 to b.nk
        invariant ptr' == ptr + |Before(b.ni, b.nj, 0, 0, 0, k)|
        invariant PackedSoFar(outBuffer[..], was, at + ptr, u, b, Before(b.ni, b.nj, 0, 0, 0, k))
      {
        for j := 0 to b.nj
          invariant ptr' == ptr + |Before(b.ni, b.nj, 0, 0, j, k)|
          invariant PackedSoFar(outBuffer[..], was, at + ptr, u, b, Before(b.ni, b.nj, 0, 0, j, k))
        {
          for i := 0 to b.ni
            invariant ptr' == ptr + |Before(b.ni, b.nj, 0, i, j, k)|
            invariant PackedSoFar(outBuffer[..], was, at + ptr, u, b, Before(b.ni, b.nj, 0, i, j, k))
          {
            for m := 0 to DIM
              invariant ptr' == ptr + |Before(b.ni, b.nj, m, i, j, k)|
              invariant PackedSoFar(outBuffer[..], was, at + ptr, u, b, Before(b.ni, b.nj, m, i, j, k))
            {
              ghost var q, buf := Point(m, i, j, k), outBuffer[..];
              InKs(q, b.ni, b.nj, b.nk);
              BeforeFits(b.ni, b.nj, m, i, j, k, b.nk);
              PackOne(buf, was, at + ptr, u, b, Before(b.ni, b.nj, m, i, j, k), q);
              NextM(b.ni, b.nj, m, i, j, k);
              outBuffer[at + ptr'] := u[Index(m, b.i0 + i, b.j0 + j, b.k0 + k, b.c)];
              assert outBuffer[..] == buf[at + ptr' := u[Spot(b, q)]];
              ptr' := ptr' + 1;
            }
            NextI(b.ni, b.nj, i, j, k);
          }
          NextJ(b.ni, b.nj, j, k);
        }
        NextK(b.ni, b.nj, k);
      }
      LastOfAll(b.ni, b.nj, b.nk);
    }

    /** One loop nest of the unpacking half. */
    method UnpackBox(b: Box, at: nat, ptr: nat) returns (ptr': nat)
      requires (forall q :: q in Walk(b) ==> Spot(b, q) in u) && at + ptr + |Walk(b)| <= inBuffer.Length
      modifies `u
      ensures ptr' == ptr + |Walk(b)|
      ensures UnpackedSoFar(u, old(u), inBuffer[..], at + ptr, b, Walk(b))
    {
      hide UnpackedSoFar, Before, Ks;
      ghost var was, buf := u, inBuffer[..];
      ptr' := ptr;
      UnpackNothing(was, buf, at + ptr, b);
      FirstOfAll(b.ni, b.nj);
      for k := 0 to b.nk
        invariant ptr' == ptr + |Before(b.ni, b.nj, 0, 0, 0, k)|
        invariant UnpackedSoFar(u, was, buf, at + ptr, b, Before(b.ni, b.nj, 0, 0, 0, k))
      {
        for j := 0 to b.nj
          invariant ptr' == ptr + |Before(b.ni, b.nj, 0, 0, j, k)|
          invariant UnpackedSoFar(u, was, buf, at + ptr, b, Before(b.ni, b.nj, 0, 0, j, k))
        {
          for i := 0 to b.ni
            invariant ptr' == ptr + |Before(b.ni, b.nj, 0, i, j, k)|
            invariant UnpackedSoFar(u, was, buf, at + ptr, b, Before(b.ni, b.nj, 0, i, j, k))
          {
            for m := 0 to DIM
              invariant ptr' == ptr + |Before(b.ni, b.nj, m, i, j, k)|
              invariant UnpackedSoFar(u, was, buf, at + ptr, b, Before(b.ni, b.nj, m, i, j, k))
            {
              ghost var q := Point(m, i, j, k);
              InKs(q, b.ni, b.nj, b.nk);
              NotYet(b.ni, b.nj, m, i, j, k);
              BeforeFits(b.ni, b.nj, m, i, j, k, b.nk);
              SameDomain(u, was, buf, at + ptr, b, Before(b.ni, b.nj, m, i, j, k));
              UnpackOne(u, was, buf, at + ptr, b, Before(b.ni, b.nj, m, i, j, k), q);
              NextM(b.ni, b.nj, m, i, j, k);
              u := u[Index(m, b.i0 + i, b.j0 + j, b.k0 + k, b.c) := inBuffer[at + ptr']];
              ptr' := ptr' + 1;
            }
            NextI(b.ni, b.nj, i, j, k);
          }
          NextJ(b.ni, b.nj, j, k);
        }
        NextK(b.ni, b.nj, k);
      }
      LastOfAll(b.ni, b.nj, b.nk);
    }
  
    /** The packing half: six regions filled side by side, cell after cell. */
    method Pack()
      requires Valid() && Ready()
      modifies outBuffer
      ensures AllPacked()
    {
      hide Laid, Holds, Sent, Has, FaceTotal, Walk, Inner, Declared, PackedSoFar;
      var p: seq<nat> := [0, 0, 0, 0, 0, 0];
      ghost var starts, sizes := start[..], size[..];
      NothingSent(g, node, u, sizes, starts, outBuffer[..]);
      for c := 1 to g.p + 1
        invariant |p| == 6 && forall f :: 0 <= f < 6 ==> Sending(g, node, u, f, c - 1, starts, p[f], outBuffer[..])
      {
        for f := 0 to 6
          invariant |p| == 6 && forall f' :: 0 <= f' < 6 ==>
            Sending(g, node, u, f', if f' < f then c else c - 1, starts, p[f'], outBuffer[..])
        {
          ghost var was, before := outBuffer[..], p;
          assert Sending(g, node, u, f, c - 1, starts, p[f], was);
          if Has(g, node, f, c) {
            InnerDeclared(g, node, u, f, c);
            RoomLeft(g, node, f, c, sizes, starts, outBuffer.Length);
            var next := PackBox(Inner(g, node, f, c), start[f], p[f]);
            p := p[f := next];
            forall f' | 0 <= f' < 6
              ensures Sending(g, node, u, f', if f' <= f then c else c - 1, starts, p[f'], outBuffer[..])
            {
              assert Sending(g, node, u, f', if f' < f then c else c - 1, starts, before[f'], was);
              SendingStep(g, node, u, f, c, f', sizes, starts, before, outBuffer[..], was);
            }
          } else {
            NothingToSend(g, node, u, f, c, starts, p[f], outBuffer[..]);
          }
        }
      }
      forall f | 0 <= f < 6
        ensures start[f] >= 0 && Holds(outBuffer[..], start[f], Sent(g, node, u, f, g.p))
      {
        assert Sending(g, node, u, f, g.p, starts, p[f], outBuffer[..]);
      }
    }

    /** The unpacking half, in its own order of faces. */
    method Unpack()
      requires Valid() && Ready()
      modifies `u
      ensures Valid() && Elsewhere(g, node, u, old(u))
      ensures forall f :: 0 <= f < 6 ==>
        Unpacking(g, node, u, f, g.p, start[..], FaceTotal(g, node, f, g.p), inBuffer[..])
    {
      hide Laid, Holds, Has, FaceTotal, Walk, Outer, Declared, UnpackedSoFar, Unpacking, Elsewhere;
      var p: seq<nat> := [0, 0, 0, 0, 0, 0];
      ghost var starts, sizes, buf, was := start[..], size[..], inBuffer[..], u;
      NothingUnpacked(g, node, u, sizes, starts, buf);
      for c := 1 to g.p + 1
        invariant Declared(g, node, u) && Elsewhere(g, node, u, was)
        invariant |p| == 6 && forall f :: 0 <= f < 6 ==> Unpacking(g, node, u, f, c - 1, starts, p[f], buf)
      {
        for t := 0 to 6
          invariant Declared(g, node, u) && Elsewhere(g, node, u, was)
          invariant |p| == 6 && forall f :: 0 <= f < 6 ==>
            Unpacking(g, node, u, f, if Opposite(f) < t then c else c - 1, starts, p[f], buf)
        {
          var f := Opposite(t);
          ghost var u0, before := u, p;
          assert Unpacking(g, node, u, f, c - 1, starts, p[f], buf);
          if Has(g, node, f, c) {
            OuterDeclared(g, node, u, f, c);
            CounterIs(g, node, u, f, c - 1, starts, p[f], buf);
            RoomAround(g, node, f, c, sizes, starts, inBuffer.Length);
            var next := UnpackBox(Outer(g, node, f, c), start[f], p[f]);
            p := p[f := next];
            DeclaredStays(g, node, u, u0, buf, start[f] + before[f], Outer(g, node, f, c), Walk(Outer(g, node, f, c)));
            ElsewhereStep(g, node, f, c, u, u0, was, buf, start[f] + before[f]);
            forall f' | 0 <= f' < 6
              ensures Unpacking(g, node, u, f', if Opposite(f') <= t then c else c - 1, starts, p[f'], buf)
            {
              assert Unpacking(g, node, u0, f', if Opposite(f') < t then c else c - 1, starts, before[f'], buf);
              UnpackingStep(g, node, u, u0, f, c, f', if Opposite(f') < t then c else c - 1, starts, before, buf);
            }
          } else {
            NothingToUnpack(g, node, u, f, c, starts, p[f], buf);
          }
        }
      }
      forall f | 0 <= f < 6
        ensures Unpacking(g, node, u, f, g.p, starts, FaceTotal(g, node, f, g.p), buf)
      {
        assert Unpacking(g, node, u, f, g.p, starts, p[f], buf);
        CounterIs(g, node, u, f, g.p, starts, p[f], buf);
      }
    }

    /** What `mpi_isend` takes from the buffer for a face. */
    method SendFace(f: int) returns (message: seq<real>)
      requires Valid() && 0 <= f < 6 && Ready() && AllPacked()
      ensures message == Sent(g, node, u, f, g.p)
    {
      message := outBuffer[start[f]..start[f] + size[f]];
    }

    /** What `mpi_irecv` delivers into the buffer for a face; the other regions keep what they have. */
    method ReceiveFace(f: int, message: seq<real>)
      requires Valid() && 0 <= f < 6 && Ready() && |message| == FaceTotal(g, node, f, g.p)
      modifies inBuffer
      ensures Arrived(f, message)
      ensures forall f', s :: 0 <= f' < 6 && f' != f && |s| == FaceTotal(g, node, f', g.p) && old(Arrived(f', s)) ==>
        Arrived(f', s)
    {
      hide FaceTotal;
      var base := start[f];
      forall i | 0 <= i < |message| {
        inBuffer[base + i] := message[i];
      }
      assert inBuffer[..][base..base + |message|] == message;
      forall f', s | 0 <= f' < 6 && f' != f && |s| == FaceTotal(g, node, f', g.p) && old(Arrived(f', s))
        ensures Arrived(f', s)
      {
        StillHolds(old(inBuffer[..]), inBuffer[..], start[f'], s, base, |message|);
      }
    }
  }

  // ---- Unpacking, region by region ----

  /** The layers of the cells up to `n` hold what region `f` brought for them. */
  ghost predicate Unpacking(g: Grid, node: int, u: Field, f: int, n: nat, starts: seq<int>, ptr: nat, buf: seq<real>)
    requires IsRank(g, node) && Declared(g, node, u) && 0 <= f < 6 && n <= g.p && |starts| == 6
  {
    && ptr == FaceTotal(g, node, f, n) && starts[f] >= 0
    && forall c :: 1 <= c <= n && Has(g, node, f, c) ==>
      Holds(buf, starts[f] + FaceTotal(g, node, f, c - 1), Around(g, node, u, f, c))
  }

  /** Everything but the layers that have a neighbour is as it was. */
  ghost predicate Elsewhere(g: Grid, node: int, u: Field, was: Field)
    requires IsRank(g, node)
  {
    u.Keys == was.Keys && forall x :: x in u && !Touched(g, node, x) ==> u[x] == was[x]
  }

  lemma NothingUnpacked(g: Grid, node: int, u: Field, sizes: seq<int>, starts: seq<int>, buf: seq<real>)
    requires IsRank(g, node) && Declared(g, node, u) && Laid(g, node, sizes, starts, |buf|)
    ensures forall f :: 0 <= f < 6 ==> Unpacking(g, node, u, f, 0, starts, 0, buf)
    ensures Elsewhere(g, node, u, u)
  {
  }

  lemma NothingToUnpack(g: Grid, node: int, u: Field, f: int, c: nat, starts: seq<int>, ptr: nat, buf: seq<real>)
    requires IsRank(g, node) && Declared(g, node, u) && 0 <= f < 6 && 1 <= c <= g.p && |starts| == 6
    requires !Has(g, node, f, c)
    requires Unpacking(g, node, u, f, c - 1, starts, ptr, buf)
    ensures Unpacking(g, node, u, f, c, starts, ptr, buf)
  {
    hide Has, Walk, Inner, Holds, Around, Declared;
  }

  lemma CounterIs(g: Grid, node: int, u: Field, f: int, n: nat, starts: seq<int>, ptr: nat, buf: seq<real>)
    requires IsRank(g, node) && Declared(g, node, u) && 0 <= f < 6 && n <= g.p && |starts| == 6
    requires Unpacking(g, node, u, f, n, starts, ptr, buf)
    ensures ptr == FaceTotal(g, node, f, n)
  {
  }

  lemma RoomAround(g: Grid, node: int, f: int, c: nat, sizes: seq<int>, starts: seq<int>, room: int)
    requires IsRank(g, node) && 0 <= f < 6 && 1 <= c <= g.p && Laid(g, node, sizes, starts, room) && Has(g, node, f, c)
    ensures starts[f] >= 0 && starts[f] + FaceTotal(g, node, f, c - 1) + |Walk(Outer(g, node, f, c))| <= room
    ensures FaceTotal(g, node, f, c - 1) + |Walk(Outer(g, node, f, c))| == FaceTotal(g, node, f, c)
  {
    hide Has, Walk, Inner, Outer, FaceTotal;
    RoomLeft(g, node, f, c, sizes, starts, room);
    FaceSizeIs(g, node, f, c);
  }

  lemma DeclaredStays(g: Grid, node: int, u: Field, was: Field, buf: seq<real>, base: nat, b: Box, pts: seq<Point>)
    requires g.p > 0 && |g.points| == 4 && Declared(g, node, was) && UnpackedSoFar(u, was, buf, base, b, pts)
    ensures Declared(g, node, u)
  {
    hide InBounds;
  }

  lemma ElsewhereStep(g: Grid, node: int, f: int, c: int, u: Field, u0: Field, was: Field, buf: seq<real>, base: nat)
    requires IsRank(g, node) && 0 <= f < 6 && 1 <= c <= g.p && Has(g, node, f, c) && Elsewhere(g, node, u0, was)
    requires UnpackedSoFar(u, u0, buf, base, Outer(g, node, f, c), Walk(Outer(g, node, f, c)))
    ensures Elsewhere(g, node, u, was)
  {
    hide Touched, Has, Outer, Walk, UnpackedSoFar;
    SameDomain(u, u0, buf, base, Outer(g, node, f, c), Walk(Outer(g, node, f, c)));
    forall x | x in u && !Touched(g, node, x)
      ensures u[x] == was[x]
    {
      OthersStay(g, node, f, c, u, u0, buf, base, x);
    }
  }

  lemma UnpackingStep(g: Grid, node: int, u: Field, u0: Field, f: int, c: nat, f': int, n: nat, starts: seq<int>,
      p: seq<nat>, buf: seq<real>)
    requires IsRank(g, node) && Declared(g, node, u) && Declared(g, node, u0) && 0 <= f < 6 && 0 <= f' < 6
    requires 1 <= c <= g.p
    requires Has(g, node, f, c) && |p| == 6 && |starts| == 6 && starts[f] >= 0 && n <= c && (f' == f ==> n == c - 1)
    requires p[f] == FaceTotal(g, node, f, c - 1)
    requires FaceTotal(g, node, f, c - 1) + |Walk(Outer(g, node, f, c))| == FaceTotal(g, node, f, c)
    requires Unpacking(g, node, u0, f', n, starts, p[f'], buf)
    requires UnpackedSoFar(u, u0, buf, starts[f] + p[f], Outer(g, node, f, c), Walk(Outer(g, node, f, c)))
    ensures Unpacking(g, node, u, f', if f' == f then c else n, starts,
      if f' == f then p[f] + |Walk(Outer(g, node, f, c))| else p[f'], buf)
  {
    hide Has, Walk, Outer, FaceTotal, Holds, Declared, UnpackedSoFar, Around;
    forall c' | 1 <= c' <= n && Has(g, node, f', c')
      ensures Holds(buf, starts[f'] + FaceTotal(g, node, f', c' - 1), Around(g, node, u, f', c'))
    {
      AroundStays(g, node, f, c, f', c', u, u0, buf, starts[f] + p[f]);
    }
    AroundFilled(g, node, f, c, u, u0, buf, starts[f] + p[f]);
  }

  lemma AroundFilled(g: Grid, node: int, f: int, c: int, u: Field, was: Field, buf: seq<real>, base: nat)
    requires IsRank(g, node) && Declared(g, node, u) && 0 <= f < 6 && 1 <= c <= g.p
    requires UnpackedSoFar(u, was, buf, base, Outer(g, node, f, c), Walk(Outer(g, node, f, c)))
    ensures Holds(buf, base, Around(g, node, u, f, c))
  {
    hide Walk, Outer, Declared, Holds;
  }

  // ---- Packing, region by region ----

  /** Region `f` holds what the cells up to `n` send, and its counter says how much that is. */
  ghost predicate Sending(g: Grid, node: int, u: Field, f: int, n: nat, starts: seq<int>, ptr: nat, buf: seq<real>)
    requires IsRank(g, node) && Declared(g, node, u) && 0 <= f < 6 && n <= g.p && |starts| == 6
  {
    ptr == FaceTotal(g, node, f, n) && starts[f] >= 0 && Holds(buf, starts[f], Sent(g, node, u, f, n))
  }

  lemma NothingSent(g: Grid, node: int, u: Field, sizes: seq<int>, starts: seq<int>, buf: seq<real>)
    requires IsRank(g, node) && Declared(g, node, u) && Laid(g, node, sizes, starts, |buf|)
    ensures forall f :: 0 <= f < 6 ==> Sending(g, node, u, f, 0, starts, 0, buf)
  {
  }

  lemma NothingToSend(g: Grid, node: int, u: Field, f: int, c: nat, starts: seq<int>, ptr: nat, buf: seq<real>)
    requires IsRank(g, node) && Declared(g, node, u) && 0 <= f < 6 && 1 <= c <= g.p && |starts| == 6
    requires !Has(g, node, f, c)
    requires Sending(g, node, u, f, c - 1, starts, ptr, buf)
    ensures Sending(g, node, u, f, c, starts, ptr, buf)
  {
    hide Has, Walk, Inner, Holds, Packed, Declared;
    assert Sent(g, node, u, f, c) == Sent(g, node, u, f, c - 1);
  }

  lemma RoomLeft(g: Grid, node: int, f: int, c: nat, sizes: seq<int>, starts: seq<int>, room: int)
    requires IsRank(g, node) && 0 <= f < 6 && 1 <= c <= g.p && Laid(g, node, sizes, starts, room) && Has(g, node, f, c)
    ensures starts[f] >= 0 && starts[f] + FaceTotal(g, node, f, c - 1) + |Walk(Inner(g, node, f, c))| <= room
    ensures FaceTotal(g, node, f, c - 1) + |Walk(Inner(g, node, f, c))| == FaceTotal(g, node, f, c) <= sizes[f]
  {
    hide Has, Walk, Inner;
    FaceTotalMono(g, node, f, c, g.p);
    assert FaceTotal(g, node, f, c) == FaceTotal(g, node, f, c - 1) + |Walk(Inner(g, node, f, c))|;
  }

  lemma SendingStep(g: Grid, node: int, u: Field, f: int, c: nat, f': int, sizes: seq<int>, starts: seq<int>,
      p: seq<nat>, buf: seq<real>, was: seq<real>)
    requires IsRank(g, node) && Declared(g, node, u) && 0 <= f < 6 && 0 <= f' < 6 && 1 <= c <= g.p && Has(g, node, f, c)
    requires |p| == 6 && Laid(g, node, sizes, starts, |was|)
    requires Sending(g, node, u, f, c - 1, starts, p[f], was)
    requires Sending(g, node, u, f', if f' < f then c else c - 1, starts, p[f'], was)
    requires PackedSoFar(buf, was, starts[f] + p[f], u, Inner(g, node, f, c), Walk(Inner(g, node, f, c)))
    ensures Sending(g, node, u, f', if f' <= f then c else c - 1, starts,
      if f' == f then p[f] + |Walk(Inner(g, node, f, c))| else p[f'], buf)
  {
    hide Has, Walk, Inner, Sent, FaceTotal, PackedSoFar, Holds, Declared;
    RoomLeft(g, node, f, c, sizes, starts, |was|);
    if f' == f {
      RegionGrows(g, node, u, f, c, buf, was, starts[f]);
    } else {
      var n := if f' < f then c else c - 1;
      FaceTotalMono(g, node, f', n, g.p);
      RegionStays(Sent(g, node, u, f', n), starts[f'], buf, was, starts[f] + p[f], u, Inner(g, node, f, c),
        Walk(Inner(g, node, f, c)));
    }
  }

  lemma SameDomain(u: Field, was: Field, buf: seq<real>, base: nat, b: Box, pts: seq<Point>)
    requires UnpackedSoFar(u, was, buf, base, b, pts)
    ensures u.Keys == was.Keys
  {
  }
}
