/**
 `copy_faces` run by all ranks together: every layer around a cell ends with the values of the cell on
 the other side of the face, wherever in the machine that cell is.
 */
module HaloExchange {
  import opened Messages
  import opened Multipartition
  import opened FaceOrder
  import opened FacePairs
  import opened CopyFaces

  /** The two sides of a face: which cell of which rank, same shape, same place in the message, adjacent planes. */
  ghost predicate Facing(g: Grid, node: int, f: int, c: int, nb: int, c': int)
    requires IsRank(g, node) && c >= 1
  {
    && 0 <= nb < g.p * g.p && 1 <= c' <= g.p && Has(g, nb, Opposite(f), c')
    && Walk(Inner(g, nb, Opposite(f), c')) == Walk(Outer(g, node, f, c))
    && FaceTotal(g, nb, Opposite(f), c' - 1) == FaceTotal(g, node, f, c - 1)
    && forall d :: 1 <= d <= 3 ==>
      Plane(g, nb, c', d) == Plane(g, node, c, d) + (if d != Dir(f) then 0 else if High(f) then 1 else -1)
  }

  lemma FacingHigh(g: Grid, node: int, f: int, c: int)
    requires IsRank(g, node) && 0 <= f < 6 && High(f) && 1 <= c <= g.p && Has(g, node, f, c)
    ensures Facing(g, node, f, c, Neighbour(g, node, f), Across(c, f))
  {
    hide Walk, Inner, Outer, Has, FaceTotal, Plane, Successor;
    CellAcross(g, node, f, c);
    SameShape(g, node, f, c);
    if Dir(f) == 3 { TopCell(g, node, f, c); }
    SameTotals(g, node, f, c - 1);
    assert Across(c - 1, f) == Across(c, f) - 1;
  }

  lemma TopCell(g: Grid, node: int, f: int, c: int)
    requires IsRank(g, node) && 0 <= f < 6 && Dir(f) == 3
    ensures Has(g, node, f, c) <==> c != (if High(f) then g.p else 1)
  {
  }

  lemma FacingLow(g: Grid, node: int, f: int, c: int)
    requires IsRank(g, node) && 0 <= f < 6 && !High(f) && 1 <= c <= g.p && Has(g, node, f, c)
    ensures Facing(g, node, f, c, Neighbour(g, node, f), Across(c, f))
  {
    hide Walk, Inner, Outer, Has, FaceTotal, Plane, Successor, Predecessor;
    var q, h, c' := Predecessor(node, g.p, Dir(f)), Opposite(f), Across(c, f);
    SuccessorOfPredecessor(node, g.p, Dir(f));
    if Dir(f) == 3 {
      TopCell(g, node, f, c);
      TopCell(g, q, h, c');
    } else {
      EndsMeet(g, q, h, c);
    }
    CellAcross(g, q, h, c');
    SameShape(g, q, h, c');
    SameTotals(g, q, h, c' - 1);
    assert Across(c', h) == c && Across(c' - 1, h) == c - 1;
  }

  lemma FacingCells(g: Grid, node: int, f: int, c: int)
    requires IsRank(g, node) && 0 <= f < 6 && 1 <= c <= g.p && Has(g, node, f, c)
    ensures Facing(g, node, f, c, Neighbour(g, node, f), Across(c, f))
  {
    if High(f) { FacingHigh(g, node, f, c); } else { FacingLow(g, node, f, c); }
  }

  lemma NeighbourIsRank(g: Grid, node: int, f: int)
    requires IsRank(g, node) && 0 <= f < 6
    ensures IsRank(g, Neighbour(g, node, f))
    ensures FaceTotal(g, Neighbour(g, node, f), Opposite(f), g.p) == FaceTotal(g, node, f, g.p)
  {
    hide Successor, Predecessor, FaceTotal;
    if High(f) {
      SuccessorParts(node, g.p, Dir(f));
      SameMessage(g, node, f);
    } else {
      SuccessorOfPredecessor(node, g.p, Dir(f));
      SameMessage(g, Predecessor(node, g.p, Dir(f)), Opposite(f));
    }
  }

  // ---- What a layer ends with ----

  lemma HoldsTwice(buf: seq<real>, start: nat, s: seq<real>, at: nat, t: seq<real>)
    requires Holds(buf, start, s) && Holds(s, at, t)
    ensures Holds(buf, start + at, t)
  {
    assert forall i :: 0 <= i < |t| ==> t[i] == s[at + i] == buf[start + (at + i)];
  }

  lemma HoldsOne(buf: seq<real>, start: nat, s: seq<real>, t: seq<real>)
    requires Holds(buf, start, s) && Holds(buf, start, t) && |s| == |t|
    ensures s == t
  {
  }

  /** The message of the neighbour, unpacked: a layer equals the facing layer of the facing cell. */
  lemma LayerMatches(g: Grid, node: int, f: int, c: int, u: Field, w: Field, starts: seq<int>, buf: seq<real>)
    requires IsRank(g, node) && 0 <= f < 6 && 1 <= c <= g.p && Has(g, node, f, c) && Declared(g, node, u)
    requires |starts| == 6
    requires IsRank(g, Neighbour(g, node, f)) && Declared(g, Neighbour(g, node, f), w)
    requires Unpacking(g, node, u, f, g.p, starts, FaceTotal(g, node, f, g.p), buf)
    requires Holds(buf, starts[f], Sent(g, Neighbour(g, node, f), w, Opposite(f), g.p))
    ensures 1 <= Across(c, f) <= g.p
    ensures Around(g, node, u, f, c) == Packed(g, Neighbour(g, node, f), w, Opposite(f), Across(c, f))
  {
    hide Walk, Inner, Outer, Has, FaceTotal, Plane, Neighbour, Around, Packed, Sent, Declared, Holds, Across, Opposite;
    FacingCells(g, node, f, c);
    OppositeIsFace(f);
    var nb, o, c' := Neighbour(g, node, f), Opposite(f), Across(c, f);
    PartOfMessage(g, nb, w, o, c', g.p);
    HoldsTwice(buf, starts[f], Sent(g, nb, w, o, g.p), FaceTotal(g, nb, o, c' - 1), Packed(g, nb, w, o, c'));
    HoldsOne(buf, starts[f] + FaceTotal(g, node, f, c - 1), Around(g, node, u, f, c), Packed(g, nb, w, o, c'));
  }

  lemma OppositeIsFace(f: int)
    requires 0 <= f < 6
    ensures 0 <= Opposite(f) < 6 && Opposite(Opposite(f)) == f && Dir(Opposite(f)) == Dir(f)
  {
  }

  // ---- In coordinates of the whole grid ----

  /** Coordinate of an element in direction `d` of the whole grid. */
  function Global(g: Grid, node: int, x: Index, d: int): int
    requires g.p > 0 && |g.points| == 4 && 1 <= d <= 3
  {
    LowOf(g.points[d], g.p, Plane(g, node, x.c, d)) + (if d == 1 then x.i else if d == 2 then x.j else x.k)
  }

  /** A function of the grid point and the component. */
  type Solution = (int, int, int, int) -> real

  function At(g: Grid, node: int, x: Index, s: Solution): real
    requires g.p > 0 && |g.points| == 4
  {
    s(x.m, Global(g, node, x, 1), Global(g, node, x, 2), Global(g, node, x, 3))
  }

  /** The cells of a rank hold their part of `s`. */
  ghost predicate Samples(g: Grid, node: int, u: Field, s: Solution)
    requires g.p > 0 && |g.points| == 4
  {
    forall x :: Interior(g, node, x) ==> x in u && u[x] == At(g, node, x, s)
  }

  /** Where the high face of one plane and the low face of the next meet. */
  lemma PlanesTouch(g: Grid, d: int, n: int)
    requires GridOk(g) && 1 <= d <= 3 && 1 <= n < g.p
    ensures LowOf(g.points[d], g.p, n + 1) == LowOf(g.points[d], g.p, n) + SizeOf(g.points[d], g.p, n)
  {
    hide LowOf, SizeOf;
    IntervalsMeet(g.points[d], g.p, n);
  }

  /** A point outside a face and the point of the facing cell that is sent for it are the same point of the grid. */
  lemma SamePlace(g: Grid, node: int, f: int, c: int, q: Point)
    requires IsRank(g, node) && 0 <= f < 6 && 1 <= c <= g.p && Has(g, node, f, c)
    ensures var x, y :=
      Spot(Outer(g, node, f, c), q), Spot(Inner(g, Neighbour(g, node, f), Opposite(f), Across(c, f)), q);
      forall d :: 1 <= d <= 3 ==> Global(g, node, x, d) == Global(g, Neighbour(g, node, f), y, d)
  {
    hide LowOf, SizeOf, Walk, FaceTotal, CoordOf, Neighbour, Across, InGrid;
    FacingCells(g, node, f, c);
    var nb, c' := Neighbour(g, node, f), Across(c, f);
    Wide(g, node, c);
    Wide(g, nb, c');
    PlanesTouch(g, Dir(f), if High(f) then Plane(g, node, c, Dir(f)) else Plane(g, nb, c', Dir(f)));
  }

  lemma ValuesAt(u: Field, b: Box, w: Field, b': Box, q: Point)
    requires Walk(b) == Walk(b') && q in Walk(b)
    requires forall q' :: q' in Walk(b) ==> Spot(b, q') in u && Spot(b', q') in w
    requires Values(u, b, Walk(b)) == Values(w, b', Walk(b'))
    ensures u[Spot(b, q)] == w[Spot(b', q)]
  {
    var pts := Walk(b);
    var t :| 0 <= t < |pts| && pts[t] == q;
    assert Values(u, b, pts)[t] == Values(w, b', pts)[t];
  }

  /** Element by element, with both elements at the same point of the grid. */
  lemma LayerElement(g: Grid, node: int, f: int, c: int, u: Field, w: Field, q: Point)
    requires IsRank(g, node) && 0 <= f < 6 && 1 <= c <= g.p && Has(g, node, f, c) && Declared(g, node, u)
    requires 1 <= Across(c, f) <= g.p
    requires IsRank(g, Neighbour(g, node, f)) && Declared(g, Neighbour(g, node, f), w)
    requires q in Walk(Outer(g, node, f, c))
    requires Around(g, node, u, f, c) == Packed(g, Neighbour(g, node, f), w, Opposite(f), Across(c, f))
    ensures var nb := Neighbour(g, node, f);
      var y := Spot(Inner(g, nb, Opposite(f), Across(c, f)), q);
      Spot(Outer(g, node, f, c), q) in u && y in w && Interior(g, nb, y) && u[Spot(Outer(g, node, f, c), q)] == w[y]
  {
    hide Walk, Inner, Outer, Has, FaceTotal, Plane, Neighbour, Declared, Across, Opposite, Spot, InBox, Interior;
    FacingCells(g, node, f, c);
    OppositeIsFace(f);
    var nb, o, c' := Neighbour(g, node, f), Opposite(f), Across(c, f);
    OuterDeclared(g, node, u, f, c);
    InnerDeclared(g, nb, w, o, c');
    ValuesAt(u, Outer(g, node, f, c), w, Inner(g, nb, o, c'), q);
    WalkIsBox(Inner(g, nb, o, c'), q);
    InnerIsInterior(g, nb, o, c', Spot(Inner(g, nb, o, c'), q));
  }

  /** Every point of a box is visited. */
  lemma PointOf(b: Box, x: Index) returns (q: Point)
    requires InBox(b, x)
    ensures q in Walk(b) && Spot(b, q) == x
  {
    q := Point(x.m, x.i - b.i0, x.j - b.j0, x.k - b.k0);
    WalkIsBox(b, q);
  }

  /**
   After the exchange a rank has the right value of `s` not only in its cells but in every layer around
   them that lies inside the grid.
   */
  ghost predicate SamplesAround(g: Grid, node: int, u: Field, s: Solution)
    requires IsRank(g, node)
  {
    forall x :: Interior(g, node, x) || Touched(g, node, x) ==> x in u && u[x] == At(g, node, x, s)
  }

  /** A face of a rank and the fields on its two sides: what the exchange has established for it. */
  ghost predicate Exchanged(g: Grid, node: int, f: int, u: Field, w: Field)
    requires IsRank(g, node) && 0 <= f < 6 && Declared(g, node, u)
  {
    && IsRank(g, Neighbour(g, node, f)) && Declared(g, Neighbour(g, node, f), w)
    && forall c :: 1 <= c <= g.p && Has(g, node, f, c) ==>
      && 1 <= Across(c, f) <= g.p
      && Around(g, node, u, f, c) == Packed(g, Neighbour(g, node, f), w, Opposite(f), Across(c, f))
  }

  lemma TouchedSample(g: Grid, node: int, f: int, c: int, u: Field, w: Field, s: Solution, x: Index)
    requires IsRank(g, node) && 0 <= f < 6 && 1 <= c <= g.p && Has(g, node, f, c) && Declared(g, node, u)
    requires Exchanged(g, node, f, u, w) && Samples(g, Neighbour(g, node, f), w, s) && InBox(Outer(g, node, f, c), x)
    ensures x in u && u[x] == At(g, node, x, s)
  {
    hide Walk, Inner, Outer, Has, FaceTotal, Plane, Neighbour, Declared, Across, Opposite, InBox, Interior, Around,
      Packed, Global;
    var q := PointOf(Outer(g, node, f, c), x);
    LayerElement(g, node, f, c, u, w, q);
    SamePlace(g, node, f, c, q);
  }

  /**
   The meaning of the exchange: if the cells of all ranks hold one function of the grid, then afterwards
   the layers around every cell hold it too.
   */
  lemma HaloIsRight(g: Grid, node: int, u: Field, was: Field, ws: seq<Field>, s: Solution)
    requires IsRank(g, node) && Declared(g, node, u) && |ws| == 6 && Elsewhere(g, node, u, was)
    requires Samples(g, node, was, s)
    requires forall f :: 0 <= f < 6 ==> Exchanged(g, node, f, u, ws[f]) && Samples(g, Neighbour(g, node, f), ws[f], s)
    ensures SamplesAround(g, node, u, s)
  {
    hide Outer, Has, Neighbour, Declared, InBox, Interior, Exchanged, At;
    forall x | Interior(g, node, x) || Touched(g, node, x)
      ensures x in u && u[x] == At(g, node, x, s)
    {
      if Touched(g, node, x) {
        var f, c :| 0 <= f < 6 && 1 <= c <= g.p && Has(g, node, f, c) && InBox(Outer(g, node, f, c), x);
        TouchedSample(g, node, f, c, u, ws[f], s, x);
      }
    }
  }

  // ---- All ranks ----

  /** The ranks of one grid, in order, with storage of their own. */
  ghost predicate Machine(ranks: seq<FaceRank>, g: Grid)
    reads set r | 0 <= r < |ranks| :: ranks[r]
  {
    && GridOk(g) && |ranks| == g.p * g.p
    && (forall r :: 0 <= r < |ranks| ==> ranks[r].g == g && ranks[r].node == r && ranks[r].Valid())
    && forall r, r' :: 0 <= r < r' < |ranks| ==> ranks[r].Arrays() !! ranks[r'].Arrays()
  }

  /** The fields of all ranks at one moment. */
  ghost predicate Fields(us: seq<Field>, g: Grid) {
    GridOk(g) && |us| == g.p * g.p && forall r :: 0 <= r < |us| ==> Declared(g, r, us[r])
  }

  ghost predicate Holding(ranks: seq<FaceRank>, g: Grid, us: seq<Field>)
    reads set r | 0 <= r < |ranks| :: ranks[r]
  {
    Machine(ranks, g) && |us| == |ranks| && forall r :: 0 <= r < |ranks| ==> ranks[r].u == us[r]
  }

  // ---- Messages ----

  /** `EAST`, `WEST`, `NORTH`, `SOUTH`, `TOP` and `BOTTOM`, by the face that a message is packed at. */
  function SendTag(f: int): int {
    match f
    case 0 => 2000
    case 1 => 3000
    case 2 => 4000
    case 3 => 5000
    case 4 => 7000
    case _ => 6000
  }

  /** The tag that the receive for a face names. */
  function RecvTag(f: int): int {
    match f
    case 0 => 3000
    case 1 => 2000
    case 2 => 5000
    case 3 => 4000
    case 4 => 6000
    case _ => 7000
  }

  function SendEnvelope(g: Grid, r: int, f: int): Envelope
    requires g.p > 0
  {
    Envelope(r, Neighbour(g, r, f), SendTag(f))
  }

  function RecvEnvelope(g: Grid, r: int, f: int): Envelope
    requires g.p > 0
  {
    Envelope(Neighbour(g, r, f), r, RecvTag(f))
  }

  /** No two of the messages look alike, also where two neighbours are the same rank. */
  lemma EnvelopesDiffer(g: Grid, r: int, f: int, r': int, f': int)
    requires g.p > 0 && 0 <= f < 6 && 0 <= f' < 6 && SendEnvelope(g, r, f) == SendEnvelope(g, r', f')
    ensures r == r' && f == f'
  {
  }

  /** Each receive matches the message that its neighbour packed at the opposite face. */
  lemma EnvelopesMatch(g: Grid, r: int, f: int)
    requires IsRank(g, r) && 0 <= f < 6
    ensures RecvEnvelope(g, r, f) == SendEnvelope(g, Neighbour(g, r, f), Opposite(f))
  {
    hide Successor, Predecessor;
    if High(f) {
      PredecessorOfSuccessor(r, g.p, Dir(f));
    } else {
      SuccessorOfPredecessor(r, g.p, Dir(f));
    }
  }

  /** All messages of the ranks before `r`, and those of rank `r` before face `f`, are posted. */
  ghost predicate PostedBefore(mail: Mail, g: Grid, us: seq<Field>, r: int, f: int)
    requires Fields(us, g)
  {
    forall s, t :: 0 <= s < |us| && 0 <= t < 6 && (s < r || (s == r && t < f)) ==>
      SendEnvelope(g, s, t) in mail && mail[SendEnvelope(g, s, t)] == Sent(g, s, us[s], t, g.p)
  }

  lemma PostOne(mail: Mail, g: Grid, us: seq<Field>, r: int, f: int, message: seq<real>)
    requires Fields(us, g) && 0 <= r < |us| && 0 <= f < 6 && PostedBefore(mail, g, us, r, f)
    requires message == Sent(g, r, us[r], f, g.p)
    ensures PostedBefore(mail[SendEnvelope(g, r, f) := message], g, us, r, f + 1)
  {
    hide SendEnvelope, Sent, Declared, GridOk;
    var mail' := mail[SendEnvelope(g, r, f) := message];
    forall s, t | 0 <= s < |us| && 0 <= t < 6 && (s < r || (s == r && t < f + 1))
      ensures SendEnvelope(g, s, t) in mail' && mail'[SendEnvelope(g, s, t)] == Sent(g, s, us[s], t, g.p)
    {
      if SendEnvelope(g, s, t) == SendEnvelope(g, r, f) { EnvelopesDiffer(g, s, t, r, f); }
    }
  }

  lemma PostNone(mail: Mail, g: Grid, us: seq<Field>, r: int)
    requires Fields(us, g) && (r == 0 || PostedBefore(mail, g, us, r - 1, 6))
    ensures PostedBefore(mail, g, us, r, 0)
  {
    hide SendEnvelope, Sent, Declared, GridOk;
  }

  /** The message that rank `r` is due at a face. */
  ghost function Due(g: Grid, us: seq<Field>, r: int, f: int): (s: seq<real>)
    requires Fields(us, g) && 0 <= r < |us| && 0 <= f < 6
    ensures |s| == FaceTotal(g, r, f, g.p)
  {
    NeighbourIsRank(g, r, f);
    Sent(g, Neighbour(g, r, f), us[Neighbour(g, r, f)], Opposite(f), g.p)
  }

  lemma DueIsPosted(mail: Mail, g: Grid, us: seq<Field>, r: int, f: int)
    requires Fields(us, g) && 0 <= r < |us| && 0 <= f < 6 && PostedBefore(mail, g, us, |us|, 0)
    ensures RecvEnvelope(g, r, f) in mail && mail[RecvEnvelope(g, r, f)] == Due(g, us, r, f)
  {
    hide Neighbour, Opposite, Sent, SendEnvelope, RecvEnvelope;
    NeighbourIsRank(g, r, f);
    OppositeIsFace(f);
    EnvelopesMatch(g, r, f);
  }

  /** All ranks pack. */
  method PackAll(ranks: seq<FaceRank>, g: Grid)
    requires Machine(ranks, g) && forall r :: 0 <= r < |ranks| ==> ranks[r].Ready()
    modifies set r | 0 <= r < |ranks| :: ranks[r].outBuffer
    ensures forall r :: 0 <= r < |ranks| ==> ranks[r].Ready() && ranks[r].AllPacked()
  {
    hide FaceRank.AllPacked, Laid, IsRank, GridOk;
    for r := 0 to |ranks|
      invariant forall s :: 0 <= s < |ranks| ==> ranks[s].Ready()
      invariant forall s :: 0 <= s < r ==> ranks[s].AllPacked()
    {
      ranks[r].Pack();
    }
  }

  /** All ranks send their six messages. */
  method SendAll(ranks: seq<FaceRank>, g: Grid, ghost us: seq<Field>) returns (mail: Mail)
    requires Fields(us, g) && Holding(ranks, g, us)
    requires forall s :: 0 <= s < |ranks| ==> ranks[s].Ready() && ranks[s].AllPacked()
    ensures PostedBefore(mail, g, us, |us|, 0)
  {
    hide FaceRank.AllPacked, Laid, Sent, FaceTotal, Neighbour, PostedBefore, SendEnvelope;
    mail := map[];
    PostNone(mail, g, us, 0);
    for r := 0 to |ranks|
      invariant PostedBefore(mail, g, us, r, 0)
    {
      for f := 0 to 6
        invariant PostedBefore(mail, g, us, r, f)
      {
        var message := ranks[r].SendFace(f);
        PostOne(mail, g, us, r, f, message);
        mail := mail[SendEnvelope(g, r, f) := message];
      }
      PostNone(mail, g, us, r + 1);
    }
  }

  /** The transfers into one rank: each receive takes the message with its envelope. */
  method DeliverTo(ranks: seq<FaceRank>, g: Grid, r: nat, mail: Mail, ghost us: seq<Field>)
    requires Fields(us, g) && Holding(ranks, g, us) && r < |ranks| && ranks[r].Ready()
    requires PostedBefore(mail, g, us, |us|, 0)
    modifies ranks[r].inBuffer
    ensures forall f :: 0 <= f < 6 ==> ranks[r].Arrived(f, Due(g, us, r, f))
  {
    hide FaceRank.Arrived, Laid, Due, FaceTotal, Neighbour, PostedBefore, RecvEnvelope, GridOk;
    for f := 0 to 6
      invariant forall f' :: 0 <= f' < f ==> ranks[r].Arrived(f', Due(g, us, r, f'))
    {
      DueIsPosted(mail, g, us, r, f);
      label Before:
      ranks[r].ReceiveFace(f, mail[RecvEnvelope(g, r, f)]);
      forall f' | 0 <= f' < f
        ensures ranks[r].Arrived(f', Due(g, us, r, f'))
      {
        assert old@Before(ranks[r].Arrived(f', Due(g, us, r, f')));
      }
    }
  }

  method DeliverAll(ranks: seq<FaceRank>, g: Grid, mail: Mail, ghost us: seq<Field>)
    requires Fields(us, g) && Holding(ranks, g, us) && PostedBefore(mail, g, us, |us|, 0)
    requires forall r :: 0 <= r < |ranks| ==> ranks[r].Ready()
    modifies set r | 0 <= r < |ranks| :: ranks[r].inBuffer
    ensures forall r, f :: 0 <= r < |ranks| && 0 <= f < 6 ==> ranks[r].Arrived(f, Due(g, us, r, f))
    ensures forall r :: 0 <= r < |ranks| ==> ranks[r].Ready()
  {
    hide FaceRank.Arrived, Laid, Due, GridOk, IsRank, Declared, PostedBefore;
    for r := 0 to |ranks|
      invariant forall s :: 0 <= s < |ranks| ==> ranks[s].Ready()
      invariant forall s, f :: 0 <= s < r && 0 <= f < 6 ==> ranks[s].Arrived(f, Due(g, us, s, f))
    {
      DeliverTo(ranks, g, r, mail, us);
    }
  }

  ghost predicate NeighbourOk(g: Grid, r: int, f: int)
    requires g.p > 0
  {
    0 <= Neighbour(g, r, f) < g.p * g.p
  }

  lemma FaceExchanged(g: Grid, r: int, f: int, us: seq<Field>, u: Field, starts: seq<int>, buf: seq<real>)
    requires Fields(us, g) && 0 <= r < |us| && Declared(g, r, u) && 0 <= f < 6 && |starts| == 6 && starts[f] >= 0
    requires Unpacking(g, r, u, f, g.p, starts, FaceTotal(g, r, f, g.p), buf) && Holds(buf, starts[f], Due(g, us, r, f))
    ensures NeighbourOk(g, r, f) && Exchanged(g, r, f, u, us[Neighbour(g, r, f)])
  {
    hide Holds, Unpacking, Has, Sent, FaceTotal, Neighbour, Declared, Around, Packed, Across, Opposite;
    NeighbourIsRank(g, r, f);
    OppositeIsFace(f);
    forall c | 1 <= c <= g.p && Has(g, r, f, c)
      ensures 1 <= Across(c, f) <= g.p
      ensures Around(g, r, u, f, c) == Packed(g, Neighbour(g, r, f), us[Neighbour(g, r, f)], Opposite(f), Across(c, f))
    {
      LayerMatches(g, r, f, c, u, us[Neighbour(g, r, f)], starts, buf);
    }
  }

  method UnpackOneRank(rank: FaceRank, g: Grid, r: nat, ghost us: seq<Field>)
    requires Fields(us, g) && r < |us| && rank.g == g && rank.node == r && rank.Valid() && rank.u == us[r]
    requires rank.Ready()
    requires forall f :: 0 <= f < 6 ==> rank.Arrived(f, Due(g, us, r, f))
    modifies rank`u
    ensures rank.Valid() && RankDone(g, r, us, rank.u)
  {
    hide Laid, Due, GridOk, Declared, Unpacking, RankDone, Elsewhere, Holds, FaceTotal, Sent;
    rank.Unpack();
    ghost var starts, buf := rank.start[..], rank.inBuffer[..];
    forall f | 0 <= f < 6
      ensures starts[f] >= 0 && Holds(buf, starts[f], Due(g, us, r, f))
    {
      assert rank.Arrived(f, Due(g, us, r, f));
    }
    RankIsDone(g, r, us, rank.u, starts, buf);
  }

  method UnpackAll(ranks: seq<FaceRank>, g: Grid, ghost us: seq<Field>)
    requires Fields(us, g) && Holding(ranks, g, us)
    requires forall r :: 0 <= r < |ranks| ==> ranks[r].Ready()
    requires forall r, f :: 0 <= r < |ranks| && 0 <= f < 6 ==> ranks[r].Arrived(f, Due(g, us, r, f))
    modifies ranks
    ensures Machine(ranks, g)
    ensures forall r :: 0 <= r < |ranks| ==> RankDone(g, r, us, ranks[r].u)
  {
    hide Laid, Due, GridOk, Declared, RankDone, FaceRank.Arrived;
    for r := 0 to |ranks|
      invariant Machine(ranks, g)
      invariant forall s :: r <= s < |ranks| ==> ranks[s].u == us[s]
      invariant forall s :: 0 <= s < r ==> RankDone(g, s, us, ranks[s].u)
    {
      UnpackOneRank(ranks[r], g, r, us);
    }
  }

  ghost predicate RankDone(g: Grid, r: int, us: seq<Field>, u: Field)
    requires Fields(us, g) && 0 <= r < |us|
  {
    && Declared(g, r, u) && Elsewhere(g, r, u, us[r])
    && forall f :: 0 <= f < 6 ==> NeighbourOk(g, r, f) && Exchanged(g, r, f, u, us[Neighbour(g, r, f)])
  }

  lemma RankIsDone(g: Grid, r: int, us: seq<Field>, u: Field, starts: seq<int>, buf: seq<real>)
    requires Fields(us, g) && 0 <= r < |us| && Declared(g, r, u) && |starts| == 6 && Elsewhere(g, r, u, us[r])
    requires forall f :: 0 <= f < 6 ==> Unpacking(g, r, u, f, g.p, starts, FaceTotal(g, r, f, g.p), buf)
    requires forall f :: 0 <= f < 6 ==> starts[f] >= 0 && Holds(buf, starts[f], Due(g, us, r, f))
    ensures RankDone(g, r, us, u)
  {
    hide Unpacking, Due, Holds, Exchanged, Neighbour, Declared;
    forall f | 0 <= f < 6
      ensures NeighbourOk(g, r, f) && Exchanged(g, r, f, u, us[Neighbour(g, r, f)])
    {
      FaceExchanged(g, r, f, us, u, starts, buf);
    }
  }

  // ---- The layers in plain coordinates ----

  function Coordinate(x: Index, d: int): int {
    if d == 1 then x.i else if d == 2 then x.j else x.k
  }

  /** The plane of the element's cell in direction `d`, and the points of that cell from its first. */
  function PlaneAt(g: Grid, node: int, x: Index, d: int): int
    requires g.p > 0
  {
    Along(CoordOf(node, g.p, x.c), d)
  }

  ghost predicate Inside(g: Grid, node: int, x: Index, d: int)
    requires g.p > 0 && |g.points| == 4 && 1 <= d <= 3
  {
    0 <= Coordinate(x, d) < SizeOf(g.points[d], g.p, PlaneAt(g, node, x, d))
  }

  /** One or two points outside the cell, but inside the grid. */
  ghost predicate JustOutside(g: Grid, node: int, x: Index, d: int)
    requires g.p > 0 && |g.points| == 4 && 1 <= d <= 3
  {
    var size, at := SizeOf(g.points[d], g.p, PlaneAt(g, node, x, d)), Coordinate(x, d);
    && (at == -2 || at == -1 || at == size || at == size + 1)
    && 0 <= LowOf(g.points[d], g.p, PlaneAt(g, node, x, d)) + at < g.points[d]
  }

  ghost predicate CellPoint(g: Grid, node: int, x: Index)
    requires g.p > 0 && |g.points| == 4
  {
    0 <= x.m < 5 && 1 <= x.c <= g.p && forall d :: 1 <= d <= 3 ==> Inside(g, node, x, d)
  }

  /** An element just outside its cell in exactly one direction. */
  ghost predicate HaloPoint(g: Grid, node: int, x: Index)
    requires g.p > 0 && |g.points| == 4
  {
    && 0 <= x.m < 5 && 1 <= x.c <= g.p
    && exists d :: 1 <= d <= 3 && JustOutside(g, node, x, d) && InsideOthers(g, node, x, d)
  }

  ghost predicate InsideOthers(g: Grid, node: int, x: Index, d: int)
    requires g.p > 0 && |g.points| == 4
  {
    forall d' :: 1 <= d' <= 3 && d' != d ==> Inside(g, node, x, d')
  }

  /** The value of `s` where the element lies in the grid. */
  function ValueAt(g: Grid, node: int, x: Index, s: Solution): real
    requires g.p > 0 && |g.points| == 4
  {
    s(x.m, LowOf(g.points[1], g.p, PlaneAt(g, node, x, 1)) + x.i, LowOf(g.points[2], g.p, PlaneAt(g, node, x, 2)) + x.j,
      LowOf(g.points[3], g.p, PlaneAt(g, node, x, 3)) + x.k)
  }

  /** Where the intervals lie: only the first begins the grid and only the last ends it. */
  lemma PlaneWithin(g: Grid, d: int, n: int)
    requires GridOk(g) && 1 <= d <= 3 && 1 <= n <= g.p
    ensures var low, size := LowOf(g.points[d], g.p, n), SizeOf(g.points[d], g.p, n);
      && size > 2 && (if n == 1 then low == 0 else low > 2)
      && (if n == g.p then low + size == g.points[d] else low + size + 2 < g.points[d])
  {
    hide LowOf, SizeOf;
    IntervalsMeet(g.points[d], g.p, n);
    IntervalsMeet(g.points[d], g.p, 1);
    IntervalsMeet(g.points[d], g.p, g.p);
    if n > 1 { IntervalsAscend(g.points[d], g.p, 1, n); }
    if n < g.p { IntervalsAscend(g.points[d], g.p, n, g.p); }
  }

  lemma InsideIs(g: Grid, node: int, x: Index)
    requires IsRank(g, node) && 1 <= x.c <= g.p
    ensures forall d :: 1 <= d <= 3 ==>
      var n := PlaneAt(g, node, x, d);
      && 1 <= n <= g.p && n == Plane(g, node, x.c, d)
      && Size(g, node, x.c, d) == SizeOf(g.points[d], g.p, n) > 2
  {
    hide CoordOf, SizeOf;
    Wide(g, node, x.c);
    forall d | 1 <= d <= 3
      ensures var n := PlaneAt(g, node, x, d);
        && 1 <= n <= g.p && n == Plane(g, node, x.c, d)
        && Size(g, node, x.c, d) == SizeOf(g.points[d], g.p, n) > 2
    {
      assert Size(g, node, x.c, d) > 2 && 1 <= Plane(g, node, x.c, d) <= g.p;
    }
  }

  lemma CellPointIs(g: Grid, node: int, x: Index)
    requires IsRank(g, node)
    ensures CellPoint(g, node, x) <==> Interior(g, node, x)
  {
    hide CoordOf, SizeOf, PlaneAt, Size, Plane;
    if 1 <= x.c <= g.p {
      InsideIs(g, node, x);
      assert Inside(g, node, x, 1) <==> 0 <= x.i < Size(g, node, x.c, 1);
      assert Inside(g, node, x, 2) <==> 0 <= x.j < Size(g, node, x.c, 2);
      assert Inside(g, node, x, 3) <==> 0 <= x.k < Size(g, node, x.c, 3);
    }
  }

  lemma OuterIsHalo(g: Grid, node: int, x: Index, f: int)
    requires IsRank(g, node) && 0 <= f < 6 && 1 <= x.c <= g.p && 0 <= x.m < 5
    ensures Has(g, node, f, x.c) && InBox(Outer(g, node, f, x.c), x) <==>
      && JustOutside(g, node, x, Dir(f)) && High(f) == (Coordinate(x, Dir(f)) > 0)
      && InsideOthers(g, node, x, Dir(f))
  {
    hide CoordOf, SizeOf, LowOf, PlaneAt, Size, Plane;
    InsideIs(g, node, x);
    PlaneWithin(g, 1, PlaneAt(g, node, x, 1));
    PlaneWithin(g, 2, PlaneAt(g, node, x, 2));
    PlaneWithin(g, 3, PlaneAt(g, node, x, 3));
    assert Inside(g, node, x, 1) <==> 0 <= x.i < Size(g, node, x.c, 1);
    assert Inside(g, node, x, 2) <==> 0 <= x.j < Size(g, node, x.c, 2);
    assert Inside(g, node, x, 3) <==> 0 <= x.k < Size(g, node, x.c, 3);
  }

  /** What the exchange writes is exactly what lies just outside the cells. */
  lemma TouchedIsHalo(g: Grid, node: int, x: Index)
    requires IsRank(g, node)
    ensures Touched(g, node, x) <==> HaloPoint(g, node, x)
  {
    hide Has, Outer, InsideOthers, JustOutside;
    if 1 <= x.c <= g.p && 0 <= x.m < 5 {
      forall f | 0 <= f < 6
        ensures Has(g, node, f, x.c) && InBox(Outer(g, node, f, x.c), x) ==> HaloPoint(g, node, x)
      {
        OuterIsHalo(g, node, x, f);
      }
    }
    if HaloPoint(g, node, x) {
      var d :| 1 <= d <= 3 && JustOutside(g, node, x, d) && InsideOthers(g, node, x, d);
      var f := if Coordinate(x, d) > 0 then 2 * d - 2 else 2 * d - 1;
      OuterIsHalo(g, node, x, f);
    }
    if Touched(g, node, x) { TouchedCell(g, node, x); }
  }

  lemma TouchedCell(g: Grid, node: int, x: Index)
    requires IsRank(g, node) && Touched(g, node, x)
    ensures 1 <= x.c <= g.p && 0 <= x.m < 5
    ensures exists f :: 0 <= f < 6 && Has(g, node, f, x.c) && InBox(Outer(g, node, f, x.c), x)
  {
    hide Has, Size;
  }

  /** And so, if the cells of all ranks hold one function of the grid, all layers around them do too. */
  lemma AllLayersRight(g: Grid, r: int, us: seq<Field>, u: Field, s: Solution)
    requires Fields(us, g) && 0 <= r < |us| && RankDone(g, r, us, u)
    requires forall r' :: 0 <= r' < |us| ==> Samples(g, r', us[r'], s)
    ensures SamplesAround(g, r, u, s)
  {
    hide Samples, Exchanged, Neighbour, Declared, Elsewhere;
    var ws := seq(6, f requires 0 <= f < 6 && NeighbourOk(g, r, f) && |us| == g.p * g.p => us[Neighbour(g, r, f)]);
    HaloIsRight(g, r, u, us[r], ws, s);
  }

  // ---- How long the regions are ----

  /** The elements just outside the cells up to `n` at a face, in the order of unpacking. */
  ghost function Region(g: Grid, node: int, f: int, n: nat): seq<Index>
    requires g.p > 0 && |g.points| == 4
  {
    if n == 0 then []
    else Region(g, node, f, n - 1) + (if Has(g, node, f, n) then Spots(Outer(g, node, f, n)) else [])
  }

  ghost function Spots(b: Box): (s: seq<Index>)
    ensures |s| == |Walk(b)|
  {
    seq(|Walk(b)|, t requires 0 <= t < |Walk(b)| => Spot(b, Walk(b)[t]))
  }

  lemma SpotsAreBox(b: Box)
    ensures Distinct(Spots(b)) && forall x :: x in Spots(b) <==> InBox(b, x)
  {
    hide Walk;
    assert Distinct(Walk(b)) by { WalkDistinct(b); }
    forall x
      ensures x in Spots(b) <==> InBox(b, x)
    {
      if x in Spots(b) {
        var t :| 0 <= t < |Spots(b)| && Spots(b)[t] == x;
        assert Walk(b)[t] in Walk(b);
        WalkIsBox(b, Walk(b)[t]);
      }
      if InBox(b, x) {
        var q := PointOf(b, x);
        var t :| 0 <= t < |Walk(b)| && Walk(b)[t] == q;
        assert Spots(b)[t] == x;
      }
    }
  }

  lemma WalkDistinct(b: Box)
    ensures Distinct(Walk(b))
  {
    KsDistinct(b.ni, b.nj, b.nk);
  }

  lemma {:induction false} RegionIs(g: Grid, node: int, f: int, n: nat)
    requires IsRank(g, node) && 0 <= f < 6
    ensures |Region(g, node, f, n)| == FaceTotal(g, node, f, n) && Distinct(Region(g, node, f, n))
    ensures forall x :: x in Region(g, node, f, n) <==>
      1 <= x.c <= n && Has(g, node, f, x.c) && InBox(Outer(g, node, f, x.c), x)
  {
    hide Has, Outer, Inner, Walk, Spots;
    if n > 0 {
      RegionIs(g, node, f, n - 1);
      FaceSizeIs(g, node, f, n);
      SpotsAreBox(Outer(g, node, f, n));
      forall x | InBox(Outer(g, node, f, n), x)
        ensures x.c == n
      {
        OuterCell(g, node, f, n, x);
      }
      if Has(g, node, f, n) { DistinctSum(Region(g, node, f, n - 1), Spots(Outer(g, node, f, n))); }
    }
  }

  lemma OuterCell(g: Grid, node: int, f: int, c: int, x: Index)
    requires g.p > 0 && |g.points| == 4 && InBox(Outer(g, node, f, c), x)
    ensures x.c == c && 0 <= x.m < 5
  {
    hide Size;
  }

  /** Across face `f`, and for a cell of the rank. */
  ghost predicate FacePoint(g: Grid, node: int, f: int, x: Index)
    requires g.p > 0 && |g.points| == 4
  {
    && 0 <= x.m < 5 && 1 <= x.c <= g.p && JustOutside(g, node, x, Dir(f)) && InsideOthers(g, node, x, Dir(f))
    && High(f) == (Coordinate(x, Dir(f)) > 0)
  }

  /** A region of the buffer has one place for each element just outside the cells at its face. */
  lemma RegionHolds(g: Grid, node: int, size: seq<int>, start: seq<int>, room: int, f: int) returns (xs: seq<Index>)
    requires IsRank(g, node) && Laid(g, node, size, start, room) && 0 <= f < 6
    ensures |xs| == size[f] && Distinct(xs) && forall x :: x in xs <==> FacePoint(g, node, f, x)
  {
    hide FaceTotal, Has, Outer, Region, JustOutside, InsideOthers;
    xs := Region(g, node, f, g.p);
    RegionIs(g, node, f, g.p);
    forall x
      ensures x in xs <==> FacePoint(g, node, f, x)
    {
      if 1 <= x.c <= g.p {
        if InBox(Outer(g, node, f, x.c), x) { OuterCell(g, node, f, x.c, x); }
        if 0 <= x.m < 5 { OuterIsHalo(g, node, x, f); }
      }
    }
  }

  // ---- The exchange in plain coordinates ----

  /** The cells hold `s`, each element at its place in the grid. */
  ghost predicate CellsHold(g: Grid, node: int, u: Field, s: Solution)
    requires g.p > 0 && |g.points| == 4
  {
    forall x :: CellPoint(g, node, x) ==> x in u && u[x] == ValueAt(g, node, x, s)
  }

  ghost predicate AllHold(g: Grid, us: seq<Field>, s: Solution)
    requires g.p > 0 && |g.points| == 4
  {
    forall r :: 0 <= r < |us| ==> CellsHold(g, r, us[r], s)
  }

  lemma FieldsFit(g: Grid, us: seq<Field>)
    requires Fields(us, g)
    ensures |us| == g.p * g.p && GridOk(g) && g.p > 0 && |g.points| == 4
  {
  }

  /** So do all elements within two points of a cell in one direction, as far as the grid goes. */
  ghost predicate HaloHolds(g: Grid, node: int, u: Field, s: Solution)
    requires g.p > 0 && |g.points| == 4
  {
    forall x :: HaloPoint(g, node, x) ==> x in u && u[x] == ValueAt(g, node, x, s)
  }

  /** All other elements are as they were. */
  ghost predicate RestKept(g: Grid, node: int, was: Field, u: Field)
    requires g.p > 0 && |g.points| == 4
  {
    u.Keys == was.Keys && forall x :: x in u && !HaloPoint(g, node, x) ==> u[x] == was[x]
  }

  lemma RestIsKept(g: Grid, r: int, us: seq<Field>, u: Field)
    requires Fields(us, g) && 0 <= r < |us| && RankDone(g, r, us, u)
    ensures RestKept(g, r, us[r], u)
  {
    hide HaloPoint, Touched, Exchanged, Neighbour, Declared;
    assert Elsewhere(g, r, u, us[r]);
    forall x | x in u && !HaloPoint(g, r, x)
      ensures u[x] == us[r][x]
    {
      TouchedIsHalo(g, r, x);
    }
  }

  lemma CellsAreSamples(g: Grid, r: int, u: Field, s: Solution)
    requires IsRank(g, r)
    ensures CellsHold(g, r, u, s) <==> Samples(g, r, u, s)
  {
    hide CellPoint, Interior, LowOf;
    forall x
      ensures CellPoint(g, r, x) <==> Interior(g, r, x)
      ensures At(g, r, x, s) == ValueAt(g, r, x, s)
    {
      CellPointIs(g, r, x);
    }
  }

  lemma HaloIsHeld(g: Grid, r: int, us: seq<Field>, u: Field, s: Solution)
    requires Fields(us, g) && 0 <= r < |us| && RankDone(g, r, us, u)
    requires AllHold(g, us, s)
    ensures CellsHold(g, r, u, s) && HaloHolds(g, r, u, s)
  {
    hide HaloPoint, Touched, Interior, CellsHold, Samples, RankDone, LowOf;
    forall r' | 0 <= r' < |us|
      ensures Samples(g, r', us[r'], s)
    {
      CellsAreSamples(g, r', us[r'], s);
    }
    AllLayersRight(g, r, us, u, s);
    forall x
      ensures Touched(g, r, x) <==> HaloPoint(g, r, x)
      ensures At(g, r, x, s) == ValueAt(g, r, x, s)
    {
      TouchedIsHalo(g, r, x);
    }
    AroundHasSamples(g, r, u, s);
    CellsAreSamples(g, r, u, s);
  }

  lemma AroundHasSamples(g: Grid, r: int, u: Field, s: Solution)
    requires IsRank(g, r) && SamplesAround(g, r, u, s)
    ensures Samples(g, r, u, s)
  {
    hide Interior, Touched;
  }

  /**
   `copy_faces` on all ranks: each keeps everything but the layers around its cells, and every layer with a
   neighbour equals the facing layer of the neighbouring cell as it was before.
   */
  method CopyFacesEverywhere(ranks: seq<FaceRank>, g: Grid, ghost us: seq<Field>)
    requires Fields(us, g) && Holding(ranks, g, us) && forall r :: 0 <= r < |ranks| ==> ranks[r].Ready()
    modifies ranks, set r | 0 <= r < |ranks| :: ranks[r].outBuffer, set r | 0 <= r < |ranks| :: ranks[r].inBuffer
    ensures Machine(ranks, g)
    ensures forall r :: 0 <= r < |ranks| ==> RankDone(g, r, us, ranks[r].u) && RestKept(g, r, us[r], ranks[r].u)
    ensures forall s, r :: AllHold(g, us, s) && 0 <= r < |ranks| ==>
      CellsHold(g, r, ranks[r].u, s) && HaloHolds(g, r, ranks[r].u, s)
  {
    hide Laid, GridOk, Declared, RankDone, FaceRank.AllPacked, FaceRank.Arrived, Due, PostedBefore, CellsHold;
    hide HaloHolds, RestKept, AllHold, Fields;
    FieldsFit(g, us);
    PackAll(ranks, g);
    var mail := SendAll(ranks, g, us);
    DeliverAll(ranks, g, mail, us);
    UnpackAll(ranks, g, us);
    forall r | 0 <= r < |ranks|
      ensures RestKept(g, r, us[r], ranks[r].u)
    {
      RestIsKept(g, r, us, ranks[r].u);
    }
    forall s, r | AllHold(g, us, s) && 0 <= r < |ranks|
      ensures CellsHold(g, r, ranks[r].u, s) && HaloHolds(g, r, ranks[r].u, s)
    {
      HaloIsHeld(g, r, us, ranks[r].u, s);
    }
  }
}
