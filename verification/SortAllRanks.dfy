/**
 The whole integer sort: every rank runs its first half, the bucket sizes are summed over the ranks,
 every rank plans the redistribution and sends its pieces, and every rank sorts what it received.
 */
module SortAllRanks {
  import opened Keys
  import opened DistributedSort
  import BucketSort
  import Redistribution
  import CountingSort

  /** What a rank holds after planning: `process_bucket_distrib_ptr1/2`, `send_count` and `send_displ`. */
  datatype Plan = Plan(j: nat, first: seq<int>, last: seq<int>, count: seq<int>, displ: seq<int>)

  ghost predicate PlanOf(pl: Plan, totals: seq<int>, size: seq<int>, n: int, p: nat) {
    && pl.j <= p == |pl.first| == |pl.last| == |pl.count| == |pl.displ|
    && Redistribution.Planned(totals, n, pl.first, pl.last, pl.j, |totals|)
    && Redistribution.Sends(size, pl.first, pl.last, pl.count, pl.displ, pl.j)
    && forall k :: pl.j <= k < p ==> pl.count[k] == 0 && pl.first[k] == 1 && pl.last[k] == 0
  }

  method PlanRank(totals: seq<int>, size: seq<int>, n: int, p: nat) returns (pl: Plan)
    requires n > 0 && p > 0 && |totals| == |size|
    requires Redistribution.NonNegative(totals) && SumTo(totals, |totals|) <= Bound(p, n)
    ensures PlanOf(pl, totals, size, n, p)
  {
    hide Redistribution.Planned, Redistribution.Sends, SumTo, Bound;
    var tot := new int[|totals|](i requires 0 <= i < |totals| => totals[i]);
    var own := new int[|size|](i requires 0 <= i < |size| => size[i]);
    var first, last, count, displ := new int[p], new int[p], new int[p], new int[p];
    assert tot[..] == totals && own[..] == size;
    var j := Redistribution.Redistribute(tot, own, n, p, first, last, count, displ);
    pl := Plan(j, first[..], last[..], count[..], displ[..]);
  }

  /** The piece of its buffer that a rank sends to rank `r`. */
  function Piece(buff: seq<int>, pl: Plan, r: nat): seq<int>
    requires r < |pl.count| && r < |pl.displ|
  {
    if 0 <= pl.displ[r] && 0 < pl.count[r] && pl.displ[r] + pl.count[r] <= |buff|
    then buff[pl.displ[r]..pl.displ[r] + pl.count[r]] else []
  }

  /** The range of keys that a plan gives to rank `r`: empty for a rank without a share. */
  function Lo(pl: Plan, w: int, r: nat): int
    requires r < |pl.first|
  {
    Bound(pl.first[r], w)
  }

  function Hi(pl: Plan, w: int, r: nat): int
    requires r < |pl.last|
  {
    Bound(pl.last[r] + 1, w)
  }

  lemma PieceIs(buff: seq<int>, size: seq<int>, keys: seq<int>, totals: seq<int>, w: int, n: int, p: nat, pl: Plan,
      r: nat)
    requires Grouped(buff, size, keys, w) && PlanOf(pl, totals, size, n, p) && r < p
    ensures multiset(Piece(buff, pl, r)) == multiset(Keep(keys, Lo(pl, w, r), Hi(pl, w, r)))
  {
    hide Keep, Bound, Redistribution.Planned, SumTo, Grouped;
    if r < pl.j {
      PieceOfBuffer(buff, size, keys, w, pl.first[r], pl.last[r] + 1);
      EmptyPiece(buff, pl, r);
    } else {
      assert Lo(pl, w, r) == Hi(pl, w, r);
      KeepNone(keys, Lo(pl, w, r), Hi(pl, w, r));
    }
  }

  lemma EmptyPiece(buff: seq<int>, pl: Plan, r: nat)
    requires r < |pl.count| && r < |pl.displ| && 0 <= pl.displ[r] <= pl.displ[r] + pl.count[r] <= |buff|
    ensures Piece(buff, pl, r) == buff[pl.displ[r]..pl.displ[r] + pl.count[r]]
  {
  }

  /** All ranks give rank `r` the same range. */
  lemma SameRange(a: Plan, b: Plan, totals: seq<int>, sizeA: seq<int>, sizeB: seq<int>, n: int, p: nat, w: int, r: nat)
    requires PlanOf(a, totals, sizeA, n, p) && PlanOf(b, totals, sizeB, n, p) && Redistribution.NonNegative(totals)
    requires r < p
    ensures a.j == b.j && a.first[r] == b.first[r] && a.last[r] == b.last[r]
  {
    hide Redistribution.Planned, Redistribution.Sends;
    OnePlan(totals, n, a.first, a.last, a.j, b.first, b.last, b.j);
    if r < a.j {
      assert a.first[r] == a.first[..a.j][r] == b.first[..a.j][r] == b.first[r];
      assert a.last[r] == a.last[..a.j][r] == b.last[..a.j][r] == b.last[r];
    }
  }

  // ---- Across ranks ----

  lemma {:induction false} AcrossSplit(keys: seq<seq<int>>, a: int, b: int, c: int, p: nat)
    requires a <= b <= c && p <= |keys|
    ensures KeepAcross(keys, a, c, p) == KeepAcross(keys, a, b, p) + KeepAcross(keys, b, c, p)
  {
    hide Keep;
    if p > 0 {
      AcrossSplit(keys, a, b, c, p - 1);
      KeepSplit(keys[p - 1], a, b, c);
      Shuffle(KeepAcross(keys, a, b, p - 1), KeepAcross(keys, b, c, p - 1), multiset(Keep(keys[p - 1], a, b)),
        multiset(Keep(keys[p - 1], b, c)));
    }
  }

  lemma Shuffle(a: multiset<int>, b: multiset<int>, c: multiset<int>, d: multiset<int>)
    ensures (a + b) + (c + d) == (a + c) + (b + d)
  {
  }

  lemma {:induction false} AcrossNone(keys: seq<seq<int>>, lo: int, hi: int, p: nat)
    requires lo >= hi && p <= |keys|
    ensures KeepAcross(keys, lo, hi, p) == multiset{}
  {
    if p > 0 {
      AcrossNone(keys, lo, hi, p - 1);
      KeepNone(keys[p - 1], lo, hi);
    }
  }

  /** The ranges of the closed shares together cover everything before the first bucket not handed out. */
  lemma {:induction false} SharesCover(keys: seq<seq<int>>, pl: Plan, totals: seq<int>, size: seq<int>, n: int, w: int,
      p: nat, outs: seq<seq<int>>, k: nat)
    requires PlanOf(pl, totals, size, n, p) && w > 0 && p == |keys| == |outs| && k <= pl.j
    requires forall r :: 0 <= r < p ==> multiset(outs[r]) == KeepAcross(keys, Lo(pl, w, r), Hi(pl, w, r), p)
    ensures Union(outs, k) == KeepAcross(keys, Bound(0, w), Bound(Redistribution.NextFirst(pl.last, k), w), p)
  {
    hide Bound, KeepAcross, Redistribution.Sends, Redistribution.Planned, SumTo, Union;
    if k == 0 {
      AcrossNone(keys, Bound(0, w), Bound(0, w), p);
      assert Union(outs, 0) == multiset{} by { UnionNone(outs); }
    } else {
      SharesCover(keys, pl, totals, size, n, w, p, outs, k - 1);
      ShareEnds(pl, totals, size, n, p, k - 1);
      Product(0, pl.first[k - 1], w);
      Product(pl.first[k - 1], pl.last[k - 1] + 1, w);
      AcrossSplit(keys, Bound(0, w), Bound(pl.first[k - 1], w), Bound(pl.last[k - 1] + 1, w), p);
      UnionNext(outs, k - 1);
    }
  }

  lemma ShareEnds(pl: Plan, totals: seq<int>, size: seq<int>, n: int, p: nat, k: nat)
    requires PlanOf(pl, totals, size, n, p) && k < pl.j
    ensures 0 <= pl.first[k] <= pl.last[k] && pl.first[k] == Redistribution.NextFirst(pl.last, k)
  {
    assert Redistribution.Share(totals, n, pl.first, pl.last, k, |totals|);
  }

  lemma UnionNone(outs: seq<seq<int>>)
    ensures Union(outs, 0) == multiset{}
  {
  }

  lemma UnionNext(outs: seq<seq<int>>, k: nat)
    requires k < |outs|
    ensures Union(outs, k + 1) == Union(outs, k) + multiset(outs[k])
  {
  }

  /** Ranks without a share have nothing. */
  lemma {:induction false} IdleAddNothing(keys: seq<seq<int>>, pl: Plan, totals: seq<int>, size: seq<int>, n: int,
      w: int, p: nat, outs: seq<seq<int>>, k: nat)
    requires PlanOf(pl, totals, size, n, p) && w > 0 && p == |keys| == |outs| && pl.j <= k <= p
    requires forall r :: 0 <= r < p ==> multiset(outs[r]) == KeepAcross(keys, Lo(pl, w, r), Hi(pl, w, r), p)
    ensures Union(outs, k) == Union(outs, pl.j)
  {
    hide KeepAcross, Redistribution.Sends, Redistribution.Planned;
    if k > pl.j {
      IdleAddNothing(keys, pl, totals, size, n, w, p, outs, k - 1);
      AcrossNone(keys, Lo(pl, w, k - 1), Hi(pl, w, k - 1), p);
    }
  }

  // ---- Totals ----

  /** What the ranks hold together before bucket `l`. */
  function RowSums(sizes: seq<seq<int>>, l: nat, p: nat): int
    requires p <= |sizes| && forall s :: 0 <= s < |sizes| ==> l <= |sizes[s]|
  {
    if p == 0 then 0 else RowSums(sizes, l, p - 1) + SumTo(sizes[p - 1], l)
  }

  ghost predicate AllGrouped(buffs: seq<seq<int>>, sizes: seq<seq<int>>, keys: seq<seq<int>>, buckets: nat, w: int) {
    && w > 0 && |buffs| == |sizes| == |keys|
    && forall s :: 0 <= s < |keys| ==> |sizes[s]| == buckets && Grouped(buffs[s], sizes[s], keys[s], w)
  }

  ghost predicate TotalsOf(totals: seq<int>, sizes: seq<seq<int>>, buckets: nat) {
    && |totals| == buckets && (forall s :: 0 <= s < |sizes| ==> |sizes[s]| == buckets)
    && forall b :: 0 <= b < buckets ==> totals[b] == Column(sizes, b, |sizes|)
  }

  /** The bucket sizes of all ranks, summed bucket by bucket. */
  function AddUp(sizes: seq<seq<int>>, buckets: nat): (totals: seq<int>)
    requires forall s :: 0 <= s < |sizes| ==> |sizes[s]| == buckets
    ensures TotalsOf(totals, sizes, buckets)
  {
    seq(buckets, b requires 0 <= b < buckets && (forall s :: 0 <= s < |sizes| ==> |sizes[s]| == buckets) =>
      Column(sizes, b, |sizes|))
  }

  lemma RowsLong(buffs: seq<seq<int>>, sizes: seq<seq<int>>, keys: seq<seq<int>>, buckets: nat, w: int)
    requires AllGrouped(buffs, sizes, keys, buckets, w)
    ensures |sizes| == |keys| && forall s :: 0 <= s < |sizes| ==> |sizes[s]| == buckets
  {
  }

  lemma {:induction false} RowStep(sizes: seq<seq<int>>, l: nat, p: nat)
    requires p <= |sizes| && forall s :: 0 <= s < |sizes| ==> l < |sizes[s]|
    ensures RowSums(sizes, l + 1, p) == RowSums(sizes, l, p) + Column(sizes, l, p)
  {
    if p > 0 { RowStep(sizes, l, p - 1); }
  }

  lemma {:induction false} RowNone(sizes: seq<seq<int>>, p: nat)
    requires p <= |sizes|
    ensures RowSums(sizes, 0, p) == 0
  {
    if p > 0 { RowNone(sizes, p - 1); }
  }

  lemma {:induction false} TotalsAreRows(totals: seq<int>, sizes: seq<seq<int>>, buckets: nat, l: nat)
    requires TotalsOf(totals, sizes, buckets) && l <= buckets
    ensures SumTo(totals, l) == RowSums(sizes, l, |sizes|)
  {
    if l == 0 {
      RowNone(sizes, |sizes|);
    } else {
      TotalsAreRows(totals, sizes, buckets, l - 1);
      RowStep(sizes, l - 1, |sizes|);
    }
  }

  lemma {:induction false} AcrossCount(buffs: seq<seq<int>>, sizes: seq<seq<int>>, keys: seq<seq<int>>, buckets: nat,
      w: int, f: nat, l: nat, p: nat)
    requires AllGrouped(buffs, sizes, keys, buckets, w) && f <= l <= buckets && p <= |keys|
    ensures |KeepAcross(keys, Bound(f, w), Bound(l, w), p)| == RowSums(sizes, l, p) - RowSums(sizes, f, p)
  {
    hide Bound, Keep, SumTo;
    if p > 0 {
      AcrossCount(buffs, sizes, keys, buckets, w, f, l, p - 1);
      GroupedWidth(buffs[p - 1], sizes[p - 1], keys[p - 1], w);
      PieceLength(sizes[p - 1], keys[p - 1], w, f, l);
    }
  }

  /** A stretch of the totals counts the keys of all ranks in that range. */
  lemma TotalsCount(totals: seq<int>, buffs: seq<seq<int>>, sizes: seq<seq<int>>, keys: seq<seq<int>>, buckets: nat,
      w: int, f: nat, l: nat)
    requires AllGrouped(buffs, sizes, keys, buckets, w) && TotalsOf(totals, sizes, buckets) && f <= l <= buckets
    ensures |KeepAcross(keys, Bound(f, w), Bound(l, w), |keys|)| == SumTo(totals, l) - SumTo(totals, f)
  {
    hide Bound, KeepAcross, RowSums, SumTo, Grouped;
    AcrossCount(buffs, sizes, keys, buckets, w, f, l, |keys|);
    TotalsAreRows(totals, sizes, buckets, f);
    TotalsAreRows(totals, sizes, buckets, l);
  }

  /** Every rank has `n` keys, each in one of the buckets. */
  ghost predicate Input(keys: seq<seq<int>>, n: nat, buckets: nat, w: int) {
    && n > 0 && |keys| > 0 && buckets > 0 && w > 0
    && forall s :: 0 <= s < |keys| ==> |keys[s]| == n && BucketSort.InBuckets(keys[s], buckets, w)
  }

  lemma {:induction false} AcrossAll(keys: seq<seq<int>>, n: nat, buckets: nat, w: int, p: nat)
    requires Input(keys, n, buckets, w) && p <= |keys|
    ensures KeepAcross(keys, Bound(0, w), Bound(buckets, w), p) == Union(keys, p)
    ensures |Union(keys, p)| == Bound(p, n)
  {
    hide Bound, Keep;
    if p > 0 {
      AcrossAll(keys, n, buckets, w, p - 1);
      BucketsHoldAll(keys[p - 1], buckets, w);
      Redistribution.BoundNext(p - 1, n);
    } else {
      Redistribution.BoundZero(n);
    }
  }

  lemma TotalsFacts(totals: seq<int>, buffs: seq<seq<int>>, sizes: seq<seq<int>>, keys: seq<seq<int>>, n: nat,
      buckets: nat, w: int)
    requires Input(keys, n, buckets, w) && AllGrouped(buffs, sizes, keys, buckets, w)
    requires TotalsOf(totals, sizes, buckets)
    ensures Redistribution.NonNegative(totals) && SumTo(totals, buckets) == Bound(|keys|, n)
  {
    hide KeepAcross, Grouped, Bound, TotalsOf, Column, BucketSort.InBuckets;
    TotalsCount(totals, buffs, sizes, keys, buckets, w, 0, buckets);
    AcrossAll(keys, n, buckets, w, |keys|);
    forall b | 0 <= b < |totals|
      ensures totals[b] >= 0
    {
      TotalsLength(totals, sizes, buckets);
      TotalsCount(totals, buffs, sizes, keys, buckets, w, b, b + 1);
    }
  }

  lemma TotalsLength(totals: seq<int>, sizes: seq<seq<int>>, buckets: nat)
    requires TotalsOf(totals, sizes, buckets)
    ensures |totals| == buckets
  {
  }

  // ---- The exchange ----

  lemma {:induction false} ReceivedIs(pieces: seq<seq<seq<int>>>, keys: seq<seq<int>>, lo: int, hi: int, r: nat, p: nat)
    requires p <= |pieces| == |keys| && forall s :: 0 <= s < |pieces| ==> r < |pieces[s]|
    requires forall s :: 0 <= s < |pieces| ==> multiset(pieces[s][r]) == multiset(Keep(keys[s], lo, hi))
    ensures multiset(Received(pieces, r, p)) == KeepAcross(keys, lo, hi, p)
  {
    hide Keep;
    if p > 0 { ReceivedIs(pieces, keys, lo, hi, r, p - 1); }
  }

  lemma {:induction false} AcrossIn(keys: seq<seq<int>>, lo: int, hi: int, p: nat, x: int)
    requires p <= |keys| && x in KeepAcross(keys, lo, hi, p)
    ensures lo <= x < hi
  {
    hide Keep;
    var here := multiset(Keep(keys[p - 1], lo, hi));
    if x in here {
      KeepIn(keys[p - 1], lo, hi);
    } else {
      AcrossIn(keys, lo, hi, p - 1, x);
    }
  }

  /** A piece is as long as its count says. */
  lemma PieceCount(buff: seq<int>, size: seq<int>, keys: seq<int>, totals: seq<int>, w: int, n: int, p: nat, pl: Plan,
      r: nat)
    requires Grouped(buff, size, keys, w) && PlanOf(pl, totals, size, n, p) && r < p
    ensures |Piece(buff, pl, r)| == pl.count[r] >= 0
  {
    hide Keep, Bound, Redistribution.Planned, SumTo, Grouped;
    if r < pl.j {
      PieceOfBuffer(buff, size, keys, w, pl.first[r], pl.last[r] + 1);
      EmptyPiece(buff, pl, r);
    }
  }

  /** Where the piece of each rank goes: the running sums of the counts. */
  method RecvDispls(recvCount: array<int>) returns (recvDispl: array<int>)
    requires recvCount.Length > 0
    ensures fresh(recvDispl) && recvDispl.Length == recvCount.Length
    ensures forall s :: 0 <= s < recvCount.Length ==> recvDispl[s] == SumTo(recvCount[..], s)
  {
    recvDispl := new int[recvCount.Length];
    recvDispl[0] := 0;
    for i := 1 to recvCount.Length
      invariant forall s :: 0 <= s < i ==> recvDispl[s] == SumTo(recvCount[..], s)
    {
      recvDispl[i] := recvDispl[i - 1] + recvCount[i - 1];
    }
  }

  lemma {:induction false} ReceivedLength(pieces: seq<seq<seq<int>>>, counts: seq<int>, r: nat, p: nat)
    requires p <= |pieces| == |counts| && forall s :: 0 <= s < |pieces| ==>
      && r < |pieces[s]|
      && counts[s] == |pieces[s][r]|
    ensures |Received(pieces, r, p)| == SumTo(counts, p)
  {
    if p > 0 { ReceivedLength(pieces, counts, r, p - 1); }
  }

  lemma {:induction false} SumGrows(counts: seq<int>, a: nat, b: nat)
    requires a <= b <= |counts| && forall s :: 0 <= s < |counts| ==> counts[s] >= 0
    ensures 0 <= SumTo(counts, a) <= SumTo(counts, b)
  {
    if a < b {
      SumGrows(counts, a, b - 1);
    } else if a > 0 {
      SumGrows(counts, a - 1, a - 1);
    }
  }

  /**
   The exchange as one rank sees it: each piece is put where the displacements say, and together they fill
   the buffer.
   */
  method ReceiveKeys(pieces: seq<seq<seq<int>>>, recvCount: array<int>, r: nat) returns (keyBuff2: array<int>)
    requires recvCount.Length == |pieces| > 0
    requires forall s :: 0 <= s < |pieces| ==> r < |pieces[s]| && recvCount[s] == |pieces[s][r]|
    ensures fresh(keyBuff2) && keyBuff2[..] == Received(pieces, r, |pieces|)
  {
    hide SumTo, Received;
    var p, counts := |pieces|, recvCount[..];
    var recvDispl := RecvDispls(recvCount);
    SumGrows(counts, 0, p);
    keyBuff2 := new int[SumTo(counts, p)];
    ReceivedLength(pieces, counts, r, 0);
    NothingReceived(pieces, r);
    for s := 0 to p
      invariant 0 <= SumTo(counts, s) <= keyBuff2.Length && recvCount[..] == counts
      invariant forall s :: 0 <= s < recvCount.Length ==> recvDispl[s] == SumTo(counts, s)
      invariant keyBuff2[..SumTo(counts, s)] == Received(pieces, r, s)
    {
      var piece, at := pieces[s][r], recvDispl[s];
      SumGrows(counts, s, s);
      SumGrows(counts, s + 1, p);
      ReceivedNext(pieces, counts, r, s);
      ghost var before := keyBuff2[..at];
      forall i | 0 <= i < |piece| {
        keyBuff2[at + i] := piece[i];
      }
      assert keyBuff2[..at] == before;
      assert keyBuff2[at..at + |piece|] == piece;
      assert keyBuff2[..at + |piece|] == keyBuff2[..at] + keyBuff2[at..at + |piece|];
    }
    assert keyBuff2[..] == keyBuff2[..SumTo(counts, p)];
  }

  /** The counts of rank `r` are column `r` of all send counts; then the keys follow. */
  method Exchange(plans: seq<Plan>, pieces: seq<seq<seq<int>>>, r: nat) returns (recv: seq<int>)
    requires |plans| == |pieces| > 0
    requires forall s :: 0 <= s < |pieces| ==>
      && r < |pieces[s]|
      && r < |plans[s].count|
      && plans[s].count[r] == |pieces[s][r]|
    ensures recv == Received(pieces, r, |pieces|)
  {
    var recvCount := new int[|plans|](s requires 0 <= s < |plans| && r < |plans[s].count| => plans[s].count[r]);
    var keyBuff2 := ReceiveKeys(pieces, recvCount, r);
    recv := keyBuff2[..];
  }

  lemma NothingReceived(pieces: seq<seq<seq<int>>>, r: nat)
    requires forall s :: 0 <= s < |pieces| ==> r < |pieces[s]|
    ensures Received(pieces, r, 0) == []
  {
  }

  lemma ReceivedNext(pieces: seq<seq<seq<int>>>, counts: seq<int>, r: nat, s: nat)
    requires s < |pieces| == |counts| && forall t :: 0 <= t < |pieces| ==>
      && r < |pieces[t]|
      && counts[t] == |pieces[t][r]|
    ensures Received(pieces, r, s + 1) == Received(pieces, r, s) + pieces[s][r]
    ensures SumTo(counts, s + 1) == SumTo(counts, s) + |pieces[s][r]|
  {
  }

  // ---- The whole sort ----

  ghost predicate AllPlanned(plans: seq<Plan>, totals: seq<int>, sizes: seq<seq<int>>, n: int, p: nat) {
    |plans| == |sizes| == p && forall s :: 0 <= s < p ==> PlanOf(plans[s], totals, sizes[s], n, p)
  }

  ghost predicate AllPieces(pieces: seq<seq<seq<int>>>, buffs: seq<seq<int>>, plans: seq<Plan>, p: nat) {
    && |pieces| == |buffs| == |plans| == p
    && (forall s :: 0 <= s < p ==> |pieces[s]| == |plans[s].count| == |plans[s].displ| == p)
    && (forall s, r :: 0 <= s < p && 0 <= r < p ==> pieces[s][r] == Piece(buffs[s], plans[s], r))
  }

  /** What rank `r` receives is exactly the keys of all ranks in the range that the plan gives it. */
  lemma ReceivedByRank(keys: seq<seq<int>>, n: nat, buckets: nat, w: int, sizes: seq<seq<int>>, buffs: seq<seq<int>>,
      totals: seq<int>, plans: seq<Plan>, pieces: seq<seq<seq<int>>>, g: nat, r: nat)
    requires Input(keys, n, buckets, w) && AllGrouped(buffs, sizes, keys, buckets, w)
    requires TotalsOf(totals, sizes, buckets)
    requires AllPlanned(plans, totals, sizes, n, |keys|) && AllPieces(pieces, buffs, plans, |keys|) && r < |keys|
    requires g < |keys|
    ensures multiset(Received(pieces, r, |keys|)) == KeepAcross(keys, Lo(plans[g], w, r), Hi(plans[g], w, r), |keys|)
  {
    hide Grouped, PlanOf, Piece, Keep, KeepAcross, TotalsOf, BucketSort.InBuckets, Column, Received;
    TotalsFacts(totals, buffs, sizes, keys, n, buckets, w);
    assert |plans[g].first| == |plans[g].last| == |keys| by { PlanShape(plans[g], totals, sizes[g], n, |keys|); }
    forall s | 0 <= s < |keys|
      ensures multiset(pieces[s][r]) == multiset(Keep(keys[s], Lo(plans[g], w, r), Hi(plans[g], w, r)))
    {
      PlanShape(plans[s], totals, sizes[s], n, |keys|);
      PieceIs(buffs[s], sizes[s], keys[s], totals, w, n, |keys|, plans[s], r);
      SameRange(plans[s], plans[g], totals, sizes[s], sizes[g], n, |keys|, w, r);
    }
    ReceivedIs(pieces, keys, Lo(plans[g], w, r), Hi(plans[g], w, r), r, |keys|);
  }

  lemma PlanShape(pl: Plan, totals: seq<int>, size: seq<int>, n: int, p: nat)
    requires PlanOf(pl, totals, size, n, p)
    ensures pl.j <= p == |pl.first| == |pl.last| == |pl.count| == |pl.displ|
  {
  }

  /** The interval of a rank in bucket numbers. */
  lemma PlanInterval(pl: Plan, totals: seq<int>, size: seq<int>, n: int, p: nat, r: nat)
    requires PlanOf(pl, totals, size, n, p) && r < p && |totals| > 0
    ensures 0 <= pl.first[r] <= pl.last[r] + 1 <= |totals|
    ensures r >= pl.j ==> pl.first[r] == pl.last[r] + 1
  {
    if r < pl.j { assert Redistribution.Share(totals, n, pl.first, pl.last, r, |totals|); }
  }

  /** The input facts that the lemmas below need, without the buckets themselves. */
  lemma BucketCount(keys: seq<seq<int>>, n: nat, buckets: nat, w: int, totals: seq<int>, sizes: seq<seq<int>>)
    requires Input(keys, n, buckets, w) && TotalsOf(totals, sizes, buckets)
    ensures |totals| == buckets > 0 && w > 0
  {
  }

  /** So its number is the rank's own total, and every key is in the range that the rank counts over. */
  lemma ReceivedInRange(keys: seq<seq<int>>, n: nat, buckets: nat, w: int, sizes: seq<seq<int>>, buffs: seq<seq<int>>,
      totals: seq<int>, pl: Plan, size: seq<int>, recv: seq<int>, r: nat)
    requires Input(keys, n, buckets, w) && AllGrouped(buffs, sizes, keys, buckets, w)
    requires TotalsOf(totals, sizes, buckets)
    requires PlanOf(pl, totals, size, n, |keys|) && r < |keys|
    requires multiset(recv) == KeepAcross(keys, Lo(pl, w, r), Hi(pl, w, r), |keys|)
    ensures 0 <= pl.first[r] <= pl.last[r] + 1 <= |totals| == buckets
    ensures |recv| == SumTo(totals, pl.last[r] + 1) - SumTo(totals, pl.first[r])
    ensures Lo(pl, w, r) <= Hi(pl, w, r) && CountingSort.InRange(recv, Lo(pl, w, r), Hi(pl, w, r) - 1)
  {
    hide Bound, KeepAcross, AllGrouped, Input, TotalsOf, SumTo, PlanOf, CountingSort.InRange;
    BucketCount(keys, n, buckets, w, totals, sizes);
    PlanShape(pl, totals, size, n, |keys|);
    PlanInterval(pl, totals, size, n, |keys|, r);
    Product(pl.first[r], pl.last[r] + 1, w);
    TotalsCount(totals, buffs, sizes, keys, buckets, w, pl.first[r], pl.last[r] + 1);
    AcrossInRange(keys, Lo(pl, w, r), Hi(pl, w, r), recv);
  }

  lemma AcrossInRange(keys: seq<seq<int>>, lo: int, hi: int, recv: seq<int>)
    requires multiset(recv) == KeepAcross(keys, lo, hi, |keys|)
    ensures |recv| == |KeepAcross(keys, lo, hi, |keys|)| && CountingSort.InRange(recv, lo, hi - 1)
  {
    hide KeepAcross;
    assert |multiset(recv)| == |recv|;
    forall i | 0 <= i < |recv|
      ensures lo <= recv[i] <= hi - 1
    {
      assert recv[i] in multiset(recv);
      AcrossIn(keys, lo, hi, |keys|, recv[i]);
    }
  }

  /** A rank with a share receives less than the average plus its last bucket. */
  lemma ReceivedLoad(keys: seq<seq<int>>, n: nat, buckets: nat, w: int, sizes: seq<seq<int>>, buffs: seq<seq<int>>,
      totals: seq<int>, pl: Plan, size: seq<int>, recv: seq<int>, r: nat)
    requires Input(keys, n, buckets, w) && AllGrouped(buffs, sizes, keys, buckets, w)
    requires TotalsOf(totals, sizes, buckets)
    requires PlanOf(pl, totals, size, n, |keys|) && r < |keys|
    requires multiset(recv) == KeepAcross(keys, Lo(pl, w, r), Hi(pl, w, r), |keys|)
    ensures 0 <= pl.last[r] < |totals|
    ensures |recv| <= if r < pl.j then n - 1 + totals[pl.last[r]] else 0
  {
    hide Bound, KeepAcross, Grouped, SumTo, BucketSort.InBuckets, Column, CountingSort.InRange, Redistribution.Planned,
      Redistribution.Sends;
    ReceivedInRange(keys, n, buckets, w, sizes, buffs, totals, pl, size, recv, r);
    if r < pl.j { Redistribution.LoadBound(totals, n, pl.first, pl.last, pl.j, r); }
  }

  lemma {:induction false} ColumnPart(sizes: seq<seq<int>>, b: nat, p: nat, s: nat)
    requires s < p <= |sizes| && forall t :: 0 <= t < |sizes| ==> b < |sizes[t]| && sizes[t][b] >= 0
    ensures 0 <= sizes[s][b] <= Column(sizes, b, p)
  {
    if s < p - 1 {
      ColumnPart(sizes, b, p - 1, s);
    } else if p > 1 {
      ColumnPart(sizes, b, p - 1, 0);
    }
  }

  lemma {:induction false} ZeroTail(s: seq<int>, a: nat, b: nat)
    requires a <= b <= |s| && forall k :: a <= k < b ==> s[k] == 0
    ensures SumTo(s, b) == SumTo(s, a)
  {
    if a < b { ZeroTail(s, a, b - 1); }
  }

  /** Every rank sends all its keys: its send counts add up to `NUM_KEYS`. */
  lemma SendsEverything(keys: seq<seq<int>>, n: nat, buckets: nat, w: int, sizes: seq<seq<int>>, buffs: seq<seq<int>>,
      totals: seq<int>, pl: Plan, s: nat)
    requires Input(keys, n, buckets, w) && AllGrouped(buffs, sizes, keys, buckets, w)
    requires TotalsOf(totals, sizes, buckets)
    requires s < |keys| && PlanOf(pl, totals, sizes[s], n, |keys|)
    ensures SumTo(pl.count, |keys|) == n
  {
    hide SumTo, Bound, Keep, Column, KeepAcross, BucketSort.InBuckets, Redistribution.Share;
    var p := |keys|;
    TotalsFacts(totals, buffs, sizes, keys, n, buckets, w);
    Redistribution.CoversAllKeys(totals, n, p, pl.first, pl.last, pl.j);
    Redistribution.CountsAddUp(totals, sizes[s], n, pl.first, pl.last, pl.count, pl.displ, pl.j, pl.j);
    ZeroTail(pl.count, pl.j, p);
    var e := Redistribution.NextFirst(pl.last, pl.j);
    forall b | e <= b < buckets
      ensures sizes[s][b] == 0
    {
      SizesNotNegative(buffs, sizes, keys, buckets, w, b);
      ColumnPart(sizes, b, p, s);
    }
    ZeroTail(sizes[s], e, buckets);
    assert Grouped(buffs[s], sizes[s], keys[s], w);
    GroupedAll(buffs[s], sizes[s], keys[s], w, buckets);
  }

  lemma SizesNotNegative(buffs: seq<seq<int>>, sizes: seq<seq<int>>, keys: seq<seq<int>>, buckets: nat, w: int, b: nat)
    requires AllGrouped(buffs, sizes, keys, buckets, w) && b < buckets
    ensures forall t :: 0 <= t < |sizes| ==> b < |sizes[t]| && sizes[t][b] >= 0
  {
    forall t | 0 <= t < |sizes|
      ensures b < |sizes[t]| && sizes[t][b] >= 0
    {
      assert Grouped(buffs[t], sizes[t], keys[t], w);
    }
  }

  lemma GroupedAll(buff: seq<int>, size: seq<int>, keys: seq<int>, w: int, buckets: nat)
    requires Grouped(buff, size, keys, w) && |size| == buckets && BucketSort.InBuckets(keys, buckets, w)
    ensures SumTo(size, buckets) == |keys|
  {
    hide BucketSort.Holds;
    SizesAddUp(size, keys, w);
  }

  /** The keys of all ranks in the last `d` buckets are at most `d` times what a rank starts with. */
  ghost predicate FewHighKeys(keys: seq<seq<int>>, n: nat, buckets: nat, w: int, d: nat) {
    d <= buckets && |KeepAcross(keys, Bound(buckets - d, w), Bound(buckets, w), |keys|)| <= Bound(d, n)
  }

  /**
   Whether a rank is left idle depends on the keys: every rank has a share exactly when, for each `d`,
   the last `d` buckets do not hold more keys than `d` ranks start with.
   */
  lemma NoRankIdle(keys: seq<seq<int>>, n: nat, buckets: nat, w: int, sizes: seq<seq<int>>, buffs: seq<seq<int>>,
      totals: seq<int>, pl: Plan, size: seq<int>)
    requires Input(keys, n, buckets, w) && AllGrouped(buffs, sizes, keys, buckets, w)
    requires TotalsOf(totals, sizes, buckets)
    requires PlanOf(pl, totals, size, n, |keys|)
    ensures pl.j == |keys| <==> forall d :: 0 <= d < |keys| ==> FewHighKeys(keys, n, buckets, w, d)
  {
    hide Bound, SumTo, KeepAcross, AllGrouped, Input, TotalsOf, Redistribution.Planned, Redistribution.Sends,
      Redistribution.NonNegative;
    BucketCount(keys, n, buckets, w, totals, sizes);
    TotalsFacts(totals, buffs, sizes, keys, n, buckets, w);
    InputFacts(keys, n, buckets, w);
    Redistribution.EveryRankHasAShare(totals, n, |keys|, pl.first, pl.last, pl.j);
    forall d: nat | d < |keys|
      ensures Redistribution.TailFits(totals, n, d) <==> FewHighKeys(keys, n, buckets, w, d)
    {
      if d <= buckets { TotalsCount(totals, buffs, sizes, keys, buckets, w, buckets - d, buckets); }
    }
  }

  lemma InputFacts(keys: seq<seq<int>>, n: nat, buckets: nat, w: int)
    requires Input(keys, n, buckets, w)
    ensures n > 0 && |keys| > 0
  {
  }

  /** No key of a lower rank exceeds a key of a higher rank. */
  ghost predicate RanksAscend(outs: seq<seq<int>>) {
    forall a, b :: 0 <= a < b < |outs| ==> NotAbove(outs[a], outs[b])
  }

  ghost predicate NotAbove(s: seq<int>, t: seq<int>) {
    forall i, j :: 0 <= i < |s| && 0 <= j < |t| ==> s[i] <= t[j]
  }

  lemma HigherRank(keys: seq<seq<int>>, pl: Plan, totals: seq<int>, size: seq<int>, n: int, w: int,
      outs: seq<seq<int>>, a: nat, b: nat)
    requires PlanOf(pl, totals, size, n, |keys|) && w > 0 && |keys| == |outs| && a < b < |keys|
    requires forall r :: 0 <= r < |keys| ==> multiset(outs[r]) == KeepAcross(keys, Lo(pl, w, r), Hi(pl, w, r), |keys|)
    ensures NotAbove(outs[a], outs[b])
  {
    hide Bound, KeepAcross, Redistribution.Sends, SumTo, Redistribution.Share;
    if b < pl.j {
      Redistribution.SharesAscend(totals, n, pl.first, pl.last, pl.j, a, b);
      Product(pl.last[a] + 1, pl.first[b], w);
    } else {
      assert Lo(pl, w, b) == Hi(pl, w, b);
    }
    forall i, j | 0 <= i < |outs[a]| && 0 <= j < |outs[b]|
      ensures outs[a][i] <= outs[b][j]
    {
      assert outs[a][i] in multiset(outs[a]) && outs[b][j] in multiset(outs[b]);
      AcrossIn(keys, Lo(pl, w, a), Hi(pl, w, a), |keys|, outs[a][i]);
      AcrossIn(keys, Lo(pl, w, b), Hi(pl, w, b), |keys|, outs[b][j]);
    }
  }

  /** Nothing is lost and nothing is duplicated. */
  lemma AllKeysOnce(keys: seq<seq<int>>, n: nat, buckets: nat, w: int, sizes: seq<seq<int>>, buffs: seq<seq<int>>,
      totals: seq<int>, pl: Plan, size: seq<int>, outs: seq<seq<int>>)
    requires Input(keys, n, buckets, w) && AllGrouped(buffs, sizes, keys, buckets, w)
    requires TotalsOf(totals, sizes, buckets)
    requires PlanOf(pl, totals, size, n, |keys|) && |outs| == |keys|
    requires forall r :: 0 <= r < |keys| ==> multiset(outs[r]) == KeepAcross(keys, Lo(pl, w, r), Hi(pl, w, r), |keys|)
    ensures Union(outs, |outs|) == Union(keys, |keys|)
  {
    hide Bound, KeepAcross, Grouped, SumTo, BucketSort.InBuckets, Column, Redistribution.Sends, Redistribution.Share;
    var p := |keys|;
    TotalsFacts(totals, buffs, sizes, keys, n, buckets, w);
    Redistribution.CoversAllKeys(totals, n, p, pl.first, pl.last, pl.j);
    var e := Redistribution.NextFirst(pl.last, pl.j);
    SharesCover(keys, pl, totals, size, n, w, p, outs, pl.j);
    IdleAddNothing(keys, pl, totals, size, n, w, p, outs, p);
    TotalsCount(totals, buffs, sizes, keys, buckets, w, e, buckets);
    Product(0, e, w);
    Product(e, buckets, w);
    AcrossSplit(keys, Bound(0, w), Bound(e, w), Bound(buckets, w), p);
    assert KeepAcross(keys, Bound(e, w), Bound(buckets, w), p) == multiset{};
    AcrossAll(keys, n, buckets, w, p);
  }

  /** Every rank counts and groups its keys. */
  method GroupAll(keys: seq<seq<int>>, n: nat, buckets: nat, w: int)
      returns (sizes: seq<seq<int>>, buffs: seq<seq<int>>)
    requires Input(keys, n, buckets, w)
    ensures AllGrouped(buffs, sizes, keys, buckets, w)
  {
    hide Grouped, BucketSort.InBuckets;
    sizes, buffs := [], [];
    for s := 0 to |keys|
      invariant |sizes| == |buffs| == s
      invariant forall k :: 0 <= k < s ==> |sizes[k]| == buckets && Grouped(buffs[k], sizes[k], keys[k], w)
    {
      var size, buff := FirstHalf(keys[s], buckets, w);
      sizes, buffs := sizes + [size], buffs + [buff];
    }
  }

  /** The pieces of one rank are as long as its counts say. */
  ghost predicate Counted(pl: Plan, pieces: seq<seq<int>>, p: nat) {
    |pieces| == |pl.count| == p && forall r :: 0 <= r < p ==> |pieces[r]| == pl.count[r]
  }

  /** Every rank makes its plan and cuts its buffer into what each rank is to get. */
  method PlanAll(keys: seq<seq<int>>, n: nat, buckets: nat, w: int, sizes: seq<seq<int>>, buffs: seq<seq<int>>,
      totals: seq<int>)
      returns (plans: seq<Plan>, pieces: seq<seq<seq<int>>>)
    requires Input(keys, n, buckets, w) && AllGrouped(buffs, sizes, keys, buckets, w)
    requires TotalsOf(totals, sizes, buckets)
    ensures |plans| == |pieces| == |keys|
    ensures AllPlanned(plans, totals, sizes, n, |keys|) && AllPieces(pieces, buffs, plans, |keys|)
    ensures forall s :: 0 <= s < |keys| ==> Counted(plans[s], pieces[s], |keys|)
  {
    hide Grouped, PlanOf, Piece, Bound, SumTo, TotalsOf, BucketSort.InBuckets;
    TotalsFacts(totals, buffs, sizes, keys, n, buckets, w);
    TotalsLength(totals, sizes, buckets);
    plans, pieces := [], [];
    var p := |keys|;
    for s := 0 to p
      invariant |plans| == |pieces| == s
      invariant forall k :: 0 <= k < s ==> PlanOf(plans[k], totals, sizes[k], n, p) && Counted(plans[k], pieces[k], p)
      invariant forall k :: 0 <= k < s ==> |plans[k].displ| == p
      invariant forall k, r :: 0 <= k < s && 0 <= r < p ==> pieces[k][r] == Piece(buffs[k], plans[k], r)
    {
      var pl := PlanRank(totals, sizes[s], n, p);
      PlanShape(pl, totals, sizes[s], n, p);
      var buff := buffs[s];
      var piece := seq(p, r requires 0 <= r < p && p == |pl.count| == |pl.displ| => Piece(buff, pl, r));
      forall r | 0 <= r < p
        ensures |Piece(buff, pl, r)| == pl.count[r]
      {
        PieceCount(buff, sizes[s], keys[s], totals, w, n, p, pl, r);
      }
      plans, pieces := plans + [pl], pieces + [piece];
    }
  }

  /** The second half on one rank: the exchange and the counting sort. */
  method FinishRank(keys: seq<seq<int>>, n: nat, buckets: nat, w: int, sizes: seq<seq<int>>, buffs: seq<seq<int>>,
      totals: seq<int>, plans: seq<Plan>, pieces: seq<seq<seq<int>>>, r: nat) returns (out: seq<int>)
    requires Input(keys, n, buckets, w) && AllGrouped(buffs, sizes, keys, buckets, w)
    requires TotalsOf(totals, sizes, buckets)
    requires |plans| == |pieces| == |keys| && r < |keys|
    requires AllPlanned(plans, totals, sizes, n, |keys|) && AllPieces(pieces, buffs, plans, |keys|)
    requires forall s :: 0 <= s < |keys| ==> Counted(plans[s], pieces[s], |keys|)
    ensures Sorted(out) && r < |plans[0].first| && r < |plans[0].last|
    ensures multiset(out) == KeepAcross(keys, Lo(plans[0], w, r), Hi(plans[0], w, r), |keys|)
  {
    hide AllGrouped, AllPieces, PlanOf, KeepAcross, TotalsOf, BucketSort.InBuckets, Received, Sorted, Bound, SumTo;
    var pl := plans[r];
    var recv := Exchange(plans, pieces, r);
    PlanShape(pl, totals, sizes[r], n, |keys|);
    PlanShape(plans[0], totals, sizes[0], n, |keys|);
    ReceivedByRank(keys, n, buckets, w, sizes, buffs, totals, plans, pieces, r, r);
    ReceivedByRank(keys, n, buckets, w, sizes, buffs, totals, plans, pieces, 0, r);
    ReceivedInRange(keys, n, buckets, w, sizes, buffs, totals, pl, sizes[r], recv, r);
    var total := LocalTotal(totals, pl.first[r], pl.last[r]);
    out := SecondHalf(recv, total, Lo(pl, w, r), Hi(pl, w, r) - 1);
  }

  /**
   The sort of NAS IS on any number of ranks and any keys: each rank ends with a sorted sequence, the
   ranks are in ascending order, and together they hold exactly the keys they started with.
   */
  method SortAll(keys: seq<seq<int>>, n: nat, buckets: nat, w: int) returns (outs: seq<seq<int>>)
    requires Input(keys, n, buckets, w)
    ensures |outs| == |keys| && (forall r :: 0 <= r < |outs| ==> Sorted(outs[r]))
    ensures RanksAscend(outs)
    ensures Union(outs, |outs|) == Union(keys, |keys|)
  {
    hide AllGrouped, AllPieces, PlanOf, Counted, KeepAcross, BucketSort.InBuckets, Sorted, Bound, SumTo, Union,
      NotAbove;
    var p := |keys|;
    var sizes, buffs := GroupAll(keys, n, buckets, w);
    RowsLong(buffs, sizes, keys, buckets, w);
    var totals := AddUp(sizes, buckets);
    var plans, pieces := PlanAll(keys, n, buckets, w, sizes, buffs, totals);
    outs := [];
    PlanShape(plans[0], totals, sizes[0], n, p);
    for r := 0 to p
      invariant |outs| == r && r <= |plans[0].first| && r <= |plans[0].last|
      invariant forall k :: 0 <= k < r ==> Sorted(outs[k])
      invariant forall k :: 0 <= k < r ==>
        multiset(outs[k]) == KeepAcross(keys, Lo(plans[0], w, k), Hi(plans[0], w, k), p)
    {
      var out := FinishRank(keys, n, buckets, w, sizes, buffs, totals, plans, pieces, r);
      outs := outs + [out];
    }
    forall a, b | 0 <= a < b < p
      ensures NotAbove(outs[a], outs[b])
    {
      HigherRank(keys, plans[0], totals, sizes[0], n, w, outs, a, b);
    }
    AllKeysOnce(keys, n, buckets, w, sizes, buffs, totals, plans[0], sizes[0], outs);
  }
}
