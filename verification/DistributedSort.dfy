/**
 The integer sort over all ranks: the local halves joined by the collective operations, which are
 modelled by their meaning in MPI 3.0 (an element-wise sum, and an exchange of buffer pieces).
 */
module DistributedSort {
  import opened Keys
  import BucketSort
  import Redistribution
  import CountingSort

  // ---- What is exchanged ----

  /** `MPI_Allreduce` with `MPI_SUM`: entry `b` over the first `p` ranks. */
  function Column(sizes: seq<seq<int>>, b: nat, p: nat): int
    requires p <= |sizes| && forall s :: 0 <= s < |sizes| ==> b < |sizes[s]|
  {
    if p == 0 then 0 else Column(sizes, b, p - 1) + sizes[p - 1][b]
  }

  /** What rank `r` receives from the first `p` ranks in `MPI_Alltoallv`: their pieces, one after the other. */
  function Received(pieces: seq<seq<seq<int>>>, r: nat, p: nat): seq<int>
    requires p <= |pieces| && forall s :: 0 <= s < |pieces| ==> r < |pieces[s]|
  {
    if p == 0 then [] else Received(pieces, r, p - 1) + pieces[p - 1][r]
  }

  /** The keys of the first `p` ranks within a range. */
  function KeepAcross(keys: seq<seq<int>>, lo: int, hi: int, p: nat): multiset<int>
    requires p <= |keys|
  {
    if p == 0 then multiset{} else KeepAcross(keys, lo, hi, p - 1) + multiset(Keep(keys[p - 1], lo, hi))
  }

  /** All elements of the first `p` sequences. */
  function Union(parts: seq<seq<int>>, p: nat): multiset<int>
    requires p <= |parts|
  {
    if p == 0 then multiset{} else Union(parts, p - 1) + multiset(parts[p - 1])
  }

  // ---- One rank's buffer ----

  /** Every bucket's part of the buffer holds that bucket's keys. */
  ghost predicate Grouped(buff: seq<int>, size: seq<int>, keys: seq<int>, w: int) {
    && w > 0 && BucketSort.Sized(size, keys, w)
    && forall b :: 0 <= b < |size| ==>
      BucketSort.Holds(buff, SumTo(size, b), SumTo(size, b + 1), BucketKeys(keys, b, w))
  }

  lemma {:induction false} PieceLength(size: seq<int>, keys: seq<int>, w: int, f: nat, l: nat)
    requires w > 0 && f <= l <= |size| && BucketSort.Sized(size, keys, w)
    ensures SumTo(size, l) - SumTo(size, f) == |Keep(keys, Bound(f, w), Bound(l, w))|
  {
    hide Bound, Keep;
    if f == l {
      KeepNone(keys, Bound(f, w), Bound(f, w));
    } else {
      PieceLength(size, keys, w, f, l - 1);
      Product(f, l - 1, w);
      Product(l - 1, l, w);
      KeepSplit(keys, Bound(f, w), Bound(l - 1, w), Bound(l, w));
    }
  }

  lemma BucketPart(buff: seq<int>, size: seq<int>, keys: seq<int>, w: int, b: nat)
    requires Grouped(buff, size, keys, w) && b < |size|
    ensures 0 <= SumTo(size, b) <= SumTo(size, b + 1) <= |buff|
    ensures buff[SumTo(size, b)..SumTo(size, b + 1)] == Keep(keys, Bound(b, w), Bound(b + 1, w))
  {
    hide SumTo;
    assert BucketSort.Holds(buff, SumTo(size, b), SumTo(size, b + 1), BucketKeys(keys, b, w));
  }

  /**
   The buffer of a rank, from the start of bucket `f` to the start of bucket `l`, holds the rank's keys in
   that range.
   */
  lemma {:induction false} PieceOfBuffer(buff: seq<int>, size: seq<int>, keys: seq<int>, w: int, f: nat, l: nat)
    requires Grouped(buff, size, keys, w) && f < l <= |size|
    ensures 0 <= SumTo(size, f) <= SumTo(size, l) <= |buff|
    ensures multiset(buff[SumTo(size, f)..SumTo(size, l)]) == multiset(Keep(keys, Bound(f, w), Bound(l, w)))
  {
    hide Bound, Keep, Grouped, SumTo;
    BucketPart(buff, size, keys, w, l - 1);
    if f < l - 1 {
      PieceOfBuffer(buff, size, keys, w, f, l - 1);
      assert w > 0 by { GroupedWidth(buff, size, keys, w); }
      Product(f, l - 1, w);
      Product(l - 1, l, w);
      KeepSplit(keys, Bound(f, w), Bound(l - 1, w), Bound(l, w));
      JoinPieces(buff, SumTo(size, f), SumTo(size, l - 1), SumTo(size, l));
    }
  }

  lemma GroupedWidth(buff: seq<int>, size: seq<int>, keys: seq<int>, w: int)
    requires Grouped(buff, size, keys, w)
    ensures w > 0 && BucketSort.Sized(size, keys, w)
  {
  }

  lemma JoinPieces(buff: seq<int>, a: int, m: int, e: int)
    requires 0 <= a <= m <= e <= |buff|
    ensures multiset(buff[a..e]) == multiset(buff[a..m]) + multiset(buff[m..e])
  {
    assert buff[a..e] == buff[a..m] + buff[m..e];
  }

  // ---- The plan is the same everywhere ----

  lemma {:induction false} SamePlans(totals: seq<int>, n: int, first: seq<int>, last: seq<int>, j: nat,
      first': seq<int>, last': seq<int>, j': nat, k: nat)
    requires Redistribution.Planned(totals, n, first, last, j, |totals|)
    requires Redistribution.Planned(totals, n, first', last', j', |totals|)
    requires Redistribution.NonNegative(totals) && k <= j && k <= j'
    ensures first[..k] == first'[..k] && last[..k] == last'[..k]
  {
    if k > 0 {
      SamePlans(totals, n, first, last, j, first', last', j', k - 1);
      assert Redistribution.Share(totals, n, first, last, k - 1, |totals|);
      assert Redistribution.Share(totals, n, first', last', k - 1, |totals|);
      if k > 1 { assert last[k - 2] == last[..k - 1][k - 2] == last'[..k - 1][k - 2] == last'[k - 2]; }
      var a, b := last[k - 1], last'[k - 1];
      if a < b { SumMono(totals, a + 1, b); }
      if b < a { SumMono(totals, b + 1, a); }
      assert first[..k] == first[..k - 1] + [first[k - 1]] && first'[..k] == first'[..k - 1] + [first'[k - 1]];
      assert last[..k] == last[..k - 1] + [a] && last'[..k] == last'[..k - 1] + [b];
    }
  }

  /** Two ranks that plan from the same totals get the same shares. */
  lemma OnePlan(totals: seq<int>, n: int, first: seq<int>, last: seq<int>, j: nat, first': seq<int>, last': seq<int>,
      j': nat)
    requires Redistribution.Planned(totals, n, first, last, j, |totals|)
    requires Redistribution.Planned(totals, n, first', last', j', |totals|)
    requires Redistribution.NonNegative(totals)
    ensures j == j' && first[..j] == first'[..j] && last[..j] == last'[..j]
  {
    NoMoreShares(totals, n, first, last, j, first', last', j');
    NoMoreShares(totals, n, first', last', j', first, last, j);
    SamePlans(totals, n, first, last, j, first', last', j', j);
  }

  lemma NoMoreShares(totals: seq<int>, n: int, first: seq<int>, last: seq<int>, j: nat, first': seq<int>,
      last': seq<int>, j': nat)
    requires Redistribution.Planned(totals, n, first, last, j, |totals|)
    requires Redistribution.Planned(totals, n, first', last', j', |totals|)
    requires Redistribution.NonNegative(totals)
    ensures j' <= j
  {
    if j < j' {
      SamePlans(totals, n, first, last, j, first', last', j', j);
      GoesOn(totals, n, last, j, first', last', j');
    }
  }

  /** A plan that closes share `j` sees the totals reach its mark after the first `j` shares. */
  lemma GoesOn(totals: seq<int>, n: int, last: seq<int>, j: nat, first': seq<int>, last': seq<int>, j': nat)
    requires Redistribution.Planned(totals, n, first', last', j', |totals|) && Redistribution.NonNegative(totals)
    requires j < j' && j <= |last| && last[..j] == last'[..j]
    ensures Redistribution.NextFirst(last, j) < |totals| && SumTo(totals, |totals|) >= Bound(j + 1, n)
  {
    assert Redistribution.Share(totals, n, first', last', j, |totals|);
    SumMono(totals, last'[j] + 1, |totals|);
    if j > 0 { assert last[j - 1] == last[..j][j - 1] == last'[..j][j - 1] == last'[j - 1]; }
  }

  // ---- One rank, between the collectives ----

  /** From the keys of a rank to its bucket sizes and its buffer grouped by bucket. */
  method FirstHalf(keys: seq<int>, buckets: nat, w: int) returns (size: seq<int>, buff: seq<int>)
    requires buckets > 0 && BucketSort.InBuckets(keys, buckets, w)
    ensures |size| == buckets && Grouped(buff, size, keys, w)
  {
    hide BucketSort.InBuckets, BucketSort.Holds, BucketSort.Sized, BucketKeys, SumTo, Keep, Bound;
    BucketsHoldAll(keys, buckets, w);
    var keyArray := new int[|keys|](i requires 0 <= i < |keys| => keys[i]);
    assert keyArray[..|keys|] == keys;
    var bucketSize, bucketPtrs, keyBuff1 := new int[buckets], new int[buckets], new int[|keys|];
    BucketSort.CountBuckets(keyArray, |keys|, bucketSize, w);
    BucketSort.BucketPointers(bucketSize, bucketPtrs);
    SizesAddUp(bucketSize[..], keys, w);
    BucketSort.SortIntoBuckets(keyArray, |keys|, bucketSize, bucketPtrs, keyBuff1, w);
    size, buff := bucketSize[..], keyBuff1[..];
  }

  lemma BucketsHoldAll(keys: seq<int>, buckets: nat, w: int)
    requires BucketSort.InBuckets(keys, buckets, w)
    ensures w > 0 && Keep(keys, Bound(0, w), Bound(buckets, w)) == keys
  {
    forall i | 0 <= i < |keys|
      ensures Bound(0, w) <= keys[i] < Bound(buckets, w)
    {
      var q := keys[i] / w;
      InBucket(keys[i], w, q);
      Product(0, q, w);
      Product(q + 1, buckets, w);
    }
    KeepAll(keys, Bound(0, w), Bound(buckets, w));
  }

  lemma SizesAddUp(size: seq<int>, keys: seq<int>, w: int)
    requires BucketSort.InBuckets(keys, |size|, w) && BucketSort.Sized(size, keys, w)
    ensures SumTo(size, |size|) == |keys|
  {
    BucketsHoldAll(keys, |size|, w);
    PieceLength(size, keys, w, 0, |size|);
  }

  /** How many keys the rank's share holds. */
  method LocalTotal(totals: seq<int>, first: int, last: int) returns (total: int)
    requires 0 <= first && last < |totals| && first <= last + 1
    ensures total == SumTo(totals, last + 1) - SumTo(totals, first)
  {
    total := 0;
    var i := first;
    while i <= last
      invariant first <= i <= last + 1 && total == SumTo(totals, i) - SumTo(totals, first)
    {
      total := total + totals[i];
      i := i + 1;
    }
  }

  /** From the received keys to the keys in order. */
  method SecondHalf(recv: seq<int>, total: nat, min: int, max: int) returns (out: seq<int>)
    requires total == |recv| && min - 1 <= max && CountingSort.InRange(recv, min, max)
    ensures Sorted(out) && multiset(out) == multiset(recv)
  {
    hide CountingSort.InRange, CountingSort.Counted, CountingSort.Ranked, Sorted;
    var keyBuff1, keyArray := new int[max - min + 1], new int[total];
    var keyBuff2 := new int[total](i requires 0 <= i < |recv| => recv[i]);
    assert keyBuff2[..total] == recv;
    CountingSort.CountPopulation(keyBuff1, keyBuff2, total, min, max);
    CountingSort.Accumulate(keyBuff1, min, max, recv);
    CountingSort.PlaceKeys(keyArray, keyBuff1, keyBuff2, total, min, max);
    out := keyArray[..total];
  }
}
