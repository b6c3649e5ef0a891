/**
 Which buckets go to which rank: buckets are handed out in order, and a rank's share is closed as
 soon as the running total reaches its multiple of the average.
 */
module Redistribution {
  import opened Keys

  /** The first bucket not yet handed out when `j` shares are closed. */
  function NextFirst(last: seq<int>, j: nat): int
    requires j <= |last|
  {
    if j == 0 then 0 else last[j - 1] + 1
  }

  /**
   Share `k` starts where the one before it ends, and ends with the first bucket (at least one) that reaches
   its multiple of `n`.
   */
  ghost predicate Share(totals: seq<int>, n: int, first: seq<int>, last: seq<int>, k: nat, i: nat)
    requires k < |first| && k < |last| && i <= |totals|
  {
    && 0 <= first[k] <= last[k] < i && first[k] == NextFirst(last, k)
    && SumTo(totals, last[k] + 1) >= Bound(k + 1, n)
    && (first[k] < last[k] ==> SumTo(totals, last[k]) < Bound(k + 1, n))
  }

  /** The first `j` shares are closed and buckets up to `i` have been looked at; `n` is the average number of keys. */
  ghost predicate Planned(totals: seq<int>, n: int, first: seq<int>, last: seq<int>, j: nat, i: nat) {
    && j <= |first| && j <= |last| && i <= |totals|
    && 0 <= NextFirst(last, j) <= i
    && (forall k :: 0 <= k < j ==> Share(totals, n, first, last, k, i))
    && (NextFirst(last, j) < i ==> SumTo(totals, i) < Bound(j + 1, n))
  }

  /** What one rank sends to each closed share, given the sizes of its own buckets. */
  ghost predicate Sends(size: seq<int>, first: seq<int>, last: seq<int>, count: seq<int>, displ: seq<int>, j: nat) {
    && j <= |first| && j <= |last| && j <= |count| && j <= |displ|
    && forall k :: 0 <= k < j ==>
      && 0 <= first[k] <= last[k] < |size|
      && displ[k] == SumTo(size, first[k])
      && displ[k] + count[k] == SumTo(size, last[k] + 1)
  }

  ghost predicate NonNegative(s: seq<int>) {
    forall i :: 0 <= i < |s| ==> s[i] >= 0
  }

  lemma BoundNext(k: int, n: int)
    ensures Bound(k + 1, n) == Bound(k, n) + n
  {
  }

  lemma BoundZero(n: int)
    ensures Bound(0, n) == 0
  {
  }

  /** No share is opened beyond the number of ranks. */
  lemma NeverTooMany(totals: seq<int>, n: int, p: nat, j: nat, i: nat)
    requires n > 0 && i <= |totals| && NonNegative(totals) && SumTo(totals, |totals|) <= Bound(p, n)
    requires SumTo(totals, i) >= Bound(j + 1, n)
    ensures j < p
  {
    hide Bound;
    SumMono(totals, i, |totals|);
    BoundNext(p, n);
    if j >= p { Product(p + 1, j + 1, n); }
  }

  lemma CloseShare(totals: seq<int>, n: int, first: seq<int>, last: seq<int>, j: nat, i: nat)
    requires Planned(totals, n, first, last, j, i) && i < |totals| && j < |first| && j < |last|
    requires SumTo(totals, i + 1) >= Bound(j + 1, n)
    ensures Planned(totals, n, first[j := NextFirst(last, j)], last[j := i], j + 1, i + 1)
  {
    hide Share, SumTo, Bound;
    var first', last', i' := first[j := NextFirst(last, j)], last[j := i], i + 1;
    forall k | 0 <= k <= j
      ensures Share(totals, n, first', last', k, i')
    {
      ShareKept(totals, n, first, last, j, i, k);
    }
  }

  lemma ShareKept(totals: seq<int>, n: int, first: seq<int>, last: seq<int>, j: nat, i: nat, k: nat)
    requires Planned(totals, n, first, last, j, i) && i < |totals| && j < |first| && j < |last| && k <= j
    requires SumTo(totals, i + 1) >= Bound(j + 1, n)
    ensures Share(totals, n, first[j := NextFirst(last, j)], last[j := i], k, i + 1)
  {
    hide SumTo, Bound;
    if k < j { assert Share(totals, n, first, last, k, i); }
  }

  lemma KeepOpen(totals: seq<int>, n: int, first: seq<int>, last: seq<int>, j: nat, i: nat)
    requires Planned(totals, n, first, last, j, i) && i < |totals|
    requires SumTo(totals, i + 1) < Bound(j + 1, n)
    ensures Planned(totals, n, first, last, j, i + 1)
  {
    hide SumTo, Bound;
    var i' := i + 1;
    forall k | 0 <= k < j
      ensures Share(totals, n, first, last, k, i')
    {
      assert Share(totals, n, first, last, k, i);
    }
  }

  lemma SendMore(size: seq<int>, first: seq<int>, last: seq<int>, count: seq<int>, displ: seq<int>, j: nat, i: nat)
    requires Sends(size, first, last, count, displ, j) && j < |first| && j < |last| && j < |count| && j < |displ|
    requires 0 <= NextFirst(last, j) <= i < |size|
    ensures Sends(size, first[j := NextFirst(last, j)], last[j := i],
      count[j := SumTo(size, i + 1) - SumTo(size, NextFirst(last, j))],
      displ[j := SumTo(size, NextFirst(last, j))], j + 1)
  {
  }

  /**
   The plan of one rank, whose own bucket sizes are in `bucketSize`. Shares
   that are never opened are empty: count 0 and the interval from 1 to 0.
   */
  method Redistribute(totals: array<int>, bucketSize: array<int>, n: int, p: nat,
      first: array<int>, last: array<int>, sendCount: array<int>, sendDispl: array<int>) returns (j: nat)
    requires n > 0 && p > 0 && totals.Length == bucketSize.Length
    requires first.Length >= p && last.Length >= p && sendCount.Length >= p && sendDispl.Length >= p
    requires first != last && first != sendCount && first != sendDispl && last != sendCount && last != sendDispl
    requires sendCount != sendDispl
    requires totals != first && totals != last && totals != sendCount && totals != sendDispl
    requires bucketSize != first && bucketSize != last && bucketSize != sendCount && bucketSize != sendDispl
    requires NonNegative(totals[..]) && SumTo(totals[..], totals.Length) <= Bound(p, n)
    modifies first, last, sendCount, sendDispl
    ensures j <= p && Planned(totals[..], n, first[..], last[..], j, totals.Length)
    ensures Sends(bucketSize[..], first[..], last[..], sendCount[..], sendDispl[..], j)
    ensures forall k :: j <= k < p ==> sendCount[k] == 0 && first[k] == 1 && last[k] == 0
  {
    hide Planned, Sends, SumTo, Bound;
    ghost var tot, size := totals[..], bucketSize[..];
    forall k | 0 <= k < last.Length { last[k] := 0; }
    var sum, localSum := 0, 0;
    sendDispl[0] := 0;
    first[0] := 0;
    j := 0;
    var i := 0;
    NothingPlanned(tot, size, n, first[..], last[..], sendCount[..], sendDispl[..]);
    while i < totals.Length
      invariant 0 <= i <= totals.Length && j <= p && totals[..] == tot && bucketSize[..] == size
      invariant Planned(tot, n, first[..], last[..], j, i)
      invariant Sends(size, first[..], last[..], sendCount[..], sendDispl[..], j)
      invariant sum == SumTo(tot, i) && SinceLast(size, last[..], j, i, localSum)
      invariant j == 0 ==> first[0] == 0 && sendDispl[0] == 0
      invariant forall k :: j <= k < p ==> last[k] == 0
    {
      SumNext(tot, size, i);
      assert i + 1 <= |tot|;
      sum := sum + totals[i];
      localSum := localSum + bucketSize[i];
      if sum >= Bound(j + 1, n) {
        Closing(tot, n, p, first[..], last[..], j, i);
        SendMore(size, first[..], last[..], sendCount[..], sendDispl[..], j, i);
        if j != 0 { NextDispl(size, first[..], last[..], sendCount[..], sendDispl[..], j); }
        WriteShare(first, last, sendCount, sendDispl, j, i, localSum);
        j := j + 1;
        localSum := 0;
      } else {
        KeepOpen(tot, n, first[..], last[..], j, i);
      }
      i := i + 1;
    }
    ghost var f1, c1 := first[..], sendCount[..];
    EmptyShares(first, sendCount, j, p);
    SamePlan(tot, size, n, f1, first[..], last[..], c1, sendCount[..], sendDispl[..], j);
  }

  /** The entries of share `j`, which ends with bucket `i`; those of share 0 start as 0. */
  method WriteShare(first: array<int>, last: array<int>, sendCount: array<int>, sendDispl: array<int>, j: nat, i: int,
      localSum: int)
    requires j < first.Length && j < last.Length && j < sendCount.Length && j < sendDispl.Length
    requires first != last && first != sendCount && first != sendDispl && last != sendCount && last != sendDispl
    requires sendCount != sendDispl
    requires j == 0 ==> first[0] == 0 && sendDispl[0] == 0
    modifies first, last, sendCount, sendDispl
    ensures first[..] == old(first[..])[j := NextFirst(old(last[..]), j)] && last[..] == old(last[..])[j := i]
    ensures sendCount[..] == old(sendCount[..])[j := localSum]
    ensures sendDispl[..] == old(sendDispl[..])[j := if j == 0 then 0 else old(sendDispl[j - 1] + sendCount[j - 1])]
  {
    sendCount[j] := localSum;
    if j != 0 {
      sendDispl[j] := sendDispl[j - 1] + sendCount[j - 1];
      first[j] := last[j - 1] + 1;
    }
    last[j] := i;
  }

  /** The shares from `j` on get no key and the interval from 1 to 0. */
  method EmptyShares(first: array<int>, sendCount: array<int>, j: nat, p: nat)
    requires j <= p <= first.Length && p <= sendCount.Length && first != sendCount
    modifies first, sendCount
    ensures first[..j] == old(first[..j]) && sendCount[..j] == old(sendCount[..j])
    ensures forall k :: j <= k < p ==> sendCount[k] == 0 && first[k] == 1
  {
    var k := j;
    while k < p
      invariant j <= k <= p
      invariant first[..j] == old(first[..j]) && sendCount[..j] == old(sendCount[..j])
      invariant forall m :: j <= m < k ==> sendCount[m] == 0 && first[m] == 1
    {
      sendCount[k] := 0;
      first[k] := 1;
      k := k + 1;
    }
  }

  /** `local_bucket_sum_accumulator`: the rank's own keys in the buckets of the open share. */
  ghost predicate SinceLast(size: seq<int>, last: seq<int>, j: nat, i: nat, sum: int) {
    j <= |last| && 0 <= NextFirst(last, j) <= i <= |size| && sum == SumTo(size, i) - SumTo(size, NextFirst(last, j))
  }

  lemma NothingPlanned(totals: seq<int>, size: seq<int>, n: int, first: seq<int>, last: seq<int>, count: seq<int>,
      displ: seq<int>)
    ensures Planned(totals, n, first, last, 0, 0) && Sends(size, first, last, count, displ, 0)
    ensures SumTo(totals, 0) == 0 && SumTo(size, 0) == 0
  {
  }

  lemma SumNext(totals: seq<int>, size: seq<int>, i: nat)
    requires i < |totals| && i < |size|
    ensures SumTo(totals, i + 1) == SumTo(totals, i) + totals[i] && SumTo(size, i + 1) == SumTo(size, i) + size[i]
  {
  }

  lemma Closing(totals: seq<int>, n: int, p: nat, first: seq<int>, last: seq<int>, j: nat, i: nat)
    requires n > 0 && Planned(totals, n, first, last, j, i) && i < |totals|
    requires NonNegative(totals) && SumTo(totals, |totals|) <= Bound(p, n) && p <= |first| && p <= |last|
    requires SumTo(totals, i + 1) >= Bound(j + 1, n)
    ensures j < p && 0 <= NextFirst(last, j) <= i
    ensures Planned(totals, n, first[j := NextFirst(last, j)], last[j := i], j + 1, i + 1)
  {
    NeverTooMany(totals, n, p, j, i + 1);
    CloseShare(totals, n, first, last, j, i);
  }

  lemma NextDispl(size: seq<int>, first: seq<int>, last: seq<int>, count: seq<int>, displ: seq<int>, j: nat)
    requires 0 < j && Sends(size, first, last, count, displ, j)
    ensures 0 <= NextFirst(last, j) <= |size| && displ[j - 1] + count[j - 1] == SumTo(size, NextFirst(last, j))
  {
  }

  lemma SamePlan(totals: seq<int>, size: seq<int>, n: int, first: seq<int>, first': seq<int>, last: seq<int>,
      count: seq<int>, count': seq<int>, displ: seq<int>, j: nat)
    requires Planned(totals, n, first, last, j, |totals|) && Sends(size, first, last, count, displ, j)
    requires |first'| == |first| && |count'| == |count| && first'[..j] == first[..j] && count'[..j] == count[..j]
    ensures Planned(totals, n, first', last, j, |totals|) && Sends(size, first', last, count', displ, j)
  {
    forall k | 0 <= k < j
      ensures first'[k] == first[k] && Share(totals, n, first', last, k, |totals|)
    {
      assert first'[k] == first'[..j][k] == first[..j][k];
      assert Share(totals, n, first, last, k, |totals|);
    }
    assert forall k :: 0 <= k < j ==> count'[k] == count'[..j][k] == count[..j][k] == count[k];
  }

  // ---- What the plan achieves ----

  /** Every bucket that holds a key is in some share. */
  lemma CoversAllKeys(totals: seq<int>, n: int, p: nat, first: seq<int>, last: seq<int>, j: nat)
    requires n > 0 && p > 0 && Planned(totals, n, first, last, j, |totals|) && j <= p
    requires NonNegative(totals) && SumTo(totals, |totals|) == Bound(p, n)
    ensures j > 0
    ensures SumTo(totals, NextFirst(last, j)) == SumTo(totals, |totals|)
    ensures forall b :: NextFirst(last, j) <= b < |totals| ==> totals[b] == 0
  {
    Product(1, p, n);
    if j < p { Product(j + 1, p, n); }
    var e := NextFirst(last, j);
    SumMono(totals, e, |totals|);
    if j > 0 { assert Share(totals, n, first, last, j - 1, |totals|); }
    forall b | e <= b < |totals|
      ensures totals[b] == 0
    {
      SumMono(totals, e, b);
      SumMono(totals, b + 1, |totals|);
    }
  }

  /** A share is less than the average plus its last bucket. */
  lemma LoadBound(totals: seq<int>, n: int, first: seq<int>, last: seq<int>, j: nat, k: nat)
    requires n > 0 && Planned(totals, n, first, last, j, |totals|) && k < j
    ensures Share(totals, n, first, last, k, |totals|)
    ensures SumTo(totals, last[k] + 1) - SumTo(totals, first[k]) <= n - 1 + totals[last[k]]
  {
    hide Bound;
    BoundNext(k, n);
    assert Share(totals, n, first, last, k, |totals|);
    if k > 0 {
      assert Share(totals, n, first, last, k - 1, |totals|);
    } else {
      assert Bound(0, n) == 0 by { BoundZero(n); }
    }
    assert SumTo(totals, last[k] + 1) == SumTo(totals, last[k]) + totals[last[k]];
  }

  /** Shares are ascending and disjoint. */
  lemma {:induction false} SharesAscend(totals: seq<int>, n: int, first: seq<int>, last: seq<int>, j: nat, a: nat,
      b: nat)
    requires Planned(totals, n, first, last, j, |totals|) && a < b < j
    ensures last[a] < first[b]
  {
    assert Share(totals, n, first, last, b, |totals|);
    if a + 1 < b {
      SharesAscend(totals, n, first, last, j, a, b - 1);
      assert Share(totals, n, first, last, b - 1, |totals|);
    }
  }

  /** A rank sends all its keys: the counts add up to everything it has in the handed-out buckets. */
  lemma {:induction false} CountsAddUp(totals: seq<int>, size: seq<int>, n: int, first: seq<int>, last: seq<int>,
      count: seq<int>, displ: seq<int>, j: nat, k: nat)
    requires Planned(totals, n, first, last, j, |totals|) && Sends(size, first, last, count, displ, j) && k <= j
    requires |size| == |totals|
    ensures 0 <= NextFirst(last, k) <= |size| && SumTo(count, k) == SumTo(size, NextFirst(last, k))
  {
    if k > 0 {
      CountsAddUp(totals, size, n, first, last, count, displ, j, k - 1);
      assert Share(totals, n, first, last, k - 1, |totals|);
    }
  }

  // ---- When every rank gets a share ----

  /** The last `d` buckets exist and hold at most `d` times the average. */
  ghost predicate TailFits(totals: seq<int>, n: int, d: nat) {
    d <= |totals| && SumTo(totals, |totals|) - SumTo(totals, |totals| - d) <= Bound(d, n)
  }

  lemma BoundDifference(a: int, b: int, n: int)
    ensures Bound(a, n) - Bound(b, n) == Bound(a - b, n)
  {
  }

  /** Each share ends at least one bucket after the one before. */
  lemma {:induction false} LastGrows(totals: seq<int>, n: int, first: seq<int>, last: seq<int>, j: nat, a: nat, b: nat)
    requires Planned(totals, n, first, last, j, |totals|) && a <= b < j
    ensures last[a] + (b - a) <= last[b] < |totals|
    decreases b
  {
    hide SumTo, Bound;
    assert Share(totals, n, first, last, b, |totals|);
    if a < b { LastGrows(totals, n, first, last, j, a, b - 1); }
  }

  /**
   Before a share comes a run of shares of one bucket, and before the run a share that was still short of its
   multiple.
   */
  lemma {:induction false} ShortShare(totals: seq<int>, n: int, first: seq<int>, last: seq<int>, j: nat, k: nat)
      returns (k0: nat)
    requires n > 0 && Planned(totals, n, first, last, j, |totals|) && k < j
    ensures k0 <= k && last[k] == last[k0] + (k - k0)
    ensures 0 <= last[k0] < |totals| && SumTo(totals, last[k0]) < Bound(k0 + 1, n)
  {
    hide Bound;
    assert Share(totals, n, first, last, k, |totals|);
    if first[k] < last[k] || k == 0 {
      k0 := k;
      BoundNext(0, n);
      BoundZero(n);
    } else {
      k0 := ShortShare(totals, n, first, last, j, k - 1);
    }
  }

  lemma AllSharesLeaveTailsSmall(totals: seq<int>, n: int, p: nat, first: seq<int>, last: seq<int>, d: nat)
    requires Planned(totals, n, first, last, p, |totals|) && d < p
    requires NonNegative(totals) && SumTo(totals, |totals|) == Bound(p, n)
    ensures TailFits(totals, n, d)
  {
    hide Bound;
    var k := p - d - 1;
    assert Share(totals, n, first, last, k, |totals|);
    LastGrows(totals, n, first, last, p, k, p - 1);
    SumMono(totals, last[k] + 1, |totals| - d);
    BoundDifference(p, k + 1, n);
  }

  lemma SmallTailsGiveAllShares(totals: seq<int>, n: int, p: nat, first: seq<int>, last: seq<int>, j: nat)
    requires n > 0 && p > 0 && Planned(totals, n, first, last, j, |totals|) && j <= p
    requires NonNegative(totals) && SumTo(totals, |totals|) == Bound(p, n)
    requires forall d :: 0 <= d < p ==> TailFits(totals, n, d)
    ensures j == p
  {
    hide Bound;
    CoversAllKeys(totals, n, p, first, last, j);
    if j < p {
      AllHandedOut(totals, n, p, first, last, j);
      var k0 := ShortShare(totals, n, first, last, j, j - 1);
      var d := p - (k0 + 1);
      assert TailFits(totals, n, d);
      BoundDifference(p, d, n);
      if |totals| - d <= last[k0] { SumMono(totals, |totals| - d, last[k0]); }
    }
  }

  /** A bucket left over after the last share would have closed another one. */
  lemma AllHandedOut(totals: seq<int>, n: int, p: nat, first: seq<int>, last: seq<int>, j: nat)
    requires n > 0 && Planned(totals, n, first, last, j, |totals|) && 0 < j < p
    requires SumTo(totals, |totals|) == Bound(p, n)
    ensures last[j - 1] == |totals| - 1
  {
    hide SumTo, Share;
    Product(j + 1, p, n);
  }

  /**
   No rank is left without a share exactly when no stretch of buckets at the end holds more than its number
   of average shares.
   */
  lemma EveryRankHasAShare(totals: seq<int>, n: int, p: nat, first: seq<int>, last: seq<int>, j: nat)
    requires n > 0 && p > 0 && Planned(totals, n, first, last, j, |totals|) && j <= p
    requires NonNegative(totals) && SumTo(totals, |totals|) == Bound(p, n)
    ensures j == p <==> forall d :: 0 <= d < p ==> TailFits(totals, n, d)
  {
    hide Bound, Planned, TailFits;
    if j == p {
      forall d | 0 <= d < p
        ensures TailFits(totals, n, d)
      {
        AllSharesLeaveTailsSmall(totals, n, p, first, last, d);
      }
    } else if forall d :: 0 <= d < p ==> TailFits(totals, n, d) {
      SmallTailsGiveAllShares(totals, n, p, first, last, j);
    }
  }

  /** Two ranks with one key each, both keys in the last of two buckets: the second rank is left idle. */
  lemma IdleRank(first: seq<int>, last: seq<int>, j: nat)
    requires Planned([0, 2], 1, first, last, j, 2) && j <= 2
    ensures NonNegative([0, 2]) && SumTo([0, 2], 2) == Bound(2, 1) && !TailFits([0, 2], 1, 1)
    ensures j == 1
  {
    assert SumTo([0, 2], 0) == 0 && SumTo([0, 2], 1) == 0 && SumTo([0, 2], 2) == 2;
    EveryRankHasAShare([0, 2], 1, 2, first, last, j);
    CoversAllKeys([0, 2], 1, 2, first, last, j);
  }
}
