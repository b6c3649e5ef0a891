/**
 The first half of the integer sort on one rank: keys are counted and grouped by bucket.
 */
module BucketSort {
  import opened Keys

  ghost predicate Sized(size: seq<int>, keys: seq<int>, w: int) {
    forall b :: 0 <= b < |size| ==> size[b] == |BucketKeys(keys, b, w)|
  }

  /** Every key falls into one of the buckets. */
  ghost predicate InBuckets(keys: seq<int>, buckets: nat, w: int) {
    w > 0 && forall i :: 0 <= i < |keys| ==> 0 <= keys[i] / w < buckets
  }

  predicate Holds(buff: seq<int>, lo: int, hi: int, part: seq<int>) {
    0 <= lo <= hi <= |buff| && buff[lo..hi] == part
  }

  /** After `i` keys every bucket holds its keys among them, in order, from its start on. */
  ghost predicate Placed(buff: seq<int>, ptrs: seq<int>, size: seq<int>, keys: seq<int>, w: int, i: nat) {
    && i <= |keys| && |ptrs| == |size|
    && forall b :: 0 <= b < |size| ==> Holds(buff, SumTo(size, b), ptrs[b], BucketKeys(keys[..i], b, w))
  }

  lemma NextInBucket(keys: seq<int>, i: nat, b: int, w: int)
    requires i < |keys| && w > 0
    ensures BucketKeys(keys[..i + 1], b, w) == BucketKeys(keys[..i], b, w) + if keys[i] / w == b then [keys[i]] else []
  {
    KeepNext(keys, i, Bound(b, w), Bound(b + 1, w));
    InBucket(keys[i], w, b);
  }

  lemma CountStep(size: seq<int>, keys: seq<int>, w: int, i: nat)
    requires i < |keys| && Sized(size, keys[..i], w) && w > 0 && 0 <= keys[i] / w < |size|
    ensures Sized(size[keys[i] / w := size[keys[i] / w] + 1], keys[..i + 1], w)
  {
    var size' := size[keys[i] / w := size[keys[i] / w] + 1];
    forall b | 0 <= b < |size'|
      ensures size'[b] == |BucketKeys(keys[..i + 1], b, w)|
    {
      NextInBucket(keys, i, b, w);
    }
  }

  /** The bucket of key `i` has room left, inside its own part of the buffer. */
  lemma RoomInBucket(buff: seq<int>, ptrs: seq<int>, size: seq<int>, keys: seq<int>, w: int, i: nat)
    requires Placed(buff, ptrs, size, keys, w, i) && Sized(size, keys, w) && i < |keys| && w > 0
    requires 0 <= keys[i] / w < |size|
    ensures var b := keys[i] / w; SumTo(size, b) <= ptrs[b] < SumTo(size, b + 1)
  {
    hide BucketKeys, Sized, Placed;
    var b := keys[i] / w;
    HoldsOne(buff, ptrs, size, keys, w, i, b);
    SizedAt(size, keys, w, b);
    NextInBucket(keys, i, b, w);
    BucketPrefix(keys, i + 1, b, w);
  }

  lemma SizedAt(size: seq<int>, keys: seq<int>, w: int, b: nat)
    requires Sized(size, keys, w) && b < |size|
    ensures size[b] == |BucketKeys(keys, b, w)|
  {
  }

  lemma SizesNotNegative(size: seq<int>, keys: seq<int>, w: int)
    requires Sized(size, keys, w)
    ensures forall b :: 0 <= b < |size| ==> size[b] >= 0
  {
  }

  lemma BucketPrefix(keys: seq<int>, i: nat, b: int, w: int)
    requires i <= |keys|
    ensures |BucketKeys(keys[..i], b, w)| <= |BucketKeys(keys, b, w)|
  {
    KeepPrefix(keys, i, Bound(b, w), Bound(b + 1, w));
  }

  lemma PlaceStep(buff: seq<int>, ptrs: seq<int>, size: seq<int>, keys: seq<int>, w: int, i: nat)
    requires Placed(buff, ptrs, size, keys, w, i) && Sized(size, keys, w) && i < |keys| && w > 0
    requires 0 <= keys[i] / w < |size|
    requires SumTo(size, |size|) <= |buff|
    ensures var b := keys[i] / w;
      && 0 <= ptrs[b] < |buff|
      && Placed(buff[ptrs[b] := keys[i]], ptrs[b := ptrs[b] + 1], size, keys, w, i + 1)
  {
    hide BucketKeys, Sized, Placed, Holds;
    var b := keys[i] / w;
    HoldsOne(buff, ptrs, size, keys, w, i, b);
    RoomInBucket(buff, ptrs, size, keys, w, i);
    SizesNotNegative(size, keys, w);
    SumMono(size, 0, b);
    SumMono(size, b + 1, |size|);
    forall c | 0 <= c < |size|
      ensures Holds(buff[ptrs[b] := keys[i]], SumTo(size, c), ptrs[b := ptrs[b] + 1][c],
        BucketKeys(keys[..i + 1], c, w))
    {
      PlaceOne(buff, ptrs, size, keys, w, i, c);
    }
    AllPlaced(buff[ptrs[b] := keys[i]], ptrs[b := ptrs[b] + 1], size, keys, w, i + 1);
  }

  lemma AllPlaced(buff: seq<int>, ptrs: seq<int>, size: seq<int>, keys: seq<int>, w: int, i: nat)
    requires i <= |keys| && |ptrs| == |size|
    requires forall b :: 0 <= b < |size| ==> Holds(buff, SumTo(size, b), ptrs[b], BucketKeys(keys[..i], b, w))
    ensures Placed(buff, ptrs, size, keys, w, i)
  {
  }

  lemma PlaceOne(buff: seq<int>, ptrs: seq<int>, size: seq<int>, keys: seq<int>, w: int, i: nat, c: nat)
    requires Placed(buff, ptrs, size, keys, w, i) && Sized(size, keys, w) && i < |keys| && w > 0
    requires 0 <= keys[i] / w < |size|
    requires c < |size| && 0 <= ptrs[keys[i] / w] < |buff|
    ensures var b := keys[i] / w;
      Holds(buff[ptrs[b] := keys[i]], SumTo(size, c), ptrs[b := ptrs[b] + 1][c], BucketKeys(keys[..i + 1], c, w))
  {
    hide BucketKeys, SumTo, Sized, Placed;
    HoldsOne(buff, ptrs, size, keys, w, i, c);
    var b, lo, hi := keys[i] / w, SumTo(size, c), ptrs[c];
    NextInBucket(keys, i, c, w);
    if c != b { Apart(buff, ptrs, size, keys, w, i, c); }
    if c == b {
      assert buff[ptrs[b] := keys[i]][lo..hi + 1] == buff[lo..hi] + [keys[i]];
    } else {
      assert buff[ptrs[b] := keys[i]][lo..hi] == buff[lo..hi];
    }
  }

  lemma HoldsOne(buff: seq<int>, ptrs: seq<int>, size: seq<int>, keys: seq<int>, w: int, i: nat, c: nat)
    requires Placed(buff, ptrs, size, keys, w, i) && c < |size|
    ensures i <= |keys| && |ptrs| == |size| && Holds(buff, SumTo(size, c), ptrs[c], BucketKeys(keys[..i], c, w))
  {
  }

  /** What is written for key `i` lies in no other bucket's part. */
  lemma Apart(buff: seq<int>, ptrs: seq<int>, size: seq<int>, keys: seq<int>, w: int, i: nat, c: nat)
    requires Placed(buff, ptrs, size, keys, w, i) && Sized(size, keys, w) && i < |keys| && w > 0
    requires 0 <= keys[i] / w < |size|
    requires c < |size| && c != keys[i] / w
    ensures var p := ptrs[keys[i] / w]; p < SumTo(size, c) || ptrs[c] <= p
  {
    hide BucketKeys, Sized, Placed, Holds, SumTo;
    var b := keys[i] / w;
    HoldsOne(buff, ptrs, size, keys, w, i, c);
    RoomInBucket(buff, ptrs, size, keys, w, i);
    SizesNotNegative(size, keys, w);
    BucketEnd(buff, ptrs, size, keys, w, i, c);
    if c < b {
      SumMono(size, c + 1, b);
    } else {
      SumMono(size, b + 1, c);
    }
  }

  lemma BucketEnd(buff: seq<int>, ptrs: seq<int>, size: seq<int>, keys: seq<int>, w: int, i: nat, c: nat)
    requires Placed(buff, ptrs, size, keys, w, i) && Sized(size, keys, w) && c < |size|
    ensures ptrs[c] <= SumTo(size, c + 1)
  {
    hide BucketKeys, Sized, Placed;
    HoldsOne(buff, ptrs, size, keys, w, i, c);
    SizedAt(size, keys, w, c);
    BucketPrefix(keys, i, c, w);
  }

  /** Each bucket counts its keys. */
  method CountBuckets(keyArray: array<int>, n: nat, bucketSize: array<int>, w: int)
    requires keyArray != bucketSize && n <= keyArray.Length && InBuckets(keyArray[..n], bucketSize.Length, w)
    modifies bucketSize
    ensures Sized(bucketSize[..], keyArray[..n], w)
  {
    var i := 0;
    while i < bucketSize.Length
      invariant 0 <= i <= bucketSize.Length && forall b :: 0 <= b < i ==> bucketSize[b] == 0
    {
      bucketSize[i] := 0;
      i := i + 1;
    }
    ghost var keys := keyArray[..n];
    i := 0;
    while i < n
      invariant 0 <= i <= n && keyArray[..n] == keys
      invariant Sized(bucketSize[..], keys[..i], w)
    {
      var b := keyArray[i] / w;
      assert keyArray[i] == keys[i];
      CountStep(bucketSize[..], keys, w, i);
      ghost var size := bucketSize[..];
      bucketSize[b] := bucketSize[b] + 1;
      assert bucketSize[..] == size[b := size[b] + 1];
      i := i + 1;
    }
    assert keys[..n] == keys;
  }

  /** A bucket starts where the buckets before it end. */
  method BucketPointers(bucketSize: array<int>, bucketPtrs: array<int>)
    requires bucketSize != bucketPtrs && bucketSize.Length == bucketPtrs.Length > 0
    modifies bucketPtrs
    ensures forall b :: 0 <= b < bucketPtrs.Length ==> bucketPtrs[b] == SumTo(bucketSize[..], b)
  {
    bucketPtrs[0] := 0;
    var i := 1;
    while i < bucketPtrs.Length
      invariant 1 <= i <= bucketPtrs.Length && forall b :: 0 <= b < i ==> bucketPtrs[b] == SumTo(bucketSize[..], b)
    {
      bucketPtrs[i] := bucketPtrs[i - 1] + bucketSize[i - 1];
      i := i + 1;
    }
  }

  /**
   Every key goes to the next free place of its bucket: afterwards each bucket's part of the buffer, delimited by the
   running sums of the sizes, is exactly the keys of that bucket in their original order.
   */
  method SortIntoBuckets(keyArray: array<int>, n: nat, bucketSize: array<int>, bucketPtrs: array<int>,
      keyBuff1: array<int>, w: int)
    requires keyArray != bucketPtrs && keyArray != keyBuff1 && bucketPtrs != keyBuff1 && bucketSize != bucketPtrs
    requires bucketSize != keyBuff1
    requires bucketSize.Length == bucketPtrs.Length && n <= keyArray.Length
    requires InBuckets(keyArray[..n], bucketSize.Length, w) && Sized(bucketSize[..], keyArray[..n], w)
    requires forall b :: 0 <= b < bucketPtrs.Length ==> bucketPtrs[b] == SumTo(bucketSize[..], b)
    requires SumTo(bucketSize[..], bucketSize.Length) <= keyBuff1.Length
    modifies bucketPtrs, keyBuff1
    ensures forall b :: 0 <= b < bucketSize.Length ==>
      Holds(keyBuff1[..], SumTo(bucketSize[..], b), SumTo(bucketSize[..], b + 1), BucketKeys(keyArray[..n], b, w))
  {
    hide Placed, Sized, SumTo, Holds;
    ghost var keys, size := keyArray[..n], bucketSize[..];
    PlacedNone(keyBuff1[..], bucketPtrs[..], size, keys, w);
    var i := 0;
    while i < n
      invariant 0 <= i <= n && keyArray[..n] == keys && bucketSize[..] == size
      invariant Placed(keyBuff1[..], bucketPtrs[..], size, keys, w, i)
    {
      var key := keyArray[i];
      assert key == keys[i];
      ghost var buff, ptrs := keyBuff1[..], bucketPtrs[..];
      PlaceStep(buff, ptrs, size, keys, w, i);
      var p := bucketPtrs[key / w];
      keyBuff1[p] := key;
      bucketPtrs[key / w] := p + 1;
      assert keyBuff1[..] == buff[p := key];
      assert bucketPtrs[..] == ptrs[key / w := p + 1];
      i := i + 1;
    }
    PlacedAll(keyBuff1[..], bucketPtrs[..], size, keys, w);
  }

  lemma PlacedNone(buff: seq<int>, ptrs: seq<int>, size: seq<int>, keys: seq<int>, w: int)
    requires |ptrs| == |size| && SumTo(size, |size|) <= |buff| && Sized(size, keys, w)
    requires forall b :: 0 <= b < |ptrs| ==> ptrs[b] == SumTo(size, b)
    ensures Placed(buff, ptrs, size, keys, w, 0)
  {
    forall b | 0 <= b < |size|
      ensures Holds(buff, SumTo(size, b), ptrs[b], BucketKeys(keys[..0], b, w))
    {
      SumMono(size, 0, b);
      SumMono(size, b, |size|);
    }
  }

  lemma PlacedAll(buff: seq<int>, ptrs: seq<int>, size: seq<int>, keys: seq<int>, w: int)
    requires Placed(buff, ptrs, size, keys, w, |keys|) && Sized(size, keys, w)
    ensures forall b :: 0 <= b < |size| ==> Holds(buff, SumTo(size, b), SumTo(size, b + 1), BucketKeys(keys, b, w))
  {
    assert keys[..|keys|] == keys;
    forall b | 0 <= b < |size|
      ensures Holds(buff, SumTo(size, b), SumTo(size, b + 1), BucketKeys(keys, b, w))
    {
      assert Holds(buff, SumTo(size, b), ptrs[b], BucketKeys(keys, b, w));
    }
  }
}
