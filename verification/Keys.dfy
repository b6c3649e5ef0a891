/**
 Keys by value range: the one notion behind buckets, counts and the shares of the ranks in the
 integer sort.
 */
module Keys {

  /** The elements of `s` in [lo, hi), in order. */
  function Keep(s: seq<int>, lo: int, hi: int): (r: seq<int>)
    ensures |r| <= |s|
  {
    if s == [] then []
    else Keep(s[..|s| - 1], lo, hi) + if lo <= s[|s| - 1] < hi then [s[|s| - 1]] else []
  }

  lemma KeepNext(s: seq<int>, i: nat, lo: int, hi: int)
    requires i < |s|
    ensures Keep(s[..i + 1], lo, hi) == Keep(s[..i], lo, hi) + if lo <= s[i] < hi then [s[i]] else []
  {
    assert s[..i + 1][..i] == s[..i];
  }

  lemma {:induction false} KeepPrefix(s: seq<int>, i: nat, lo: int, hi: int)
    requires i <= |s|
    ensures |Keep(s[..i], lo, hi)| <= |Keep(s, lo, hi)|
    decreases |s| - i
  {
    if i == |s| {
      assert s[..i] == s;
    } else {
      KeepNext(s, i, lo, hi);
      KeepPrefix(s, i + 1, lo, hi);
    }
  }

  lemma KeepLast(s: seq<int>, lo: int, hi: int)
    requires s != []
    ensures var last := s[|s| - 1];
      Keep(s, lo, hi) == Keep(s[..|s| - 1], lo, hi) + if lo <= last < hi then [last] else []
  {
  }

  /** Adjacent ranges add up, as multisets. */
  lemma {:induction false} KeepSplit(s: seq<int>, a: int, b: int, c: int)
    requires a <= b <= c
    ensures multiset(Keep(s, a, c)) == multiset(Keep(s, a, b)) + multiset(Keep(s, b, c))
    ensures |Keep(s, a, c)| == |Keep(s, a, b)| + |Keep(s, b, c)|
  {
    if s != [] {
      hide Keep;
      KeepSplit(s[..|s| - 1], a, b, c);
      KeepLast(s, a, b);
      KeepLast(s, b, c);
      KeepLast(s, a, c);
    }
  }

  lemma {:induction false} KeepAll(s: seq<int>, lo: int, hi: int)
    requires forall i :: 0 <= i < |s| ==> lo <= s[i] < hi
    ensures Keep(s, lo, hi) == s
  {
    if s != [] {
      KeepAll(s[..|s| - 1], lo, hi);
      assert s == s[..|s| - 1] + [s[|s| - 1]];
    }
  }

  lemma {:induction false} KeepNone(s: seq<int>, lo: int, hi: int)
    requires lo >= hi
    ensures Keep(s, lo, hi) == []
  {
    if s != [] { KeepNone(s[..|s| - 1], lo, hi); }
  }

  lemma {:induction false} KeepIn(s: seq<int>, lo: int, hi: int)
    ensures forall i :: 0 <= i < |Keep(s, lo, hi)| ==> lo <= Keep(s, lo, hi)[i] < hi
  {
    if s != [] { KeepIn(s[..|s| - 1], lo, hi); }
  }

  /** Counting a single value. */
  lemma {:induction false} KeepOne(s: seq<int>, v: int)
    ensures |Keep(s, v, v + 1)| == multiset(s)[v]
  {
    if s != [] {
      hide Keep;
      KeepOne(s[..|s| - 1], v);
      KeepLast(s, v, v + 1);
      CountLast(s, v);
    }
  }

  lemma CountLast(s: seq<int>, v: int)
    requires s != []
    ensures multiset(s)[v] == multiset(s[..|s| - 1])[v] + if s[|s| - 1] == v then 1 else 0
  {
    assert s == s[..|s| - 1] + [s[|s| - 1]];
  }

  predicate Sorted(s: seq<int>) {
    forall i, j :: 0 <= i < j < |s| ==> s[i] <= s[j]
  }

  /** The sum of the first `n` entries. */
  function SumTo(s: seq<int>, n: nat): int
    requires n <= |s|
  {
    if n == 0 then 0 else SumTo(s, n - 1) + s[n - 1]
  }

  lemma {:induction false} SumMono(s: seq<int>, a: nat, b: nat)
    requires a <= b <= |s| && forall i :: 0 <= i < |s| ==> s[i] >= 0
    ensures SumTo(s, a) <= SumTo(s, b)
  {
    if a < b { SumMono(s, a, b - 1); }
  }

  /** The first key of bucket `b` when buckets are `w` keys wide. */
  function Bound(b: int, w: int): int {
    b * w
  }

  /** `key >> shift` is the bucket whose range holds the key. */
  lemma InBucket(key: int, w: int, b: int)
    requires w > 0
    ensures Bound(b, w) <= key < Bound(b + 1, w) <==> key / w == b
  {
    var q := key / w;
    assert key == q * w + key % w;
    if q < b { Product(q + 1, b, w); }
    if q > b { Product(b + 1, q, w); }
  }

  lemma Product(a: int, b: int, w: int)
    requires a <= b && w > 0
    ensures Bound(a, w) <= Bound(b, w)
  {
    assert (b - a) * w >= 0;
  }

  function BucketKeys(s: seq<int>, b: int, w: int): seq<int> {
    Keep(s, Bound(b, w), Bound(b + 1, w))
  }
}
