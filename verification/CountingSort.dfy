/**
 The second half of the integer sort on one rank: the keys it received are ranked by counting, and
 the permutation loop of the verification puts them in order.
 */
module CountingSort {
  import opened Keys

  /** How many received keys are at most `v`. */
  function AtMost(recv: seq<int>, min: int, v: int): nat {
    |Keep(recv, min, v + 1)|
  }

  /** How many received keys equal `v`. */
  function Times(recv: seq<int>, v: int): nat {
    multiset(recv)[v]
  }

  lemma TimesNext(recv: seq<int>, i: nat, v: int)
    requires i < |recv|
    ensures Times(recv[..i + 1], v) == Times(recv[..i], v) + if recv[i] == v then 1 else 0
  {
    assert recv[..i + 1] == recv[..i] + [recv[i]];
  }

  /** The entry of key `v` in an array that is used shifted down by `min`. */
  function Slot(a: seq<int>, min: int, v: int): int
    requires min <= v < min + |a|
  {
    a[v - min]
  }

  ghost predicate InRange(recv: seq<int>, min: int, max: int) {
    forall i :: 0 <= i < |recv| ==> min <= recv[i] <= max
  }

  /** Slot `v - min` counts the keys equal to `v`. */
  ghost predicate Counted(pop: seq<int>, recv: seq<int>, min: int, max: int) {
    max - min + 1 <= |pop| && forall v :: min <= v <= max ==> Slot(pop, min, v) == Times(recv, v)
  }

  /** Slots up to key `upto` hold ranks, the others still counts. */
  ghost predicate Ranked(pop: seq<int>, recv: seq<int>, min: int, max: int, upto: int) {
    && max - min + 1 <= |pop|
    && forall v :: min <= v <= max ==> Slot(pop, min, v) == if v <= upto then AtMost(recv, min, v) else Times(recv, v)
  }

  lemma CountOne(pop: seq<int>, recv: seq<int>, min: int, max: int, i: nat)
    requires i < |recv| && InRange(recv, min, max) && Counted(pop, recv[..i], min, max)
    ensures Counted(pop[recv[i] - min := pop[recv[i] - min] + 1], recv[..i + 1], min, max)
  {
    var pop', key := pop[recv[i] - min := pop[recv[i] - min] + 1], recv[i];
    forall v | min <= v <= max
      ensures Slot(pop', min, v) == Times(recv[..i + 1], v)
    {
      assert Slot(pop, min, v) == Times(recv[..i], v);
      TimesNext(recv, i, v);
    }
  }

  /** Clear the work array, then count the individual populations. `keyBuff1` is used shifted down by `min`. */
  method CountPopulation(keyBuff1: array<int>, keyBuff2: array<int>, total: nat, min: int, max: int)
    requires keyBuff1 != keyBuff2 && total <= keyBuff2.Length && 0 <= max - min + 1 <= keyBuff1.Length
    requires InRange(keyBuff2[..total], min, max)
    modifies keyBuff1
    ensures Counted(keyBuff1[..], keyBuff2[..total], min, max)
  {
    hide Counted;
    ghost var recv := keyBuff2[..total];
    var i := 0;
    while i < max - min + 1
      invariant 0 <= i <= max - min + 1 && forall k :: 0 <= k < i ==> keyBuff1[k] == 0
    {
      keyBuff1[i] := 0;
      i := i + 1;
    }
    CountedNone(keyBuff1[..], recv, min, max);
    i := 0;
    while i < total
      invariant 0 <= i <= total && keyBuff2[..total] == recv && Counted(keyBuff1[..], recv[..i], min, max)
    {
      ghost var pop := keyBuff1[..];
      var key := keyBuff2[i];
      assert key == recv[i];
      CountOne(pop, recv, min, max, i);
      keyBuff1[key - min] := keyBuff1[key - min] + 1;
      assert keyBuff1[..] == pop[key - min := pop[key - min] + 1];
      i := i + 1;
    }
    assert recv[..total] == recv;
  }

  lemma CountedNone(pop: seq<int>, recv: seq<int>, min: int, max: int)
    requires 0 <= max - min + 1 <= |pop| && forall k :: 0 <= k < max - min + 1 ==> pop[k] == 0
    ensures Counted(pop, recv[..0], min, max)
  {
  }

  lemma RankOne(pop: seq<int>, recv: seq<int>, min: int, max: int, i: int)
    requires min <= i < max && Ranked(pop, recv, min, max, i)
    ensures Ranked(pop[i + 1 - min := pop[i + 1 - min] + pop[i - min]], recv, min, max, i + 1)
  {
    var pop', i' := pop[i + 1 - min := pop[i + 1 - min] + pop[i - min]], i + 1;
    assert Slot(pop, min, i) == AtMost(recv, min, i) && Slot(pop, min, i') == Times(recv, i');
    KeepSplit(recv, min, i', i' + 1);
    KeepOne(recv, i');
    forall v | min <= v <= max
      ensures Slot(pop', min, v) == if v <= i' then AtMost(recv, min, v) else Times(recv, v)
    {
      if v != i' { assert Slot(pop', min, v) == Slot(pop, min, v); }
    }
  }

  /** Counts become running counts, in place, from the smallest key on. */
  method Accumulate(keyBuff1: array<int>, min: int, max: int, ghost recv: seq<int>)
    requires Counted(keyBuff1[..], recv, min, max)
    modifies keyBuff1
    ensures min <= max ==> Ranked(keyBuff1[..], recv, min, max, max)
  {
    hide Ranked, Counted;
    if min <= max { RankedFirst(keyBuff1[..], recv, min, max); }
    assert max - min + 1 <= keyBuff1.Length by { CountedFits(keyBuff1[..], recv, min, max); }
    var i := min;
    while i < max
      invariant min <= i && (min <= max ==> i <= max && Ranked(keyBuff1[..], recv, min, max, i))
    {
      RankOne(keyBuff1[..], recv, min, max, i);
      ghost var pop := keyBuff1[..];
      keyBuff1[i + 1 - min] := keyBuff1[i + 1 - min] + keyBuff1[i - min];
      assert keyBuff1[..] == pop[i + 1 - min := pop[i + 1 - min] + pop[i - min]];
      i := i + 1;
    }
  }

  lemma CountedFits(pop: seq<int>, recv: seq<int>, min: int, max: int)
    requires Counted(pop, recv, min, max)
    ensures max - min + 1 <= |pop|
  {
  }

  lemma RankedFirst(pop: seq<int>, recv: seq<int>, min: int, max: int)
    requires Counted(pop, recv, min, max) && min <= max
    ensures Ranked(pop, recv, min, max, min)
  {
    KeepOne(recv, min);
  }

  // ---- The permutation loop ----

  /**
   After `i` keys: the pointer of `v` has moved down once for each of them equal to `v`, and what it passed
   holds `v`.
   */
  ghost predicate Filled(out: seq<int>, ptrs: seq<int>, recv: seq<int>, min: int, max: int, i: nat) {
    && i <= |recv| <= |out| && max - min + 1 <= |ptrs|
    && forall v :: min <= v <= max ==> FilledFor(out, Slot(ptrs, min, v), recv, min, v, i)
  }

  ghost predicate FilledFor(out: seq<int>, ptr: int, recv: seq<int>, min: int, v: int, i: nat)
    requires i <= |recv| <= |out|
  {
    && ptr == AtMost(recv, min, v) - Times(recv[..i], v)
    && forall p :: 0 <= p < |out| && ptr <= p < AtMost(recv, min, v) ==> out[p] == v
  }

  /** The keys below `v`, those equal to `v`, and how many of the latter are among the first `i`. */
  lemma Shelf(recv: seq<int>, min: int, v: int, i: nat)
    requires i <= |recv| && min <= v
    ensures AtMost(recv, min, v) == |Keep(recv, min, v)| + Times(recv, v)
    ensures Times(recv[..i], v) <= Times(recv, v)
  {
    KeepSplit(recv, min, v, v + 1);
    KeepOne(recv, v);
    assert recv == recv[..i] + recv[i..];
  }

  lemma Ascending(recv: seq<int>, min: int, u: int, v: int)
    requires min <= u < v
    ensures AtMost(recv, min, u) <= |Keep(recv, min, v)|
  {
    KeepSplit(recv, min, u + 1, v);
  }

  lemma FillStep(out: seq<int>, ptrs: seq<int>, recv: seq<int>, min: int, max: int, i: nat)
    requires Filled(out, ptrs, recv, min, max, i) && i < |recv| && InRange(recv, min, max)
    ensures var v := recv[i]; var p := ptrs[v - min] - 1;
      0 <= p < |out| && Filled(out[p := v], ptrs[v - min := p], recv, min, max, i + 1)
  {
    hide AtMost, FilledFor;
    var v := recv[i];
    FillHere(out, ptrs, recv, min, max, i);
    var p := ptrs[v - min] - 1;
    var out', ptrs', i' := out[p := v], ptrs[v - min := p], i + 1;
    forall u | min <= u <= max
      ensures FilledFor(out', Slot(ptrs', min, u), recv, min, u, i')
    {
      if u != v { FillOther(out, ptrs, recv, min, max, i, u); }
    }
  }

  lemma FillHere(out: seq<int>, ptrs: seq<int>, recv: seq<int>, min: int, max: int, i: nat)
    requires Filled(out, ptrs, recv, min, max, i) && i < |recv| && InRange(recv, min, max)
    ensures var v := recv[i]; var p := ptrs[v - min] - 1;
      0 <= p < |out| && |Keep(recv, min, v)| <= p < AtMost(recv, min, v)
        && FilledFor(out[p := v], p, recv, min, v, i + 1)
  {
    var v := recv[i];
    assert FilledFor(out, Slot(ptrs, min, v), recv, min, v, i);
    TimesNext(recv, i, v);
    Shelf(recv, min, v, i + 1);
  }

  lemma FillOther(out: seq<int>, ptrs: seq<int>, recv: seq<int>, min: int, max: int, i: nat, u: int)
    requires Filled(out, ptrs, recv, min, max, i) && i < |recv| && InRange(recv, min, max)
    requires min <= u <= max && u != recv[i]
    ensures var v := recv[i]; var p := ptrs[v - min] - 1;
      0 <= p < |out| && FilledFor(out[p := v], Slot(ptrs, min, u), recv, min, u, i + 1)
  {
    hide AtMost, Keep;
    var v := recv[i];
    FillHere(out, ptrs, recv, min, max, i);
    assert FilledFor(out, Slot(ptrs, min, u), recv, min, u, i);
    TimesNext(recv, i, u);
    Shelf(recv, min, u, i);
    if u < v { Ascending(recv, min, u, v); } else { Ascending(recv, min, v, u); }
  }

  lemma FillStart(out: seq<int>, ptrs: seq<int>, recv: seq<int>, min: int, max: int)
    requires min <= max ==> Ranked(ptrs, recv, min, max, max)
    requires |recv| <= |out| && max - min + 1 <= |ptrs|
    ensures Filled(out, ptrs, recv, min, max, 0)
  {
    hide AtMost;
    forall v | min <= v <= max
      ensures FilledFor(out, Slot(ptrs, min, v), recv, min, v, 0)
    {
      assert Slot(ptrs, min, v) == AtMost(recv, min, v);
    }
  }

  /** Every key takes the last place left for its value: the result is the received keys in ascending order. */
  method PlaceKeys(keyArray: array<int>, keyBuff1: array<int>, keyBuff2: array<int>, total: nat, min: int, max: int)
    requires keyArray != keyBuff1 && keyArray != keyBuff2 && keyBuff1 != keyBuff2
    requires total <= keyBuff2.Length && total <= keyArray.Length && 0 <= max - min + 1 <= keyBuff1.Length
    requires InRange(keyBuff2[..total], min, max)
    requires min <= max ==> Ranked(keyBuff1[..], keyBuff2[..total], min, max, max)
    modifies keyArray, keyBuff1
    ensures Sorted(keyArray[..total]) && multiset(keyArray[..total]) == multiset(keyBuff2[..total])
  {
    hide Filled, Ranked, Sorted;
    ghost var recv := keyBuff2[..total];
    FillStart(keyArray[..], keyBuff1[..], recv, min, max);
    var i := 0;
    while i < total
      invariant 0 <= i <= total && keyBuff2[..total] == recv
      invariant Filled(keyArray[..], keyBuff1[..], recv, min, max, i)
    {
      var key := keyBuff2[i];
      assert key == recv[i];
      ghost var out, ptrs := keyArray[..], keyBuff1[..];
      FillStep(out, ptrs, recv, min, max, i);
      keyBuff1[key - min] := keyBuff1[key - min] - 1;
      keyArray[keyBuff1[key - min]] := key;
      assert keyBuff1[..] == ptrs[key - min := ptrs[key - min] - 1];
      assert keyArray[..] == out[ptrs[key - min] - 1 := key];
      i := i + 1;
    }
    FilledSorts(keyArray[..], keyBuff1[..], recv, min, max);
  }

  /** Two constant sequences of one length are equal. */
  lemma Constant(s: seq<int>, t: seq<int>, v: int)
    requires |s| == |t| && (forall i :: 0 <= i < |s| ==> s[i] == v) && (forall i :: 0 <= i < |t| ==> t[i] == v)
    ensures s == t
  {
  }

  lemma {:induction false} SortedUpTo(out: seq<int>, ptrs: seq<int>, recv: seq<int>, min: int, max: int, v: int)
    requires Filled(out, ptrs, recv, min, max, |recv|) && min - 1 <= v <= max
    ensures var n := AtMost(recv, min, v);
      && n <= |out| && multiset(out[..n]) == multiset(Keep(recv, min, v + 1))
      && (forall p :: 0 <= p < n ==> min <= out[p] <= v) && Sorted(out[..n])
    decreases v - min
  {
    if v == min - 1 {
      KeepNone(recv, min, min);
    } else {
      SortedUpTo(out, ptrs, recv, min, max, v - 1);
      LastShelf(out, ptrs, recv, min, max, v);
      var m, n := AtMost(recv, min, v - 1), AtMost(recv, min, v);
      assert out[..n] == out[..m] + out[m..n];
      KeepSplit(recv, min, v, v + 1);
    }
  }

  lemma LastShelf(out: seq<int>, ptrs: seq<int>, recv: seq<int>, min: int, max: int, v: int)
    requires Filled(out, ptrs, recv, min, max, |recv|) && min <= v <= max
    ensures AtMost(recv, min, v - 1) <= AtMost(recv, min, v) <= |out|
    ensures out[AtMost(recv, min, v - 1)..AtMost(recv, min, v)] == Keep(recv, v, v + 1)
    ensures forall p :: AtMost(recv, min, v - 1) <= p < AtMost(recv, min, v) ==> out[p] == v
  {
    assert recv[..|recv|] == recv;
    assert FilledFor(out, Slot(ptrs, min, v), recv, min, v, |recv|);
    Shelf(recv, min, v, |recv|);
    KeepIn(recv, v, v + 1);
    KeepOne(recv, v);
    Constant(out[AtMost(recv, min, v - 1)..AtMost(recv, min, v)], Keep(recv, v, v + 1), v);
  }

  lemma FilledSorts(out: seq<int>, ptrs: seq<int>, recv: seq<int>, min: int, max: int)
    requires Filled(out, ptrs, recv, min, max, |recv|) && InRange(recv, min, max) && min - 1 <= max
    ensures Sorted(out[..|recv|]) && multiset(out[..|recv|]) == multiset(recv)
  {
    hide Filled, Sorted;
    KeepAll(recv, min, max + 1);
    SortedUpTo(out, ptrs, recv, min, max, max);
  }
}
