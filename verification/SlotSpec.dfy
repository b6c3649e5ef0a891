/**
 What the table means: a ring of slots, each empty, a tombstone or holding a pointer, read from
 the pointer's home bucket up to the first empty slot. The class in HTable keeps its words equal
 to the encoding of such a ring; the lemmas here are about the ring alone.
 */
module SlotSpec {
  import opened Numbers
  import opened Words

  /** The rehash callback, by its values: every object that has a hash other than 0 is listed. */
  type Rehash = map<Word, Word>

  function Hash(f: Rehash, p: Word): Word {
    if p in f then f[p] else {}
  }

  datatype Slot = Empty | Tombstone | Live(p: Word)

  /** Bucket distance from `a` forward to `i` on a ring of `n`. */
  function Dist(a: nat, i: nat, n: nat): (d: nat)
    requires a < n && i < n
    ensures d < n
  {
    if a <= i then i - a else i + n - a
  }

  /** The slot `d` steps after `a`. */
  function At(a: nat, d: nat, n: nat): (i: nat)
    requires a < n && d < n
    ensures i < n && Dist(a, i, n) == d
  {
    if a + d < n then a + d else a + d - n
  }

  /** `(i + 1) & ((1 << bits) - 1)` for an index of the ring. */
  function Next(i: nat, n: nat): (r: nat)
    requires i < n
    ensures r < n
  {
    if i + 1 == n then 0 else i + 1
  }

  function Payload(s: Slot): multiset<Word> {
    if s.Live? then multiset{s.p} else multiset{}
  }

  /** The pointers stored in the ring. */
  function Contents(slots: seq<Slot>): multiset<Word> {
    if slots == [] then multiset{} else Payload(slots[0]) + Contents(slots[1..])
  }

  function Tombstones(slots: seq<Slot>): nat {
    if slots == [] then 0 else (if slots[0].Tombstone? then 1 else 0) + Tombstones(slots[1..])
  }

  lemma AddLeft(a: multiset<Word>, b: multiset<Word>, x: multiset<Word>, c: multiset<Word>, y: multiset<Word>)
    requires b + x == c + y
    ensures (a + b) + x == (a + c) + y
  {
    forall k
      ensures ((a + b) + x)[k] == ((a + c) + y)[k]
    {
      assert (b + x)[k] == (c + y)[k];
    }
  }

  lemma {:induction false} UpdateContents(slots: seq<Slot>, i: nat, s: Slot)
    requires i < |slots|
    ensures Contents(slots[i := s]) + Payload(slots[i]) == Contents(slots) + Payload(s)
  {
    if i > 0 {
      var rest := slots[1..];
      UpdateContents(rest, i - 1, s);
      assert slots[i := s][1..] == rest[i - 1 := s];
      AddLeft(Payload(slots[0]), Contents(rest[i - 1 := s]), Payload(slots[i]), Contents(rest), Payload(s));
    } else {
      assert slots[i := s][1..] == slots[1..];
      Swap(Payload(s), Contents(slots[1..]), Payload(slots[0]));
    }
  }

  lemma Swap(a: multiset<Word>, b: multiset<Word>, c: multiset<Word>)
    ensures (a + b) + c == (c + b) + a
  {
  }

  lemma {:induction false} UpdateTombstones(slots: seq<Slot>, i: nat, s: Slot)
    requires i < |slots|
    ensures Tombstones(slots[i := s]) + (if slots[i].Tombstone? then 1 else 0) ==
      Tombstones(slots) + (if s.Tombstone? then 1 else 0)
  {
    if i > 0 {
      UpdateTombstones(slots[1..], i - 1, s);
      assert slots[i := s][1..] == slots[1..][i - 1 := s];
    } else {
      assert slots[i := s][1..] == slots[1..];
    }
  }

  lemma {:induction false} LiveIsStored(slots: seq<Slot>, i: nat)
    requires i < |slots| && slots[i].Live?
    ensures slots[i].p in Contents(slots)
  {
    if i > 0 { LiveIsStored(slots[1..], i - 1); }
  }

  /** A ring with fewer pointers and tombstones than slots has an empty slot. */
  lemma {:induction false} EmptyExists(slots: seq<Slot>) returns (i: nat)
    requires |Contents(slots)| + Tombstones(slots) < |slots|
    ensures i < |slots| && slots[i].Empty?
  {
    if slots[0].Empty? {
      i := 0;
    } else {
      i := EmptyExists(slots[1..]);
      i := i + 1;
    }
  }

  lemma {:induction false} AllEmpty(slots: seq<Slot>)
    requires forall i :: 0 <= i < |slots| ==> slots[i].Empty?
    ensures Contents(slots) == multiset{} && Tombstones(slots) == 0
  {
    if slots != [] { AllEmpty(slots[1..]); }
  }

  lemma {:induction false} NoTombstones(slots: seq<Slot>)
    requires forall i :: 0 <= i < |slots| ==> !slots[i].Tombstone?
    ensures Tombstones(slots) == 0
  {
    if slots != [] { NoTombstones(slots[1..]); }
  }

  /** A table as a value: how words are laid out, the rehash callback and the slots. */
  datatype Ring = Ring(l: Layout, f: Rehash, slots: seq<Slot>)

  ghost predicate Sized(r: Ring) {
    |r.slots| == Pow2(r.l.bits)
  }

  function Bucket(r: Ring, h: Word): (i: nat)
    ensures Sized(r) ==> i < |r.slots|
  {
    LowBits(h, r.l.bits)
  }

  function Home(r: Ring, p: Word): (i: nat)
    ensures Sized(r) ==> i < |r.slots|
  {
    Bucket(r, Hash(r.f, p))
  }

  /** No empty slot lies between the home bucket of an entry and its position. */
  ghost predicate NoGap(r: Ring)
    requires Sized(r)
  {
    var n := |r.slots|;
    forall i, j :: 0 <= i < n && 0 <= j < n && r.slots[i].Live?
      && Dist(Home(r, r.slots[i].p), j, n) < Dist(Home(r, r.slots[i].p), i, n)
      ==> !r.slots[j].Empty?
  }

  /** Where `ht_add` puts an entry: the first slot at or after distance `d` from `a` that holds no pointer. */
  function FirstFree(slots: seq<Slot>, a: nat, d: nat): (i: nat)
    requires a < |slots| && d < |slots|
    requires exists j :: 0 <= j < |slots| && !slots[j].Live? && Dist(a, j, |slots|) >= d
    ensures i < |slots| && !slots[i].Live? && Dist(a, i, |slots|) >= d
    ensures forall j :: 0 <= j < |slots| && d <= Dist(a, j, |slots|) < Dist(a, i, |slots|) ==> slots[j].Live?
    decreases |slots| - d
  {
    if !slots[At(a, d, |slots|)].Live? then At(a, d, |slots|) else FirstFree(slots, a, d + 1)
  }

  ghost predicate HasFree(slots: seq<Slot>) {
    exists j :: 0 <= j < |slots| && !slots[j].Live?
  }

  /** The ring after `ht_add` of `p`. */
  ghost function Inserted(r: Ring, p: Word): (r': Ring)
    requires Sized(r) && HasFree(r.slots)
    ensures Sized(r') && r'.l == r.l && r'.f == r.f
  {
    r.(slots := r.slots[FirstFree(r.slots, Home(r, p), 0) := Live(p)])
  }

  /** `ht_add` has walked from bucket `a` to slot `i` over entries only. */
  ghost predicate Walking(slots: seq<Slot>, a: nat, i: nat) {
    && a < |slots| && i < |slots|
    && forall j :: 0 <= j < |slots| && Dist(a, j, |slots|) < Dist(a, i, |slots|) ==> slots[j].Live?
  }

  lemma StartWalk(r: Ring, h: Word)
    requires Sized(r)
    ensures Bucket(r, h) == LowBits(h, r.l.bits) && Walking(r.slots, Bucket(r, h), Bucket(r, h))
  {
  }

  lemma WalkOn(slots: seq<Slot>, a: nat, i: nat)
    requires Walking(slots, a, i) && HasFree(slots) && slots[i].Live?
    ensures Dist(a, Next(i, |slots|), |slots|) == Dist(a, i, |slots|) + 1
    ensures Walking(slots, a, Next(i, |slots|))
  {
    var e :| 0 <= e < |slots| && !slots[e].Live?;
    assert Dist(a, e, |slots|) > Dist(a, i, |slots|);
  }

  lemma WalkEnd(slots: seq<Slot>, a: nat, i: nat)
    requires Walking(slots, a, i) && !slots[i].Live?
    ensures HasFree(slots) && i == FirstFree(slots, a, 0)
  {
  }

  /** Exactly one slot, which held no entry, now holds `p`. */
  ghost predicate OneMore(slots: seq<Slot>, slots': seq<Slot>, p: Word) {
    exists i :: 0 <= i < |slots| && !slots[i].Live? && slots' == slots[i := Live(p)]
  }

  lemma InsertedIsOneMore(r: Ring, p: Word)
    requires Sized(r) && HasFree(r.slots)
    ensures OneMore(r.slots, Inserted(r, p).slots, p)
  {
    hide Home, FirstFree;
    var i := FirstFree(r.slots, Home(r, p), 0);
    assert !r.slots[i].Live? && Inserted(r, p).slots == r.slots[i := Live(p)];
  }

  /** Insertion adds one occurrence of `p` and no tombstone, and keeps every probe path unbroken. */
  lemma InsertedKeeps(r: Ring, p: Word)
    requires Sized(r) && HasFree(r.slots) && NoGap(r)
    ensures var r' := Inserted(r, p);
      && NoGap(r')
      && Contents(r'.slots) == Contents(r.slots) + multiset{p}
      && Tombstones(r'.slots) <= Tombstones(r.slots)
  {
    hide Home, NoGap, FirstFree;
    var i := FirstFree(r.slots, Home(r, p), 0);
    InsertedNoGap(r, p, i);
    UpdateContents(r.slots, i, Live(p));
    UpdateTombstones(r.slots, i, Live(p));
  }

  lemma InsertedNoGap(r: Ring, p: Word, i: nat)
    requires Sized(r) && NoGap(r) && i < |r.slots| && !r.slots[i].Live?
    requires forall j :: 0 <= j < |r.slots| && Dist(Home(r, p), j, |r.slots|) < Dist(Home(r, p), i, |r.slots|) ==>
      r.slots[j].Live?
    ensures NoGap(r.(slots := r.slots[i := Live(p)]))
  {
    hide LowBits, Dist;
  }

  // ---- Looking up ----

  /** Slot `i` holds a pointer whose metadata is what an entry of hash `h` would carry there. */
  ghost predicate IsCandidate(r: Ring, i: nat, h: Word)
    requires i < |r.slots|
  {
    && r.slots[i].Live?
    && Extra(r.l, Hash(r.f, r.slots[i].p), i == Home(r, r.slots[i].p)) == Extra(r.l, h, i == Bucket(r, h))
  }

  /** The pointers a probe for hash `h` meets from distance `d` on, up to the first empty slot. */
  ghost function Candidates(r: Ring, h: Word, d: nat): seq<Word>
    requires Sized(r)
    decreases |r.slots| - d
  {
    if d >= |r.slots| then []
    else
      var i := At(Bucket(r, h), d, |r.slots|);
      if r.slots[i].Empty? then []
      else (if IsCandidate(r, i, h) then [r.slots[i].p] else []) + Candidates(r, h, d + 1)
  }

  function Rotated(slots: seq<Slot>, a: nat): seq<Slot>
    requires a <= |slots|
  {
    slots[a..] + slots[..a]
  }

  lemma {:induction false} ContentsConcat(s: seq<Slot>, t: seq<Slot>)
    ensures Contents(s + t) == Contents(s) + Contents(t)
  {
    if s == [] {
      assert s + t == t;
    } else {
      assert (s + t)[1..] == s[1..] + t;
      ContentsConcat(s[1..], t);
    }
  }

  lemma Commute(a: multiset<Word>, b: multiset<Word>)
    ensures a + b == b + a
  {
  }

  lemma RotatedContents(slots: seq<Slot>, a: nat)
    requires a <= |slots|
    ensures Contents(Rotated(slots, a)) == Contents(slots)
  {
    hide Contents;
    ContentsConcat(slots[a..], slots[..a]);
    ContentsConcat(slots[..a], slots[a..]);
    assert slots[..a] + slots[a..] == slots;
    Commute(Contents(slots[a..]), Contents(slots[..a]));
  }

  lemma {:induction false} Absent(slots: seq<Slot>, q: Word)
    requires forall i :: 0 <= i < |slots| ==> slots[i] != Live(q)
    ensures q !in Contents(slots)
  {
    if slots != [] { Absent(slots[1..], q); }
  }

  lemma {:induction false} CandidatesFrom(r: Ring, h: Word, d: nat, q: Word)
    requires Sized(r) && d <= |r.slots| && NoGap(r)
    requires forall k :: 0 <= k < d ==> !r.slots[At(Bucket(r, h), k, |r.slots|)].Empty?
    ensures var rest := Contents(Rotated(r.slots, Bucket(r, h))[d..]);
      && multiset(Candidates(r, h, d))[q] <= rest[q]
      && (Hash(r.f, q) == h ==> multiset(Candidates(r, h, d))[q] == rest[q])
    decreases |r.slots| - d
  {
    hide Bucket, Extra, Candidates, Contents;
    var n, a := |r.slots|, Bucket(r, h);
    var rot := Rotated(r.slots, a);
    if d == n {
      ReadsNothing(r, h, d);
      Absent(rot[d..], q);
    } else {
      var i := At(a, d, n);
      assert rot[d] == r.slots[i];
      if r.slots[i].Empty? {
        ReadsNothing(r, h, d);
        if Hash(r.f, q) == h { AbsentAfterGap(r, d, q); }
      } else {
        CandidatesFrom(r, h, d + 1, q);
        ReadsOne(r, h, d, q);
        SplitContents(rot, d, q);
      }
    }
  }

  lemma ReadsNothing(r: Ring, h: Word, d: nat)
    requires Sized(r)
    requires d < |r.slots| ==> r.slots[At(Bucket(r, h), d, |r.slots|)].Empty?
    ensures Candidates(r, h, d) == []
  {
  }

  lemma ReadsOne(r: Ring, h: Word, d: nat, q: Word)
    requires Sized(r) && d < |r.slots|
    requires !r.slots[At(Bucket(r, h), d, |r.slots|)].Empty?
    ensures var i := At(Bucket(r, h), d, |r.slots|);
      multiset(Candidates(r, h, d))[q]
      == multiset(Candidates(r, h, d + 1))[q] + if IsCandidate(r, i, h) && r.slots[i].p == q then 1 else 0
  {
    hide Extra, Home;
    var i := At(Bucket(r, h), d, |r.slots|);
    var head := if IsCandidate(r, i, h) then [r.slots[i].p] else [];
    var tail := Candidates(r, h, d + 1);
    assert Candidates(r, h, d) == head + tail;
    assert multiset(head + tail)[q] == multiset(head)[q] + multiset(tail)[q];
  }

  lemma SplitContents(slots: seq<Slot>, d: nat, q: Word)
    requires d < |slots|
    ensures Contents(slots[d..])[q] == Contents(slots[d + 1..])[q] + if slots[d] == Live(q) then 1 else 0
  {
    assert slots[d..][1..] == slots[d + 1..];
  }

  lemma AbsentAfterGap(r: Ring, d: nat, q: Word)
    requires Sized(r) && d < |r.slots| && NoGap(r)
    requires r.slots[At(Home(r, q), d, |r.slots|)].Empty?
    ensures q !in Contents(Rotated(r.slots, Home(r, q))[d..])
  {
    hide Bucket;
    var n, a := |r.slots|, Home(r, q);
    var rest := Rotated(r.slots, a)[d..];
    forall k | 0 <= k < |rest|
      ensures rest[k] != Live(q)
    {
      assert rest[k] == r.slots[At(a, d + k, n)];
    }
    Absent(rest, q);
  }

  /**
   A probe for hash `h` meets every stored occurrence of every pointer whose rehash is `h`,
   each exactly once, and nothing that is not stored.
   */
  lemma CandidatesComplete(r: Ring, h: Word)
    requires Sized(r) && NoGap(r)
    ensures multiset(Candidates(r, h, 0)) <= Contents(r.slots)
    ensures forall q :: Hash(r.f, q) == h ==> multiset(Candidates(r, h, 0))[q] == Contents(r.slots)[q]
  {
    var a := Bucket(r, h);
    RotatedContents(r.slots, a);
    assert Rotated(r.slots, a)[0..] == Rotated(r.slots, a);
    forall q
      ensures multiset(Candidates(r, h, 0))[q] <= Contents(r.slots)[q]
      ensures Hash(r.f, q) == h ==> multiset(Candidates(r, h, 0))[q] == Contents(r.slots)[q]
    {
      CandidatesFrom(r, h, 0, q);
    }
  }

  /** The pointers stored from index `i` on, in table order. */
  ghost function StoredFrom(slots: seq<Slot>, i: nat): seq<Word>
    decreases |slots| - i
  {
    if i >= |slots| then []
    else (if slots[i].Live? then [slots[i].p] else []) + StoredFrom(slots, i + 1)
  }

  lemma {:induction false} StoredFromSuffix(slots: seq<Slot>, i: nat)
    requires i <= |slots|
    ensures multiset(StoredFrom(slots, i)) == Contents(slots[i..])
    decreases |slots| - i
  {
    if i < |slots| {
      StoredFromSuffix(slots, i + 1);
      assert slots[i..][1..] == slots[i + 1..];
      var head := if slots[i].Live? then [slots[i].p] else [];
      assert multiset(head + StoredFrom(slots, i + 1)) == multiset(head) + multiset(StoredFrom(slots, i + 1));
    }
  }

  /** Table order enumerates the whole multiset. */
  lemma StoredFromAll(slots: seq<Slot>)
    ensures multiset(StoredFrom(slots, 0)) == Contents(slots)
  {
    StoredFromSuffix(slots, 0);
    assert slots[0..] == slots;
  }

  // ---- The words of a ring ----

  /** The word of slot `i`. */
  ghost function SlotWord(r: Ring, i: nat): Word
    requires i < |r.slots|
  {
    match r.slots[i]
    case Empty => {}
    case Tombstone => DELETED
    case Live(p) => MakeHval(r.l, p, Extra(r.l, Hash(r.f, p), i == Home(r, p)))
  }

  ghost predicate AllFit(r: Ring) {
    LayoutOk(r.l) && forall i :: 0 <= i < |r.slots| && r.slots[i].Live? ==> Fits(r.l, r.slots[i].p)
  }

  /** Every word is the one that is written for its slot. */
  ghost predicate Spells(words: seq<Word>, r: Ring) {
    Sized(r) && |words| == |r.slots| && forall i :: 0 <= i < |words| ==> words[i] == SlotWord(r, i)
  }

  /** The words spell out the ring, and every stored pointer fits the layout, so that they can be read back. */
  ghost predicate Encodes(words: seq<Word>, r: Ring) {
    Spells(words, r) && AllFit(r)
  }

  /** Every stored pointer has the common bits; it need not show a bit outside the mask. */
  ghost predicate AllAgree(r: Ring) {
    LayoutOk(r.l) && forall i :: 0 <= i < |r.slots| && r.slots[i].Live? ==> r.slots[i].p * r.l.mask == r.l.common
  }

  /** Every word of an entry can be told from 0 and from the deleted marker. */
  ghost predicate AllLive(r: Ring)
    requires Sized(r)
  {
    forall i :: 0 <= i < |r.slots| && r.slots[i].Live? ==> EntryIsValid(SlotWord(r, i))
  }

  /** The word of an entry is told from the marks exactly when its pointer shows a bit or its metadata has one. */
  ghost predicate WordTellsEntry(words: seq<Word>, r: Ring, i: nat)
    requires Sized(r) && |words| == |r.slots| && i < |words| && r.slots[i].Live?
  {
    var p := r.slots[i].p;
    EntryIsValid(words[i]) <==> Shows(r.l.mask, p) || Above(Extra(r.l, Hash(r.f, p), i == Home(r, p)))
  }

  lemma WordsTellEntries(words: seq<Word>, r: Ring)
    requires Spells(words, r)
    ensures forall i :: 0 <= i < |words| && r.slots[i].Live? ==> WordTellsEntry(words, r, i)
  {
    hide Shows, Above, Extra, MakeHval, EntryIsValid, Home;
    forall i | 0 <= i < |words| && r.slots[i].Live?
      ensures WordTellsEntry(words, r, i)
    {
      LiveWord(r.l, r.slots[i].p, Extra(r.l, Hash(r.f, r.slots[i].p), i == Home(r, r.slots[i].p)));
    }
  }

  lemma EncodesFits(words: seq<Word>, r: Ring)
    ensures Encodes(words, r) <==> Spells(words, r) && AllFit(r)
    ensures Spells(words, r) ==> Sized(r) && |words| == |r.slots|
  {
    hide AllFit;
  }

  /** One more pointer that agrees with the common bits: the others still fit, and it does if it shows a bit. */
  lemma InsertedAgrees(r: Ring, p: Word)
    requires Sized(r) && HasFree(r.slots) && AllFit(r) && p * r.l.mask == r.l.common
    ensures var r' := Inserted(r, p);
      && AllAgree(r') && (AllFit(r') <==> Shows(r.l.mask, p))
      && forall i :: 0 <= i < |r'.slots| && r'.slots[i].Live? && r'.slots[i].p != p ==> Fits(r.l, r'.slots[i].p)
  {
    hide Shows, Home, FirstFree, LayoutOk;
    var i := FirstFree(r.slots, Home(r, p), 0);
    assert Inserted(r, p).slots[i] == Live(p);
  }

  /** The callback returns machine words. */
  ghost predicate InWords(f: Rehash) {
    forall p :: p in f ==> f[p] <= ALL_ONES
  }

  /** No callback makes a mark of an entry. */
  ghost predicate LiveUnderAll(r: Ring)
    requires Sized(r)
  {
    forall f: Rehash :: InWords(f) ==> AllLive(r.(f := f))
  }

  /** That no callback does is exactly that every stored pointer shows a bit. */
  lemma LiveUnderEveryCallback(r: Ring)
    requires Sized(r) && r.l.bits > 0 && AllAgree(r)
    ensures LiveUnderAll(r) <==> AllFit(r)
  {
    hide Shows, LayoutOk, Extra, MakeHval, EntryIsValid, GetHashPtrBits;
    if AllFit(r) {
      forall f: Rehash, i | 0 <= i < |r.slots| && r.slots[i].Live?
        ensures EntryIsValid(SlotWord(r.(f := f), i))
      {
        LiveWord(r.l, r.slots[i].p, Extra(r.l, Hash(f, r.slots[i].p), i == Home(r.(f := f), r.slots[i].p)));
      }
    } else {
      var i :| 0 <= i < |r.slots| && r.slots[i].Live? && !Fits(r.l, r.slots[i].p);
      var f := Burying(r, i);
      assert !AllLive(r.(f := f));
    }
  }

  /** A callback under which slot `i`, whose pointer shows no bit, is written as a mark. */
  lemma Burying(r: Ring, i: nat) returns (f: Rehash)
    requires Sized(r) && r.l.bits > 0 && AllAgree(r) && i < |r.slots| && r.slots[i].Live? && !Fits(r.l, r.slots[i].p)
    ensures InWords(f) && !EntryIsValid(SlotWord(r.(f := f), i))
  {
    hide Shows, Xor, ShiftRight;
    var p := r.slots[i].p;
    var h: Word := {};
    ZeroHash(r.l);
    if i == 0 && Above(r.l.perfect) {
      var j :| j in r.l.perfect && j > 0;
      h := Ladder(j, r.l.bits);
      LadderFolds(j, r.l.bits);
      assert r.l.perfect == {j} && Xor(h, ShiftRight(h, r.l.bits)) == {j} by { FoldedTop(h, r.l.bits, j); }
      assert Extra(r.l, h, false) == {};
    } else {
      NoLowBits(r.l.bits);
    }
    f := map[p := h];
    LiveWord(r.l, p, Extra(r.l, h, i == LowBits(h, r.l.bits)));
  }

  lemma FoldedTop(h: Word, b: nat, j: nat)
    requires j in h && ShiftRight(h, b) == h - {j}
    ensures Xor(h, ShiftRight(h, b)) == {j}
  {
    hide ShiftRight;
  }

  lemma {:induction false} NoLowBits(b: nat)
    ensures LowBits({}, b) == 0
  {
    if b > 0 { NoLowBits(b - 1); }
  }

  /** What a loaded word says about its slot. */
  lemma ReadWord(words: seq<Word>, r: Ring, i: nat)
    requires Encodes(words, r) && i < |words|
    ensures words[i] == {} <==> r.slots[i].Empty?
    ensures words[i] == DELETED <==> r.slots[i].Tombstone?
    ensures EntryIsValid(words[i]) <==> r.slots[i].Live?
    ensures r.slots[i].Live? ==>
      var p := r.slots[i].p;
      && p != {}
      && GetRawPtr(r.l, words[i]) == p
      && GetExtraPtrBits(r.l, words[i]) == Extra(r.l, Hash(r.f, p), i == Home(r, p))
      && words[i] * r.l.perfect == (if i == Home(r, p) then r.l.perfect else {})
  {
    hide Extra, MakeHval, GetRawPtr, GetExtraPtrBits, Home;
    if r.slots[i].Live? {
      var p := r.slots[i].p;
      EncodeReadsBack(r.l, p, Hash(r.f, p), i == Home(r, p));
    }
  }

  lemma EntryFits(words: seq<Word>, r: Ring, i: nat)
    requires Encodes(words, r) && i < |words|
    ensures r.slots[i].Live? ==> Fits(r.l, r.slots[i].p)
  {
  }

  /** No empty slot before `i` on the probe path of hash `h`. */
  ghost predicate OnPath(r: Ring, h: Word, i: nat)
    requires Sized(r) && i < |r.slots|
  {
    var a := Bucket(r, h);
    forall j :: 0 <= j < |r.slots| && Dist(a, j, |r.slots|) < Dist(a, i, |r.slots|) ==> !r.slots[j].Empty?
  }

  ghost predicate HasEmpty(slots: seq<Slot>) {
    exists j :: 0 <= j < |slots| && slots[j].Empty?
  }

  /** In a ring with an empty slot a probe path never comes back to its start. */
  lemma PathGoesOn(r: Ring, h: Word, i: nat)
    requires Sized(r) && HasEmpty(r.slots) && i < |r.slots| && OnPath(r, h, i) && !r.slots[i].Empty?
    ensures Dist(Bucket(r, h), Next(i, |r.slots|), |r.slots|) == Dist(Bucket(r, h), i, |r.slots|) + 1
    ensures OnPath(r, h, Next(i, |r.slots|))
  {
    hide Bucket;
    var e :| 0 <= e < |r.slots| && r.slots[e].Empty?;
    assert Dist(Bucket(r, h), e, |r.slots|) > Dist(Bucket(r, h), i, |r.slots|);
  }

  /**
   What a probe for `h` from distance `d` reports: the head of the candidates from there on, with
   its position, or NULL (the empty word) when there are none.
   */
  ghost predicate Finds(r: Ring, h: Word, d: nat, p: Word, off: nat) {
    && Sized(r) && off < |r.slots|
    && (p == {} ==> r.slots[off].Empty? && Candidates(r, h, d) == [])
    && (p != {} ==> (
      && r.slots[off] == Live(p) && OnPath(r, h, off) && d <= Dist(Bucket(r, h), off, |r.slots|)
      && Candidates(r, h, d) == [p] + Candidates(r, h, Dist(Bucket(r, h), off, |r.slots|) + 1)))
  }

  /** A probe for `h` that began at distance `d` has come to slot `i` without meeting a candidate. */
  ghost predicate Probing(r: Ring, h: Word, d: nat, i: nat) {
    && Sized(r) && i < |r.slots| && OnPath(r, h, i) && d <= Dist(Bucket(r, h), i, |r.slots|)
    && Candidates(r, h, d) == Candidates(r, h, Dist(Bucket(r, h), i, |r.slots|))
  }

  lemma StartProbe(r: Ring, h: Word, i: nat)
    requires Sized(r) && i < |r.slots| && OnPath(r, h, i)
    ensures Probing(r, h, Dist(Bucket(r, h), i, |r.slots|), i)
  {
  }

  /** What a probe learns from a word that is not zero, and that it may go on. */
  lemma ProbeStep(words: seq<Word>, r: Ring, h: Word, d: nat, i: nat)
    requires Encodes(words, r) && HasEmpty(r.slots) && Probing(r, h, d, i) && words[i] != {}
    ensures Dist(Bucket(r, h), Next(i, |r.slots|), |r.slots|) == Dist(Bucket(r, h), i, |r.slots|) + 1
    ensures if words[i] != DELETED && GetExtraPtrBits(r.l, words[i]) == Extra(r.l, h, i == Bucket(r, h))
      then Finds(r, h, d, GetRawPtr(r.l, words[i]), i)
      else Probing(r, h, d, Next(i, |r.slots|))
  {
    hide Bucket, OnPath, Extra, GetRawPtr, GetExtraPtrBits, Encodes;
    EncodesSized(words, r);
    ReadWord(words, r, i);
    PathGoesOn(r, h, i);
    assert At(Bucket(r, h), Dist(Bucket(r, h), i, |r.slots|), |r.slots|) == i;
  }

  lemma EncodesSized(words: seq<Word>, r: Ring)
    requires Encodes(words, r)
    ensures Sized(r) && |words| == |r.slots| && LayoutOk(r.l)
  {
  }

  lemma ProbeEnd(words: seq<Word>, r: Ring, h: Word, d: nat, i: nat)
    requires Encodes(words, r) && Probing(r, h, d, i) && words[i] == {}
    ensures Finds(r, h, d, {}, i)
  {
    ReadWord(words, r, i);
    assert At(Bucket(r, h), Dist(Bucket(r, h), i, |r.slots|), |r.slots|) == i;
  }

  /** The candidates for `h` that `wanted` accepts are those still ahead at distance `d`. */
  ghost predicate StillAhead(r: Ring, h: Word, d: nat, wanted: Word -> bool)
    requires Sized(r)
  {
    forall q :: wanted(q) ==> (q in Candidates(r, h, 0) <==> q in Candidates(r, h, d))
  }

  lemma PassOver(r: Ring, h: Word, d: nat, p: Word, off: nat, wanted: Word -> bool)
    requires Finds(r, h, d, p, off) && StillAhead(r, h, d, wanted)
    ensures off < |r.slots|
    ensures p != {} && !wanted(p) ==> StillAhead(r, h, Dist(Bucket(r, h), off, |r.slots|) + 1, wanted)
    ensures p == {} ==> forall q :: q in Candidates(r, h, 0) ==> !wanted(q)
    ensures p != {} && wanted(p) ==> p in Candidates(r, h, 0)
    ensures p != {} ==>
      && r.slots[off] == Live(p)
      && OnPath(r, h, off)
      && d <= Dist(Bucket(r, h), off, |r.slots|)
      && p in Contents(r.slots)
  {
    hide Candidates, Bucket, OnPath, Contents;
    if p != {} { LiveIsStored(r.slots, off); }
  }

  lemma AllAhead(r: Ring, h: Word, wanted: Word -> bool)
    requires Sized(r)
    ensures StillAhead(r, h, 0, wanted)
  {
  }

  /** What a candidate from anywhere on the path is: a stored pointer. */
  lemma CandidateIsStored(r: Ring, h: Word, q: Word)
    requires Sized(r) && NoGap(r)
    ensures q in Candidates(r, h, 0) ==> q in Contents(r.slots)
    ensures Hash(r.f, q) == h && q in Contents(r.slots) ==> q in Candidates(r, h, 0)
  {
    hide Candidates, Contents, NoGap;
    CandidatesComplete(r, h);
    assert q in multiset(Candidates(r, h, 0)) <==> q in Candidates(r, h, 0);
  }

  /** Walking the slots in order from `i`: the next stored pointer, or NULL at the end. */
  ghost predicate Enumerates(slots: seq<Slot>, i: nat, p: Word, off: nat) {
    && (p == {} ==> StoredFrom(slots, i) == [])
    && (p != {} ==>
      i <= off < |slots| && slots[off] == Live(p) && StoredFrom(slots, i) == [p] + StoredFrom(slots, off + 1))
  }

  /** The pointers before slot `i` have been listed. */
  ghost predicate Listed(slots: seq<Slot>, ps: seq<Word>, i: nat) {
    StoredFrom(slots, 0) == ps + StoredFrom(slots, i)
  }

  lemma ListStart(slots: seq<Slot>)
    ensures Listed(slots, [], 0)
  {
  }

  lemma ListOn(slots: seq<Slot>, ps: seq<Word>, i: nat, p: Word, off: nat)
    requires Listed(slots, ps, i) && Enumerates(slots, i, p, off)
    ensures p == {} ==> multiset(ps) == Contents(slots)
    ensures p != {} ==> i <= off < |slots| && p in Contents(slots) && Listed(slots, ps + [p], off + 1)
  {
    hide StoredFrom, Contents;
    if p == {} {
      assert ps == StoredFrom(slots, 0);
      StoredFromAll(slots);
    } else {
      LiveIsStored(slots, off);
      Append(ps, p, StoredFrom(slots, off + 1));
    }
  }

  lemma Append(ps: seq<Word>, p: Word, rest: seq<Word>)
    ensures ps + ([p] + rest) == ps + [p] + rest
  {
  }

  /** The candidates before distance `d` have been listed. */
  ghost predicate ListedFor(r: Ring, h: Word, ps: seq<Word>, d: nat)
    requires Sized(r)
  {
    Candidates(r, h, 0) == ps + Candidates(r, h, d)
  }

  lemma ListForStart(r: Ring, h: Word)
    requires Sized(r)
    ensures ListedFor(r, h, [], 0)
  {
  }

  lemma ListForOn(r: Ring, h: Word, ps: seq<Word>, d: nat, p: Word, off: nat)
    requires Finds(r, h, d, p, off) && ListedFor(r, h, ps, d)
    ensures off < |r.slots| && (p == {} ==> ps == Candidates(r, h, 0))
    ensures p != {} ==>
      && r.slots[off] == Live(p)
      && OnPath(r, h, off)
      && d <= Dist(Bucket(r, h), off, |r.slots|)
      && ListedFor(r, h, ps + [p], Dist(Bucket(r, h), off, |r.slots|) + 1)
  {
    hide Candidates, Bucket, OnPath, Dist;
    if p != {} { Append(ps, p, Candidates(r, h, Dist(Bucket(r, h), off, |r.slots|) + 1)); }
  }

  lemma SkipSlot(slots: seq<Slot>, i: nat)
    requires i < |slots| && !slots[i].Live?
    ensures StoredFrom(slots, i) == StoredFrom(slots, i + 1)
    ensures forall p, off :: Enumerates(slots, i + 1, p, off) ==> Enumerates(slots, i, p, off)
  {
  }

  /**
   The bookkeeping of a table: `deleted` only bounds the tombstones, because a tombstone may be reused
   without counting it.
   */
  ghost predicate Counted(r: Ring, elems: nat, deleted: nat) {
    && |Contents(r.slots)| == elems
    && Tombstones(r.slots) <= deleted
    && elems <= MaxElems(r.l.bits)
    && elems + deleted <= MaxWithDeleted(r.l.bits)
  }

  function MaxElems(bits: nat): nat {
    3 * Pow2(bits) / 4
  }

  function MaxWithDeleted(bits: nat): nat {
    9 * Pow2(bits) / 10
  }

  /** Entries may take up to three quarters of the slots, entries and tombstones nine tenths. */
  lemma LimitsAre(bits: nat)
    ensures 4 * MaxElems(bits) <= 3 * Pow2(bits) < 4 * (MaxElems(bits) + 1)
    ensures 10 * MaxWithDeleted(bits) <= 9 * Pow2(bits) < 10 * (MaxWithDeleted(bits) + 1)
  {
  }

  /** A table that may hold an entry has two slots at least. */
  lemma EntriesHaveBits(bits: nat, elems: nat)
    requires 0 < elems <= MaxElems(bits)
    ensures bits > 0
  {
  }

  lemma CountedHasEmpty(r: Ring, elems: nat, deleted: nat)
    requires Sized(r) && Counted(r, elems, deleted)
    ensures HasEmpty(r.slots)
  {
    var e := EmptyExists(r.slots);
  }
}
