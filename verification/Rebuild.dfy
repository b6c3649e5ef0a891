/**
 The steps that rewrite a whole table: doubling, rehashing in place and giving bits back.
 */
module Rebuild {
  import opened Numbers
  import opened Words
  import opened SlotSpec

  // ---- One slot ----

  /** Writing the right word into a slot keeps words and ring in step. */
  lemma WriteSlot(words: seq<Word>, r: Ring, i: nat, s: Slot, w: Word)
    requires Encodes(words, r) && i < |words|
    requires s.Live? ==> Fits(r.l, s.p)
    requires w == SlotWord(r.(slots := r.slots[i := s]), i)
    ensures Encodes(words[i := w], r.(slots := r.slots[i := s]))
  {
    hide LayoutOk, Fits, Extra, MakeHval, LowBits;
  }

  lemma WriteEntry(words: seq<Word>, r: Ring, i: nat, p: Word, w: Word)
    requires Encodes(words, r) && i < |words|
    requires w == MakeHval(r.l, p, Extra(r.l, Hash(r.f, p), i == Home(r, p)))
    ensures Spells(words[i := w], r.(slots := r.slots[i := Live(p)]))
    ensures Encodes(words[i := w], r.(slots := r.slots[i := Live(p)])) <==> Fits(r.l, p)
  {
    hide LayoutOk, Fits, Extra, MakeHval, LowBits;
    var r' := r.(slots := r.slots[i := Live(p)]);
    assert forall j :: 0 <= j < |words| && j != i ==> SlotWord(r', j) == SlotWord(r, j);
    assert r'.slots[i].Live? && r'.slots[i].p == p;
  }

  /** `htable_delval` leaves a tombstone: one occurrence less, and no probe path broken. */
  lemma Buried(r: Ring, i: nat)
    requires Sized(r) && NoGap(r) && i < |r.slots| && r.slots[i].Live?
    ensures var r' := r.(slots := r.slots[i := Tombstone]);
      && Sized(r') && NoGap(r')
      && Contents(r.slots) == Contents(r'.slots) + multiset{r.slots[i].p}
      && Tombstones(r'.slots) == Tombstones(r.slots) + 1
  {
    hide LowBits;
    UpdateContents(r.slots, i, Tombstone);
    UpdateTombstones(r.slots, i, Tombstone);
  }

  // ---- Doubling ----

  /** The new table after re-adding everything found in the first `i` slots of the old one. */
  ghost predicate Refilled(old_: seq<Slot>, r: Ring, i: nat) {
    && i <= |old_| && Sized(r) && NoGap(r)
    && Contents(r.slots) == Contents(old_[..i])
    && Tombstones(r.slots) == 0
  }

  lemma {:induction false} PrefixContents(s: seq<Slot>, i: nat)
    requires i < |s|
    ensures Contents(s[..i + 1]) == Contents(s[..i]) + Payload(s[i])
    ensures Contents(s[..i]) <= Contents(s)
  {
    assert s[..i + 1] == s[..i] + [s[i]];
    ContentsConcat(s[..i], [s[i]]);
    assert s == s[..i] + s[i..];
    ContentsConcat(s[..i], s[i..]);
  }

  lemma EmptyRing(words: seq<Word>, r: Ring)
    requires Sized(r) && LayoutOk(r.l) && |words| == |r.slots|
    requires forall j :: 0 <= j < |r.slots| ==> r.slots[j].Empty? && words[j] == {}
    ensures Encodes(words, r)
  {
  }

  lemma RefillStart(old_: seq<Slot>, r: Ring)
    requires Sized(r) && forall j :: 0 <= j < |r.slots| ==> r.slots[j].Empty?
    ensures Refilled(old_, r, 0)
  {
    hide LowBits;
    AllEmpty(r.slots);
  }

  lemma RefillStep(old_: seq<Slot>, r: Ring, i: nat)
    requires Refilled(old_, r, i) && i < |old_| && |Contents(old_)| < |r.slots|
    ensures HasFree(r.slots)
    ensures Refilled(old_, if old_[i].Live? then Inserted(r, old_[i].p) else r, i + 1)
  {
    hide LowBits, NoGap, Inserted;
    PrefixContents(old_, i);
    SubsetSize(Contents(old_[..i]), Contents(old_));
    var e := EmptyExists(r.slots);
    if old_[i].Live? { InsertedKeeps(r, old_[i].p); }
  }

  /** What an old word contributes: its pointer still fits, because the shared bits are the same. */
  lemma RefillRead(words: seq<Word>, r0: Ring, l: Layout, i: nat)
    requires Encodes(words, r0) && i < |words| && l.mask == r0.l.mask && l.common == r0.l.common
    ensures EntryIsValid(words[i]) <==> r0.slots[i].Live?
    ensures r0.slots[i].Live? ==> GetRawPtr(l, words[i]) == r0.slots[i].p && Fits(l, r0.slots[i].p)
  {
    hide Extra, MakeHval, LowBits, EntryIsValid;
    ReadWord(words, r0, i);
  }

  lemma RoomToRefill(r0: Ring, elems: nat, deleted: nat)
    requires Sized(r0) && Counted(r0, elems, deleted)
    ensures |Contents(r0.slots)| < Pow2(r0.l.bits + 1)
  {
    hide Contents, Tombstones;
  }

  lemma RefillFromNothing(r: Ring)
    requires Refilled([Empty], r, 0)
    ensures Refilled([Empty], r, 1)
  {
    hide NoGap;
    PrefixContents([Empty], 0);
  }

  /** A refilled table of twice the size is in order, with nothing counted as deleted. */
  lemma Doubled(r0: Ring, r: Ring, elems: nat, deleted: nat)
    requires Counted(r0, elems, deleted) && r.l.bits == r0.l.bits + 1 && Refilled(r0.slots, r, |r0.slots|)
    ensures NoGap(r) && Contents(r.slots) == Contents(r0.slots) && Counted(r, elems, 0)
  {
    hide NoGap, Contents, Tombstones;
    assert r0.slots[..|r0.slots|] == r0.slots;
  }

  lemma SubsetSize(a: multiset<Word>, b: multiset<Word>)
    requires a <= b
    ensures |a| <= |b|
  {
    assert b == a + (b - a);
  }

  // ---- Rehashing in place ----

  /** Counted from the empty slot `start`, which is nobody's home, no entry sits before its home. */
  ghost predicate Ordered(r: Ring, start: nat)
    requires Sized(r) && start < |r.slots|
  {
    forall i :: 0 <= i < |r.slots| && r.slots[i].Live?
      ==> 0 < Dist(start, Home(r, r.slots[i].p), |r.slots|) <= Dist(start, i, |r.slots|)
  }

  /**
   With `k` slots done, a finished entry has an unbroken path and an unfinished one may have lost
   only the finished part of its path.
   */
  ghost predicate Reaches(r: Ring, start: nat, k: nat)
    requires Sized(r) && start < |r.slots|
  {
    forall i, j :: 0 <= i < |r.slots| && 0 <= j < |r.slots| && r.slots[i].Live? && Between(r, start, k, i, j) ==>
      !r.slots[j].Empty?
  }

  ghost predicate Between(r: Ring, start: nat, k: nat, i: nat, j: nat)
    requires Sized(r) && start < |r.slots| && i < |r.slots| && j < |r.slots| && r.slots[i].Live?
  {
    var n := |r.slots|;
    && Dist(start, Home(r, r.slots[i].p), n) <= Dist(start, j, n) < Dist(start, i, n)
    && (Dist(start, i, n) < k || k <= Dist(start, j, n))
  }

  ghost predicate Cleared(slots: seq<Slot>, start: nat, k: nat)
    requires start < |slots|
  {
    forall j :: 0 <= j < |slots| && Dist(start, j, |slots|) < k ==> !slots[j].Tombstone?
  }

  /** The state of the walk from `start` after `k` slots. */
  ghost predicate Rehashing(r: Ring, start: nat, k: nat) {
    && Sized(r) && start < |r.slots| && k <= |r.slots| && r.slots[start].Empty?
    && Ordered(r, start) && Reaches(r, start, k) && Cleared(r.slots, start, k)
  }

  lemma RehashStart(r: Ring, start: nat)
    requires Sized(r) && NoGap(r) && start < |r.slots| && r.slots[start].Empty?
    ensures Rehashing(r, start, 0)
  {
    hide Bucket;
    var n := |r.slots|;
    forall i | 0 <= i < n && r.slots[i].Live?
      ensures 0 < Dist(start, Home(r, r.slots[i].p), n) <= Dist(start, i, n)
    {
      var a := Home(r, r.slots[i].p);
      assert !(Dist(a, start, n) < Dist(a, i, n));
    }
  }

  lemma RehashEnd(r: Ring, start: nat)
    requires Rehashing(r, start, |r.slots|)
    ensures NoGap(r) && Tombstones(r.slots) == 0
  {
    hide Bucket;
    NoTombstones(r.slots);
    var n := |r.slots|;
    forall i, j | 0 <= i < n && 0 <= j < n && r.slots[i].Live?
      && Dist(Home(r, r.slots[i].p), j, n) < Dist(Home(r, r.slots[i].p), i, n)
      ensures !r.slots[j].Empty?
    {
      assert Between(r, start, n, i, j);
    }
  }

  /**
   The step at slot `h`: what is there is dropped and `s`, if an entry, is put into slot `i`, at
   or before `h`, with only entries between its home and `i`.
   */
  lemma RehashSlot(r: Ring, start: nat, h: nat, i: nat, s: Slot)
    requires Sized(r) && start < |r.slots| && h < |r.slots| && i < |r.slots|
    requires Rehashing(r, start, Dist(start, h, |r.slots|))
    requires !r.slots[h := Empty][i].Live? && !s.Tombstone?
    requires Dist(start, i, |r.slots|) <= Dist(start, h, |r.slots|)
    requires s.Empty? ==> i == h
    requires s.Live? ==> 0 < Dist(start, Home(r, s.p), |r.slots|) <= Dist(start, i, |r.slots|)
    requires s.Live? ==> PathLive(r, start, h, i, s.p)
    ensures Rehashing(r.(slots := r.slots[h := Empty][i := s]), start, Dist(start, h, |r.slots|) + 1)
  {
    hide LowBits, PathLive, Reaches;
    RehashSlotReaches(r, start, h, i, s);
  }

  ghost predicate PathLive(r: Ring, start: nat, h: nat, i: nat, p: Word)
    requires Sized(r) && start < |r.slots| && h < |r.slots| && i < |r.slots|
  {
    var n := |r.slots|;
    forall j :: 0 <= j < n && Dist(start, Home(r, p), n) <= Dist(start, j, n) < Dist(start, i, n) ==>
      r.slots[h := Empty][j].Live?
  }

  lemma RehashSlotReaches(r: Ring, start: nat, h: nat, i: nat, s: Slot)
    requires Sized(r) && start < |r.slots| && h < |r.slots| && i < |r.slots|
    requires Reaches(r, start, Dist(start, h, |r.slots|))
    requires Dist(start, i, |r.slots|) <= Dist(start, h, |r.slots|)
    requires s.Empty? ==> i == h
    requires s.Live? ==> PathLive(r, start, h, i, s.p)
    ensures Reaches(r.(slots := r.slots[h := Empty][i := s]), start, Dist(start, h, |r.slots|) + 1)
  {
    hide LowBits;
    var n, k, r' := |r.slots|, Dist(start, h, |r.slots|), r.(slots := r.slots[h := Empty][i := s]);
    forall x, y | 0 <= x < n && 0 <= y < n && r'.slots[x].Live? && Between(r', start, k + 1, x, y)
      ensures !r'.slots[y].Empty?
    {
      if x != i {
        assert r'.slots[x] == r.slots[x];
        assert Between(r, start, k, x, y);
      }
    }
  }

  /** An empty slot, a tombstone that is cleared, and an entry at home need no move. */
  lemma RehashStay(r: Ring, start: nat, h: nat, s: Slot)
    requires h < |r.slots| && start < |r.slots| && Rehashing(r, start, Dist(start, h, |r.slots|))
    requires if r.slots[h].Live? then s == r.slots[h] && Home(r, s.p) == h else s.Empty?
    ensures Rehashing(r.(slots := r.slots[h := s]), start, Dist(start, h, |r.slots|) + 1)
    ensures Contents(r.slots[h := s]) == Contents(r.slots)
    ensures forall q, d :: Near(r, q, d) <= Near(r.(slots := r.slots[h := s]), q, d)
  {
    hide LowBits, Reaches;
    assert r.slots[h := s] == r.slots[h := Empty][h := s];
    RehashSlot(r, start, h, h, s);
    SamePayload(r.slots, h, s);
    forall q, d
      ensures Near(r, q, d) <= Near(r.(slots := r.slots[h := s]), q, d)
    {
      NearKept(r, h, s, q, d);
    }
  }

  /** The ring after taking the entry out of slot `h` and adding it again. */
  ghost function Moved(r: Ring, h: nat): (r': Ring)
    requires Sized(r) && h < |r.slots| && r.slots[h].Live?
    ensures Sized(r') && r'.l == r.l && r'.f == r.f
  {
    assert !r.slots[h := Empty][h].Live?;
    Inserted(r.(slots := r.slots[h := Empty]), r.slots[h].p)
  }

  /** Moving an entry keeps the state of the walk and the multiset, and never takes an entry further from its home. */
  lemma RehashMove(r: Ring, start: nat, h: nat)
    requires Sized(r) && h < |r.slots| && start < |r.slots| && Rehashing(r, start, Dist(start, h, |r.slots|))
    requires r.slots[h].Live?
    ensures Rehashing(Moved(r, h), start, Dist(start, h, |r.slots|) + 1)
    ensures Contents(Moved(r, h).slots) == Contents(r.slots)
    ensures forall q, d :: Near(r, q, d) <= Near(Moved(r, h), q, d)
  {
    hide Bucket, Rehashing, Contents, Near;
    var n, p, r1 := |r.slots|, r.slots[h].p, r.(slots := r.slots[h := Empty]);
    assert !r1.slots[h].Live?;
    assert Home(r1, p) == Home(r, p) by { SameHome(r, r1, p); }
    var i := FirstFree(r1.slots, Home(r, p), 0);
    assert Moved(r, h) == r.(slots := r.slots[h := Empty][i := Live(p)]);
    MovesBack(r, start, h, i);
    RehashSlot(r, start, h, i, Live(p));
    MoveContents(r.slots, h, i, p);
    forall q, d
      ensures Near(r, q, d) <= Near(Moved(r, h), q, d)
    {
      NearGrows(r, h, i, q, d);
    }
  }

  /** The free slot found for the entry of slot `h` is at or before `h`, with only entries on the way. */
  lemma MovesBack(r: Ring, start: nat, h: nat, i: nat)
    requires h < |r.slots| && start < |r.slots| && Rehashing(r, start, Dist(start, h, |r.slots|)) && r.slots[h].Live?
    requires i < |r.slots|
    requires !r.slots[h := Empty][i].Live?
    requires forall j :: (0 <= j < |r.slots| &&
        Dist(Home(r, r.slots[h].p), j, |r.slots|) < Dist(Home(r, r.slots[h].p), i, |r.slots|)) ==>
      r.slots[h := Empty][j].Live?
    ensures var n, p := |r.slots|, r.slots[h].p;
      && Dist(Home(r, p), i, n) <= Dist(Home(r, p), h, n)
      && Dist(start, i, n) <= Dist(start, h, n)
      && 0 < Dist(start, Home(r, p), n) <= Dist(start, i, n)
      && PathLive(r, start, h, i, p)
  {
    hide Bucket, Reaches, Cleared;
    var n, a := |r.slots|, Home(r, r.slots[h].p);
    assert 0 < Dist(start, a, n) <= Dist(start, h, n);
    assert Dist(a, i, n) <= Dist(a, h, n) by { assert !r.slots[h := Empty][h].Live?; }
    forall j | 0 <= j < n && Dist(start, a, n) <= Dist(start, j, n) < Dist(start, i, n)
      ensures r.slots[h := Empty][j].Live?
    {
      assert Dist(a, j, n) < Dist(a, i, n);
    }
  }

  lemma SamePayload(slots: seq<Slot>, h: nat, s: Slot)
    requires h < |slots| && Payload(slots[h]) == Payload(s)
    ensures Contents(slots[h := s]) == Contents(slots)
  {
    hide Contents;
    UpdateContents(slots, h, s);
    CancelRight(Contents(slots[h := s]), Contents(slots), Payload(s));
  }

  lemma CancelRight(a: multiset<Word>, b: multiset<Word>, c: multiset<Word>)
    requires a + c == b + c
    ensures a == b
  {
    forall k
      ensures a[k] == b[k]
    {
      assert (a + c)[k] == (b + c)[k];
    }
  }

  lemma MoveContents(slots: seq<Slot>, h: nat, i: nat, p: Word)
    requires h < |slots| && i < |slots| && slots[h] == Live(p) && !slots[h := Empty][i].Live?
    ensures Contents(slots[h := Empty][i := Live(p)]) == Contents(slots)
  {
    hide Contents;
    UpdateContents(slots, h, Empty);
    UpdateContents(slots[h := Empty], i, Live(p));
    CancelRight(Contents(slots[h := Empty][i := Live(p)]), Contents(slots), multiset{});
  }

  lemma SameHome(r: Ring, r': Ring, p: Word)
    requires r.f == r'.f && r.l.bits == r'.l.bits
    ensures Home(r, p) == Home(r', p)
  {
  }

  /** A rehashed table is in order, with nothing counted as deleted. */
  lemma RehashedCounted(r0: Ring, r: Ring, elems: nat, deleted: nat)
    requires Counted(r0, elems, deleted) && r.l.bits == r0.l.bits
    requires Contents(r.slots) == Contents(r0.slots) && Tombstones(r.slots) == 0
    ensures Counted(r, elems, 0)
  {
    hide Contents, Tombstones;
  }

  /** How many occurrences of `q` sit at most `d` slots after its home. */
  ghost function Near(r: Ring, q: Word, d: nat): nat
    requires Sized(r)
  {
    |NearSet(r, q, d)|
  }

  ghost function NearSet(r: Ring, q: Word, d: nat): set<nat>
    requires Sized(r)
  {
    set i: nat | i < |r.slots| && r.slots[i] == Live(q) && Dist(Home(r, q), i, |r.slots|) <= d
  }

  lemma NearGrows(r: Ring, h: nat, i: nat, q: Word, d: nat)
    requires Sized(r) && h < |r.slots| && i < |r.slots| && r.slots[h].Live?
    requires !r.slots[h := Empty][i].Live?
    requires Dist(Home(r, r.slots[h].p), i, |r.slots|) <= Dist(Home(r, r.slots[h].p), h, |r.slots|)
    ensures Near(r, q, d) <= Near(r.(slots := r.slots[h := Empty][i := Live(r.slots[h].p)]), q, d)
  {
    hide Home, Dist;
    var r' := r.(slots := r.slots[h := Empty][i := Live(r.slots[h].p)]);
    SameHome(r, r', q);
    var s, s' := NearSet(r, q, d), NearSet(r', q, d);
    if h in s {
      assert i in s' && i !in s - {h};
      forall x | x in s - {h} + {i} ensures x in s' { }
      SmallerSet(s - {h} + {i}, s');
    } else {
      forall x | x in s ensures x in s' { }
      SmallerSet(s, s');
    }
  }

  lemma NearKept(r: Ring, h: nat, s: Slot, q: Word, d: nat)
    requires Sized(r) && h < |r.slots| && (r.slots[h].Live? ==> s == r.slots[h])
    ensures Near(r, q, d) <= Near(r.(slots := r.slots[h := s]), q, d)
  {
    hide LowBits, Dist;
    SmallerSet(NearSet(r, q, d), NearSet(r.(slots := r.slots[h := s]), q, d));
  }

  // ---- Giving bits back ----

  /** Re-encoding every entry moves the whole ring to the narrowed layout. */
  lemma NarrowRing(words: seq<Word>, r: Ring, p: Word, words': seq<Word>)
    requires Encodes(words, r) && |words'| == |words|
    requires forall i :: 0 <= i < |words| ==>
      words'[i] == if EntryIsValid(words[i]) then Reencoded(r.l, p, words[i]) else words[i]
    ensures Encodes(words', r.(l := Narrowed(r.l, p)))
  {
    var r' := r.(l := Narrowed(r.l, p));
    NarrowedOk(r.l, p);
    forall i | 0 <= i < |words|
      ensures words'[i] == SlotWord(r', i)
      ensures r.slots[i].Live? ==> Fits(r'.l, r.slots[i].p)
    {
      NarrowSlot(words, r, p, i);
    }
  }

  lemma NarrowSlot(words: seq<Word>, r: Ring, p: Word, i: nat)
    requires Encodes(words, r) && i < |words|
    ensures (if EntryIsValid(words[i]) then Reencoded(r.l, p, words[i]) else words[i]) ==
      SlotWord(r.(l := Narrowed(r.l, p)), i)
    ensures r.slots[i].Live? ==> Fits(Narrowed(r.l, p), r.slots[i].p)
  {
    hide Extra, MakeHval, GetRawPtr, GetExtraPtrBits, Reencoded, LowBits, Fits;
    ReadWord(words, r, i);
    if r.slots[i].Live? {
      var q := r.slots[i].p;
      ReencodeEntry(r.l, p, q, Hash(r.f, q), i == Home(r, q));
    }
  }

  /** A ring that stores nothing encodes the same under any layout of its size. */
  lemma RelayoutEmpty(words: seq<Word>, r: Ring, l: Layout)
    requires Encodes(words, r) && Contents(r.slots) == multiset{} && LayoutOk(l) && l.bits == r.l.bits
    ensures Encodes(words, r.(l := l))
  {
    forall i | 0 <= i < |r.slots| && r.slots[i].Live?
      ensures false
    {
      LiveIsStored(r.slots, i);
    }
  }

  lemma NothingStored(slots: seq<Slot>)
    requires |Contents(slots)| == 0
    ensures Contents(slots) == multiset{}
  {
    hide Contents;
  }

  /** Gaps depend on where entries live, not on how they are encoded. */
  lemma SameGaps(r: Ring, r': Ring)
    requires Sized(r) && NoGap(r) && r'.slots == r.slots && r'.f == r.f && r'.l.bits == r.l.bits
    ensures NoGap(r')
  {
    hide LowBits;
    forall i, j | 0 <= i < |r.slots| && 0 <= j < |r.slots| && r.slots[i].Live?
      && Dist(Home(r', r.slots[i].p), j, |r.slots|) < Dist(Home(r', r.slots[i].p), i, |r.slots|)
      ensures !r.slots[j].Empty?
    {
      SameHome(r, r', r.slots[i].p);
    }
  }

  // ---- Adding ----

  /** Doubling always makes room, and a table that needs it can still be doubled. */
  lemma MaxElemsGrow(bits: nat, elems: nat)
    requires elems <= MaxElems(bits) && elems < MaxElems(30) && bits <= 30
    ensures elems < MaxElems(bits + 1) <= MaxWithDeleted(bits + 1)
    ensures MaxElems(bits) <= MaxWithDeleted(bits)
    ensures elems == MaxElems(bits) ==> bits < 30
  {
  }

  /** One more entry, with room for it, leaves the table in order. */
  lemma RoomToInsert(r: Ring, p: Word, elems: nat, deleted: nat)
    requires Sized(r) && NoGap(r) && Counted(r, elems, deleted)
    requires elems < MaxElems(r.l.bits) && elems + deleted < MaxWithDeleted(r.l.bits)
    ensures HasFree(r.slots)
    ensures NoGap(Inserted(r, p)) && Contents(Inserted(r, p).slots) == Contents(r.slots) + multiset{p}
    ensures Counted(Inserted(r, p), elems + 1, deleted)
  {
    hide NoGap, Contents, Tombstones, Inserted, Pow2;
    CountedHasEmpty(r, elems, deleted);
    InsertedKeeps(r, p);
  }

  lemma StoredOne(slots: seq<Slot>, i: nat)
    requires i < |slots| && slots[i].Live?
    ensures |Contents(slots)| >= 1
  {
    hide Contents;
    LiveIsStored(slots, i);
    assert Contents(slots) == (Contents(slots) - multiset{slots[i].p}) + multiset{slots[i].p};
  }

  /** A ring only asks for the hashes of what it stores. */
  lemma SameHashes(words: seq<Word>, r: Ring, f: Rehash)
    requires Encodes(words, r) && NoGap(r) && forall p :: p in Contents(r.slots) ==> Hash(f, p) == Hash(r.f, p)
    ensures Encodes(words, r.(f := f)) && NoGap(r.(f := f))
  {
    hide LowBits, Contents, LayoutOk, Fits, Extra, MakeHval;
    var r' := r.(f := f);
    forall i | 0 <= i < |r.slots| && r.slots[i].Live?
      ensures Home(r', r.slots[i].p) == Home(r, r.slots[i].p) && SlotWord(r', i) == SlotWord(r, i)
    {
      LiveIsStored(r.slots, i);
    }
    forall i, j | 0 <= i < |r.slots| && 0 <= j < |r.slots| && r.slots[i].Live?
      && Dist(Home(r', r.slots[i].p), j, |r.slots|) < Dist(Home(r', r.slots[i].p), i, |r.slots|)
      ensures !r.slots[j].Empty?
    {
      assert Home(r', r.slots[i].p) == Home(r, r.slots[i].p);
    }
  }
}
