/**
 The open-addressing table of pointers. Every method is proved against the ring of SlotSpec: the
 words in the array are always the encoding of the ghost ring.
 */
module HTable {
  import opened Numbers
  import opened Words
  import opened SlotSpec
  import opened Rebuild

  const MAX_BITS: nat := 30

  /** The ring of a table with one slot and nothing in it. */
  lemma NewRing(f: Rehash)
    ensures var r := Ring(Layout(0, ALL_ONES, {}, {}), f, [Empty]);
      Encodes([{}], r) && NoGap(r) && Counted(r, 0, 0) && Contents(r.slots) == multiset{}
    ensures MaxElems(0) == MaxWithDeleted(0) == 0
  {
  }

  /** A null table pointer stands for a table that still points at the `perfect_bit` field. */
  class Table {
    var rehash: Rehash
    var bits: nat
    var elems: nat
    var deleted: nat
    var max: nat
    var maxWithDeleted: nat
    var commonMask: Word
    var commonBits: Word
    var perfectBit: Word
    var table: array?<Word>
    ghost var slots: seq<Slot>

    function Header(): Layout
      reads `bits, `commonMask, `commonBits, `perfectBit
    {
      Layout(bits, commonMask, commonBits, perfectBit)
    }

    ghost function AsRing(): Ring
      reads `bits, `commonMask, `commonBits, `perfectBit, `rehash, `slots
    {
      Ring(Header(), rehash, slots)
    }

    ghost function Image(): seq<Word>
      reads `table, `perfectBit, table
    {
      if table == null then [perfectBit] else table[..]
    }

    ghost predicate Valid()
      reads this, table
    {
      Encodes(Image(), AsRing()) && Settled()
    }

    /** Everything but that the stored pointers fit, so that their words can be told from the marks. */
    ghost predicate InOrder()
      reads this, table
    {
      Spells(Image(), AsRing()) && Settled()
    }

    /** The limits, the counters and the probe paths. */
    ghost predicate Settled()
      requires Sized(AsRing())
      reads this
    {
      && bits <= MAX_BITS
      && (table == null ==> bits == 0 && perfectBit == {})
      && max == MaxElems(bits)
      && maxWithDeleted == MaxWithDeleted(bits)
      && NoGap(AsRing())
      && Counted(AsRing(), elems, deleted)
    }

    /** The stored pointers, as a multiset. */
    ghost function Stored(): multiset<Word>
      reads `slots
    {
      Contents(slots)
    }

    constructor (f: Rehash)
      ensures Valid() && Stored() == multiset{}
      ensures rehash == f && table == null && commonMask == ALL_ONES && commonBits == {} && elems == 0
    {
      rehash := f;
      bits, elems, deleted, max, maxWithDeleted := 0, 0, 0, 0, 0;
      commonMask, commonBits, perfectBit := ALL_ONES, {}, {};
      table := null;
      slots := [Empty];
    }

    /** `htable_clear`: back to the state of a new table with the same callback. */
    method Clear()
      modifies this
      ensures Valid() && Stored() == multiset{}
      ensures rehash == old(rehash) && table == null && commonMask == ALL_ONES && commonBits == {} && elems == 0
      ensures bits == deleted == 0 && slots == [Empty]
    {
      hide Encodes, NoGap, Counted, Contents;
      NewRing(rehash);
      bits, elems, deleted, max, maxWithDeleted := 0, 0, 0, 0, 0;
      commonMask, commonBits, perfectBit := ALL_ONES, {}, {};
      table := null;
      slots := [Empty];
    }

    function Load(i: nat): Word
      reads `table, `perfectBit, table
      requires if table == null then i == 0 else i < table.Length
    {
      if table == null then perfectBit else table[i]
    }

    lemma ValidFacts()
      requires Valid()
      ensures Encodes(Image(), AsRing()) && Sized(AsRing()) && HasEmpty(slots) && |Image()| == Pow2(bits)
      ensures LayoutOk(Header())
      ensures table == null ==> slots == [Empty] && bits == 0
      ensures NoGap(AsRing())
    {
      hide LayoutOk, NoGap, Fits;
      CountedHasEmpty(AsRing(), elems, deleted);
    }

    /** `htable_val`: probe on from `off` for an entry that could have hash `h`. */
    method Val(off: nat, h: Word, perfect: Word) returns (p: Word, off': nat)
      requires Valid() && Sized(AsRing()) && off < |slots| && OnPath(AsRing(), h, off)
      requires perfect == if off == Bucket(AsRing(), h) then perfectBit else {}
      ensures Finds(AsRing(), h, Dist(Bucket(AsRing(), h), off, |slots|), p, off')
    {
      hide Valid, Bucket, Encodes, OnPath, GetHashPtrBits, GetRawPtr, GetExtraPtrBits, LayoutOk, Pow2, Probing, Finds;
      ghost var r, d, words := AsRing(), Dist(Bucket(AsRing(), h), off, |slots|), Image();
      ValidFacts();
      HashBitsAvoidPerfect(Header(), h);
      assert Probing(r, h, d, off) by { StartProbe(r, h, off); }
      off' := off;
      var h2 := GetHashPtrBits(Header(), h) + perfect;
      while Load(off') != {}
        invariant off' < |words| && Probing(r, h, d, off')
        invariant h2 == Extra(r.l, h, off' == Bucket(r, h))
        decreases |r.slots| - Dist(Bucket(r, h), off', |r.slots|)
      {
        ProbeStep(words, r, h, d, off');
        if Load(off') != DELETED && GetExtraPtrBits(Header(), Load(off')) == h2 {
          p := GetRawPtr(Header(), Load(off'));
          return;
        }
        off' := Next(off', Pow2(bits));
        h2 := h2 - perfect;
      }
      ProbeEnd(words, r, h, d, off');
      p := {};
    }

    method FirstVal(h: Word) returns (p: Word, off: nat)
      requires Valid()
      ensures Sized(AsRing()) && Finds(AsRing(), h, 0, p, off)
    {
      ValidFacts();
      p, off := Val(LowBits(h, bits), h, perfectBit);
    }

    /** Continue after the position that the previous call reported. */
    method NextVal(i: nat, h: Word) returns (p: Word, off: nat)
      requires Valid() && Sized(AsRing()) && i < |slots| && slots[i].Live? && OnPath(AsRing(), h, i)
      ensures Finds(AsRing(), h, Dist(Bucket(AsRing(), h), i, |slots|) + 1, p, off)
    {
      hide Valid, Encodes, LayoutOk, OnPath, Bucket, Finds;
      ValidFacts();
      PathGoesOn(AsRing(), h, i);
      p, off := Val(Next(i, Pow2(bits)), h, {});
    }

    /** Assigning one table word. */
    method Store(i: nat, w: Word, ghost s: Slot)
      requires table != null && i < table.Length == |slots|
      modifies table, `slots
      ensures Image() == old(Image())[i := w] && slots == old(slots)[i := s]
    {
      table[i] := w;
      slots := slots[i := s];
    }

    /** `ht_add`: put `p` into the first slot from its home that holds no entry. */
    method HtAdd(p: Word, h: Word)
      requires table != null && Encodes(Image(), AsRing()) && HasFree(slots) && h == Hash(rehash, p)
      modifies table, `slots
      ensures AsRing() == old(Inserted(AsRing(), p))
      ensures Spells(Image(), AsRing()) && (Encodes(Image(), AsRing()) <==> Fits(Header(), p))
    {
      hide Bucket, Encodes, Spells, GetHashPtrBits, LayoutOk, Pow2, Walking, Fits, MakeHval, HasFree;
      ghost var r, words := AsRing(), Image();
      EncodesSized(words, r);
      var perfect := perfectBit;
      var i: nat := LowBits(h, bits);
      ghost var a := Bucket(r, h);
      assert i == a && Walking(r.slots, a, i) by { StartWalk(r, h); }
      while EntryIsValid(Load(i))
        modifies {}
        invariant i < |words| && Walking(r.slots, a, i)
        invariant perfect == if i == a then perfectBit else {}
        decreases |r.slots| - Dist(a, i, |r.slots|)
      {
        ReadWord(words, r, i);
        WalkOn(r.slots, a, i);
        perfect := {};
        i := Next(i, Pow2(bits));
      }
      ReadWord(words, r, i);
      WalkEnd(r.slots, a, i);
      var w := MakeHval(Header(), p, GetHashPtrBits(Header(), h) + perfect);
      WriteEntry(words, r, i, p, w);
      Store(i, w, Live(p));
    }

    /** If the table lost its perfect bit, take the lowest common bit for it. */
    method RecoverPerfectBit()
      modifies `perfectBit
      ensures perfectBit == Recovered(old(perfectBit), commonMask)
    {
      if perfectBit == {} && commonMask != {} {
        var i: nat := 0;
        while i < WIDTH
          invariant i <= WIDTH && perfectBit == {}
          invariant LowestBit(commonMask, 0) == LowestBit(commonMask, i)
        {
          if i in commonMask {
            perfectBit := {i};
            break;
          }
          i := i + 1;
        }
      }
    }

    /** Add every entry of the old table again. */
    method Refill(oldtable: array<Word>, ghost r0: Ring)
      requires table != null && table != oldtable && Encodes(oldtable[..], r0)
      requires Encodes(Image(), AsRing()) && Refilled(r0.slots, AsRing(), 0)
      requires rehash == r0.f && commonMask == r0.l.mask && commonBits == r0.l.common
      requires |Contents(r0.slots)| < |slots|
      modifies table, `slots
      ensures Encodes(Image(), AsRing()) && Refilled(r0.slots, AsRing(), |r0.slots|)
    {
      hide Encodes, Refilled, Inserted, Contents, Fits, GetRawPtr, EntryIsValid, LayoutOk;
      ghost var old_ := oldtable[..];
      EncodesSized(old_, r0);
      EncodesSized(Image(), AsRing());
      var i: nat := 0;
      while i < oldtable.Length
        invariant i <= oldtable.Length && oldtable[..] == old_
        invariant Encodes(Image(), AsRing()) && Refilled(r0.slots, AsRing(), i) && |slots| == old(|slots|)
      {
        var e := oldtable[i];
        RefillRead(old_, r0, Header(), i);
        RefillStep(r0.slots, AsRing(), i);
        if EntryIsValid(e) {
          var p := GetRawPtr(Header(), e);
          HtAdd(p, Hash(rehash, p));
        }
        i := i + 1;
      }
    }

    /** What a rebuild keeps beside the stored pointers: the callback, the shared bits and the count. */
    twostate predicate SameHeader()
      reads this
    {
      rehash == old(rehash) && elems == old(elems) && commonMask == old(commonMask) && commonBits == old(commonBits)
    }

    /** A zeroed table of twice the size, with its limits and a perfect bit. */
    method Enlarge(ghost old_: seq<Slot>)
      requires Valid()
      modifies this
      ensures table != null && fresh(table) && Encodes(Image(), AsRing()) && Refilled(old_, AsRing(), 0)
      ensures |slots| == Pow2(bits)
      ensures bits == old(bits) + 1 && max == MaxElems(bits) && maxWithDeleted == MaxWithDeleted(bits)
      ensures SameHeader()
      ensures perfectBit == Recovered(old(perfectBit), commonMask)
    {
      hide NoGap, Encodes, Counted, Recovered, Refilled, MaxElems, MaxWithDeleted, LayoutOk;
      ValidFacts();
      RecoveredOk(Header(), bits + 1);
      var n := Pow2(bits + 1);
      table := new Word[n](_ => {});
      slots := seq(n, _ => Empty);
      bits := bits + 1;
      max, maxWithDeleted := MaxElems(bits), MaxWithDeleted(bits);
      RecoverPerfectBit();
      EmptyRing(Image(), AsRing());
      RefillStart(old_, AsRing());
    }

    /** Nothing to add when the old table was the `perfect_bit` field. */
    method RefillFrom(oldtable: array?<Word>, ghost r0: Ring)
      requires table != null && table != oldtable
      requires (if oldtable != null then Encodes(oldtable[..], r0) else r0.slots == [Empty])
      requires Encodes(Image(), AsRing()) && Refilled(r0.slots, AsRing(), 0)
      requires rehash == r0.f && commonMask == r0.l.mask && commonBits == r0.l.common
      requires |Contents(r0.slots)| < |slots|
      modifies table, `slots
      ensures Encodes(Image(), AsRing()) && Refilled(r0.slots, AsRing(), |r0.slots|)
    {
      hide Encodes, Refilled;
      if oldtable != null {
        Refill(oldtable, r0);
      } else {
        RefillFromNothing(AsRing());
      }
    }

    /** `double_table` once the new table is there. */
    method DoubleInto()
      requires Valid() && bits < MAX_BITS
      modifies this
      ensures Valid() && SameHeader() && Stored() == old(Stored())
      ensures table != null && fresh(table) && bits == old(bits) + 1 && deleted == 0
      ensures perfectBit == Recovered(old(perfectBit), commonMask)
    {
      hide Encodes, NoGap, LayoutOk, Counted, Contents, Refilled, Recovered;
      ghost var r0 := AsRing();
      var oldtable := table;
      ValidFacts();
      RoomToRefill(r0, elems, deleted);
      Enlarge(r0.slots);
      RefillFrom(oldtable, r0);
      Doubled(r0, AsRing(), elems, old(deleted));
      deleted := 0;
    }

    /** `double_table`; `memory` says whether `calloc` succeeds. */
    method DoubleTable(memory: bool) returns (ok: bool)
      requires Valid() && bits < MAX_BITS
      modifies this
      ensures Valid() && ok == memory
      ensures !ok ==> unchanged(this)
      ensures ok ==>
        && SameHeader()
        && Stored() == old(Stored())
        && table != null
        && fresh(table)
        && bits == old(bits) + 1
        && deleted == 0
      ensures ok ==> perfectBit == Recovered(old(perfectBit), commonMask)
    {
      hide Valid;
      if !memory { return false; }
      DoubleInto();
      return true;
    }

    method FirstEmpty() returns (start: nat)
      requires Encodes(Image(), AsRing()) && HasEmpty(slots)
      ensures start < |slots| && slots[start].Empty?
    {
      hide Encodes, LayoutOk;
      EncodesSized(Image(), AsRing());
      ghost var e :| 0 <= e < |slots| && slots[e].Empty?;
      start := 0;
      while Load(start) != {}
        invariant start <= e
        decreases e - start
      {
        ReadWord(Image(), AsRing(), start);
        start := start + 1;
      }
      ReadWord(Image(), AsRing(), start);
    }

    /** The body of the rehashing loop, at the slot `i` steps after `start`. */
    method RehashOne(start: nat, i: nat)
      requires table != null && Encodes(Image(), AsRing()) && i < |slots| && start < |slots|
      requires Rehashing(AsRing(), start, i)
      modifies table, `slots
      ensures Encodes(Image(), AsRing()) && Rehashing(AsRing(), start, i + 1)
      ensures Contents(slots) == old(Contents(slots))
      ensures forall q, d :: old(Near(AsRing(), q, d)) <= Near(AsRing(), q, d)
    {
      hide Encodes, Rehashing, Contents, Near, LayoutOk, Inserted, Fits, GetRawPtr, Pow2;
      ghost var r, words := AsRing(), Image();
      EncodesSized(words, r);
      var h := At(start, i, Pow2(bits));
      var e := table[h];
      ReadWord(words, r, h);
      if e == {} {
        RehashStay(r, start, h, Empty);
        assert slots[h := Empty] == slots;
      } else if e == DELETED {
        RehashStay(r, start, h, Empty);
        WriteSlot(words, r, h, Empty, {});
        Store(h, {}, Empty);
      } else if e * perfectBit == {} {
        var p := GetRawPtr(Header(), e);
        EntryFits(words, r, h);
        RehashMove(r, start, h);
        WriteSlot(words, r, h, Empty, {});
        Store(h, {}, Empty);
        assert !slots[h].Live?;
        HtAdd(p, Hash(rehash, p));
      } else {
        RehashStay(r, start, h, slots[h]);
        assert slots[h := slots[h]] == slots;
      }
    }

    /**
     `rehash_table`: one pass over the ring from its first empty slot, dropping tombstones and re-adding what
     is not at home.
     */
    method RehashTable()
      requires Valid() && table != null
      modifies table, `slots, `deleted
      ensures Valid() && Stored() == old(Stored()) && deleted == 0 && Tombstones(slots) == 0
      ensures Sized(AsRing()) && old(Sized(AsRing()))
      ensures forall q, d :: old(Near(AsRing(), q, d)) <= Near(AsRing(), q, d)
    {
      hide Encodes, Pow2, Rehashing, Contents, Tombstones, Near, LayoutOk, NoGap, HasEmpty, Counted;
      ghost var r0 := AsRing();
      ValidFacts();
      var start := FirstEmpty();
      RehashStart(AsRing(), start);
      var i: nat := 0;
      while i < Pow2(bits)
        invariant i <= Pow2(bits) == |slots| == |r0.slots|
        invariant Encodes(Image(), AsRing()) && Rehashing(AsRing(), start, i)
        invariant Contents(slots) == Contents(r0.slots)
        invariant forall q, d :: Near(r0, q, d) <= Near(AsRing(), q, d)
      {
        RehashOne(start, i);
        EncodesSized(Image(), AsRing());
        i := i + 1;
      }
      RehashEnd(AsRing(), start);
      RehashedCounted(r0, AsRing(), elems, old(deleted));
      deleted := 0;
    }

    /** The loop of `update_common` for the first pointer: the highest bit of `p`, or bit 0. */
    method RevealedBit(p: Word) returns (i: nat)
      ensures i == TopBit(p, WIDTH - 1)
    {
      i := WIDTH - 1;
      while i > 0
        invariant i <= WIDTH - 1 && TopBit(p, WIDTH - 1) == TopBit(p, i)
      {
        if i in p { break; }
        i := i - 1;
      }
    }

    /** Take the bits in which `p` differs from the stored pointers out of every entry. */
    method GiveBitsBack(p: Word)
      requires table != null && Encodes(Image(), AsRing())
      modifies table, `commonMask, `commonBits, `perfectBit
      ensures Encodes(Image(), AsRing()) && Header() == old(Narrowed(Header(), p))
    {
      hide Encodes, EntryIsValid, Pow2, LayoutOk;
      ghost var r, words := AsRing(), Image();
      EncodesSized(words, r);
      var maskdiff := Xor(commonBits, p * commonMask);
      var bitsdiff := commonBits * maskdiff;
      var i: nat := 0;
      while i < Pow2(bits)
        invariant i <= Pow2(bits)
        invariant Header() == r.l && table == old(table)
        invariant forall j :: 0 <= j < i ==>
          table[j] == if EntryIsValid(words[j]) then Reencoded(r.l, p, words[j]) else words[j]
        invariant forall j :: i <= j < |words| ==> table[j] == words[j]
      {
        if EntryIsValid(table[i]) {
          table[i] := table[i] - maskdiff;
          table[i] := table[i] + bitsdiff;
        }
        i := i + 1;
      }
      NarrowRing(words, r, p, Image());
      commonMask := commonMask - maskdiff;
      commonBits := commonBits - maskdiff;
      perfectBit := perfectBit - maskdiff;
    }

    /** `update_common`, called when `p` does not agree with the common bits. */
    method UpdateCommon(p: Word)
      requires Valid() && table != null && IsPointer(p) && p * commonMask != commonBits
      modifies table, `commonMask, `commonBits, `perfectBit
      ensures Valid() && commonMask == old(MaskAfter(commonMask, commonBits, elems, p)) && p * commonMask == commonBits
      ensures if old(elems) == 0 then perfectBit == {0} else perfectBit == old(perfectBit) || perfectBit == {}
    {
      hide Encodes, Shows, TopBit, LayoutOk, Pow2, Contents, Tombstones, NoGap, Xor;
      ghost var r, words := AsRing(), Image();
      ValidFacts();
      if elems == 0 {
        var i := RevealedBit(p);
        FreshLayoutOk(bits, p);
        commonMask := ALL_ONES - {i};
        commonBits := p * commonMask;
        perfectBit := {0};
        NothingStored(r.slots);
        RelayoutEmpty(words, r, Header());
      } else {
        NarrowedOk(Header(), p);
        GiveBitsBack(p);
      }
      SameGaps(r, AsRing());
    }

    lemma Limits()
      requires Valid()
      ensures bits <= MAX_BITS && max == MaxElems(bits) && maxWithDeleted == MaxWithDeleted(bits)
      ensures elems <= max && elems + deleted <= maxWithDeleted && elems == |Stored()|
      ensures table == null ==> max == 0
    {
      hide Encodes, NoGap, Tombstones, Contents;
    }

    /** One more entry needs neither a larger table nor a rebuilt one. */
    predicate HasRoom()
      reads this
    {
      elems < max && elems + deleted < maxWithDeleted
    }

    /** Make room for one more entry: double a full table, rehash one that is full of tombstones. */
    method MakeRoom(memory: bool) returns (ok: bool)
      requires Valid() && elems < MaxElems(MAX_BITS)
      modifies this, table
      ensures Valid() && ok == (memory || old(elems) < old(max))
      ensures SameHeader() && Stored() == old(Stored()) && (table == old(table) || fresh(table))
      ensures !ok ==> unchanged(this)
      ensures ok ==> table != null && elems < max && elems + deleted < maxWithDeleted
      ensures ok ==> bits == old(bits) + (if old(elems) < old(max) then 0 else 1)
      ensures ok ==> if old(HasRoom()) then unchanged(this) && Image() == old(Image()) else deleted == 0
    {
      hide Valid, Contents, Tombstones, Recovered, Near, MaxElems, MaxWithDeleted, AsRing, Image, Sized;
      Limits();
      MaxElemsGrow(bits, elems);
      if elems + 1 > max {
        ok := DoubleTable(memory);
        if !ok { return; }
        Limits();
      }
      if elems + 1 + deleted > maxWithDeleted {
        RehashTable();
        Limits();
      }
      ok := true;
    }

    /** The last part of `htable_add`. */
    method AddEntry(h: Word, p: Word)
      requires Valid() && table != null && elems < max && elems + deleted < maxWithDeleted
      requires h == Hash(rehash, p) && p * commonMask == commonBits
      modifies table, `slots, `elems
      ensures InOrder() && Stored() == old(Stored()) + multiset{p} && AllAgree(AsRing())
      ensures OneMore(old(slots), slots, p)
      ensures forall i :: 0 <= i < |slots| && slots[i].Live? ==> WordTellsEntry(Image(), AsRing(), i)
      ensures forall i :: 0 <= i < |slots| && slots[i].Live? && slots[i].p != p ==> Fits(Header(), slots[i].p)
      ensures LiveUnderAll(AsRing()) <==> Shows(commonMask, p)
      ensures Valid() <==> LiveUnderAll(AsRing())
    {
      hide Encodes, Spells, Contents, Tombstones, NoGap, LayoutOk, HasFree, HasEmpty, Inserted, Shows, MaxElems,
        MaxWithDeleted, Counted, AllAgree, AllFit, LiveUnderAll, Fits, WordTellsEntry, OneMore;
      ghost var r := AsRing();
      ValidFacts();
      RoomToInsert(r, p, elems, deleted);
      EncodesFits(Image(), r);
      InsertedAgrees(r, p);
      InsertedIsOneMore(r, p);
      HtAdd(p, h);
      elems := elems + 1;
      EntriesHaveBits(bits, elems);
      LiveUnderEveryCallback(AsRing());
      WordsTellEntries(Image(), AsRing());
      EncodesFits(Image(), AsRing());
    }

    /**
     `htable_add`. It fails only when a doubling it needs gets no memory, and then changes nothing. When it
     succeeds every slot has the word of its entry, and all entries but those of the new pointer fit. Its own
     word is told from the marks when it shows a bit or its metadata, which is that of hash `h`, has one above
     bit 0. Under every callback, and so after any later rebuild, all words are told from the marks exactly
     when it shows a bit, and that is when the table is fit for further calls.
     */
    method Add(h: Word, p: Word, memory: bool) returns (ok: bool)
      requires Valid() && elems < MaxElems(MAX_BITS)
      requires h == Hash(rehash, p) && IsPointer(p)
      modifies this, table
      ensures rehash == old(rehash) && (table == old(table) || fresh(table))
      ensures ok == (memory || old(elems) < old(max))
      ensures !ok ==> unchanged(this) && Valid() && Stored() == old(Stored())
      ensures ok ==>
        && InOrder()
        && Stored() == old(Stored()) + multiset{p}
        && commonMask == old(MaskAfter(commonMask, commonBits, elems, p))
      ensures ok ==> AllAgree(AsRing()) && forall i :: 0 <= i < |slots| && slots[i].Live? ==>
        && WordTellsEntry(Image(), AsRing(), i)
        && (slots[i].p != p ==> Fits(Header(), slots[i].p))
      ensures ok ==> (LiveUnderAll(AsRing()) <==> Shows(commonMask, p))
      ensures ok ==> (Valid() <==> LiveUnderAll(AsRing()))
      ensures ok ==> bits == old(bits) + (if old(elems) < old(max) then 0 else 1)
      ensures ok && old(HasRoom()) ==> OneMore(old(slots), slots, p) && deleted == old(deleted)
      ensures ok && !old(HasRoom()) ==> deleted == 0
    {
      hide Valid, Contents, Shows, MaskAfter, MaxElems, IsPointer, AllAgree, LiveUnderAll, WordTellsEntry, Fits, Spells,
        Settled, OneMore;
      ok := MakeRoom(memory);
      if !ok { return; }
      if p * commonMask != commonBits {
        UpdateCommon(p);
      } else {
        AlreadyFits(Header(), elems, p);
      }
      AddEntry(h, p);
    }

    /** `htable_get`: a candidate that `cmp` accepts, or NULL when it accepts none. */
    method Get(h: Word, cmp: Word -> bool) returns (c: Word)
      requires Valid()
      ensures Sized(AsRing())
      ensures c == {} <==> forall q :: q in Candidates(AsRing(), h, 0) ==> !cmp(q)
      ensures c != {} ==> cmp(c) && c in Stored()
      ensures forall q :: q in Stored() && Hash(rehash, q) == h && cmp(q) ==> c != {}
    {
      hide Valid, Finds, Candidates, Contents, NoGap, OnPath, Bucket, Dist, Encodes, LayoutOk, HasEmpty, StillAhead;
      ghost var r := AsRing();
      ValidFacts();
      var i;
      c, i := FirstVal(h);
      ghost var d: nat := 0;
      AllAhead(r, h, cmp);
      while c != {}
        invariant Finds(r, h, d, c, i) && StillAhead(r, h, d, cmp)
        decreases |r.slots| - d
      {
        PassOver(r, h, d, c, i, cmp);
        if cmp(c) { return; }
        d := Dist(Bucket(r, h), i, |r.slots|) + 1;
        c, i := NextVal(i, h);
      }
      PassOver(r, h, d, c, i, cmp);
      forall q | q in Stored() && Hash(rehash, q) == h
        ensures q in Candidates(r, h, 0)
      {
        CandidateIsStored(r, h, q);
      }
    }

    /** `htable_delval`: bury the entry that an iterator points at. */
    method DelVal(i: nat)
      requires Valid() && i < |slots| && slots[i].Live?
      modifies this, table
      ensures Valid() && rehash == old(rehash) && table == old(table) && commonMask == old(commonMask)
      ensures slots == old(slots)[i := Tombstone] && old(Stored()) == Stored() + multiset{old(slots[i].p)}
      ensures elems == old(elems) - 1 && deleted == old(deleted) + 1 && bits == old(bits)
    {
      hide Encodes, NoGap, Contents, Tombstones, LayoutOk, Pow2;
      ValidFacts();
      Limits();
      Buried(AsRing(), i);
      StoredOne(slots, i);
      WriteSlot(Image(), AsRing(), i, Tombstone, DELETED);
      elems := elems - 1;
      Store(i, DELETED, Tombstone);
      deleted := deleted + 1;
    }

    /** `htable_del`: find `p` among the candidates of `h` and bury it. */
    method Del(h: Word, p: Word) returns (found: bool)
      requires Valid()
      modifies this, table
      ensures Valid() && rehash == old(rehash) && table == old(table) && commonMask == old(commonMask)
      ensures old(Sized(AsRing())) && (found <==> p in old(Candidates(AsRing(), h, 0)))
      ensures h == Hash(rehash, p) ==> (found <==> p in old(Stored()))
      ensures found ==> old(Stored()) == Stored() + multiset{p} && elems == old(elems) - 1
      ensures !found ==> unchanged(this) && Stored() == old(Stored())
    {
      hide Valid, Finds, Candidates, Contents, NoGap, OnPath, Bucket, Dist, Encodes, LayoutOk, HasEmpty, StillAhead;
      ghost var r := AsRing();
      ValidFacts();
      CandidateIsStored(r, h, p);
      var c, i := FirstVal(h);
      ghost var d: nat := 0;
      ghost var wanted := (q: Word) => q == p;
      AllAhead(r, h, wanted);
      while c != {}
        modifies {}
        invariant Finds(r, h, d, c, i) && StillAhead(r, h, d, wanted)
        decreases |r.slots| - d
      {
        PassOver(r, h, d, c, i, wanted);
        if c == p { break; }
        d := Dist(Bucket(r, h), i, |r.slots|) + 1;
        c, i := NextVal(i, h);
      }
      PassOver(r, h, d, c, i, wanted);
      found := c != {};
      if found { DelVal(i); }
    }

    /** The scan shared by `htable_first` and `htable_next`. */
    method Scan(from: nat) returns (p: Word, off: nat)
      requires Valid()
      ensures Enumerates(slots, from, p, off)
    {
      hide Encodes, NoGap, LayoutOk, Contents, Tombstones, Fits;
      ValidFacts();
      ghost var words, r := Image(), AsRing();
      off := from;
      while off < Pow2(bits)
        invariant StoredFrom(slots, from) == StoredFrom(slots, off) && from <= off
        decreases Pow2(bits) - off
      {
        ReadWord(words, r, off);
        if EntryIsValid(Load(off)) {
          p := GetRawPtr(Header(), Load(off));
          return;
        }
        SkipSlot(slots, off);
        off := off + 1;
      }
      p := {};
    }

    /** `htable_first` and `htable_next`: one after the other they list the whole multiset. */
    method First() returns (p: Word, off: nat)
      requires Valid()
      ensures Enumerates(slots, 0, p, off)
    {
      p, off := Scan(0);
    }

    method NextEntry(i: nat) returns (p: Word, off: nat)
      requires Valid()
      ensures Enumerates(slots, i + 1, p, off)
    {
      p, off := Scan(i + 1);
    }

    /** The loop over `htable_first` and `htable_next`: every stored pointer, as often as it is stored. */
    method Entries() returns (ps: seq<Word>)
      requires Valid()
      ensures multiset(ps) == Stored()
    {
      hide Valid, Contents, Listed, Enumerates;
      ListStart(slots);
      ps := [];
      var p, off := First();
      ghost var i := 0;
      while p != {}
        invariant Enumerates(slots, i, p, off) && Listed(slots, ps, i)
        decreases |slots| - i
      {
        ListOn(slots, ps, i, p, off);
        ps := ps + [p];
        i := off + 1;
        p, off := NextEntry(off);
      }
      ListOn(slots, ps, i, p, off);
    }

    /**
     The loop over `htable_firstval` and `htable_nextval`: every stored pointer of hash `h` as often as it is
     stored, and of other hashes only stored pointers.
     */
    method Values(h: Word) returns (ps: seq<Word>)
      requires Valid()
      ensures multiset(ps) <= Stored() && forall q :: Hash(rehash, q) == h ==> multiset(ps)[q] == Stored()[q]
    {
      hide Valid, Finds, Candidates, Contents, NoGap, OnPath, Bucket, Dist, Encodes, LayoutOk, HasEmpty, ListedFor;
      ghost var r := AsRing();
      ValidFacts();
      ListForStart(r, h);
      ps := [];
      var p, i := FirstVal(h);
      ghost var d: nat := 0;
      while p != {}
        invariant Finds(r, h, d, p, i) && ListedFor(r, h, ps, d)
        decreases |r.slots| - d
      {
        ListForOn(r, h, ps, d, p, i);
        ps := ps + [p];
        d := Dist(Bucket(r, h), i, |r.slots|) + 1;
        p, i := NextVal(i, h);
      }
      ListForOn(r, h, ps, d, p, i);
      CandidatesComplete(r, h);
    }

    /** The callback reads memory that its owner may change, as long as no stored object hashes differently. */
    method MemoryChanged(f: Rehash)
      requires Valid() && forall p :: p in Stored() ==> Hash(f, p) == Hash(rehash, p)
      modifies `rehash
      ensures Valid() && rehash == f
    {
      hide NoGap, Contents, LayoutOk, Tombstones;
      SameHashes(Image(), AsRing(), f);
      rehash := f;
    }
  }
}
