/**
 The table of pending receives: `add_request`, `get_request` and `del_request` over the pointer
 table behave as a partial map from request addresses to posted receives.
 */
module Requests {
  import opened Words
  import opened SlotSpec
  import opened HTable

  type Addr = nat

  /** `request_t`. A datatype is known by the number of memory cells of one element. */
  datatype Posted = Posted(request: Addr, extent: nat, buffer: Addr, bufsize: int)

  /** What the rehash callback returns for each object. */
  function RehashIn(objects: map<Word, Posted>, hashPointer: Addr -> Word): Rehash {
    map e | e in objects :: hashPointer(objects[e].request)
  }

  /** Stored pointers and request addresses correspond one to one. */
  ghost predicate OneEach(stored: multiset<Word>, objects: map<Word, Posted>, owner: map<Addr, Word>) {
    && (forall e :: e in stored ==>
      stored[e] == 1 && e in objects && objects[e].request in owner && owner[objects[e].request] == e)
    && (forall a :: a in owner ==> owner[a] in stored && owner[a] in objects && objects[owner[a]].request == a)
  }

  ghost function PendingIn(objects: map<Word, Posted>, owner: map<Addr, Word>): map<Addr, Posted> {
    map a | a in owner && owner[a] in objects :: objects[owner[a]]
  }

  lemma PendingKeys(stored: multiset<Word>, objects: map<Word, Posted>, owner: map<Addr, Word>)
    requires OneEach(stored, objects, owner)
    ensures PendingIn(objects, owner).Keys == owner.Keys
    ensures forall a :: a in owner ==>
      && owner[a] in stored
      && owner[a] in objects
      && PendingIn(objects, owner)[a] == objects[owner[a]]
      && objects[owner[a]].request == a
    ensures forall e :: e in stored && e in objects && objects[e].request in owner ==> owner[objects[e].request] == e
    ensures forall e :: e in stored ==> e in objects && objects[e].request in owner
  {
  }

  lemma OwnedHash(stored: multiset<Word>, objects: map<Word, Posted>, owner: map<Addr, Word>,
      hashPointer: Addr -> Word, a: Addr)
    requires OneEach(stored, objects, owner) && a in owner
    ensures Hash(RehashIn(objects, hashPointer), owner[a]) == hashPointer(a)
    ensures owner[a] in stored
  {
  }

  /** There are as many objects in the table as pending requests. */
  lemma {:induction false} OneEachCount(stored: multiset<Word>, objects: map<Word, Posted>, owner: map<Addr, Word>)
    requires OneEach(stored, objects, owner)
    ensures |stored| == |owner|
    decreases owner.Keys
  {
    if owner.Keys == {} {
      assert forall e :: e !in stored;
      assert stored == multiset{};
      assert owner == map[];
    } else {
      var a :| a in owner.Keys;
      OneEachDel(stored, stored - multiset{owner[a]}, objects, owner, a);
      OneEachCount(stored - multiset{owner[a]}, objects, owner - {a});
      OneLess(owner, a);
      assert |stored - multiset{owner[a]}| == |stored| - 1;
    }
  }

  lemma CountPending(stored: multiset<Word>, objects: map<Word, Posted>, owner: map<Addr, Word>)
    requires OneEach(stored, objects, owner)
    ensures |stored| == |PendingIn(objects, owner)|
  {
    OneEachCount(stored, objects, owner);
    PendingKeys(stored, objects, owner);
    assert |owner| == |owner.Keys| && |PendingIn(objects, owner)| == |PendingIn(objects, owner).Keys|;
  }

  lemma OneLess(owner: map<Addr, Word>, a: Addr)
    requires a in owner
    ensures (owner - {a}).Keys == owner.Keys - {a}
    ensures |owner - {a}| == |owner| - 1
  {
    assert (owner - {a}).Keys == owner.Keys - {a};
  }

  /** A new object that is not stored yet changes nothing. */
  lemma OneEachAlloc(stored: multiset<Word>, objects: map<Word, Posted>, owner: map<Addr, Word>, cell: Word,
      posted: Posted)
    requires OneEach(stored, objects, owner) && cell !in objects
    ensures OneEach(stored, objects[cell := posted], owner)
    ensures PendingIn(objects[cell := posted], owner) == PendingIn(objects, owner)
  {
  }

  /** A listing of the stored objects lists their requests, which differ. */
  lemma ListedOnce(stored: multiset<Word>, objects: map<Word, Posted>, owner: map<Addr, Word>, listed: seq<Word>,
      addresses: seq<Addr>)
    requires OneEach(stored, objects, owner) && multiset(listed) == stored && |addresses| == |listed|
    requires forall k :: 0 <= k < |listed| ==> listed[k] in objects && addresses[k] == objects[listed[k]].request
    ensures forall a :: a in addresses <==> a in PendingIn(objects, owner)
    ensures forall i, j :: 0 <= i < j < |addresses| ==> addresses[i] != addresses[j]
  {
    forall a
      ensures a in addresses <==> a in PendingIn(objects, owner)
    {
      if a in addresses {
        var k :| 0 <= k < |addresses| && addresses[k] == a;
        assert listed[k] in multiset(listed);
      }
      if a in owner {
        assert owner[a] in multiset(listed);
        var k :| 0 <= k < |listed| && listed[k] == owner[a];
        assert addresses[k] == a;
      }
    }
    forall i, j | 0 <= i < j < |addresses|
      ensures addresses[i] != addresses[j]
    {
      assert listed[i] in multiset(listed) && listed[j] in multiset(listed);
      if listed[i] == listed[j] { TwiceListed(listed, i, j); }
    }
  }

  lemma TwiceListed(listed: seq<Word>, i: nat, j: nat)
    requires i < j < |listed| && listed[i] == listed[j]
    ensures multiset(listed)[listed[i]] >= 2
  {
    assert listed == listed[..j] + listed[j..];
    assert listed[i] in multiset(listed[..j]) && listed[j] in multiset(listed[j..]);
  }

  lemma PendingAdd(objects: map<Word, Posted>, owner: map<Addr, Word>, cell: Word)
    requires cell in objects && objects[cell].request !in owner
    ensures PendingIn(objects, owner[objects[cell].request := cell]) ==
      PendingIn(objects, owner)[objects[cell].request := objects[cell]]
  {
  }

  lemma OneEachAdd(stored: multiset<Word>, objects: map<Word, Posted>, owner: map<Addr, Word>, cell: Word)
    requires OneEach(stored, objects, owner) && cell in objects && cell !in stored && objects[cell].request !in owner
    ensures OneEach(stored + multiset{cell}, objects, owner[objects[cell].request := cell])
    ensures PendingIn(objects, owner[objects[cell].request := cell]) ==
      PendingIn(objects, owner)[objects[cell].request := objects[cell]]
  {
    PendingAdd(objects, owner, cell);
    hide PendingIn;
    var stored', owner' := stored + multiset{cell}, owner[objects[cell].request := cell];
    forall e | e in stored'
      ensures stored'[e] == 1 && e in objects && objects[e].request in owner' && owner'[objects[e].request] == e
    {
      if e != cell { assert e in stored; }
    }
  }

  lemma OneEachDel(stored: multiset<Word>, stored': multiset<Word>, objects: map<Word, Posted>, owner: map<Addr, Word>,
      a: Addr)
    requires a in owner && OneEach(stored, objects, owner) && stored == stored' + multiset{owner[a]}
    ensures OneEach(stored', objects, owner - {a})
    ensures PendingIn(objects, owner - {a}) == PendingIn(objects, owner) - {a}
  {
    forall e | e in stored'
      ensures stored'[e] == 1 && e in objects && objects[e].request in owner - {a}
      ensures (owner - {a})[objects[e].request] == e
    {
      assert stored[e] >= stored'[e];
    }
    forall b | b in owner - {a}
      ensures owner[b] in stored'
    {
      assert owner[b] != owner[a];
      assert stored[owner[b]] == stored'[owner[b]];
    }
  }

  class RequestTable {
    const hashPointer: Addr -> Word
    /** The highest one bit of every heap address. */
    const top: nat
    const htab: Table
    /** Every `request_t` that was ever allocated; none is freed. */
    var objects: map<Word, Posted>
    ghost var owner: map<Addr, Word>

    ghost predicate Valid()
      reads this, htab, htab.table
    {
      && htab.Valid() && 0 < top < WIDTH
      && ShowsTop(htab.commonMask, htab.commonBits, htab.elems, top)
      && htab.rehash == RehashIn(objects, hashPointer)
      && OneEach(htab.Stored(), objects, owner)
    }

    /** The pending receives by request address. */
    ghost function Pending(): map<Addr, Posted>
      reads `objects, `owner
    {
      PendingIn(objects, owner)
    }

    constructor (hash: Addr -> Word, topBit: nat)
      requires 0 < topBit < WIDTH
      ensures Valid() && Pending() == map[] && objects == map[] && fresh(htab) && htab.table == null
      ensures hashPointer == hash && top == topBit
    {
      hashPointer := hash;
      top := topBit;
      objects, owner := map[], map[];
      htab := new Table(RehashIn(map[], hash));
    }

    /** `get_request`: the object of `request`, or NULL when it is not pending. */
    method GetRequest(request: Addr) returns (e: Word)
      requires Valid()
      ensures e == {} <==> request !in Pending()
      ensures e != {} ==> e in objects && objects[e] == Pending()[request]
      ensures e != {} ==> e == owner[request]
    {
      hide Table.Valid, Candidates, Contents, Sized, ShowsTop, OneEach, PendingIn;
      PendingKeys(htab.Stored(), objects, owner);
      var o := objects;
      if request in owner { OwnedHash(htab.Stored(), objects, owner, hashPointer, request); }
      e := htab.Get(hashPointer(request), c => c in o && o[c].request == request);
    }

    /** `malloc` and the four assignments: a new object, not in the table yet. */
    method Allocate(posted: Posted, cell: Word)
      requires Valid() && cell !in objects
      modifies `objects, htab`rehash
      ensures Valid() && objects == old(objects)[cell := posted] && cell !in htab.Stored()
      ensures Pending() == old(Pending())
    {
      hide Table.Valid, Table.AsRing, Table.Stored, OneEach, PendingIn, ShowsTop;
      PendingKeys(htab.Stored(), objects, owner);
      OneEachAlloc(htab.Stored(), objects, owner, cell, posted);
      objects := objects[cell := posted];
      htab.MemoryChanged(RehashIn(objects, hashPointer));
    }

    /** `htable_add` of a new object. Its result is ignored, so without memory the receive is lost. */
    method Insert(cell: Word, memory: bool)
      requires Valid() && |Pending()| < MaxElems(MAX_BITS)
      requires cell in objects && cell !in htab.Stored() && objects[cell].request !in Pending()
      requires cell <= ALL_ONES && TopBit(cell, WIDTH - 1) == top
      modifies htab, htab.table, `owner
      ensures Valid() && (htab.table == old(htab.table) || fresh(htab.table))
      ensures Pending() == if memory || old(htab.elems) < old(htab.max)
        then old(Pending())[objects[cell].request := objects[cell]] else old(Pending())
    {
      hide Table.Valid, Table.AsRing, Table.Stored, Table.InOrder, Table.Image, Table.Header, OneEach, PendingIn, Sized;
      hide MaskAfter, Shows, MaxElems, TopBit, AllAgree, LiveUnderAll, WordTellsEntry, Fits;
      htab.Limits();
      CountPending(htab.Stored(), objects, owner);
      PendingKeys(htab.Stored(), objects, owner);
      OneEachAdd(htab.Stored(), objects, owner, cell);
      SharedTopBit(htab.commonMask, htab.commonBits, htab.elems, cell, top);
      var ok := htab.Add(hashPointer(objects[cell].request), cell, memory);
      if ok { owner := owner[objects[cell].request := cell]; }
    }

    /** `print_hash_table`: the loop over the table names every pending request, and each of them once. */
    method Listing() returns (addresses: seq<Addr>)
      requires Valid()
      ensures forall a :: a in addresses <==> a in Pending()
      ensures forall i, j :: 0 <= i < j < |addresses| ==> addresses[i] != addresses[j]
    {
      hide Table.Valid, Contents, OneEach, PendingIn, Listed, Enumerates;
      ListStart(htab.slots);
      PendingKeys(htab.Stored(), objects, owner);
      ghost var listed: seq<Word> := [];
      addresses := [];
      var p, off := htab.First();
      ghost var i := 0;
      while p != {}
        invariant Enumerates(htab.slots, i, p, off) && Listed(htab.slots, listed, i)
        invariant |addresses| == |listed| && (forall k :: 0 <= k < |listed| ==> listed[k] in objects)
        invariant forall k :: 0 <= k < |listed| ==> addresses[k] == objects[listed[k]].request
        decreases |htab.slots| - i
      {
        ListOn(htab.slots, listed, i, p, off);
        addresses, listed := addresses + [objects[p].request], listed + [p];
        i := off + 1;
        p, off := htab.NextEntry(off);
      }
      ListOn(htab.slots, listed, i, p, off);
      ListedOnce(htab.Stored(), objects, owner, listed, addresses);
    }

    /** `add_request`: a request that is already pending ends the run. `cell` is where malloc puts the new object. */
    method AddRequest(posted: Posted, cell: Word, memory: bool) returns (exits: bool)
      requires Valid() && |Pending()| < MaxElems(MAX_BITS)
      requires cell !in objects && cell <= ALL_ONES && TopBit(cell, WIDTH - 1) == top
      modifies this, htab, htab.table
      ensures Valid() && (htab.table == old(htab.table) || fresh(htab.table))
      ensures exits <==> posted.request in old(Pending())
      ensures exits ==> Pending() == old(Pending()) && objects == old(objects)
      ensures !exits ==> objects == old(objects)[cell := posted]
      ensures !exits ==>
        Pending() == if memory || old(htab.elems) < old(htab.max)
          then old(Pending())[posted.request := posted] else old(Pending())
    {
      hide Valid, PendingIn, Pending, MaxElems, TopBit;
      var e := GetRequest(posted.request);
      if e != {} { return true; }
      Allocate(posted, cell);
      Insert(cell, memory);
      exits := false;
    }

    /** `del_request`: remove the object that `get_request` found. */
    method DelRequest(request: Addr, e: Word) returns (exits: bool)
      requires Valid() && request in Pending() && e == owner[request]
      modifies this, htab, htab.table
      ensures Valid() && htab.table == old(htab.table)
      ensures !exits && objects == old(objects) && Pending() == old(Pending()) - {request}
    {
      hide Table.Valid, Table.AsRing, Table.Stored, OneEach, PendingIn, Sized, Candidates, Hash, RehashIn;
      PendingKeys(htab.Stored(), objects, owner);
      OwnedHash(htab.Stored(), objects, owner, hashPointer, request);
      var found := htab.Del(hashPointer(request), e);
      exits := !found;
      OneEachDel(old(htab.Stored()), htab.Stored(), objects, owner, request);
      owner := owner - {request};
    }
  }
}
