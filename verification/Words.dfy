/**
 Machine words as the pointer table uses them. A word is the set of its one bits: `&` is
 intersection, `|` union, `& ~m` difference and `^` symmetric difference. One table word holds a
 pointer whose bits under a mask have been replaced by metadata.
 */
module Words {
  import opened Numbers

  const WIDTH: nat := 64

  type Word = set<nat>

  /** The deleted marker, the word 1. */
  const DELETED: Word := {0}

  const ALL_ONES: Word := set i: nat | i < WIDTH

  /** The number written in the low `b` bits of `h`: the value of `h & ((1 << b) - 1)`. */
  function LowBits(h: Word, b: nat): (r: nat)
    ensures r < Pow2(b)
  {
    if b == 0 then 0 else LowBits(h, b - 1) + if b - 1 in h then Pow2(b - 1) else 0
  }

  /** The bits of that number are the low bits of the word. */
  lemma {:induction false} LowBitsAre(h: Word, b: nat, i: nat)
    requires i < b
    ensures LowBits(h, b) / Pow2(i) % 2 == if i in h then 1 else 0
  {
    hide LowBits, Pow2;
    LowBitsStep(h, b);
    if i < b - 1 {
      LowBitsAre(h, b - 1, i);
      HigherBit(LowBits(h, b - 1), b - 1, i);
    } else {
      TopOfLow(LowBits(h, b - 1), b - 1);
    }
  }

  lemma LowBitsStep(h: Word, b: nat)
    requires b > 0
    ensures LowBits(h, b) == LowBits(h, b - 1) + (if b - 1 in h then Pow2(b - 1) else 0)
    ensures LowBits(h, b - 1) < Pow2(b - 1)
  {
  }

  /** A bit above bit `i` does not disturb it. */
  lemma HigherBit(x: nat, b: nat, i: nat)
    requires i < b
    ensures (x + Pow2(b)) / Pow2(i) % 2 == x / Pow2(i) % 2
  {
    hide Pow2, Prod, Quot, Rem;
    var p, q := Pow2(i), Pow2(b - i - 1);
    Pow2Sum(i, b - i);
    PowerStep(b - i);
    Division(x, p);
    ProdSum(p, Quot(x, p), 2 * q);
    AsProduct(p, 2 * q);
    DivisionUnique(x + Pow2(b), p, Quot(x, p) + 2 * q, Rem(x, p));
    AsQuotient(x, p);
    AsQuotient(x + Pow2(b), p);
    SameParity(Quot(x, p), q);
  }

  lemma SameParity(a: int, q: int)
    ensures (a + 2 * q) % 2 == a % 2
  {
  }

  lemma PowerStep(n: nat)
    requires n > 0
    ensures Pow2(n) == 2 * Pow2(n - 1)
  {
  }

  lemma AsProduct(a: int, b: int)
    ensures Prod(a, b) == a * b
  {
  }

  lemma AsQuotient(x: int, p: int)
    requires p != 0
    ensures Quot(x, p) == x / p
  {
  }

  lemma TopOfLow(x: nat, b: nat)
    requires x < Pow2(b)
    ensures x / Pow2(b) % 2 == 0 && (x + Pow2(b)) / Pow2(b) % 2 == 1
  {
    hide Pow2;
    var p := Pow2(b);
    ModUnique(x, p, 0, x);
    ModUnique(x + p, p, 1, x);
  }

  function Xor(a: Word, b: Word): Word {
    (a - b) + (b - a)
  }

  function ShiftRight(h: Word, b: nat): Word {
    set i | i in h && i >= b :: (i - b) as nat
  }

  /**
   How the pointers of one table share their bits. `perfect` is the stolen bit for entries at home, the word
   0 when there is none.
   */
  datatype Layout = Layout(bits: nat, mask: Word, common: Word, perfect: Word)

  predicate LayoutOk(l: Layout) {
    && l.common <= l.mask <= ALL_ONES
    && l.perfect <= l.mask
    && (forall i, j :: i in l.perfect && j in l.perfect ==> i == j)
  }

  /** Pointer `p` agrees with the common bits and shows a bit above bit 0 outside the mask. */
  predicate Fits(l: Layout, p: Word) {
    p * l.mask == l.common && Shows(l.mask, p)
  }

  predicate Shows(mask: Word, p: Word) {
    exists i :: i in p && i !in mask && i > 0
  }

  function GetExtraPtrBits(l: Layout, e: Word): Word {
    e * l.mask
  }

  function GetRawPtr(l: Layout, e: Word): Word {
    (e - l.mask) + l.common
  }

  function MakeHval(l: Layout, p: Word, extra: Word): Word {
    (p - l.mask) + extra
  }

  /** Above the deleted marker as a number. */
  predicate EntryIsValid(e: Word) {
    e != {} && e != DELETED
  }

  function GetHashPtrBits(l: Layout, h: Word): Word {
    (Xor(h, ShiftRight(h, l.bits)) * l.mask) - l.perfect
  }

  /** Which bits the folded hash has: those of the mask where the hash and its shift differ, but not the perfect bit. */
  lemma HashBitsAre(l: Layout, h: Word, i: nat)
    ensures i in GetHashPtrBits(l, h) <==> i in l.mask && i !in l.perfect && (i in h <==> i + l.bits !in h)
  {
    hide ShiftRight;
    InShifted(h, l.bits, i);
  }

  /** The metadata an entry of hash `h` carries, at home or elsewhere. */
  function Extra(l: Layout, h: Word, atHome: bool): Word {
    GetHashPtrBits(l, h) + if atHome then l.perfect else {}
  }

  /**
   Pointer, metadata and flag all read back from a written word, and the word is neither 0
   nor the deleted marker.
   */
  lemma EncodeReadsBack(l: Layout, p: Word, h: Word, atHome: bool)
    requires LayoutOk(l) && Fits(l, p)
    ensures var w := MakeHval(l, p, Extra(l, h, atHome));
      && EntryIsValid(w)
      && GetRawPtr(l, w) == p
      && GetExtraPtrBits(l, w) == Extra(l, h, atHome)
      && w * l.perfect == (if atHome then l.perfect else {})
  {
    hide Xor, ShiftRight;
    var i :| i in p && i !in l.mask && i > 0;
    assert i in MakeHval(l, p, Extra(l, h, atHome));
  }

  /** A bit above bit 0, which neither 0 nor the deleted marker has. */
  predicate Above(x: Word) {
    exists i :: i in x && i > 0
  }

  /** Exactly when a written word is neither 0 nor the deleted marker, for any pointer and metadata. */
  lemma LiveWord(l: Layout, p: Word, x: Word)
    ensures EntryIsValid(MakeHval(l, p, x)) <==> Shows(l.mask, p) || Above(x)
  {
    var w := MakeHval(l, p, x);
    if Shows(l.mask, p) {
      var i :| i in p && i !in l.mask && i > 0;
      assert i in w;
    } else if Above(x) {
      var i :| i in x && i > 0;
      assert i in w;
    } else {
      assert forall i :: i in w ==> i == 0;
      assert w == if 0 in w then DELETED else {};
    }
  }

  /** Pointer and metadata read back from any written word, mark or not, if the pointer agrees with the common bits. */
  lemma AgreeingReadsBack(l: Layout, p: Word, x: Word)
    requires LayoutOk(l) && p * l.mask == l.common && x <= l.mask
    ensures GetRawPtr(l, MakeHval(l, p, x)) == p && GetExtraPtrBits(l, MakeHval(l, p, x)) == x
  {
  }

  lemma HashBitsAvoidPerfect(l: Layout, h: Word)
    ensures GetHashPtrBits(l, h) - l.perfect == GetHashPtrBits(l, h)
    ensures Extra(l, h, true) - l.perfect == GetHashPtrBits(l, h) == Extra(l, h, false)
  {
    hide Xor, ShiftRight;
  }

  /** Equal metadata means equal folded hashes and, while there is a perfect bit, equal flags. */
  lemma ExtraSplits(l: Layout, h: Word, g: Word, a: bool, b: bool)
    ensures Extra(l, h, a) == Extra(l, g, b) <==>
      GetHashPtrBits(l, h) == GetHashPtrBits(l, g) && (l.perfect == {} || a == b)
  {
    hide Xor, ShiftRight;
    var x, y := GetHashPtrBits(l, h), GetHashPtrBits(l, g);
    assert x == Extra(l, h, a) - l.perfect;
    assert y == Extra(l, g, b) - l.perfect;
    assert Extra(l, h, a) * l.perfect == if a then l.perfect else {};
    assert Extra(l, g, b) * l.perfect == if b then l.perfect else {};
  }

  /** The layout once the bits in which `p` differs from the common ones are given back. */
  function Narrowed(l: Layout, p: Word): Layout {
    var diff := Xor(l.common, p * l.mask);
    Layout(l.bits, l.mask - diff, l.common - diff, l.perfect - diff)
  }

  /** Rewriting one slot: clear the bits no longer masked, then set them as they are in every stored pointer. */
  function Reencoded(l: Layout, p: Word, e: Word): Word {
    var diff := Xor(l.common, p * l.mask);
    (e - diff) + (l.common * diff)
  }

  /** The highest one bit of `p` at or below `i`, or 0. */
  function TopBit(p: Word, i: nat): (t: nat)
    ensures t <= i && (t > 0 ==> t in p)
    ensures forall j :: t < j <= i ==> j !in p
  {
    if i == 0 || i in p then i else TopBit(p, i - 1)
  }

  /** The common mask of a table of `elems` pointers once `p` has been let in. */
  function MaskAfter(mask: Word, common: Word, elems: nat, p: Word): Word {
    if p * mask == common then mask
    else if elems == 0 then ALL_ONES - {TopBit(p, WIDTH - 1)}
    else mask - Xor(common, p * mask)
  }

  /**
   In a table with entries, whose pointers all have the common bits, the mask keeps the bits in which the new
   pointer has them too.
   */
  lemma MaskKeeps(mask: Word, common: Word, elems: nat, p: Word, i: nat)
    requires common <= mask && elems > 0
    ensures i in MaskAfter(mask, common, elems, p) <==> i in mask && (i in p <==> i in common)
  {
  }

  lemma AlreadyFits(l: Layout, elems: nat, p: Word)
    requires p * l.mask == l.common
    ensures MaskAfter(l.mask, l.common, elems, p) == l.mask
    ensures Shows(l.mask, p) ==> Fits(l, p)
  {
  }

  /** Neither NULL nor the pointer 1: the source takes both for impossible. */
  predicate IsPointer(p: Word) {
    p <= ALL_ONES && TopBit(p, WIDTH - 1) > 0
  }

  /** The layout built around the first pointer: all its bits are common, except its top bit. */
  lemma FreshLayoutOk(bits: nat, p: Word)
    requires p <= ALL_ONES
    ensures var t := TopBit(p, WIDTH - 1); var mask := ALL_ONES - {t};
      && (t > 0 ==> LayoutOk(Layout(bits, mask, p * mask, {0})))
      && (Shows(mask, p) <==> t > 0)
  {
    var t := TopBit(p, WIDTH - 1);
    assert 0 in ALL_ONES;
    if t > 0 { assert t in p && t !in ALL_ONES - {t}; }
  }

  /** The lowest one bit of `mask` at or above `i`, as a word; 0 if there is none. */
  function LowestBit(mask: Word, i: nat): (b: Word)
    ensures b <= mask
    decreases WIDTH - i
  {
    if i >= WIDTH then {} else if i in mask then {i} else LowestBit(mask, i + 1)
  }

  /** A lost perfect bit is replaced by the lowest bit of the mask. */
  function Recovered(perfect: Word, mask: Word): Word {
    if perfect == {} then LowestBit(mask, 0) else perfect
  }

  lemma {:induction false} LowestBitFound(mask: Word, i: nat)
    requires forall j :: j in mask ==> i <= j < WIDTH
    ensures mask != {} <==> LowestBit(mask, i) != {}
    ensures forall x, y :: x in LowestBit(mask, i) && y in LowestBit(mask, i) ==> x == y
    ensures forall x, y :: x in LowestBit(mask, i) && y in mask ==> x <= y
    decreases WIDTH - i
  {
    if i < WIDTH && i !in mask { LowestBitFound(mask, i + 1); }
    if i >= WIDTH { assert forall j :: j !in mask; }
  }

  /** The recovered bit is a lone bit of the mask, and is missing only if the mask is empty. */
  lemma RecoveredOk(l: Layout, bits: nat)
    requires LayoutOk(l)
    ensures LayoutOk(Layout(bits, l.mask, l.common, Recovered(l.perfect, l.mask)))
    ensures l.mask != {} ==> Recovered(l.perfect, l.mask) != {}
  {
    LowestBitFound(l.mask, 0);
  }

  lemma NarrowedOk(l: Layout, p: Word)
    requires LayoutOk(l)
    ensures LayoutOk(Narrowed(l, p))
    ensures p * Narrowed(l, p).mask == Narrowed(l, p).common
    ensures Narrowed(l, p).perfect == l.perfect || Narrowed(l, p).perfect == {}
  {
  }

  /** Re-encoding an entry of `q` gives exactly the word the narrowed layout would have written for it. */
  lemma ReencodeEntry(l: Layout, p: Word, q: Word, h: Word, atHome: bool)
    requires LayoutOk(l) && Fits(l, q)
    ensures Fits(Narrowed(l, p), q)
    ensures Reencoded(l, p, MakeHval(l, q, Extra(l, h, atHome)))
         == MakeHval(Narrowed(l, p), q, Extra(Narrowed(l, p), h, atHome))
  {
    hide ShiftRight;
    var x := Xor(h, ShiftRight(h, l.bits));
    var diff := Xor(l.common, p * l.mask);
    ReencodeBits(l.mask, l.common, l.perfect, diff, q, x, if atHome then l.perfect else {});
  }

  lemma ReencodeBits(mask: Word, common: Word, perfect: Word, diff: Word, q: Word, x: Word, flag: Word)
    requires common <= mask && perfect <= mask && diff <= mask && q * mask == common
    requires flag <= perfect
    ensures (((q - mask) + (x * mask - perfect + flag)) - diff) + (common * diff)
         == (q - (mask - diff)) + ((x * (mask - diff)) - (perfect - diff) + (flag - diff))
    ensures q * (mask - diff) == common - diff
  {
  }

  // ---- Which pointers a table can hold ----

  /**
   A pointer that agrees with the common bits is encoded as a live word under every hash exactly
   when it shows a bit above bit 0 outside the mask.
   */
  lemma LiveUnderEveryHash(l: Layout, p: Word)
    requires LayoutOk(l) && p * l.mask == l.common
    ensures (forall h, atHome :: EntryIsValid(MakeHval(l, p, Extra(l, h, atHome)))) <==> Shows(l.mask, p)
  {
    hide Xor, ShiftRight;
    if Shows(l.mask, p) {
      forall h, atHome
        ensures EntryIsValid(MakeHval(l, p, Extra(l, h, atHome)))
      {
        EncodeReadsBack(l, p, h, atHome);
      }
    } else {
      ZeroHash(l);
      assert MakeHval(l, p, Extra(l, {}, false)) == p - l.mask;
      assert forall i :: i in p - l.mask ==> i == 0;
      if 0 in p - l.mask {
        assert p - l.mask == DELETED;
      } else {
        assert p - l.mask == {};
      }
    }
  }

  lemma ZeroHash(l: Layout)
    ensures GetHashPtrBits(l, {}) == {} && Extra(l, {}, false) == {}
  {
    assert ShiftRight({}, l.bits) == {};
  }

  /**
   Not every pair of non-null pointers can be held: after pointer 6, pointer 2 with hash 0 is stored as the
   deleted marker.
   */
  lemma TwoAfterSix()
    ensures var six, two: Word := {1, 2}, {1};
      var l := Layout(2, MaskAfter(ALL_ONES, {}, 0, six), six * MaskAfter(ALL_ONES, {}, 0, six), {0});
      && LayoutOk(l) && Fits(l, six)
      && MaskAfter(l.mask, l.common, 1, two) == l.mask
      && MakeHval(l, two, Extra(l, {}, true)) == DELETED
  {
    var six, two: Word := {1, 2}, {1};
    assert TopBit(six, WIDTH - 1) == 2;
    var mask := ALL_ONES - {2};
    assert six * ALL_ONES == six;
    assert six * mask == {1} && two * mask == {1};
    var l := Layout(2, mask, {1}, {0});
    assert 2 in six && 2 !in mask;
    ZeroHash(l);
    assert GetHashPtrBits(l, {}) == {};
    assert two - mask == {};
  }

  /** Under hash 32 the same pointer 2 is stored as a live word, at home or not, although it shows no bit. */
  lemma TwoAfterSixLive(atHome: bool)
    ensures var two: Word, l := {1}, Layout(2, ALL_ONES - {2}, {1}, {0});
      var w := MakeHval(l, two, Extra(l, {5}, atHome));
      && !Shows(l.mask, two) && EntryIsValid(w)
      && GetRawPtr(l, w) == two && GetExtraPtrBits(l, w) == Extra(l, {5}, atHome)
  {
    var two: Word, l := {1}, Layout(2, ALL_ONES - {2}, {1}, {0});
    assert 5 in Xor({5}, ShiftRight({5}, 2)) by { assert 5 !in ShiftRight({5}, 2); }
    assert 5 in Extra(l, {5}, atHome);
    assert two * l.mask == l.common;
    LiveWord(l, two, Extra(l, {5}, atHome));
    AgreeingReadsBack(l, two, Extra(l, {5}, atHome));
  }

  // ---- A hash that leaves no trace but one bit ----

  /** `j`, `j - b`, `j - 2 b` and so on. */
  function Ladder(j: nat, b: nat): (h: Word)
    requires b > 0
    ensures j in h && forall i :: i in h ==> i <= j
  {
    if j < b then {j} else Ladder(j - b, b) + {j}
  }

  /** Folding it leaves the top rung only, and its lowest rung picks a bucket other than 0. */
  lemma {:induction false} LadderFolds(j: nat, b: nat)
    requires b > 0
    ensures ShiftRight(Ladder(j, b), b) == Ladder(j, b) - {j}
    ensures LowBits(Ladder(j, b), b) > 0
  {
    if j < b {
      BitInLow(Ladder(j, b), b, j);
      assert ShiftRight({j}, b) == {};
    } else {
      LadderFolds(j - b, b);
      var h, rest := Ladder(j, b), Ladder(j - b, b);
      forall i: nat
        ensures i in ShiftRight(h, b) <==> i in h - {j}
      {
        InShifted(h, b, i);
        InShifted(rest, b, i);
        assert i in ShiftRight(rest, b) <==> i in rest - {j - b};
      }
      var k := LowestRung(rest, b);
      BitInLow(h, b, k);
    }
  }

  lemma InShifted(h: Word, b: nat, i: nat)
    ensures i in ShiftRight(h, b) <==> i + b in h
  {
    if i + b in h { assert ((i + b) - b) as nat == i; }
  }

  lemma {:induction false} LowestRung(h: Word, b: nat) returns (k: nat)
    requires LowBits(h, b) > 0
    ensures k < b && k in h
  {
    if b - 1 in h { k := b - 1; } else { k := LowestRung(h, b - 1); }
  }

  lemma {:induction false} BitInLow(h: Word, b: nat, k: nat)
    requires k < b && k in h
    ensures LowBits(h, b) > 0
  {
    if k < b - 1 { BitInLow(h, b - 1, k); }
  }

  /**
   All the pointers of one heap have the same highest bit `t`, and the table either is new or already shows
   that bit.
   */
  predicate ShowsTop(mask: Word, common: Word, elems: nat, t: nat) {
    t !in mask || (mask == ALL_ONES && common == {} && elems == 0)
  }

  /** Then each of them can be added, and afterwards the table still shows that bit. */
  lemma SharedTopBit(mask: Word, common: Word, elems: nat, p: Word, t: nat)
    requires ShowsTop(mask, common, elems, t) && p <= ALL_ONES && t > 0 && TopBit(p, WIDTH - 1) == t
    ensures var m := MaskAfter(mask, common, elems, p); Shows(m, p) && t !in m
  {
    hide Xor;
    assert t in p;
    if mask == ALL_ONES && common == {} {
      assert t in p * mask;
    }
  }
}
