/**
 Bob Jenkins's lookup3 hash (`hash.c`): its mixing is reversible, so a state after any number of blocks
 of a key tells the state before them.
 */
module Lookup3 {
  import opened Numbers

  const TWO32: int := 4294967296

  /** `uint32_t`. */
  type Uint32 = x: int | 0 <= x < 4294967296

  /** The three words of internal state. */
  datatype State = State(a: Uint32, b: Uint32, c: Uint32)

  // ---- Operations on words, and what undoes them ----

  function Add(x: Uint32, y: Uint32): Uint32 { (x + y) % TWO32 }

  function Sub(x: Uint32, y: Uint32): Uint32 { (x - y) % TWO32 }

  /** Exclusive or of the lowest `n` bits. */
  function XorBits(x: nat, y: nat, n: nat): (r: nat)
    ensures r < Pow2(n)
  {
    if n == 0 then 0 else (if x % 2 == y % 2 then 0 else 1) + 2 * XorBits(x / 2, y / 2, n - 1)
  }

  lemma Powers()
    ensures Pow2(32) == TWO32
  {
    assert Pow2(8) == 256;
    assert Pow2(16) == 65536;
    assert Pow2(24) == 16777216;
  }

  function Xor(x: Uint32, y: Uint32): Uint32 {
    Powers();
    XorBits(x, y, 32)
  }

  /** `(x << k) | (x >> (32 - k))`, whose two parts share no bit. */
  function Rot(x: Uint32, k: nat): Uint32
    requires 0 < k < 32
  {
    Powers();
    (x * Pow2(k) + x / Pow2(32 - k)) % TWO32
  }

  lemma QuotientBelow(x: int, m: int, n: int)
    requires m > 0 && n > 0 && 0 <= x < n * m
    ensures 0 <= x / n < m && x == n * (x / n) + x % n
  {
    var q := x / n;
    assert q >= m ==> n * q >= n * m;
    assert q < 0 ==> n * q <= -n;
  }

  lemma Swapped(q: int, r: int, m: int, n: int)
    requires 0 <= q < m && 0 <= r < n
    ensures ((n * q + r) * m + q) % (n * m) == r * m + q
    ensures (r * m + q) / m == r && (r * m + q) % m == q
  {
    var w := n * m;
    assert r * m <= (n - 1) * m == w - m;
    assert r * m >= 0;
    assert (n * q + r) * m == n * q * m + r * m;
    assert n * q * m == w * q;
    ModUnique((n * q + r) * m + q, w, q, r * m + q);
    ModUnique(r * m + q, m, r, q);
  }

  /** A rotation: the low bits move up by `k`, the top `k` bits come down. */
  lemma RotParts(x: Uint32, k: nat)
    requires 0 < k < 32
    ensures x / Pow2(32 - k) < Pow2(k)
    ensures Rot(x, k) == x % Pow2(32 - k) * Pow2(k) + x / Pow2(32 - k)
  {
    hide Pow2;
    Powers();
    Pow2Sum(32 - k, k);
    QuotientBelow(x, Pow2(k), Pow2(32 - k));
    Swapped(x / Pow2(32 - k), x % Pow2(32 - k), Pow2(k), Pow2(32 - k));
  }

  /** Rotating by the rest of the word's length undoes it. */
  lemma RotBack(x: Uint32, k: nat)
    requires 0 < k < 32
    ensures Rot(Rot(x, k), 32 - k) == x
  {
    hide Rot, Pow2;
    Powers();
    Pow2Sum(32 - k, k);
    RotParts(x, k);
    RotParts(Rot(x, k), 32 - k);
    QuotientBelow(x, Pow2(k), Pow2(32 - k));
    Swapped(x / Pow2(32 - k), x % Pow2(32 - k), Pow2(k), Pow2(32 - k));
  }

  lemma UndoAdd(x: Uint32, y: Uint32)
    ensures Sub(Add(x, y), y) == x && Add(Sub(x, y), y) == x
  {
  }

  lemma {:induction false} XorTwice(x: nat, y: nat, n: nat)
    requires x < Pow2(n)
    ensures XorBits(XorBits(x, y, n), y, n) == x
  {
    if n > 0 {
      var r := XorBits(x / 2, y / 2, n - 1);
      var bit := if x % 2 == y % 2 then 0 else 1;
      assert XorBits(x, y, n) == bit + 2 * r && (bit + 2 * r) / 2 == r && (bit + 2 * r) % 2 == bit;
      XorTwice(x / 2, y / 2, n - 1);
    }
  }

  lemma UndoXor(x: Uint32, y: Uint32)
    ensures Xor(Xor(x, y), y) == x
  {
    hide XorBits;
    Powers();
    XorTwice(x, y, 32);
  }

  lemma Undo(x: Uint32, y: Uint32)
    ensures Sub(Add(x, y), y) == x && Add(Sub(x, y), y) == x && Xor(Xor(x, y), y) == x
  {
    hide Add, Sub, Xor;
    UndoAdd(x, y);
    UndoXor(x, y);
  }

  // ---- mix ----

  /** `x -= z; x ^= rot(z,k); z += y;` with the other word `y`, as a step on the three. */
  datatype Triple = Triple(x: Uint32, y: Uint32, z: Uint32)

  function Stir(t: Triple, k: nat): Triple
    requires 0 < k < 32
  {
    Triple(Xor(Sub(t.x, t.z), Rot(t.z, k)), t.y, Add(t.z, t.y))
  }

  function Unstir(t: Triple, k: nat): Triple
    requires 0 < k < 32
  {
    var z := Sub(t.z, t.y);
    Triple(Add(Xor(t.x, Rot(z, k)), z), t.y, z)
  }

  lemma StirBack(t: Triple, k: nat)
    requires 0 < k < 32
    ensures Unstir(Stir(t, k), k) == t && Stir(Unstir(t, k), k) == t
  {
    hide Add, Sub, Xor, Rot;
    var z := Sub(t.z, t.y);
    Undo(t.z, t.y);
    Undo(Sub(t.x, t.z), Rot(t.z, k));
    Undo(t.x, t.z);
    Undo(Xor(t.x, Rot(z, k)), z);
    Undo(t.x, Rot(z, k));
  }

  /** The three roles in turn: `a` stirred by `c`, `b` by `a`, `c` by `b`. */
  function StirA(s: State, k: nat): State
    requires 0 < k < 32
  {
    var t := Stir(Triple(s.a, s.b, s.c), k);
    State(t.x, t.y, t.z)
  }

  function StirB(s: State, k: nat): State
    requires 0 < k < 32
  {
    var t := Stir(Triple(s.b, s.c, s.a), k);
    State(t.z, t.x, t.y)
  }

  function StirC(s: State, k: nat): State
    requires 0 < k < 32
  {
    var t := Stir(Triple(s.c, s.a, s.b), k);
    State(t.y, t.z, t.x)
  }

  function UnstirA(s: State, k: nat): State
    requires 0 < k < 32
  {
    var t := Unstir(Triple(s.a, s.b, s.c), k);
    State(t.x, t.y, t.z)
  }

  function UnstirB(s: State, k: nat): State
    requires 0 < k < 32
  {
    var t := Unstir(Triple(s.b, s.c, s.a), k);
    State(t.z, t.x, t.y)
  }

  function UnstirC(s: State, k: nat): State
    requires 0 < k < 32
  {
    var t := Unstir(Triple(s.c, s.a, s.b), k);
    State(t.y, t.z, t.x)
  }

  function Mix(s: State): State {
    StirC(StirB(StirA(StirC(StirB(StirA(s, 4), 6), 8), 16), 19), 4)
  }

  function Unmix(s: State): State {
    UnstirA(UnstirB(UnstirC(UnstirA(UnstirB(UnstirC(s, 4), 19), 16), 8), 6), 4)
  }

  lemma RolesBack(s: State, k: nat)
    requires 0 < k < 32
    ensures UnstirA(StirA(s, k), k) == s && StirA(UnstirA(s, k), k) == s
    ensures UnstirB(StirB(s, k), k) == s && StirB(UnstirB(s, k), k) == s
    ensures UnstirC(StirC(s, k), k) == s && StirC(UnstirC(s, k), k) == s
  {
    hide Stir, Unstir;
    StirBack(Triple(s.a, s.b, s.c), k);
    StirBack(Triple(s.b, s.c, s.a), k);
    StirBack(Triple(s.c, s.a, s.b), k);
  }

  /** `mix` is a bijection on states, and `Unmix` is its inverse. */
  lemma MixBack(s: State)
    ensures Unmix(Mix(s)) == s && Mix(Unmix(s)) == s
  {
    hide StirA, StirB, StirC, UnstirA, UnstirB, UnstirC;
    var s1 := StirA(s, 4);
    var s2 := StirB(s1, 6);
    var s3 := StirC(s2, 8);
    var s4 := StirA(s3, 16);
    var s5 := StirB(s4, 19);
    RolesBack(s, 4);
    RolesBack(s1, 6);
    RolesBack(s2, 8);
    RolesBack(s3, 16);
    RolesBack(s4, 19);
    RolesBack(s5, 4);
    var r1 := UnstirC(s, 4);
    var r2 := UnstirB(r1, 19);
    var r3 := UnstirA(r2, 16);
    var r4 := UnstirC(r3, 8);
    var r5 := UnstirB(r4, 6);
    RolesBack(r1, 19);
    RolesBack(r2, 16);
    RolesBack(r3, 8);
    RolesBack(r4, 6);
    RolesBack(r5, 4);
  }

  // ---- final ----

  /** `x ^= y; x -= rot(y,k);` and its way back. */
  function Fold(x: Uint32, y: Uint32, k: nat): Uint32
    requires 0 < k < 32
  {
    Sub(Xor(x, y), Rot(y, k))
  }

  function Unfold(x: Uint32, y: Uint32, k: nat): Uint32
    requires 0 < k < 32
  {
    Xor(Add(x, Rot(y, k)), y)
  }

  lemma FoldBack(x: Uint32, y: Uint32, k: nat)
    requires 0 < k < 32
    ensures Unfold(Fold(x, y, k), y, k) == x && Fold(Unfold(x, y, k), y, k) == x
  {
    hide Add, Sub, Xor, Rot;
    Undo(Xor(x, y), Rot(y, k));
    Undo(x, y);
    Undo(Add(x, Rot(y, k)), y);
    Undo(x, Rot(y, k));
  }

  function Final(s: State): State {
    var c1 := Fold(s.c, s.b, 14);
    var a1 := Fold(s.a, c1, 11);
    var b1 := Fold(s.b, a1, 25);
    var c2 := Fold(c1, b1, 16);
    var a2 := Fold(a1, c2, 4);
    var b2 := Fold(b1, a2, 14);
    State(a2, b2, Fold(c2, b2, 24))
  }

  function Unfinal(s: State): State {
    var c2 := Unfold(s.c, s.b, 24);
    var b1 := Unfold(s.b, s.a, 14);
    var a1 := Unfold(s.a, c2, 4);
    var c1 := Unfold(c2, b1, 16);
    var b := Unfold(b1, a1, 25);
    var a := Unfold(a1, c1, 11);
    State(a, b, Unfold(c1, b, 14))
  }

  /** `final` is a bijection too. */
  lemma FinalBack(s: State)
    ensures Unfinal(Final(s)) == s && Final(Unfinal(s)) == s
  {
    hide Fold, Unfold;
    var c1 := Fold(s.c, s.b, 14);
    var a1 := Fold(s.a, c1, 11);
    var b1 := Fold(s.b, a1, 25);
    var c2 := Fold(c1, b1, 16);
    var a2 := Fold(a1, c2, 4);
    var b2 := Fold(b1, a2, 14);
    FoldBack(s.c, s.b, 14);
    FoldBack(s.a, c1, 11);
    FoldBack(s.b, a1, 25);
    FoldBack(c1, b1, 16);
    FoldBack(a1, c2, 4);
    FoldBack(b1, a2, 14);
    FoldBack(c2, b2, 24);
    var d2 := Unfold(s.c, s.b, 24);
    var e1 := Unfold(s.b, s.a, 14);
    var f1 := Unfold(s.a, d2, 4);
    var d1 := Unfold(d2, e1, 16);
    var e := Unfold(e1, f1, 25);
    var f := Unfold(f1, d1, 11);
    FoldBack(s.c, s.b, 24);
    FoldBack(s.b, s.a, 14);
    FoldBack(s.a, d2, 4);
    FoldBack(d2, e1, 16);
    FoldBack(e1, f1, 25);
    FoldBack(f1, d1, 11);
    FoldBack(d1, e, 14);
  }

  // ---- Blocks ----

  /** `a += k[0]; b += k[1]; c += k[2];`, for words that are there. */
  function AddBlock(s: State, k0: Uint32, k1: Uint32, k2: Uint32): State {
    State(Add(s.a, k0), Add(s.b, k1), Add(s.c, k2))
  }

  function TakeBlock(s: State, k0: Uint32, k1: Uint32, k2: Uint32): State {
    State(Sub(s.a, k0), Sub(s.b, k1), Sub(s.c, k2))
  }

  lemma BlockBack(s: State, k0: Uint32, k1: Uint32, k2: Uint32)
    ensures TakeBlock(AddBlock(s, k0, k1, k2), k0, k1, k2) == s && AddBlock(TakeBlock(s, k0, k1, k2), k0, k1, k2) == s
  {
    hide Add, Sub;
    Undo(s.a, k0);
    Undo(s.b, k1);
    Undo(s.c, k2);
  }

  /** The state after `n` full blocks of the key. */
  function AfterBlocks(k: seq<Uint32>, s: State, n: nat): State
    requires 3 * n <= |k|
  {
    if n == 0 then s else Mix(AddBlock(AfterBlocks(k, s, n - 1), k[3 * n - 3], k[3 * n - 2], k[3 * n - 1]))
  }

  function BeforeBlocks(k: seq<Uint32>, s: State, n: nat): State
    requires 3 * n <= |k|
    decreases n
  {
    if n == 0 then s else BeforeBlocks(k, TakeBlock(Unmix(s), k[3 * n - 3], k[3 * n - 2], k[3 * n - 1]), n - 1)
  }

  /**
   For a fixed key the blocks lose nothing: the state before is a function of the state after, and every
   state occurs.
   */
  lemma {:induction false} BlocksBack(k: seq<Uint32>, s: State, n: nat)
    requires 3 * n <= |k|
    ensures BeforeBlocks(k, AfterBlocks(k, s, n), n) == s && AfterBlocks(k, BeforeBlocks(k, s, n), n) == s
    decreases n
  {
    hide Mix, Unmix, AddBlock, TakeBlock;
    if n > 0 {
      var last := AfterBlocks(k, s, n - 1);
      BlocksBack(k, s, n - 1);
      MixBack(AddBlock(last, k[3 * n - 3], k[3 * n - 2], k[3 * n - 1]));
      BlockBack(last, k[3 * n - 3], k[3 * n - 2], k[3 * n - 1]);
      BlocksBack(k, TakeBlock(Unmix(s), k[3 * n - 3], k[3 * n - 2], k[3 * n - 1]), n - 1);
      MixBack(s);
      BlockBack(Unmix(s), k[3 * n - 3], k[3 * n - 2], k[3 * n - 1]);
    }
  }
}
