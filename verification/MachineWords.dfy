/**
 The operations of the hash as a machine with 32-bit words computes them.
 */
module MachineWords {
  import opened Numbers
  import opened Lookup3

  // ---- Exclusive or ----

  /** Byte `i` of a word, from the low end. */
  function At(w: bv32, i: nat): bv8
    requires i < 4
  {
    if i == 0 then (w & 0xff) as bv8
    else if i == 1 then ((w >> 8) & 0xff) as bv8
    else if i == 2 then ((w >> 16) & 0xff) as bv8
    else (w >> 24) as bv8
  }

  function Num(x: bv8): (n: nat)
    ensures n < 256
  {
    x as int
  }

  /** The number of a word. */
  function Val(w: bv32): Uint32 {
    FromBytes(Num(At(w, 3)), Num(At(w, 2)), Num(At(w, 1)), Num(At(w, 0)))
  }

  function FromBytes(d: nat, c: nat, b: nat, a: nat): Uint32
    requires a < 256 && b < 256 && c < 256 && d < 256
  {
    16777216 * d + 65536 * c + 256 * b + a
  }

  function Down(x: bv8): bv8 { x >> 1 }

  function Exor(x: bv8, y: bv8): bv8 { x ^ y }

  lemma Half(x: bv8)
    ensures Num(Down(x)) == Num(x) / 2 && Num(x & 1) == Num(x) % 2
  {
  }

  lemma ExorHalf(x: bv8, y: bv8)
    ensures Down(Exor(x, y)) == Exor(Down(x), Down(y))
    ensures Num(Exor(x, y) & 1) == if Num(x & 1) == Num(y & 1) then 0 else 1
  {
  }

  lemma NoBits(x: bv8)
    ensures Num(x) == 0 ==> x == 0
    ensures Num(Exor(0, 0)) == 0
  {
  }

  lemma {:induction false} XorOfBytes(x: bv8, y: bv8, n: nat)
    requires Num(x) < Pow2(n) && Num(y) < Pow2(n)
    ensures XorBits(Num(x), Num(y), n) == Num(Exor(x, y))
    decreases n
  {
    hide Num, Down, Exor, Pow2, XorBits;
    if n > 0 {
      Doubled(n, 0);
      XorStep(Num(x), Num(y), n);
      Half(x);
      Half(y);
      Half(Exor(x, y));
      ExorHalf(x, y);
      XorOfBytes(Down(x), Down(y), n - 1);
    } else {
      Doubled(n, 0);
      NothingLow(Num(x), Num(y));
      NoBits(x);
      NoBits(y);
    }
  }

  lemma ExorAt(x: bv32, y: bv32, i: nat)
    requires i < 4
    ensures At(x ^ y, i) == Exor(At(x, i), At(y, i))
  {
    if i == 0 {
    } else if i == 1 {
    } else if i == 2 {
    } else {
    }
  }

  lemma XorStep(x: nat, y: nat, n: nat)
    requires n > 0
    ensures XorBits(x, y, n) == (if x % 2 == y % 2 then 0 else 1) + 2 * XorBits(x / 2, y / 2, n - 1)
  {
  }

  /** The low `m` bits and the others can be taken apart. */
  lemma {:induction false} XorSplit(x1: nat, x0: nat, y1: nat, y0: nat, m: nat, n: nat)
    requires x0 < Pow2(m) && y0 < Pow2(m)
    ensures Prod(Pow2(m), x1) >= 0 && Prod(Pow2(m), y1) >= 0
    ensures XorBits(Prod(Pow2(m), x1) + x0, Prod(Pow2(m), y1) + y0, m + n) ==
      XorBits(x0, y0, m) + Prod(Pow2(m), XorBits(x1, y1, n))
    decreases m
  {
    hide XorBits, Prod, Pow2;
    Doubled(m, x1);
    Doubled(m, y1);
    Doubled(m, XorBits(x1, y1, n));
    if m > 0 {
      var x, y := Prod(Pow2(m), x1) + x0, Prod(Pow2(m), y1) + y0;
      XorSplit(x1, x0 / 2, y1, y0 / 2, m - 1, n);
      Halved(Prod(Pow2(m - 1), x1), x0);
      Halved(Prod(Pow2(m - 1), y1), y0);
      XorStep(x, y, m + n);
      XorStep(x0, y0, m);
    } else {
      NothingLow(x0, y0);
    }
  }

  lemma Doubled(m: nat, x: nat)
    ensures m > 0 ==> Pow2(m) == 2 * Pow2(m - 1) && Prod(Pow2(m), x) == 2 * Prod(Pow2(m - 1), x)
    ensures m == 0 ==> Pow2(m) == 1 && Prod(Pow2(m), x) == x
    ensures Prod(Pow2(m), x) >= 0
  {
  }

  lemma Halved(a: nat, x: nat)
    ensures (2 * a + x) / 2 == a + x / 2 && (2 * a + x) % 2 == x % 2
  {
  }

  lemma NothingLow(x: nat, y: nat)
    ensures XorBits(x, y, 0) == 0
  {
  }

  /** `^` on words. */
  lemma XorIsMachine(x: bv32, y: bv32)
    ensures Xor(Val(x), Val(y)) == Val(x ^ y)
  {
    hide XorBits, Num, At, Pow2, Exor, FromBytes;
    Powers();
    EightBits();
    ExorAt(x, y, 0);
    ExorAt(x, y, 1);
    ExorAt(x, y, 2);
    ExorAt(x, y, 3);
    XorOfBytes(At(x, 0), At(y, 0), 8);
    XorOfBytes(At(x, 1), At(y, 1), 8);
    XorOfBytes(At(x, 2), At(y, 2), 8);
    XorOfBytes(At(x, 3), At(y, 3), 8);
    ByteByByte(Num(At(x, 3)), Num(At(x, 2)), Num(At(x, 1)), Num(At(x, 0)), Num(At(y, 3)), Num(At(y, 2)),
      Num(At(y, 1)), Num(At(y, 0)));
  }

  lemma ByteByByte(d: nat, c: nat, b: nat, a: nat, h: nat, g: nat, f: nat, e: nat)
    requires a < 256 && b < 256 && c < 256 && d < 256 && e < 256 && f < 256 && g < 256 && h < 256
    requires XorBits(a, e, 8) < 256 && XorBits(b, f, 8) < 256 && XorBits(c, g, 8) < 256 && XorBits(d, h, 8) < 256
    ensures XorBits(FromBytes(d, c, b, a), FromBytes(h, g, f, e), 32) ==
      FromBytes(XorBits(d, h, 8), XorBits(c, g, 8), XorBits(b, f, 8), XorBits(a, e, 8))
  {
    hide XorBits, FromBytes;
    var x2, y2 := 256 * d + c, 256 * h + g;
    var x3, y3 := 256 * x2 + b, 256 * y2 + f;
    Nested(d, c, b, a);
    Nested(h, g, f, e);
    Nested(XorBits(d, h, 8), XorBits(c, g, 8), XorBits(b, f, 8), XorBits(a, e, 8));
    ByteOff(FromBytes(d, c, b, a), x3, a, FromBytes(h, g, f, e), y3, e, 32);
    ByteOff(x3, x2, b, y3, y2, f, 24);
    ByteOff(x2, d, c, y2, h, g, 16);
  }

  lemma Nested(d: nat, c: nat, b: nat, a: nat)
    requires a < 256 && b < 256 && c < 256 && d < 256
    ensures FromBytes(d, c, b, a) == 256 * (256 * (256 * d + c) + b) + a
  {
  }

  lemma EightBits()
    ensures Pow2(8) == 256
  {
  }

  lemma ByteOff(x: nat, x1: nat, x0: nat, y: nat, y1: nat, y0: nat, n: nat)
    requires x0 < 256 && y0 < 256 && x == 256 * x1 + x0 && y == 256 * y1 + y0 && n >= 8
    ensures XorBits(x, y, n) == XorBits(x0, y0, 8) + 256 * XorBits(x1, y1, n - 8)
  {
    hide XorBits, Pow2;
    EightBits();
    XorSplit(x1, x0, y1, y0, 8, n - 8);
  }

  // ---- Bit by bit ----

  predicate Bit(x: nat, i: nat) {
    x / Pow2(i) % 2 == 1
  }

  lemma BitStep(x: nat, i: nat)
    requires i > 0
    ensures Bit(x, i) <==> Bit(x / 2, i - 1)
  {
    hide Prod, Quot, Rem;
    var p := Pow2(i - 1);
    assert Quot(x, 2 * p) == Quot(Quot(x, 2), p) by {
      Division(x, 2);
      Division(Quot(x, 2), p);
      Twice(p, Quot(Quot(x, 2), p));
      DivisionUnique(x, 2 * p, Quot(Quot(x, 2), p), 2 * Rem(Quot(x, 2), p) + Rem(x, 2));
    }
    QuotIs(x, 2 * p);
    QuotIs(x, 2);
    QuotIs(x / 2, p);
  }

  lemma QuotIs(x: int, p: int)
    requires p != 0
    ensures Quot(x, p) == x / p
  {
  }

  lemma Twice(p: int, q: int)
    ensures Prod(2 * p, q) == 2 * Prod(p, q) && Prod(2, q) == 2 * q
    ensures forall a: int :: Prod(2, a) == 2 * a
  {
  }

  /** Bit `i` of the exclusive or is set exactly when the bits `i` differ. */
  lemma {:induction false} XorBit(x: nat, y: nat, n: nat, i: nat)
    requires i < n
    ensures Bit(XorBits(x, y, n), i) <==> Bit(x, i) != Bit(y, i)
    decreases n
  {
    hide XorBits, Bit;
    var r := XorBits(x / 2, y / 2, n - 1);
    XorStep(x, y, n);
    if i > 0 {
      BitStep(XorBits(x, y, n), i);
      BitStep(x, i);
      BitStep(y, i);
      XorBit(x / 2, y / 2, n - 1, i - 1);
    } else {
      BitZero(XorBits(x, y, n));
      BitZero(x);
      BitZero(y);
    }
  }

  lemma BitZero(x: nat)
    ensures Bit(x, 0) <==> x % 2 == 1
  {
  }

  lemma XorDiffers(x: Uint32, y: Uint32, i: nat)
    requires i < 32
    ensures Bit(Xor(x, y), i) <==> Bit(x, i) != Bit(y, i)
  {
    hide XorBits, Bit;
    XorBit(x, y, 32, i);
  }
}
