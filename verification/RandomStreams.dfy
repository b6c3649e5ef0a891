/**
 The routines that draw from the generator. A `double` that holds a state of the generator is a real
 whose value is an integer below 2^46; `SplitFits` is why doubles lose nothing here.
 */
module RandomStreams {
  import opened Numbers
  import opened Lcg

  const R23: real := 1.0 / 8388608.0
  const R46: real := 1.0 / 70368744177664.0

  ghost predicate IsState(x: real) {
    x == x.Floor as real && IsSeed(x.Floor)
  }

  lemma ScaledFloor(n: int)
    ensures (R23 * (n as real)).Floor == n / T23
    ensures (R46 * (n as real)).Floor == n / T46
  {
    FloorOf(R23 * (n as real), n, T23);
    FloorOf(R46 * (n as real), n, T46);
  }

  lemma FloorOf(y: real, n: int, d: int)
    requires d > 0 && y * (d as real) == n as real
    ensures y.Floor == n / d
  {
    var q, r, f, e := n / d, n % d, y.Floor, y - (n / d) as real;
    assert n == d * q + r;
    assert (d * q) as real == (d as real) * (q as real);
    assert e * (d as real) == r as real;
    assert e < 0.0 ==> e * (d as real) < 0.0;
    assert e >= 1.0 ==> e * (d as real) >= d as real;
  }

  /** A product of two doubles. */
  function Times(x: real, y: real): real {
    x * y
  }

  lemma RealProduct(a: int, b: int)
    ensures Times(a as real, b as real) == (a * b) as real
  {
  }

  /** The steps of the split, as the source computes them one after another in doubles. */
  lemma SplitSteps(a: int, x: int)
    ensures var s := SplitProduct(a, x);
      && s.x1 == x / T23 && s.x2 == x - T23 * s.x1 && s.a1 == a / T23 && s.a2 == a - T23 * s.a1
      && Times(s.a1 as real, s.x2 as real) + Times(s.a2 as real, s.x1 as real) == s.t1 as real
      && s.t2 == s.t1 / T23 && s.z == s.t1 - T23 * s.t2
      && 8388608.0 * (s.z as real) + Times(s.a2 as real, s.x2 as real) == s.t3 as real
      && s.t4 == s.t3 / T46 && s.x == s.t3 - T46 * s.t4
  {
    hide Times;
    var s := SplitProduct(a, x);
    RealProduct(s.a1, s.x2);
    RealProduct(s.a2, s.x1);
    RealProduct(s.a2, s.x2);
  }

  /** `randlc`, in C and in Fortran: one step, with the value scaled to the unit interval. */
  method Randlc(x: real, a: real) returns (x': real, r: real)
    requires IsState(x) && IsState(a)
    ensures IsState(x') && x'.Floor == Next(a.Floor, x.Floor) && r == R46 * x'
  {
    ghost var s := SplitProduct(a.Floor, x.Floor);
    SplitFits(a.Floor, x.Floor);
    SplitIsNext(a.Floor, x.Floor);
    ScaledFloor(a.Floor);
    var t1 := R23 * a;
    var a1 := t1.Floor as real;
    var a2 := a - 8388608.0 * a1;
    assert a1 == s.a1 as real && a2 == s.a2 as real;
    x' := SplitStep(x, a1, a2, a.Floor);
    r := R46 * x';
  }

  /** The statements that the scalar and the batched forms share, once the multiplier is split. */
  method SplitStep(x: real, a1: real, a2: real, ghost a: int) returns (x': real)
    requires IsState(x) && IsSeed(a)
    requires a1 == (a / T23) as real && a2 == (a - T23 * (a / T23)) as real
    ensures IsState(x') && x'.Floor == Next(a, x.Floor)
  {
    hide SplitProduct, Times;
    ghost var s := SplitProduct(a, x.Floor);
    SplitSteps(a, x.Floor);
    SplitFits(a, x.Floor);
    SplitIsNext(a, x.Floor);
    ScaledFloor(x.Floor);
    var t1 := R23 * x;
    var x1 := t1.Floor as real;
    var x2 := x - 8388608.0 * x1;
    assert x2 == s.x2 as real;
    t1 := Times(a1, x2) + Times(a2, x1);
    ScaledFloor(s.t1);
    var t2 := (R23 * t1).Floor as real;
    var z := t1 - 8388608.0 * t2;
    assert z == s.z as real;
    var t3 := 8388608.0 * z + Times(a2, x2);
    ScaledFloor(s.t3);
    var t4 := (R46 * t3).Floor as real;
    x' := t3 - 70368744177664.0 * t4;
    assert x' == s.x as real;
  }

  /** `randlc` by the wrapping 64-bit product and the mask. */
  method RandlcMasked(x: real, a: real) returns (x': real, r: real)
    requires IsState(x) && IsState(a)
    ensures IsState(x') && x'.Floor == Next(a.Floor, x.Floor) && r == R46 * x'
  {
    var lx, la := x.Floor, a.Floor;
    MaskedIsNext(la, lx);
    lx := Field(Wrapped(la * lx), 1, T46);
    x' := lx as real;
    r := R46 * x';
  }

  /** `randlc` by 23-bit fields. */
  method RandlcFields(x: real, a: real) returns (x': real, r: real)
    requires IsState(x) && IsState(a)
    ensures IsState(x') && x'.Floor == Next(a.Floor, x.Floor) && r == R46 * x'
  {
    var lx, la := x.Floor, a.Floor;
    FieldIsNext(la, lx);
    lx := FieldProduct(la, lx);
    x' := lx as real;
    r := R46 * x';
  }

  // ---- Skip-ahead ----

  /** How often `n` can be halved before it is at most 1. */
  function Halvings(n: int): nat
    decreases if n > 1 then n else 0
  {
    if n <= 1 then 0 else 1 + Halvings(n / 2)
  }

  lemma {:induction false} HalvingsOfPower(k: nat)
    ensures Halvings(Pow2(k)) == k
  {
    if k > 0 { HalvingsOfPower(k - 1); }
  }

  /** They count the largest power of two that is not above the number. */
  lemma {:induction false} HalvingsBelow(n: int)
    requires n >= 1
    ensures Pow2(Halvings(n)) <= n < 2 * Pow2(Halvings(n))
  {
    if n > 1 { HalvingsBelow(n / 2); }
  }

  lemma Doubled(b: int, a: int, k: nat)
    requires Jumps(b, a, k)
    ensures Jumps(Next(b, b), a, 2 * k)
  {
    JumpTimes(b, b, a, k, k);
  }

  /** A stretch of `w` steps taken when the lowest bit of what remains is set. */
  lemma TakeBit(a: int, s: int, b: int, w: nat, t: int, taken: nat)
    requires IsSeed(s) && Jumps(b, a, w) && t == Iterate(a, s, taken)
    ensures IsSeed(t) && Next(b, t) == Iterate(a, s, taken + w)
  {
    if taken == 0 { assert t == s; }
    JumpIsSteps(b, a, w, t);
    IterateSum(a, s, taken, w);
  }

  lemma SplitRest(kk: nat, w: nat)
    ensures kk * w == kk % 2 * w + kk / 2 * (2 * w)
  {
    assert kk == 2 * (kk / 2) + kk % 2;
    assert kk / 2 * (2 * w) == 2 * (kk / 2) * w;
  }

  lemma {:induction false} Pow2Large(n: nat)
    ensures Pow2(n + 31) >= 2147483648
  {
    if n == 0 {
      assert Pow2(31) == 2147483648 by {
        assert Pow2(8) == 256;
        assert Pow2(16) == 65536;
        assert Pow2(24) == 16777216;
      }
    } else {
      Pow2Large(n - 1);
    }
  }

  /** The first loop of `find_my_seed`. */
  method CountHalvings(n: int) returns (mq: nat)
    requires n >= 0
    ensures mq == Halvings(n)
  {
    var nq := n;
    mq := 0;
    while nq > 1
      invariant nq >= 0 && mq + Halvings(nq) == Halvings(n)
    {
      mq, nq := mq + 1, nq / 2;
    }
  }

  /**
   `find_my_seed`: the state after `kn` times the largest power of two not above `nn/np` steps from `s`.
   The hundred rounds over the bits of `kn` are always enough.
   */
  method FindMySeed(kn: int, np: int, nn: int, s: real, a: real) returns (seed: real)
    requires 0 <= kn < 2147483648 && np > 0 && nn >= 0 && IsState(s) && IsState(a)
    ensures IsState(seed) && seed.Floor == Iterate(a.Floor, s.Floor, kn * Pow2(Halvings(nn / np)))
    ensures nn >= np ==> Pow2(Halvings(nn / np)) <= nn / np < 2 * Pow2(Halvings(nn / np))
  {
    hide Iterate, Next, Power, Jumps, Halvings;
    if nn >= np { ShareBounds(nn, np); }
    var mq := CountHalvings(nn / np);
    var t1, t2, t3 := a, a, a;
    JumpOne(a.Floor);
    for i := 0 to mq
      invariant IsState(t1) && Jumps(t1.Floor, a.Floor, Pow2(i))
    {
      Doubled(t1.Floor, a.Floor, Pow2(i));
      t1, t2 := Randlc(t1, t1);
    }
    var an := t1;
    var kk := kn;
    t1, t2 := s, an;
    ghost var w, taken, total := Pow2(mq), 0, kn * Pow2(mq);
    Pow2Large(69);
    ZeroSteps(a.Floor, s.Floor);
    for i := 1 to 101
      invariant IsState(t1) && IsState(t2) && w >= 0 && taken >= 0 && 0 <= kk < Pow2(101 - i)
      invariant Jumps(t2.Floor, a.Floor, w) && t1.Floor == Iterate(a.Floor, s.Floor, taken)
      invariant taken + kk * w == total
    {
      var ik := kk / 2;
      SplitRest(kk, w);
      if 2 * ik != kk {
        TakeBit(a.Floor, s.Floor, t2.Floor, w, t1.Floor, taken);
        t1, t3 := Randlc(t1, t2);
        taken := taken + w;
      }
      if ik == 0 { break; }
      Doubled(t2.Floor, a.Floor, w);
      t2, t3 := Randlc(t2, t2);
      w := 2 * w;
      kk := ik;
    }
    assert taken == total;
    return t1;
  }

  lemma ShareBounds(nn: int, np: int)
    requires np > 0 && nn >= np
    ensures Pow2(Halvings(nn / np)) <= nn / np < 2 * Pow2(Halvings(nn / np))
  {
    hide Pow2, Halvings;
    HalvingsBelow(nn / np);
  }

  lemma ZeroSteps(a: int, s: int)
    ensures Iterate(a, s, 0) == s
  {
  }

  // ---- Many numbers at once ----

  /** The first `n` values are those of the states 1 to `n` from `x`. */
  ghost predicate Drawn(y: seq<real>, a: int, x: int, n: nat) {
    n <= |y| && forall i :: 0 <= i < n ==> y[i] == R46 * (Iterate(a, x, i + 1) as real)
  }

  /** In units of 2^46 they are the states themselves. */
  lemma DrawnIsScaled(y: seq<real>, a: int, x: int, n: nat)
    requires Drawn(y, a, x, n)
    ensures forall i :: 0 <= i < n ==> y[i] * 70368744177664.0 == Iterate(a, x, i + 1) as real
  {
    hide Iterate;
  }

  /** `vranlc`, one at a time. */
  method Vranlc(n: nat, x: real, a: real, y: array<real>) returns (x': real)
    requires IsState(x) && IsState(a) && n <= y.Length
    modifies y
    ensures IsState(x') && x'.Floor == Iterate(a.Floor, x.Floor, n)
    ensures Drawn(y[..], a.Floor, x.Floor, n) && y[n..] == old(y[n..])
  {
    hide Next;
    x' := x;
    var a1 := (R23 * a).Floor as real;
    var a2 := a - 8388608.0 * a1;
    ScaledFloor(a.Floor);
    for i := 0 to n
      invariant IsState(x') && x'.Floor == Iterate(a.Floor, x.Floor, i)
      invariant Drawn(y[..], a.Floor, x.Floor, i) && y[n..] == old(y[n..])
    {
      x' := SplitStep(x', a1, a2, a.Floor);
      y[i] := R46 * x';
    }
  }

  /** `NV`, the length of a batch. */
  const NV: nat := 64

  /** Entry `i` of the seed vector is the state `offset + i + 1` steps from `x`. */
  ghost predicate SeedsAt(xv: seq<real>, a: int, x: int, offset: nat, n: nat) {
    n <= |xv| && forall i :: 0 <= i < n ==> IsState(xv[i]) && xv[i].Floor == Iterate(a, x, offset + i + 1)
  }

  /** `a^NV mod 2^46` by repeated calls. */
  method BatchMultiplier(a: real) returns (an: real)
    requires IsState(a)
    ensures IsState(an) && Jumps(an.Floor, a.Floor, NV)
  {
    hide Next, Power, Jumps;
    var t1, t2 := a, R46 * a;
    JumpOne(a.Floor);
    for i := 1 to NV
      invariant IsState(t1) && Jumps(t1.Floor, a.Floor, i) && t2 == R46 * t1
    {
      JumpTimes(t1.Floor, a.Floor, a.Floor, i, 1);
      t1, t2 := Randlc(t1, a);
    }
    an := 70368744177664.0 * t2;
  }

  /** The first seeds, and moving all seeds one batch on. */
  method FirstSeeds(n1: nat, x: real, a: real, xv: array<real>)
    requires IsState(x) && IsState(a) && n1 <= NV <= xv.Length
    modifies xv
    ensures SeedsAt(xv[..], a.Floor, x.Floor, 0, n1)
  {
    hide Next;
    var t1, r := x, 0.0;
    for i := 0 to n1
      invariant IsState(t1) && t1.Floor == Iterate(a.Floor, x.Floor, i) && SeedsAt(xv[..], a.Floor, x.Floor, 0, i)
    {
      t1, r := Randlc(t1, a);
      xv[i] := 70368744177664.0 * r;
    }
  }

  method MoveSeeds(xv: array<real>, an: real, ghost a: int, ghost x: int, ghost offset: nat)
    requires IsState(an) && IsSeed(x) && Jumps(an.Floor, a, NV) && xv.Length == NV && SeedsAt(xv[..], a, x, offset, NV)
    modifies xv
    ensures SeedsAt(xv[..], a, x, offset + NV, NV)
  {
    hide Next, Jumps, Iterate;
    var a1 := (R23 * an).Floor as real;
    var a2 := an - 8388608.0 * a1;
    ScaledFloor(an.Floor);
    for i := 0 to NV
      invariant SeedsAt(xv[..], a, x, offset + NV, i)
      invariant forall k :: i <= k < NV ==> IsState(xv[k]) && xv[k].Floor == Iterate(a, x, offset + k + 1)
    {
      JumpIsSteps(an.Floor, a, NV, xv[i].Floor);
      IterateSum(a, x, offset + i + 1, NV);
      xv[i] := SplitStep(xv[i], a1, a2, an.Floor);
    }
  }

  /**
   The batched `vranlc`: the same values and the same final seed as one at a time, for at least one number.
   Asked for none, it would save an element before the first of its seed vector: `ok` says that the
   element is there, and that is so exactly when there is a number to draw.
   */
  method VranlcBatched(n: int, x: real, a: real, y: array<real>) returns (ok: bool, x': real)
    requires IsState(x) && IsState(a) && n <= y.Length
    modifies y
    ensures ok <==> n >= 1
    ensures ok ==> IsState(x') && x'.Floor == Iterate(a.Floor, x.Floor, n) && Drawn(y[..], a.Floor, x.Floor, n)
    ensures y[Natural(n)..] == old(y[Natural(n)..])
  {
    hide Next, Jumps, Iterate;
    var xv := new real[NV];
    var n1 := if n < NV then n else NV;
    FirstSeeds(Natural(n1), x, a, xv);
    var an := a;
    if n > NV { an := BatchMultiplier(a); }
    var j := 0;
    while j < n
      invariant 0 <= j <= Natural(n) && (j < n || n <= 0)
      invariant Drawn(y[..], a.Floor, x.Floor, j) && y[Natural(n)..] == old(y[Natural(n)..])
      invariant IsState(an) && (n > NV ==> Jumps(an.Floor, a.Floor, NV)) && (n <= 0 ==> n1 == n)
      invariant SeedsAt(xv[..], a.Floor, x.Floor, j, Natural(if n < NV then n else NV))
      decreases n - j
    {
      n1 := if NV < n - j then NV else n - j;
      ghost var seeds := xv[..];
      for i := 0 to n1
        invariant Drawn(y[..], a.Floor, x.Floor, j + i) && y[n..] == old(y[Natural(n)..]) && xv[..] == seeds
      {
        y[j + i] := R46 * xv[i];
      }
      if j + n1 == n { break; }
      MoveSeeds(xv, an, a.Floor, x.Floor, j);
      j := j + NV;
    }
    ok, x' := 1 <= n1 <= NV, x;
    if ok { x' := xv[n1 - 1]; }
  }

  function Natural(n: int): nat {
    if n < 0 then 0 else n
  }

  // ---- The keys of the integer sort ----

  /** Four draws added up and scaled. */
  function KeyOf(k: int, d1: int, d2: int, d3: int, d4: int): int {
    Times(k as real, R46 * (d1 as real) + R46 * (d2 as real) + R46 * (d3 as real) + R46 * (d4 as real)).Floor
  }

  /** Key `i` of a stream. */
  function KeyAt(a: int, x: int, i: nat, k: int): int {
    KeyOf(k, Iterate(a, x, 4 * i + 1), Iterate(a, x, 4 * i + 2), Iterate(a, x, 4 * i + 3), Iterate(a, x, 4 * i + 4))
  }

  /** A key is the scaled sum of its four draws, rounded down: in units of 2^46, nothing but integers. */
  lemma KeyIsScaled(k: int, d1: int, d2: int, d3: int, d4: int)
    ensures 70368744177664 * KeyOf(k, d1, d2, d3, d4) <= k * (d1 + d2 + d3 + d4)
    ensures k * (d1 + d2 + d3 + d4) < 70368744177664 * (KeyOf(k, d1, d2, d3, d4) + 1)
  {
    var sum := d1 + d2 + d3 + d4;
    var y := R46 * (d1 as real) + R46 * (d2 as real) + R46 * (d3 as real) + R46 * (d4 as real);
    assert y == R46 * (sum as real);
    ScaledProduct(k, sum, y);
    FloorOf(Times(k as real, y), k * sum, T46);
  }

  lemma ScaledProduct(k: int, sum: int, y: real)
    requires y == R46 * (sum as real)
    ensures Times(k as real, y) * 70368744177664.0 == (k * sum) as real
  {
    assert y * 70368744177664.0 == sum as real;
    TimesTurn(k as real, y, 70368744177664.0);
    RealProduct(k, sum);
  }

  lemma TimesTurn(x: real, y: real, z: real)
    ensures Times(x, y) * z == Times(x, y * z)
  {
  }

  lemma KeysAreScaled(keys: seq<int>, a: int, x: int, k: int)
    requires forall i :: 0 <= i < |keys| ==> keys[i] == KeyAt(a, x, i, k)
    ensures forall i :: 0 <= i < |keys| ==>
      var s1, s2 := Iterate(a, x, 4 * i + 1), Iterate(a, x, 4 * i + 2);
      var s3, s4 := Iterate(a, x, 4 * i + 3), Iterate(a, x, 4 * i + 4);
      70368744177664 * keys[i] <= k * (s1 + s2 + s3 + s4) < 70368744177664 * (keys[i] + 1)
  {
    hide Iterate, KeyOf;
    forall i | 0 <= i < |keys|
      ensures var s1, s2 := Iterate(a, x, 4 * i + 1), Iterate(a, x, 4 * i + 2);
        var s3, s4 := Iterate(a, x, 4 * i + 3), Iterate(a, x, 4 * i + 4);
        70368744177664 * keys[i] <= k * (s1 + s2 + s3 + s4) < 70368744177664 * (keys[i] + 1)
    {
      KeyIsScaled(k, Iterate(a, x, 4 * i + 1), Iterate(a, x, 4 * i + 2), Iterate(a, x, 4 * i + 3),
        Iterate(a, x, 4 * i + 4));
    }
  }

  /** `create_seq`. */
  method CreateSeq(seed: real, a: real, maxKey: int, keyArray: array<int>)
    requires IsState(seed) && IsState(a)
    modifies keyArray
    ensures forall i :: 0 <= i < keyArray.Length ==> keyArray[i] == KeyAt(a.Floor, seed.Floor, i, maxKey / 4)
    ensures forall i :: 0 <= i < keyArray.Length ==>
      var s1, s2 := Iterate(a.Floor, seed.Floor, 4 * i + 1), Iterate(a.Floor, seed.Floor, 4 * i + 2);
      var s3, s4 := Iterate(a.Floor, seed.Floor, 4 * i + 3), Iterate(a.Floor, seed.Floor, 4 * i + 4);
      70368744177664 * keyArray[i] <= maxKey / 4 * (s1 + s2 + s3 + s4) < 70368744177664 * (keyArray[i] + 1)
  {
    hide Next, Times;
    var k := maxKey / 4;
    var state, r, x := seed, 0.0, 0.0;
    for i := 0 to keyArray.Length
      invariant IsState(state) && state.Floor == Iterate(a.Floor, seed.Floor, 4 * i)
      invariant forall i' :: 0 <= i' < i ==> keyArray[i'] == KeyAt(a.Floor, seed.Floor, i', k)
    {
      state, x := Randlc(state, a);
      assert state.Floor == Iterate(a.Floor, seed.Floor, 4 * i + 1);
      state, r := Randlc(state, a);
      x := x + r;
      assert state.Floor == Iterate(a.Floor, seed.Floor, 4 * i + 2);
      state, r := Randlc(state, a);
      x := x + r;
      assert state.Floor == Iterate(a.Floor, seed.Floor, 4 * i + 3);
      state, r := Randlc(state, a);
      x := x + r;
      assert state.Floor == Iterate(a.Floor, seed.Floor, 4 * i + 4);
      keyArray[i] := Times(k as real, x).Floor;
    }
    KeysAreScaled(keyArray[..], a.Floor, seed.Floor, k);
  }

  /** All keys are in the range that the sort relies on. */
  lemma KeyInRange(a: int, x: int, i: nat, maxKey: int)
    requires maxKey >= 4 && maxKey % 4 == 0
    ensures 0 <= KeyAt(a, x, i, maxKey / 4) < maxKey
  {
    hide Iterate, KeyOf;
    StateInRange(a, x, 4 * i);
    StateInRange(a, x, 4 * i + 1);
    StateInRange(a, x, 4 * i + 2);
    StateInRange(a, x, 4 * i + 3);
    SumInRange(maxKey / 4, Iterate(a, x, 4 * i + 1), Iterate(a, x, 4 * i + 2), Iterate(a, x, 4 * i + 3),
      Iterate(a, x, 4 * i + 4));
  }

  lemma SumInRange(k: int, d1: int, d2: int, d3: int, d4: int)
    requires k > 0 && IsSeed(d1) && IsSeed(d2) && IsSeed(d3) && IsSeed(d4)
    ensures 0 <= KeyOf(k, d1, d2, d3, d4) < 4 * k
  {
    hide Times;
    var sum := R46 * (d1 as real) + R46 * (d2 as real) + R46 * (d3 as real) + R46 * (d4 as real);
    assert 0.0 <= sum < 4.0;
    ScaledBelow(k as real, sum);
  }

  lemma StateInRange(a: int, x: int, n: nat)
    ensures IsSeed(Iterate(a, x, n + 1))
  {
  }

  lemma ScaledBelow(k: real, x: real)
    requires k > 0.0 && 0.0 <= x < 4.0
    ensures 0.0 <= Times(k, x) < 4.0 * k
  {
    assert k * x >= 0.0 && k * (4.0 - x) > 0.0;
    assert k * (4.0 - x) == 4.0 * k - k * x;
  }

  /**
   The streams fit together: when the draws of a rank are a power of two, key `i` of rank `kn`, drawn from
   its own seed, is key `kn * perRank + i` of the one stream that starts at `s`.
   */
  lemma StreamsConcatenate(a: int, s: int, kn: nat, perRank: nat, e: nat, i: nat, k: int)
    requires IsSeed(s) && 4 * perRank == Pow2(e)
    ensures kn * Pow2(Halvings(4 * perRank)) >= 0 && kn * perRank + i >= 0
    ensures KeyAt(a, Iterate(a, s, kn * Pow2(Halvings(4 * perRank))), i, k) == KeyAt(a, s, kn * perRank + i, k)
  {
    hide Iterate, KeyOf, Pow2, Halvings;
    HalvingsOfPower(e);
    ShiftedDraw(a, s, kn, perRank, i, 1);
    ShiftedDraw(a, s, kn, perRank, i, 2);
    ShiftedDraw(a, s, kn, perRank, i, 3);
    ShiftedDraw(a, s, kn, perRank, i, 4);
  }

  lemma ShiftedDraw(a: int, s: int, kn: nat, perRank: nat, i: nat, d: nat)
    ensures kn * (4 * perRank) >= 0 && kn * perRank + i >= 0
    ensures Iterate(a, Iterate(a, s, kn * (4 * perRank)), 4 * i + d) == Iterate(a, s, 4 * (kn * perRank + i) + d)
  {
    var g := kn * perRank;
    assert kn * (4 * perRank) == 4 * g;
    IterateSum(a, s, 4 * g, 4 * i + d);
  }
}
