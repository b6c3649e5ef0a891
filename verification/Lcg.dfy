/**
 The generator of NAS, `x -> a x mod 2^46`: its powers, and the ways in which the source computes the
 product without losing bits.
 */
module Lcg {
  import opened Numbers

  const T23: int := 8388608
  const T46: int := 70368744177664

  ghost predicate IsSeed(x: int) {
    0 <= x < T46
  }

  function Next(a: int, x: int): (r: int)
    ensures IsSeed(r)
  {
    a * x % T46
  }

  /** The state after `n` steps. */
  function Iterate(a: int, x: int, n: nat): int {
    if n == 0 then x else Next(a, Iterate(a, x, n - 1))
  }

  // ---- The double split ----

  /** The integers that the split arithmetic passes through, by the names of the source. */
  datatype Split = Split(a1: int, a2: int, x1: int, x2: int, t1: int, t2: int, z: int, t3: int, t4: int, x: int)

  function SplitProduct(a: int, x: int): Split {
    var a1, x1 := a / T23, x / T23;
    var a2, x2 := a - T23 * a1, x - T23 * x1;
    var t1 := a1 * x2 + a2 * x1;
    var t2 := t1 / T23;
    var z := t1 - T23 * t2;
    var t3 := T23 * z + a2 * x2;
    var t4 := t3 / T46;
    Split(a1, a2, x1, x2, t1, t2, z, t3, t4, t3 - T46 * t4)
  }

  lemma ProductBelow(a: int, b: int, m: int, n: int)
    requires 0 <= a < m && 0 <= b < n
    ensures 0 <= a * b < m * n
  {
    assert a * b <= a * n <= m * n;
    assert a * n < m * n;
  }

  lemma Halves(n: int)
    requires IsSeed(n)
    ensures 0 <= n / T23 < T23 && 0 <= n - T23 * (n / T23) < T23
  {
  }

  /** The parts are 23-bit numbers, every intermediate fits a double exactly, every cast fits an `int`. */
  lemma SplitFits(a: int, x: int)
    requires IsSeed(a) && IsSeed(x)
    ensures var s := SplitProduct(a, x);
      && 0 <= s.a1 < T23 && 0 <= s.a2 < T23 && 0 <= s.x1 < T23 && 0 <= s.x2 < T23 && 0 <= s.z < T23
      && 0 <= s.a1 * s.x2 < T46 && 0 <= s.a2 * s.x1 < T46 && 0 <= s.a2 * s.x2 < T46
      && 0 <= s.t1 < 2 * T46 && 0 <= s.t3 < 2 * T46 && 0 <= s.t2 < 2 * T23 && 0 <= s.t4 < 2 && IsSeed(s.x)
  {
    var s := SplitProduct(a, x);
    Halves(a);
    Halves(x);
    ProductBelow(s.a1, s.x2, T23, T23);
    ProductBelow(s.a2, s.x1, T23, T23);
    ProductBelow(s.a2, s.x2, T23, T23);
  }

  lemma FourProducts(a1: int, a2: int, x1: int, x2: int)
    ensures (T23 * a1 + a2) * (T23 * x1 + x2) == T46 * (a1 * x1) + T23 * (a1 * x2 + a2 * x1) + a2 * x2
  {
    assert T23 * a1 * (T23 * x1) == T46 * (a1 * x1);
    assert (T23 * a1 + a2) * (T23 * x1 + x2) == T23 * a1 * (T23 * x1) + T23 * a1 * x2 + a2 * (T23 * x1) + a2 * x2;
    assert T23 * a1 * x2 == T23 * (a1 * x2) && a2 * (T23 * x1) == T23 * (a2 * x1);
  }

  /** The split computes the product modulo 2^46. */
  lemma SplitIsNext(a: int, x: int)
    requires IsSeed(a) && IsSeed(x)
    ensures SplitProduct(a, x).x == Next(a, x)
  {
    var s := SplitProduct(a, x);
    SplitFits(a, x);
    FourProducts(s.a1, s.a2, s.x1, s.x2);
    ModUnique(a * x, T46, s.a1 * s.x1 + s.t2 + s.t4, s.x);
  }

  // ---- The integer forms ----

  const TWO63: int := 9223372036854775808
  const TWO64: int := 18446744073709551616

  /** A product of `integer*8` values, wrapped to 64 bits as a signed number. */
  function Wrapped(n: int): int {
    (n + TWO63) % TWO64 - TWO63
  }

  /** The field of `length` bits, given as a power of two, from `position` on: `ibits`. */
  function Field(n: int, position: int, length: int): int
    requires position > 0 && length > 0
  {
    n / position % length
  }

  /** `iand(Lx*La, 2**46-1)`: the wrap-around loses nothing that the mask keeps. */
  lemma MaskedIsNext(a: int, x: int)
    ensures Field(Wrapped(a * x), 1, T46) == Next(a, x)
  {
    var n, w := a * x, Wrapped(a * x);
    var q := (n + TWO63) / TWO64;
    assert TWO64 == T46 * 262144;
    assert w == n - T46 * (262144 * q);
    assert n == T46 * (n / T46) + n % T46;
    ModUnique(w, T46, n / T46 - 262144 * q, n % T46);
  }

  /** The 23-bit fields, with the shifted sum not reduced before the last mask. */
  function FieldProduct(a: int, x: int): int {
    var a1, a2, x1, x2 := Field(a, T23, T23), Field(a, 1, T23), Field(x, T23, T23), Field(x, 1, T23);
    Field(Field(a1 * x2 + a2 * x1, 1, T23) * T23 + a2 * x2, 1, T46)
  }

  lemma LowField(n: int, length: int)
    requires length > 0
    ensures Field(n, 1, length) == n - length * (n / length)
  {
  }

  lemma FieldsAreSplit(a: int)
    requires IsSeed(a)
    ensures Field(a, T23, T23) == a / T23 && Field(a, 1, T23) == a - T23 * (a / T23)
  {
  }

  lemma FieldIsNext(a: int, x: int)
    requires IsSeed(a) && IsSeed(x)
    ensures FieldProduct(a, x) == Next(a, x)
  {
    hide Next, Field;
    var s := SplitProduct(a, x);
    FieldsAreSplit(a);
    FieldsAreSplit(x);
    LowField(s.t1, T23);
    LowField(s.t3, T46);
    SplitIsNext(a, x);
  }

  // ---- Powers ----

  function Power(a: int, n: nat): int {
    if n == 0 then 1 else a * Power(a, n - 1)
  }

  lemma NextIs(a: int, x: int)
    ensures Next(a, x) == Rem(Prod(a, x), T46)
  {
  }

  lemma {:induction false} IterateIsPower(a: int, x: int, n: nat)
    requires IsSeed(x)
    ensures Iterate(a, x, n) == Rem(Prod(Power(a, n), x), T46)
  {
    hide Prod, Rem, Next;
    ProdSwap(1, x);
    ProdOne(x);
    if n == 0 {
      RemOfSmall(x, T46);
    } else {
      IterateIsPower(a, x, n - 1);
      PowerNext(a, n - 1);
      NextOfProduct(a, Power(a, n - 1), x);
    }
  }

  lemma NextOfProduct(a: int, p: int, x: int)
    ensures Next(a, Rem(Prod(p, x), T46)) == Rem(Prod(Prod(a, p), x), T46)
  {
    hide Prod, Rem, Next;
    var y := Prod(p, x);
    NextIs(a, Rem(y, T46));
    ProdSwap(a, Rem(y, T46));
    RemProd(y, a, T46);
    ProdTurn(a, p, x);
  }

  lemma ProdTurn(a: int, p: int, x: int)
    ensures Prod(Prod(p, x), a) == Prod(Prod(a, p), x) == Prod(a, Prod(p, x))
  {
  }

  lemma PowerNext(a: int, n: nat)
    ensures Power(a, n + 1) == Prod(a, Power(a, n)) && Power(a, 0) == 1
  {
  }

  lemma {:induction false} PowerSum(a: int, m: nat, n: nat)
    ensures Power(a, m + n) == Prod(Power(a, m), Power(a, n))
  {
    hide Prod, Power;
    PowerNext(a, m);
    if m == 0 {
      ProdSwap(1, Power(a, n));
      ProdOne(Power(a, n));
    } else {
      PowerSum(a, m - 1, n);
      PowerNext(a, m - 1);
      PowerNext(a, m - 1 + n);
      ProdTurn(a, Power(a, m - 1), Power(a, n));
    }
  }

  /** Steps add up. */
  lemma {:induction false} IterateSum(a: int, x: int, m: nat, n: nat)
    ensures Iterate(a, x, m + n) == Iterate(a, Iterate(a, x, m), n)
  {
    if n > 0 { IterateSum(a, x, m, n - 1); }
  }

  /** `b` is the multiplier of `k` steps of `a` at once. */
  ghost predicate Jumps(b: int, a: int, k: nat) {
    b == Rem(Power(a, k), T46)
  }

  /** One step of the jump is `k` steps. */
  lemma JumpIsSteps(b: int, a: int, k: nat, x: int)
    requires Jumps(b, a, k) && IsSeed(x)
    ensures Next(b, x) == Iterate(a, x, k)
  {
    hide Prod, Rem, Next, Power;
    NextIs(b, x);
    RemProd(Power(a, k), x, T46);
    IterateIsPower(a, x, k);
  }

  /** Jumps compose by multiplying. */
  lemma JumpTimes(b: int, c: int, a: int, k: nat, l: nat)
    requires Jumps(b, a, k) && Jumps(c, a, l)
    ensures Jumps(Next(c, b), a, k + l)
  {
    hide Power, Prod, Rem, Next;
    NextIs(c, b);
    RemProd(Power(a, l), b, T46);
    ProdSwap(Power(a, l), b);
    RemProd(Power(a, k), Power(a, l), T46);
    PowerSum(a, k, l);
  }

  lemma JumpOne(a: int)
    requires IsSeed(a)
    ensures Jumps(a, a, 1)
  {
    hide Rem;
    RemOfSmall(a, T46);
    assert Power(a, 0) == 1;
  }
}
