/** Powers of two and remainders, for all parts of the project. */
module Numbers {
  // ---- Powers ----

  function Pow2(n: nat): (r: nat)
    ensures r >= 1
  {
    if n == 0 then 1 else 2 * Pow2(n - 1)
  }

  lemma {:induction false} Pow2Sum(a: nat, b: nat)
    ensures Pow2(a) * Pow2(b) == Pow2(a + b)
  {
    if a > 0 {
      Pow2Sum(a - 1, b);
      DoubleFactor(Pow2(a - 1), Pow2(b));
    }
  }

  lemma DoubleFactor(x: int, y: int)
    ensures 2 * x * y == 2 * (x * y)
  {
  }

  // ---- Sets ----

  lemma SmallerSet<T>(a: set<T>, b: set<T>)
    requires a <= b
    ensures |a| <= |b|
  {
    assert b == a + (b - a);
  }

  // ---- Remainders ----

  function Prod(a: int, b: int): int { a * b }

  function Quot(x: int, p: int): int
    requires p != 0
  {
    x / p
  }

  function Rem(x: int, p: int): int
    requires p != 0
  {
    x % p
  }

  lemma ProdSum(p: int, a: int, b: int)
    ensures Prod(p, a + b) == Prod(p, a) + Prod(p, b) && Prod(p, a - b) == Prod(p, a) - Prod(p, b)
  {
  }

  lemma ProdOne(p: int)
    ensures Prod(p, 1) == p && Prod(p, 0) == 0
  {
  }

  lemma ProdSwap(a: int, b: int)
    ensures Prod(a, b) == Prod(b, a) && Prod(a + 1, b) == Prod(a, b) + b
  {
  }

  /** A multiple other than zero is at least as large as the number. */
  lemma ProdAtLeast(p: int, d: int)
    requires p > 0
    ensures (d >= 1 ==> Prod(p, d) >= p) && (d <= -1 ==> Prod(p, d) <= -p)
  {
  }

  lemma Division(x: int, p: int)
    requires p > 0
    ensures x == Prod(p, Quot(x, p)) + Rem(x, p) && 0 <= Rem(x, p) < p
  {
  }

  lemma DivisionUnique(x: int, p: int, q: int, r: int)
    requires p > 0 && x == Prod(p, q) + r && 0 <= r < p
    ensures Rem(x, p) == r && Quot(x, p) == q
  {
    hide Prod, Quot, Rem;
    Division(x, p);
    ProdSum(p, Quot(x, p), q);
    ProdAtLeast(p, Quot(x, p) - q);
  }

  lemma RemOfSmall(x: int, p: int)
    requires 0 <= x < p
    ensures Rem(x, p) == x && Quot(x, p) == 0
  {
    hide Prod, Quot, Rem;
    ProdOne(p);
    DivisionUnique(x, p, 0, x);
  }

  /** Adding a remainder or adding the number itself. */
  lemma RemAdd(x: int, y: int, p: int)
    requires p > 0
    ensures Rem(Rem(x, p) + y, p) == Rem(x + y, p)
  {
    hide Prod, Quot, Rem;
    var z := Rem(x, p) + y;
    Division(x, p);
    Division(z, p);
    ProdSum(p, Quot(z, p), Quot(x, p));
    DivisionUnique(x + y, p, Quot(z, p) + Quot(x, p), Rem(z, p));
  }

  /** A full turn changes no remainder. */
  lemma RemTurn(x: int, p: int)
    requires p > 0
    ensures Rem(x + p, p) == Rem(x, p)
  {
    hide Prod, Quot, Rem;
    Division(x, p);
    ProdOne(p);
    ProdSum(p, Quot(x, p), 1);
    DivisionUnique(x + p, p, Quot(x, p) + 1, Rem(x, p));
  }

  /** One step on: the next remainder, or 0 after the last. */
  lemma RemStep(x: int, p: int)
    requires p > 0
    ensures Rem(x + 1, p) == if Rem(x, p) + 1 < p then Rem(x, p) + 1 else 0
  {
    hide Prod, Quot, Rem;
    Division(x, p);
    if Rem(x, p) + 1 < p {
      DivisionUnique(x + 1, p, Quot(x, p), Rem(x, p) + 1);
    } else {
      ProdOne(p);
      ProdSum(p, Quot(x, p), 1);
      DivisionUnique(x + 1, p, Quot(x, p) + 1, 0);
    }
  }

  /** A factor may be reduced before the product is. */
  lemma RemProd(x: int, y: int, p: int)
    requires p > 0
    ensures Rem(Prod(Rem(x, p), y), p) == Rem(Prod(x, y), p)
  {
    hide Prod, Quot, Rem;
    var r := Rem(x, p);
    Division(x, p);
    Division(Prod(r, y), p);
    ProdSwap(x, y);
    ProdSwap(r, y);
    ProdSum(y, Prod(p, Quot(x, p)), r);
    ProdMany(y, p, Quot(x, p));
    ProdSum(p, Prod(y, Quot(x, p)), Quot(Prod(r, y), p));
    DivisionUnique(Prod(x, y), p, Prod(y, Quot(x, p)) + Quot(Prod(r, y), p), Rem(Prod(r, y), p));
  }

  lemma ProdMany(y: int, p: int, q: int)
    ensures Prod(y, Prod(p, q)) == Prod(p, Prod(y, q))
  {
  }

  /** Subtracting undoes adding on remainders. */
  lemma RemCancel(x: int, y: int, p: int)
    requires 0 <= x < p
    ensures Rem(Rem(x + y, p) - y, p) == x
  {
    hide Prod, Quot, Rem;
    RemAdd(x + y, -y, p);
    RemOfSmall(x, p);
  }

  /** Taking away what was taken away leaves the number. */
  lemma RemMirror(j: int, n: int, p: int)
    requires 0 <= n < p
    ensures Rem(j - Rem(j - n, p), p) == n
  {
    hide Prod, Quot, Rem;
    Division(j - n, p);
    DivisionUnique(j - Rem(j - n, p), p, Quot(j - n, p), n);
  }

  /** In the usual notation. */
  lemma ModUnique(x: int, p: int, q: int, r: int)
    requires p > 0 && x == p * q + r && 0 <= r < p
    ensures x % p == r && x / p == q
  {
    DivisionUnique(x, p, q, r);
  }

  lemma ModAdd(x: int, y: int, p: int)
    requires p > 0
    ensures (x % p + y) % p == (x + y) % p
  {
    RemAdd(x, y, p);
  }
}
