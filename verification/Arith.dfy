/** Powers of two and modular facts behind the allocator's bit masks:
    for a power of two `p`, `x & (p - 1)` is `x % p` and `x & ~(p - 1)` is
    `x / p * p`. */
module Arith {

  /** One more than the largest size_t. */
  const WORD: nat := 0x1_0000_0000_0000_0000

  /** Addresses below HALF have pointer differences that fit in ssize_t. */
  const HALF: nat := 0x8000_0000_0000_0000

  function Pow2(k: nat): (p: nat)
    ensures p > 0
  {
    if k == 0 then 1 else 2 * Pow2(k - 1)
  }

  ghost predicate IsPow2(p: nat) {
    exists k: nat :: p == Pow2(k)
  }

  lemma {:induction false} Pow2Quotient(a: nat, b: nat) returns (q: nat)
    requires a <= b
    ensures Pow2(b) == q * Pow2(a)
  {
    if a == b {
      q := 1;
    } else {
      var h := Pow2Quotient(a, b - 1);
      q := 2 * h;
      assert 2 * (h * Pow2(a)) == q * Pow2(a);
    }
  }

  lemma {:induction false} Pow2Monotone(a: nat, b: nat)
    requires a <= b
    ensures Pow2(a) <= Pow2(b) && (a < b ==> Pow2(a) < Pow2(b))
  {
    if a < b { Pow2Monotone(a, b - 1); }
  }

  lemma {:induction false} Pow2Add(a: nat, b: nat)
    ensures Pow2(a + b) == Pow2(a) * Pow2(b)
  {
    if a > 0 {
      Pow2Add(a - 1, b);
      assert Pow2(a) * Pow2(b) == 2 * (Pow2(a - 1) * Pow2(b));
    }
  }

  lemma WordIsPow2()
    ensures IsPow2(WORD)
  {
    assert Pow2(8) == 256;
    Pow2Add(8, 8);
    Pow2Add(16, 16);
    Pow2Add(32, 32);
    assert WORD == Pow2(64);
  }

  /** Of two powers of two, the smaller divides the larger. */
  lemma SmallerDividesLarger(p: nat, q: nat)
    requires IsPow2(p) && IsPow2(q) && p <= q
    ensures p > 0 && q % p == 0
  {
    var a: nat :| p == Pow2(a);
    var b: nat :| q == Pow2(b);
    if b < a { Pow2Monotone(b, a); }
    var c := Pow2Quotient(a, b);
    ModMultiple(c, p);
  }

  lemma ModMultiple(q: int, m: int)
    requires m > 0
    ensures (m * q) % m == 0 && (q * m) % m == 0
  {
    DivModUnique(m * q, q, 0, m);
  }

  /** Division is determined by its defining equation. */
  lemma DivModUnique(x: int, q: int, r: int, m: int)
    requires m > 0 && x == q * m + r && 0 <= r < m
    ensures x / m == q && x % m == r
  {
    var d := x / m - q;
    assert d * m == (x / m) * m - q * m;
    MulAtLeast(d, m);
    MulAtLeast(-d, m);
  }

  lemma MulAtLeast(d: int, m: int)
    requires m > 0
    ensures d >= 1 ==> d * m >= m
  {
  }

  /** Two multiples of m less than m apart are equal. */
  lemma MultiplesApart(x: int, y: int, m: int)
    requires m > 0 && x % m == 0 && y % m == 0 && x <= y < x + m
    ensures x == y
  {
    var a, b := x / m, y / m;
    assert x == a * m && y == b * m;
    assert (b - a) * m == y - x;
    MulAtLeast(b - a, m);
  }

  lemma ModAddMultiple(x: int, q: int, m: int)
    requires m > 0
    ensures (x + q * m) % m == x % m
  {
    assert x + q * m == (x / m + q) * m + x % m;
    DivModUnique(x + q * m, x / m + q, x % m, m);
  }

  /** Adding (o - x) mod m to x lands on o modulo m. */
  lemma AlignUp(x: int, o: int, m: int)
    requires m > 0
    ensures (x + (o - x) % m) % m == o % m
  {
    var q := (o - x) / m;
    assert x + (o - x) % m == o + (-q) * m;
    ModAddMultiple(o, -q, m);
  }

  /** Congruence modulo m gives congruence modulo any divisor of m. */
  lemma ModOfMod(x: int, y: int, m: int, d: int)
    requires m > 0 && d > 0 && m % d == 0 && x % m == y % m
    ensures x % d == y % d
  {
    var c := m / d;
    assert m == c * d;
    assert x - y == (x / m - y / m) * m;
    assert x == y + ((x / m - y / m) * c) * d;
    ModAddMultiple(y, (x / m - y / m) * c, d);
  }

  /** The finite set of integers in [lo, hi). */
  ghost function Range(lo: int, hi: int): (r: set<int>)
    ensures forall a :: a in r <==> lo <= a < hi
    decreases hi - lo
  {
    if lo < hi then Range(lo, hi - 1) + {hi - 1} else {}
  }

  lemma {:induction false} RangeCard(lo: int, hi: int)
    requires lo <= hi
    ensures |Range(lo, hi)| == hi - lo
    decreases hi - lo
  {
    if lo < hi {
      RangeCard(lo, hi - 1);
    }
  }

  lemma {:induction false} SubsetCard<T>(a: set<T>, b: set<T>)
    requires a <= b
    ensures |a| <= |b|
  {
    assert b == a + (b - a);
  }
}
