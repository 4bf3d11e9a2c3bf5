/** Integer square root of a 64-bit word, by trial subtraction. */
module Isqrt {
  import opened Arith

  const WORD64: int := 0x1_0000_0000_0000_0000
  const ROOT64: int := 0x1_0000_0000

  /** The state before the trial of `b`: the root found so far, `x`, is a multiple
      of 2b below 2^32, and the true root is less than 2b above it. */
  ghost predicate Trial(v: int, x: int, b: int, m: int, k: int) {
    && b > 0 && x == 2 * b * m && 2 * b * k == ROOT64 && 0 <= m < k
    && x * x <= v < (x + 2 * b) * (x + 2 * b)
  }

  lemma MulMono(a: int, b: int, c: int, d: int)
    requires 0 <= a <= c && 0 <= b <= d
    ensures 0 <= a * b <= c * d
  {
    assert a * b <= c * b;
    assert c * b <= c * d;
  }

  lemma RoomAbove(b: int, m: int, k: int)
    requires b > 0 && 0 <= m < k && 2 * b * k == ROOT64
    ensures 0 <= 2 * b * m <= ROOT64 - 2 * b
  {
    MulMono(2 * b, m + 1, 2 * b, k);
    MulMono(2 * b, 0, 2 * b, m);
    assert 2 * b * (m + 1) == 2 * b * m + 2 * b;
  }

  /** The trial value stays within a word. */
  lemma NoOverflow(x: int, b: int)
    requires 0 <= x <= ROOT64 - 2 * b && 0 < b
    ensures 0 <= 2 * x * b && 2 * x * b + b * b < WORD64 && 0 <= x * b && x * b + b * b < WORD64
  {
    var y := x + b;
    MulMono(y, y, ROOT64 - 1, ROOT64 - 1);
    MulMono(x, b, x, b);
    MulMono(x, x, x, x);
    assert y * y == x * x + 2 * (x * b) + b * b;
  }

  /** From the trial of `b` to that of half of it. */
  lemma NextTrial(v: int, x: int, b: int, m: int, k: int)
    requires Trial(v, x, b, m, k) && b % 2 == 0
    ensures
      var x' := if (x + b) * (x + b) <= v then x + b else x;
      Trial(v, x', b / 2, if (x + b) * (x + b) <= v then 2 * m + 1 else 2 * m, 2 * k)
  {
    var h := b / 2;
    assert b == 2 * h;
    assert 2 * h * (2 * k) == 2 * b * k;
    assert 2 * h * (2 * m) == 2 * b * m;
    assert 2 * h * (2 * m + 1) == 2 * b * m + b;
  }

  /** A quarter of a square of a power of two. */
  lemma Quarter(e: nat)
    ensures e > 0 ==> Pow2(e) == 2 * Pow2(e - 1) && Pow2(e) * Pow2(e) / 4 == Pow2(e - 1) * Pow2(e - 1)
    ensures e == 0 ==> Pow2(e) * Pow2(e) / 4 == 0
    ensures Pow2(e) > 0
  {
    if e > 0 {
      var h := Pow2(e - 1);
      assert (2 * h) * (2 * h) == 4 * (h * h);
    }
  }

  /** The variables of the loop before the trial of 2^e. */
  ghost predicate Running(v: int, value: int, result: int, bit: int, e: nat, x: int, m: int, k: int) {
    && Trial(v, x, Pow2(e), m, k) && bit == Pow2(e) * Pow2(e)
    && value == v - x * x && result == 2 * (x * Pow2(e))
  }

  ghost predicate IsRoot(v: int, r: int) {
    0 <= r && r * r <= v < (r + 1) * (r + 1)
  }

  lemma Halved(x: int, b: int)
    ensures 2 * (x * b) / 2 == x * b && (x + b) * b == x * b + b * b
    ensures b % 2 == 0 ==> 2 * (x * (b / 2)) == x * b
  {
    if b % 2 == 0 {
      var h := b / 2;
      assert b == 2 * h;
      assert x * (2 * h) == 2 * (x * h);
    }
  }

  lemma Fits(v: int, value: int, result: int, bit: int, e: nat, x: int, m: int, k: int)
    requires Running(v, value, result, bit, e, x, m, k)
    ensures 0 <= result && 0 < bit && result + bit < WORD64 && 0 <= result / 2 && result / 2 + bit < WORD64
  {
    var b := Pow2(e);
    RoomAbove(b, m, k);
    NoOverflow(x, b);
    MulMono(1, 1, b, b);
    Halved(x, b);
    assert 2 * x * b == 2 * (x * b);
  }

  lemma StepUp(v: int, value: int, result: int, bit: int, e: nat, x: int, m: int, k: int)
    requires Running(v, value, result, bit, e, x, m, k) && value >= result + bit
    ensures e > 0 ==> Running(v, value - (result + bit), result / 2 + bit, bit / 4, e - 1, x + Pow2(e), 2 * m + 1, 2 * k)
    ensures e == 0 ==> bit / 4 == 0 && IsRoot(v, result / 2 + bit)
  {
    hide Trial;
    var b := Pow2(e);
    Quarter(e);
    Squared(x, b);
    Halved(x, b);
    Halved(x + b, b);
    if e > 0 {
      assert b / 2 == Pow2(e - 1);
      NextTrial(v, x, b, m, k);
    } else {
      TrialEnds(v, x, m, k);
    }
  }

  lemma StepDown(v: int, value: int, result: int, bit: int, e: nat, x: int, m: int, k: int)
    requires Running(v, value, result, bit, e, x, m, k) && value < result + bit
    ensures e > 0 ==> Running(v, value, result / 2, bit / 4, e - 1, x, 2 * m, 2 * k)
    ensures e == 0 ==> bit / 4 == 0 && IsRoot(v, result / 2)
  {
    hide Trial;
    var b := Pow2(e);
    Quarter(e);
    Squared(x, b);
    Halved(x, b);
    if e > 0 {
      assert b / 2 == Pow2(e - 1);
      NextTrial(v, x, b, m, k);
    } else {
      TrialEnds(v, x, m, k);
    }
  }

  lemma Squared(x: int, b: int)
    ensures (x + b) * (x + b) == x * x + 2 * (x * b) + b * b
  {
  }

  lemma TrialEnds(v: int, x: int, m: int, k: int)
    requires Trial(v, x, 1, m, k)
    ensures 0 <= x && x * x <= v < (x + 2) * (x + 2)
  {
  }

  /** The variables of the first loop: the root is below 2^(e+1). */
  ghost predicate Searching(v: int, bit: int, e: nat, k: int) {
    bit == Pow2(e) * Pow2(e) && 0 <= v < 4 * bit && 2 * Pow2(e) * k == ROOT64 && k > 0
  }

  lemma SearchOn(v: int, bit: int, e: nat, k: int)
    requires Searching(v, bit, e, k) && bit > v
    ensures e > 0 ==> Searching(v, bit / 4, e - 1, 2 * k) && bit / 4 > 0
    ensures e == 0 ==> bit / 4 == 0 && v == 0
  {
    Quarter(e);
    if e > 0 {
      var h := Pow2(e - 1);
      assert bit == 4 * (h * h);
      MulMono(1, 1, h, h);
      assert 2 * h * (2 * k) == 2 * (2 * h) * k;
    }
  }

  /** The first trial value is the largest power of four that is not above the
      value.  Every intermediate sum fits in a word. */
  method Isqrt(v: int) returns (result: int)
    requires 0 <= v < WORD64
    ensures IsRoot(v, result)
  {
    hide Running, Searching, IsRoot;
    ghost var e, k := 31, 1;
    Top(v);
    var value, bit := v, 0x4000_0000_0000_0000;
    while bit > value
      invariant bit >= 0 && (bit == 0 ==> v == 0)
      invariant bit != 0 ==> Searching(v, bit, e, k)
      decreases bit
    {
      SearchOn(v, bit, e, k);
      bit := bit / 4;
      if e > 0 { e, k := e - 1, 2 * k; }
    }
    result := 0;
    ghost var x, m := 0, 0;
    ZeroRoot();
    if bit != 0 { FirstTrial(v, bit, e, k); }
    while bit != 0
      invariant bit >= 0
      invariant if bit == 0 then IsRoot(v, result) else Running(v, value, result, bit, e, x, m, k)
      decreases bit
    {
      Fits(v, value, result, bit, e, x, m, k);
      if value >= result + bit {
        StepUp(v, value, result, bit, e, x, m, k);
        value := value - (result + bit);
        result := result / 2 + bit;
        x, m, k := x + Pow2(e), 2 * m + 1, 2 * k;
      } else {
        StepDown(v, value, result, bit, e, x, m, k);
        result := result / 2;
        m, k := 2 * m, 2 * k;
      }
      bit := bit / 4;
      if e > 0 {
        e := e - 1;
        Fits(v, value, result, bit, e, x, m, k);
      }
    }
  }

  lemma ZeroRoot()
    ensures IsRoot(0, 0)
  {
  }

  lemma Top(v: int)
    requires 0 <= v < WORD64
    ensures Searching(v, 0x4000_0000_0000_0000, 31, 1)
  {
    assert Pow2(8) == 256;
    assert Pow2(16) == 65536;
    assert Pow2(24) == 0x100_0000;
    assert Pow2(31) == 0x8000_0000;
  }

  lemma FirstTrial(v: int, bit: int, e: nat, k: int)
    requires Searching(v, bit, e, k)
    ensures Running(v, v, 0, bit, e, 0, 0, k)
  {
    var b := Pow2(e);
    assert (2 * b) * (2 * b) == 4 * (b * b);
  }
}
