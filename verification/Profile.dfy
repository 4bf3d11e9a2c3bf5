/** The running mean of a profiler, kept in scaled integers. */
module Profile {
  import opened Arith
  import opened CLib

  const SIGN: int := 0x8000_0000_0000_0000
  const INT_MAX: int := 0x7fff_ffff

  /** The highest bit set. */
  function Msb(x: nat): (k: nat)
    requires x > 0
    ensures Pow2(k) <= x < 2 * Pow2(k)
  {
    if x == 1 then 0 else 1 + Msb(x / 2)
  }

  lemma Pow2Sign()
    ensures Pow2(63) == SIGN
  {
    assert Pow2(16) == 65536;
    Pow2Add(16, 16);
    Pow2Add(32, 31);
    Pow2Add(16, 15);
    assert Pow2(15) == 32768;
  }

  /** Between the least and the greatest sample, in units of 1/p. */
  ghost predicate Between(mean: int, lo: int, hi: int, p: int) {
    lo * p <= mean <= hi * p
  }

  /** Rounding down to coarser units stays between whole numbers. */
  lemma Rescaled(mean: int, lo: int, hi: int, p: int, q: int)
    requires p > 0 && q > 0 && Between(mean, lo, hi, p * q)
    ensures Between(mean / q, lo, hi, p)
  {
    var m, r := mean / q, mean % q;
    assert mean == m * q + r;
    assert lo * (p * q) == (lo * p) * q && hi * (p * q) == (hi * p) * q;
    Squeeze(lo * p, m, q, r);
    Squeeze(m, hi * p, q, -r);
  }

  lemma Squeeze(a: int, b: int, q: int, r: int)
    requires r < q && 0 < q && a * q <= b * q + r
    ensures a <= b
  {
    MulAtLeast(a - b, q);
    assert (a - b) * q == a * q - b * q;
  }

  /** A truncated share of the distance never overshoots. */
  lemma Share(delta: int, count: int)
    requires count >= 1
    ensures delta >= 0 ==> 0 <= CDiv(delta, count) <= delta
    ensures delta <= 0 ==> delta <= CDiv(delta, count) <= 0
    ensures count == 1 ==> CDiv(delta, count) == delta
  {
    if delta >= 0 { DivBounds(delta, count); } else { DivBounds(-delta, count); }
  }

  lemma DivBounds(d: nat, c: nat)
    requires c >= 1
    ensures 0 <= d / c <= d && (c == 1 ==> d / c == d)
  {
    var q, r := d / c, d % c;
    assert d == q * c + r;
    NonNegative(q, c - 1);
    assert q * c == q * (c - 1) + q;
  }

  lemma NonNegative(a: nat, b: nat)
    ensures a * b >= 0
  {
  }

  /** Moving toward a sample stays between, with that sample counted in. */
  lemma Moved(mean: int, lo: int, hi: int, p: int, sample: int, mean': int)
    requires p > 0 && Between(mean, lo, hi, p)
    requires mean <= mean' <= sample * p || sample * p <= mean' <= mean
    ensures Between(mean', if sample < lo then sample else lo, if sample > hi then sample else hi, p)
  {
    if sample < lo { assert sample * p <= lo * p by { assert (lo - sample) * p >= 0; } }
    if sample > hi { assert hi * p <= sample * p by { assert (sample - hi) * p >= 0; } }
    if sample >= lo { assert lo * p <= sample * p by { assert (sample - lo) * p >= 0; } }
    if sample <= hi { assert sample * p <= hi * p by { assert (hi - sample) * p >= 0; } }
  }

  /** Rounding to the nearest whole number stays between. */
  lemma Rounded(mean: int, lo: int, hi: int, h: int)
    requires h > 0 && Between(mean, lo, hi, 2 * h)
    ensures lo <= (mean + h) / (2 * h) <= hi
  {
    var p := 2 * h;
    var m, r := (mean + h) / p, (mean + h) % p;
    assert mean + h == m * p + r;
    Squeeze(lo, m, p, r - h);
    Squeeze(m, hi, p, h - r);
  }

  /** A scaled value fits in a signed word. */
  lemma ScaledFits(x: nat, msb: nat)
    requires x < 2 * Pow2(msb) && msb <= 62
    ensures 0 <= x * Pow2(62 - msb) < SIGN
  {
    hide Pow2;
    Pow2Add(msb + 1, 62 - msb);
    Pow2Sign();
    Pow2Succ(msb);
    MulLess(x, Pow2(msb + 1), Pow2(62 - msb));
  }

  lemma Pow2Succ(k: nat)
    ensures Pow2(k + 1) == 2 * Pow2(k)
  {
  }

  lemma MulLess(x: nat, y: nat, p: nat)
    requires x < y && p > 0
    ensures 0 <= x * p < y * p
  {
    MulAtLeast(y - x, p);
    assert (y - x) * p == y * p - x * p;
  }

  function Sum(s: seq<nat>): nat {
    if s == [] then 0 else Sum(s[..|s| - 1]) + s[|s| - 1]
  }

  function Least(s: seq<nat>): nat
    requires s != []
  {
    if |s| == 1 then s[0] else var m, x := Least(s[..|s| - 1]), s[|s| - 1]; if x < m then x else m
  }

  function Greatest(s: seq<nat>): nat
    requires s != []
  {
    if |s| == 1 then s[0] else var m, x := Greatest(s[..|s| - 1]), s[|s| - 1]; if x > m then x else m
  }

  /** Least and greatest are bounds. */
  lemma {:induction false} Bounds(s: seq<nat>, i: nat)
    requires i < |s|
    ensures Least(s) <= s[i] <= Greatest(s)
  {
    if i < |s| - 1 { Bounds(s[..|s| - 1], i); }
  }

  lemma Snoc(s: seq<nat>, x: nat)
    ensures Sum(s + [x]) == Sum(s) + x
    ensures Least(s + [x]) == if s == [] || x < Least(s) then x else Least(s)
    ensures Greatest(s + [x]) == if s == [] || x > Greatest(s) then x else Greatest(s)
    ensures s != [] ==> Least(s) <= Greatest(s)
  {
    assert (s + [x])[..|s|] == s;
    if s != [] { Bounds(s, 0); }
  }

  /** The highest bit of any sample. */
  function Top(s: seq<nat>): nat {
    if s == [] || Greatest(s) == 0 then 0 else Msb(Greatest(s))
  }

  predicate Below(s: seq<nat>, bound: nat) {
    forall i :: 0 <= i < |s| ==> s[i] < bound
  }

  lemma MsbMonotone(x: nat, y: nat)
    requires 0 < x <= y
    ensures Msb(x) <= Msb(y)
  {
    hide Msb, Pow2;
    if Msb(x) > Msb(y) {
      Pow2Monotone(Msb(y) + 1, Msb(x));
      Pow2Succ(Msb(y));
    }
  }

  lemma TopSnoc(s: seq<nat>, x: nat)
    ensures Top(s + [x]) == if x != 0 && Msb(x) > Top(s) then Msb(x) else Top(s)
  {
    hide Msb, Greatest;
    Snoc(s, x);
    if s != [] && 0 < x <= Greatest(s) { MsbMonotone(x, Greatest(s)); }
    if s != [] && 0 < Greatest(s) <= x { MsbMonotone(Greatest(s), x); }
  }

  lemma {:induction false} GreatestBelow(s: seq<nat>, bound: nat)
    requires s != []
    ensures Greatest(s) < bound <==> Below(s, bound)
  {
    if |s| > 1 {
      var t := s[..|s| - 1];
      GreatestBelow(t, bound);
      assert s == t + [s[|s| - 1]];
      assert Below(s, bound) ==> Below(t, bound) && s[|s| - 1] < bound;
      assert Below(t, bound) && s[|s| - 1] < bound ==> Below(s, bound);
    }
  }

  /** The highest bit is below bit `k` exactly when every sample is below 2^k. */
  lemma TopBelow(s: seq<nat>, k: nat)
    requires k > 0
    ensures Top(s) < k <==> Below(s, Pow2(k))
  {
    hide Msb, Greatest, Pow2;
    if s != [] {
      GreatestBelow(s, Pow2(k));
      var g := Greatest(s);
      if g > 0 {
        if Msb(g) < k {
          Pow2Succ(Msb(g));
          Pow2Monotone(Msb(g) + 1, k);
        } else {
          Pow2Monotone(k, Msb(g));
        }
      }
    }
  }

  /** The two shifts that the scale of the mean determines: rounding the mean needs
      the first to be positive, and scaling a product of distances needs the second
      not to be negative.  Which they are depends on the greatest sample alone. */
  lemma ShiftsExact(s: seq<nat>)
    ensures 62 - Top(s) > 0 <==> Below(s, 0x4000_0000_0000_0000)
    ensures 62 - Top(s) - 32 >= 0 <==> Below(s, 0x8000_0000)
  {
    hide Top, Pow2;
    TopBelow(s, 62);
    TopBelow(s, 31);
    Pow2Words();
  }

  /** The least samples for which they are not. */
  lemma ShiftsWrap()
    ensures 62 - Top([0x4000_0000_0000_0000]) == 0
    ensures 62 - Top([0x8000_0000]) - 32 == -1
  {
    hide Msb, Pow2;
    Pow2Words();
    MsbOf(0x4000_0000_0000_0000, 62);
    MsbOf(0x8000_0000, 31);
  }

  lemma MsbOf(x: nat, k: nat)
    requires x == Pow2(k)
    ensures x > 0 && Msb(x) == k
  {
    hide Msb, Pow2;
    if Msb(x) < k {
      Pow2Monotone(Msb(x) + 1, k);
      Pow2Succ(Msb(x));
    } else if Msb(x) > k {
      Pow2Monotone(k, Msb(x));
    }
  }

  function Square(n: nat): nat { n * n }

  /** One unit for each sample and each sample before it. */
  function Slack(n: nat): (r: nat)
    ensures r + n == Square(n)
  {
    NonNegative(n, if n == 0 then 0 else n - 1);
    if n == 0 then 0 else n * (n - 1)
  }

  /** The scaled mean of `n` samples is off by at most `e` over `n`. */
  ghost predicate Near(mean: int, n: int, sum: int, p: int, e: int) {
    -e <= n * mean - sum * p <= e
  }

  lemma Regroup(n: int, m: int, q: int, r: int, sum: int, p: int)
    ensures q * (n * m - sum * p) == (n * (m * q + r) - sum * (p * q)) - n * r
  {
    assert n * (m * q + r) == n * (m * q) + n * r;
    assert sum * (p * q) == q * (sum * p);
    assert n * (m * q) == q * (n * m);
    assert q * (n * m - sum * p) == q * (n * m) - q * (sum * p);
  }

  /** Coarser units cost at most one unit for each sample. */
  lemma NearRescaled(mean: int, n: nat, sum: int, p: int, q: int)
    requires q >= 1 && Near(mean, n, sum, p * q, Slack(n))
    ensures Near(mean / q, n, sum, p, Square(n))
  {
    hide Slack, Square;
    var m, r := mean / q, mean % q;
    assert mean == m * q + r;
    Regroup(n, m, q, r, sum, p);
    Cost(n * m - sum * p, q, n * mean - sum * (p * q), n, r, Slack(n));
  }

  lemma Cost(x: int, q: nat, d: int, n: nat, r: nat, e: int)
    requires r < q && e >= 0 && q * x == d - n * r && -e <= d <= e
    ensures -(e + n) <= x <= e + n
  {
    NonNegative(e, q - 1);
    NonNegative(n, r);
    NonNegative(n, q - r);
    assert (e + n) * q == e + e * (q - 1) + n * r + n * (q - r);
    assert (-(e + n)) * q == -((e + n) * q);
    assert x * q == q * x;
    Squeeze(x, e + n, q, 0);
    Squeeze(-(e + n), x, q, 0);
  }

  /** What a truncated share leaves over. */
  lemma ShareRest(delta: int, n: nat)
    requires n >= 1
    ensures -(n - 1) <= delta - n * CDiv(delta, n) <= n - 1
  {
    if delta >= 0 {
      assert delta == delta / n * n + delta % n;
    } else {
      var d := -delta;
      assert d == d / n * n + d % n;
    }
  }

  lemma SlackNext(k: nat)
    ensures Slack(k + 1) == Square(k) + k
  {
    assert (k + 1) * k == k * k + k;
  }

  /** One more sample costs at most one unit for each sample before it. */
  lemma NearUpdated(mean: int, k: nat, sum: int, p: int, sample: int)
    requires Near(mean, k, sum, p, Square(k))
    ensures
      var mean' := mean + CDiv(sample * p - mean, k + 1);
      Near(mean', k + 1, sum + sample, p, Slack(k + 1))
  {
    hide Slack, Square, CDiv;
    var n, pre := k + 1, sample * p - mean;
    var t := CDiv(pre, n);
    ShareRest(pre, n);
    assert n * (mean + t) == n * mean + n * t;
    assert n * mean == k * mean + mean;
    assert (sum + sample) * p == sum * p + sample * p;
    SlackNext(k);
  }

  /** The mean in units of 2^-(62-msb): between the least and the greatest sample,
      and off by at most `e` over their number while that can be counted. */
  ghost predicate ScaledOk(mean: int, msb: nat, samples: seq<nat>, e: int) {
    && msb <= 62
    && (samples == [] ==> mean == 0)
    && (samples != [] ==> Greatest(samples) < 2 * Pow2(msb))
    && (samples != [] ==> Between(mean, Least(samples), Greatest(samples), Pow2(62 - msb)))
    && (|samples| <= INT_MAX ==> Near(mean, |samples|, Sum(samples), Pow2(62 - msb), e))
  }

  lemma RescaleKeeps(mean: nat, msb: nat, samples: seq<nat>, msb': nat)
    requires ScaledOk(mean, msb, samples, Slack(|samples|)) && msb <= msb' <= 62
    ensures ScaledOk(mean / Pow2(msb' - msb), msb', samples, Square(|samples|))
    ensures mean / Pow2(msb' - msb) >= 0 && (msb == msb' ==> mean / Pow2(msb' - msb) == mean)
  {
    hide Pow2, Between, Near, Slack, Square, Least, Greatest, Sum;
    var p, q := Pow2(62 - msb'), Pow2(msb' - msb);
    Pow2Add(62 - msb', msb' - msb);
    Pow2Monotone(msb, msb');
    Pow2Zero();
    RescaledNat(mean, q);
    if samples != [] { Rescaled(mean, Least(samples), Greatest(samples), p, q); }
    if |samples| <= INT_MAX { NearRescaled(mean, |samples|, Sum(samples), p, q); }
  }

  /** A sample in units of 2^-(62-msb). */
  function InUnits(sample: nat, msb: nat): nat
    requires msb <= 62
  {
    NonNegative(sample, Pow2(62 - msb));
    sample * Pow2(62 - msb)
  }

  lemma UpdateKeeps(mean: nat, msb: nat, samples: seq<nat>, sample: nat, count: nat)
    requires ScaledOk(mean, msb, samples, Square(|samples|)) && sample < 2 * Pow2(msb)
    requires count == if |samples| < INT_MAX then |samples| + 1 else INT_MAX
    ensures
      var pre := InUnits(sample, msb) - mean;
      && -SIGN <= pre < SIGN
      && mean + CDiv(pre, count) >= 0
      && ScaledOk(mean + CDiv(pre, count), msb, samples + [sample], Slack(|samples| + 1))
  {
    hide Pow2, Between, Near, Slack, Square, Least, Greatest, Sum, CDiv;
    var p := Pow2(62 - msb);
    var pre := InUnits(sample, msb) - mean;
    ScaledFits(sample, msb);
    Room(mean, samples, msb);
    Share(pre, count);
    Snoc(samples, sample);
    if samples != [] { Moved(mean, Least(samples), Greatest(samples), p, sample, mean + CDiv(pre, count)); }
    else { BetweenSame(sample, p); }
    if |samples| < INT_MAX { NearUpdated(mean, |samples|, Sum(samples), p, sample); }
  }

  /** The mean `m` in the units of the samples is off by at most one half and one
      p-th for each sample but the first. */
  ghost predicate Accurate(m: int, n: nat, sum: int, p: int) {
    && 2 * ((n * m - sum) * p) <= n * p + 2 * Slack(n)
    && 2 * ((sum - n * m) * p) <= n * p + 2 * Slack(n)
  }

  /** Shifts. */
  function Shl(x: nat, k: nat): nat {
    NonNegative(x, Pow2(k));
    x * Pow2(k)
  }

  function Shr(x: nat, k: nat): (r: nat)
    ensures r <= x
  {
    DivBounds(x, Pow2(k));
    x / Pow2(k)
  }

  lemma ShlShl(x: nat, j: nat, k: nat)
    ensures Shl(Shl(x, j), k) == Shl(x, j + k)
  {
    hide Pow2;
    Pow2Add(j, k);
    assert x * Pow2(j) * Pow2(k) == x * (Pow2(j) * Pow2(k));
  }

  lemma ShlAdd(x: nat, y: nat, k: nat)
    ensures Shl(x + y, k) == Shl(x, k) + Shl(y, k)
  {
    hide Pow2;
    assert (x + y) * Pow2(k) == x * Pow2(k) + y * Pow2(k);
  }

  lemma ShlMono(x: nat, y: nat, k: nat)
    requires x <= y
    ensures Shl(x, k) <= Shl(y, k) && (x < y ==> Shl(x, k) < Shl(y, k))
  {
    hide Pow2;
    ShlAdd(x, y - x, k);
    NonNegative(y - x, Pow2(k));
    if x < y { MulLess(0, y - x, Pow2(k)); }
  }

  /** Shifting down and up again never gains, and loses less than one unit. */
  lemma DownUp(x: nat, d: nat, u: nat)
    ensures Shl(Shr(x, d), d + u) <= Shl(x, u) < Shl(Shr(x, d), d + u) + Pow2(d + u)
    ensures Shl(Shr(x, d), u) <= Shl(x, u)
  {
    hide Pow2, Shl;
    var q, r := Shr(x, d), x % Pow2(d);
    assert Shl(q, d) + r == x by { ShlDef(q, d); }
    ShlAdd(Shl(q, d), r, u);
    ShlShl(q, d, u);
    ShlMono(r, Pow2(d), u);
    ShlOne(d, u);
    ShlMono(q, x, u);
  }

  lemma ShlDef(x: nat, k: nat)
    ensures Shl(x, k) == x * Pow2(k)
  {
  }

  lemma ShlOne(d: nat, u: nat)
    ensures Shl(Pow2(d), u) == Pow2(d + u) && Shl(1, d) == Pow2(d)
  {
    Pow2Add(d, u);
  }

  /** The accumulated variance in units of 2^-(62-msb), against the exact total in
      units of 2^-62: it fits in 63 bits, never exceeds the total, and its scale is
      no coarser than the total calls for. */
  ghost predicate VarianceOk(accvar: nat, msb: nat, total: nat) {
    accvar < SIGN && Shl(accvar, msb) <= total && (msb == 0 || Pow2(62 + msb) <= total)
  }

  /** The scale of a product whose fraction has `s` bits. */
  function DeltaMsb(delta: nat, s: nat): nat
    requires delta > 0
  {
    if Msb(delta) > s then Msb(delta) - s else 0
  }

  /** A product of distances, scaled up, fits in 63 bits. */
  lemma DeltaFits(delta: nat, u: nat)
    requires 0 < delta && Msb(delta) + u <= 62
    ensures Shl(delta, u) < SIGN
  {
    hide Pow2, Msb, Shl;
    var a := Msb(delta);
    Pow2Succ(a);
    ShlMono(delta, Pow2(a + 1), u);
    ShlOne(a + 1, u);
    Pow2Monotone(a + 1 + u, 63);
    Pow2Sign();
  }

  /** What the product stands for is at least its highest bit. */
  lemma DeltaLarge(delta: nat, s: nat)
    requires 0 < delta && s <= 62
    ensures Pow2(Msb(delta) + 62 - s) <= Shl(delta, 62 - s)
  {
    hide Pow2, Msb, Shl;
    ShlMono(Pow2(Msb(delta)), delta, 62 - s);
    ShlOne(Msb(delta), 62 - s);
  }

  /** The scale stays within a word while the total does not reach 2^63. */
  lemma ScaleBound(accvar: nat, msb: nat, total: nat)
    requires VarianceOk(accvar, msb, total) && total < Pow2(125)
    ensures msb <= 62
  {
    hide Pow2, Shl;
    if msb > 62 { Pow2Monotone(125, 62 + msb); }
  }

  /** The sum in units of 2^-(62-msb), against the old value and the product. */
  ghost predicate SumOk(sum: nat, msb: nat, was: nat, delta: nat, total: nat, lost: nat) {
    && sum < 2 * SIGN && Shl(sum, msb) <= total + delta
    && was + delta < Shl(sum, msb) + lost
    && (msb == 0 || Pow2(62 + msb) <= total + delta)
  }

  /** A product with a higher bit than the variance: the variance is scaled down. */
  lemma SumUp(accvar: nat, msb: nat, total: nat, delta: nat, s: nat, u: nat)
    requires VarianceOk(accvar, msb, total) && 0 < delta
    requires msb < DeltaMsb(delta, s) && u + DeltaMsb(delta, s) + s == 62
    ensures
      var dm := DeltaMsb(delta, s);
      SumOk(Shr(accvar, dm - msb) + Shl(delta, u), dm, Shl(accvar, msb), Shl(delta, 62 - s), total, Pow2(u + dm))
  {
    hide Pow2, Msb, Shl, Shr;
    var dm := DeltaMsb(delta, s);
    DeltaFits(delta, u);
    DeltaLarge(delta, s);
    DownUp(accvar, dm - msb, msb);
    ShlAdd(Shr(accvar, dm - msb), Shl(delta, u), dm);
    ShlShl(delta, u, dm);
    Pow2Monotone(dm, u + dm);
  }

  /** Otherwise the product is. */
  lemma SumDown(accvar: nat, msb: nat, total: nat, delta: nat, s: nat, u: nat)
    requires VarianceOk(accvar, msb, total) && 0 < delta
    requires DeltaMsb(delta, s) <= msb && u + DeltaMsb(delta, s) + s == 62
    ensures
      var d := msb - DeltaMsb(delta, s);
      SumOk(accvar + Shl(Shr(delta, d), u), msb, Shl(accvar, msb), Shl(delta, 62 - s), total, Pow2(u + msb))
  {
    hide Pow2, Msb, Shl, Shr;
    var d := msb - DeltaMsb(delta, s);
    DeltaFits(delta, u);
    DownUp(delta, d, 62 - s);
    DownUp(delta, d, u);
    ShlAdd(accvar, Shl(Shr(delta, d), u), msb);
    ShlShl(Shr(delta, d), u, msb);
    assert u + msb == d + (62 - s);
  }

  /** Halving a sum that has reached the top bit makes it fit again. */
  lemma Carried(sum: nat, msb: nat, was: nat, delta: nat, total: nat, lost: nat)
    requires SumOk(sum, msb, was, delta, total, lost)
    ensures sum < SIGN ==> VarianceOk(sum, msb, total + delta) && was + delta < Shl(sum, msb) + lost
    ensures sum >= SIGN ==> VarianceOk(sum / 2, msb + 1, total + delta)
    ensures was + delta < Shl(sum / 2, msb + 1) + Pow2(msb) + lost
  {
    hide Pow2, Shl;
    var h := sum / 2;
    ShlAdd(h, h, msb);
    ShlMono(2 * h, sum, msb);
    ShlMono(sum, 2 * h + 1, msb);
    ShlAdd(2 * h, 1, msb);
    ShlOne(msb, 0);
    ShlTwice(h, msb);
    if sum >= SIGN {
      Pow2Sign();
      ShlOne(63, msb);
      ShlMono(SIGN, sum, msb);
    }
  }

  lemma ShlTwice(x: nat, k: nat)
    ensures Shl(x, k + 1) == Shl(x + x, k)
  {
    hide Pow2;
    Pow2Succ(k);
    assert x * (2 * Pow2(k)) == (x + x) * Pow2(k);
  }

  /** A product `delta` whose fraction has `s` bits, added to the variance: exactly
      to the total, and to the variance less what the scaling to the common scale,
      and at most one halving, can lose. */
  ghost predicate Added(accvar: nat, msb: nat, total: nat, delta: int, s: nat, accvar': nat, msb': nat, total': nat) {
    && delta > 0 && s <= 62 && DeltaMsb(delta, s) + s <= 62
    && total' == total + Shl(delta, 62 - s)
    && var dm := DeltaMsb(delta, s);
       var common := if msb < dm then dm else msb;
       && (msb' == common || msb' == common + 1)
       && Shl(accvar, msb) + Shl(delta, 62 - s) <
          Shl(accvar', msb') + Pow2(62 - dm - s + common) + (if msb' == common then 0 else Pow2(common))
  }

  /** `n` products of distances, where no sample exceeds 2^(m+1). */
  ghost predicate Bounded(total: nat, n: nat, m: nat) {
    total <= n * Pow2(64 + 2 * m)
  }

  lemma BoundedFits(total: nat, n: nat, m: nat)
    requires Bounded(total, n, m) && n * Pow2(2 * m) < Pow2(61)
    ensures total < Pow2(125)
  {
    hide Pow2;
    Pow2Add(64, 2 * m);
    Pow2Add(64, 61);
    assert n * (Pow2(64) * Pow2(2 * m)) == (n * Pow2(2 * m)) * Pow2(64);
    MulLess(n * Pow2(2 * m), Pow2(61), Pow2(64));
  }

  /** The bound grows with the number of samples and with the scale. */
  lemma BoundedGrows(total: nat, n: nat, m: nat, n': nat, m': nat)
    requires Bounded(total, n, m) && n <= n' && m <= m'
    ensures Bounded(total, n', m')
  {
    hide Pow2;
    var p, p' := Pow2(64 + 2 * m), Pow2(64 + 2 * m');
    Pow2Monotone(64 + 2 * m, 64 + 2 * m');
    MulLeq(p, p', n);
    MulLeq(n, n', p');
  }

  /** One more product of two halves of a word. */
  lemma BoundedAdds(total: nat, n: nat, m: nat, pre: int, post: int)
    requires Bounded(total, n, m) && m <= 30 && Half(pre) && Half(post) && pre * post > 0
    ensures Bounded(total + Shl(pre * post, 2 + 2 * m), n + 1, m)
  {
    hide Pow2, Shl;
    var a, b := if pre < 0 then -pre else pre, if post < 0 then -post else post;
    MulLeq(a, 0x8000_0000, b);
    MulLeq(b, 0x8000_0000, 0x8000_0000);
    assert pre * post == a * b || pre * post == -(a * b);
    Pow2Words();
    ShlMono(pre * post, Pow2(62), 2 + 2 * m);
    ShlOne(62, 2 + 2 * m);
    assert (n + 1) * Pow2(64 + 2 * m) == n * Pow2(64 + 2 * m) + Pow2(64 + 2 * m);
  }

  lemma NoSamples()
    ensures ScaledOk(0, 0, [], Slack(0)) && VarianceOk(0, 0, 0) && Bounded(0, 0, 0) && Top([]) == 0
  {
    hide Pow2;
    NonNegative(0, Pow2(64));
  }

  class Profiler {
    var count: nat
    /** The mean, scaled so that the highest bit ever seen is bit 62. */
    var mean: nat
    var meanMsb: nat
    /** The sum of products of distances, scaled likewise. */
    var accvar: nat
    var accvarMsb: nat
    /** The samples so far, and the exact sum of the products. */
    ghost var samples: seq<nat>
    ghost var total: nat

    ghost predicate Valid()
      reads this
    {
      && ScaledOk(mean, meanMsb, samples, Slack(|samples|))
      && count == (if |samples| <= INT_MAX then |samples| else INT_MAX)
      && VarianceOk(accvar, accvarMsb, total)
      && meanMsb == Top(samples)
      && Bounded(total, |samples|, meanMsb)
    }

    /** A bound in terms of the samples alone for what the variance can take. */
    lemma VarianceFits()
      requires Valid() && |samples| * Pow2(2 * meanMsb) < Pow2(61)
      ensures total < Pow2(125)
    {
      hide Pow2, ScaledOk, VarianceOk;
      BoundedFits(total, |samples|, meanMsb);
    }

    constructor ()
      ensures Valid() && samples == []
    {
      hide ScaledOk, VarianceOk, Pow2, Top, Bounded, Slack;
      NoSamples();
      count, mean, meanMsb, samples := 0, 0, 0, [];
      accvar, accvarMsb, total := 0, 0, 0;
    }

    /** The mean moves by a truncated share of its distance from the sample, once
        there is room for the sample's highest bit.  The distances of the sample
        from the old mean and from the new are never on opposite sides, also once
        they have been cut to their high halves. */
    method UpdateMean(sample: nat) returns (pre: int, post: int)
      requires Valid() && sample < SIGN
      modifies `count, `mean, `meanMsb, `samples
      ensures Valid() && samples == old(samples) + [sample]
      ensures meanMsb == if sample != 0 && Msb(sample) > old(meanMsb) then Msb(sample) else old(meanMsb)
      ensures
        var was := old(mean) / Pow2(meanMsb - old(meanMsb));
        mean == was + CDiv(InUnits(sample, meanMsb) - was, count)
      ensures
        var was := old(mean) / Pow2(meanMsb - old(meanMsb));
        pre == HighHalf(InUnits(sample, meanMsb) - was) && post == HighHalf(InUnits(sample, meanMsb) - mean)
      ensures SameSign(pre, post) && Half(pre) && Half(post)
      ensures Bounded(total, |old(samples)|, meanMsb)
    {
      hide ScaledOk, VarianceOk, Pow2, Slack, Square, CDiv, InUnits, SameSign, Half, Msb, Top, Bounded;
      if count < INT_MAX { count := count + 1; }
      ghost var mean0, msb0 := mean, meanMsb;
      MsbFits(sample, mean, meanMsb, samples);
      if sample != 0 {
        var msb := Msb(sample);
        if meanMsb < msb {
          RescaleKeeps(mean, meanMsb, samples, msb);
          mean := mean / Pow2(msb - meanMsb);
          meanMsb := msb;
        }
      }
      RescaleKeeps(mean0, msb0, samples, meanMsb);
      UpdateKeeps(mean, meanMsb, samples, sample, count);
      var s := InUnits(sample, meanMsb);
      pre := s - mean;
      Share(pre, count);
      mean := mean + CDiv(pre, count);
      post := s - mean;
      TopSnoc(samples, sample);
      BoundedGrows(total, |samples|, msb0, |samples|, meanMsb);
      BoundedGrows(total, |samples|, msb0, |samples| + 1, meanMsb);
      samples := samples + [sample];
      SameSide(pre, post);
      pre, post := HighHalf(pre), HighHalf(post);
    }

    /** The product of the distances is added to the variance, up to what the
        shifts lose.  Nothing overflows, and what has been accumulated is never
        more than the exact sum. */
    method UpdateVariance(pre: int, post: int)
      requires Valid() && Below(samples, 0x8000_0000) && total < Pow2(125)
      requires SameSign(pre, post) && Half(pre) && Half(post)
      requires samples != [] && Bounded(total, |samples| - 1, meanMsb)
      modifies `accvar, `accvarMsb, `total
      ensures Valid() && meanMsb <= 30
      ensures pre == 0 || post == 0 ==> accvar == old(accvar) && accvarMsb == old(accvarMsb) && total == old(total)
      ensures pre != 0 && post != 0 ==> Added(old(accvar), old(accvarMsb), old(total), pre * post, 60 - 2 * meanMsb, accvar, accvarMsb, total)
    {
      hide ScaledOk, VarianceOk, SumOk, Pow2, Slack, Square, Msb, SameSign, Shl, Shr, Top, Below, Bounded;
      ShiftsExact(samples);
      if pre == 0 || post == 0 { return; }
      ProductFits(pre, post);
      ScaleBound(accvar, accvarMsb, total);
      var delta: nat := pre * post;
      var deltaShift := 2 * (30 - meanMsb);
      var deltaMsb := Msb(delta);
      deltaMsb := if deltaMsb > deltaShift then deltaMsb - deltaShift else 0;
      ghost var d, s, dm, was := delta, deltaShift, deltaMsb, Shl(accvar, accvarMsb);
      ghost var u := 62 - dm - s;
      if accvarMsb < deltaMsb {
        SumUp(accvar, accvarMsb, total, d, s, u);
        accvar := Shr(accvar, deltaMsb - accvarMsb);
        accvarMsb := deltaMsb;
      } else {
        SumDown(accvar, accvarMsb, total, d, s, u);
        delta := Shr(delta, accvarMsb - deltaMsb);
        deltaShift := deltaShift - (accvarMsb - deltaMsb);
      }
      var accvarShift := 62 - accvarMsb;
      assert accvarShift - deltaShift == u;
      accvar := accvar + Shl(delta, accvarShift - deltaShift);
      ghost var lost := Pow2(u + accvarMsb);
      Carried(accvar, accvarMsb, was, Shl(d, 62 - s), total, lost);
      BoundedAdds(total, |samples| - 1, meanMsb, pre, post);
      total := total + Shl(d, 62 - s);
      if accvar >= SIGN {
        accvar := accvar / 2;
        accvarMsb := accvarMsb + 1;
      }
    }

    /** profile_update(), while the samples are below 2^31 and the products of their
        distances sum to less than 2^63. */
    method ProfileUpdate(sample: nat)
      requires Valid() && sample < 0x8000_0000 && Below(samples, 0x8000_0000) && total < Pow2(125)
      modifies this
      ensures Valid() && samples == old(samples) + [sample] && Below(samples, 0x8000_0000)
      ensures old(meanMsb) <= meanMsb <= 30
      ensures
        var was := old(mean) / Pow2(meanMsb - old(meanMsb));
        var pre, post := HighHalf(InUnits(sample, meanMsb) - was), HighHalf(InUnits(sample, meanMsb) - mean);
        if pre == 0 || post == 0 then accvar == old(accvar) && accvarMsb == old(accvarMsb) && total == old(total)
        else Added(old(accvar), old(accvarMsb), old(total), pre * post, 60 - 2 * meanMsb, accvar, accvarMsb, total)
    {
      hide ScaledOk, VarianceOk, Pow2, Slack, Square, CDiv, InUnits, Shl, Top, Bounded;
      var pre, post := UpdateMean(sample);
      UpdateVariance(pre, post);
    }

    method ProfileMean() returns (m: nat)
      requires Valid() && Below(samples, 0x4000_0000_0000_0000)
      ensures samples == [] ==> m == 0
      ensures samples != [] ==> Least(samples) <= m <= Greatest(samples)
      ensures |samples| <= INT_MAX ==> Accurate(m, |samples|, Sum(samples), Pow2(62 - meanMsb))
      ensures meanMsb < 62 && Nearest(m, mean, Pow2(61 - meanMsb))
    {
      hide Between, Near, Accurate, Slack, Least, Greatest, Sum, Top, Below, Bounded;
      ShiftsExact(samples);
      var shift := 62 - meanMsb;
      var h := Pow2(shift - 1);
      assert Pow2(shift) == 2 * h;
      m := RoundShift(mean, h);
      if samples != [] { Rounded(mean, Least(samples), Greatest(samples), h); }
      if |samples| <= INT_MAX { NearRounded(mean, |samples|, Sum(samples), h); }
    }
  }

  lemma Pow2Words()
    ensures Pow2(31) == 0x8000_0000 && Pow2(62) == 0x4000_0000_0000_0000
  {
    assert Pow2(15) == 32768;
    assert Pow2(16) == 65536;
    Pow2Add(16, 15);
    Pow2Add(31, 31);
  }

  lemma MulLeq(x: nat, y: nat, p: nat)
    requires x <= y
    ensures 0 <= x * p <= y * p
  {
    NonNegative(y - x, p);
    NonNegative(x, p);
    assert (y - x) * p == y * p - x * p;
  }

  lemma ProductFits(pre: int, post: int)
    requires pre != 0 && post != 0 && SameSign(pre, post)
    requires Half(pre) && Half(post)
    ensures 0 < pre * post && Msb(pre * post) <= 62
  {
    hide Pow2, Msb;
    var a, b := if pre < 0 then -pre else pre, if post < 0 then -post else post;
    MulLeq(a, 0x8000_0000, b);
    MulLeq(b, 0x8000_0000, 0x8000_0000);
    assert pre * post == a * b || pre * post == -(a * b);
    Pow2Sign();
    if Msb(pre * post) > 62 { Pow2Monotone(63, Msb(pre * post)); }
  }

  /** `m` times 2h is the multiple nearest to `mean`, the upper one of two. */
  ghost predicate Nearest(m: int, mean: int, h: int) {
    m * (2 * h) - h <= mean < m * (2 * h) + h
  }

  /** To the nearest multiple of 2h. */
  function RoundShift(mean: nat, h: nat): (m: nat)
    requires h > 0
    ensures mean == 0 ==> m == 0
    ensures m * (2 * h) - h <= mean < m * (2 * h) + h
  {
    assert mean + h == (mean + h) / (2 * h) * (2 * h) + (mean + h) % (2 * h);
    DivModUnique(h, 0, h, 2 * h);
    RescaledNat(mean + h, 2 * h);
    (mean + h) / (2 * h)
  }

  lemma Pow2Zero()
    ensures Pow2(0) == 1
  {
  }

  /** The highest bit of a sample in range is one the scale can take. */
  lemma MsbFits(sample: nat, mean: nat, msb: nat, samples: seq<nat>)
    requires ScaledOk(mean, msb, samples, Slack(|samples|)) && sample < SIGN
    ensures msb <= 62 && (sample != 0 ==> Msb(sample) <= 62)
    ensures sample < 2 * Pow2(if sample != 0 && Msb(sample) > msb then Msb(sample) else msb)
  {
    hide Pow2, Slack, Between, Near, Least, Greatest, Sum;
    if sample != 0 {
      Pow2Sign();
      if Msb(sample) > 62 { Pow2Monotone(63, Msb(sample)); }
      if Msb(sample) <= msb { Pow2Monotone(Msb(sample), msb); }
    }
  }

  lemma NearRounded(mean: nat, n: nat, sum: int, h: nat)
    requires h > 0 && Near(mean, n, sum, 2 * h, Slack(n))
    ensures Accurate(RoundShift(mean, h), n, sum, 2 * h)
  {
    hide Slack;
    var p := 2 * h;
    var m, r := (mean + h) / p, (mean + h) % p;
    assert mean + h == m * p + r;
    var x, y := (n * m - sum) * p, n * mean - sum * p;
    assert x == y + n * h - n * r by {
      assert (n * m - sum) * p == n * (m * p) - sum * p;
      assert m * p == mean + h - r;
      assert n * (mean + h - r) == n * mean + n * h - n * r;
    }
    NonNegative(n, r);
    NonNegative(n, p - r);
    assert n * (p - r) == n * p - n * r && n * p == 2 * (n * h);
    assert (sum - n * m) * p == -x;
  }

  lemma BetweenSame(x: int, p: int)
    ensures Between(x * p, x, x, p)
  {
  }

  /** The mean itself fits. */
  lemma Room(mean: int, samples: seq<nat>, msb: nat)
    requires msb <= 62 && (samples == [] ==> mean == 0)
    requires samples != [] ==> Greatest(samples) < 2 * Pow2(msb) && Between(mean, Least(samples), Greatest(samples), Pow2(62 - msb))
    ensures 0 <= mean < SIGN
  {
    hide Least, Greatest;
    if samples != [] {
      ScaledFits(Greatest(samples), msb);
      NonNegative(Least(samples), Pow2(62 - msb));
    }
  }

  /** The product that is added to the variance is positive, if it is added. */
  ghost predicate SameSign(pre: int, post: int) {
    pre != 0 && post != 0 ==> pre * post > 0
  }

  /** Shifted down by half a word, rounding downwards. */
  function HighHalf(x: int): int { x / 0x1_0000_0000 }

  /** Fits in half a word. */
  predicate Half(x: int) { -0x8000_0000 <= x < 0x8000_0000 }

  /** Distances that are not on opposite sides multiply to something positive,
      unless one of them vanishes, and so do their high halves. */
  lemma SameSide(pre: int, post: int)
    requires 0 <= post <= pre < SIGN || -SIGN <= pre <= post <= 0
    ensures SameSign(pre / 0x1_0000_0000, post / 0x1_0000_0000)
    ensures Half(pre / 0x1_0000_0000) && Half(post / 0x1_0000_0000)
  {
    var a, b := pre / 0x1_0000_0000, post / 0x1_0000_0000;
    if a > 0 && b > 0 {
      MulAtLeast(a, b);
    } else if a < 0 && b < 0 {
      MulAtLeast(-a, -b);
      assert (-a) * (-b) == a * b;
    }
  }

  lemma RescaledNat(mean: nat, q: nat)
    requires q > 0
    ensures mean / q >= 0 && 0 / q == 0
  {
  }
}
