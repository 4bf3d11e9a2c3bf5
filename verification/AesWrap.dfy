/** AES key wrap over any 16-byte block cipher.  The working state is the string
    of eight-byte blocks A, R[1] to R[n]. */
module AesWrap {
  import opened Arith
  import opened CLib

  type Cipher = seq<Octet> -> seq<Octet>

  /** A cipher on pairs of blocks, and its inverse. */
  ghost predicate Inverse(enc: Cipher, dec: Cipher) {
    && (forall b :: |b| == 16 ==> |enc(b)| == 16)
    && (forall b :: |b| == 16 ==> dec(enc(b)) == b)
  }

  const IV: seq<Octet> := [0xa6, 0xa6, 0xa6, 0xa6, 0xa6, 0xa6, 0xa6, 0xa6]

  /** `s` with the bytes from `at` on replaced by `b`. */
  function Splice(s: seq<Octet>, at: nat, b: seq<Octet>): (r: seq<Octet>)
    requires at + |b| <= |s|
    ensures |r| == |s|
  {
    s[..at] + b + s[at + |b|..]
  }

  lemma SpliceSlices(s: seq<Octet>, at: nat, b: seq<Octet>, i: nat, j: nat)
    requires at + |b| <= |s| && i <= j <= |s|
    ensures j <= at || at + |b| <= i ==> Splice(s, at, b)[i..j] == s[i..j]
    ensures i == at && j == at + |b| ==> Splice(s, at, b)[i..j] == b
  {
  }

  /** Writing into a spliced part is writing into the splice. */
  lemma SpliceWithin(s: seq<Octet>, at: nat, st: seq<Octet>, k: nat, b: seq<Octet>)
    requires at + |st| <= |s| && k + |b| <= |st|
    ensures Splice(Splice(s, at, st), at + k, b) == Splice(s, at, Splice(st, k, b))
    ensures Splice(s, at, st)[at + k..at + k + |b|] == st[k..k + |b|]
  {
  }

  /** Overwriting the same place twice. */
  lemma SpliceTwice(s: seq<Octet>, at: nat, a: seq<Octet>, b: seq<Octet>)
    requires at + |a| <= |s| && |a| == |b|
    ensures Splice(Splice(s, at, a), at, b) == Splice(s, at, b)
  {
  }

  /** Taking a part out and putting it back. */
  lemma SpliceBack(s: seq<Octet>, at: nat, n: nat)
    requires at + n <= |s|
    ensures Splice(s, at, s[at..at + n]) == s
  {
  }

  lemma SplicesApart(s: seq<Octet>, i: nat, a: seq<Octet>, j: nat, b: seq<Octet>)
    requires i + |a| <= j && j + |b| <= |s|
    ensures Splice(Splice(s, i, a), j, b) == Splice(Splice(s, j, b), i, a)
  {
  }

  /** What a step adds to A. */
  type Mask = nat -> seq<Octet>

  function Xor(a: seq<Octet>, m: seq<Octet>): (r: seq<Octet>)
    requires |a| == 8
    ensures |r| == 8
  {
    if |m| != 8 then a else seq(8, k requires 0 <= k < 8 => a[k] ^ m[k])
  }

  /** Bit by bit, each byte with its own. */
  lemma XorBytes(b: seq<Octet>, m: seq<Octet>)
    requires |b| == 16 && |m| == 8
    ensures Xor(b[..8], m) == seq(8, k requires 0 <= k < 8 => b[k] ^ m[k])
  {
  }

  lemma XorBack(x: Octet, y: Octet)
    ensures (x ^ y) ^ y == x && x ^ 0 == x
  {
  }

  lemma XorTwice(a: seq<Octet>, m: seq<Octet>)
    requires |a| == 8
    ensures Xor(Xor(a, m), m) == a
  {
    forall k | 0 <= k < 8 ensures Xor(Xor(a, m), m)[k] == a[k] {
      if |m| == 8 { XorBack(a[k], m[k]); }
    }
  }

  /** The block that step `t` works on, of steps 1 to 6n. */
  function Index(n: nat, t: nat): (i: nat)
    requires 0 < n && 0 < t
    ensures 1 <= i <= n
  {
    (t - 1) % n + 1
  }

  /** One wrapping step: encrypt A with block `i`, then add the counter to A. */
  function Step(enc: Cipher, st: seq<Octet>, i: nat, m: seq<Octet>): (r: seq<Octet>)
    requires 1 <= i && 8 * i + 8 <= |st|
    ensures |r| == |st|
  {
    var b := enc(st[..8] + st[8 * i..8 * i + 8]);
    if |b| != 16 then st else Splice(Splice(st, 8 * i, b[8..]), 0, Xor(b[..8], m))
  }

  /** One unwrapping step. */
  function UnStep(dec: Cipher, st: seq<Octet>, i: nat, m: seq<Octet>): (r: seq<Octet>)
    requires 1 <= i && 8 * i + 8 <= |st|
    ensures |r| == |st|
  {
    var b := dec(Xor(st[..8], m) + st[8 * i..8 * i + 8]);
    if |b| != 16 then st else Splice(Splice(st, 8 * i, b[8..]), 0, b[..8])
  }

  lemma SetBlocks(st: seq<Octet>, i: nat, a: seq<Octet>, r: seq<Octet>)
    requires 1 <= i && 8 * i + 8 <= |st| && |a| == |r| == 8
    ensures var s := Splice(Splice(st, 8 * i, r), 0, a); s[..8] == a && s[8 * i..8 * i + 8] == r
  {
    hide Splice;
    var s := Splice(st, 8 * i, r);
    SpliceSlices(s, 0, a, 0, 8);
    SpliceSlices(s, 0, a, 8 * i, 8 * i + 8);
    SpliceSlices(st, 8 * i, r, 8 * i, 8 * i + 8);
  }

  lemma ResetBlocks(st: seq<Octet>, i: nat, a: seq<Octet>, r: seq<Octet>)
    requires 1 <= i && 8 * i + 8 <= |st| && |a| == |r| == 8
    ensures Splice(Splice(Splice(Splice(st, 8 * i, r), 0, a), 8 * i, st[8 * i..8 * i + 8]), 0, st[..8]) == st
  {
    hide Splice;
    var r', a' := st[8 * i..8 * i + 8], st[..8];
    SplicesApart(Splice(st, 8 * i, r), 0, a, 8 * i, r');
    SpliceTwice(st, 8 * i, r, r');
    SpliceBack(st, 8 * i, 8);
    SpliceTwice(st, 0, a, a');
    SpliceBack(st, 0, 8);
  }

  lemma UnStepStep(enc: Cipher, dec: Cipher, st: seq<Octet>, i: nat, m: seq<Octet>)
    requires Inverse(enc, dec) && 1 <= i && 8 * i + 8 <= |st|
    ensures UnStep(dec, Step(enc, st, i, m), i, m) == st
  {
    hide Splice, Xor;
    var p := st[..8] + st[8 * i..8 * i + 8];
    var b := enc(p);
    var s := Step(enc, st, i, m);
    SetBlocks(st, i, Xor(b[..8], m), b[8..]);
    XorTwice(b[..8], m);
    assert b[..8] + b[8..] == b;
    assert dec(Xor(s[..8], m) + s[8 * i..8 * i + 8]) == p;
    assert p[..8] == st[..8] && p[8..] == st[8 * i..8 * i + 8];
    ResetBlocks(st, i, Xor(b[..8], m), b[8..]);
  }

  /** Both directions are inverse steps. */
  lemma StepUnStep(enc: Cipher, dec: Cipher, st: seq<Octet>, i: nat, m: seq<Octet>)
    requires Inverse(dec, enc) && 1 <= i && 8 * i + 8 <= |st|
    ensures Step(enc, UnStep(dec, st, i, m), i, m) == st
  {
    hide Splice, Xor;
    var p := Xor(st[..8], m) + st[8 * i..8 * i + 8];
    var b := dec(p);
    var s := UnStep(dec, st, i, m);
    SetBlocks(st, i, b[..8], b[8..]);
    assert b[..8] + b[8..] == b;
    assert enc(s[..8] + s[8 * i..8 * i + 8]) == p;
    assert p[..8] == Xor(st[..8], m) && p[8..] == st[8 * i..8 * i + 8];
    XorTwice(st[..8], m);
    ResetBlocks(st, i, b[..8], b[8..]);
  }

  /** The first `t` steps of wrapping `n` blocks. */
  function Steps(enc: Cipher, st: seq<Octet>, n: nat, mask: Mask, t: nat): (r: seq<Octet>)
    requires |st| == 8 * n + 8 && (t > 0 ==> n > 0)
    ensures |r| == |st|
  {
    if t == 0 then st else Step(enc, Steps(enc, st, n, mask, t - 1), Index(n, t), mask(t))
  }

  /** Steps `t` down to 1 of unwrapping. */
  function UnSteps(dec: Cipher, st: seq<Octet>, n: nat, mask: Mask, t: nat): (r: seq<Octet>)
    requires |st| == 8 * n + 8 && (t > 0 ==> n > 0)
    ensures |r| == |st|
    decreases t
  {
    if t == 0 then st else UnSteps(dec, UnStep(dec, st, Index(n, t), mask(t)), n, mask, t - 1)
  }

  lemma {:induction false} UnStepsSteps(enc: Cipher, dec: Cipher, st: seq<Octet>, n: nat, mask: Mask, t: nat)
    requires Inverse(enc, dec) && |st| == 8 * n + 8 && (t > 0 ==> n > 0)
    ensures UnSteps(dec, Steps(enc, st, n, mask, t), n, mask, t) == st
  {
    hide Inverse, Step, UnStep, Index;
    if t > 0 {
      UnStepStep(enc, dec, Steps(enc, st, n, mask, t - 1), Index(n, t), mask(t));
      UnStepsSteps(enc, dec, st, n, mask, t - 1);
    }
  }

  lemma {:induction false} StepsUnSteps(enc: Cipher, dec: Cipher, st: seq<Octet>, n: nat, mask: Mask, t: nat)
    requires Inverse(dec, enc) && |st| == 8 * n + 8 && (t > 0 ==> n > 0)
    ensures Steps(enc, UnSteps(dec, st, n, mask, t), n, mask, t) == st
    decreases t
  {
    hide Inverse, Step, UnStep, Index;
    if t > 0 {
      var s := UnStep(dec, st, Index(n, t), mask(t));
      StepsUnSteps(enc, dec, s, n, mask, t - 1);
      StepUnStep(enc, dec, st, Index(n, t), mask(t));
    }
  }

  function Wrap(enc: Cipher, n: nat, mask: Mask, data: seq<Octet>): (r: seq<Octet>)
    requires |data| == 8 * n
    ensures |r| == 8 * n + 8
  {
    Steps(enc, IV + data, n, mask, 6 * n)
  }

  /** The blocks recovered, A first. */
  function Unwrapped(dec: Cipher, n: nat, mask: Mask, c: seq<Octet>): (r: seq<Octet>)
    requires |c| == 8 * n + 8
    ensures |r| == 8 * n + 8
  {
    UnSteps(dec, c, n, mask, 6 * n)
  }

  /** Unwrapping what was wrapped recovers the data and finds the check value
      intact. */
  lemma UnwrapWrap(enc: Cipher, dec: Cipher, n: nat, mask: Mask, data: seq<Octet>)
    requires Inverse(enc, dec) && |data| == 8 * n
    ensures Unwrapped(dec, n, mask, Wrap(enc, n, mask, data)) == IV + data
  {
    hide Inverse, Steps, UnSteps;
    UnStepsSteps(enc, dec, IV + data, n, mask, 6 * n);
  }

  /** The check value is intact exactly for what wrapping produces, and then the
      data is what was wrapped. */
  lemma UnwrapAccepts(enc: Cipher, dec: Cipher, n: nat, mask: Mask, c: seq<Octet>)
    requires Inverse(enc, dec) && Inverse(dec, enc) && |c| == 8 * n + 8
    ensures Unwrapped(dec, n, mask, c)[..8] == IV <==> exists data :: |data| == 8 * n && Wrap(enc, n, mask, data) == c
    ensures Unwrapped(dec, n, mask, c)[..8] == IV ==> Wrap(enc, n, mask, Unwrapped(dec, n, mask, c)[8..]) == c
  {
    hide Inverse, Steps, UnSteps;
    var s := Unwrapped(dec, n, mask, c);
    if s[..8] == IV {
      assert s == IV + s[8..];
      StepsUnSteps(enc, dec, c, n, mask, 6 * n);
    }
    forall data | |data| == 8 * n && Wrap(enc, n, mask, data) == c ensures s[..8] == IV {
      UnwrapWrap(enc, dec, n, mask, data);
    }
  }

  /** The step number as a big-endian 64-bit number, which RFC 3394 adds to A. */
  function Counter64(t: nat): seq<Octet> {
    [Low8(t / 0x100_0000_0000_0000), Low8(t / 0x1_0000_0000_0000), Low8(t / 0x100_0000_0000), Low8(t / 0x1_0000_0000),
     Low8(t / 0x100_0000), Low8(t / 0x1_0000), Low8(t / 0x100), Low8(t)]
  }

  /** The one byte of it that is added here. */
  function Counter8(t: nat): seq<Octet> { [0, 0, 0, 0, 0, 0, 0, Low8(t)] }

  function Low8(t: nat): (b: Octet) { (t % 256) as Octet }

  lemma Low8Value(t: nat)
    ensures Low8(t) as int == t % 256
  {
    OctetValue(t % 256);
  }

  lemma Low8Zero(t: nat)
    requires t < 256
    ensures Low8(t) == 0 <==> t == 0
  {
  }

  /** The byte-wide counter is the standard's up to forty-two blocks, and no
      further. */
  lemma CounterAgrees(n: nat)
    ensures (forall t :: 1 <= t <= 6 * n ==> Counter8(t) == Counter64(t)) <==> n <= 42
  {
    hide Low8;
    Low8Zero(0);
    Low8Zero(1);
    if n <= 42 {
      forall t | 1 <= t <= 6 * n ensures Counter8(t) == Counter64(t) {
        assert t / 0x100 == 0 && t / 0x1_0000 == 0 && t / 0x100_0000 == 0 && t / 0x1_0000_0000 == 0;
        assert t / 0x100_0000_0000 == 0 && t / 0x1_0000_0000_0000 == 0 && t / 0x100_0000_0000_0000 == 0;
      }
    } else {
      assert Counter8(256)[6] == 0 && Counter64(256)[6] == Low8(1);
      assert 256 <= 6 * n;
    }
  }

  /** Wrapping depends on the counter only at the steps it makes. */
  lemma {:induction false} SameCounters(enc: Cipher, st: seq<Octet>, n: nat, a: Mask, b: Mask, t: nat)
    requires |st| == 8 * n + 8 && (t > 0 ==> n > 0)
    requires forall k :: 1 <= k <= t ==> a(k) == b(k)
    ensures Steps(enc, st, n, a, t) == Steps(enc, st, n, b, t)
  {
    if t > 0 { SameCounters(enc, st, n, a, b, t - 1); }
  }

  // ------------------------------------------------------------------------
  // The standard in its own terms
  // ------------------------------------------------------------------------

  /** The number that bytes stand for, the first one the most significant. */
  function BigEndian(b: seq<Octet>): nat {
    if b == [] then 0 else 256 * BigEndian(b[..|b| - 1]) + b[|b| - 1] as int
  }

  lemma {:induction false} BigEndianUnique(a: seq<Octet>, b: seq<Octet>)
    requires |a| == |b| && BigEndian(a) == BigEndian(b)
    ensures a == b
  {
    if a != [] {
      var x, y := a[|a| - 1], b[|b| - 1];
      Quotient256(BigEndian(a[..|a| - 1]), x as int, BigEndian(b[..|b| - 1]), y as int);
      SameOctet(x, y);
      BigEndianUnique(a[..|a| - 1], b[..|b| - 1]);
      assert a == a[..|a| - 1] + [x] && b == b[..|b| - 1] + [y];
    }
  }

  lemma Quotient256(p: nat, x: nat, q: nat, y: nat)
    requires x < 256 && y < 256 && 256 * p + x == 256 * q + y
    ensures p == q && x == y
  {
  }

  lemma SameOctet(x: Octet, y: Octet)
    requires x as int == y as int
    ensures x == y
  {
  }

  lemma DigitsDown(t: nat, p: nat)
    requires p > 0
    ensures t / p == 256 * (t / (256 * p)) + t / p % 256
  {
    var q, r := t / p, t % p;
    assert t == q * p + r;
    var a, b := q / 256, q % 256;
    assert q == 256 * a + b;
    MulAtLeast(255 - b + 1, p);
    assert (256 * p) * a == 256 * (a * p);
    assert t == a * (256 * p) + (b * p + r) by { assert q * p == 256 * (a * p) + b * p; }
    assert 0 <= b * p + r < 256 * p by {
      assert (256 - b) * p == 256 * p - b * p;
      assert b * p >= 0;
    }
    DivModUnique(t, a, b * p + r, 256 * p);
  }

  /** The eight bytes of the 64-bit counter are those of the step number. */
  lemma Counter64Value(t: nat)
    requires t < WORD
    ensures |Counter64(t)| == 8 && BigEndian(Counter64(t)) == t
  {
    hide Low8;
    var c := Counter64(t);
    CounterDigits(t);
    assert c[..8] == c && c[..1][..0] == [] && BigEndian([]) == 0;
    assert c[..2][..1] == c[..1] && c[..3][..2] == c[..2] && c[..4][..3] == c[..3] && c[..5][..4] == c[..4];
    assert c[..6][..5] == c[..5] && c[..7][..6] == c[..6] && c[..8][..7] == c[..7];
    assert BigEndian(c[..1]) == t / 0x100_0000_0000_0000;
    assert BigEndian(c[..2]) == t / 0x1_0000_0000_0000;
    assert BigEndian(c[..3]) == t / 0x100_0000_0000;
    assert BigEndian(c[..4]) == t / 0x1_0000_0000;
    assert BigEndian(c[..5]) == t / 0x100_0000;
    assert BigEndian(c[..6]) == t / 0x1_0000;
    assert BigEndian(c[..7]) == t / 0x100;
  }

  lemma CounterDigits(t: nat)
    requires t < WORD
    ensures var c := Counter64(t);
      && c[0] as int == t / 0x100_0000_0000_0000
      && c[1] as int + 256 * (t / 0x100_0000_0000_0000) == t / 0x1_0000_0000_0000
      && c[2] as int + 256 * (t / 0x1_0000_0000_0000) == t / 0x100_0000_0000
      && c[3] as int + 256 * (t / 0x100_0000_0000) == t / 0x1_0000_0000
      && c[4] as int + 256 * (t / 0x1_0000_0000) == t / 0x100_0000
      && c[5] as int + 256 * (t / 0x100_0000) == t / 0x1_0000
      && c[6] as int + 256 * (t / 0x1_0000) == t / 0x100
      && c[7] as int + 256 * (t / 0x100) == t
  {
    hide Low8;
    TopDigit(t);
    OneDigit(t, 0x1_0000_0000_0000, 0x100_0000_0000_0000);
    OneDigit(t, 0x100_0000_0000, 0x1_0000_0000_0000);
    OneDigit(t, 0x1_0000_0000, 0x100_0000_0000);
    OneDigit(t, 0x100_0000, 0x1_0000_0000);
    OneDigit(t, 0x1_0000, 0x100_0000);
    OneDigit(t, 0x100, 0x1_0000);
    OneDigit(t, 1, 0x100);
  }

  lemma TopDigit(t: nat)
    requires t < WORD
    ensures Low8(t / 0x100_0000_0000_0000) as int == t / 0x100_0000_0000_0000
  {
    hide Low8;
    Low8Value(t / 0x100_0000_0000_0000);
  }

  lemma OneDigit(t: nat, p: nat, q: nat)
    requires p > 0 && q == 256 * p
    ensures Low8(t / p) as int + 256 * (t / q) == t / p
  {
    hide Low8;
    Low8Value(t / p);
    DigitsDown(t, p);
  }

  /** The integrity check register and the registers of RFC 3394, section 2.2.1. */
  datatype Registers = Registers(a: seq<Octet>, r: seq<seq<Octet>>)

  ghost predicate RegistersOk(s: Registers) {
    |s.a| == 8 && forall i :: 0 <= i < |s.r| ==> |s.r[i]| == 8
  }

  /** The eight bytes that read as the number `t`. */
  ghost function Number64(t: nat): (b: seq<Octet>)
    requires t < WORD
    ensures |b| == 8 && BigEndian(b) == t
  {
    Counter64Value(t);
    var b :| |b| == 8 && BigEndian(b) == t;
    b
  }

  /** B = AES(K, A | R[i]);  A = MSB(64, B) ^ t;  R[i] = LSB(64, B). */
  ghost function Cell(enc: Cipher, s: Registers, i: nat, t: nat): (r: Registers)
    requires BlockCipher(enc) && RegistersOk(s) && 1 <= i <= |s.r| && t < WORD
    ensures RegistersOk(r) && |r.r| == |s.r|
  {
    var b := enc(s.a + s.r[i - 1]);
    Registers(seq(8, k requires 0 <= k < 8 => b[k] ^ Number64(t)[k]), s.r[i - 1 := b[8..]])
  }

  /** For i = 1 to m, in a round before which there were `base` steps: t = base + i. */
  ghost function Round(enc: Cipher, s: Registers, base: nat, m: nat): (r: Registers)
    requires BlockCipher(enc) && RegistersOk(s) && m <= |s.r| && base + m < WORD
    ensures RegistersOk(r) && |r.r| == |s.r|
  {
    if m == 0 then s else Cell(enc, Round(enc, s, base, m - 1), m, base + m)
  }

  /** For j = 0 to k - 1, with n * j steps before round j. */
  ghost function Rounds(enc: Cipher, s: Registers, k: nat): (r: Registers)
    requires BlockCipher(enc) && RegistersOk(s) && |s.r| * k < WORD
    ensures RegistersOk(r) && |r.r| == |s.r|
  {
    if k == 0 then s
    else
      RoundsRoom(|s.r|, k);
      Round(enc, Rounds(enc, s, k - 1), |s.r| * (k - 1), |s.r|)
  }

  lemma RoundsRoom(n: nat, k: nat)
    requires k > 0
    ensures n * (k - 1) + n == n * k && n * (k - 1) >= 0 && n * (k - 1) <= n * k
  {
  }

  /** The registers one after the other. */
  ghost function Output(s: Registers): (b: seq<Octet>)
    requires RegistersOk(s)
    ensures |b| == 8 * |s.r| + 8
  {
    seq(8 * |s.r| + 8, k requires 0 <= k < 8 * |s.r| + 8 => if k < 8 then s.a[k] else s.r[k / 8 - 1][k % 8])
  }

  ghost function Inputs(n: nat, data: seq<Octet>): (s: Registers)
    requires |data| == 8 * n
    ensures RegistersOk(s) && |s.r| == n
  {
    Registers(seq(8, _ => 0xa6), seq(n, i requires 0 <= i < n => data[8 * i..8 * i + 8]))
  }

  /** Key wrap as RFC 3394 has it. */
  ghost function StandardWrap(enc: Cipher, n: nat, data: seq<Octet>): (c: seq<Octet>)
    requires BlockCipher(enc) && |data| == 8 * n && 6 * n < WORD
    ensures |c| == 8 * n + 8
  {
    Output(Rounds(enc, Inputs(n, data), 6))
  }

  /** The working string and the registers hold the same. */
  ghost predicate Same(st: seq<Octet>, s: Registers) {
    && RegistersOk(s) && |st| == 8 * |s.r| + 8 && st[..8] == s.a
    && forall i :: 0 <= i < |s.r| ==> st[8 * i + 8..8 * i + 16] == s.r[i]
  }

  lemma SameCell(enc: Cipher, st: seq<Octet>, s: Registers, i: nat, t: nat)
    requires BlockCipher(enc) && Same(st, s) && 1 <= i <= |s.r| && t < WORD
    ensures Same(Step(enc, st, i, Counter64(t)), Cell(enc, s, i, t))
  {
    hide Splice, Xor, Counter64, BigEndian;
    Counter64Value(t);
    BigEndianUnique(Counter64(t), Number64(t));
    assert st[8 * i..8 * i + 8] == s.r[i - 1] by { assert 8 * (i - 1) + 8 == 8 * i; }
    var b := enc(s.a + s.r[i - 1]);
    var a := Xor(b[..8], Counter64(t));
    XorBytes(b, Counter64(t));
    SetBlocks(st, i, a, b[8..]);
    var st' := Splice(Splice(st, 8 * i, b[8..]), 0, a);
    forall k | 0 <= k < |s.r| && k != i - 1 ensures st'[8 * k + 8..8 * k + 16] == s.r[k] {
      SpliceSlices(Splice(st, 8 * i, b[8..]), 0, a, 8 * k + 8, 8 * k + 16);
      SpliceSlices(st, 8 * i, b[8..], 8 * k + 8, 8 * k + 16);
    }
  }

  lemma {:induction false} SameRound(enc: Cipher, st: seq<Octet>, s: Registers, n: nat, j: nat, base: nat, m: nat)
    requires BlockCipher(enc) && RegistersOk(s) && |s.r| == n && m <= n && base + m < WORD && |st| == 8 * n + 8
    requires base == n * j && (base > 0 ==> n > 0) && Same(Steps(enc, st, n, Counter64, base), s)
    ensures Same(Steps(enc, st, n, Counter64, base + m), Round(enc, s, base, m))
  {
    hide Same, Step, Cell, Index, RegistersOk, BlockCipher, Steps, Round;
    RoundOne(enc, s, base, m);
    if m > 0 {
      SameRound(enc, st, s, n, j, base, m - 1);
      StepNumber(n, j, m);
      StepsOne(enc, st, n, base + m, m);
      SameCell(enc, Steps(enc, st, n, Counter64, base + m - 1), Round(enc, s, base, m - 1), m, base + m);
    }
  }

  lemma RoundOne(enc: Cipher, s: Registers, base: nat, m: nat)
    requires BlockCipher(enc) && RegistersOk(s) && m <= |s.r| && base + m < WORD
    ensures m == 0 ==> Round(enc, s, base, m) == s
    ensures m > 0 ==> Round(enc, s, base, m) == Cell(enc, Round(enc, s, base, m - 1), m, base + m)
  {
    hide Cell, RegistersOk, BlockCipher;
  }

  lemma StepsOne(enc: Cipher, st: seq<Octet>, n: nat, t: nat, i: nat)
    requires |st| == 8 * n + 8 && n > 0 && t > 0 && Index(n, t) == i
    ensures Steps(enc, st, n, Counter64, t) == Step(enc, Steps(enc, st, n, Counter64, t - 1), i, Counter64(t))
  {
    hide Step, Index, Counter64;
  }

  lemma {:induction false} SameRounds(enc: Cipher, st: seq<Octet>, s: Registers, n: nat, k: nat, t: nat)
    requires BlockCipher(enc) && Same(st, s) && |s.r| == n && t == n * k < WORD && (t > 0 ==> n > 0) && |st| == 8 * n + 8
    ensures RegistersOk(s) && Same(Steps(enc, st, n, Counter64, t), Rounds(enc, s, k))
  {
    hide Same, Step, Cell, Round, RegistersOk, BlockCipher, Steps;
    SameSizes(st, s);
    if k > 0 {
      RoundsRoom(n, k);
      var t' := n * (k - 1);
      SameRounds(enc, st, s, n, k - 1, t');
      SameRound(enc, st, Rounds(enc, s, k - 1), n, k - 1, t', n);
    } else {
      NoSteps(enc, st, n);
    }
  }

  lemma NoSteps(enc: Cipher, st: seq<Octet>, n: nat)
    requires |st| == 8 * n + 8
    ensures Steps(enc, st, n, Counter64, 0) == st
  {
  }

  lemma SameSizes(st: seq<Octet>, s: Registers)
    requires Same(st, s)
    ensures RegistersOk(s) && |st| == 8 * |s.r| + 8
  {
  }

  lemma SameOutput(st: seq<Octet>, s: Registers)
    requires Same(st, s)
    ensures st == Output(s)
  {
    forall k | 0 <= k < |st| ensures st[k] == Output(s)[k] {
      if k < 8 {
        assert st[..8][k] == st[k];
      } else {
        var i := k / 8 - 1;
        assert st[8 * i + 8..8 * i + 16][k % 8] == st[k];
      }
    }
  }

  lemma SameInputs(n: nat, data: seq<Octet>)
    requires |data| == 8 * n
    ensures Same(IV + data, Inputs(n, data))
  {
    var st, s := IV + data, Inputs(n, data);
    assert st[..8] == IV == s.a;
    forall i | 0 <= i < n ensures st[8 * i + 8..8 * i + 16] == s.r[i] {
    }
  }

  /** With the full counter, the algorithm here is the standard's. */
  lemma WrapIs3394(enc: Cipher, n: nat, data: seq<Octet>)
    requires BlockCipher(enc) && |data| == 8 * n && 6 * n < WORD
    ensures Wrap(enc, n, Counter64, data) == StandardWrap(enc, n, data)
  {
    hide Steps, Rounds, Same, Output, Inputs, BlockCipher, Counter64;
    SameInputs(n, data);
    assert n * 6 == 6 * n;
    SameRounds(enc, IV + data, Inputs(n, data), n, 6, 6 * n);
    SameOutput(Steps(enc, IV + data, n, Counter64, 6 * n), Rounds(enc, Inputs(n, data), 6));
  }

  lemma WrapIsStandard(enc: Cipher, n: nat, data: seq<Octet>)
    requires BlockCipher(enc) && |data| == 8 * n && n <= 42
    ensures Wrap(enc, n, Counter8, data) == StandardWrap(enc, n, data)
  {
    hide Counter8, Counter64, BlockCipher, StandardWrap;
    CounterAgrees(n);
    SameCounters(enc, IV + data, n, Counter8, Counter64, 6 * n);
    WrapIs3394(enc, n, data);
  }

  // ------------------------------------------------------------------------
  // Beyond forty-two blocks
  // ------------------------------------------------------------------------

  /** The cipher that changes nothing: under it A collects the counters. */
  function Plain(b: seq<Octet>): seq<Octet> { b }

  function Collected(a: seq<Octet>, mask: Mask, t: nat): (r: seq<Octet>)
    requires |a| == 8
    ensures |r| == 8
  {
    if t == 0 then a else Xor(Collected(a, mask, t - 1), mask(t))
  }

  lemma {:induction false} PlainSteps(st: seq<Octet>, n: nat, mask: Mask, t: nat)
    requires |st| == 8 * n + 8 && (t > 0 ==> n > 0)
    ensures Steps(Plain, st, n, mask, t)[..8] == Collected(st[..8], mask, t)
  {
    hide Splice, Xor, Index;
    if t > 0 {
      PlainSteps(st, n, mask, t - 1);
      var s, i := Steps(Plain, st, n, mask, t - 1), Index(n, t);
      var b := s[..8] + s[8 * i..8 * i + 8];
      assert b[..8] == s[..8];
      SetBlocks(s, i, Xor(b[..8], mask(t)), b[8..]);
    }
  }

  /** What byte `j` of the 64-bit counter counts in. */
  function Place(j: nat): (p: nat)
    requires j < 7
    ensures p >= 256 && p % 2 == 0
  {
    match j
    case 0 => 0x100_0000_0000_0000
    case 1 => 0x1_0000_0000_0000
    case 2 => 0x100_0000_0000
    case 3 => 0x1_0000_0000
    case 4 => 0x100_0000
    case 5 => 0x1_0000
    case 6 => 0x100
  }

  /** An even number is no further from the next multiple than its successor. */
  lemma EvenQuotient(t: nat, p: nat)
    requires p > 0 && p % 2 == 0 && t % 2 == 0
    ensures (t + 1) / p == t / p
  {
    var q, r, h := t / p, t % p, p / 2;
    assert t == q * p + r && p == 2 * h;
    assert q * p == 2 * (q * h);
    assert r % 2 == 0;
    DivModUnique(t + 1, q, r + 1, p);
  }

  lemma XorCancels(x: Octet, y: Octet)
    ensures x ^ 0 == x && 0 ^ y == y && y ^ y == 0 && (x ^ y) ^ y == x
    ensures x ^ y == x <==> y == 0
  {
  }

  /** The values of one byte of the counter, up to step `t`, cancel in runs of even
      length and leave the last one after an even number of steps. */
  lemma {:induction false} CollectedByte(a: seq<Octet>, t: nat, j: nat)
    requires |a| == 8 && j < 7
    ensures Collected(a, Counter64, t)[j] == a[j] ^ (if t % 2 == 0 then Low8(t / Place(j)) else 0)
  {
    hide Low8, Place, Counter64, Xor;
    if t == 0 {
      Low8Zero(0);
      XorCancels(a[j], 0);
    } else {
      CollectedByte(a, t - 1, j);
      CounterByte(t, j);
      XorByte(Collected(a, Counter64, t - 1), Counter64(t), j);
      XorCancels(a[j], Low8(t / Place(j)));
      if t % 2 == 1 {
        EvenQuotient(t - 1, Place(j));
      }
    }
  }

  lemma XorByte(a: seq<Octet>, m: seq<Octet>, j: nat)
    requires |a| == |m| == 8 && j < 8
    ensures Xor(a, m)[j] == a[j] ^ m[j]
  {
  }

  lemma CounterByte(t: nat, j: nat)
    requires j < 7
    ensures |Counter64(t)| == 8 && Counter64(t)[j] == Low8(t / Place(j))
  {
  }

  /** The byte-wide counter leaves every other byte of A alone. */
  lemma {:induction false} CollectedNarrow(a: seq<Octet>, t: nat, j: nat)
    requires |a| == 8 && j < 7
    ensures Collected(a, Counter8, t)[j] == a[j]
  {
    hide Low8;
    if t > 0 {
      CollectedNarrow(a, t - 1, j);
      XorCancels(a[j], 0);
    }
  }

  /** A number over 255 has a digit other than its last. */
  lemma HighDigit(t: nat) returns (j: nat)
    requires 256 <= t < WORD
    ensures j < 7 && Low8(t / Place(j)) != 0
  {
    hide Low8;
    j := if t < 0x1_0000 then 6 else if t < 0x100_0000 then 5 else if t < 0x1_0000_0000 then 4
         else if t < 0x100_0000_0000 then 3 else if t < 0x1_0000_0000_0000 then 2
         else if t < 0x100_0000_0000_0000 then 1 else 0;
    Low8Zero(t / Place(j));
  }

  lemma CollectedDiffer(t: nat)
    requires 256 <= t < WORD && t % 2 == 0
    ensures Collected(IV, Counter8, t) != Collected(IV, Counter64, t)
  {
    hide Collected, Counter8, Counter64, Place, Low8;
    var j := HighDigit(t);
    CollectedByte(IV, t, j);
    CollectedNarrow(IV, t, j);
    XorCancels(IV[j], Low8(t / Place(j)));
  }

  /** Under the cipher that changes nothing, the two counters give different results
      for every number of blocks beyond forty-two, whatever the data. */
  lemma WrapDiffers(n: nat, data: seq<Octet>)
    requires |data| == 8 * n && n > 42 && 6 * n < WORD
    ensures Wrap(Plain, n, Counter8, data) != Wrap(Plain, n, Counter64, data)
  {
    hide Steps, Collected, Counter8, Counter64, Place, Low8;
    var t := 6 * n;
    var st := IV + data;
    assert st[..8] == IV;
    PlainSteps(st, n, Counter8, t);
    PlainSteps(st, n, Counter64, t);
    CollectedDiffer(t);
  }

  /** Wrapping is RFC 3394's, for every block cipher and all data, if and only if
      there are at most forty-two blocks. */
  lemma WrapStandardExactly(n: nat)
    requires 6 * n < WORD
    ensures (forall enc: Cipher, data: seq<Octet> :: BlockCipher(enc) && |data| == 8 * n ==>
               Wrap(enc, n, Counter8, data) == StandardWrap(enc, n, data))
       <==> n <= 42
  {
    hide Wrap, Counter8, Counter64, StandardWrap;
    if n <= 42 {
      forall enc: Cipher, data: seq<Octet> | BlockCipher(enc) && |data| == 8 * n
        ensures Wrap(enc, n, Counter8, data) == StandardWrap(enc, n, data)
      {
        WrapIsStandard(enc, n, data);
      }
    } else {
      var data := seq(8 * n, _ => 0 as Octet);
      assert BlockCipher(Plain);
      WrapDiffers(n, data);
      WrapIs3394(Plain, n, data);
    }
  }

  /** Only the last byte of A is touched. */
  lemma XorCounter8(a: seq<Octet>, t: nat)
    requires |a| == 8
    ensures Xor(a, Counter8(t)) == a[7 := a[7] ^ Low8(t)]
  {
    hide Low8;
    forall k | 0 <= k < 7 ensures Xor(a, Counter8(t))[k] == a[k] {
      XorBack(a[k], 0);
    }
  }

  ghost predicate BlockCipher(c: Cipher) {
    forall b :: |b| == 16 ==> |c(b)| == 16
  }

  method WriteAt(m: array<Octet>, at: nat, b: seq<Octet>)
    requires at + |b| <= m.Length
    modifies m
    ensures m[..] == Splice(old(m[..]), at, b)
  {
    forall k | 0 <= k < |b| { m[at + k] := b[k]; }
  }

  lemma StepNumber(n: nat, j: nat, i: nat)
    requires 1 <= i <= n
    ensures Index(n, n * j + i) == i
  {
    DivModUnique(n * j + i - 1, j, i - 1, n);
  }

  /** One pass through the body of the wrapping loop. */
  method WrapStep(enc: Cipher, m: array<Octet>, dest: nat, n: nat, i: nat, t: nat, ghost m0: seq<Octet>, ghost st: seq<Octet>)
    requires BlockCipher(enc) && 1 <= i <= n && |st| == 8 * n + 8 && dest + |st| <= |m0|
    requires m[..] == Splice(m0, dest, st)
    modifies m
    ensures m[..] == Splice(m0, dest, Step(enc, st, i, Counter8(t)))
  {
    hide Splice, Xor, Counter8, Low8;
    var r := dest + 8 * i;
    SpliceWithin(m0, dest, st, 0, st[..8]);
    SpliceWithin(m0, dest, st, 8 * i, st[8 * i..8 * i + 8]);
    var b := m[dest..dest + 8] + m[r..r + 8];
    b := enc(b);
    XorCounter8(b[..8], t);
    var a := b[..8][7 := b[7] ^ Low8(t)];
    WriteAt(m, dest, a);
    SpliceWithin(m0, dest, st, 0, a);
    WriteAt(m, r, b[8..]);
    SpliceWithin(m0, dest, Splice(st, 0, a), 8 * i, b[8..]);
    SplicesApart(st, 0, a, 8 * i, b[8..]);
  }

  /** The source as it stands once the check value has been written. */
  function Clobbered(s: seq<Octet>, dest: nat): (r: seq<Octet>)
    requires dest + 8 <= |s|
    ensures |r| == |s|
  {
    Splice(s, dest, IV)
  }

  /** Source and destination may overlap in any way, but what is wrapped is the
      source after the check value has been written to the destination. */
  method AesWrap(enc: Cipher, m: array<Octet>, src: nat, dest: nat, n: nat, memory: bool) returns (rc: int)
    requires BlockCipher(enc) && src + 8 * n <= m.Length && dest + 8 * n + 8 <= m.Length
    modifies m
    ensures !memory ==> rc == -1 && m[..] == old(m[..])
    ensures memory ==> rc == 0
    ensures memory ==>
      m[..] == Splice(old(m[..]), dest, Wrap(enc, n, Counter8, Clobbered(old(m[..]), dest)[src..src + 8 * n]))
  {
    hide Splice, Step, BlockCipher, Counter8, Index;
    if !memory { return -1; }
    ghost var m0 := m[..];
    WriteAt(m, dest, IV);
    ghost var st := IV + m[src..src + 8 * n];
    ghost var m1 := m[..];
    WriteAt(m, dest + 8, m[src..src + 8 * n]);
    SetUp(m0, dest, m1[src..src + 8 * n]);
    for j := 0 to 6
      invariant m[..] == Splice(m0, dest, Steps(enc, st, n, Counter8, n * j))
    {
      for i := 1 to n + 1
        invariant m[..] == Splice(m0, dest, Steps(enc, st, n, Counter8, n * j + i - 1))
      {
        StepNumber(n, j, i);
        WrapStep(enc, m, dest, n, i, n * j + i, m0, Steps(enc, st, n, Counter8, n * j + i - 1));
      }
      assert n * j + n == n * (j + 1);
    }
    assert n * 6 == 6 * n;
    return 0;
  }

  lemma SetUp(s: seq<Octet>, dest: nat, data: seq<Octet>)
    requires dest + 8 + |data| <= |s|
    ensures Splice(Splice(s, dest, IV), dest + 8, data) == Splice(s, dest, IV + data)
  {
  }

  /** Wrapping is right exactly when the check value overwrites no byte of the
      source, or only bytes equal to it. */
  lemma WrapRight(enc: Cipher, dec: Cipher, s: seq<Octet>, src: nat, dest: nat, n: nat)
    requires Inverse(enc, dec) && src + 8 * n <= |s| && dest + 8 <= |s|
    ensures Wrap(enc, n, Counter8, Clobbered(s, dest)[src..src + 8 * n]) == Wrap(enc, n, Counter8, s[src..src + 8 * n])
       <==> forall k :: src <= k < src + 8 * n && dest <= k < dest + 8 ==> s[k] == 0xa6
  {
    hide Inverse, Wrap, Unwrapped;
    var a, b := Clobbered(s, dest)[src..src + 8 * n], s[src..src + 8 * n];
    UnwrapWrap(enc, dec, n, Counter8, a);
    UnwrapWrap(enc, dec, n, Counter8, b);
    ClobberedSame(s, src, dest, 8 * n);
    if Wrap(enc, n, Counter8, a) == Wrap(enc, n, Counter8, b) {
      assert a == (IV + a)[8..] == (IV + b)[8..] == b;
    }
  }

  lemma ClobberedSame(s: seq<Octet>, src: nat, dest: nat, len: nat)
    requires src + len <= |s| && dest + 8 <= |s|
    ensures Clobbered(s, dest)[src..src + len] == s[src..src + len]
       <==> forall k :: src <= k < src + len && dest <= k < dest + 8 ==> s[k] == 0xa6
  {
    var r := Clobbered(s, dest);
    assert forall k :: 0 <= k < |s| ==> r[k] == if dest <= k < dest + 8 then 0xa6 else s[k];
    if r[src..src + len] == s[src..src + len] {
      forall k | src <= k < src + len && dest <= k < dest + 8 ensures s[k] == 0xa6 {
        assert s[src..src + len][k - src] == s[k] && r[src..src + len][k - src] == r[k];
      }
    }
  }

  /** In place, that takes data beginning with the check value: the promise that
      source and destination may be the same buffer does not hold. */
  lemma WrapInPlace(enc: Cipher, dec: Cipher, s: seq<Octet>, at: nat, n: nat)
    requires Inverse(enc, dec) && at + 8 * n + 8 <= |s|
    ensures Wrap(enc, n, Counter8, Clobbered(s, at)[at..at + 8 * n]) == Wrap(enc, n, Counter8, s[at..at + 8 * n])
       <==> n == 0 || s[at..at + 8] == IV
  {
    hide Inverse, Wrap, Clobbered;
    WrapRight(enc, dec, s, at, at, n);
    if n > 0 {
      assert forall k :: at <= k < at + 8 ==> s[at..at + 8][k - at] == s[k];
      assert s[at..at + 8] == IV <==> forall k :: at <= k < at + 8 ==> s[k] == 0xa6;
    }
  }

  /** Eight zero bytes, wrapped in place, come out as something else. */
  lemma ZeroesInPlace(enc: Cipher, dec: Cipher)
    requires Inverse(enc, dec)
    ensures
      var s := seq(16, _ => 0 as Octet);
      Wrap(enc, 1, Counter8, Clobbered(s, 0)[0..8]) != Wrap(enc, 1, Counter8, s[0..8])
  {
    hide Inverse, Wrap, Clobbered;
    var s := seq(16, _ => 0 as Octet);
    WrapInPlace(enc, dec, s, 0, 1);
    assert s[0..8][0] == 0 && IV[0] == 0xa6;
  }

  /** One pass through the body of the unwrapping loop. */
  method UnwrapStep(dec: Cipher, a: seq<Octet>, m: array<Octet>, dest: nat, n: nat, i: nat, t: nat,
                    ghost m0: seq<Octet>, ghost st: seq<Octet>) returns (a': seq<Octet>)
    requires BlockCipher(dec) && 1 <= i <= n && |st| == 8 * n + 8 && dest + 8 * n <= |m0|
    requires a == st[..8] && m[..] == Splice(m0, dest, st[8..])
    modifies m
    ensures
      var st' := UnStep(dec, st, i, Counter8(t));
      a' == st'[..8] && m[..] == Splice(m0, dest, st'[8..])
  {
    hide Splice, Xor, Counter8, Low8;
    var r := dest + 8 * (i - 1);
    SpliceWithin(m0, dest, st[8..], 8 * (i - 1), st[8 * i..8 * i + 8]);
    assert st[8..][8 * (i - 1)..8 * (i - 1) + 8] == st[8 * i..8 * i + 8];
    XorCounter8(a, t);
    var b := a[7 := a[7] ^ Low8(t)] + m[r..r + 8];
    b := dec(b);
    a' := b[..8];
    WriteAt(m, r, b[8..]);
    SpliceWithin(m0, dest, st[8..], 8 * (i - 1), b[8..]);
    TailSplice(st, i, b[8..], b[..8]);
  }

  lemma TailSplice(st: seq<Octet>, i: nat, r: seq<Octet>, a: seq<Octet>)
    requires 1 <= i && 8 * i + 8 <= |st| && |a| == |r| == 8
    ensures Splice(Splice(st, 8 * i, r), 0, a)[..8] == a
    ensures Splice(Splice(st, 8 * i, r), 0, a)[8..] == Splice(st[8..], 8 * (i - 1), r)
  {
  }

  /** One of the six passes over the blocks. */
  method UnwrapPass(dec: Cipher, a: seq<Octet>, m: array<Octet>, dest: nat, n: nat, j: nat,
                    ghost m0: seq<Octet>, ghost st: seq<Octet>) returns (a': seq<Octet>, ghost st': seq<Octet>)
    requires BlockCipher(dec) && |st| == 8 * n + 8 && dest + 8 * n <= |m0|
    requires a == st[..8] && m[..] == Splice(m0, dest, st[8..])
    modifies m
    ensures |st'| == 8 * n + 8 && a' == st'[..8] && m[..] == Splice(m0, dest, st'[8..])
    ensures n == 0 ==> st' == st
    ensures n > 0 ==> UnSteps(dec, st', n, Counter8, n * j) == UnSteps(dec, st, n, Counter8, n * j + n)
  {
    hide Splice, UnStep, BlockCipher, Counter8, Index;
    a', st' := a, st;
    for i := n + 1 downto 1
      invariant |st'| == 8 * n + 8 && a' == st'[..8] && m[..] == Splice(m0, dest, st'[8..])
      invariant n == 0 ==> st' == st
      invariant n > 0 ==> UnSteps(dec, st', n, Counter8, n * j + i - 1) == UnSteps(dec, st, n, Counter8, n * j + n)
    {
      StepNumber(n, j, i);
      a' := UnwrapStep(dec, a', m, dest, n, i, n * j + i, m0, st');
      st' := UnStep(dec, st', i, Counter8(n * j + i));
    }
  }

  method CheckIv(a: seq<Octet>) returns (rc: int)
    requires |a| == 8
    ensures rc == if a == IV then 0 else -1
  {
    for i := 0 to 8
      invariant forall k :: 0 <= k < i ==> a[k] == 0xa6
    {
      if a[i] != 0xa6 {
        assert IV[i] == 0xa6;
        return -1;
      }
    }
    return 0;
  }

  /** Source and destination may overlap in any way. */
  method AesUnwrap(dec: Cipher, m: array<Octet>, src: nat, dest: nat, n: nat, memory: bool) returns (rc: int)
    requires BlockCipher(dec) && src + 8 * n + 8 <= m.Length && dest + 8 * n <= m.Length
    modifies m
    ensures !memory ==> rc == -1 && m[..] == old(m[..])
    ensures memory ==>
      var out := Unwrapped(dec, n, Counter8, old(m[..])[src..src + 8 * n + 8]);
      m[..] == Splice(old(m[..]), dest, out[8..]) && rc == if out[..8] == IV then 0 else -1
  {
    hide Splice, UnStep, BlockCipher, Counter8, Index;
    if !memory { return -1; }
    ghost var m0 := m[..];
    ghost var c := m0[src..src + 8 * n + 8];
    var a := m[src..src + 8];
    WriteAt(m, dest, m[src + 8..src + 8 + 8 * n]);
    ghost var st := c;
    for j := 6 downto 0
      invariant |st| == 8 * n + 8 && a == st[..8] && m[..] == Splice(m0, dest, st[8..])
      invariant n == 0 ==> st == c
      invariant n > 0 ==> UnSteps(dec, st, n, Counter8, n * j) == Unwrapped(dec, n, Counter8, c)
    {
      assert n * (j + 1) == n * j + n;
      a, st := UnwrapPass(dec, a, m, dest, n, j, m0, st);
    }
    rc := CheckIv(a);
  }
}
