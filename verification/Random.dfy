/** The pseudo-random number generator: a linear congruential generator computed
    without leaving 32-bit arithmetic. */
module Random {
  import opened Arith
  import opened CLib

  const MODULUS: int := 2147483563
  const FACTOR: int := 40014

  predicate Int32(x: int) { -0x8000_0000 <= x < 0x8000_0000 }

  /** The update before it is made non-negative. */
  function Raw(seed: int): int {
    var q := CDiv(seed, 53668);
    FACTOR * (seed - 53668 * q) - 12211 * q
  }

  /** Splitting the multiplication keeps every intermediate value in 32 bits. */
  lemma RawFits(seed: int)
    requires Int32(seed)
    ensures
      var q := CDiv(seed, 53668);
      Int32(53668 * q) && Int32(FACTOR * (seed - 53668 * q)) && Int32(12211 * q) && Int32(Raw(seed))
    ensures -MODULUS < Raw(seed) < MODULUS
  {
    var q := CDiv(seed, 53668);
    assert -40014 <= q <= 40014;
    assert -53668 < seed - 53668 * q < 53668;
    assert (seed >= 0 ==> q >= 0 && seed - 53668 * q >= 0) && (seed < 0 ==> q <= 0 && seed - 53668 * q <= 0);
  }

  /** The result is the product with the factor modulo 2147483563. */
  lemma RawCongruent(seed: int)
    requires Int32(seed)
    ensures (if Raw(seed) < 0 then Raw(seed) + MODULUS else Raw(seed)) == (FACTOR * seed) % MODULUS
  {
    RawFits(seed);
    var q := CDiv(seed, 53668);
    var r := if Raw(seed) < 0 then Raw(seed) + MODULUS else Raw(seed);
    assert Raw(seed) == FACTOR * seed - q * MODULUS;
    DivModUnique(FACTOR * seed, if Raw(seed) < 0 then q - 1 else q, r, MODULUS);
  }

  /** The generator gives zero for no seed but a multiple of the modulus. */
  lemma NonZero(seed: int)
    ensures (FACTOR * seed) % MODULUS == 0 <==> seed % MODULUS == 0
  {
    var inverse, c := 2082061899, 38795;
    assert FACTOR * inverse == 1 + c * MODULUS;
    if (FACTOR * seed) % MODULUS == 0 {
      var t := (FACTOR * seed) / MODULUS;
      assert FACTOR * seed == MODULUS * t;
      assert seed == MODULUS * (t * inverse - seed * c);
      ModMultiple(t * inverse - seed * c, MODULUS);
    }
    if seed % MODULUS == 0 {
      var t := seed / MODULUS;
      assert FACTOR * seed == MODULUS * (FACTOR * t);
      ModMultiple(FACTOR * t, MODULUS);
    }
  }

  class Generator {
    var seed: int

    ghost predicate Valid()
      reads this
    {
      Int32(seed)
    }

    constructor ()
      ensures Valid() && seed == 0
    {
      seed := 0;
    }

    method Srandom(s: nat)
      requires s < 0x1_0000_0000
      modifies this
      ensures Valid() && seed != 0
      ensures if s == 0 then seed == 4 else (seed - s) % 0x1_0000_0000 == 0
    {
      seed := if s < 0x8000_0000 then s else s - 0x1_0000_0000;
      if seed == 0 { seed := 4; }
    }

    /** Each number is the last one times 40014 modulo 2147483563, so that from
        any proper seed the generator never comes to zero and never reseeds. */
    method Random(now: nat) returns (r: int, ghost last: int)
      requires Valid() && now < 0x1_0000_0000
      modifies this
      ensures Valid() && r == seed && 0 <= r < MODULUS
      ensures Int32(last) && last != 0 && r == (FACTOR * last) % MODULUS
      ensures old(seed) != 0 ==> last == old(seed)
      ensures old(seed) == 0 ==> if now == 0 then last == 4 else (last - now) % 0x1_0000_0000 == 0
      ensures old(seed) != 0 ==> (r == 0 <==> old(seed) % MODULUS == 0)
    {
      if seed == 0 { Srandom(now); }
      last := seed;
      RawFits(seed);
      RawCongruent(seed);
      NonZero(seed);
      var q := CDiv(seed, 53668);
      seed := FACTOR * (seed - 53668 * q) - 12211 * q;
      if seed < 0 { seed := seed + MODULUS; }
      r := seed;
    }
  }

  /** The `n`th number after `seed`. */
  function Nth(seed: int, n: nat): int {
    if n == 0 then seed else (FACTOR * Nth(seed, n - 1)) % MODULUS
  }

  /** A whole run stays between one and 2147483562. */
  lemma {:induction false} RunInRange(seed: int, n: nat)
    requires 0 < seed < MODULUS
    ensures 0 < Nth(seed, n) < MODULUS
  {
    if n > 0 {
      RunInRange(seed, n - 1);
      NonZero(Nth(seed, n - 1));
    }
  }
}
