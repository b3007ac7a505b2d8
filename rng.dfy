/**
 * The simulator's pseudo-random generator `customRand`
 * (FluTransmission/FluTransmission.cpp:12-16): a linear-congruential
 * generator over a single `static unsigned int` seed.
 */
module Rng {

  const Multiplier: nat := 1103515245
  const Increment: nat := 12345
  /** `unsigned int` arithmetic wraps modulo 2^32. */
  const Modulus: nat := 0x1_0000_0000
  /** The value the static seed holds before the first call. */
  const InitialSeed: nat := 123456789
  /** Each draw keeps 15 bits of the seed: a value in [0, 32767]. */
  const OutputRange: nat := 32768

  /** The state of the generator: a 32-bit unsigned value. */
  type Seed = s: nat | s < Modulus

  /** One step of the recurrence `seed = seed * 1103515245 + 12345`, with 32-bit wrap-around. */
  function Advance(s: Seed): Seed
  {
    (s * Multiplier + Increment) % Modulus
  }

  lemma MultipleMod(q: int)
    ensures (q * Modulus) % Modulus == 0
  {
  }

  /** The new seed is the 32-bit truncation of `seed * 1103515245 + 12345`: it differs
      from the full product-and-sum by a multiple of 2^32. */
  lemma {:induction false} AdvanceWraps(s: Seed)
    ensures Advance(s) < Modulus
    ensures (s * Multiplier + Increment - Advance(s)) % Modulus == 0
  {
    var x := s * Multiplier + Increment;
    var q := x / Modulus;
    assert x - Advance(s) == q * Modulus;
    MultipleMod(q);
  }

  /** What a call returns once the seed has been advanced to `s`: `(s / 65536) % 32768`. */
  function Output(s: Seed): (r: nat)
    ensures r < OutputRange
  {
    (s / 65536) % OutputRange
  }

  /** The seed after `k` calls, starting from `s`. */
  function SeedAfter(s: Seed, k: nat): Seed
  {
    if k == 0 then s else Advance(SeedAfter(s, k - 1))
  }

  /** The value returned by the `k`-th call (counting from 0) when the seed starts at `s`. */
  function Draw(s: Seed, k: nat): (r: nat)
    ensures r < OutputRange
  {
    Output(SeedAfter(s, k + 1))
  }

  /** The values returned by the first `k` calls, in order. */
  function Draws(s: Seed, k: nat): (ds: seq<nat>)
    ensures |ds| == k
  {
    seq(k, i requires 0 <= i < k => Draw(s, i))
  }

  /** Advancing by `a` calls and then by `b` calls is advancing by `a + b` calls: the
      generator is one stream, and consecutive consumers read consecutive parts of it. */
  lemma {:induction false} SeedAfterAdd(s: Seed, a: nat, b: nat)
    ensures SeedAfter(s, a + b) == SeedAfter(SeedAfter(s, a), b)
  {
    if b > 0 {
      SeedAfterAdd(s, a, b - 1);
    }
  }

  /** The `k`-th draw after `a` calls is the `(a + k)`-th draw of the whole stream. */
  lemma {:induction false} DrawShift(s: Seed, a: nat, k: nat)
    ensures Draw(SeedAfter(s, a), k) == Draw(s, a + k)
  {
    var n := a + k + 1;
    SeedAfterAdd(s, a, k + 1);
    assert SeedAfter(s, n) == SeedAfter(SeedAfter(s, a), k + 1);
  }

  /** The draws of `a + b` calls are those of the first `a` calls followed by those of the next `b`. */
  lemma {:induction false} DrawsSplit(s: Seed, a: nat, b: nat)
    ensures Draws(s, a + b) == Draws(s, a) + Draws(SeedAfter(s, a), b)
  {
    var whole, parts := Draws(s, a + b), Draws(s, a) + Draws(SeedAfter(s, a), b);
    forall k | 0 <= k < a + b
      ensures whole[k] == parts[k]
    {
      if k >= a {
        DrawShift(s, a, k - a);
      }
    }
  }

  /** The first three values the program's generator produces. */
  lemma FirstDraws()
    ensures Draws(InitialSeed, 3) == [3536, 17195, 26824]
  {
    assert SeedAfter(InitialSeed, 1) == 231794730;
    assert SeedAfter(InitialSeed, 2) == 3274429979;
    assert SeedAfter(InitialSeed, 3) == 3905459128;
  }

  /** The generator object: the function-local `static` seed of `customRand`. */
  class Generator {
    var seed: Seed

    /** The seed as it is when the program starts. */
    constructor ()
      ensures seed == InitialSeed
    {
      seed := InitialSeed;
    }

    /** One call of `customRand`: advance the seed, then return 15 of its bits. */
    method Next() returns (r: nat)
      modifies this
      ensures seed == Advance(old(seed))
      ensures r == Output(seed) && r < OutputRange
    {
      seed := (seed * Multiplier + Increment) % Modulus;
      r := (seed / 65536) % OutputRange;
    }
  }
}
