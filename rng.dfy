/** The seeded random source of the maze generator: a linear congruential
    generator `state := (a * state + c) mod m` whose draws are `state / m`,
    and `randInt`, which scales one draw to an inclusive integer range.

    The model uses exact integer arithmetic. A draw is represented by its
    numerator `state` (the real value is `Fraction(state)`), so that
    `randInt` becomes an integer division. */
module Rng {

  const Modulus: nat := 0x8000_0000       // m = 2^31
  const Multiplier: nat := 1103515245     // a
  const Increment: nat := 12345           // c
  const Uint32Range: nat := 0x1_0000_0000 // 2^32

  /** `seed >>> 0`: the seed reduced to an unsigned 32-bit integer. */
  function ToUint32(x: int): (u: nat)
    ensures u < Uint32Range
    ensures (x - u) % Uint32Range == 0
  {
    x % Uint32Range
  }

  /** One step of the recurrence. */
  function NextState(s: nat): (r: nat)
    ensures r < Modulus
  {
    (Multiplier * s + Increment) % Modulus
  }

  /** The state after `n` draws from state `s`. */
  function Iterate(s: nat, n: nat): (r: nat)
    ensures n > 0 ==> r < Modulus
  {
    if n == 0 then s else NextState(Iterate(s, n - 1))
  }

  /** Drawing `m` times and then `n` times is drawing `m + n` times. */
  lemma {:induction false} IterateAdd(s: nat, m: nat, n: nat)
    ensures Iterate(Iterate(s, m), n) == Iterate(s, m + n)
    decreases n
  {
    if n > 0 {
      IterateAdd(s, m, n - 1);
    }
  }

  /** The value `next()` returns for numerator `x`. */
  function Fraction(x: nat): (f: real)
    requires x < Modulus
    ensures 0.0 <= f < 1.0
    ensures f * Modulus as real == x as real
  {
    x as real / Modulus as real
  }

  /** `Math.floor(next() * (max - min + 1)) + min` for a draw with numerator
      `x`. Dafny's `/` on `int` with a positive divisor rounds down, like
      `Math.floor`, also when `max < min` makes the product negative. */
  function Scale(x: nat, min: int, max: int): (k: int)
    ensures x < Modulus && min <= max ==> min <= k <= max
  {
    var span := max - min + 1;
    ScaleBounds(x, span);
    x * span / Modulus + min
  }

  lemma ScaleBounds(x: nat, span: int)
    ensures x < Modulus && span > 0 ==> 0 <= x * span / Modulus < span
  {
    if x < Modulus && span > 0 {
      assert x * span < Modulus * span;
    }
  }

  /** The integer form of `randInt` agrees with the real-valued formula
      `Math.floor(next() * span)` evaluated exactly. */
  lemma ScaleIsFloor(x: nat, span: nat)
    requires x < Modulus
    ensures (Fraction(x) * span as real).Floor == x * span / Modulus
  {
    var q, rem := x * span / Modulus, x * span % Modulus;
    assert x * span == q * Modulus + rem;
    var f := Fraction(x) * span as real;
    assert f * Modulus as real == (x * span) as real;
    assert f == q as real + rem as real / Modulus as real;
  }

  /** The generator object that `LCG(seed)` returns: its closure state. */
  class Lcg {
    var state: nat
    /** `seed >>> 0`, the state before the first draw. */
    ghost const origin: nat
    /** How many times `next()` has run. */
    ghost var draws: nat

    ghost predicate Valid()
      reads this
    {
      state == Iterate(origin, draws)
    }

    constructor (seed: int)
      ensures Valid() && origin == ToUint32(seed) && draws == 0
    {
      state := ToUint32(seed);
      origin := ToUint32(seed);
      draws := 0;
    }

    /** `next()`: advance the state and return it; the draw is
        `Fraction(x)`. The k-th draw depends on nothing but the seed
        and k. */
    method Next() returns (x: nat)
      requires Valid()
      modifies this
      ensures Valid() && draws == old(draws) + 1
      ensures x == state == NextState(old(state))
      ensures x == Iterate(origin, draws) && x < Modulus
    {
      state := NextState(state);
      draws := draws + 1;
      x := state;
    }
  }

  /** `randInt(rng, min, max)`: one draw scaled to `[min, max]`. */
  method RandInt(rng: Lcg, min: int, max: int) returns (k: int)
    requires rng.Valid()
    modifies rng
    ensures rng.Valid() && rng.draws == old(rng.draws) + 1
    ensures rng.state == NextState(old(rng.state))
    ensures k == Scale(rng.state, min, max)
    ensures min <= max ==> min <= k <= max
  {
    var x := rng.Next();
    k := Scale(x, min, max);
  }
}
