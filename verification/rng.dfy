/** The random draws of the modelled code, supplied as inputs.

    Every draw is a value u in [0, 1), what random.random() returns. The
    uniform integer below n that random.randint and random.choice pick is
    the k with u in [k/n, (k+1)/n). Reals are exact here: the rounding of
    Python's floats is not modelled. */
module Rng {

  /** A value random.random() can return. */
  predicate Unit(u: real) {
    0.0 <= u < 1.0
  }

  predicate AllUnit(us: seq<real>) {
    forall k :: 0 <= k < |us| ==> Unit(us[k])
  }

  /** random.random() * t for a count t: the draw scaled to [0, t), or 0
      when t is 0. It is written as the t-fold sum of the draw, which
      ScaledIsProduct shows to be the product. */
  function Scaled(u: real, t: nat): (x: real)
    requires Unit(u)
    ensures 0.0 <= x
    ensures t > 0 ==> x < t as real
    ensures t == 0 ==> x == 0.0
  {
    if t == 0 then 0.0 else Scaled(u, t - 1) + u
  }

  /** The sum is the product u * t. */
  lemma {:induction false} ScaledIsProduct(u: real, t: nat)
    requires Unit(u)
    ensures Scaled(u, t) == u * t as real
  {
    if t > 0 {
      ScaledIsProduct(u, t - 1);
      assert u * t as real == u * (t - 1) as real + u;
    }
  }

  /** The integer below n that the draw u selects: the k with u in
      [k/n, (k+1)/n). */
  function Below(u: real, n: nat): (k: nat)
    requires Unit(u) && n > 0
    ensures k < n
    ensures k as real <= Scaled(u, n) < (k + 1) as real
  {
    Scaled(u, n).Floor
  }
}
