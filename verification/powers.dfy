/**
 Real powers with natural and integer exponents, and the facts about them that
 a recombining lattice rests on: the up factor `u` and the down factor `1/u`
 cancel, so a node's price depends only on the net number of up moves.
 */
module Powers {

  /** `x` raised to a natural power, as `math.pow` computes it over the reals. */
  function Pow(x: real, k: nat): real
  {
    if k == 0 then 1.0 else x * Pow(x, k - 1)
  }

  /** The down factor `1/u` that undoes one up move. */
  function Down(u: real): real
    requires u > 0.0
  {
    1.0 / u
  }

  /**
   `u` raised to an integer power, one move at a time: each step up multiplies
   by `u` and each step down by `1/u`.
   */
  function IntPow(u: real, z: int): real
    requires u > 0.0
    decreases if z < 0 then -z else z
  {
    if z == 0 then 1.0
    else if z > 0 then u * IntPow(u, z - 1)
    else Down(u) * IntPow(u, z + 1)
  }

  /** Products regroup. */
  lemma Assoc(a: real, b: real, c: real)
    ensures a * (b * c) == (a * b) * c
  {
  }

  /** One down move undoes one up move. */
  lemma DownCancels(u: real)
    requires u > 0.0
    ensures Down(u) * u == 1.0
  {
  }

  /** One more up move multiplies by `u`, whatever the sign of the exponent. */
  lemma IntPowSucc(u: real, z: int)
    requires u > 0.0
    ensures IntPow(u, z + 1) == u * IntPow(u, z)
  {
    if z < 0 {
      assert IntPow(u, z) == Down(u) * IntPow(u, z + 1);
      Assoc(u, Down(u), IntPow(u, z + 1));
      DownCancels(u);
    }
  }

  /** One more down move multiplies by `1/u`, whatever the sign of the exponent. */
  lemma IntPowPred(u: real, z: int)
    requires u > 0.0
    ensures IntPow(u, z - 1) == Down(u) * IntPow(u, z)
  {
    if z > 0 {
      assert IntPow(u, z) == u * IntPow(u, z - 1);
      Assoc(Down(u), u, IntPow(u, z - 1));
      DownCancels(u);
    }
  }

  /** On natural exponents the two powers agree. */
  lemma {:induction false} PowIsIntPow(u: real, m: nat)
    requires u > 0.0
    ensures Pow(u, m) == IntPow(u, m)
  {
    if m > 0 {
      PowIsIntPow(u, m - 1);
    }
  }

  /** `m` down moves are the integer power `-m`. */
  lemma {:induction false} DownPowIsIntPow(u: real, m: nat)
    requires u > 0.0
    ensures Pow(Down(u), m) == IntPow(u, -(m as int))
  {
    if m > 0 {
      DownPowIsIntPow(u, m - 1);
      IntPowPred(u, -((m - 1) as int));
    }
  }

  /** `i` down moves applied to level `z` give level `z - i`. */
  lemma {:induction false} DownShift(u: real, i: nat, z: int)
    requires u > 0.0
    ensures Pow(Down(u), i) * IntPow(u, z) == IntPow(u, z - i)
  {
    if i > 0 {
      DownShift(u, i - 1, z);
      IntPowPred(u, z - (i - 1));
      Assoc(Down(u), Pow(Down(u), i - 1), IntPow(u, z));
    }
  }

  /**
   The recombining identity: `i` down moves and `m` up moves lead to the
   same price as the net displacement `m - i` applied to `u` alone.
   */
  lemma {:induction false} Recombine(u: real, i: nat, m: nat)
    requires u > 0.0
    ensures Pow(Down(u), i) * Pow(u, m) == IntPow(u, m - i)
  {
    PowIsIntPow(u, m);
    DownShift(u, i, m);
    assert Pow(Down(u), i) * Pow(u, m) == Pow(Down(u), i) * IntPow(u, m);
  }

  /** Every integer power of a positive factor is positive. */
  lemma {:induction false} IntPowPositive(u: real, z: int)
    requires u > 0.0
    ensures IntPow(u, z) > 0.0
    decreases if z < 0 then -z else z
  {
    if z > 0 {
      IntPowPositive(u, z - 1);
      Positive(u, IntPow(u, z - 1));
    } else if z < 0 {
      IntPowPositive(u, z + 1);
      Positive(Down(u), IntPow(u, z + 1));
    }
  }

  /** A product of positive numbers is positive. */
  lemma Positive(a: real, b: real)
    requires a > 0.0 && b > 0.0
    ensures a * b > 0.0
  {
  }

  /** A product of non-negative numbers is non-negative. */
  lemma NonNegative(a: real, b: real)
    requires a >= 0.0 && b >= 0.0
    ensures a * b >= 0.0
  {
  }

  /** With `u > 1` the integer powers of `u` are strictly increasing. */
  lemma {:induction false} IntPowStrictlyIncreasing(u: real, a: int, b: int)
    requires u > 1.0
    requires a < b
    ensures IntPow(u, a) < IntPow(u, b)
    decreases b - a
  {
    IntPowPositive(u, a);
    IntPowSucc(u, a);
    Grows(u, IntPow(u, a), IntPow(u, a + 1));
    if a + 1 < b {
      IntPowStrictlyIncreasing(u, a + 1, b);
    }
  }

  /** Multiplying a positive number by a factor above one makes it larger. */
  lemma Grows(u: real, x: real, y: real)
    requires u > 1.0 && x > 0.0 && y == u * x
    ensures x < y
  {
    assert y - x == (u - 1.0) * x;
  }

  /** With `u == 1` every integer power is one: the lattice has a single level. */
  lemma {:induction false} IntPowOfOne(z: int)
    ensures IntPow(1.0, z) == 1.0
    decreases if z < 0 then -z else z
  {
    if z > 0 {
      IntPowOfOne(z - 1);
    } else if z < 0 {
      IntPowOfOne(z + 1);
    }
  }

  /** Every power of one is one. */
  lemma {:induction false} PowOfOne(k: nat)
    ensures Pow(1.0, k) == 1.0
  {
    if k > 0 {
      PowOfOne(k - 1);
    }
  }

  /** A positive number has a positive power of one exactly when it is one. */
  lemma PowIsOne(x: real, k: nat)
    requires x > 0.0 && k >= 1
    ensures Pow(x, k) == 1.0 <==> x == 1.0
  {
    PowOfOne(k);
    if x > 1.0 {
      PowAboveOne(x, k);
    } else if x < 1.0 {
      PowBelowOne(x, k);
    }
  }

  /** Above one, every positive power is above one. */
  lemma {:induction false} PowAboveOne(x: real, k: nat)
    requires x > 1.0 && k >= 1
    ensures Pow(x, k) > 1.0
  {
    if k > 1 {
      PowAboveOne(x, k - 1);
      Grows(x, Pow(x, k - 1), Pow(x, k));
    }
  }

  /** Strictly between zero and one, every positive power stays below one. */
  lemma {:induction false} PowBelowOne(x: real, k: nat)
    requires 0.0 < x < 1.0 && k >= 1
    ensures 0.0 < Pow(x, k) < 1.0
  {
    if k > 1 {
      PowBelowOne(x, k - 1);
      Shrinks(x, Pow(x, k - 1), Pow(x, k));
    }
  }

  /** Multiplying a number in `(0, 1)` by a factor in `(0, 1)` keeps it in `(0, 1)`. */
  lemma Shrinks(x: real, y: real, z: real)
    requires 0.0 < x < 1.0 && 0.0 < y < 1.0 && z == x * y
    ensures 0.0 < z < 1.0
  {
    Positive(x, y);
    assert y - z == (1.0 - x) * y;
    Positive(1.0 - x, y);
  }
}
