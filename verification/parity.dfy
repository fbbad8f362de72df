/**
 What backward induction does to a forward contract, and the put-call parity
 that follows. Buying a call and selling a put at one strike pays `price - K`
 at expiry on every node, and backward induction is linear, so the difference
 of the two option values is the induced value of that forward payoff. The
 induced value grows the spot price by the discounted expected growth per
 step and discounts the strike: the parity `call - put == S - K * disc^n`
 holds exactly when the discounted price is a martingale.
 */
module Parity {
  import opened Powers
  import opened PriceTree
  import opened Bopm

  /** A call minus a put at one strike pays the price minus the strike. */
  lemma CallMinusPut(K: real, price: real)
    ensures Payoff(CallFlag, K, price) - Payoff(PutFlag, K, price) == price - K
  {
  }

  /** One discounted average of differences is the difference of the averages. */
  lemma DiscountedLinear(p: real, disc: real, a1: real, a2: real, b1: real, b2: real)
    ensures Discounted(p, disc, a1 - b1, a2 - b2) == Discounted(p, disc, a1, a2) - Discounted(p, disc, b1, b2)
  {
  }

  /**
   Backward induction is linear: the value induced by a pointwise difference
   of terminal columns is the difference of the induced values.
   */
  lemma {:induction false} InductLinear(f: seq<real>, g: seq<real>, h: seq<real>, p: real, disc: real, i: nat, col: nat)
    requires |f| == |g| == |h| && i <= col < |f|
    requires forall k :: 0 <= k < |h| ==> h[k] == f[k] - g[k]
    ensures Induct(h, p, disc, i, col) == Induct(f, p, disc, i, col) - Induct(g, p, disc, i, col)
    decreases |f| - col
  {
    if col < |f| - 1 {
      InductLinear(f, g, h, p, disc, i, col + 1);
      InductLinear(f, g, h, p, disc, i + 1, col + 1);
      DiscountedLinear(p, disc,
        Induct(f, p, disc, i, col + 1), Induct(f, p, disc, i + 1, col + 1),
        Induct(g, p, disc, i, col + 1), Induct(g, p, disc, i + 1, col + 1));
    }
  }

  /** The one-step algebra behind `InductForward`, for a level `L` and its neighbours `u*L` and `d*L`. */
  lemma ForwardStep(p: real, disc: real, u: real, d: real, L: real, Gm: real, Dm: real, K: real, up: real, down: real, G: real)
    requires up == (u * L) * Gm - K * Dm && down == (d * L) * Gm - K * Dm
    requires G == Discounted(p, disc, u, d)
    ensures Discounted(p, disc, up, down) == L * (G * Gm) - K * (disc * Dm)
  {
    assert Discounted(p, disc, up, down) == disc * (p * ((u * L) * Gm) + (1.0 - p) * ((d * L) * Gm)) - disc * (K * Dm);
  }

  /** The one-step algebra behind `NodeMartingale`. */
  lemma ScaledStep(p: real, disc: real, u: real, d: real, L: real)
    ensures Discounted(p, disc, u * L, d * L) == L * Discounted(p, disc, u, d)
  {
  }

  /**
   The value of a forward payoff at a node of price `L` with `m` steps to
   expiry: the price grown by `G` for each remaining step, minus the strike
   discounted over those steps.
   */
  function Forward(L: real, G: real, K: real, disc: real, m: nat): real {
    L * Pow(G, m) - K * Pow(disc, m)
  }

  /** The forward value at a node of level `z`, growing by the discounted expected growth `G`. */
  function ForwardValue(S: real, u: real, K: real, p: real, disc: real, z: int, m: nat): real
    requires u > 0.0
  {
    Forward(Level(S, u, z), Growth(p, disc, u), K, disc, m)
  }

  /**
   Backward induction on the forward payoff `level - K` of an `n`-step
   lattice gives the forward value at every node.
   */
  lemma {:induction false} InductForward(f: seq<real>, S: real, u: real, K: real, p: real, disc: real, i: nat, col: nat)
    requires u > 0.0 && i <= col < |f|
    requires forall k :: 0 <= k < |f| ==> f[k] == Level(S, u, |f| - 1 - 2 * k) - K
    ensures Induct(f, p, disc, i, col) == ForwardValue(S, u, K, p, disc, col - 2 * i, |f| - 1 - col)
    decreases |f| - col
  {
    if col == |f| - 1 {
      assert f[i] == Level(S, u, col - 2 * i) - K;
    } else {
      InductForward(f, S, u, K, p, disc, i, col + 1);
      InductForward(f, S, u, K, p, disc, i + 1, col + 1);
      assert col + 1 - 2 * i == (col - 2 * i) + 1;
      assert col + 1 - 2 * (i + 1) == (col - 2 * i) - 1;
      ForwardCombine(S, u, K, p, disc, col - 2 * i, |f| - 1 - (col + 1),
        Induct(f, p, disc, i, col + 1), Induct(f, p, disc, i + 1, col + 1));
    }
  }

  /**
   One step of `InductForward`: if the up and down successors of level `z`
   hold their forward values, the node holds its own.
   */
  lemma ForwardCombine(S: real, u: real, K: real, p: real, disc: real, z: int, m: nat, up: real, down: real)
    requires u > 0.0
    requires up == ForwardValue(S, u, K, p, disc, z + 1, m)
    requires down == ForwardValue(S, u, K, p, disc, z - 1, m)
    ensures Discounted(p, disc, up, down) == ForwardValue(S, u, K, p, disc, z, m + 1)
  {
    LevelNeighbours(S, u, z);
    ForwardNode(p, disc, u, Down(u), Growth(p, disc, u), Level(S, u, z), K, m, up, down);
  }

  /**
   A node at price `L` whose successors `u * L` and `d * L` hold their
   forward values holds its own, when `G` is the discounted expected growth.
   */
  lemma ForwardNode(p: real, disc: real, u: real, d: real, G: real, L: real, K: real, m: nat, up: real, down: real)
    requires G == Discounted(p, disc, u, d)
    requires up == Forward(u * L, G, K, disc, m)
    requires down == Forward(d * L, G, K, disc, m)
    ensures Discounted(p, disc, up, down) == Forward(L, G, K, disc, m + 1)
  {
    ForwardStep(p, disc, u, d, L, Pow(G, m), Pow(disc, m), K, up, down, G);
  }

  /** The levels next to `z` are `u` and `d` times level `z`. */
  lemma LevelNeighbours(S: real, u: real, z: int)
    requires u > 0.0
    ensures Level(S, u, z + 1) == u * Level(S, u, z)
    ensures Level(S, u, z - 1) == Down(u) * Level(S, u, z)
  {
    IntPowSucc(u, z);
    IntPowPred(u, z);
    Assoc(S, u, IntPow(u, z));
    Assoc(S, Down(u), IntPow(u, z));
    assert S * u == u * S && S * Down(u) == Down(u) * S;
    Assoc(u, S, IntPow(u, z));
    Assoc(Down(u), S, IntPow(u, z));
  }

  /**
   On any price lattice, the call value minus the put value at the root is
   `S * G^n - K * disc^n`, where `G` is the discounted expected growth per
   step.
   */
  lemma PutCallGap(n: nat, S: real, K: real, u: real, p: real, disc: real)
    requires u > 0.0
    ensures var pm := RecombinedLattice(n, S, u);
      ValueLattice(pm, n, CallFlag, K, p, disc)[0][0] - ValueLattice(pm, n, PutFlag, K, p, disc)[0][0]
      == S * Pow(Growth(p, disc, u), n) - K * Pow(disc, n)
  {
    var pm := RecombinedLattice(n, S, u);
    var calls, puts := TerminalPayoffs(pm, n, CallFlag, K), TerminalPayoffs(pm, n, PutFlag, K);
    var forward := ForwardPayoffs(n, S, u, K);
    ForwardIsCallMinusPut(n, S, u, K);
    InductLinear(calls, puts, forward, p, disc, 0, 0);
    InductForward(forward, S, u, K, p, disc, 0, 0);
    assert Level(S, u, 0) == S;
  }

  /** The forward payoff `level - K` on the last column of an `n`-step lattice. */
  function ForwardPayoffs(n: nat, S: real, u: real, K: real): (f: seq<real>)
    requires u > 0.0
    ensures |f| == n + 1
    ensures forall k :: 0 <= k < |f| ==> f[k] == Level(S, u, |f| - 1 - 2 * k) - K
  {
    seq(n + 1, k => Level(S, u, n - 2 * k) - K)
  }

  /** On the last column, the call payoff minus the put payoff is the forward payoff. */
  lemma ForwardIsCallMinusPut(n: nat, S: real, u: real, K: real)
    requires u > 0.0
    ensures var pm := RecombinedLattice(n, S, u);
      var calls, puts := TerminalPayoffs(pm, n, CallFlag, K), TerminalPayoffs(pm, n, PutFlag, K);
      forall k :: 0 <= k < n + 1 ==> ForwardPayoffs(n, S, u, K)[k] == calls[k] - puts[k]
  {
    var pm := RecombinedLattice(n, S, u);
    forall k | 0 <= k < n + 1
      ensures ForwardPayoffs(n, S, u, K)[k] == Payoff(CallFlag, K, pm[k][n]) - Payoff(PutFlag, K, pm[k][n])
    {
      CallMinusPut(K, pm[k][n]);
    }
  }

  /**
   Put-call parity: when the discounted price is a martingale (`G == 1`),
   the call value minus the put value at the root is the spot minus the
   strike discounted over all `n` steps.
   */
  lemma PutCallParity(n: nat, S: real, K: real, u: real, p: real, disc: real)
    requires u > 0.0 && Growth(p, disc, u) == 1.0
    ensures var pm := RecombinedLattice(n, S, u);
      ValueLattice(pm, n, CallFlag, K, p, disc)[0][0] - ValueLattice(pm, n, PutFlag, K, p, disc)[0][0]
      == S - K * Pow(disc, n)
  {
    PutCallGap(n, S, K, u, p, disc);
    PowOfOne(n);
  }

  /**
   Conversely, on a lattice with at least one step, a positive spot and a
   positive expected growth, parity holds only if the discounted price is a
   martingale.
   */
  lemma ParityNeedsMartingale(n: nat, S: real, K: real, u: real, p: real, disc: real)
    requires u > 0.0 && n >= 1 && S > 0.0 && Growth(p, disc, u) > 0.0
    ensures var pm := RecombinedLattice(n, S, u);
      ValueLattice(pm, n, CallFlag, K, p, disc)[0][0] - ValueLattice(pm, n, PutFlag, K, p, disc)[0][0]
      == S - K * Pow(disc, n)
      <==> Growth(p, disc, u) == 1.0
  {
    PutCallGap(n, S, K, u, p, disc);
    PowIsOne(Growth(p, disc, u), n);
    ScaleIsOne(S, Pow(Growth(p, disc, u), n), S * Pow(Growth(p, disc, u), n));
  }

  /** A positive number `L` times `x` is `L` itself exactly when `x` is one. */
  lemma ScaleIsOne(L: real, x: real, y: real)
    requires L > 0.0 && y == L * x
    ensures L == y <==> x == 1.0
  {
    assert y - L == L * (x - 1.0);
    if x != 1.0 {
      assert L * (x - 1.0) != 0.0;
    }
  }

  /**
   Backward induction is monotone: with `0 <= p <= 1` and `disc >= 0`, larger
   terminal values induce larger values at every node.
   */
  lemma InductMono(f: seq<real>, h: seq<real>, p: real, disc: real, i: nat, col: nat)
    requires |f| == |h| && i <= col < |f|
    requires forall k :: 0 <= k < |f| ==> f[k] <= h[k]
    requires 0.0 <= p <= 1.0 && disc >= 0.0
    ensures Induct(f, p, disc, i, col) <= Induct(h, p, disc, i, col)
  {
    var gap := seq(|f|, k requires 0 <= k < |f| => h[k] - f[k]);
    InductLinear(h, f, gap, p, disc, i, col);
    InductNonNegative(gap, p, disc, i, col);
  }

  /**
   Upper no-arbitrage bound on the call: a call never pays more than the
   stock, so at the root it is worth at most the spot grown by `G` over all
   `n` steps. With `G <= 1` the call is worth at most the spot.
   */
  lemma CallBound(n: nat, S: real, K: real, u: real, p: real, disc: real)
    requires u > 0.0 && S > 0.0 && K >= 0.0
    requires 0.0 <= p <= 1.0 && disc >= 0.0
    ensures ValueLattice(RecombinedLattice(n, S, u), n, CallFlag, K, p, disc)[0][0]
      <= S * Pow(Growth(p, disc, u), n)
  {
    var pm := RecombinedLattice(n, S, u);
    var calls := TerminalPayoffs(pm, n, CallFlag, K);
    var spot := ForwardPayoffs(n, S, u, 0.0);
    SpotAboveCalls(n, S, K, u);
    InductMono(calls, spot, p, disc, 0, 0);
    InductForward(spot, S, u, 0.0, p, disc, 0, 0);
    SpotForward(S, u, p, disc, n);
  }

  /** On the last column, each call payoff is at most the stock price. */
  lemma SpotAboveCalls(n: nat, S: real, K: real, u: real)
    requires u > 0.0 && S > 0.0 && K >= 0.0
    ensures var calls := TerminalPayoffs(RecombinedLattice(n, S, u), n, CallFlag, K);
      forall k :: 0 <= k < n + 1 ==> calls[k] <= ForwardPayoffs(n, S, u, 0.0)[k]
  {
    forall k | 0 <= k < n + 1
      ensures Level(S, u, n - 2 * k) > 0.0
    {
      LevelPositive(S, u, n - 2 * k);
    }
  }

  /** The induced value of the stock itself, `m` steps before expiry at the spot. */
  lemma SpotForward(S: real, u: real, p: real, disc: real, m: nat)
    requires u > 0.0
    ensures ForwardValue(S, u, 0.0, p, disc, 0, m) == S * Pow(Growth(p, disc, u), m)
  {
    assert Level(S, u, 0) == S;
  }

  /**
   Upper no-arbitrage bound on the put: a put never pays more than the
   strike, so at the root it is worth at most the strike discounted over all
   `n` steps.
   */
  lemma PutBound(n: nat, S: real, K: real, u: real, p: real, disc: real)
    requires u > 0.0 && S > 0.0 && K >= 0.0
    requires 0.0 <= p <= 1.0 && disc >= 0.0
    ensures ValueLattice(RecombinedLattice(n, S, u), n, PutFlag, K, p, disc)[0][0]
      <= K * Pow(disc, n)
  {
    var pm := RecombinedLattice(n, S, u);
    var puts := TerminalPayoffs(pm, n, PutFlag, K);
    var strikes := ForwardPayoffs(n, 0.0, u, -K);
    forall k | 0 <= k < n + 1
      ensures puts[k] <= strikes[k]
    {
      LevelPositive(S, u, n - 2 * k);
    }
    InductMono(puts, strikes, p, disc, 0, 0);
    InductForward(strikes, 0.0, u, -K, p, disc, 0, 0);
    assert Level(0.0, u, 0) == 0.0;
  }

  /**
   At one node, the price equals the discounted risk-neutral average of its
   two successors exactly when the discounted expected growth is one.
   */
  lemma NodeMartingale(n: nat, S: real, u: real, p: real, disc: real, i: nat, col: nat)
    requires u > 0.0 && S > 0.0 && i <= col < n
    ensures var pm := RecombinedLattice(n, S, u);
      pm[i][col] == Discounted(p, disc, pm[i][col + 1], pm[i + 1][col + 1])
      <==> Growth(p, disc, u) == 1.0
  {
    assert col + 1 - 2 * i == (col - 2 * i) + 1;
    assert col + 1 - 2 * (i + 1) == (col - 2 * i) - 1;
    LevelMartingale(S, u, p, disc, col - 2 * i);
  }

  /**
   A level equals the discounted risk-neutral average of the levels one up
   and one down exactly when the discounted expected growth is one.
   */
  lemma LevelMartingale(S: real, u: real, p: real, disc: real, z: int)
    requires u > 0.0 && S > 0.0
    ensures Level(S, u, z) == Discounted(p, disc, Level(S, u, z + 1), Level(S, u, z - 1))
      <==> Growth(p, disc, u) == 1.0
  {
    LevelStep(S, u, p, disc, z);
    LevelPositive(S, u, z);
    ScaleIsOne(Level(S, u, z), Growth(p, disc, u), Discounted(p, disc, Level(S, u, z + 1), Level(S, u, z - 1)));
  }

  /** The discounted average of the levels next to `z` is level `z` grown by `G`. */
  lemma LevelStep(S: real, u: real, p: real, disc: real, z: int)
    requires u > 0.0
    ensures Discounted(p, disc, Level(S, u, z + 1), Level(S, u, z - 1)) == Level(S, u, z) * Growth(p, disc, u)
  {
    LevelNeighbours(S, u, z);
    ScaledStep(p, disc, u, Down(u), Level(S, u, z));
  }

  /**
   With the risk-neutral probability for growth factor `g`, the discounted
   expected growth is `disc * g`: it is one exactly when `disc` discounts at
   the same rate `g` grows.
   */
  lemma GrowthAtRate(g: real, u: real, disc: real)
    requires u > 1.0
    ensures Growth(RiskNeutral(g, u), disc, u) == disc * g
  {
  }
}
