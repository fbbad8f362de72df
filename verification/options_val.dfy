/**
 The whole pricer: the price lattice from the deduplicated levels, the
 risk-neutral probability from the per-step growth factor `g = exp(r*dt)`,
 and backward induction. Two variants differ only in the discount factor:
 `OptionsVal` discounts at a fixed rate that does not depend on `g`, as
 BOPM.py's `OptionsVal` does with `exp(-0.05*dt)`; `OptionsValAtRate` discounts at the rate
 the price grows, `1/g = exp(-r*dt)`.
 */
module Pricer {
  import opened Powers
  import opened Matrices
  import opened PriceTree
  import opened Bopm
  import opened Parity

  /**
   BOPM.py's `OptionsVal` as written: prices with `p = (g - d) / (u - d)` but discounts
   every step by `fixedDisc`, whatever `g` is. The call value exceeds the put
   value by `S * (fixedDisc * g)^n - K * fixedDisc^n`, which is the parity
   value `S - K * fixedDisc^n` only when `fixedDisc * g == 1`.
   */
  method OptionsVal(n: nat, S: real, K: real, u: real, g: real, fixedDisc: real, pc: int)
    returns (pm: Matrix, cm: Matrix)
    requires u > 1.0 && S > 0.0
    ensures pm == RecombinedLattice(n, S, u)
    ensures cm == ValueLattice(pm, n, pc, K, RiskNeutral(g, u), fixedDisc)
    ensures forall i :: 0 <= i <= n ==> cm[i][n] == Payoff(pc, K, Level(S, u, n - 2 * i))
    ensures pc == CallFlag ==>
      cm[0][0] == ValueLattice(pm, n, PutFlag, K, RiskNeutral(g, u), fixedDisc)[0][0]
                  + S * Pow(fixedDisc * g, n) - K * Pow(fixedDisc, n)
    ensures pc == CallFlag && K >= 0.0 && Down(u) <= g <= u && fixedDisc >= 0.0 ==>
      cm[0][0] <= S * Pow(fixedDisc * g, n)
  {
    var p := RiskNeutral(g, u);
    pm := BetterBop(n, S, u);
    cm := BackwardInduction(pm, n, K, p, fixedDisc, pc);
    TerminalLevels(n, S, u, K, p, fixedDisc, pc);
    PutCallGap(n, S, K, u, p, fixedDisc);
    GrowthAtRate(g, u, fixedDisc);
    if pc == CallFlag && K >= 0.0 && Down(u) <= g <= u && fixedDisc >= 0.0 {
      CallWithinGrowth(n, S, K, u, g, fixedDisc);
    }
  }

  /**
   The pricer with the discount at the growth rate: `disc = 1/g`. The
   discounted price is then a martingale at every node, and the call value
   exceeds the put value by exactly `S - K * (1/g)^n`.
   */
  method OptionsValAtRate(n: nat, S: real, K: real, u: real, g: real, pc: int)
    returns (pm: Matrix, cm: Matrix)
    requires u > 1.0 && S > 0.0 && g > 0.0
    ensures pm == RecombinedLattice(n, S, u)
    ensures cm == ValueLattice(pm, n, pc, K, RiskNeutral(g, u), 1.0 / g)
    ensures forall i :: 0 <= i <= n ==> cm[i][n] == Payoff(pc, K, Level(S, u, n - 2 * i))
    ensures pc == CallFlag ==>
      cm[0][0] == ValueLattice(pm, n, PutFlag, K, RiskNeutral(g, u), 1.0 / g)[0][0] + S - K * Pow(1.0 / g, n)
    ensures pc == CallFlag && K >= 0.0 && Down(u) <= g <= u ==> cm[0][0] <= S
  {
    var p := RiskNeutral(g, u);
    var disc := 1.0 / g;
    pm := BetterBop(n, S, u);
    cm := BackwardInduction(pm, n, K, p, disc, pc);
    TerminalLevels(n, S, u, K, p, disc, pc);
    AtRateParity(n, S, K, u, g);
    if pc == CallFlag && K >= 0.0 && Down(u) <= g <= u {
      CallWithinSpot(n, S, K, u, g);
    }
  }

  /** Discounting at the growth rate, put-call parity holds at the root. */
  lemma AtRateParity(n: nat, S: real, K: real, u: real, g: real)
    requires u > 1.0 && g > 0.0
    ensures var pm := RecombinedLattice(n, S, u);
      ValueLattice(pm, n, CallFlag, K, RiskNeutral(g, u), 1.0 / g)[0][0]
      == ValueLattice(pm, n, PutFlag, K, RiskNeutral(g, u), 1.0 / g)[0][0] + S - K * Pow(1.0 / g, n)
  {
    GrowthAtRate(g, u, 1.0 / g);
    PutCallParity(n, S, K, u, RiskNeutral(g, u), 1.0 / g);
  }

  /**
   With `d <= g <= u` the probability lies in `[0, 1]`, so the call is worth
   at most the spot grown by `disc * g` per step.
   */
  lemma CallWithinGrowth(n: nat, S: real, K: real, u: real, g: real, disc: real)
    requires u > 1.0 && S > 0.0 && K >= 0.0 && Down(u) <= g <= u && disc >= 0.0
    ensures ValueLattice(RecombinedLattice(n, S, u), n, CallFlag, K, RiskNeutral(g, u), disc)[0][0]
      <= S * Pow(disc * g, n)
  {
    GrowthAtRate(g, u, disc);
    CallBound(n, S, K, u, RiskNeutral(g, u), disc);
  }

  /** Discounting at the growth rate, the call is worth at most the spot. */
  lemma CallWithinSpot(n: nat, S: real, K: real, u: real, g: real)
    requires u > 1.0 && S > 0.0 && K >= 0.0 && Down(u) <= g <= u
    ensures ValueLattice(RecombinedLattice(n, S, u), n, CallFlag, K, RiskNeutral(g, u), 1.0 / g)[0][0] <= S
  {
    DownBelowUp(u);
    var disc := 1.0 / g;
    CallWithinGrowth(n, S, K, u, g, disc);
    UnitGrowth(S, disc, g, n);
  }

  /** Growing by `disc * g == 1` for `n` steps leaves `S` unchanged. */
  lemma UnitGrowth(S: real, disc: real, g: real, n: nat)
    requires g > 0.0 && disc == 1.0 / g
    ensures S * Pow(disc * g, n) == S
  {
    var one := disc * g;
    assert one == 1.0;
    PowOfOne(n);
  }

  /** The last column of the value lattice holds the payoff at each final level. */
  lemma TerminalLevels(n: nat, S: real, u: real, K: real, p: real, disc: real, pc: int)
    requires u > 0.0
    ensures var cm := ValueLattice(RecombinedLattice(n, S, u), n, pc, K, p, disc);
      forall i :: 0 <= i <= n ==> cm[i][n] == Payoff(pc, K, Level(S, u, n - 2 * i))
  {
    ValueLatticeFacts(RecombinedLattice(n, S, u), n, pc, K, p, disc);
  }

  /**
   A one-step lattice with `S = K = 100`, `u = 2` and growth `g = 1.25`: with
   the discount `0.5` fixed independently of `g`, the call exceeds the put
   by `12.5`, not by the parity value `50`; discounting at the growth rate
   (`0.8`) restores parity.
   */
  lemma FixedRateBreaksParity()
    ensures var pm := RecombinedLattice(1, 100.0, 2.0);
      var p := RiskNeutral(1.25, 2.0);
      && ValueLattice(pm, 1, CallFlag, 100.0, p, 0.5)[0][0] - ValueLattice(pm, 1, PutFlag, 100.0, p, 0.5)[0][0] == 12.5
      && ValueLattice(pm, 1, CallFlag, 100.0, p, 0.8)[0][0] - ValueLattice(pm, 1, PutFlag, 100.0, p, 0.8)[0][0]
         == 100.0 - 100.0 * 0.8
  {
    var p := RiskNeutral(1.25, 2.0);
    GrowthAtRate(1.25, 2.0, 0.5);
    PutCallGap(1, 100.0, 100.0, 2.0, p, 0.5);
    GrowthAtRate(1.25, 2.0, 0.8);
    PutCallParity(1, 100.0, 100.0, 2.0, p, 0.8);
  }

  /**
   The same one-step lattice with strike `1`: a fixed discount of `0.9`,
   larger than `1/g = 0.8`, values the call above the spot `100`, which no
   claim on the stock can be worth; discounting at the growth rate keeps it
   at or below the spot.
   */
  lemma FixedRateOverpricesCall()
    ensures var pm := RecombinedLattice(1, 100.0, 2.0);
      var p := RiskNeutral(1.25, 2.0);
      && ValueLattice(pm, 1, CallFlag, 1.0, p, 0.9)[0][0] > 100.0
      && ValueLattice(pm, 1, CallFlag, 1.0, p, 0.8)[0][0] <= 100.0
  {
    var pm := RecombinedLattice(1, 100.0, 2.0);
    var p := RiskNeutral(1.25, 2.0);
    assert p == 0.5;
    assert Level(100.0, 2.0, 1) == 200.0;
    assert Level(100.0, 2.0, -1) == 50.0;
    ValueLatticeFacts(pm, 1, CallFlag, 1.0, p, 0.9);
    ValueLatticeFacts(pm, 1, CallFlag, 1.0, p, 0.8);
  }
}
