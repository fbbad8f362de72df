/**
 Option valuation on the Cox-Ross-Rubinstein lattice. The option-value
 lattice has the shape of the price lattice: its last column holds the payoff
 at expiry, and every earlier node holds the discounted risk-neutral average
 of its two successors, the up move `(i, col+1)` with weight `p` and the down
 move `(i+1, col+1)` with weight `1-p`.

 The up factor `u`, the per-step growth factor `exp(r*dt)` and the one-step
 discount factor are real parameters; the risk-neutral probability is
 computed from them as BOPM.py's `OptionsVal` does.
 */
module Bopm {
  import opened Powers
  import opened Matrices

  /** The option-type flag `PC`: 0 prices a call, 1 a put; any other value prices nothing. */
  const CallFlag: int := 0
  const PutFlag: int := 1

  /** The flag selects an option the pricer handles. */
  predicate Priced(pc: int) {
    pc == CallFlag || pc == PutFlag
  }

  /** The larger of two reals, as Python's `max` on two numbers. */
  function Max(a: real, b: real): real {
    if a >= b then a else b
  }

  /** The payoff at expiry of the option selected by `pc` when the underlying is at `price`. */
  function Payoff(pc: int, K: real, price: real): (r: real)
    ensures r >= 0.0
  {
    if pc == PutFlag then Max(K - price, 0.0)
    else if pc == CallFlag then Max(price - K, 0.0)
    else 0.0
  }

  /** One step of backward induction: the discounted risk-neutral average of the successors. */
  function Discounted(p: real, disc: real, up: real, down: real): real {
    disc * (p * up + (1.0 - p) * down)
  }

  /** The terminal payoffs, one per final node `i` in `0..n`. */
  function TerminalPayoffs(pm: Matrix, n: nat, pc: int, K: real): (f: seq<real>)
    requires IsSquare(pm, n + 1)
    ensures |f| == n + 1
    ensures forall i :: 0 <= i <= n ==> f[i] == Payoff(pc, K, pm[i][n])
  {
    seq(n + 1, i requires 0 <= i <= n => Payoff(pc, K, pm[i][n]))
  }

  /**
   The value at node `(i, col)` of a lattice with `|f| - 1` steps whose final
   column holds `f`, by backward induction.
   */
  function Induct(f: seq<real>, p: real, disc: real, i: nat, col: nat): real
    requires i <= col < |f|
    decreases |f| - col
  {
    if col == |f| - 1 then f[i]
    else Discounted(p, disc, Induct(f, p, disc, i, col + 1), Induct(f, p, disc, i + 1, col + 1))
  }

  /**
   The option-value lattice for prices `pm`: the induced value on the upper
   triangle when the flag selects a call or a put, zero everywhere else.
   */
  function ValueLattice(pm: Matrix, n: nat, pc: int, K: real, p: real, disc: real): (cm: Matrix)
    requires IsSquare(pm, n + 1)
    ensures IsSquare(cm, n + 1)
    ensures forall i, col :: 0 <= i <= col <= n && Priced(pc) ==>
      cm[i][col] == Induct(TerminalPayoffs(pm, n, pc, K), p, disc, i, col)
    ensures forall i, col :: 0 <= i <= n && 0 <= col <= n && !(Priced(pc) && i <= col) ==> cm[i][col] == 0.0
  {
    var f := TerminalPayoffs(pm, n, pc, K);
    seq(n + 1, i => seq(n + 1, col => if Priced(pc) && 0 <= i <= col <= n then Induct(f, p, disc, i, col) else 0.0))
  }

  /**
   Backward induction over the price lattice `pm`: for `j` from `n+1` down to
   1 and `i` in `0..j-1`, column `j-1` gets the payoff at expiry when
   `j == n+1` and the discounted average of column `j` otherwise. Only the
   flags 0 and 1 write anything.
   */
  method BackwardInduction(pm: Matrix, n: nat, K: real, p: real, disc: real, pc: int) returns (cm: Matrix)
    requires IsSquare(pm, n + 1)
    ensures cm == ValueLattice(pm, n, pc, K, p, disc)
    ensures IsSquare(cm, n + 1)
    ensures pc == PutFlag ==> forall i :: 0 <= i <= n ==> cm[i][n] == Max(K - pm[i][n], 0.0)
    ensures pc == CallFlag ==> forall i :: 0 <= i <= n ==> cm[i][n] == Max(pm[i][n] - K, 0.0)
    ensures forall i, col :: 0 <= col < i <= n ==> cm[i][col] == 0.0
    ensures !Priced(pc) ==> cm == Zeros(n + 1)
    ensures 0.0 <= p <= 1.0 && disc >= 0.0 ==>
      forall i, col :: 0 <= i <= n && 0 <= col <= n ==> cm[i][col] >= 0.0
  {
    ghost var target := ValueLattice(pm, n, pc, K, p, disc);
    cm := Zeros(n + 1);
    var j := n + 1;
    while j > 0
      invariant 0 <= j <= n + 1
      invariant IsSquare(cm, n + 1)
      invariant forall a, b :: 0 <= a <= n && 0 <= b <= n ==>
        cm[a][b] == (if b >= j then target[a][b] else 0.0)
    {
      for i := 0 to j
        invariant IsSquare(cm, n + 1)
        invariant forall a, b :: 0 <= a <= n && 0 <= b <= n ==>
          cm[a][b] == (if b >= j || (b == j - 1 && a < i) then target[a][b] else 0.0)
      {
        if pc == PutFlag {
          if j == n + 1 {
            cm := Update(cm, i, j - 1, Max(K - pm[i][j - 1], 0.0));
          } else {
            cm := Update(cm, i, j - 1, Discounted(p, disc, cm[i][j], cm[i + 1][j]));
          }
        }
        if pc == CallFlag {
          if j == n + 1 {
            cm := Update(cm, i, j - 1, Max(pm[i][j - 1] - K, 0.0));
          } else {
            cm := Update(cm, i, j - 1, Discounted(p, disc, cm[i][j], cm[i + 1][j]));
          }
        }
      }
      j := j - 1;
    }
    SameEntries(cm, target, n + 1);
    ValueLatticeFacts(pm, n, pc, K, p, disc);
  }

  /** The terminal column, the recurrence and non-negativity, read off the value lattice. */
  lemma ValueLatticeFacts(pm: Matrix, n: nat, pc: int, K: real, p: real, disc: real)
    requires IsSquare(pm, n + 1)
    ensures var cm := ValueLattice(pm, n, pc, K, p, disc);
      && (Priced(pc) ==> forall i :: 0 <= i <= n ==> cm[i][n] == Payoff(pc, K, pm[i][n]))
      && (!Priced(pc) ==> cm == Zeros(n + 1))
      && (0.0 <= p <= 1.0 && disc >= 0.0 ==>
            forall i, col :: 0 <= i <= n && 0 <= col <= n ==> cm[i][col] >= 0.0)
  {
    var cm := ValueLattice(pm, n, pc, K, p, disc);
    var f := TerminalPayoffs(pm, n, pc, K);
    if !Priced(pc) {
      SameEntries(cm, Zeros(n + 1), n + 1);
    }
    if 0.0 <= p <= 1.0 && disc >= 0.0 {
      forall i, col | 0 <= i <= col <= n
        ensures Induct(f, p, disc, i, col) >= 0.0
      {
        InductNonNegative(f, p, disc, i, col);
      }
    }
  }

  /**
   The recurrence the value lattice satisfies: a node before expiry is worth
   the discounted risk-neutral average of its up and down successors, which
   lie in the next column and inside the triangle.
   */
  lemma ValueRecurrence(pm: Matrix, n: nat, pc: int, K: real, p: real, disc: real, i: nat, col: nat)
    requires IsSquare(pm, n + 1)
    requires Priced(pc) && i <= col < n
    ensures var cm := ValueLattice(pm, n, pc, K, p, disc);
      cm[i][col] == disc * (p * cm[i][col + 1] + (1.0 - p) * cm[i + 1][col + 1])
  {
  }

  /**
   With `0 <= p <= 1`, `disc >= 0` and non-negative terminal values, every
   induced value is non-negative.
   */
  lemma {:induction false} InductNonNegative(f: seq<real>, p: real, disc: real, i: nat, col: nat)
    requires i <= col < |f|
    requires forall k :: 0 <= k < |f| ==> f[k] >= 0.0
    requires 0.0 <= p <= 1.0 && disc >= 0.0
    ensures Induct(f, p, disc, i, col) >= 0.0
    decreases |f| - col
  {
    if col < |f| - 1 {
      InductNonNegative(f, p, disc, i, col + 1);
      InductNonNegative(f, p, disc, i + 1, col + 1);
      DiscountedNonNegative(p, disc, Induct(f, p, disc, i, col + 1), Induct(f, p, disc, i + 1, col + 1));
    }
  }

  /** A discounted convex combination of non-negative values is non-negative. */
  lemma DiscountedNonNegative(p: real, disc: real, up: real, down: real)
    requires 0.0 <= p <= 1.0 && disc >= 0.0 && up >= 0.0 && down >= 0.0
    ensures Discounted(p, disc, up, down) >= 0.0
  {
    assert p * up >= 0.0;
    assert (1.0 - p) * down >= 0.0;
  }

  /**
   The discounted expected one-step growth of the price under `(p, disc)`:
   `disc * (p*u + (1-p)*d)`. It is one exactly when the discounted price is a
   martingale, the defining property of the risk-neutral measure.
   */
  function Growth(p: real, disc: real, u: real): real
    requires u > 0.0
  {
    Discounted(p, disc, u, Down(u))
  }

  /**
   The risk-neutral probability `(g - d) / (u - d)` for a per-step growth
   factor `g` (`exp(r*dt)` in BOPM.py's `OptionsVal`): the probability under which the
   price grows by `g` per step on average. It lies in `[0, 1]` exactly when
   `d <= g <= u`; the Python pricer does not check this.
   */
  function RiskNeutral(g: real, u: real): (p: real)
    requires u > 1.0
    ensures p * u + (1.0 - p) * Down(u) == g
    ensures Down(u) <= g <= u <==> 0.0 <= p <= 1.0
  {
    DownBelowUp(u);
    Blend(Down(u), u, g, (g - Down(u)) / (u - Down(u)));
    (g - Down(u)) / (u - Down(u))
  }

  /** With `u > 1` the down factor is below the up factor. */
  lemma DownBelowUp(u: real)
    requires u > 1.0
    ensures 0.0 < Down(u) < u
  {
    DownCancels(u);
  }

  /**
   The weight `q = (g - a) / (b - a)` blends `a` and `b` into `g`, and lies in
   `[0, 1]` exactly when `g` lies between them.
   */
  lemma Blend(a: real, b: real, g: real, q: real)
    requires a < b && q == (g - a) / (b - a)
    ensures q * b + (1.0 - q) * a == g
    ensures a <= g <= b <==> 0.0 <= q <= 1.0
  {
    var w := b - a;
    assert g - a == q * w;
    assert q * b + (1.0 - q) * a == q * w + a;
    if q < 0.0 {
      assert q * w < 0.0;
    } else if q > 1.0 {
      Positive(q - 1.0, w);
      assert (q - 1.0) * w > 0.0;
      assert q * w == (q - 1.0) * w + w;
      assert g - a > w;
    } else {
      NonNegative(q, w);
      NonNegative(1.0 - q, w);
      assert q * w == w - (1.0 - q) * w;
    }
  }

}
