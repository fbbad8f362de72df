# Cox-Ross-Rubinstein binomial lattice, in Dafny

This project models a small binomial option pricer. The pricer has three parts.

- **Naive price lattice.** `bop` fills node `(i, j)` of an `(n+1) x (n+1)` matrix with `S * d^i * u^(j-i)`. Row `i` counts down moves and column `j` counts time steps.
- **Optimised price lattice.** `better_bop`, and the first half of `OptionsVal`, compute the candidate prices `S * d^j` and `S * u^j` once. They deduplicate and sort them with NumPy's `unique`. They then copy the `2n+1` levels into the upper triangle through a negative column index.
- **Option-value lattice.** The second half of `OptionsVal` writes the call or put payoff into the last column. It then fills every earlier node with the discounted risk-neutral average of its two successors.

The floating-point inputs are abstracted away:

- The up factor `u` is a real parameter, and the down factor is `d = 1/u`.
- The per-step growth factor `g` is a real parameter. The source computes it as `exp(r*dt)`.
- The one-step discount is a real parameter.

Everything else is exact real and integer arithmetic. The risk-neutral probability `p = (g - d)/(u - d)` is computed as in the source.

Modules, one per concern:

- `Powers` (powers.dfy): natural and integer powers of a real, and the recombining identity `d^i * u^m == u^(m-i)`.
- `SortedUnique` (sorted_unique.dfy): NumPy's `unique` on a flat real array. The result is sorted, duplicate-free and holds the same values. It also proves that this determines the result.
- `Matrices` (matrices.dfy): square matrices as sequences of rows, the zero matrix, single-entry update, and Python's negative index.
- `PriceTree` (price_tree.dfy): `bop` and `better_bop`, and the proof that they build the same lattice.
- `Bopm` (bopm.dfy): payoffs, the risk-neutral probability, and backward induction with its value lattice.
- `Parity` (parity.dfy): linearity and monotonicity of backward induction, the induced value of a forward contract, put-call parity and the martingale condition behind it, and the no-arbitrage upper bounds on the call and the put.
- `Pricer` (options_val.dfy): `OptionsVal` as written, with a discount fixed independently of the growth rate, and the variant that discounts at the growth rate.

The lattices are immutable sequences of rows. The methods fill them with the source's nested loops and are proved equal to pure reference definitions:

- `NaiveLattice`: the power formula at each node.
- `RecombinedLattice`: level `S * u^(j-2i)` at node `(i, j)`.
- `ValueLattice`: backward induction `Induct` from the terminal payoffs.

## Model

| member | source | states |
|---|---|---|
| PriceTree.Bop | price_tree.py:15-23 | Node `(i, j)` with `i <= j` holds `S * d^i * u^(j-i)`. Every entry below the diagonal stays zero. The result is the lattice whose node `(i, j)` is level `S * u^(j-2i)`. |
| Powers.Recombine | price_tree.py:17-22 | Because `d = 1/u`, `i` down moves and `m` up moves give the integer power `u^(m-i)`. Only the net displacement matters. |
| PriceTree.Recombining | price_tree.py:17-22 | The naive lattice equals the lattice of levels. Each node's price depends only on `j - 2i`. |
| PriceTree.FillCandidates | price_tree.py:54-57 | The two `tmp` rows, read in row order, are the levels `S * u^(-j)` for `j` in `0..n` followed by `S * u^j`. |
| SortedUnique.Unique | price_tree.py:58 | The deduplicated array is strictly increasing. It holds exactly the input's values and is no longer than the input. |
| SortedUnique.SortedBySet | price_tree.py:58 | Two strictly increasing arrays with the same values are equal. So `unique`'s contract fixes its result. |
| PriceTree.LevelsStrictlyIncreasing | price_tree.py:55-58 | With `u > 1` and `S > 0`, the levels `S * u^(k-n)` for `k` in `0..2n` are strictly increasing. |
| PriceTree.CandidatesAreLevels | price_tree.py:55-58 | The `2(n+1)` candidates hold exactly the values of the `2n+1` levels. |
| PriceTree.UniqueCandidates | price_tree.py:55-58 | With `u > 1` and `S > 0`, `unique` drops exactly the repeated spot price, so `tot[k] == S * u^(k-n)`. |
| PriceTree.FlatCandidatesCollapse | price_tree.py:58-62 | With `u == 1`, `unique` leaves the single level `[S]`. For `n >= 1`, the first read `tot[n]` is then out of range. |
| Matrices.PyIndex | price_tree.py:62 | A Python index in `-len..len-1` addresses the position congruent to it modulo `len`. A non-negative index addresses itself. |
| PriceTree.CopyIndices | price_tree.py:59-63 | Every read index `(n-i)+j` lies in `0..2n`. Every negative column `j-c-1` lies in `-(n+1)..-1` and addresses column `i+j`. The written cells are exactly the upper triangle. |
| PriceTree.CopyLevels | price_tree.py:59-63 | After the copy loop, node `(i, j)` holds `tot[n + j - 2i]` and everything below the diagonal is zero. |
| PriceTree.LevelsFillLattice | price_tree.py:59-63 | Copying the levels by net displacement yields the lattice of levels. |
| PriceTree.BetterBop | price_tree.py:46-64 | The optimised lattice holds level `S * u^(j-2i)` at every node and zero below the diagonal. It equals the naive lattice exactly, which the script compares with `allclose`. |
| Bopm.Payoff | BOPM.py:27-34 | Flag 1 pays `max(K - price, 0)`. Flag 0 pays `max(price - K, 0)`. Any other flag pays nothing. Every payoff is non-negative. |
| Bopm.RiskNeutral | BOPM.py:12 | `p = (g - d)/(u - d)` makes the expected one-step growth `p*u + (1-p)*d` equal `g`. `p` lies in `[0, 1]` exactly when `d <= g <= u`. |
| Bopm.BackwardInduction | BOPM.py:25-36 | The loop computes the value lattice. The last column holds the put or call payoff on `Pm[i][n]`. Entries below the diagonal are zero. A flag other than 0 or 1 leaves all of `Cm` zero. With `0 <= p <= 1` and `disc >= 0`, every entry is non-negative. |
| Bopm.ValueLatticeFacts | BOPM.py:25-36 | The value lattice's last column is the payoff, it is all zero for an unpriced flag, and it is non-negative under `0 <= p <= 1` and `disc >= 0`. |
| Bopm.ValueRecurrence | BOPM.py:31 | Before expiry, a node is worth `disc * (p * up + (1-p) * down)` of its successors `(i, col+1)` and `(i+1, col+1)` in the next column. |
| Bopm.InductNonNegative | BOPM.py:29-36 | Non-negative payoffs, `0 <= p <= 1` and `disc >= 0` give non-negative induced values at every node. |
| Parity.InductLinear | BOPM.py:25-36 | Backward induction maps a difference of terminal columns to the difference of the induced values. |
| Parity.InductMono | BOPM.py:25-36 | With `0 <= p <= 1` and `disc >= 0`, terminal values that are pointwise no larger induce values that are no larger at every node. |
| Parity.InductForward | BOPM.py:25-36 | On the forward payoff `level - K`, backward induction gives `level * G^m - K * disc^m` at a node `m` steps before expiry. Here `G = disc * (p*u + (1-p)*d)`. |
| Parity.PutCallGap | BOPM.py:25-36 | At the root, call value minus put value is `S * G^n - K * disc^n`. |
| Parity.PutCallParity | BOPM.py:25-36 | With `G == 1`, call value minus put value is `S - K * disc^n`. |
| Parity.ParityNeedsMartingale | BOPM.py:25-36 | With `n >= 1`, `S > 0` and `G > 0`, parity holds if and only if `G == 1`. |
| Parity.CallBound | BOPM.py:25-36 | With `S > 0`, `K >= 0`, `0 <= p <= 1` and `disc >= 0`, the call at the root is worth at most `S * G^n`. This is the upper no-arbitrage bound, matching the lower bound `0`. |
| Parity.PutBound | BOPM.py:25-36 | Under the same conditions, the put at the root is worth at most the strike discounted over all steps, `K * disc^n`. |
| Parity.NodeMartingale | BOPM.py:12 | A price node equals the discounted risk-neutral average of its successors if and only if `G == 1`. This is the risk-neutral measure's defining property. |
| Parity.GrowthAtRate | BOPM.py:12 | With `p` from growth factor `g`, the discounted expected growth is `disc * g`. |
| Pricer.OptionsVal | BOPM.py:8-37 | The returned price lattice is the lattice of levels. The value lattice is backward induction with `p` from `g` and the fixed discount. The last column is the payoff at level `n - 2i`. The call value exceeds the put value by `S * (disc*g)^n - K * disc^n`. With `d <= g <= u`, `K >= 0` and `disc >= 0`, the call is worth at most `S * (disc*g)^n`, a bound above the spot when `disc > 1/g` and `n >= 1`. |
| Pricer.OptionsValAtRate | BOPM.py:8-37 | The same pricer, discounting at `1/g`. The call value exceeds the put value by exactly `S - K * (1/g)^n`. With `d <= g <= u` and `K >= 0`, the call is worth at most the spot. |
| Pricer.FixedRateBreaksParity | BOPM.py:31 | Take `n = 1`, `S = K = 100`, `u = 2`, `g = 1.25`. A fixed discount of `0.5` gives call minus put `12.5`, not the parity value `50`. Discounting at `0.8 = 1/g` restores parity. |
| Pricer.FixedRateOverpricesCall | BOPM.py:31 | Same lattice with `K = 1`: a fixed discount of `0.9`, above `1/g`, values the call above the spot `100`. Discounting at `0.8 = 1/g` keeps it at or below the spot. |

## Left out

- `exp`, `sqrt` and `pow` in floating point (price_tree.py:16-18, BOPM.py:9-12) are left out. Their real-valued results are parameters: `u = exp(v*sqrt(dt))`, `g = exp(r*dt)`, and the discount `exp(-0.05*dt)`. Rounding is not modelled; all arithmetic is exact.
- `dt = t/n` divides by zero when `n == 0`. Since `dt` is not modelled, `n == 0` gives the one-node lattice.
- `np.unique` is modelled by its contract and an insertion-based definition, not NumPy's sorting routine.
- `np.allclose` (price_tree.py:85) becomes exact equality: `PriceTree.BetterBop` ensures the two lattices are equal.
- The script cells are not modelled: fixed demo inputs, `print`, `astype(int)` and the `timeit` cell magics (price_tree.py:30-39, 65-85; BOPM.py:40-51). They are I/O and timing.
- The unused zero arrays `ups`, `dwns` and `tot` (price_tree.py:50-52) are overwritten or never read. They are not modelled.
- PriceTree.BetterBop and Pricer.OptionsVal require `u > 1` and `S > 0`. Since `u = exp(v*sqrt(t/n))`, a positive volatility, a positive maturity and a positive spot give exactly that. With `t == 0`, `u == 1` for every volatility and the `u == 1` cases below apply; a negative `t` makes `sqrt` raise (price_tree.py:16-17, BOPM.py:9-10). The model does not describe the lattice or the error in the other cases, which behave as follows. In `better_bop`, when exactly one of `u < 1` and `S < 0` holds, the sorted levels come out in reverse order; when both hold, the two reversals cancel. With `u == 1` or `S == 0`, `better_bop` raises an index error when `n >= 1` (see `FlatCandidatesCollapse`). In `OptionsVal`, `u == 1` divides by `u - d == 0` at BOPM.py:12 before the levels are built. `S == 0` raises the same index error as in `better_bop` when `n >= 1`, and the reversal cases behave as in `better_bop`.
- Bopm.BackwardInduction states non-negativity only under `0 <= p <= 1` and `disc >= 0`. The source does not check `p` either.

## Findings

| source | as written | input that shows it | evidently intended | confidence | as-written member | corrected member |
|---|---|---|---|---|---|---|
| BOPM.py:31 | Every step is discounted by `exp(-.05*dt)`, a fixed rate (lines 31 and 36). The risk-neutral probability uses the caller's rate `r` (line 12). | Any `r != 0.05`, e.g. `r = 0.03`. Then `disc * exp(r*dt) = exp(-0.02*dt) != 1`, so call minus put differs from `S - K*exp(-0.05*T)`. `Pricer.FixedRateBreaksParity` works one concrete step: a gap of `12.5` against a parity value of `50`. With a fixed discount above `1/g`, i.e. `r > 0.05`, the call can be worth more than the stock, for example with a small strike; `Pricer.FixedRateOverpricesCall` shows a call with strike `1` valued above a spot of `100`. | Discount at the caller's rate, `exp(-r*dt) = 1/g`. The discounted price is then a martingale and put-call parity holds. | not executed; high | Pricer.OptionsVal | Pricer.OptionsValAtRate |
