/**
 The Cox-Ross-Rubinstein price lattice. Row `i` counts down moves and column
 `j` counts time steps, so node `(i, j)` with `i <= j` is reached by `i` down
 moves and `j - i` up moves from the spot price `S`; entries below the
 diagonal (`i > j`) are not nodes and stay zero.

 Two builders: `Bop` evaluates the power formula at every node, and
 `BetterBop` computes the `2n+1` distinct price levels once, sorts and
 deduplicates them, and copies them into the upper triangle through a
 negative column index. Both produce the same lattice.

 The up factor `u` is a parameter (price_tree.py's `bop` and `better_bop`
 derive it from volatility and step length with `exp` and `sqrt`); the down
 factor is `1/u`.
 */
module PriceTree {
  import opened Powers
  import opened SortedUnique
  import opened Matrices

  /** The price after a net displacement of `z` up moves: `S * u^z`. */
  function Level(S: real, u: real, z: int): real
    requires u > 0.0
  {
    S * IntPow(u, z)
  }

  /** With a positive spot every level is positive. */
  lemma LevelPositive(S: real, u: real, z: int)
    requires u > 0.0 && S > 0.0
    ensures Level(S, u, z) > 0.0
  {
    IntPowPositive(u, z);
    Positive(S, IntPow(u, z));
  }

  /** The naive builder's formula for node `(i, j)`: `S * d^i * u^(j-i)`. */
  function NaiveEntry(S: real, u: real, i: int, j: int): real
    requires u > 0.0 && 0 <= i <= j
  {
    S * Pow(Down(u), i) * Pow(u, j - i)
  }

  /** The naive lattice: the power formula on the upper triangle, zero below. */
  function NaiveLattice(n: nat, S: real, u: real): (m: Matrix)
    requires u > 0.0
    ensures IsSquare(m, n + 1)
    ensures forall i, j :: 0 <= i <= j <= n ==> m[i][j] == NaiveEntry(S, u, i, j)
    ensures forall i, j :: 0 <= j < i <= n ==> m[i][j] == 0.0
  {
    seq(n + 1, i => seq(n + 1, j => if 0 <= i <= j then NaiveEntry(S, u, i, j) else 0.0))
  }

  /** The lattice written by net displacement: node `(i, j)` is level `j - 2i`. */
  function RecombinedLattice(n: nat, S: real, u: real): (m: Matrix)
    requires u > 0.0
    ensures IsSquare(m, n + 1)
    ensures forall i, j :: 0 <= i <= j <= n ==> m[i][j] == Level(S, u, j - 2 * i)
    ensures forall i, j :: 0 <= j < i <= n ==> m[i][j] == 0.0
  {
    seq(n + 1, i => seq(n + 1, j => if i <= j then Level(S, u, j - 2 * i) else 0.0))
  }

  /**
   Recombination: because `d = 1/u`, a node's price depends only on its net
   displacement, so the naive lattice is the lattice of levels.
   */
  lemma Recombining(n: nat, S: real, u: real)
    requires u > 0.0
    ensures NaiveLattice(n, S, u) == RecombinedLattice(n, S, u)
    ensures forall i, j :: 0 <= i <= j <= n ==> NaiveLattice(n, S, u)[i][j] == Level(S, u, j - 2 * i)
  {
    var naive, levels := NaiveLattice(n, S, u), RecombinedLattice(n, S, u);
    forall i, j | 0 <= i <= n && 0 <= j <= n
      ensures naive[i][j] == levels[i][j]
    {
      if i <= j {
        NaiveEntryIsLevel(S, u, i, j);
      }
    }
    SameEntries(naive, levels, n + 1);
  }

  /** The recombining identity at one node. */
  lemma NaiveEntryIsLevel(S: real, u: real, i: nat, j: nat)
    requires u > 0.0 && i <= j
    ensures NaiveEntry(S, u, i, j) == Level(S, u, j - 2 * i)
  {
    Recombine(u, i, j - i);
    Assoc(S, Pow(Down(u), i), Pow(u, j - i));
    assert (j - i) - i == j - 2 * i;
  }

  /** The `2n+1` distinct price levels in increasing order: entry `k` is `S * u^(k-n)`. */
  function Levels(n: nat, S: real, u: real): (r: seq<real>)
    requires u > 0.0
    ensures |r| == 2 * n + 1
    ensures forall k :: 0 <= k < |r| ==> r[k] == Level(S, u, k - n)
  {
    seq(2 * n + 1, k => Level(S, u, k - n))
  }

  /** With `u > 1` and `S > 0`, the levels are strictly increasing. */
  lemma LevelsStrictlyIncreasing(n: nat, S: real, u: real)
    requires u > 1.0 && S > 0.0
    ensures StrictlyIncreasing(Levels(n, S, u))
  {
    var levels := Levels(n, S, u);
    forall a, b | 0 <= a < b < |levels|
      ensures levels[a] < levels[b]
    {
      LevelStrictlyIncreasing(S, u, a - n, b - n);
    }
  }

  /** With `u > 1` and `S > 0`, a larger net displacement gives a higher price. */
  lemma LevelStrictlyIncreasing(S: real, u: real, a: int, b: int)
    requires u > 1.0 && S > 0.0 && a < b
    ensures Level(S, u, a) < Level(S, u, b)
  {
    var x, y := IntPow(u, a), IntPow(u, b);
    IntPowStrictlyIncreasing(u, a, b);
    ScaleStrict(S, x, y, Level(S, u, a), Level(S, u, b));
  }

  /** Scaling by a positive factor keeps a strict inequality. */
  lemma ScaleStrict(S: real, x: real, y: real, sx: real, sy: real)
    requires S > 0.0 && x < y && sx == S * x && sy == S * y
    ensures sx < sy
  {
    assert sy - sx == S * (y - x);
  }

  /**
   The two rows of candidate prices, flattened in row order as NumPy's
   `unique` reads them: `S * d^j` for `j` in `0..n`, then `S * u^j`, each
   written as a level.
   */
  function Candidates(n: nat, S: real, u: real): (r: seq<real>)
    requires u > 0.0
    ensures |r| == 2 * (n + 1)
  {
    seq(n + 1, j => Level(S, u, -j)) + seq(n + 1, j => Level(S, u, j))
  }

  /** The candidate values are exactly the levels `S * u^z` for `-n <= z <= n`. */
  lemma CandidatesAreLevels(n: nat, S: real, u: real)
    requires u > 0.0
    ensures forall y :: y in Candidates(n, S, u) <==> y in Levels(n, S, u)
  {
    var cands, levels := Candidates(n, S, u), Levels(n, S, u);
    forall y | y in cands
      ensures y in levels
    {
      var k :| 0 <= k < |cands| && cands[k] == y;
      if k <= n {
        assert y == Level(S, u, -k) == levels[n - k];
      } else {
        assert y == Level(S, u, k - (n + 1)) == levels[k - 1];
      }
    }
    forall y | y in levels
      ensures y in cands
    {
      var k :| 0 <= k < |levels| && levels[k] == y;
      if k < n {
        assert y == Level(S, u, -(n - k)) == cands[n - k];
      } else {
        assert y == Level(S, u, k - n) == cands[k + 1];
      }
    }
  }

  /**
   With `u > 1` and `S > 0`, deduplicating and sorting the `2(n+1)`
   candidates drops exactly the repeated spot price and yields the levels:
   `tot[k] == S * u^(k-n)`.
   */
  lemma UniqueCandidates(n: nat, S: real, u: real)
    requires u > 1.0 && S > 0.0
    ensures Unique(Candidates(n, S, u)) == Levels(n, S, u)
    ensures |Unique(Candidates(n, S, u))| == |Candidates(n, S, u)| - 1
  {
    CandidatesAreLevels(n, S, u);
    LevelsStrictlyIncreasing(n, S, u);
    SortedBySet(Unique(Candidates(n, S, u)), Levels(n, S, u));
  }

  /**
   With `u == 1` every candidate is the spot price, so deduplication leaves a
   single level and, for `n >= 1`, the first read `tot[n]` is out of range.
   */
  lemma FlatCandidatesCollapse(n: nat, S: real)
    ensures Unique(Candidates(n, S, 1.0)) == [S]
    ensures n >= 1 ==> |Unique(Candidates(n, S, 1.0))| <= n
  {
    var cands := Candidates(n, S, 1.0);
    forall j | 0 <= j <= n
      ensures cands[j] == S
    {
      IntPowOfOne(-j);
    }
    forall j | n + 1 <= j <= 2 * n + 1
      ensures cands[j] == S
    {
      IntPowOfOne(j - (n + 1));
    }
    forall y
      ensures y in cands <==> y in [S]
    {
      if y in cands {
        var k :| 0 <= k < |cands| && cands[k] == y;
      }
      if y == S {
        assert cands[0] == S;
      }
    }
    SortedBySet(Unique(cands), [S]);
  }

  /** The level read for row `i`, inner step `j` of the copy loop: `(n-i)+j`. */
  function ReadIndex(n: nat, i: int, j: int): int {
    (n - i) + j
  }

  /** The column written for row `i`, inner step `j`: `j-c-1` with `c = n-i`. */
  function WriteColumn(n: nat, i: int, j: int): int {
    j - (n - i) - 1
  }

  /**
   The copy loop's index arithmetic: for row `i` and `0 <= j <= n-i`, the
   read index lies in `0..2n`, the negative column lies in `-(n+1)..-1` and
   addresses column `i+j`, and the cells written are exactly the upper
   triangle.
   */
  lemma {:induction false} CopyIndices(n: nat)
    ensures forall i, j :: 0 <= i <= n && 0 <= j <= n - i ==>
      0 <= ReadIndex(n, i, j) <= 2 * n && -(n + 1) <= WriteColumn(n, i, j) <= -1
    ensures forall i, j :: 0 <= i <= n && 0 <= j <= n - i ==>
      PyIndex(WriteColumn(n, i, j), n + 1) == i + j
    ensures (set i, j | 0 <= i <= n && 0 <= j <= n - i :: (i, PyIndex(WriteColumn(n, i, j), n + 1)))
         == (set a, b | 0 <= a <= b <= n :: (a, b))
  {
    var written := set i, j | 0 <= i <= n && 0 <= j <= n - i :: (i, PyIndex(WriteColumn(n, i, j), n + 1));
    var triangle := set a, b | 0 <= a <= b <= n :: (a, b);
    forall a, b | 0 <= a <= b <= n
      ensures (a, b) in written
    {
      assert (a, PyIndex(WriteColumn(n, a, b - a), n + 1)) == (a, b);
    }
    assert triangle <= written;
  }

  /**
   The naive builder: for each time step `j` and each down count `i <= j`,
   node `(i, j)` gets `S * d^i * u^(j-i)`; everything else stays zero.
   */
  method Bop(n: nat, S: real, u: real) returns (pm: Matrix)
    requires u > 0.0
    ensures IsSquare(pm, n + 1)
    ensures forall i, j :: 0 <= i <= j <= n ==> pm[i][j] == S * Pow(Down(u), i) * Pow(u, j - i)
    ensures forall i, j :: 0 <= j < i <= n ==> pm[i][j] == 0.0
    ensures pm == RecombinedLattice(n, S, u)
  {
    var d := Down(u);
    pm := Zeros(n + 1);
    for j := 0 to n + 1
      invariant IsSquare(pm, n + 1)
      invariant forall a, b :: 0 <= a <= n && 0 <= b <= n ==>
        pm[a][b] == (if a <= b < j then NaiveEntry(S, u, a, b) else 0.0)
    {
      for i := 0 to j + 1
        invariant IsSquare(pm, n + 1)
        invariant forall a, b :: 0 <= a <= n && 0 <= b <= n ==>
          pm[a][b] == (if a <= b && (b < j || (b == j && a < i)) then NaiveEntry(S, u, a, b) else 0.0)
      {
        pm := Update(pm, i, j, S * Pow(d, i) * Pow(u, j - i));
      }
    }
    SameEntries(pm, NaiveLattice(n, S, u), n + 1);
    Recombining(n, S, u);
  }

  /**
   Fills the two rows of `tmp`, `S * d^j` and `S * u^j` for `j` in `0..n`;
   read in row order they are the candidates.
   */
  method FillCandidates(n: nat, S: real, u: real) returns (downRow: seq<real>, upRow: seq<real>)
    requires u > 0.0
    ensures downRow + upRow == Candidates(n, S, u)
  {
    downRow, upRow := [], [];
    for j := 0 to n + 1
      invariant |downRow| == j && |upRow| == j
      invariant forall k :: 0 <= k < j ==> downRow[k] == Scaled(S, Down(u), k)
      invariant forall k :: 0 <= k < j ==> upRow[k] == Scaled(S, u, k)
    {
      downRow := downRow + [S * Pow(Down(u), j)];
      upRow := upRow + [S * Pow(u, j)];
    }
    RowsAreCandidates(n, S, u, downRow, upRow);
  }

  /** The rows `S * d^j` and `S * u^j` for `j` in `0..n`, read in row order, are the candidates. */
  lemma RowsAreCandidates(n: nat, S: real, u: real, downRow: seq<real>, upRow: seq<real>)
    requires u > 0.0
    requires |downRow| == n + 1 && |upRow| == n + 1
    requires forall k :: 0 <= k <= n ==> downRow[k] == Scaled(S, Down(u), k)
    requires forall k :: 0 <= k <= n ==> upRow[k] == Scaled(S, u, k)
    ensures downRow + upRow == Candidates(n, S, u)
  {
    var cands := Candidates(n, S, u);
    forall k | 0 <= k <= n
      ensures downRow[k] == cands[k] && upRow[k] == cands[n + 1 + k]
    {
      CandidateLevels(S, u, k);
    }
    assert forall k :: 0 <= k < |cands| ==> (downRow + upRow)[k] == cands[k];
  }

  /** A candidate price, `S` scaled by `x^j`. */
  function Scaled(S: real, x: real, j: nat): real {
    S * Pow(x, j)
  }

  /** The candidates `S * d^j` and `S * u^j` are the levels `-j` and `j`. */
  lemma CandidateLevels(S: real, u: real, j: nat)
    requires u > 0.0
    ensures S * Pow(Down(u), j) == Level(S, u, -(j as int))
    ensures S * Pow(u, j) == Level(S, u, j)
  {
    DownPowIsIntPow(u, j);
    PowIsIntPow(u, j);
  }

  /**
   The copy loop: for row `i` (with `c = n - i`) and `0 <= j <= c`, writes
   `tot[(n-i)+j]` into the negative column `j-c-1`, which is column `i+j`.
   Node `(i, j)` of the result therefore holds level `tot[n + j - 2i]`, and
   every entry below the diagonal stays zero.
   */
  method CopyLevels(n: nat, tot: seq<real>) returns (pm: Matrix)
    requires |tot| == 2 * n + 1
    ensures IsSquare(pm, n + 1)
    ensures forall i, j :: 0 <= i <= j <= n ==> pm[i][j] == tot[n + j - 2 * i]
    ensures forall i, j :: 0 <= j < i <= n ==> pm[i][j] == 0.0
  {
    CopyIndices(n);
    pm := Zeros(n + 1);
    var c: int := n;
    for i := 0 to n + 1
      invariant c == n - i
      invariant IsSquare(pm, n + 1)
      invariant forall a, b :: 0 <= a <= n && 0 <= b <= n ==>
        pm[a][b] == (if a < i && a <= b then tot[n + b - 2 * a] else 0.0)
    {
      for j := 0 to c + 1
        invariant IsSquare(pm, n + 1)
        invariant forall a, b :: 0 <= a <= n && 0 <= b <= n ==>
          pm[a][b] == (if (a < i && a <= b) || (a == i && i <= b < i + j) then tot[n + b - 2 * a] else 0.0)
      {
        assert j - c - 1 == WriteColumn(n, i, j) && (n - i) + j == ReadIndex(n, i, j);
        var col := PyIndex(j - c - 1, n + 1);
        pm := Update(pm, i, col, tot[(n - i) + j]);
      }
      c := c - 1;
    }
  }

  /**
   The optimised builder: computes the candidate levels, deduplicates and
   sorts them into `tot` with `Unique`, and copies them into the upper
   triangle. Requires `u > 1` and `S > 0`: otherwise the deduplicated levels
   do not line up with the nodes (for `u == 1` there is a single level and
   the reads run out of range).
   */
  method BetterBop(n: nat, S: real, u: real) returns (pm: Matrix)
    requires u > 1.0 && S > 0.0
    ensures IsSquare(pm, n + 1)
    ensures forall i, j :: 0 <= i <= j <= n ==> pm[i][j] == Level(S, u, j - 2 * i)
    ensures forall i, j :: 0 <= j < i <= n ==> pm[i][j] == 0.0
    ensures pm == RecombinedLattice(n, S, u)
    ensures pm == NaiveLattice(n, S, u)
  {
    var downRow, upRow := FillCandidates(n, S, u);
    var tot := Unique(downRow + upRow);
    UniqueCandidates(n, S, u);
    pm := CopyLevels(n, tot);
    LevelsFillLattice(n, S, u, pm);
    Recombining(n, S, u);
  }

  /** Copying the levels by net displacement produces the recombined lattice. */
  lemma LevelsFillLattice(n: nat, S: real, u: real, pm: Matrix)
    requires u > 0.0
    requires IsSquare(pm, n + 1)
    requires forall i, j :: 0 <= i <= j <= n ==> pm[i][j] == Levels(n, S, u)[n + j - 2 * i]
    requires forall i, j :: 0 <= j < i <= n ==> pm[i][j] == 0.0
    ensures pm == RecombinedLattice(n, S, u)
  {
    var lattice, levels := RecombinedLattice(n, S, u), Levels(n, S, u);
    forall i, j | 0 <= i <= j <= n
      ensures pm[i][j] == lattice[i][j]
    {
      var z := j - 2 * i;
      assert (n + j - 2 * i) - n == z;
      assert pm[i][j] == levels[n + j - 2 * i] == Level(S, u, z);
    }
    SameEntries(pm, lattice, n + 1);
  }
}
