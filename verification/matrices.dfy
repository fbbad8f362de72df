/**
 Square real matrices as immutable sequences of rows, the zero matrix NumPy's
 `zeros((n+1, n+1))` starts from, single-entry assignment, and Python's
 reading of a negative index as an offset from the end of an axis.
 */
module Matrices {

  /** A matrix is a sequence of rows; `m[i][j]` is row `i`, column `j`. */
  type Matrix = seq<seq<real>>

  /** `m` has `size` rows of `size` entries each. */
  predicate IsSquare(m: Matrix, size: nat) {
    |m| == size && forall i :: 0 <= i < size ==> |m[i]| == size
  }

  /** The `size` by `size` matrix of zeros. */
  function Zeros(size: nat): (m: Matrix)
    ensures IsSquare(m, size)
    ensures forall i, j :: 0 <= i < size && 0 <= j < size ==> m[i][j] == 0.0
  {
    seq(size, i => seq(size, j => 0.0))
  }

  /** `m` with entry `(i, j)` set to `v`; every other entry is unchanged. */
  function Update(m: Matrix, i: nat, j: nat, v: real): (r: Matrix)
    requires i < |m| && j < |m[i]|
    ensures |r| == |m|
    ensures forall a :: 0 <= a < |m| ==> |r[a]| == |m[a]|
    ensures r[i][j] == v
    ensures forall a, b :: 0 <= a < |m| && 0 <= b < |m[a]| && (a, b) != (i, j) ==> r[a][b] == m[a][b]
  {
    m[i := m[i][j := v]]
  }

  /** Two square matrices of one size with the same entries are equal. */
  lemma {:induction false} SameEntries(m: Matrix, m': Matrix, size: nat)
    requires IsSquare(m, size) && IsSquare(m', size)
    requires forall i, j :: 0 <= i < size && 0 <= j < size ==> m[i][j] == m'[i][j]
    ensures m == m'
  {
    forall i | 0 <= i < size
      ensures m[i] == m'[i]
    {
      assert forall j :: 0 <= j < size ==> m[i][j] == m'[i][j];
    }
  }

  /**
   Python's index on an axis of length `len`: `-len <= idx < len` is accepted
   and a negative `idx` counts back from the end. The result is the one
   in-range position congruent to `idx` modulo `len`.
   */
  function PyIndex(idx: int, len: nat): (r: nat)
    requires -(len as int) <= idx < len
    ensures r < len
    ensures (r - idx) % len == 0
    ensures idx >= 0 ==> r == idx
  {
    if idx < 0 then len + idx else idx
  }
}
