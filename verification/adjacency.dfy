/**
  The region-adjacency matrix of `color_regions`.

  Entry `m[i][j]` is the answer of the (external) geometric "touches" test
  for regions i and j. The geometry itself is not modelled: the caller
  supplies the matrix.
 */
module Adjacency {

  type Matrix = seq<seq<bool>>

  /** `m` is an n-by-n matrix. */
  predicate IsSquare(m: Matrix, n: nat) {
    |m| == n && forall i :: 0 <= i < |m| ==> |m[i]| == n
  }

  /** No region is adjacent to itself. */
  predicate Irreflexive(m: Matrix)
    requires IsSquare(m, |m|)
  {
    forall i :: 0 <= i < |m| ==> !m[i][i]
  }

  /** Adjacency reads the same in both directions. */
  predicate Symmetric(m: Matrix)
    requires IsSquare(m, |m|)
  {
    forall i, j :: 0 <= i < |m| && 0 <= j < |m| ==> m[i][j] == m[j][i]
  }

  /** `np.fill_diagonal(matrix, False)`: every diagonal entry becomes false,
      every other entry is kept. */
  function ClearDiagonal(m: Matrix): (r: Matrix)
    requires IsSquare(m, |m|)
    ensures IsSquare(r, |m|)
    ensures Irreflexive(r)
    ensures forall i, j :: 0 <= i < |m| && 0 <= j < |m| && i != j ==> r[i][j] == m[i][j]
  {
    seq(|m|, i requires 0 <= i < |m| =>
      seq(|m|, j requires 0 <= j < |m| => i != j && m[i][j]))
  }

  /** Clearing the diagonal a second time changes nothing. */
  lemma ClearDiagonalIdempotent(m: Matrix)
    requires IsSquare(m, |m|)
    ensures ClearDiagonal(ClearDiagonal(m)) == ClearDiagonal(m)
  {
    var c := ClearDiagonal(m);
    var cc := ClearDiagonal(c);
    forall i | 0 <= i < |m|
      ensures cc[i] == c[i]
    {
      assert forall j :: 0 <= j < |m| ==> cc[i][j] == c[i][j];
    }
  }
}
