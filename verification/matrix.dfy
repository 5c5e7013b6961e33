/** The `bool[][] edges` adjacency matrix of `Graph` (Graphsky/Graphsky/Graph.cs). */
module BoolMatrix {

  type Matrix = seq<seq<bool>>

  /** `n` rows, each of length `n`. */
  predicate IsSquare(m: Matrix, n: nat) {
    |m| == n && forall i :: 0 <= i < n ==> |m[i]| == n
  }

  /** The matrix the constructor allocates: `n` by `n`, every entry false. */
  function Empty(n: nat): (m: Matrix)
    ensures IsSquare(m, n)
    ensures forall i, j :: 0 <= i < n && 0 <= j < n ==> !m[i][j]
  {
    seq(n, _ => seq(n, _ => false))
  }

  /** `edges[i][j] = true`: entry (i, j) becomes true, nothing else changes. */
  function SetEntry(m: Matrix, i: nat, j: nat): (r: Matrix)
    requires i < |m| && j < |m[i]|
    ensures |r| == |m|
    ensures forall a :: 0 <= a < |m| ==> |r[a]| == |m[a]|
    ensures r[i][j]
    ensures forall a, b :: 0 <= a < |m| && 0 <= b < |m[a]| && (a != i || b != j) ==> r[a][b] == m[a][b]
  {
    m[i := m[i][j := true]]
  }

  /** Two square matrices of the same size with the same entries are the same matrix. */
  lemma SameEntriesSameMatrix(m1: Matrix, m2: Matrix, n: nat)
    requires IsSquare(m1, n) && IsSquare(m2, n)
    requires forall i, j :: 0 <= i < n && 0 <= j < n ==> m1[i][j] == m2[i][j]
    ensures m1 == m2
  {
    forall i | 0 <= i < n
      ensures m1[i] == m2[i]
    {
      assert forall j :: 0 <= j < n ==> m1[i][j] == m2[i][j];
    }
  }
}
