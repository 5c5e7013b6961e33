/**
  The `Graph` constructor written as the source writes it: two nested loops
  that fill the matrix with `false`, then one pass over the pairs.
 */
module GraphBuilder {
  import opened Wrappers
  import opened Nodes
  import opened BoolMatrix
  import opened IdSort
  import opened Graphs

  /** The nested loops that allocate `edges` and set every entry to false. */
  method AllocateEdges(n: nat) returns (edges: Matrix)
    ensures IsSquare(edges, n)
    ensures forall i, j :: 0 <= i < n && 0 <= j < n ==> !edges[i][j]
  {
    edges := [];
    var i := 0;
    while i < n
      invariant 0 <= i <= n
      invariant |edges| == i
      invariant forall a :: 0 <= a < i ==> |edges[a]| == n
      invariant forall a, b :: 0 <= a < i && 0 <= b < n ==> !edges[a][b]
    {
      var row: seq<bool> := [];
      var j := 0;
      while j < n
        invariant 0 <= j <= n
        invariant |row| == j
        invariant forall b :: 0 <= b < j ==> !row[b]
      {
        row := row + [false];
        j := j + 1;
      }
      edges := edges + [row];
      i := i + 1;
    }
  }

  /** `new Graph(nodes_, adj_mat)` step by step; it computes what `NewGraph` describes. */
  method Construct(nodes: seq<Node>, pairs: seq<seq<int32>>) returns (r: Result<Graph, BuildError>)
    ensures r == NewGraph(nodes, pairs)
  {
    var sorted := SortById(nodes);
    assert |sorted| == |nodes| by {
      assert |multiset(sorted)| == |multiset(nodes)|;
    }
    var ids := Ids(sorted);
    var n := |sorted|;
    var edges := AllocateEdges(n);
    SameEntriesSameMatrix(edges, Empty(n), n);
    var k := 0;
    while k < |pairs|
      invariant 0 <= k <= |pairs|
      invariant IsSquare(edges, n)
      invariant AddPairs(ids, Empty(n), pairs[..k]) == Success(edges)
    {
      assert pairs[..k + 1][..k] == pairs[..k];
      var pair := pairs[k];
      if |pair| < 2 {
        r := Failure(IndexOutOfRange(k));
        assert AddPairs(ids, Empty(n), pairs[..k + 1]) == Failure(IndexOutOfRange(k));
        FailureIsFinal(ids, Empty(n), pairs, k + 1);
        return;
      }
      var from := FindIndex(ids, pair[0]);
      var to := FindIndex(ids, pair[1]);
      if from < 0 || to < 0 {
        r := Failure(IndexOutOfRange(k));
        assert AddPairs(ids, Empty(n), pairs[..k + 1]) == Failure(IndexOutOfRange(k));
        FailureIsFinal(ids, Empty(n), pairs, k + 1);
        return;
      }
      edges := SetEntry(edges, from, to);
      k := k + 1;
    }
    assert pairs[..k] == pairs;
    r := Success(Graph(sorted, edges));
  }
}
