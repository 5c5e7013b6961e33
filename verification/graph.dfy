/**
  Model of the `Graph` constructor (Graphsky/Graphsky/Graph.cs): the nodes are
  sorted by id, an n-by-n matrix of `false` is allocated, and every
  `(from_id, to_id)` pair of `adj_mat` sets one entry, its endpoints resolved
  to indices with `Array.FindIndex`.
 */
module Graphs {
  import opened Wrappers
  import opened Nodes
  import opened BoolMatrix
  import opened IdSort

  /** The constructed graph: `nodes` in sorted order and `edges[from][to]`. */
  datatype Graph = Graph(nodes: seq<Node>, edges: Matrix)

  /**
    The constructor throws `IndexOutOfRangeException` while handling the pair
    at position `pair` of `adj_mat`: the pair has fewer than two entries, or
    an endpoint is missing, so `FindIndex` yields -1 and `edges[-1]` (absent
    `from`) or `edges[from][-1]` (absent `to`) is read.
   */
  datatype BuildError = IndexOutOfRange(pair: nat)

  /** `Array.FindIndex(nodes, a => a.Id == v)`: the lowest index holding `v`, or -1. */
  function FindIndex(ids: seq<int32>, v: int32): (r: int)
    ensures -1 <= r < |ids|
    ensures r == -1 <==> v !in ids
    ensures 0 <= r ==> ids[r] == v && forall t :: 0 <= t < r ==> ids[t] != v
    decreases |ids|
  {
    if |ids| == 0 then -1
    else if ids[0] == v then 0
    else
      assert ids == [ids[0]] + ids[1..];
      var k := FindIndex(ids[1..], v);
      if k == -1 then -1 else k + 1
  }

  /** A pair the loop body handles without throwing: two entries, both ids present. */
  predicate PairOk(ids: seq<int32>, p: seq<int32>) {
    |p| >= 2 && p[0] in ids && p[1] in ids
  }

  /** Some pair of `pairs` resolves to the indices (a, b). */
  predicate Links(ids: seq<int32>, pairs: seq<seq<int32>>, a: int, b: int) {
    exists k :: 0 <= k < |pairs| && |pairs[k]| >= 2 && FindIndex(ids, pairs[k][0]) == a && FindIndex(ids, pairs[k][1]) == b
  }

  /** The `foreach` over `adj_mat`, pair by pair in order, starting from matrix `m`. */
  function AddPairs(ids: seq<int32>, m: Matrix, pairs: seq<seq<int32>>): (r: Result<Matrix, BuildError>)
    requires IsSquare(m, |ids|)
    ensures r.Success? <==> forall k :: 0 <= k < |pairs| ==> PairOk(ids, pairs[k])
    ensures r.Failure? ==>
      && r.error.pair < |pairs|
      && !PairOk(ids, pairs[r.error.pair])
      && forall k :: 0 <= k < r.error.pair ==> PairOk(ids, pairs[k])
    ensures r.Success? ==> IsSquare(r.value, |ids|)
    ensures r.Success? ==>
      forall a, b :: 0 <= a < |ids| && 0 <= b < |ids| ==>
        (r.value[a][b] <==> m[a][b] || Links(ids, pairs, a, b))
    decreases |pairs|
  {
    if |pairs| == 0 then Success(m)
    else
      var last := |pairs| - 1;
      var prefix := pairs[..last];
      assert forall k :: 0 <= k < last ==> prefix[k] == pairs[k];
      match AddPairs(ids, m, prefix)
      case Failure(e) => Failure(e)
      case Success(m') =>
        var p := pairs[last];
        if |p| < 2 then Failure(IndexOutOfRange(last))
        else
          var from := FindIndex(ids, p[0]);
          var to := FindIndex(ids, p[1]);
          if from < 0 || to < 0 then Failure(IndexOutOfRange(last))
          else
            LinksOfLastPair(ids, pairs);
            Success(SetEntry(m', from, to))
  }

  /** The pairs link exactly what the pairs before the last one link, plus the last pair's endpoints. */
  lemma LinksOfLastPair(ids: seq<int32>, pairs: seq<seq<int32>>)
    requires |pairs| > 0 && |pairs[|pairs| - 1]| >= 2
    ensures forall a, b :: Links(ids, pairs, a, b) <==>
      Links(ids, pairs[..|pairs| - 1], a, b)
      || (a == FindIndex(ids, pairs[|pairs| - 1][0]) && b == FindIndex(ids, pairs[|pairs| - 1][1]))
  {
  }

  /** An exception ends the loop: the pairs after the one that threw are never looked at. */
  lemma {:induction false} FailureIsFinal(ids: seq<int32>, m: Matrix, pairs: seq<seq<int32>>, k: nat)
    requires IsSquare(m, |ids|) && k <= |pairs|
    requires AddPairs(ids, m, pairs[..k]).Failure?
    ensures AddPairs(ids, m, pairs) == AddPairs(ids, m, pairs[..k])
    decreases |pairs| - k
  {
    if k < |pairs| {
      var last := |pairs| - 1;
      assert pairs[..last][..k] == pairs[..k];
      FailureIsFinal(ids, m, pairs[..last], k);
    } else {
      assert pairs[..k] == pairs;
    }
  }

  /**
    `new Graph(nodes_, adj_mat)`: the sorted nodes and the edge matrix, or the
    exception raised by the first pair that cannot be resolved.
   */
  function NewGraph(nodes: seq<Node>, pairs: seq<seq<int32>>): (r: Result<Graph, BuildError>)
    ensures r.Success? <==>
      forall k :: 0 <= k < |pairs| ==> |pairs[k]| >= 2 && pairs[k][0] in Ids(nodes) && pairs[k][1] in Ids(nodes)
    ensures r.Failure? ==>
      && r.error.pair < |pairs|
      && !PairOk(Ids(nodes), pairs[r.error.pair])
      && forall k :: 0 <= k < r.error.pair ==> PairOk(Ids(nodes), pairs[k])
    ensures r.Success? ==> SortedById(r.value.nodes) && multiset(r.value.nodes) == multiset(nodes)
    ensures r.Success? ==> IsSquare(r.value.edges, |nodes|)
    ensures r.Success? ==>
      forall a, b :: 0 <= a < |nodes| && 0 <= b < |nodes| ==>
        (r.value.edges[a][b] <==> Links(Ids(r.value.nodes), pairs, a, b))
  {
    var sorted := SortById(nodes);
    assert |sorted| == |nodes| by {
      assert |multiset(sorted)| == |multiset(nodes)|;
    }
    var ids := Ids(sorted);
    SameNodesSameIds(sorted, nodes);
    assert forall p :: PairOk(ids, p) <==> PairOk(Ids(nodes), p);
    match AddPairs(ids, Empty(|sorted|), pairs)
    case Failure(e) => Failure(e)
    case Success(m) => Success(Graph(sorted, m))
  }
}
