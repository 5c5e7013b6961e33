/** Properties of the constructed graph that relate several calls or hold for all inputs. */
module GraphProperties {
  import opened Wrappers
  import opened Nodes
  import opened BoolMatrix
  import opened IdSort
  import opened Graphs

  /** Without pairs, construction succeeds and every entry of the matrix stays false. */
  lemma NoPairsNoEdges(nodes: seq<Node>)
    ensures NewGraph(nodes, []).Success?
    ensures var g := NewGraph(nodes, []).value;
      IsSquare(g.edges, |nodes|) && forall a, b :: 0 <= a < |nodes| && 0 <= b < |nodes| ==> !g.edges[a][b]
  {
  }

  /** With distinct ids, looking up the id at index i finds i. */
  lemma FindIndexOfDistinct(ids: seq<int32>, i: int)
    requires Distinct(ids)
    requires 0 <= i < |ids|
    ensures FindIndex(ids, ids[i]) == i
  {
  }

  /** With distinct ids, a pair links indices (a, b) exactly when it names the ids at a and b. */
  lemma LinksOfDistinct(ids: seq<int32>, pairs: seq<seq<int32>>, a: int, b: int)
    requires Distinct(ids)
    requires 0 <= a < |ids| && 0 <= b < |ids|
    ensures Links(ids, pairs, a, b) <==>
      exists k :: 0 <= k < |pairs| && |pairs[k]| >= 2 && pairs[k][0] == ids[a] && pairs[k][1] == ids[b]
  {
  }

  /**
    With pairwise distinct ids and every pair naming two present ids,
    construction succeeds and `edges[a][b]` holds exactly when some pair is
    (id of node a, id of node b).
   */
  lemma EdgeIffListedPair(nodes: seq<Node>, pairs: seq<seq<int32>>)
    requires DistinctIds(nodes)
    requires forall k :: 0 <= k < |pairs| ==> |pairs[k]| >= 2 && pairs[k][0] in Ids(nodes) && pairs[k][1] in Ids(nodes)
    ensures NewGraph(nodes, pairs).Success?
    ensures var g := NewGraph(nodes, pairs).value;
      forall a, b :: 0 <= a < |g.nodes| && 0 <= b < |g.nodes| ==>
        (g.edges[a][b] <==> exists k :: 0 <= k < |pairs| && |pairs[k]| >= 2 && pairs[k][0] == g.nodes[a].id && pairs[k][1] == g.nodes[b].id)
  {
    var g := NewGraph(nodes, pairs).value;
    SortKeepsDistinctIds(nodes);
    assert g.nodes == SortById(nodes);
    var ids := Ids(g.nodes);
    assert |g.nodes| == |nodes| by {
      assert |multiset(g.nodes)| == |multiset(nodes)|;
    }
    forall a, b | 0 <= a < |g.nodes| && 0 <= b < |g.nodes|
      ensures g.edges[a][b] <==> exists k :: 0 <= k < |pairs| && |pairs[k]| >= 2 && pairs[k][0] == g.nodes[a].id && pairs[k][1] == g.nodes[b].id
    {
      assert g.edges[a][b] <==> Links(ids, pairs, a, b);
      LinksOfDistinct(ids, pairs, a, b);
      assert ids[a] == g.nodes[a].id && ids[b] == g.nodes[b].id;
    }
  }

  /** Every pair of `p1` occurs in `p2`. */
  predicate Covers(p1: seq<seq<int32>>, p2: seq<seq<int32>>) {
    forall k :: 0 <= k < |p1| ==> p1[k] in p2
  }

  /**
    The matrix depends only on which pairs occur, not on their order or on
    repetition, because entries are only ever set to true.
   */
  lemma {:induction false} PairSetDeterminesMatrix(ids: seq<int32>, m: Matrix, p1: seq<seq<int32>>, p2: seq<seq<int32>>)
    requires IsSquare(m, |ids|)
    requires Covers(p1, p2) && Covers(p2, p1)
    ensures AddPairs(ids, m, p1).Success? <==> AddPairs(ids, m, p2).Success?
    ensures AddPairs(ids, m, p1).Success? ==> AddPairs(ids, m, p1) == AddPairs(ids, m, p2)
  {
    forall a, b
      ensures Links(ids, p1, a, b) <==> Links(ids, p2, a, b)
    {
      LinksCovered(ids, p1, p2, a, b);
      LinksCovered(ids, p2, p1, a, b);
    }
    var r1 := AddPairs(ids, m, p1);
    var r2 := AddPairs(ids, m, p2);
    if r1.Success? {
      assert r2.Success? by {
        forall k | 0 <= k < |p2|
          ensures PairOk(ids, p2[k])
        {
          var j :| 0 <= j < |p1| && p1[j] == p2[k];
        }
      }
      SameEntriesSameMatrix(r1.value, r2.value, |ids|);
    }
  }

  /** A pair list that covers another resolves at least the same (from, to) indices. */
  lemma LinksCovered(ids: seq<int32>, p1: seq<seq<int32>>, p2: seq<seq<int32>>, a: int, b: int)
    requires Covers(p1, p2)
    ensures Links(ids, p1, a, b) ==> Links(ids, p2, a, b)
  {
  }

  /** Reordering the pair list does not change the constructed graph. */
  lemma ReorderedPairsSameGraph(nodes: seq<Node>, p1: seq<seq<int32>>, p2: seq<seq<int32>>)
    requires multiset(p1) == multiset(p2)
    ensures NewGraph(nodes, p1).Success? <==> NewGraph(nodes, p2).Success?
    ensures NewGraph(nodes, p1).Success? ==> NewGraph(nodes, p1) == NewGraph(nodes, p2)
  {
    var sorted := SortById(nodes);
    assert |sorted| == |nodes| by {
      assert |multiset(sorted)| == |multiset(nodes)|;
    }
    assert Covers(p1, p2) && Covers(p2, p1) by {
      assert forall k :: 0 <= k < |p1| ==> p1[k] in multiset(p2);
      assert forall k :: 0 <= k < |p2| ==> p2[k] in multiset(p1);
    }
    PairSetDeterminesMatrix(Ids(sorted), Empty(|sorted|), p1, p2);
  }

  /** Listing every pair a second time does not change the constructed graph. */
  lemma RepeatedPairsSameGraph(nodes: seq<Node>, pairs: seq<seq<int32>>)
    ensures NewGraph(nodes, pairs + pairs).Success? <==> NewGraph(nodes, pairs).Success?
    ensures NewGraph(nodes, pairs).Success? ==> NewGraph(nodes, pairs + pairs) == NewGraph(nodes, pairs)
  {
    var sorted := SortById(nodes);
    assert |sorted| == |nodes| by {
      assert |multiset(sorted)| == |multiset(nodes)|;
    }
    assert Covers(pairs + pairs, pairs) by {
      forall k | 0 <= k < |pairs + pairs|
        ensures (pairs + pairs)[k] in pairs
      {
        if k >= |pairs| {
          assert (pairs + pairs)[k] == pairs[k - |pairs|];
        } else {
          assert (pairs + pairs)[k] == pairs[k];
        }
      }
    }
    assert Covers(pairs, pairs + pairs) by {
      forall k | 0 <= k < |pairs|
        ensures pairs[k] in pairs + pairs
      {
        assert (pairs + pairs)[k] == pairs[k];
      }
    }
    PairSetDeterminesMatrix(Ids(sorted), Empty(|sorted|), pairs + pairs, pairs);
  }

  /** Running the pair loop a second time over the same pairs changes nothing. */
  lemma AddPairsIdempotent(ids: seq<int32>, m: Matrix, pairs: seq<seq<int32>>)
    requires IsSquare(m, |ids|)
    requires AddPairs(ids, m, pairs).Success?
    ensures AddPairs(ids, AddPairs(ids, m, pairs).value, pairs) == AddPairs(ids, m, pairs)
  {
    var m1 := AddPairs(ids, m, pairs).value;
    var m2 := AddPairs(ids, m1, pairs).value;
    SameEntriesSameMatrix(m2, m1, |ids|);
  }

  /**
    The matrix built from any id-ordered permutation of the nodes is the one
    `NewGraph` builds: the unstable order of equal ids never shows in the edges.
   */
  lemma SortTiesDoNotMatter(nodes: seq<Node>, p: seq<Node>, pairs: seq<seq<int32>>)
    requires SortedById(p) && multiset(p) == multiset(nodes)
    ensures |p| == |nodes|
    ensures AddPairs(Ids(p), Empty(|p|), pairs).Success? <==> NewGraph(nodes, pairs).Success?
    ensures NewGraph(nodes, pairs).Success? ==> AddPairs(Ids(p), Empty(|p|), pairs).value == NewGraph(nodes, pairs).value.edges
  {
    assert |multiset(p)| == |multiset(nodes)|;
    AnySortHasSameIds(nodes, p);
  }
}
