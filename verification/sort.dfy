/**
  The `Array.Sort` call of the `Graph` constructor, which orders the nodes by
  ascending id. The library sort is unstable, so the only promises used about
  it are: the result is ordered by id and is a permutation of the input.
 */
module IdSort {
  import opened Nodes

  /** The id of every node, in order. */
  function Ids(s: seq<Node>): (ids: seq<int32>)
    ensures |ids| == |s|
    ensures forall i {:trigger ids[i]} :: 0 <= i < |s| ==> ids[i] == s[i].id
  {
    seq(|s|, i requires 0 <= i < |s| => s[i].id)
  }

  /** What the comparison delegate `a.Id.CompareTo(b.Id)` asks of the sorted array. */
  predicate SortedById(s: seq<Node>) {
    forall i, j :: 0 <= i < j < |s| ==> s[i].id <= s[j].id
  }

  /** No two nodes share an id. */
  predicate DistinctIds(s: seq<Node>) {
    forall i, j :: 0 <= i < j < |s| ==> s[i].id != s[j].id
  }

  /** Insertion of one node into an id-ordered sequence. */
  function Insert(x: Node, s: seq<Node>): (r: seq<Node>)
    requires SortedById(s)
    ensures |r| == |s| + 1
    ensures SortedById(r)
    ensures |s| > 0 ==> r[0] == x || r[0] == s[0]
    decreases |s|
  {
    if |s| == 0 || x.id <= s[0].id then
      [x] + s
    else
      var t := Insert(x, s[1..]);
      assert s[0].id <= t[0].id;
      [s[0]] + t
  }

  /** Insertion adds the node and keeps every other node. */
  lemma {:induction false} InsertPermutes(x: Node, s: seq<Node>)
    requires SortedById(s)
    ensures multiset(Insert(x, s)) == multiset(s) + multiset{x}
    decreases |s|
  {
    if |s| > 0 && x.id > s[0].id {
      InsertPermutes(x, s[1..]);
      assert s == [s[0]] + s[1..];
    }
  }

  /** The sorted array: a permutation of the input, ordered by id. */
  function SortById(s: seq<Node>): (r: seq<Node>)
    ensures SortedById(r)
    ensures multiset(r) == multiset(s)
    decreases |s|
  {
    if |s| == 0 then [] else
      assert s == [s[0]] + s[1..];
      InsertPermutes(s[0], SortById(s[1..]));
      Insert(s[0], SortById(s[1..]))
  }

  /** Putting a node with a new id in front of nodes with distinct ids keeps them distinct. */
  lemma ConsKeepsDistinctIds(y: Node, t: seq<Node>)
    requires DistinctIds(t) && y.id !in Ids(t)
    ensures DistinctIds([y] + t)
  {
    forall i, j | 0 <= i < j < |[y] + t|
      ensures ([y] + t)[i].id != ([y] + t)[j].id
    {
      if i == 0 {
        assert ([y] + t)[j].id == Ids(t)[j - 1];
      }
    }
  }

  /** The first node's id does not recur in the rest, which is distinct too. */
  lemma TailOfDistinct(s: seq<Node>)
    requires |s| > 0 && DistinctIds(s)
    ensures DistinctIds(s[1..])
    ensures s[0].id !in Ids(s[1..])
    ensures forall v :: v in Ids(s[1..]) ==> v in Ids(s)
  {
    forall v | v in Ids(s[1..])
      ensures v in Ids(s) && v != s[0].id
    {
      var i :| 0 <= i < |s[1..]| && Ids(s[1..])[i] == v;
      assert Ids(s)[i + 1] == v;
    }
  }

  /** The ids after an insertion are the old ones plus the inserted node's. */
  lemma InsertIds(x: Node, s: seq<Node>)
    requires SortedById(s)
    ensures forall v :: v in Ids(Insert(x, s)) <==> v in Ids(s) || v == x.id
  {
    InsertPermutes(x, s);
    assert multiset(Insert(x, s)) == multiset(s + [x]);
    SameNodesSameIds(Insert(x, s), s + [x]);
    IdsConcat(s, [x]);
    assert Ids([x]) == [x.id];
  }

  /** Inserting a node whose id is new keeps the ids pairwise distinct. */
  lemma {:induction false} InsertKeepsDistinctIds(x: Node, s: seq<Node>)
    requires SortedById(s) && DistinctIds(s) && x.id !in Ids(s)
    ensures DistinctIds(Insert(x, s))
    decreases |s|
  {
    if |s| > 0 && x.id > s[0].id {
      var tail := s[1..];
      TailOfDistinct(s);
      InsertKeepsDistinctIds(x, tail);
      InsertIds(x, tail);
      ConsKeepsDistinctIds(s[0], Insert(x, tail));
    } else {
      ConsKeepsDistinctIds(x, s);
    }
  }

  /** Sorting keeps distinct ids distinct. */
  lemma {:induction false} SortKeepsDistinctIds(s: seq<Node>)
    requires DistinctIds(s)
    ensures DistinctIds(SortById(s))
    decreases |s|
  {
    if |s| > 0 {
      var tail := s[1..];
      TailOfDistinct(s);
      SortKeepsDistinctIds(tail);
      SameNodesSameIds(SortById(tail), tail);
      InsertKeepsDistinctIds(s[0], SortById(tail));
    }
  }

  /** The ids of a concatenation are the concatenated ids. */
  lemma IdsConcat(s: seq<Node>, t: seq<Node>)
    ensures Ids(s + t) == Ids(s) + Ids(t)
  {
  }

  /** Nodes that form the same multiset carry the same ids. */
  lemma SameNodesSameIds(s: seq<Node>, t: seq<Node>)
    requires multiset(s) == multiset(t)
    ensures forall v :: v in Ids(s) <==> v in Ids(t)
  {
    forall v | v in Ids(s)
      ensures v in Ids(t)
    {
      var i :| 0 <= i < |s| && Ids(s)[i] == v;
      assert s[i] in multiset(t);
      var j :| 0 <= j < |t| && t[j] == s[i];
      assert Ids(t)[j] == v;
    }
    forall v | v in Ids(t)
      ensures v in Ids(s)
    {
      var i :| 0 <= i < |t| && Ids(t)[i] == v;
      assert t[i] in multiset(s);
      var j :| 0 <= j < |s| && s[j] == t[i];
      assert Ids(s)[j] == v;
    }
  }

  /** An element between two pieces adds itself to their multiset. */
  lemma MultisetMiddle<T>(left: seq<T>, x: T, right: seq<T>)
    ensures multiset(left + [x] + right) == multiset(left + right) + multiset{x}
  {
  }

  /** Taking out the element at index k takes it out of the multiset. */
  lemma MultisetWithout<T>(t: seq<T>, k: nat)
    requires k < |t|
    ensures multiset(t) == multiset(t[..k] + t[k + 1..]) + multiset{t[k]}
  {
    assert t == t[..k] + [t[k]] + t[k + 1..];
    MultisetMiddle(t[..k], t[k], t[k + 1..]);
  }

  /** A node between two pieces adds its id to their ids. */
  lemma IdsMiddle(left: seq<Node>, x: Node, right: seq<Node>)
    ensures multiset(Ids(left + [x] + right)) == multiset(Ids(left + right)) + multiset{x.id}
  {
    IdsConcat(left + [x], right);
    IdsConcat(left, [x]);
    IdsConcat(left, right);
    assert Ids([x]) == [x.id];
    MultisetMiddle(Ids(left), x.id, Ids(right));
  }

  /** Taking the same element out of two equal multisets leaves equal multisets. */
  lemma RemoveMatching<T>(s: seq<T>, t: seq<T>, k: nat)
    requires multiset(s) == multiset(t) && 0 < |s| && k < |t| && t[k] == s[0]
    ensures multiset(s[1..]) == multiset(t[..k] + t[k + 1..])
  {
    var rest := t[..k] + t[k + 1..];
    assert multiset(t) == multiset(rest) + multiset{t[k]} by {
      MultisetWithout(t, k);
    }
    assert multiset(s) == multiset(s[1..]) + multiset{s[0]} by {
      assert s == [s[0]] + s[1..];
    }
    forall v
      ensures multiset(s[1..])[v] == multiset(rest)[v]
    {
      assert multiset(s)[v] == multiset(t)[v];
    }
  }

  /** The ids of `t` are those of `t` without index k, plus the id at k. */
  lemma IdsWithout(t: seq<Node>, k: nat)
    requires k < |t|
    ensures multiset(Ids(t)) == multiset(Ids(t[..k] + t[k + 1..])) + multiset{t[k].id}
  {
    var left, right := t[..k], t[k + 1..];
    assert t == left + [t[k]] + right;
    IdsMiddle(left, t[k], right);
  }

  /** Permuting the nodes permutes their ids. */
  lemma {:induction false} PermutationKeepsIds(s: seq<Node>, t: seq<Node>)
    requires multiset(s) == multiset(t)
    ensures multiset(Ids(s)) == multiset(Ids(t))
    decreases |s|
  {
    if |s| > 0 {
      assert s[0] in multiset(t);
      var k :| 0 <= k < |t| && t[k] == s[0];
      RemoveMatching(s, t, k);
      PermutationKeepsIds(s[1..], t[..k] + t[k + 1..]);
      IdsWithout(t, k);
      IdsWithout(s, 0);
      assert s[..0] + s[1..] == s[1..];
    }
  }

  /** The values never decrease from left to right. */
  predicate NonDecreasing(a: seq<int32>) {
    forall i, j :: 0 <= i < j < |a| ==> a[i] <= a[j]
  }

  /** No value occurs twice. */
  predicate Distinct(a: seq<int32>) {
    forall i, j :: 0 <= i < j < |a| ==> a[i] != a[j]
  }

  /** The node-level orderings are the id-level ones, read through `Ids`. */
  lemma NodeOrderIsIdOrder(s: seq<Node>)
    ensures SortedById(s) <==> NonDecreasing(Ids(s))
    ensures DistinctIds(s) <==> Distinct(Ids(s))
  {
    var ids := Ids(s);
    assert forall i :: 0 <= i < |s| ==> ids[i] == s[i].id;
  }

  /** The head of a non-decreasing sequence is its least value. */
  lemma HeadIsLeast(a: seq<int32>, v: int32)
    requires NonDecreasing(a)
    requires v in multiset(a)
    ensures |a| > 0 && a[0] <= v
  {
  }

  /** Two non-decreasing sequences holding the same values start alike and continue with the same values. */
  lemma SameHeadSameRest(a: seq<int32>, b: seq<int32>)
    requires NonDecreasing(a)
    requires NonDecreasing(b)
    requires multiset(a) == multiset(b) && |a| > 0
    ensures |b| > 0 && a[0] == b[0]
    ensures multiset(a[1..]) == multiset(b[1..])
  {
    assert |b| > 0 && a[0] == b[0] by {
      HeadIsLeast(b, a[0]);
      HeadIsLeast(a, b[0]);
    }
    assert b[..0] + b[1..] == b[1..];
    RemoveMatching(a, b, 0);
  }

  /** Two non-decreasing sequences holding the same values are equal. */
  lemma {:induction false} SortedValuesUnique(a: seq<int32>, b: seq<int32>)
    requires NonDecreasing(a)
    requires NonDecreasing(b)
    requires multiset(a) == multiset(b)
    ensures a == b
    decreases |a|
  {
    if |a| == 0 {
      assert |multiset(b)| == 0;
    } else {
      SameHeadSameRest(a, b);
      SortedValuesUnique(a[1..], b[1..]);
      assert a == [a[0]] + a[1..];
      assert b == [b[0]] + b[1..];
    }
  }

  /**
    Every id-ordered permutation of the nodes has the same id sequence, so
    how the unstable sort arranges nodes with equal ids never shows in the ids.
   */
  lemma AnySortHasSameIds(s: seq<Node>, p: seq<Node>)
    requires SortedById(p) && multiset(p) == multiset(s)
    ensures Ids(p) == Ids(SortById(s))
  {
    var q := SortById(s);
    PermutationKeepsIds(p, q);
    SortedValuesUnique(Ids(p), Ids(q));
  }
}
