/**
  Model of `Node` (Graphsky/Graphsky/Node.cs): a node of the graph with an
  immutable id and a position that starts unset and is set by `SetPosition`.
  The C# object is mutable; here every mutator returns the updated node.
 */
module Nodes {
  import opened Wrappers

  /** The C# `int` used for ids and coordinates. */
  newtype int32 = v: int | -0x8000_0000 <= v < 0x8000_0000

  /** `x` and `y` are two separate nullable fields, as in the source. */
  datatype Node = Node(id: int32, x: Option<int32>, y: Option<int32>)

  /** The exception the cast `(int)x` raises when `x` holds no value. */
  datatype PositionError = InvalidOperation

  /** Both coordinates are set or neither is. */
  predicate Coherent(n: Node) {
    n.x.Some? <==> n.y.Some?
  }

  /** `new Node(id_)`: the id is stored, the position is left unset. */
  function NewNode(id: int32): (n: Node)
    ensures n.id == id
    ensures Coherent(n) && !CheckPosition(n)
    ensures GetPosition(n) == Failure(InvalidOperation)
  {
    Node(id, None, None)
  }

  /** `SetPosition(x, y)`: both coordinates are assigned together; there is no assign-once guard. */
  function SetPosition(n: Node, x: int32, y: int32): (r: Node)
    ensures r.id == n.id
    ensures Coherent(r) && CheckPosition(r)
    ensures GetPosition(r) == Success((x, y))
  {
    n.(x := Some(x), y := Some(y))
  }

  /** `CheckPosition()`: true when both coordinates hold a value. */
  predicate CheckPosition(n: Node) {
    n.x.Some? && n.y.Some?
  }

  /** `GetPosition()`: the pair (x, y), or the exception the casts raise when a coordinate is unset. */
  function GetPosition(n: Node): (r: Result<(int32, int32), PositionError>)
    ensures r.Success? <==> CheckPosition(n)
    ensures r.Success? ==> Some(r.value.0) == n.x && Some(r.value.1) == n.y
  {
    match (n.x, n.y)
    case (Some(x), Some(y)) => Success((x, y))
    case _ => Failure(InvalidOperation)
  }

  /** A later `SetPosition` replaces the earlier coordinates entirely. */
  lemma SetPositionOverwrites(n: Node, x1: int32, y1: int32, x2: int32, y2: int32)
    ensures SetPosition(SetPosition(n, x1, y1), x2, y2) == SetPosition(n, x2, y2)
    ensures GetPosition(SetPosition(SetPosition(n, x1, y1), x2, y2)) == Success((x2, y2))
  {
  }

  /** The node after the calls `SetPosition(c.0, c.1)` for each `c` in `calls`, in order. */
  function Replay(n: Node, calls: seq<(int32, int32)>): Node
    decreases |calls|
  {
    if |calls| == 0 then n else Replay(SetPosition(n, calls[0].0, calls[0].1), calls[1..])
  }

  /**
    Any sequence of `SetPosition` calls keeps the id and the both-or-neither
    invariant, and the position read back is the one the last call wrote.
   */
  lemma {:induction false} ReplayKeepsIdAndLastPosition(n: Node, calls: seq<(int32, int32)>)
    requires Coherent(n)
    ensures Replay(n, calls).id == n.id
    ensures Coherent(Replay(n, calls))
    ensures |calls| == 0 ==> Replay(n, calls) == n
    ensures |calls| > 0 ==> GetPosition(Replay(n, calls)) == Success(calls[|calls| - 1])
    decreases |calls|
  {
    if |calls| > 0 {
      var m := SetPosition(n, calls[0].0, calls[0].1);
      ReplayKeepsIdAndLastPosition(m, calls[1..]);
      if |calls| > 1 {
        assert calls[1..][|calls[1..]| - 1] == calls[|calls| - 1];
      }
    }
  }

  /**
    The life of a node: created with an id, then any number of `SetPosition`
    calls. Its id never changes, and it reports a position exactly when at
    least one `SetPosition` happened.
   */
  lemma {:induction false} NodeLifecycle(id: int32, calls: seq<(int32, int32)>)
    ensures Replay(NewNode(id), calls).id == id
    ensures Coherent(Replay(NewNode(id), calls))
    ensures CheckPosition(Replay(NewNode(id), calls)) <==> |calls| > 0
    ensures GetPosition(Replay(NewNode(id), calls)).Success? <==> |calls| > 0
  {
    ReplayKeepsIdAndLastPosition(NewNode(id), calls);
  }
}
