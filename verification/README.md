# Graphsky graph model in Dafny

Graphsky is a small WPF tool meant to load a directed graph from JSON and compute a
layout of it. The only logic in its C# sources with behaviour that can be stated
is the graph data model. This project models that part:

- `Node` (Graphsky/Graphsky/Node.cs). A node has a read-only `Id` and two nullable
  coordinates `x` and `y`. `SetPosition` assigns both coordinates. `CheckPosition` reports
  whether both are set. `GetPosition` reads them back, and its `(int)` casts throw when a
  coordinate is unset.
- The `Graph` constructor (Graphsky/Graphsky/Graph.cs). It sorts the nodes by ascending id
  with `Array.Sort`. It allocates an n-by-n `bool` matrix of `false`. Then, for each
  `(from_id, to_id)` pair of `adj_mat`, it resolves both ids to indices with
  `Array.FindIndex` and sets `edges[from][to] = true`.

Modules, one per concept:

| file | module | models |
|---|---|---|
| wrappers.dfy | `Wrappers` | `Option` (a C# `int?`) and `Result` (a value or a thrown exception) |
| node.dfy | `Nodes` | `Node`, its operations, and its set/get state machine |
| matrix.dfy | `BoolMatrix` | the `bool[][] edges` matrix: allocation and setting one entry |
| sort.dfy | `IdSort` | the `Array.Sort` call: ordering by id, permutation, distinct ids |
| graph.dfy | `Graphs` | `FindIndex`, the pair loop, and the whole constructor as pure functions |
| graph_builder.dfy | `GraphBuilder` | the constructor as the source writes it, with nested loops |
| graph_properties.dfy | `GraphProperties` | properties that relate several constructions |

Modelling decisions:

- The C# `int` is the newtype `int32`. Ids and coordinates are only compared and copied,
  never computed with, so wrap-around cannot arise.
- `Node` is an immutable datatype. `SetPosition` returns the updated node. The two
  nullable fields stay two separate `Option` fields, as in the source. The invariant
  "both set or neither" is proved, not built into the type.
- `adj_mat` is an `int[][]`, so it is modelled as `seq<seq<int32>>`. In the source, every
  failure in the pair loop is an `IndexOutOfRangeException`. With at least one node, a
  pair shorter than two fails at `pair[0]` or `pair[1]` inside the `FindIndex` delegate.
  With no nodes the delegate is never called, `FindIndex` returns -1, and the failure is
  `edges[-1]` at Graph.cs:32. An id that is not present also makes `FindIndex` return -1,
  and then `edges[-1]` (absent `from`) or `edges[from][-1]` (absent `to`) fails. The exception type is the same in every case. The model returns `Failure(IndexOutOfRange(k))`, where `k`
  is the position of the first such pair.
- `Array.Sort` is unstable. `SortById` is an insertion sort, but every statement about it
  uses only what the library promises: the result is ordered by id and is a permutation
  of the input. `IdSort.AnySortHasSameIds` and `GraphProperties.SortTiesDoNotMatter`
  show that every id-ordered permutation yields the same id sequence and hence the same
  matrix. So the choice of sort is not visible in the edges.
- Graph.cs:12, 25 and 29 call `a.getId()`, but `Node` only has the field `Id`. The model reads `Id`.

Behaviour of the code worth knowing:

- The constructor does not check for duplicate ids. Edges bind to the first node, in
  sorted order, that has the id, because `FindIndex` returns the lowest index
  (`Graphs.FindIndex`, `Graphs.AddPairs`).
- An absent endpoint raises `IndexOutOfRangeException` (`Graphs.BuildError`).
- `SetPosition` has no assign-once guard and overwrites (`Nodes.SetPositionOverwrites`).

## Model

| member | source | states |
|---|---|---|
| Nodes.NewNode | Graphsky/Graphsky/Node.cs:14-16 | a new node carries the given id and is coherent; `CheckPosition` is false and `GetPosition` throws |
| Nodes.SetPosition | Graphsky/Graphsky/Node.cs:25-28 | the id is unchanged; afterwards `CheckPosition` holds and `GetPosition` returns exactly `(x, y)` |
| Nodes.GetPosition | Graphsky/Graphsky/Node.cs:36-48 | `CheckPosition` is `x.HasValue & y.HasValue`; `GetPosition` succeeds exactly when `CheckPosition` reports a position, and it returns the stored x and y in that order |
| Nodes.SetPositionOverwrites | Graphsky/Graphsky/Node.cs:25-28 | a second `SetPosition` replaces the first one completely; there is no assign-once guard |
| Nodes.ReplayKeepsIdAndLastPosition | Graphsky/Graphsky/Node.cs:7-28 | after any sequence of `SetPosition` calls the id is unchanged, x is set iff y is set, and the position read back is the one the last call wrote |
| Nodes.NodeLifecycle | Graphsky/Graphsky/Node.cs:7-48 | from `new Node(id)` onward, the id never changes and the node reports a position iff at least one `SetPosition` happened |
| BoolMatrix.Empty | Graphsky/Graphsky/Graph.cs:15-21 | the allocated matrix is n by n with every entry false |
| BoolMatrix.SetEntry | Graphsky/Graphsky/Graph.cs:32 | entry (from, to) becomes true; the shape and every other entry are unchanged |
| IdSort.Insert | Graphsky/Graphsky/Graph.cs:11-13 | inserting into an id-ordered sequence gives an id-ordered sequence one longer |
| IdSort.InsertPermutes | Graphsky/Graphsky/Graph.cs:11-13 | insertion adds exactly the inserted node: the multiset grows by that node alone |
| IdSort.SortById | Graphsky/Graphsky/Graph.cs:10-13 | the sorted nodes are in non-decreasing id order and are a permutation of the input |
| IdSort.SortKeepsDistinctIds | Graphsky/Graphsky/Graph.cs:11-13 | if the input ids are pairwise distinct, so are the sorted ids |
| IdSort.PermutationKeepsIds | Graphsky/Graphsky/Graph.cs:11-13 | permuting the nodes permutes their ids |
| IdSort.NodeOrderIsIdOrder | Graphsky/Graphsky/Graph.cs:11-13 | ordering and distinctness of nodes by id are the same facts about their id sequence |
| IdSort.SortedValuesUnique | Graphsky/Graphsky/Graph.cs:11-13 | two non-decreasing sequences with the same values are equal |
| IdSort.AnySortHasSameIds | Graphsky/Graphsky/Graph.cs:11-13 | every id-ordered permutation of the nodes has the same id sequence, whatever order an unstable sort gives equal ids |
| Graphs.FindIndex | Graphsky/Graphsky/Graph.cs:24-30 | the result is -1 iff the id is absent; otherwise it is the lowest index holding the id |
| Graphs.AddPairs | Graphsky/Graphsky/Graph.cs:23-33 | the loop succeeds iff every pair has two entries naming present ids; a failure names the first bad pair; on success the matrix keeps its shape and an entry is true iff it was true before or some pair resolves to it |
| Graphs.FailureIsFinal | Graphsky/Graphsky/Graph.cs:23-33 | once a pair throws, the pairs after it do not change the outcome |
| Graphs.NewGraph | Graphsky/Graphsky/Graph.cs:9-34 | construction succeeds iff every pair names two ids of the input; the nodes come out id-ordered and permuted; the matrix is n by n, where n is the node count; `edges[a][b]` holds iff some pair resolves to (a, b) |
| GraphBuilder.AllocateEdges | Graphsky/Graphsky/Graph.cs:15-21 | the nested initialisation loops produce an n by n matrix of false |
| GraphBuilder.Construct | Graphsky/Graphsky/Graph.cs:9-34 | the loop-based constructor returns exactly what `NewGraph` describes, including the exception for the first bad pair |
| GraphProperties.NoPairsNoEdges | Graphsky/Graphsky/Graph.cs:15-23 | with an empty pair list, construction succeeds and every entry is false |
| GraphProperties.FindIndexOfDistinct | Graphsky/Graphsky/Graph.cs:24-30 | with distinct ids, looking up the id at index i returns i |
| GraphProperties.LinksOfDistinct | Graphsky/Graphsky/Graph.cs:24-32 | with distinct ids, a pair resolves to (a, b) iff it names the ids at a and b |
| GraphProperties.EdgeIffListedPair | Graphsky/Graphsky/Graph.cs:23-33 | with distinct ids and all endpoints present, construction succeeds and `edges[a][b]` holds iff some pair equals (id of a, id of b) |
| GraphProperties.PairSetDeterminesMatrix | Graphsky/Graphsky/Graph.cs:23-33 | the pair loop's outcome depends only on which pairs occur, not on their order or on repetition |
| GraphProperties.ReorderedPairsSameGraph | Graphsky/Graphsky/Graph.cs:23-33 | permuting the pair list gives the same graph |
| GraphProperties.RepeatedPairsSameGraph | Graphsky/Graphsky/Graph.cs:23-33 | listing every pair twice gives the same graph |
| GraphProperties.AddPairsIdempotent | Graphsky/Graphsky/Graph.cs:23-33 | running the pair loop again over the same pairs changes nothing |
| GraphProperties.SortTiesDoNotMatter | Graphsky/Graphsky/Graph.cs:11-33 | the matrix built over any id-ordered permutation of the nodes is the one `NewGraph` builds |

## Left out

- MainWindow.xaml.cs: WPF event handlers, file dialogs and message boxes. The layout computation there (`calculateGraphLayout`, MainWindow.xaml.cs:64-67) only enables the save button and computes nothing, so there is nothing to model.
- JSONHandler.cs: file I/O and Newtonsoft.Json (de)serialisation, which are foreign library calls. `OGraph` is not part of this model.
- Util.cs: the `Unpack` tuple accessor. It has no behaviour worth stating.
- In-place sorting of the caller's array (`nodes = nodes_` followed by `Array.Sort`). The model returns a new sorted sequence. When a later pair throws, the caller's array has still been sorted; the model does not show that.
- The relative order of nodes with equal ids after `Array.Sort`. The sort is unstable, so no order is promised. The model proves that this order does not affect the ids or the matrix.
- Null arguments (`nodes_`, `adj_mat`, or an element of either being null). Null inputs are outside the model, because sequences in the model cannot be null.
