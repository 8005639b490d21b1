# graph_helper: verified model

This project models the graph helpers of PaddlePaddle's IR
(`paddle/fluid/framework/ir/graph_helper.cc`) in Dafny and proves what they
promise. An IR graph is a bipartite directed graph of operation nodes and
variable nodes. An operation's `inputs` are the variables it reads and its
`outputs` the variables it writes. A variable's `inputs` are the operations
that write it. The helpers are:

- `BuildOperationAdjList`: maps each operation to the operations that produce
  its inputs. Despite the name, these are its predecessors.
- `HasCircle`: a depth-first search with `visited` and `in_trace` sets that
  reports a cycle in that predecessor map.
- `TopologySortOperations`: refuses a cyclic map, then lists the operations
  in depth-first post-order.
- `SortOperationsInSequence`: replays the graph's list of operator
  descriptors as concrete operation nodes. It keeps per-operation dependency
  counters (`op_deps`), successor sets (`pending_ops`) and a ready set
  (`ready_ops`), and demands exactly one ready match per descriptor.
- `GraphNum`: splits the nodes into parts by a breadth-first search over
  inputs and outputs, and counts the parts.

Nodes are indices into a sequence of `Node` values (module `GraphModel`, file
`graph.dfy`). Each module follows one helper:

| module | file |
|---|---|
| `OperationAdjacency` | `adj_list.dfy` |
| `CycleDetection` | `has_circle.dfy` |
| `TopologicalSort` | `topology_sort.dfy` |
| `SequenceReconciler` | `sort_in_sequence.dfy` |
| `WeakComponents` | `weak_components.dfy` |

The helpers are imperative, and so is the model:

- The recursive searches are recursive methods. The sets the C++ passes by
  pointer go in as parameters and come back as results.
- The loops are `while` loops with their invariants.
- Each method is proved against a specification function or predicate, and
  lemmas prove the properties of that specification.
- A `PADDLE_ENFORCE` failure becomes an `Err` result naming the failure.

## Model

| member | source | states |
|---|---|---|
| GraphModel.SameOpDescIsEquivalence | paddle/fluid/framework/ir/graph_helper.cc:109-112 | `is_same_op_desc` (type, inputs and outputs equal) is reflexive, symmetric and transitive; equal descriptors match; matching descriptors with the same attributes are equal |
| OperationAdjacency.PredecessorsMeaning | paddle/fluid/framework/ir/graph_helper.cc:169-176 | p is in the predecessor set of n exactly when p writes some variable that n reads |
| OperationAdjacency.PredecessorMap | paddle/fluid/framework/ir/graph_helper.cc:160-180 | the map's keys are exactly the operation nodes, so an operation with no produced inputs still gets an empty entry; when every producer is an operation, every value names only keys |
| OperationAdjacency.BuildOperationAdjList | paddle/fluid/framework/ir/graph_helper.cc:160-180 | succeeds exactly when every producer of an operation's input is an operation, and then returns the predecessor map; otherwise fails with MalformedGraph; several producers of one variable are all kept |
| CycleDetection.ChainClosesCycle | paddle/fluid/framework/ir/graph_helper.cc:63-64 | a predecessor of the deepest open frame that is already open closes a cycle |
| CycleDetection.PostOrderMeansAcyclic | paddle/fluid/framework/ir/graph_helper.cc:72-82 | a duplicate-free post-order covering every key, each node after its predecessors, rules out any cycle |
| CycleDetection.OpenFrame | paddle/fluid/framework/ir/graph_helper.cc:55-57 | entering a frame marks the node visited and in trace and keeps the search state consistent |
| CycleDetection.CloseFrame | paddle/fluid/framework/ir/graph_helper.cc:68 | leaving a frame whose predecessors are all finished takes the node out of the trace and appends it to the post-order |
| CycleDetection.HasCircleHelper | paddle/fluid/framework/ir/graph_helper.cc:50-70 | `in_trace` stays inside `visited`; a true result means a cycle exists; after a false result the node is visited and no longer in trace, `in_trace` is as before and `visited` only grew |
| CycleDetection.HasCircleInternal | paddle/fluid/framework/ir/graph_helper.cc:72-82 | true exactly when the predecessor map has a cycle, a self-predecessor included, whatever part of the map it lies in |
| CycleDetection.HasCircle | paddle/fluid/framework/ir/graph_helper.cc:85-87 | fails as BuildOperationAdjList does; otherwise true exactly when the graph's predecessor map has a cycle |
| TopologicalSort.SortHelper | paddle/fluid/framework/ir/graph_helper.cc:32-48 | marks the node visited and appends it to `ret` after all of its predecessors, keeping `ret` a duplicate-free post-order of the finished nodes and leaving its earlier entries untouched |
| TopologicalSort.TopologySortOperations | paddle/fluid/framework/ir/graph_helper.cc:89-101 | fails exactly on a malformed or cyclic graph (CycleDetected for a cycle); otherwise returns every operation once, each after all of its predecessors |
| TopologicalSort.TopologicalOrderRespectsDataflow | paddle/fluid/framework/ir/graph_helper.cc:89-101 | in that order, an operation writing a variable comes before every operation reading it |
| SequenceReconciler.SingleProducersAreOps | paddle/fluid/framework/ir/graph_helper.cc:122-127 | the set-up check (inputs are variables, each with at most one producer, an operation) implies the check BuildOperationAdjList makes |
| SequenceReconciler.Pick | paddle/fluid/framework/ir/graph_helper.cc:137-147 | one step of the replay: succeeds exactly when one ready node matches the descriptor, and returns that node; NoMatchingOperation exactly when no ready node matches; AmbiguousMatch exactly when several do |
| SequenceReconciler.CollectPrecedingOps | paddle/fluid/framework/ir/graph_helper.cc:120-129 | succeeds exactly when every input of the operation passes the set-up check; then returns its predecessors and records the operation under each of them in `pending_ops` |
| SequenceReconciler.InitDependencies | paddle/fluid/framework/ir/graph_helper.cc:114-134 | succeeds exactly when every operation passes the set-up check; then `op_deps` holds every operation's predecessor count, `pending_ops` every operation's successors, and `ready_ops` exactly the operations without predecessors |
| SequenceReconciler.FindReadyMatch | paddle/fluid/framework/ir/graph_helper.cc:137-147 | the scan of `ready_ops` returns the same result as Pick, whatever order it takes the ready nodes in |
| SequenceReconciler.ReleaseSuccessors | paddle/fluid/framework/ir/graph_helper.cc:148-152 | lowers by one the count of exactly the successors, leaves the other counts alone, and adds to `ready_ops` exactly the successors whose count was one |
| SequenceReconciler.ReleasedIsReady | paddle/fluid/framework/ir/graph_helper.cc:149-150 | a successor of the emitted node becomes ready exactly when the emitted node was the last predecessor it waited on |
| SequenceReconciler.CountsAfterEmit | paddle/fluid/framework/ir/graph_helper.cc:148-152 | after the decrements, every count is again the number of that operation's predecessors not yet emitted |
| SequenceReconciler.ReadyAfterEmit | paddle/fluid/framework/ir/graph_helper.cc:148-153 | `ready_ops`, with the released successors added and the emitted node erased, is exactly the set of operations that are not emitted and whose predecessors all are |
| SequenceReconciler.EmitStep | paddle/fluid/framework/ir/graph_helper.cc:148-154 | emitting a ready node keeps all the bookkeeping exact: emitted nodes closed under predecessors, the counts, the ready set, `pending_ops` |
| SequenceReconciler.SortOperationsInSequence | paddle/fluid/framework/ir/graph_helper.cc:103-158 | MissingAttribute without the descriptor list, MalformedGraph when the set-up check fails, and otherwise exactly the replay: one ready match per descriptor, failing at the first descriptor with no match or several |
| SequenceReconciler.ReplaySound | paddle/fluid/framework/ir/graph_helper.cc:136-155 | a successful replay is a schedule: one distinct operation per descriptor, each matching its descriptor and after all of its predecessors |
| SequenceReconciler.ScheduleIsReplayed | paddle/fluid/framework/ir/graph_helper.cc:136-155 | if a schedule exists, the replay returns exactly it, or fails with AmbiguousMatch |
| SequenceReconciler.SequenceResultIsTheSchedule | paddle/fluid/framework/ir/graph_helper.cc:103-158 | a successful result is a schedule of the descriptor list, and no other sequence is one |
| SequenceReconciler.NoMatchMeansNoSchedule | paddle/fluid/framework/ir/graph_helper.cc:146-147 | a NoMatchingOperation failure means that no schedule of the descriptor list exists |
| WeakComponents.Unseen | paddle/fluid/framework/ir/graph_helper.cc:194-202 | what `traverse_nodes` queues holds no duplicate and holds exactly the listed nodes that were neither visited nor queued |
| WeakComponents.Traverse | paddle/fluid/framework/ir/graph_helper.cc:194-202 | appends those nodes to the queue, keeps `q_set` equal to the queued nodes, and keeps the queue free of duplicates |
| WeakComponents.PickUnvisited | paddle/fluid/framework/ir/graph_helper.cc:219-225 | while some node is unvisited, the seed loop finds an unvisited node |
| WeakComponents.VisitFront | paddle/fluid/framework/ir/graph_helper.cc:205-212 | the front node leaves the queue and joins `visited_nodes` and `g_nodes`, and its unseen inputs, then its unseen outputs, are queued; the search state stays consistent |
| WeakComponents.StartPart | paddle/fluid/framework/ir/graph_helper.cc:213-225 | counts one more part, keeps the finished part only when non-empty, clears `g_nodes`, and queues one unvisited seed |
| WeakComponents.CloseGroup | paddle/fluid/framework/ir/graph_helper.cc:204-227 | with edges recorded at both ends, a part whose queue ran dry contains every node linked to one of its nodes |
| WeakComponents.GraphNum | paddle/fluid/framework/ir/graph_helper.cc:182-231 | the count equals the number of recorded parts, and is 0 exactly for an empty graph; the parts are non-empty, pairwise disjoint, cover all nodes, and are each connected from a seed; with edges recorded at both ends, each part contains every node linked to its nodes |
| WeakComponents.PartsAreReachClasses | paddle/fluid/framework/ir/graph_helper.cc:182-231 | with edges recorded at both ends, two nodes share a part exactly when a walk over inputs and outputs joins them, so the count is the number of weakly connected components |
| WeakComponents.NoPartsOnlyForEmptyGraph | paddle/fluid/framework/ir/graph_helper.cc:214-231 | connected parts that cover the nodes are absent exactly when there are no nodes |

## Left out

- The sub-graph dump that `FLAGS_print_sub_graph_dir` enables (lines 24-26 and 233-260). It writes text to a file, so `GraphNum` returns its parts instead.
- `VLOG` logging (lines 44-46, 172-174). It has no effect on results.
- Reading the `kAllOpDescs` attribute (lines 104-106). The attribute is an `Option<seq<OpDesc>>` parameter, and `None` means the graph lacks it.
- `OpDesc` internals. A descriptor is a value with a type, input and output argument maps, and attributes that matching ignores.
- Pointer identity and the address order of `std::map`. Nodes are indices, and map keys are taken in an unspecified order.
- Iteration orders of `unordered_set`, `unordered_map` and `std::map` keys. Each set iteration picks its next element by `:|`, so every proved property holds for every order. No particular output order is promised. The two walks over all of the graph's nodes (in BuildOperationAdjList and in the set-up loop of SortOperationsInSequence) go in index order; neither the map built nor the error reported depends on that order.
- `size_t` counters (`op_deps`, `graph_count`) are unbounded integers. They never exceed the node count, so no wrap-around is reachable.
- CycleDetection.HasCircleHelper: requires the node not to be in trace. Every caller meets this: the recursion only enters unvisited nodes, and the outer loop starts with an empty trace that a false result restores.
- TopologicalSort.SortHelper: requires an acyclic map. Its only caller establishes that by checking HasCircleInternal first.
- TopologicalSort.TopologySortOperations: `PADDLE_ENFORCE` on a cycle, and on a non-operation producer inside BuildOperationAdjList, become `Err` results instead of exceptions.
- SequenceReconciler.SortOperationsInSequence: the set-up checks run in the order of the graph's nodes. Which failing input is reported first is not modelled; only that the call fails.
- BuildOperationAdjList: builds each entry in a local set and stores it once filled, where the source inserts into `adj_list[n]` in place. The stored value is the same.
- WeakComponents.GraphNum: states that parts are closed under links, and are the weakly connected components, only when every edge is recorded at both ends. The IR graph keeps its edges that way. Without mirrored edges, a later part may link into an earlier one.
