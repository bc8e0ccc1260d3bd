# Pipeline DAG check, modelled in Dafny

The backend of the pipeline editor has one endpoint that matters here,
`POST /pipelines/parse`. It receives the pipeline's nodes and edges. It answers
with the number of nodes, the number of edges and whether the graph is a
directed acyclic graph. The acyclicity test, `is_dag`, is Kahn's topological
sort, with some extras:

- With no edges at all it answers True straight away.
- An edge whose source is not a declared node id is skipped.
- An edge into an undeclared id still gives that id an in-degree entry.
- The verdict compares the number of pops with the length of the node list,
  repeated ids included.

This project models that code and proves what it computes.

- `Digraph` (`digraph.dfy`) holds the graph vocabulary:
  - edges as (source, target) pairs;
  - `TargetsFrom`, the targets reached from a set of sources, in edge order;
  - walks and cycles;
  - `WellFormed`: distinct ids, and every endpoint declared.
- `KahnSpec` (`kahn_spec.dfy`) holds reference definitions for the algorithm's
  state:
  - `Adjacency` and `InDegrees`, the maps after the build loop;
  - `ZeroInDegree`, the list comprehension that fills the initial queue;
  - `Decrements`, the in-degree decrements that the popped ids cause;
  - `KahnOrder`, which characterises every sequence of pops that a complete
    run of the loop can produce.
- `KahnLoop` (`kahn_loop.dfy`) holds the invariant the main loop keeps. The
  map must equal the built in-degrees less the decrements so far. The queue's
  history must be explained by the initial queue and by releases. It also
  holds `Releases`, the successors the inner loop appends, in order, and
  lemmas for the loop's start and for one decrement step.
- `KahnProofs` (`kahn_proofs.dfy`) holds what a complete run means:
  - on well-formed input, all ids are popped exactly when there is no cycle;
  - on any input, all runs pop the same ids, so the verdict is a function of
    the input;
  - reordering the edges does not change the verdict.
- `DagValidator` (`dag_validator.dfy`) holds the imperative code:
  - `BuildGraph` is the build loop;
  - `ReleaseSuccessors` is the inner `for` loop;
  - `IsDag` is the whole function.
- `Pipeline` (`pipeline.dfy`) is the endpoint's computation.
- `Scenarios` (`scenarios.dfy`) works small inputs through, where dangling
  edges or repeated ids decide the verdict.
- `SeqFacts` (`seqfacts.dfy`) holds generic sequence and set lemmas.

Node ids are a generic equality type `T`. The node and edge dictionaries are
reduced to the fields `is_dag` reads: a node's `id`, and an edge's `source` and
`target`. `IsDag` also returns a ghost `order`: the ids popped, in order.

### Behaviour modelled as written

- An edge from an undeclared id is ignored (`UndeclaredSourceIgnored`,
  `UndeclaredSourceSkipped`).
- An edge into an undeclared id X counts towards X. X is then popped when its
  in-degree reaches zero, and that pop counts against `len(node_ids)`.
  - With nodes `[A]` and edges `[A -> X]`, the answer is False although there
    is no cycle (`DanglingTargetCounted`).
  - With nodes `[A, B]` and edges `[B -> B, A -> X]`, the answer is True
    although B has a self-loop (`DanglingTargetMasksSelfLoop`).
- A repeated id gets one in-degree entry. It enters the initial queue once per
  occurrence when its in-degree is zero, but only once when it is released by
  a decrement.
  - With nodes `[A, B, B]` and edges `[A -> B]`, the answer is False although
    there is no cycle (`DuplicateIdRejectsAcyclic`).
- The equivalence "True iff acyclic" is therefore proved for well-formed
  input (`KahnOrderDecides`, `IsDag`). Without edges the answer is True
  whatever the node list holds.
- `indegree[neighbor] -= 1` never misses its key. Every successor of a popped
  id has an entry (`SuccessorEntry`). In the model the map update is checked
  to be defined.

## Model

| member | source | states |
|---|---|---|
| DagValidator.IsDag | backend/main.py:25-55 | Without edges the verdict is True. The popped ids form a complete Kahn run (`KahnOrder`). The verdict is "pops == number of node ids". Pops are bounded by the initial queue plus the ids of positive in-degree. On well-formed input the verdict is True iff the edges hold no cycle. |
| DagValidator.BuildGraph | backend/main.py:31-40 | The adjacency map and the in-degree map built by the edge loop equal `Adjacency` and `InDegrees`: declared ids map to their targets in edge order; declared ids and targets of declared-source edges map to their edge counts. |
| DagValidator.ReleaseSuccessors | backend/main.py:50-53 | After the successors of the popped id are decremented, the queue is the old queue, unchanged at the front, followed by exactly the successors whose in-degree reached zero at their own decrement, in successor order (`Releases`). The map still equals in-degrees less all decrements, the queue history is still explained, and queue length plus positive ids is unchanged. |
| Pipeline.ParsePipeline | backend/main.py:57-70 | `num_nodes` and `num_edges` are the exact lengths of the submitted lists. `is_dag` is the verdict of a complete run. It is True without edges, and on well-formed input it is True iff the graph has no cycle. |
| KahnSpec.GetOrZero | backend/main.py:40-43 | `indegree.get(x, 0)`: the entry stored for x, or 0 when the map has no entry for x. |
| KahnSpec.ZeroInDegree | backend/main.py:43 | The initial queue, built by keeping in order the ids whose in-degree (default 0) is zero, is no longer than the node list. |
| KahnSpec.ZeroInDegreeCount | backend/main.py:43 | The initial queue holds each id exactly as often as it occurs in the node list when its in-degree (default 0) is zero, and not at all otherwise. |
| KahnSpec.InDegreesGet | backend/main.py:40 | `indegree.get(x, 0)` on the built map is the number of edges from declared sources into x. |
| KahnSpec.BuildStart | backend/main.py:32-33 | Before any edge is read, every declared id has an empty adjacency list and in-degree 0. |
| KahnSpec.AdjacencySnoc | backend/main.py:35-39 | One more edge appends its target to its source's list when the source is declared, and leaves the map unchanged otherwise. |
| KahnSpec.InDegreesSnoc | backend/main.py:35-40 | One more edge raises its target's in-degree by one, creating the entry at 0 if needed, when the source is declared. It changes nothing otherwise. |
| KahnSpec.BuildStep | backend/main.py:35-40 | The maps after one iteration of the edge loop are the maps of one more edge. |
| KahnSpec.AdjacencyGet | backend/main.py:50 | `adj.get(current, [])` is the list of targets of the edges from `current` if it is declared, and empty otherwise. |
| KahnSpec.DecrementsSnoc | backend/main.py:46-53 | Popping one more id adds exactly its successors, in order, to the decrements done. |
| KahnSpec.PositiveDecrement | backend/main.py:51-52 | A decrement removes an id from the positive-in-degree ids exactly when its in-degree was 1. This is the termination measure `|queue| + #positive`. |
| KahnSpec.NothingReachedOrder | backend/main.py:27-28 | When no edge leaves a declared id (in particular, without edges), all ids have in-degree 0. The initial queue is the whole node list, and popping it is a complete run. |
| Digraph.UndeclaredSourceIgnored | backend/main.py:38-40 | An edge whose source is undeclared contributes nothing to the targets, wherever it stands in the edge list. |
| Digraph.TargetsFromPermutation | backend/main.py:35-40 | The targets reached (as a multiset) depend on the multiset of edges only. |
| KahnLoop.LoopStart | backend/main.py:43-44 | Before the first pop, the map equals the built in-degrees with nothing decremented, and the queue history is exactly the initial queue. |
| KahnLoop.LoopDecrement | backend/main.py:51-53 | One decrement keeps the map equal to in-degrees less decrements. The id is appended exactly when its count reaches zero. |
| KahnLoop.InDegreesDecrement | backend/main.py:51 | Decrementing one entry keeps every entry equal to its in-degree less the decrements it received. |
| KahnLoop.HistoryAppend | backend/main.py:52-53 | When an in-degree reaches zero, appending the id keeps the queue history explained: it was released, and it entered exactly once. |
| KahnLoop.HistoryKeep | backend/main.py:52 | When an in-degree stays non-zero, the history is unchanged and still explained. |
| KahnLoop.SuccessorEntry | backend/main.py:50-51 | Every successor of a popped id has an entry in the in-degree map, so `indegree[neighbor]` is defined. |
| KahnLoop.ReleaseAt | backend/main.py:51-53 | One decrement keeps the invariant. The id leaves the positive ones exactly when it enters the queue. |
| KahnLoop.ReleaseStep | backend/main.py:50-53 | One iteration of the inner loop, at successor index j, keeps the map, the history and the termination measure in step with the decrements, now including successor j. |
| KahnLoop.ReleasesStep | backend/main.py:50-53 | In one iteration of the inner loop, the successor at index j is appended behind the queue so far exactly when its in-degree reaches zero, which is exactly when `Releases` keeps it. |
| KahnLoop.DecrementsSoFar | backend/main.py:50-51 | While a popped id's successors are processed, the next decrement is still owed by the ids that entered the queue. |
| KahnProofs.InitialQueueUnreached | backend/main.py:43 | Every id of the initial queue has in-degree zero. |
| KahnProofs.RunPopsOnce | backend/main.py:46-53 | With distinct ids, no id is popped twice. |
| KahnProofs.RunPopsDeclared | backend/main.py:46-53 | When every edge target is declared, only declared ids are popped. |
| KahnProofs.RunEntryReleased | backend/main.py:52-53 | Every id popped after the initial queue had all its incoming decrements done by earlier pops. |
| KahnProofs.PredecessorPoppedEarlier | backend/main.py:46-53 | On well-formed input, every predecessor of a popped id was popped before it. |
| KahnProofs.PoppedOffCycle | backend/main.py:46-53 | On well-formed input, no popped id lies on a cycle. |
| KahnProofs.FullRunAcyclic | backend/main.py:55 | On well-formed input, a run that pops as many ids as were declared proves the graph acyclic. |
| KahnProofs.UnpoppedPredecessor | backend/main.py:46-53 | On well-formed input, every declared id never popped has a predecessor that was never popped either. |
| KahnProofs.ShortRunHasCycle | backend/main.py:55 | On well-formed input, a run with fewer pops than ids implies a cycle. |
| KahnProofs.KahnOrderDecides | backend/main.py:25-55 | On well-formed input, "pops == number of ids" holds iff the graph has no cycle, in both directions. |
| KahnProofs.SelfLoopRejected | backend/main.py:55 | On well-formed input, an edge from an id to itself makes the run fall short, so the verdict is False. |
| KahnProofs.RunsAgree | backend/main.py:46-53 | Any two complete runs on the same input pop the same ids equally often. The verdict is determined by the input. |
| KahnProofs.KahnOrderEdgePermutation | backend/main.py:35-53 | A complete run for one order of the edges is a complete run for any reordering. |
| KahnProofs.EdgeOrderIrrelevant | backend/main.py:35-55 | Reordering the edges does not change the verdict. |
| Scenarios.TwoPopRun | backend/main.py:43-53 | On input where one id of in-degree zero releases a single successor, which has no successors, popping those two is a complete run. |
| Scenarios.DanglingTargetCounted | backend/main.py:38-40 | With nodes [A] and edges [A -> X], every run pops two ids, so the verdict is False, while the edges hold no cycle. |
| Scenarios.DanglingTargetMasksSelfLoop | backend/main.py:38-55 | With nodes [A, B] and edges [B -> B, A -> X], every run pops two ids, so the verdict is True, while the edges hold a cycle. |
| Scenarios.UndeclaredSourceSkipped | backend/main.py:38 | With nodes [A, B] and edges [X -> B], the edge is skipped and both ids are popped, so the verdict is True. |
| Scenarios.DuplicateIdRejectsAcyclic | backend/main.py:31-55 | With nodes [A, B, B] and edges [A -> B], every run pops two ids against three listed, so the verdict is False, while the edges hold no cycle. |

## Left out

- The web layer is not modelled: FastAPI routing, the CORS middleware, the
  `GET /` ping handler, pydantic validation of `PipelineRequest`, JSON
  (de)serialisation, and `async`. The endpoint is modelled as a plain call.
- Node and edge dictionaries are reduced to the fields `is_dag` reads. When
  the edge list is non-empty, a node or an edge lacking `id`, `source` or
  `target` raises `KeyError` in the source; with no edges the function returns
  before it reads any field. The model's types cannot express a missing
  field, so that failure is not modelled.
- Ids are compared only for equality, through a generic equality type. Python's
  hashing of dictionary keys, and ids of unhashable or mixed types, are not
  modelled.
- `queue.pop(0)` and `queue.append` mutate a Python list in place.
  `adj[source].append(target)` mutates a list held in a dictionary. Here these
  are sequence and map values that the methods reassign, so aliasing between
  the lists is not modelled (the source shares none).
- The ghost output `order` of `IsDag` (the sequence of popped ids) has no
  counterpart in the source. The source only counts pops
  (`visited_count`), and that count is `|order|`.
- DagValidator.IsDag: "True iff acyclic" is stated only for well-formed input
  (distinct ids, every endpoint declared). On other input the source gives no
  such promise, and the scenarios show where it breaks.
