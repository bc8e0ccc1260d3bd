/**
 The DAG check of the pipeline endpoint: Kahn's topological sort, adapted.
 `BuildGraph` is the build loop (adjacency lists and in-degrees), `IsDag` the
 whole check: the no-edge fast path, the initial queue, and the loop that pops
 ids, decrements their successors' in-degrees and counts the pops.
 */
module DagValidator {
  import opened SeqFacts
  import opened Digraph
  import opened KahnSpec
  import opened KahnLoop
  import opened KahnProofs

  /**
   Builds the adjacency lists and the in-degree map. An edge whose source is
   not declared is skipped; an undeclared target still gets an in-degree entry.
   */
  method BuildGraph<T(==, !new)>(nodes: seq<T>, edges: seq<Edge<T>>) returns (adj: map<T, seq<T>>, indegree: map<T, int>)
    ensures adj == Adjacency(nodes, edges)
    ensures indegree == InDegrees(nodes, edges)
  {
    adj := map id | id in nodes :: [];
    indegree := map id | id in nodes :: 0;
    BuildStart(nodes);
    for i := 0 to |edges|
      invariant adj == Adjacency(nodes, edges[..i])
      invariant indegree == InDegrees(nodes, edges[..i])
    {
      var source, target := edges[i].source, edges[i].target;
      ghost var adj0, indegree0 := adj, indegree;
      if source in adj {
        adj := adj[source := adj[source] + [target]];
        indegree := indegree[target := GetOrZero(indegree, target) + 1];
      }
      BuildStep(nodes, edges, i, adj0, indegree0, adj, indegree);
    }
    FullPrefix(edges);
  }

  /**
   The inner loop, for the id `current` just popped behind the ids `done`:
   decrements the in-degree of each of its successors, in edge order, and
   appends to the queue each one whose in-degree reaches zero. The map and
   the queue's history stay in step with the decrements, now including those
   of `current`, and every id appended leaves the positive ones.
   */
  method ReleaseSuccessors<T(==, !new)>(nodes: seq<T>, edges: seq<Edge<T>>, current: T, successors: seq<T>,
                                       indegree0: map<T, int>, queue0: seq<T>, ghost done: seq<T>)
    returns (indegree: map<T, int>, queue: seq<T>)
    requires successors == Succ(nodes, edges, current)
    requires InDegreesLeft(nodes, edges, indegree0, Decrements(nodes, edges, done))
    requires QueueHistory(nodes, edges, done + [current] + queue0, Decrements(nodes, edges, done))
    ensures InDegreesLeft(nodes, edges, indegree, Decrements(nodes, edges, done + [current]))
    ensures QueueHistory(nodes, edges, done + [current] + queue, Decrements(nodes, edges, done + [current]))
    ensures |queue| + |Positive(indegree)| == |queue0| + |Positive(indegree0)|
    ensures queue == queue0 + Releases(nodes, edges, Decrements(nodes, edges, done), successors)
  {
    indegree, queue := indegree0, queue0;
    ghost var dec := Decrements(nodes, edges, done);
    AppendPrefixes(dec, successors);
    NoneReleased(nodes, edges, dec, successors, queue0);
    for j := 0 to |successors|
      invariant InDegreesLeft(nodes, edges, indegree, dec + successors[..j])
      invariant QueueHistory(nodes, edges, done + [current] + queue, dec + successors[..j])
      invariant |queue| + |Positive(indegree)| == |queue0| + |Positive(indegree0)|
      invariant queue == queue0 + Releases(nodes, edges, dec, successors[..j])
    {
      var neighbor := successors[j];
      SuccessorEntry(nodes, edges, indegree, dec + successors[..j], current, j);
      ghost var before, rest := indegree, queue;
      indegree := indegree[neighbor := indegree[neighbor] - 1];
      if indegree[neighbor] == 0 {
        queue := queue + [neighbor];
      }
      ReleaseStep(nodes, edges, before, indegree, done, current, rest, queue, j);
      ReleasesStep(nodes, edges, before, indegree, dec, successors, queue0, rest, queue, j);
    }
    FullPrefix(successors);
    DecrementsSnoc(nodes, edges, done, current);
  }

  /**
   Decides whether the submitted graph is acyclic. `order` is the sequence of
   ids the loop pops; the verdict is whether there were as many pops as ids in
   `nodes`.
   */
  method IsDag<T(==, !new)>(nodes: seq<T>, edges: seq<Edge<T>>) returns (r: bool, ghost order: seq<T>)
    ensures |edges| == 0 ==> r
    ensures KahnOrder(nodes, edges, order)
    ensures r == (|order| == |nodes|)
    ensures |order| <= |InitialQueue(nodes, edges)| + |Positive(InDegrees(nodes, edges))|
    ensures WellFormed(nodes, edges) ==> (r <==> !HasCycle(edges))
  {
    if |edges| == 0 {
      NothingReachedOrder(nodes, edges);
      KahnOrderDecides(nodes, edges, nodes);
      return true, nodes;
    }
    var adj, indegree := BuildGraph(nodes, edges);
    var queue := ZeroInDegree(nodes, indegree);
    LoopStart(nodes, edges);
    assert queue == InitialQueue(nodes, edges);
    ghost var bound := |queue| + |Positive(indegree)|;
    ghost var popped: seq<T> := [];
    var visited := 0;
    assert popped + queue == queue;
    while queue != []
      invariant InDegreesLeft(nodes, edges, indegree, Decrements(nodes, edges, popped))
      invariant QueueHistory(nodes, edges, popped + queue, Decrements(nodes, edges, popped))
      invariant visited == |popped|
      invariant |popped| + |queue| + |Positive(indegree)| == bound
      decreases |queue| + |Positive(indegree)|
    {
      ghost var done := popped;
      PopFront(done, queue);
      var current := queue[0];
      queue := queue[1..];
      visited := visited + 1;
      popped := popped + [current];
      var successors := if current in adj then adj[current] else [];
      AdjacencyGet(nodes, edges, adj, current);
      indegree, queue := ReleaseSuccessors(nodes, edges, current, successors, indegree, queue, done);
    }
    r := visited == |nodes|;
    order := popped;
    assert popped + queue == popped;
    KahnOrderDecides(nodes, edges, order);
  }
}
