/**
 The parse endpoint: it reports how many nodes and edges the submitted
 pipeline has and whether its graph is acyclic.
 */
module Pipeline {
  import opened Digraph
  import opened KahnSpec
  import opened DagValidator

  /** The three fields of the endpoint's response. */
  datatype PipelineSummary = PipelineSummary(numNodes: nat, numEdges: nat, isDag: bool)

  /**
   Counts the nodes and edges as submitted (repeated ids and dangling edges
   included) and runs the DAG check on them. `order` is the run of the check.
   */
  method ParsePipeline<T(==, !new)>(nodes: seq<T>, edges: seq<Edge<T>>) returns (summary: PipelineSummary, ghost order: seq<T>)
    ensures summary.numNodes == |nodes| && summary.numEdges == |edges|
    ensures KahnOrder(nodes, edges, order) && summary.isDag == (|order| == |nodes|)
    ensures summary.numEdges == 0 ==> summary.isDag
    ensures WellFormed(nodes, edges) ==> (summary.isDag <==> !HasCycle(edges))
  {
    var isDag;
    isDag, order := IsDag(nodes, edges);
    summary := PipelineSummary(|nodes|, |edges|, isDag);
  }
}
