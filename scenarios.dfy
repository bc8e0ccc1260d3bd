/**
 Small inputs on which the validator's verdict follows from the way it treats
 edges and ids that the node list does not describe exactly: an edge to an
 undeclared id still counts towards that id, an edge from an undeclared id is
 skipped, and a repeated id is expected to be popped once per occurrence.
 Each lemma exhibits one complete run and concludes, through `RunsAgree`, the
 length of every run, and so the verdict `|order| == |nodes|`.
 */
module Scenarios {
  import opened SeqFacts
  import opened Digraph
  import opened KahnSpec
  import opened KahnProofs

  /** Node ids of the examples; the validator only compares ids for equality. */
  datatype Id = A | B | X

  /**
   Input on which s is the only id of in-degree zero, it occurs once in
   `nodes` and has t as its only successor, and t has in-degree one and no
   successor.
   */
  ghost predicate TwoPopInput<T(!new)>(nodes: seq<T>, edges: seq<Edge<T>>, s: T, t: T)
  {
    && s != t
    && InitialQueue(nodes, edges) == [s]
    && Succ(nodes, edges, s) == [t] && Succ(nodes, edges, t) == []
    && InCount(nodes, edges, t) == 1
    && InCount(nodes, edges, s) == 0 && multiset(nodes)[s] == 1
    && forall x :: x != s && x != t ==> InCount(nodes, edges, x) > 0 || multiset(nodes)[x] == 0
  }

  /** On such input, popping s and then t is a complete run. */
  lemma TwoPopRun<T(!new)>(nodes: seq<T>, edges: seq<Edge<T>>, s: T, t: T)
    requires TwoPopInput(nodes, edges, s, t)
    ensures KahnOrder(nodes, edges, [s, t])
  {
    var w := [s, t];
    assert w[..1] == [s];
    assert Decrements(nodes, edges, [s]) == [t];
    assert Decrements(nodes, edges, w) == [t];
    assert EnteredReleased(nodes, edges, w, 1);
    forall x
      ensures EnteredAsOften(nodes, edges, w, [t], x)
    {
      if x != s && x != t && InCount(nodes, edges, x) > 0 {
        assert multiset([t])[x] == 0;
      }
    }
  }

  /** The input nodes = [A], edges = [A -> X]. */
  lemma DanglingTargetInput()
    ensures TwoPopInput([A], [Edge(A, X)], A, X)
  {
    var nodes, edges := [A], [Edge(A, X)];
    assert Elems(nodes) == {A};
    assert edges[..0] == [];
    assert TargetsFrom(edges, {A}) == [X];
    InDegreesGet(nodes, edges, A);
  }

  /** Popping A, then X, is a complete run on nodes = [A], edges = [A -> X]. */
  lemma DanglingTargetRun()
    ensures KahnOrder([A], [Edge(A, X)], [A, X])
  {
    DanglingTargetInput();
    TwoPopRun([A], [Edge(A, X)], A, X);
  }

  /**
   nodes = [A], edges = [A -> X]: X gets an in-degree entry, is released by A
   and popped, so two ids are popped against one declared: the verdict is False
   although the edges hold no cycle.
   */
  lemma DanglingTargetCounted(order: seq<Id>)
    requires KahnOrder([A], [Edge(A, X)], order)
    ensures |order| == 2 && |order| != |[A]|
    ensures !HasCycle([Edge(A, X)])
  {
    DanglingTargetRun();
    RunsAgree([A], [Edge(A, X)], order, [A, X]);
    SingleEdgeAcyclic(A, X);
  }

  /** The targets of the edges from the declared ids, and from A, for edges = [B -> B, A -> X]. */
  lemma SelfLoopTargets()
    ensures TargetsFrom([Edge(B, B), Edge(A, X)], Elems([A, B])) == [B, X]
    ensures TargetsFrom([Edge(B, B), Edge(A, X)], {A}) == [X]
  {
    var edges := [Edge(B, B), Edge(A, X)];
    assert Elems([A, B]) == {A, B};
    assert edges[..1] == [Edge(B, B)];
    assert [Edge(B, B)][..0] == [];
  }

  /** The input nodes = [A, B], edges = [B -> B, A -> X]. */
  lemma SelfLoopInput()
    ensures TwoPopInput([A, B], [Edge(B, B), Edge(A, X)], A, X)
  {
    var nodes, edges := [A, B], [Edge(B, B), Edge(A, X)];
    SelfLoopTargets();
    assert InCount(nodes, edges, A) == 0 && InCount(nodes, edges, B) == 1 && InCount(nodes, edges, X) == 1;
    InDegreesGet(nodes, edges, A);
    InDegreesGet(nodes, edges, B);
    assert nodes[1..] == [B];
    assert InitialQueue(nodes, edges) == [A];
  }

  /** Popping A, then X, is a complete run on nodes = [A, B], edges = [B -> B, A -> X]. */
  lemma SelfLoopRun()
    ensures KahnOrder([A, B], [Edge(B, B), Edge(A, X)], [A, X])
  {
    SelfLoopInput();
    TwoPopRun([A, B], [Edge(B, B), Edge(A, X)], A, X);
  }

  /**
   nodes = [A, B], edges = [B -> B, A -> X]: the self-loop keeps B out of the
   queue, but the undeclared X is popped in its place, so the count of pops
   matches the two declared ids and the verdict is True despite the cycle.
   */
  lemma DanglingTargetMasksSelfLoop(order: seq<Id>)
    requires KahnOrder([A, B], [Edge(B, B), Edge(A, X)], order)
    ensures |order| == |[A, B]|
    ensures HasCycle([Edge(B, B), Edge(A, X)])
  {
    SelfLoopRun();
    RunsAgree([A, B], [Edge(B, B), Edge(A, X)], order, [A, X]);
    assert IsCycle([Edge(B, B), Edge(A, X)], [B, B]);
  }

  /** Popping A, then B, is a complete run on nodes = [A, B], edges = [X -> B]. */
  lemma UndeclaredSourceRun()
    ensures KahnOrder([A, B], [Edge(X, B)], [A, B])
  {
    var nodes, edges := [A, B], [Edge(X, B)];
    assert Elems(nodes) == {A, B};
    assert edges[..0] == [];
    assert TargetsFrom(edges, {A, B}) == [];
    NothingReachedOrder(nodes, edges);
  }

  /**
   nodes = [A, B], edges = [X -> B]: the edge's source is undeclared, so the
   edge is skipped, both ids start in the queue and the verdict is True.
   */
  lemma UndeclaredSourceSkipped(order: seq<Id>)
    requires KahnOrder([A, B], [Edge(X, B)], order)
    ensures |order| == |[A, B]|
  {
    UndeclaredSourceRun();
    RunsAgree([A, B], [Edge(X, B)], order, [A, B]);
  }

  /** The input nodes = [A, B, B], edges = [A -> B]. */
  lemma DuplicateIdInput()
    ensures TwoPopInput([A, B, B], [Edge(A, B)], A, B)
  {
    var nodes, edges := [A, B, B], [Edge(A, B)];
    assert Elems(nodes) == {A, B};
    assert edges[..0] == [];
    assert TargetsFrom(edges, {A, B}) == [B];
    InDegreesGet(nodes, edges, A);
    InDegreesGet(nodes, edges, B);
    assert [A, B, B][1..] == [B, B];
    assert [B, B][1..] == [B];
  }

  /** Popping A, then B, is a complete run on nodes = [A, B, B], edges = [A -> B]. */
  lemma DuplicateIdRun()
    ensures KahnOrder([A, B, B], [Edge(A, B)], [A, B])
  {
    DuplicateIdInput();
    TwoPopRun([A, B, B], [Edge(A, B)], A, B);
  }

  /**
   nodes = [A, B, B], edges = [A -> B]: the repeated id B has one in-degree
   entry, enters the queue once and is popped once, so the verdict is False
   although the edges hold no cycle.
   */
  lemma DuplicateIdRejectsAcyclic(order: seq<Id>)
    requires KahnOrder([A, B, B], [Edge(A, B)], order)
    ensures |order| == 2 && |order| != |[A, B, B]|
    ensures !HasCycle([Edge(A, B)])
  {
    DuplicateIdRun();
    RunsAgree([A, B, B], [Edge(A, B)], order, [A, B]);
    SingleEdgeAcyclic(A, B);
  }
}
