/**
 What a completed run of the validator's topological sort means. On
 well-formed input (distinct ids, every edge endpoint declared) a run pops
 every id exactly when the edges hold no cycle. On any input the run's
 verdict is determined by the input alone and does not depend on the order
 of the edges.
 */
module KahnProofs {
  import opened SeqFacts
  import opened Digraph
  import opened KahnSpec

  /** The ids of the initial queue have in-degree zero. */
  lemma InitialQueueUnreached<T(!new)>(nodes: seq<T>, edges: seq<Edge<T>>, x: T)
    requires x in InitialQueue(nodes, edges)
    ensures InCount(nodes, edges, x) == 0
  {
    InDegreesGet(nodes, edges, x);
    ZeroInDegreeCount(nodes, InDegrees(nodes, edges), x);
  }

  /**
   For repeat-free popped ids, the decrements are one per edge whose source is
   a declared id among them.
   */
  lemma {:induction false} DecrementsDistinct<T(!new)>(nodes: seq<T>, edges: seq<Edge<T>>, popped: seq<T>)
    requires Distinct(popped)
    ensures multiset(Decrements(nodes, edges, popped))
         == multiset(TargetsFrom(edges, Elems(popped) * Elems(nodes)))
    decreases |popped|
  {
    if popped == [] {
      assert Elems(popped) * Elems(nodes) == {};
      TargetsFromNoSources(edges);
    } else {
      var init, s := popped[..|popped| - 1], popped[|popped| - 1];
      DecrementsDistinct(nodes, edges, init);
      var sources := Elems(init) * Elems(nodes);
      assert s !in Elems(init);
      if s in nodes {
        assert Elems(popped) * Elems(nodes) == sources + {s};
        TargetsFromSplit(edges, sources, s);
      } else {
        assert Elems(popped) * Elems(nodes) == sources;
      }
    }
  }

  /** When the ids are distinct, a run pops none of them twice. */
  lemma RunPopsOnce<T(!new)>(nodes: seq<T>, edges: seq<Edge<T>>, order: seq<T>)
    requires Distinct(nodes) && KahnOrder(nodes, edges, order)
    ensures Distinct(order)
  {
    forall x
      ensures multiset(order)[x] <= 1
    {
      assert EnteredAsOften(nodes, edges, order, Decrements(nodes, edges, order), x);
      DistinctCounts(nodes, x);
    }
    CountsDistinct(order);
  }

  /** When every edge target is declared, a run pops declared ids only. */
  lemma RunPopsDeclared<T(!new)>(nodes: seq<T>, edges: seq<Edge<T>>, order: seq<T>)
    requires TargetsDeclared(nodes, edges) && KahnOrder(nodes, edges, order)
    ensures Elems(order) <= Elems(nodes)
  {
    forall x | x in order
      ensures x in nodes
    {
      assert multiset(order)[x] > 0;
      assert EnteredAsOften(nodes, edges, order, Decrements(nodes, edges, order), x);
      if InCount(nodes, edges, x) > 0 {
        var s := TargetsFromSource(edges, Elems(nodes), x);
        assert Edge(s, x) in edges;
      } else {
        assert multiset(nodes)[x] > 0;
      }
    }
  }

  /** On well-formed input a run pops declared ids only, none twice. */
  lemma RunWithinNodes<T(!new)>(nodes: seq<T>, edges: seq<Edge<T>>, order: seq<T>)
    requires WellFormed(nodes, edges) && KahnOrder(nodes, edges, order)
    ensures Distinct(order) && Elems(order) <= Elems(nodes)
  {
    RunPopsOnce(nodes, edges, order);
    RunPopsDeclared(nodes, edges, order);
  }

  /** Every id popped after the initial queue was released by the ids popped before it. */
  lemma RunEntryReleased<T(!new)>(nodes: seq<T>, edges: seq<Edge<T>>, order: seq<T>, k: nat)
    requires KahnOrder(nodes, edges, order)
    requires k < |order| && InCount(nodes, edges, order[k]) > 0
    ensures Released(nodes, edges, order[..k], order[k])
  {
    var q0 := InitialQueue(nodes, edges);
    if k < |q0| {
      assert order[..|q0|][k] == order[k];
      InitialQueueUnreached(nodes, edges, order[k]);
      assert false;
    }
    assert EnteredReleased(nodes, edges, order, k);
  }

  /**
   On well-formed input, every predecessor of a popped id with an incoming edge
   was popped before it.
   */
  lemma PredecessorPoppedEarlier<T(!new)>(nodes: seq<T>, edges: seq<Edge<T>>, order: seq<T>, k: nat, s: T) returns (j: nat)
    requires WellFormed(nodes, edges) && KahnOrder(nodes, edges, order)
    requires k < |order| && HasEdge(edges, s, order[k])
    ensures j < k && order[j] == s
  {
    var x := order[k];
    assert Edge(s, x) in edges;
    TargetsFromNoSources(edges);
    TargetsFromMissing(edges, {}, Elems(nodes), s, x);
    RunEntryReleased(nodes, edges, order, k);
    RunWithinNodes(nodes, edges, order);
    var prefix := order[..k];
    assert Distinct(prefix) by {
      forall i, i' | 0 <= i < i' < |prefix|
        ensures prefix[i] != prefix[i']
      {
        assert prefix[i] == order[i] && prefix[i'] == order[i'];
      }
    }
    DecrementsDistinct(nodes, edges, prefix);
    var sources := Elems(prefix) * Elems(nodes);
    if s !in prefix {
      TargetsFromMissing(edges, sources, Elems(nodes), s, x);
      assert false;
    }
    j :| 0 <= j < k && prefix[j] == s;
  }

  /**
   On well-formed input no popped id lies on a cycle: the first cycle id to
   be popped would need its predecessor on the cycle popped before it.
   */
  lemma {:induction false} PoppedOffCycle<T(!new)>(nodes: seq<T>, edges: seq<Edge<T>>, order: seq<T>, k: nat)
    requires WellFormed(nodes, edges) && KahnOrder(nodes, edges, order)
    requires k < |order|
    ensures !OnCycle(edges, order[k])
    decreases k
  {
    if p :| IsCycle(edges, p) && p[0] == order[k] {
      CyclePredecessor(edges, p);
      var j := PredecessorPoppedEarlier(nodes, edges, order, k, p[|p| - 2]);
      PoppedOffCycle(nodes, edges, order, j);
      assert false;
    }
  }

  /** On well-formed input, a run that pops as many ids as were declared proves the graph acyclic. */
  lemma FullRunAcyclic<T(!new)>(nodes: seq<T>, edges: seq<Edge<T>>, order: seq<T>)
    requires WellFormed(nodes, edges) && KahnOrder(nodes, edges, order)
    requires |order| == |nodes|
    ensures !HasCycle(edges)
  {
    RunWithinNodes(nodes, edges, order);
    DistinctCard(order);
    DistinctCard(nodes);
    SubsetCardEq(Elems(order), Elems(nodes));
    if p :| IsCycle(edges, p) {
      assert Edge(p[0], p[1]) in edges;
      assert p[0] in Elems(order);
      var k :| 0 <= k < |order| && order[k] == p[0];
      PoppedOffCycle(nodes, edges, order, k);
      assert false;
    }
  }

  /**
   On well-formed input, every declared id a run never pops has a predecessor
   the run never pops either: otherwise its in-degree would have reached zero.
   */
  lemma UnpoppedPredecessor<T(!new)>(nodes: seq<T>, edges: seq<Edge<T>>, order: seq<T>, u: T) returns (s: T)
    requires WellFormed(nodes, edges) && KahnOrder(nodes, edges, order)
    requires u in nodes && u !in order
    ensures s in nodes && s !in order && HasEdge(edges, s, u)
  {
    RunWithinNodes(nodes, edges, order);
    DecrementsDistinct(nodes, edges, order);
    assert multiset(order)[u] == 0;
    assert EnteredAsOften(nodes, edges, order, Decrements(nodes, edges, order), u);
    assert multiset(nodes)[u] > 0;
    s := SourceOutside(edges, Elems(order) * Elems(nodes), Elems(nodes), u);
  }

  /**
   On well-formed input, a run that pops fewer ids than were declared leaves
   ids that all have an unpopped predecessor: the graph has a cycle.
   */
  lemma ShortRunHasCycle<T(!new)>(nodes: seq<T>, edges: seq<Edge<T>>, order: seq<T>)
    requires WellFormed(nodes, edges) && KahnOrder(nodes, edges, order)
    requires |order| != |nodes|
    ensures HasCycle(edges)
  {
    RunWithinNodes(nodes, edges, order);
    var y := MissingElement(order, nodes);
    var unpopped := Elems(nodes) - Elems(order);
    forall u | u in unpopped
      ensures HasPredecessorIn(edges, unpopped, u)
    {
      var s := UnpoppedPredecessor(nodes, edges, order, u);
      assert s in unpopped;
    }
    assert Elems([y]) == {y};
    ClosedSetHasCycle(edges, unpopped, [y]);
  }

  /** On well-formed input, a run pops every id exactly when the graph has no cycle. */
  lemma KahnOrderDecides<T(!new)>(nodes: seq<T>, edges: seq<Edge<T>>, order: seq<T>)
    requires KahnOrder(nodes, edges, order)
    ensures WellFormed(nodes, edges) ==> (|order| == |nodes| <==> !HasCycle(edges))
  {
    if WellFormed(nodes, edges) {
      if |order| == |nodes| {
        FullRunAcyclic(nodes, edges, order);
      } else {
        ShortRunHasCycle(nodes, edges, order);
      }
    }
  }

  /** On well-formed input a self-loop on any id makes the run fall short. */
  lemma SelfLoopRejected<T(!new)>(nodes: seq<T>, edges: seq<Edge<T>>, order: seq<T>, x: T)
    requires WellFormed(nodes, edges) && KahnOrder(nodes, edges, order)
    requires HasEdge(edges, x, x)
    ensures |order| < |nodes|
  {
    assert IsCycle(edges, [x, x]);
    KahnOrderDecides(nodes, edges, order);
    RunWithinNodes(nodes, edges, order);
    DistinctCard(order);
    DistinctCard(nodes);
    SubsetCard(Elems(order), Elems(nodes));
  }

  /** Processing the id at index i contributes its successors, the others the rest. */
  lemma DecrementsRemoveAt<T(!new)>(nodes: seq<T>, edges: seq<Edge<T>>, popped: seq<T>, i: nat)
    requires i < |popped|
    ensures multiset(Decrements(nodes, edges, popped))
         == multiset(Decrements(nodes, edges, popped[..i] + popped[i + 1..])) + multiset(Succ(nodes, edges, popped[i]))
  {
    var before, after := popped[..i], popped[i + 1..];
    assert popped == before + [popped[i]] + after;
    DecrementsAppend(nodes, edges, before + [popped[i]], after);
    DecrementsAppend(nodes, edges, before, [popped[i]]);
    DecrementsAppend(nodes, edges, before, after);
    assert [popped[i]][..0] == [];
  }

  /** Popping more ids (as a multiset) decrements every in-degree at least as often. */
  lemma {:induction false} DecrementsMono<T(!new)>(nodes: seq<T>, edges: seq<Edge<T>>, a: seq<T>, b: seq<T>)
    requires multiset(a) <= multiset(b)
    ensures multiset(Decrements(nodes, edges, a)) <= multiset(Decrements(nodes, edges, b))
    decreases |a|
  {
    if a != [] {
      var n := |a| - 1;
      var x := a[n];
      assert x in multiset(b);
      var i :| 0 <= i < |b| && b[i] == x;
      var restA, restB := a[..n] + a[n + 1..], b[..i] + b[i + 1..];
      RemoveAt(a, n);
      RemoveAt(b, i);
      DecrementsMono(nodes, edges, restA, restB);
      DecrementsRemoveAt(nodes, edges, a, n);
      DecrementsRemoveAt(nodes, edges, b, i);
    }
  }

  /**
   The next id a run pops is, counting it, popped no more often than in any
   other run that pops everything popped before it: it was either in the
   initial queue, which every run starts from, or released by ids the other
   run pops too.
   */
  lemma NextPopIncluded<T(!new)>(nodes: seq<T>, edges: seq<Edge<T>>, o1: seq<T>, o2: seq<T>, k: nat)
    requires KahnOrder(nodes, edges, o1) && KahnOrder(nodes, edges, o2)
    requires k < |o1| && multiset(o1[..k]) <= multiset(o2)
    ensures multiset(o1[..k + 1])[o1[k]] <= multiset(o2)[o1[k]]
  {
    var x := o1[k];
    PrefixCount(o1, k + 1, x);
    assert EnteredAsOften(nodes, edges, o1, Decrements(nodes, edges, o1), x);
    assert EnteredAsOften(nodes, edges, o2, Decrements(nodes, edges, o2), x);
    if InCount(nodes, edges, x) != 0 {
      RunEntryReleased(nodes, edges, o1, k);
      DecrementsMono(nodes, edges, o1[..k], o2);
    }
  }

  /** Every prefix of one run is contained, as a multiset, in any other run of the same input. */
  lemma {:induction false} RunPrefixIncluded<T(!new)>(nodes: seq<T>, edges: seq<Edge<T>>, o1: seq<T>, o2: seq<T>, k: nat)
    requires KahnOrder(nodes, edges, o1) && KahnOrder(nodes, edges, o2)
    requires k <= |o1|
    ensures multiset(o1[..k]) <= multiset(o2)
    decreases k
  {
    if k > 0 {
      RunPrefixIncluded(nodes, edges, o1, o2, k - 1);
      NextPopIncluded(nodes, edges, o1, o2, k - 1);
      var x := o1[k - 1];
      TakeOneMore(o1, k - 1);
      forall y
        ensures multiset(o1[..k])[y] <= multiset(o2)[y]
      {
        if y != x {
          assert multiset(o1[..k])[y] == multiset(o1[..k - 1])[y];
        }
      }
    }
  }

  /**
   Any two runs on the same input pop the same ids equally often, so the
   verdict is a function of the input.
   */
  lemma RunsAgree<T(!new)>(nodes: seq<T>, edges: seq<Edge<T>>, o1: seq<T>, o2: seq<T>)
    requires KahnOrder(nodes, edges, o1) && KahnOrder(nodes, edges, o2)
    ensures multiset(o1) == multiset(o2)
    ensures |o1| == |o2|
  {
    RunPrefixIncluded(nodes, edges, o1, o2, |o1|);
    RunPrefixIncluded(nodes, edges, o2, o1, |o2|);
    assert o1[..|o1|] == o1;
    assert o2[..|o2|] == o2;
    assert |multiset(o1)| == |o1| && |multiset(o2)| == |o2|;
  }

  /** Decrements depend on the multiset of edges only. */
  lemma {:induction false} DecrementsPermutation<T(!new)>(nodes: seq<T>, e1: seq<Edge<T>>, e2: seq<Edge<T>>, popped: seq<T>)
    requires multiset(e1) == multiset(e2)
    ensures multiset(Decrements(nodes, e1, popped)) == multiset(Decrements(nodes, e2, popped))
    decreases |popped|
  {
    if popped != [] {
      var s := popped[|popped| - 1];
      DecrementsPermutation(nodes, e1, e2, popped[..|popped| - 1]);
      TargetsFromPermutation(e1, e2, {s});
    }
  }

  /** The in-degrees depend on the multiset of edges only. */
  lemma SameInDegrees<T(!new)>(nodes: seq<T>, e1: seq<Edge<T>>, e2: seq<Edge<T>>)
    requires multiset(e1) == multiset(e2)
    ensures forall x :: InCount(nodes, e1, x) == InCount(nodes, e2, x)
    ensures InDegrees(nodes, e1) == InDegrees(nodes, e2)
  {
    TargetsFromPermutation(e1, e2, Elems(nodes));
    SameMultisetElems(TargetsFrom(e1, Elems(nodes)), TargetsFrom(e2, Elems(nodes)));
  }

  /** A run for one order of the edges is a run for any reordering of them. */
  lemma KahnOrderEdgePermutation<T(!new)>(nodes: seq<T>, e1: seq<Edge<T>>, e2: seq<Edge<T>>, order: seq<T>)
    requires multiset(e1) == multiset(e2)
    requires KahnOrder(nodes, e1, order)
    ensures KahnOrder(nodes, e2, order)
  {
    SameInDegrees(nodes, e1, e2);
    var q0 := InitialQueue(nodes, e2);
    forall k | |q0| <= k < |order|
      ensures EnteredReleased(nodes, e2, order, k)
    {
      assert EnteredReleased(nodes, e1, order, k);
      DecrementsPermutation(nodes, e1, e2, order[..k]);
    }
    DecrementsPermutation(nodes, e1, e2, order);
    forall x
      ensures EnteredAsOften(nodes, e2, order, Decrements(nodes, e2, order), x)
    {
      assert EnteredAsOften(nodes, e1, order, Decrements(nodes, e1, order), x);
    }
  }

  /** Reordering the edges never changes the verdict. */
  lemma EdgeOrderIrrelevant<T(!new)>(nodes: seq<T>, e1: seq<Edge<T>>, e2: seq<Edge<T>>, o1: seq<T>, o2: seq<T>)
    requires multiset(e1) == multiset(e2)
    requires KahnOrder(nodes, e1, o1) && KahnOrder(nodes, e2, o2)
    ensures (|o1| == |nodes|) == (|o2| == |nodes|)
  {
    KahnOrderEdgePermutation(nodes, e1, e2, o1);
    RunsAgree(nodes, e2, o1, o2);
  }
}
