/**
 Reference definitions for the state of the validator's topological sort:
 the adjacency and in-degree maps its build loop produces, the decrements
 its main loop performs, and `KahnOrder`, which characterises the sequence
 of ids the main loop pops.
 */
module KahnSpec {
  import opened SeqFacts
  import opened Digraph

  /** `indegree.get(x, 0)`: the entry for x, or 0 when x has none. */
  function GetOrZero<T(!new)>(m: map<T, int>, x: T): (v: int)
    ensures x in m ==> v == m[x]
    ensures x !in m ==> v == 0
  {
    if x in m then m[x] else 0
  }

  /**
   The initial queue: the ids of `ids` whose in-degree is zero, in their
   order, each occurrence kept.
   */
  function ZeroInDegree<T(!new)>(ids: seq<T>, indegree: map<T, int>): (q: seq<T>)
    ensures |q| <= |ids|
  {
    if ids == [] then []
    else (if GetOrZero(indegree, ids[0]) == 0 then [ids[0]] else []) + ZeroInDegree(ids[1..], indegree)
  }

  /** The initial queue holds every occurrence of an id of in-degree zero, and nothing else. */
  lemma {:induction false} ZeroInDegreeCount<T(!new)>(ids: seq<T>, indegree: map<T, int>, x: T)
    ensures multiset(ZeroInDegree(ids, indegree))[x] == if GetOrZero(indegree, x) == 0 then multiset(ids)[x] else 0
    decreases |ids|
  {
    if ids != [] {
      assert ids == [ids[0]] + ids[1..];
      ZeroInDegreeCount(ids[1..], indegree, x);
    }
  }

  /** In-degree of x after the build loop: one per edge from a declared source into x. */
  ghost function InCount<T(!new)>(nodes: seq<T>, edges: seq<Edge<T>>, x: T): nat
  {
    multiset(TargetsFrom(edges, Elems(nodes)))[x]
  }

  /**
   The in-degree map after the build loop: every declared id, and every target
   of an edge with a declared source, mapped to its in-degree.
   */
  ghost function InDegrees<T(!new)>(nodes: seq<T>, edges: seq<Edge<T>>): map<T, int>
  {
    map x | x in nodes + TargetsFrom(edges, Elems(nodes)) :: InCount(nodes, edges, x)
  }

  /** Each of `keys` and each element of s, mapped to its number of occurrences in s. */
  ghost function CountMap<T>(keys: seq<T>, s: seq<T>): map<T, int>
  {
    map x | x in keys + s :: multiset(s)[x]
  }

  /** The adjacency map after the build loop: each declared id to its targets, in edge order. */
  ghost function Adjacency<T(!new)>(nodes: seq<T>, edges: seq<Edge<T>>): map<T, seq<T>>
  {
    map s | s in Elems(nodes) :: TargetsFrom(edges, {s})
  }

  /** `adj.get(s, [])`: the successors the main loop visits when it pops s. */
  ghost function Succ<T(!new)>(nodes: seq<T>, edges: seq<Edge<T>>, s: T): seq<T>
  {
    if s in nodes then TargetsFrom(edges, {s}) else []
  }

  /** The ids whose in-degree is decremented while the popped ids are processed, in order. */
  ghost function Decrements<T(!new)>(nodes: seq<T>, edges: seq<Edge<T>>, popped: seq<T>): seq<T>
    decreases |popped|
  {
    if popped == [] then []
    else Decrements(nodes, edges, popped[..|popped| - 1]) + Succ(nodes, edges, popped[|popped| - 1])
  }

  /** Once `popped` has been processed, the in-degree of x is zero or less. */
  ghost predicate Released<T(!new)>(nodes: seq<T>, edges: seq<Edge<T>>, popped: seq<T>, x: T)
  {
    InCount(nodes, edges, x) <= multiset(Decrements(nodes, edges, popped))[x]
  }

  /**
   How often x has entered the queue once the decrements `dec` are done: an id
   of in-degree zero once per occurrence in `nodes` (the initial fill), any
   other id once, at the moment its in-degree reaches exactly zero.
   */
  ghost function Entries<T(!new)>(nodes: seq<T>, edges: seq<Edge<T>>, dec: seq<T>, x: T): nat
  {
    if InCount(nodes, edges, x) == 0 then multiset(nodes)[x]
    else if InCount(nodes, edges, x) <= multiset(dec)[x] then 1
    else 0
  }

  /** The queue the main loop starts from. */
  ghost function InitialQueue<T(!new)>(nodes: seq<T>, edges: seq<Edge<T>>): seq<T>
  {
    ZeroInDegree(nodes, InDegrees(nodes, edges))
  }

  /**
   `enqueued` is the sequence of ids that entered the queue, in order, while
   the decrements `dec` were done: it starts with the initial queue, every
   later id had been released by the ids before it, and every id entered
   exactly as often as `Entries` says.
   */
  ghost predicate QueueHistory<T(!new)>(nodes: seq<T>, edges: seq<Edge<T>>, enqueued: seq<T>, dec: seq<T>)
  {
    var q0 := InitialQueue(nodes, edges);
    && |q0| <= |enqueued|
    && enqueued[..|q0|] == q0
    && (forall k :: |q0| <= k < |enqueued| ==> EnteredReleased(nodes, edges, enqueued, k))
    && (forall x :: EnteredAsOften(nodes, edges, enqueued, dec, x))
  }

  /** The id at position k of `enqueued` had been released by the ids before it. */
  ghost predicate EnteredReleased<T(!new)>(nodes: seq<T>, edges: seq<Edge<T>>, enqueued: seq<T>, k: int)
  {
    0 <= k < |enqueued| && Released(nodes, edges, enqueued[..k], enqueued[k])
  }

  /** x occurs in `enqueued` exactly as often as it entered the queue during the decrements `dec`. */
  ghost predicate EnteredAsOften<T(!new)>(nodes: seq<T>, edges: seq<Edge<T>>, enqueued: seq<T>, dec: seq<T>, x: T)
  {
    multiset(enqueued)[x] == Entries(nodes, edges, dec, x)
  }

  /**
   `order` is a possible complete run of the main loop: the sequence of popped
   ids once the queue is empty, when every id that entered the queue has been
   popped and its successors decremented.
   */
  ghost predicate KahnOrder<T(!new)>(nodes: seq<T>, edges: seq<Edge<T>>, order: seq<T>)
  {
    QueueHistory(nodes, edges, order, Decrements(nodes, edges, order))
  }

  /** The ids whose in-degree is positive. */
  ghost function Positive<T(!new)>(m: map<T, int>): set<T>
  {
    set x | x in m && m[x] > 0
  }

  lemma {:induction false} DecrementsAppend<T(!new)>(nodes: seq<T>, edges: seq<Edge<T>>, a: seq<T>, b: seq<T>)
    ensures Decrements(nodes, edges, a + b) == Decrements(nodes, edges, a) + Decrements(nodes, edges, b)
    decreases |b|
  {
    if b == [] {
      assert a + b == a;
    } else {
      var init, last := b[..|b| - 1], b[|b| - 1];
      var ab := a + b;
      assert ab[..|ab| - 1] == a + init && ab[|ab| - 1] == last;
      assert Decrements(nodes, edges, ab) == Decrements(nodes, edges, a + init) + Succ(nodes, edges, last);
      assert Decrements(nodes, edges, b) == Decrements(nodes, edges, init) + Succ(nodes, edges, last);
      DecrementsAppend(nodes, edges, a, init);
    }
  }

  /** Before any edge is read, every declared id has no successors and in-degree zero. */
  lemma BuildStart<T(!new)>(nodes: seq<T>)
    ensures Adjacency(nodes, []) == map id | id in nodes :: []
    ensures InDegrees(nodes, []) == map id | id in nodes :: 0
  {
    assert TargetsFrom([], Elems(nodes)) == [];
  }

  /**
   Reading one more edge appends its target to its source's adjacency list
   when the source is declared, and leaves the map alone otherwise.
   */
  lemma AdjacencySnoc<T(!new)>(nodes: seq<T>, edges: seq<Edge<T>>, e: Edge<T>)
    ensures Adjacency(nodes, edges + [e])
         == if e.source in nodes
            then Adjacency(nodes, edges)[e.source := Adjacency(nodes, edges)[e.source] + [e.target]]
            else Adjacency(nodes, edges)
  {
    var before, after := Adjacency(nodes, edges), Adjacency(nodes, edges + [e]);
    assert after.Keys == before.Keys;
    forall s | s in after
      ensures after[s] == before[s] + (if e.source == s then [e.target] else [])
    {
      TargetsFromSnoc(edges, e, {s});
    }
    if e.source in nodes {
      var updated := before[e.source := before[e.source] + [e.target]];
      assert after.Keys == updated.Keys;
      assert forall s :: s in after ==> after[s] == updated[s];
    } else {
      assert forall s :: s in after ==> after[s] == before[s];
    }
  }

  /**
   Reading one more edge raises its target's in-degree by one (creating the
   entry if needed) when the source is declared, and changes nothing otherwise.
   */
  lemma InDegreesSnoc<T(!new)>(nodes: seq<T>, edges: seq<Edge<T>>, e: Edge<T>)
    ensures InDegrees(nodes, edges + [e])
         == if e.source in nodes
            then InDegrees(nodes, edges)[e.target := GetOrZero(InDegrees(nodes, edges), e.target) + 1]
            else InDegrees(nodes, edges)
  {
    if e.source in nodes {
      InDegreesSnocDeclared(nodes, edges, e);
    } else {
      TargetsFromSnoc(edges, e, Elems(nodes));
    }
  }

  /**
   One iteration of the build loop: the maps after handling edge i (`adj'`,
   `indegree'`) are the maps of the first i + 1 edges.
   */
  lemma BuildStep<T(!new)>(nodes: seq<T>, edges: seq<Edge<T>>, i: nat,
                           adj: map<T, seq<T>>, indegree: map<T, int>, adj': map<T, seq<T>>, indegree': map<T, int>)
    requires i < |edges|
    requires adj == Adjacency(nodes, edges[..i]) && indegree == InDegrees(nodes, edges[..i])
    requires var e := edges[i];
      && adj' == (if e.source in adj then adj[e.source := adj[e.source] + [e.target]] else adj)
      && indegree' == (if e.source in adj then indegree[e.target := GetOrZero(indegree, e.target) + 1] else indegree)
    ensures adj' == Adjacency(nodes, edges[..i + 1])
    ensures indegree' == InDegrees(nodes, edges[..i + 1])
  {
    TakeOneMore(edges, i);
    AdjacencySnoc(nodes, edges[..i], edges[i]);
    InDegreesSnoc(nodes, edges[..i], edges[i]);
  }

  lemma InDegreesSnocDeclared<T(!new)>(nodes: seq<T>, edges: seq<Edge<T>>, e: Edge<T>)
    requires e.source in nodes
    ensures InDegrees(nodes, edges + [e])
         == InDegrees(nodes, edges)[e.target := GetOrZero(InDegrees(nodes, edges), e.target) + 1]
  {
    TargetsFromSnoc(edges, e, Elems(nodes));
    InDegreesGet(nodes, edges, e.target);
    InDegreesCountMap(nodes, edges);
    InDegreesCountMap(nodes, edges + [e]);
    CountMapSnoc(nodes, TargetsFrom(edges, Elems(nodes)), e.target);
  }

  /** The in-degree map is the count map of the declared ids and the targets of their edges. */
  lemma InDegreesCountMap<T(!new)>(nodes: seq<T>, edges: seq<Edge<T>>)
    ensures InDegrees(nodes, edges) == CountMap(nodes, TargetsFrom(edges, Elems(nodes)))
  {
  }

  /**
   The count map of `keys` and `s` (each key and each element of s to its
   number of occurrences in s) after one more element t: t counts once more.
   */
  lemma CountMapSnoc<T>(keys: seq<T>, s: seq<T>, t: T)
    ensures CountMap(keys, s + [t]) == CountMap(keys, s)[t := multiset(s)[t] + 1]
  {
    var after := CountMap(keys, s + [t]);
    var updated := CountMap(keys, s)[t := multiset(s)[t] + 1];
    assert multiset(s + [t]) == multiset(s) + multiset{t};
    assert after.Keys == updated.Keys;
    assert forall x :: x in after ==> after[x] == updated[x];
  }

  /** Popping one more id decrements its successors. */
  lemma DecrementsSnoc<T(!new)>(nodes: seq<T>, edges: seq<Edge<T>>, popped: seq<T>, x: T)
    ensures Decrements(nodes, edges, popped + [x]) == Decrements(nodes, edges, popped) + Succ(nodes, edges, x)
  {
    assert (popped + [x])[..|popped|] == popped;
  }

  /** Looking up an id in the in-degree map with a default of zero gives its in-degree. */
  lemma InDegreesGet<T(!new)>(nodes: seq<T>, edges: seq<Edge<T>>, x: T)
    ensures GetOrZero(InDegrees(nodes, edges), x) == InCount(nodes, edges, x)
  {
    if x !in InDegrees(nodes, edges) {
      assert x !in TargetsFrom(edges, Elems(nodes));
    }
  }

  /** `adj.get(s, [])` on the built adjacency map gives the successors of s. */
  lemma AdjacencyGet<T(!new)>(nodes: seq<T>, edges: seq<Edge<T>>, adj: map<T, seq<T>>, s: T)
    requires adj == Adjacency(nodes, edges)
    ensures (if s in adj then adj[s] else []) == Succ(nodes, edges, s)
  {
  }

  /** Every successor of a declared id has an in-degree entry. */
  lemma SuccTracked<T(!new)>(nodes: seq<T>, edges: seq<Edge<T>>, s: T, t: T)
    requires s in nodes && t in TargetsFrom(edges, {s})
    ensures t in InDegrees(nodes, edges)
  {
    TargetsFromMono(edges, {s}, Elems(nodes));
    assert multiset(TargetsFrom(edges, {s}))[t] > 0;
  }

  /** Decrementing one in-degree removes that id from the positive ones exactly when it was 1. */
  lemma PositiveDecrement<T(!new)>(m: map<T, int>, x: T)
    requires x in m
    ensures |Positive(m[x := m[x] - 1])| == |Positive(m)| - (if m[x] == 1 then 1 else 0)
  {
    var after := m[x := m[x] - 1];
    if m[x] == 1 {
      assert Positive(after) == Positive(m) - {x};
    } else {
      assert Positive(after) == Positive(m);
    }
  }

  /**
   When no edge leaves a declared id (in particular, without edges) every
   declared id has in-degree zero, so the initial queue is the whole node list
   and popping it is a complete run.
   */
  lemma NothingReachedOrder<T(!new)>(nodes: seq<T>, edges: seq<Edge<T>>)
    requires TargetsFrom(edges, Elems(nodes)) == []
    ensures KahnOrder(nodes, edges, nodes)
    ensures |Positive(InDegrees(nodes, edges))| == 0
    ensures InitialQueue(nodes, edges) == nodes
  {
    forall x
      ensures GetOrZero(InDegrees(nodes, edges), x) == 0
    {
      InDegreesGet(nodes, edges, x);
    }
    SameMultisetZeroFilter(nodes, InDegrees(nodes, edges));
    assert Positive(InDegrees(nodes, edges)) == {};
    forall x
      ensures EnteredAsOften(nodes, edges, nodes, Decrements(nodes, edges, nodes), x)
    {
      InDegreesGet(nodes, edges, x);
    }
  }

  /** A filter that keeps every element returns its input. */
  lemma {:induction false} SameMultisetZeroFilter<T(!new)>(ids: seq<T>, m: map<T, int>)
    requires forall x :: GetOrZero(m, x) == 0
    ensures ZeroInDegree(ids, m) == ids
    decreases |ids|
  {
    if ids != [] {
      SameMultisetZeroFilter(ids[1..], m);
    }
  }
}
