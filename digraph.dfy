/**
 The submitted graph as the validator sees it: a sequence of edges, each a
 (source, target) pair of node ids. The functions here are the reference
 definitions the algorithm is proved against: which targets the edges from a
 set of sources reach, and what a directed cycle is.
 */
module Digraph {
  import opened SeqFacts

  /** An edge of the pipeline graph; only its two endpoints are read. */
  datatype Edge<T> = Edge(source: T, target: T)

  /** The edge list holds the edge from s to t (at least once). */
  ghost predicate HasEdge<T>(edges: seq<Edge<T>>, s: T, t: T)
  {
    Edge(s, t) in edges
  }

  /**
   The targets of the edges whose source lies in `sources`, in edge order,
   one entry per edge (repeated edges give repeated targets).
   */
  ghost function TargetsFrom<T>(edges: seq<Edge<T>>, sources: set<T>): seq<T>
    decreases |edges|
  {
    if edges == [] then []
    else
      var last := edges[|edges| - 1];
      TargetsFrom(edges[..|edges| - 1], sources) + (if last.source in sources then [last.target] else [])
  }

  /** Input the correctness result is stated for: distinct ids, every endpoint declared. */
  ghost predicate WellFormed<T>(nodes: seq<T>, edges: seq<Edge<T>>)
  {
    && Distinct(nodes)
    && forall e :: e in edges ==> e.source in nodes && e.target in nodes
  }

  /** Every edge ends at a declared id. */
  ghost predicate TargetsDeclared<T>(nodes: seq<T>, edges: seq<Edge<T>>)
  {
    forall e :: e in edges ==> e.target in nodes
  }

  lemma {:induction false} TargetsFromAppend<T>(a: seq<Edge<T>>, b: seq<Edge<T>>, sources: set<T>)
    ensures TargetsFrom(a + b, sources) == TargetsFrom(a, sources) + TargetsFrom(b, sources)
    decreases |b|
  {
    if b == [] {
      assert a + b == a;
    } else {
      var init := b[..|b| - 1];
      assert (a + b)[..|a + b| - 1] == a + init;
      TargetsFromAppend(a, init, sources);
    }
  }

  /** One more edge adds its target exactly when its source is among `sources`. */
  lemma TargetsFromSnoc<T>(edges: seq<Edge<T>>, e: Edge<T>, sources: set<T>)
    ensures TargetsFrom(edges + [e], sources)
         == TargetsFrom(edges, sources) + (if e.source in sources then [e.target] else [])
  {
    assert (edges + [e])[..|edges|] == edges;
  }

  /**
   An edge whose source is not among `sources` contributes nothing, wherever
   it stands in the edge list.
   */
  lemma UndeclaredSourceIgnored<T>(a: seq<Edge<T>>, e: Edge<T>, b: seq<Edge<T>>, sources: set<T>)
    requires e.source !in sources
    ensures TargetsFrom(a + [e] + b, sources) == TargetsFrom(a + b, sources)
  {
    TargetsFromAppend(a + [e], b, sources);
    TargetsFromAppend(a, [e], sources);
    TargetsFromAppend(a, b, sources);
    assert [e][..0] == [];
  }

  /** No sources, no targets. */
  lemma {:induction false} TargetsFromNoSources<T>(edges: seq<Edge<T>>)
    ensures TargetsFrom(edges, {}) == []
    decreases |edges|
  {
    if edges != [] {
      TargetsFromNoSources(edges[..|edges| - 1]);
    }
  }

  /** Every target reached comes from an edge whose source is among `sources`. */
  lemma TargetsFromSource<T>(edges: seq<Edge<T>>, sources: set<T>, t: T) returns (s: T)
    requires t in TargetsFrom(edges, sources)
    ensures s in sources && HasEdge(edges, s, t)
  {
    TargetsFromNoSources(edges);
    s := SourceOutside(edges, {}, sources, t);
  }

  /** Adding one new source adds exactly the targets of its own edges. */
  lemma {:induction false} TargetsFromSplit<T>(edges: seq<Edge<T>>, sources: set<T>, s: T)
    requires s !in sources
    ensures multiset(TargetsFrom(edges, sources + {s}))
         == multiset(TargetsFrom(edges, sources)) + multiset(TargetsFrom(edges, {s}))
    decreases |edges|
  {
    if edges != [] {
      TargetsFromSplit(edges[..|edges| - 1], sources, s);
    }
  }

  /** More sources reach every target at least as often. */
  lemma {:induction false} TargetsFromMono<T>(edges: seq<Edge<T>>, small: set<T>, large: set<T>)
    requires small <= large
    ensures multiset(TargetsFrom(edges, small)) <= multiset(TargetsFrom(edges, large))
    decreases |edges|
  {
    if edges != [] {
      TargetsFromMono(edges[..|edges| - 1], small, large);
    }
  }

  /**
   An edge into t from a source in `large` but not in `small` makes t strictly
   rarer among the targets of `small`.
   */
  lemma {:induction false} TargetsFromMissing<T>(edges: seq<Edge<T>>, small: set<T>, large: set<T>, s: T, t: T)
    requires small <= large && s in large && s !in small
    requires HasEdge(edges, s, t)
    ensures multiset(TargetsFrom(edges, small))[t] < multiset(TargetsFrom(edges, large))[t]
    decreases |edges|
  {
    var init, last := edges[..|edges| - 1], edges[|edges| - 1];
    assert edges == init + [last];
    TargetsFromMono(init, small, large);
    if last != Edge(s, t) {
      assert HasEdge(init, s, t);
      TargetsFromMissing(init, small, large, s, t);
    }
  }

  /**
   Conversely, when t is strictly rarer among the targets of `small`, some edge
   into t comes from a source in `large` that is not in `small`.
   */
  lemma {:induction false} SourceOutside<T>(edges: seq<Edge<T>>, small: set<T>, large: set<T>, t: T) returns (s: T)
    requires small <= large
    requires multiset(TargetsFrom(edges, small))[t] < multiset(TargetsFrom(edges, large))[t]
    ensures s in large && s !in small && HasEdge(edges, s, t)
    decreases |edges|
  {
    var init, last := edges[..|edges| - 1], edges[|edges| - 1];
    assert edges == init + [last];
    if last.target == t && last.source in large && last.source !in small {
      s := last.source;
    } else {
      s := SourceOutside(init, small, large, t);
      assert Edge(s, t) in init;
    }
  }

  /** The edge at index i contributes its own target, and the others the rest. */
  lemma TargetsFromRemoveAt<T>(edges: seq<Edge<T>>, i: nat, sources: set<T>)
    requires i < |edges|
    ensures multiset(TargetsFrom(edges, sources))
         == multiset(TargetsFrom(edges[..i] + edges[i + 1..], sources)) + multiset(TargetsFrom([edges[i]], sources))
  {
    var before, after := edges[..i], edges[i + 1..];
    assert edges == before + [edges[i]] + after;
    TargetsFromAppend(before + [edges[i]], after, sources);
    TargetsFromAppend(before, [edges[i]], sources);
    TargetsFromAppend(before, after, sources);
  }

  /** The targets reached depend on the multiset of edges, not on their order. */
  lemma {:induction false} TargetsFromPermutation<T>(e1: seq<Edge<T>>, e2: seq<Edge<T>>, sources: set<T>)
    requires multiset(e1) == multiset(e2)
    ensures multiset(TargetsFrom(e1, sources)) == multiset(TargetsFrom(e2, sources))
    decreases |e1|
  {
    if e1 == [] {
      assert |e2| == |multiset(e2)| == 0;
    } else {
      var n := |e1| - 1;
      var last := e1[n];
      assert last in multiset(e2);
      var i :| 0 <= i < |e2| && e2[i] == last;
      var rest1, rest2 := e1[..n] + e1[n + 1..], e2[..i] + e2[i + 1..];
      RemoveAt(e1, n);
      RemoveAt(e2, i);
      TargetsFromPermutation(rest1, rest2, sources);
      TargetsFromRemoveAt(e1, n, sources);
      TargetsFromRemoveAt(e2, i, sources);
    }
  }

  /** Consecutive ids of p are joined by edges. */
  ghost predicate IsWalk<T>(edges: seq<Edge<T>>, p: seq<T>)
  {
    forall i :: 0 <= i < |p| - 1 ==> HasEdge(edges, p[i], p[i + 1])
  }

  /** A closed walk with at least one edge; a self-loop is the shortest. */
  ghost predicate IsCycle<T>(edges: seq<Edge<T>>, p: seq<T>)
  {
    |p| >= 2 && p[0] == p[|p| - 1] && IsWalk(edges, p)
  }

  ghost predicate HasCycle<T(!new)>(edges: seq<Edge<T>>)
  {
    exists p :: IsCycle(edges, p)
  }

  ghost predicate OnCycle<T(!new)>(edges: seq<Edge<T>>, x: T)
  {
    exists p :: IsCycle(edges, p) && p[0] == x
  }

  /** The id just before x on a cycle through x enters x and lies on a cycle too. */
  lemma CyclePredecessor<T(!new)>(edges: seq<Edge<T>>, p: seq<T>)
    requires IsCycle(edges, p)
    ensures HasEdge(edges, p[|p| - 2], p[0])
    ensures OnCycle(edges, p[|p| - 2])
  {
    var n := |p|;
    assert HasEdge(edges, p[n - 2], p[n - 1]);
    var q := [p[n - 2]] + p[..n - 1];
    forall i | 0 <= i < |q| - 1
      ensures HasEdge(edges, q[i], q[i + 1])
    {
      if i > 0 {
        assert q[i] == p[i - 1] && q[i + 1] == p[i];
      }
    }
    assert IsCycle(edges, q);
  }

  /** The first step of a cycle is an edge. */
  lemma CycleStart<T>(edges: seq<Edge<T>>, p: seq<T>)
    requires IsCycle(edges, p)
    ensures HasEdge(edges, p[0], p[1])
  {
  }

  /** A single edge between two different ids is no cycle. */
  lemma SingleEdgeAcyclic<T(!new)>(a: T, b: T)
    requires a != b
    ensures !HasCycle([Edge(a, b)])
  {
    if p :| IsCycle([Edge(a, b)], p) {
      CycleStart([Edge(a, b)], p);
      CyclePredecessor([Edge(a, b)], p);
      assert false;
    }
  }

  /** Some edge into y comes from an id of u. */
  ghost predicate HasPredecessorIn<T(!new)>(edges: seq<Edge<T>>, u: set<T>, y: T)
  {
    exists s :: s in u && HasEdge(edges, s, y)
  }

  /** Every id of u has a predecessor that is also in u. */
  ghost predicate ClosedUnderPredecessor<T(!new)>(edges: seq<Edge<T>>, u: set<T>)
  {
    forall y {:trigger HasPredecessorIn(edges, u, y)} :: y in u ==> HasPredecessorIn(edges, u, y)
  }

  lemma DistinctCons<T>(s: T, w: seq<T>)
    requires s !in w && Distinct(w)
    ensures Distinct([s] + w)
  {
    var longer := [s] + w;
    forall i, j | 0 <= i < j < |longer|
      ensures longer[i] != longer[j]
    {
      assert longer[j] == w[j - 1];
      if i > 0 {
        assert longer[i] == w[i - 1];
      }
    }
  }

  /** A walk extended backwards by an edge into its first id is a walk. */
  lemma ExtendWalk<T>(edges: seq<Edge<T>>, w: seq<T>, s: T)
    requires |w| >= 1 && IsWalk(edges, w) && HasEdge(edges, s, w[0])
    ensures IsWalk(edges, [s] + w)
  {
    var longer := [s] + w;
    forall i | 0 <= i < |longer| - 1
      ensures HasEdge(edges, longer[i], longer[i + 1])
    {
      if i > 0 {
        assert longer[i] == w[i - 1] && longer[i + 1] == w[i];
      }
    }
  }

  /**
   When every id of a finite set u has a predecessor inside u, the edges hold a
   cycle: extend a repeat-free walk w inside u backwards until it closes.
   */
  lemma {:induction false} ClosedSetHasCycle<T(!new)>(edges: seq<Edge<T>>, u: set<T>, w: seq<T>)
    requires ClosedUnderPredecessor(edges, u)
    requires |w| >= 1 && IsWalk(edges, w) && Distinct(w) && Elems(w) <= u
    ensures HasCycle(edges)
    decreases |u| - |w|
  {
    DistinctCard(w);
    SubsetCard(Elems(w), u);
    assert w[0] in u;
    assert HasPredecessorIn(edges, u, w[0]);
    var s :| s in u && HasEdge(edges, s, w[0]);
    ExtendWalk(edges, w, s);
    var longer := [s] + w;
    if j :| 0 <= j < |w| && w[j] == s {
      var c := longer[..j + 2];
      assert IsCycle(edges, c);
    } else {
      assert Elems(longer) == Elems(w) + {s};
      assert s !in w;
      DistinctCons(s, w);
      DistinctCard(longer);
      SubsetCard(Elems(longer), u);
      ClosedSetHasCycle(edges, u, longer);
    }
  }
}
