/**
 The state the main loop of the validator's topological sort keeps: the
 in-degree map after the decrements done so far, and the history of the
 queue. The lemmas here are the steps of the loop: the start and one decrement
 (with the append when an in-degree reaches zero).
 */
module KahnLoop {
  import opened SeqFacts
  import opened Digraph
  import opened KahnSpec

  /**
   After the decrements `dec`, the in-degree map holds the same ids as after
   the build loop, each at its in-degree less the decrements it received.
   */
  ghost predicate InDegreesLeft<T(!new)>(nodes: seq<T>, edges: seq<Edge<T>>, indegree: map<T, int>, dec: seq<T>)
  {
    forall x :: EntryLeft(nodes, edges, indegree, dec, x)
  }

  /** The entry for x after the decrements `dec`. */
  ghost predicate EntryLeft<T(!new)>(nodes: seq<T>, edges: seq<Edge<T>>, indegree: map<T, int>, dec: seq<T>, x: T)
  {
    && (x in indegree <==> x in InDegrees(nodes, edges))
    && (x in indegree ==> indegree[x] == InCount(nodes, edges, x) - multiset(dec)[x])
  }

  /**
   The successors in `succ`, in their order, whose in-degree reaches exactly
   zero when they are decremented behind the decrements `dec` and the
   successors before them: the ids the inner loop appends to the queue.
   */
  ghost function Releases<T(!new)>(nodes: seq<T>, edges: seq<Edge<T>>, dec: seq<T>, succ: seq<T>): (r: seq<T>)
    ensures |r| <= |succ|
    decreases |succ|
  {
    if succ == [] then []
    else
      var init, n := succ[..|succ| - 1], succ[|succ| - 1];
      Releases(nodes, edges, dec, init) + (if InCount(nodes, edges, n) == multiset(dec + init)[n] + 1 then [n] else [])
  }

  /** The loop starts from the built in-degree map and the initial queue, with nothing decremented. */
  lemma LoopStart<T(!new)>(nodes: seq<T>, edges: seq<Edge<T>>)
    ensures InDegreesLeft(nodes, edges, InDegrees(nodes, edges), [])
    ensures QueueHistory(nodes, edges, InitialQueue(nodes, edges), [])
  {
    var q0 := InitialQueue(nodes, edges);
    assert q0[..|q0|] == q0;
    forall x
      ensures EntryLeft(nodes, edges, InDegrees(nodes, edges), [], x)
    {
    }
    forall x
      ensures EnteredAsOften(nodes, edges, q0, [], x)
    {
      InDegreesGet(nodes, edges, x);
      ZeroInDegreeCount(nodes, InDegrees(nodes, edges), x);
    }
  }

  /** Appending an id to the history keeps every earlier entry's release. */
  lemma EnteredReleasedAppend<T(!new)>(nodes: seq<T>, edges: seq<Edge<T>>, enqueued: seq<T>, x: T, k: int)
    requires EnteredReleased(nodes, edges, enqueued, k)
    ensures EnteredReleased(nodes, edges, enqueued + [x], k)
  {
    assert (enqueued + [x])[..k] == enqueued[..k];
  }

  /**
   One decrement of the in-degree of n: the map and the history stay in step
   with the decrements, and n enters the queue exactly when its in-degree
   reaches zero. The ids that entered the queue so far must account for this
   decrement of n, as they do in the loop.
   */
  lemma LoopDecrement<T(!new)>(nodes: seq<T>, edges: seq<Edge<T>>, indegree: map<T, int>, enqueued: seq<T>, dec: seq<T>, n: T)
    requires InDegreesLeft(nodes, edges, indegree, dec) && QueueHistory(nodes, edges, enqueued, dec)
    requires n in indegree
    requires multiset(dec)[n] < multiset(Decrements(nodes, edges, enqueued))[n]
    ensures InDegreesLeft(nodes, edges, indegree[n := indegree[n] - 1], dec + [n])
    ensures QueueHistory(nodes, edges, if indegree[n] == 1 then enqueued + [n] else enqueued, dec + [n])
  {
    InDegreesDecrement(nodes, edges, indegree, dec, n);
    assert EntryLeft(nodes, edges, indegree, dec, n);
    if indegree[n] == 1 {
      HistoryAppend(nodes, edges, enqueued, dec, n);
    } else {
      HistoryKeep(nodes, edges, enqueued, dec, n);
    }
  }

  /** Decrementing n's entry keeps the map in step with the decrements. */
  lemma InDegreesDecrement<T(!new)>(nodes: seq<T>, edges: seq<Edge<T>>, indegree: map<T, int>, dec: seq<T>, n: T)
    requires InDegreesLeft(nodes, edges, indegree, dec) && n in indegree
    ensures InDegreesLeft(nodes, edges, indegree[n := indegree[n] - 1], dec + [n])
  {
    var m := indegree[n := indegree[n] - 1];
    assert multiset(dec + [n]) == multiset(dec) + multiset{n};
    forall x
      ensures EntryLeft(nodes, edges, m, dec + [n], x)
    {
      assert EntryLeft(nodes, edges, indegree, dec, x);
    }
  }

  /** The history step for a decrement that leaves n's in-degree other than zero. */
  lemma HistoryKeep<T(!new)>(nodes: seq<T>, edges: seq<Edge<T>>, enqueued: seq<T>, dec: seq<T>, n: T)
    requires QueueHistory(nodes, edges, enqueued, dec)
    requires InCount(nodes, edges, n) != multiset(dec)[n] + 1
    ensures QueueHistory(nodes, edges, enqueued, dec + [n])
  {
    var dec' := dec + [n];
    assert multiset(dec') == multiset(dec) + multiset{n};
    forall x
      ensures EnteredAsOften(nodes, edges, enqueued, dec', x)
    {
      assert EnteredAsOften(nodes, edges, enqueued, dec, x);
    }
  }

  /** The history step for a decrement that brings n's in-degree to zero. */
  lemma HistoryAppend<T(!new)>(nodes: seq<T>, edges: seq<Edge<T>>, enqueued: seq<T>, dec: seq<T>, n: T)
    requires QueueHistory(nodes, edges, enqueued, dec)
    requires InCount(nodes, edges, n) == multiset(dec)[n] + 1
    requires multiset(dec)[n] < multiset(Decrements(nodes, edges, enqueued))[n]
    ensures QueueHistory(nodes, edges, enqueued + [n], dec + [n])
  {
    var q0 := InitialQueue(nodes, edges);
    var longer, dec' := enqueued + [n], dec + [n];
    assert multiset(dec') == multiset(dec) + multiset{n};
    assert longer[..|q0|] == enqueued[..|q0|];
    forall k | |q0| <= k < |longer|
      ensures EnteredReleased(nodes, edges, longer, k)
    {
      if k < |enqueued| {
        EnteredReleasedAppend(nodes, edges, enqueued, n, k);
      } else {
        assert longer[..k] == enqueued;
      }
    }
    forall x
      ensures EnteredAsOften(nodes, edges, longer, dec', x)
    {
      assert EnteredAsOften(nodes, edges, enqueued, dec, x);
    }
  }

  /**
   While the successors of the id popped last are processed, the decrement
   of the next one is accounted for by the ids that entered the queue.
   */
  lemma DecrementsSoFar<T(!new)>(nodes: seq<T>, edges: seq<Edge<T>>, done: seq<T>, current: T, rest: seq<T>, j: nat)
    requires j < |Succ(nodes, edges, current)|
    ensures var succ := Succ(nodes, edges, current);
      multiset(Decrements(nodes, edges, done) + succ[..j])[succ[j]]
        < multiset(Decrements(nodes, edges, done + [current] + rest))[succ[j]]
  {
    var succ := Succ(nodes, edges, current);
    var before := Decrements(nodes, edges, done);
    DecrementsAppend(nodes, edges, done + [current], rest);
    DecrementsSnoc(nodes, edges, done, current);
    PrefixCountBelow(before, succ, Decrements(nodes, edges, rest), j);
  }

  /** A successor of a popped id has an in-degree entry. */
  lemma SuccessorTracked<T(!new)>(nodes: seq<T>, edges: seq<Edge<T>>, current: T, j: nat)
    requires j < |Succ(nodes, edges, current)|
    ensures Succ(nodes, edges, current)[j] in InDegrees(nodes, edges)
  {
    assert current in nodes;
    SuccTracked(nodes, edges, current, Succ(nodes, edges, current)[j]);
  }

  /**
   One decrement of n, as the inner loop does it: the map and the history
   stay in step, and n leaves the positive ids exactly when it enters the queue.
   */
  lemma ReleaseAt<T(!new)>(nodes: seq<T>, edges: seq<Edge<T>>, indegree: map<T, int>, enqueued: seq<T>, dec: seq<T>, n: T)
    requires InDegreesLeft(nodes, edges, indegree, dec) && QueueHistory(nodes, edges, enqueued, dec)
    requires n in InDegrees(nodes, edges)
    requires multiset(dec)[n] < multiset(Decrements(nodes, edges, enqueued))[n]
    ensures n in indegree
    ensures var left := indegree[n := indegree[n] - 1];
      && InDegreesLeft(nodes, edges, left, dec + [n])
      && QueueHistory(nodes, edges, if indegree[n] == 1 then enqueued + [n] else enqueued, dec + [n])
      && |Positive(left)| == |Positive(indegree)| - (if indegree[n] == 1 then 1 else 0)
  {
    assert EntryLeft(nodes, edges, indegree, dec, n);
    LoopDecrement(nodes, edges, indegree, enqueued, dec, n);
    PositiveDecrement(indegree, n);
  }

  /** The successor at index j of a popped id has an entry in the in-degree map. */
  lemma SuccessorEntry<T(!new)>(nodes: seq<T>, edges: seq<Edge<T>>, indegree: map<T, int>, dec: seq<T>, current: T, j: nat)
    requires j < |Succ(nodes, edges, current)|
    requires InDegreesLeft(nodes, edges, indegree, dec)
    ensures Succ(nodes, edges, current)[j] in indegree
  {
    SuccessorTracked(nodes, edges, current, j);
    assert EntryLeft(nodes, edges, indegree, dec, Succ(nodes, edges, current)[j]);
  }

  /**
   One iteration of the inner loop: after `current` was popped (behind the
   ids `done`) with `rest` left in the queue, its successor n at index j gets
   its in-degree decremented (`left`), and enters the queue (`rest'`) exactly
   when that in-degree reaches zero. The map and the history stay in step
   with the decrements, and an id leaves the positive ones exactly when it
   enters the queue.
   */
  lemma ReleaseStep<T(!new)>(nodes: seq<T>, edges: seq<Edge<T>>, indegree: map<T, int>, left: map<T, int>,
                             done: seq<T>, current: T, rest: seq<T>, rest': seq<T>, j: nat)
    requires j < |Succ(nodes, edges, current)|
    requires InDegreesLeft(nodes, edges, indegree, Decrements(nodes, edges, done) + Succ(nodes, edges, current)[..j])
    requires QueueHistory(nodes, edges, done + [current] + rest,
                          Decrements(nodes, edges, done) + Succ(nodes, edges, current)[..j])
    requires Succ(nodes, edges, current)[j] in indegree
    requires var n := Succ(nodes, edges, current)[j];
      && left == indegree[n := indegree[n] - 1]
      && rest' == if left[n] == 0 then rest + [n] else rest
    ensures InDegreesLeft(nodes, edges, left, Decrements(nodes, edges, done) + Succ(nodes, edges, current)[..j + 1])
    ensures QueueHistory(nodes, edges, done + [current] + rest',
                         Decrements(nodes, edges, done) + Succ(nodes, edges, current)[..j + 1])
    ensures |rest'| + |Positive(left)| == |rest| + |Positive(indegree)|
  {
    var succ := Succ(nodes, edges, current);
    SuccessorTracked(nodes, edges, current, j);
    DecrementsSoFar(nodes, edges, done, current, rest, j);
    ReleaseAt(nodes, edges, indegree, done + [current] + rest, Decrements(nodes, edges, done) + succ[..j], succ[j]);
    AppendOneMore(Decrements(nodes, edges, done), succ, j);
    SnocAssoc(done + [current], rest, succ[j]);
  }

  /** Before the inner loop, no successor has been released. */
  lemma NoneReleased<T(!new)>(nodes: seq<T>, edges: seq<Edge<T>>, dec: seq<T>, succ: seq<T>, queue0: seq<T>)
    ensures queue0 + Releases(nodes, edges, dec, succ[..0]) == queue0
  {
    assert succ[..0] == [];
  }

  /**
   One iteration of the inner loop, seen from the queue: the successor at
   index j is appended behind the ids already released exactly when the
   filter `Releases` keeps it.
   */
  lemma ReleasesStep<T(!new)>(nodes: seq<T>, edges: seq<Edge<T>>, indegree: map<T, int>, left: map<T, int>,
                              dec: seq<T>, succ: seq<T>, queue0: seq<T>, rest: seq<T>, rest': seq<T>, j: nat)
    requires j < |succ|
    requires InDegreesLeft(nodes, edges, indegree, dec + succ[..j])
    requires succ[j] in indegree
    requires rest == queue0 + Releases(nodes, edges, dec, succ[..j])
    requires var n := succ[j];
      && left == indegree[n := indegree[n] - 1]
      && rest' == if left[n] == 0 then rest + [n] else rest
    ensures rest' == queue0 + Releases(nodes, edges, dec, succ[..j + 1])
  {
    var n := succ[j];
    assert EntryLeft(nodes, edges, indegree, dec + succ[..j], n);
    TakeOneMore(succ, j);
    assert succ[..j + 1][..j] == succ[..j];
  }
}
