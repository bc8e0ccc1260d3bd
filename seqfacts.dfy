/**
 Small facts about sequences used throughout the model: the set of a
 sequence's elements, distinctness, and how both relate to cardinality and
 multiplicity.
 */
module SeqFacts {

  /** The set of elements of a sequence. */
  ghost function Elems<T>(s: seq<T>): set<T>
  {
    set x | x in s
  }

  /** No element occurs twice. */
  ghost predicate Distinct<T>(s: seq<T>)
  {
    forall i, j :: 0 <= i < j < |s| ==> s[i] != s[j]
  }

  /** A sequence without repeats has as many elements as its length. */
  lemma {:induction false} DistinctCard<T>(s: seq<T>)
    requires Distinct(s)
    ensures |Elems(s)| == |s|
  {
    if s != [] {
      var init := s[..|s| - 1];
      DistinctCard(init);
      assert Elems(s) == Elems(init) + {s[|s| - 1]};
      assert s[|s| - 1] !in Elems(init);
    }
  }

  /** A subset is no larger than its superset. */
  lemma {:induction false} SubsetCard<T>(a: set<T>, b: set<T>)
    requires a <= b
    ensures |a| <= |b|
    decreases a
  {
    if a != {} {
      var x :| x in a;
      SubsetCard(a - {x}, b - {x});
    }
  }

  /** A subset as large as its superset is the superset. */
  lemma SubsetCardEq<T>(a: set<T>, b: set<T>)
    requires a <= b && |a| == |b|
    ensures a == b
  {
    if x :| x in b && x !in a {
      SubsetCard(a, b - {x});
    }
  }

  /** A repeat-free sequence longer than another whose elements it contains has an element the other lacks. */
  lemma MissingElement<T>(short: seq<T>, long: seq<T>) returns (y: T)
    requires Distinct(short) && Distinct(long) && Elems(short) <= Elems(long)
    requires |short| != |long|
    ensures y in long && y !in short
  {
    DistinctCard(short);
    DistinctCard(long);
    SubsetCard(Elems(short), Elems(long));
    var missing := Elems(long) - Elems(short);
    assert missing + Elems(short) == Elems(long);
    assert missing * Elems(short) == {};
    assert |missing| > 0;
    y :| y in missing;
  }

  /** A sequence without repeats holds each value at most once. */
  lemma {:induction false} DistinctCounts<T>(s: seq<T>, x: T)
    requires Distinct(s)
    ensures multiset(s)[x] <= 1
  {
    if s != [] {
      var init := s[..|s| - 1];
      assert s == init + [s[|s| - 1]];
      DistinctCounts(init, x);
      if x == s[|s| - 1] {
        assert x !in init;
      }
    }
  }

  /** A sequence holding each value at most once has no repeats. */
  lemma CountsDistinct<T>(s: seq<T>)
    requires forall x :: multiset(s)[x] <= 1
    ensures Distinct(s)
  {
    forall i, j | 0 <= i < j < |s|
      ensures s[i] != s[j]
    {
      assert s == s[..i] + [s[i]] + s[i + 1..j] + [s[j]] + s[j + 1..];
      assert multiset{s[i], s[j]} <= multiset(s);
    }
  }

  /** Sequences with the same multiset hold the same elements. */
  lemma SameMultisetElems<T>(a: seq<T>, b: seq<T>)
    requires multiset(a) == multiset(b)
    ensures Elems(a) == Elems(b)
  {
    forall x
      ensures x in a <==> x in b
    {
      assert x in a <==> x in multiset(a);
      assert x in b <==> x in multiset(b);
    }
  }

  /** The full prefix is the sequence itself. */
  lemma FullPrefix<T>(s: seq<T>)
    ensures s[..|s|] == s
  {
  }

  /** Moving the front of q to the back of a leaves the concatenation unchanged. */
  lemma PopFront<T>(a: seq<T>, q: seq<T>)
    requires q != []
    ensures a + [q[0]] + q[1..] == a + q
  {
  }

  /** Appending the empty prefix of s adds nothing; appending its full prefix appends s. */
  lemma AppendPrefixes<T>(a: seq<T>, s: seq<T>)
    ensures a + s[..0] == a && a + s[..|s|] == a + s
  {
  }

  /** A prefix one longer is the prefix followed by the next element. */
  lemma TakeOneMore<T>(s: seq<T>, j: nat)
    requires j < |s|
    ensures s[..j + 1] == s[..j] + [s[j]]
  {
  }

  /** Appending the prefix one longer appends the prefix and then the next element. */
  lemma AppendOneMore<T>(a: seq<T>, s: seq<T>, j: nat)
    requires j < |s|
    ensures a + s[..j + 1] == (a + s[..j]) + [s[j]]
  {
    assert s[..j + 1] == s[..j] + [s[j]];
  }

  /** Appending one element after a concatenation appends it to the second part. */
  lemma SnocAssoc<T>(a: seq<T>, b: seq<T>, x: T)
    ensures (a + b) + [x] == a + (b + [x])
  {
  }

  /** Behind a, the prefix of s before index j holds s[j] fewer times than a, all of s and b together. */
  lemma PrefixCountBelow<T>(a: seq<T>, s: seq<T>, b: seq<T>, j: nat)
    requires j < |s|
    ensures multiset(a + s[..j])[s[j]] < multiset(a + s + b)[s[j]]
  {
    assert a + s + b == (a + s[..j]) + [s[j]] + (s[j + 1..] + b);
  }

  /** A prefix holds each value at most as often as the whole sequence. */
  lemma PrefixCount<T>(s: seq<T>, k: nat, x: T)
    requires k <= |s|
    ensures multiset(s[..k])[x] <= multiset(s)[x]
  {
    assert s == s[..k] + s[k..];
  }

  /** Dropping the element at index i removes one occurrence of it. */
  lemma RemoveAt<T>(s: seq<T>, i: nat)
    requires i < |s|
    ensures multiset(s[..i] + s[i + 1..]) == multiset(s) - multiset{s[i]}
  {
    assert s == s[..i] + [s[i]] + s[i + 1..];
  }
}
