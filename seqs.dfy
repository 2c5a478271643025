/**
 * Sequence helpers for the insertion-ordered key lists that stand for
 * JavaScript object key order, and the map facts the stores rely on.
 */
module Seqs {

  /** No element occurs twice. */
  predicate NoDup<T(==)>(s: seq<T>) {
    forall i, j :: 0 <= i < j < |s| ==> s[i] != s[j]
  }

  /** The elements of `s` not in `x`, in their original order. */
  function FilterOut<T(==,!new)>(s: seq<T>, x: set<T>): (r: seq<T>)
    ensures forall y :: y in r <==> y in s && y !in x
    ensures |r| <= |s|
    ensures NoDup(s) ==> NoDup(r)
  {
    if s == [] then []
    else
      var rest := FilterOut(s[1..], x);
      assert forall y :: y in s[1..] ==> y in s;
      if s[0] in x then rest else [s[0]] + rest
  }

  /** Filtering a sequence with a first element. */
  lemma FilterOutCons<T(!new)>(y: T, s: seq<T>, x: set<T>)
    ensures FilterOut([y] + s, x) == (if y in x then [] else [y]) + FilterOut(s, x)
  {
    assert ([y] + s)[1..] == s;
  }

  /** Filtering twice is filtering by the union. */
  lemma {:induction false} FilterOutTwice<T(!new)>(s: seq<T>, a: set<T>, b: set<T>)
    ensures FilterOut(FilterOut(s, a), b) == FilterOut(s, a + b)
  {
    if s != [] {
      FilterOutTwice(s[1..], a, b);
    }
  }

  /** Filtering by a set that misses every element changes nothing. */
  lemma {:induction false} FilterOutNone<T(!new)>(s: seq<T>, x: set<T>)
    requires forall y :: y in s ==> y !in x
    ensures FilterOut(s, x) == s
  {
    if s != [] {
      assert forall y :: y in s[1..] ==> y in s;
      FilterOutNone(s[1..], x);
    }
  }

  /** Appending an element is filtered element by element. */
  lemma {:induction false} FilterOutAppend<T(!new)>(s: seq<T>, y: T, x: set<T>)
    ensures FilterOut(s + [y], x) == FilterOut(s, x) + (if y in x then [] else [y])
  {
    if s == [] {
      assert s + [y] == [y];
    } else {
      assert (s + [y])[1..] == s[1..] + [y];
      FilterOutAppend(s[1..], y, x);
    }
  }

  /**
   * The distinct elements of `s` in the order they are first seen: the
   * result of pushing each element that is not yet present.
   */
  function Dedup<T(==,!new)>(s: seq<T>): (r: seq<T>)
    ensures NoDup(r)
    ensures forall y :: y in r <==> y in s
  {
    if s == [] then []
    else
      var d := Dedup(s[..|s| - 1]);
      assert forall y :: y in s[..|s| - 1] ==> y in s;
      assert s == s[..|s| - 1] + [s[|s| - 1]];
      if s[|s| - 1] in d then d else d + [s[|s| - 1]]
  }

  /** The set of the elements of a sequence. */
  function Elems<T>(s: seq<T>): set<T> {
    set y | y in s
  }

  /** A duplicate-free sequence has as many elements as its set. */
  lemma {:induction false} NoDupCard<T>(s: seq<T>)
    requires NoDup(s)
    ensures |Elems(s)| == |s|
  {
    if s != [] {
      assert NoDup(s[1..]) by {
        forall i, j | 0 <= i < j < |s[1..]| ensures s[1..][i] != s[1..][j] {
          assert s[1..][i] == s[i + 1] && s[1..][j] == s[j + 1];
        }
      }
      NoDupCard(s[1..]);
      assert Elems(s) == {s[0]} + Elems(s[1..]);
      assert s[0] !in Elems(s[1..]);
    }
  }

  /** Joining two duplicate-free sequences with no common element keeps them duplicate-free. */
  lemma NoDupAppend<T>(a: seq<T>, b: seq<T>)
    requires NoDup(a) && NoDup(b)
    requires forall y :: y in a ==> y !in b
    ensures NoDup(a + b)
    ensures Elems(a + b) == Elems(a) + Elems(b)
  {
    forall i, j | 0 <= i < j < |a + b| ensures (a + b)[i] != (a + b)[j] {
      if j < |a| {
        assert (a + b)[i] == a[i] && (a + b)[j] == a[j];
      } else if i < |a| {
        assert (a + b)[i] == a[i] && (a + b)[j] == b[j - |a|];
        assert b[j - |a|] in b;
      } else {
        assert (a + b)[i] == b[i - |a|] && (a + b)[j] == b[j - |a|];
      }
    }
  }

  /** Removing keys in two steps is removing their union. */
  lemma MapMinusTwice<K, V>(m: map<K, V>, a: set<K>, b: set<K>)
    ensures (m - a) - b == m - (a + b)
  {
  }

  /** Removing a set that holds a key of the map makes the map smaller. */
  lemma MapMinusShrinks<K, V>(m: map<K, V>, s: set<K>, k: K)
    requires k in m && k in s
    ensures |m - s| < |m|
  {
    assert (m - s).Keys < m.Keys;
    ProperSubsetCardinality((m - s).Keys, m.Keys);
  }

  /** A proper subset is smaller than its superset. */
  lemma {:induction false} ProperSubsetCardinality<T>(a: set<T>, b: set<T>)
    requires a < b
    ensures |a| < |b|
  {
    var x :| x in b && x !in a;
    SubsetCardinality(a, b - {x});
  }

  /** A subset is no larger than its superset. */
  lemma {:induction false} SubsetCardinality<T>(a: set<T>, b: set<T>)
    requires a <= b
    ensures |a| <= |b|
  {
    if a != {} {
      var x :| x in a;
      SubsetCardinality(a - {x}, b - {x});
    }
  }
}
