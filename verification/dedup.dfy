/**
 * A model of LINQ's `Enumerable.Distinct` on a finite sequence: every element is
 * kept at its first occurrence and every later copy is dropped. The function is
 * written the way the operator streams its input: the prefix already seen is
 * de-duplicated, and the next element is appended only when it is new.
 */
module Dedup {

  /** No two positions of `s` hold equal elements. */
  predicate NoDuplicates<T(==,!new)>(s: seq<T>) {
    forall i, j :: 0 <= i < j < |s| ==> s[i] != s[j]
  }

  /** The first position at which `x` occurs in `s`. */
  function FirstIndex<T(==,!new)>(s: seq<T>, x: T): (i: nat)
    requires x in s
    ensures i < |s| && s[i] == x && x !in s[..i]
  {
    if s[0] == x then 0
    else
      var k := FirstIndex(s[1..], x);
      assert s[..k + 1] == [s[0]] + s[1..][..k];
      k + 1
  }

  /**
   * Every element of `t` occurs in `s`, and the elements of `t` appear in the
   * order of their first occurrences in `s`.
   */
  predicate InFirstOccurrenceOrder<T(==,!new)>(t: seq<T>, s: seq<T>) {
    (forall x :: x in t ==> x in s) &&
    forall i, j :: 0 <= i < j < |t| ==> FirstIndex(s, t[i]) < FirstIndex(s, t[j])
  }

  /** Keep the first occurrence of every element of `s`, in order. */
  function Distinct<T(==,!new)>(s: seq<T>): (r: seq<T>)
    ensures NoDuplicates(r)
    ensures forall x :: x in r <==> x in s
    ensures |r| <= |s|
    decreases |s|
  {
    if s == [] then []
    else
      var p, x := s[..|s| - 1], s[|s| - 1];
      assert s == p + [x];
      var d := Distinct(p);
      if x in d then d else d + [x]
  }

  /** The first occurrence of an element is the only position with no earlier copy. */
  lemma FirstIndexUnique<T(!new)>(s: seq<T>, x: T, i: nat)
    requires i < |s| && s[i] == x && x !in s[..i]
    ensures FirstIndex(s, x) == i
  {
  }

  /** Appending an element does not move the first occurrence of an element already present. */
  lemma FirstIndexAppend<T(!new)>(p: seq<T>, x: T, y: T)
    requires y in p
    ensures y in p + [x] && FirstIndex(p + [x], y) == FirstIndex(p, y)
  {
    var k := FirstIndex(p, y);
    assert (p + [x])[..k] == p[..k];
    FirstIndexUnique(p + [x], y, k);
  }

  /** The kept elements appear in the order of their first occurrences in the input. */
  lemma {:induction false} DistinctFirstOccurrenceOrder<T(!new)>(s: seq<T>)
    ensures InFirstOccurrenceOrder(Distinct(s), s)
  {
    if s != [] {
      var p, x := s[..|s| - 1], s[|s| - 1];
      assert s == p + [x];
      var d, r := Distinct(p), Distinct(s);
      DistinctFirstOccurrenceOrder(p);
      forall y | y in p
        ensures FirstIndex(s, y) == FirstIndex(p, y)
      {
        FirstIndexAppend(p, x, y);
      }
      if x !in d {
        assert s[..|p|] == p;
        FirstIndexUnique(s, x, |p|);
        assert r == d + [x];
        forall i, j | 0 <= i < j < |r|
          ensures FirstIndex(s, r[i]) < FirstIndex(s, r[j])
        {
          if j < |d| {
            assert r[i] == d[i] && r[j] == d[j];
          } else {
            assert r[i] == d[i] && r[i] in p;
          }
        }
      } else {
        assert r == d;
      }
    }
  }

  /** Duplicate-free sequences with the same elements have the same length. */
  lemma SameElementsSameLength<T(!new)>(t: seq<T>, u: seq<T>)
    requires NoDuplicates(t) && NoDuplicates(u)
    requires forall x :: x in t <==> x in u
    ensures |t| == |u|
  {
    DistinctIsIdentityIff(t);
    DistinctIsIdentityIff(u);
    DistinctLength(t);
    DistinctLength(u);
    assert Elements(t) == Elements(u);
  }

  /** Non-empty sequences in first-occurrence order of `s` with the same elements start alike. */
  lemma SameFirstElement<T(!new)>(s: seq<T>, t: seq<T>, u: seq<T>)
    requires t != [] && u != []
    requires InFirstOccurrenceOrder(t, s) && InFirstOccurrenceOrder(u, s)
    requires forall x :: x in t <==> x in u
    ensures t[0] == u[0]
  {
    assert t[0] in u;
    var k :| 0 <= k < |u| && u[k] == t[0];
    assert u[0] in t;
    var m :| 0 <= m < |t| && t[m] == u[0];
    assert FirstIndex(s, u[0]) <= FirstIndex(s, u[k]);
    assert FirstIndex(s, t[0]) <= FirstIndex(s, t[m]);
    assert t[0] == s[FirstIndex(s, t[0])] == s[FirstIndex(s, u[0])] == u[0];
  }

  /**
   * Two duplicate-free sequences with the same elements, both in first-occurrence
   * order of `s`, are equal.
   */
  lemma {:induction false} OrderedSameElementsEqual<T(!new)>(s: seq<T>, t: seq<T>, u: seq<T>)
    requires NoDuplicates(t) && NoDuplicates(u)
    requires InFirstOccurrenceOrder(t, s) && InFirstOccurrenceOrder(u, s)
    requires forall x :: x in t <==> x in u
    ensures t == u
    decreases |t|
  {
    SameElementsSameLength(t, u);
    if t != [] {
      SameFirstElement(s, t, u);
      var t', u' := t[1..], u[1..];
      forall x
        ensures x in t' <==> x in u'
      {
        assert x in t' <==> x in t && x != t[0];
        assert x in u' <==> x in u && x != u[0];
      }
      OrderedSameElementsEqual(s, t', u');
      assert t == [t[0]] + t' && u == [u[0]] + u';
    }
  }

  /**
   * `Distinct(s)` is the only duplicate-free sequence that holds exactly the
   * elements of `s`, in the order of their first occurrences.
   */
  lemma DistinctCharacterized<T(!new)>(s: seq<T>, t: seq<T>)
    requires NoDuplicates(t)
    requires forall x :: x in t <==> x in s
    requires InFirstOccurrenceOrder(t, s)
    ensures t == Distinct(s)
  {
    DistinctFirstOccurrenceOrder(s);
    OrderedSameElementsEqual(s, t, Distinct(s));
  }

  /** De-duplicating changes nothing exactly when the input has no duplicates. */
  lemma {:induction false} DistinctIsIdentityIff<T(!new)>(s: seq<T>)
    ensures Distinct(s) == s <==> NoDuplicates(s)
  {
    if s != [] && NoDuplicates(s) {
      var p, x := s[..|s| - 1], s[|s| - 1];
      assert s == p + [x];
      assert NoDuplicates(p);
      DistinctIsIdentityIff(p);
      assert x !in p;
    }
  }

  /** De-duplicating twice is the same as de-duplicating once. */
  lemma DistinctIdempotent<T(!new)>(s: seq<T>)
    ensures Distinct(Distinct(s)) == Distinct(s)
  {
  }

  /** The set of the elements of a sequence. */
  function Elements<T(!new)>(s: seq<T>): set<T> {
    set x | x in s
  }

  /** The result holds one string per distinct element of the input. */
  lemma {:induction false} DistinctLength<T(!new)>(s: seq<T>)
    ensures |Distinct(s)| == |Elements(s)|
  {
    if s != [] {
      var p, x := s[..|s| - 1], s[|s| - 1];
      assert s == p + [x];
      assert Elements(s) == Elements(p) + {x};
      DistinctLength(p);
      if x in p {
        assert Elements(s) == Elements(p);
      }
    }
  }
}
