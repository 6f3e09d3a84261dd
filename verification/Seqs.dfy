/**
 Sequence vocabulary shared by the pipeline: absence of duplicates, the
 index of a first occurrence, order-preserving subsequences, and the
 distinct elements of a sequence in first-seen order (what iterating a
 JavaScript `Set` built from the sequence yields).
 */
module Seqs {

  predicate NoDuplicates<T(==)>(s: seq<T>) {
    forall i, j :: 0 <= i < j < |s| ==> s[i] != s[j]
  }

  /** The position of the first occurrence of `x` in `s`. */
  function FirstIndex<T(==)>(s: seq<T>, x: T): (i: nat)
    requires x in s
    ensures i < |s| && s[i] == x
    ensures x !in s[..i]
  {
    if s[0] == x then 0 else 1 + FirstIndex(s[1..], x)
  }

  /** Appending elements does not move a first occurrence. */
  lemma {:induction false} FirstIndexAppend<T>(s: seq<T>, t: seq<T>, x: T)
    requires x in s
    ensures FirstIndex(s + t, x) == FirstIndex(s, x)
  {
    if s[0] != x {
      assert (s + t)[1..] == s[1..] + t;
      FirstIndexAppend(s[1..], t, x);
    }
  }

  /** An element first seen in the appended part comes after all of `s`. */
  lemma {:induction false} FirstIndexAppendNew<T>(s: seq<T>, t: seq<T>, x: T)
    requires x !in s && x in t
    ensures FirstIndex(s + t, x) == |s| + FirstIndex(t, x)
  {
    if |s| == 0 {
      assert s + t == t;
    } else {
      assert (s + t)[1..] == s[1..] + t;
      FirstIndexAppendNew(s[1..], t, x);
    }
  }

  /** `a` is obtained from `b` by deleting elements, keeping order. */
  predicate IsSubsequence<T(==)>(a: seq<T>, b: seq<T>)
    decreases |b|
  {
    if |a| == 0 then true
    else if |b| == 0 then false
    else (a[0] == b[0] && IsSubsequence(a[1..], b[1..])) || IsSubsequence(a, b[1..])
  }

  /** A subsequence is never longer than the sequence it is taken from. */
  lemma {:induction false} SubsequenceLength<T>(a: seq<T>, b: seq<T>)
    requires IsSubsequence(a, b)
    ensures |a| <= |b|
    decreases |b|
  {
    if |a| > 0 {
      if a[0] == b[0] && IsSubsequence(a[1..], b[1..]) {
        SubsequenceLength(a[1..], b[1..]);
      } else {
        SubsequenceLength(a, b[1..]);
      }
    }
  }

  /** The distinct elements of `s`, each at the place it is first seen.
      Built from the left, the way a `Set` is filled from an iterable. */
  function Distinct<T(==)>(s: seq<T>): seq<T> {
    if |s| == 0 then []
    else
      var d := Distinct(s[..|s| - 1]);
      if s[|s| - 1] in d then d else d + [s[|s| - 1]]
  }

  /** `Distinct` keeps one copy of every element and drops nothing else. */
  lemma {:induction false} DistinctMembers<T>(s: seq<T>)
    ensures NoDuplicates(Distinct(s))
    ensures forall i :: 0 <= i < |Distinct(s)| ==> Distinct(s)[i] in s
    ensures forall i :: 0 <= i < |s| ==> s[i] in Distinct(s)
  {
    if |s| > 0 {
      var prefix := s[..|s| - 1];
      DistinctMembers(prefix);
      assert s == prefix + [s[|s| - 1]];
    }
  }

  /** `Distinct` orders the copies by where they first occur. */
  lemma {:induction false} DistinctOrder<T>(s: seq<T>)
    ensures forall i, j :: 0 <= i < j < |Distinct(s)| ==>
      Distinct(s)[i] in s && Distinct(s)[j] in s &&
      FirstIndex(s, Distinct(s)[i]) < FirstIndex(s, Distinct(s)[j])
  {
    if |s| == 0 {
      assert Distinct(s) == [];
    } else {
      var prefix := s[..|s| - 1];
      DistinctMembers(prefix);
      DistinctOrder(prefix);
      var last := s[|s| - 1];
      DistinctOrderStep(prefix, last);
      assert s == prefix + [last];
      assert Distinct(s) == Distinct(prefix + [last]);
    }
  }

  /** Appending one element keeps the first-occurrence order of `Distinct`. */
  lemma DistinctOrderStep<T>(prefix: seq<T>, last: T)
    requires forall i :: 0 <= i < |prefix| ==> prefix[i] in Distinct(prefix)
    requires forall i, j :: 0 <= i < j < |Distinct(prefix)| ==>
      Distinct(prefix)[i] in prefix && Distinct(prefix)[j] in prefix &&
      FirstIndex(prefix, Distinct(prefix)[i]) < FirstIndex(prefix, Distinct(prefix)[j])
    ensures forall i, j :: 0 <= i < j < |Distinct(prefix + [last])| ==>
      Distinct(prefix + [last])[i] in prefix + [last] && Distinct(prefix + [last])[j] in prefix + [last] &&
      FirstIndex(prefix + [last], Distinct(prefix + [last])[i])
        < FirstIndex(prefix + [last], Distinct(prefix + [last])[j])
  {
    var s := prefix + [last];
    var d := Distinct(prefix);
    assert s[..|s| - 1] == prefix;
    assert Distinct(s) == if last in d then d else d + [last];
    forall x | x in prefix ensures x in s && FirstIndex(s, x) == FirstIndex(prefix, x) {
      FirstIndexAppend(prefix, [last], x);
    }
    if last !in d {
      assert last !in prefix;
      FirstIndexAppendNew(prefix, [last], last);
    }
  }

  /** `Distinct` keeps one copy of every element, drops nothing else, and
      orders the copies by where they first occur. */
  lemma DistinctSpec<T>(s: seq<T>)
    ensures NoDuplicates(Distinct(s))
    ensures forall i :: 0 <= i < |Distinct(s)| ==> Distinct(s)[i] in s
    ensures forall i :: 0 <= i < |s| ==> s[i] in Distinct(s)
    ensures forall i, j :: 0 <= i < j < |Distinct(s)| ==>
      FirstIndex(s, Distinct(s)[i]) < FirstIndex(s, Distinct(s)[j])
  {
    DistinctMembers(s);
    DistinctOrder(s);
  }

  /** In a sequence without duplicates every element occurs exactly once. */
  lemma {:induction false} NoDuplicatesCount<T>(s: seq<T>, x: T)
    requires NoDuplicates(s)
    ensures multiset(s)[x] == if x in s then 1 else 0
  {
    if |s| > 0 {
      assert s == [s[0]] + s[1..];
      assert NoDuplicates(s[1..]);
      assert s[0] !in s[1..];
      NoDuplicatesCount(s[1..], x);
    }
  }
}
