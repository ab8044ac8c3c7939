/**
 The distinct values of a column in order of first appearance, as pandas'
 `Series.unique()` returns them.
 */
module Sequences {

  /** The position of the first occurrence of `x` in `s`. */
  function FirstIndex<T(==)>(s: seq<T>, x: T): (k: nat)
    requires x in s
    ensures k < |s| && s[k] == x
    ensures x !in s[..k]
  {
    if s[0] == x then 0
    else
      var k := 1 + FirstIndex(s[1..], x);
      assert s[..k] == [s[0]] + s[1..][..k - 1];
      k
  }

  /** A first occurrence in a prefix is the first occurrence in the whole sequence. */
  lemma FirstIndexInPrefix<T>(s: seq<T>, m: nat, x: T)
    requires m <= |s| && x in s[..m]
    ensures FirstIndex(s, x) == FirstIndex(s[..m], x)
  {
  }

  predicate NoDuplicates<T(==)>(s: seq<T>) {
    forall i, j :: 0 <= i < j < |s| ==> s[i] != s[j]
  }

  /**
   `s.unique()`: each distinct element of `s` once, ordered by where it first
   occurs in `s`.
   */
  function Unique<T(==,!new)>(s: seq<T>): (u: seq<T>)
    ensures forall x :: x in u <==> x in s
    ensures NoDuplicates(u)
    ensures forall i, j :: 0 <= i < j < |u| ==> FirstIndex(s, u[i]) < FirstIndex(s, u[j])
    ensures |u| <= |s|
  {
    if |s| == 0 then []
    else
      var n := |s| - 1;
      var prefix := s[..n];
      var p := Unique(prefix);
      assert forall x :: x in s <==> x in prefix || x == s[n];
      forall x | x in prefix
        ensures FirstIndex(s, x) == FirstIndex(prefix, x) < n
      {
        FirstIndexInPrefix(s, n, x);
      }
      if s[n] in prefix then p
      else
        assert FirstIndex(s, s[n]) == n;
        p + [s[n]]
  }
}
