/** Counting arguments about duplicate-free sequences of small numbers. */
module Finite {

  predicate Distinct<T(==)>(s: seq<T>) {
    forall i, j :: 0 <= i < j < |s| ==> s[i] != s[j]
  }

  /** The pigeonhole principle: distinct numbers below m are at most m, and m of
      them are all of them. */
  lemma {:induction false} Pigeonhole(s: seq<nat>, m: nat)
    requires Distinct(s) && forall i :: 0 <= i < |s| ==> s[i] < m
    ensures |s| <= m
    ensures |s| == m ==> forall x: nat :: x < m ==> x in s
    decreases m
  {
    assert s == [] || s[0] < m;
    if m > 0 {
      if k :| 0 <= k < |s| && s[k] == m - 1 {
        var rest := s[..k] + s[k + 1..];
        Pigeonhole(rest, m - 1);
        forall x: nat | |s| == m && x < m
          ensures x in s
        {
          if x < m - 1 {
            assert x in rest;
          }
        }
      } else {
        Pigeonhole(s, m - 1);
      }
    }
  }
}
