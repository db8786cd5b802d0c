/** What several modules share. */
module Basics {
  datatype Option<T> = None | Some(value: T)

  function Min(a: nat, b: nat): nat {
    if a < b then a else b
  }

  function Max(a: nat, b: nat): nat {
    if a < b then b else a
  }

  ghost predicate Distinct<T>(s: seq<T>) {
    forall i: nat, j: nat :: i < j < |s| ==> s[i] != s[j]
  }

  /** Different numbers below n are not more than n. */
  lemma {:induction false} Pigeonhole(s: seq<nat>, n: nat)
    requires Distinct(s) && forall i :: 0 <= i < |s| ==> s[i] < n
    ensures |s| <= n
    decreases n
  {
    if s == [] {
    } else {
      assert s[0] < n;
      if k :| 0 <= k < |s| && s[k] == n - 1 {
        Pigeonhole(s[..k] + s[k + 1..], n - 1);
      } else {
        Pigeonhole(s, n - 1);
      }
    }
  }
}
