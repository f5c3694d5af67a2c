/** The pigeonhole principle. */
module Counting {

  /** Different numbers below `n` are at most `n`. */
  lemma {:induction false} DistinctBounded(s: seq<nat>, n: nat)
    requires forall i :: 0 <= i < |s| ==> s[i] < n
    requires forall i, j :: 0 <= i < j < |s| ==> s[i] != s[j]
    ensures |s| <= n
  {
    if |s| == 0 {
      return;
    }
    assert s[0] < n;
    if exists k :: 0 <= k < |s| && s[k] == n - 1 {
      var k :| 0 <= k < |s| && s[k] == n - 1;
      DistinctBounded(s[..k] + s[k + 1..], n - 1);
    } else {
      DistinctBounded(s, n - 1);
    }
  }
}
