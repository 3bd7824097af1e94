/** Division and counting facts that several proofs share. */
module Arithmetic {

  lemma RowsApart(len: nat, x: nat, y: nat)
    ensures x < y ==> len * x + len <= len * y
  {
    if x < y { assert len * (x + 1) <= len * y; }
  }

  /** Quotient and remainder are unique. */
  lemma QuotientsEqual(len: nat, x: nat, a: nat, y: nat, b: nat)
    requires a < len && b < len && len * x + a == len * y + b
    ensures x == y && a == b
  {
    RowsApart(len, x, y);
    RowsApart(len, y, x);
  }

  /** More than n numbers below n are not all different. */
  lemma {:induction false} Pigeonhole(s: seq<nat>, n: nat) returns (i: nat, j: nat)
    requires |s| > n && forall k :: 0 <= k < |s| ==> s[k] < n
    ensures i < j < |s| && s[i] == s[j]
    decreases n
  {
    if k :| 0 <= k < |s| - 1 && s[k] == s[|s| - 1] {
      i, j := k, |s| - 1;
    } else {
      var last := s[|s| - 1];
      var t := seq(|s| - 1, k requires 0 <= k < |s| - 1 => if s[k] > last then s[k] - 1 else s[k]);
      i, j := Pigeonhole(t, n - 1);
    }
  }
}
