/** What several models use: optional values, lists without repeats, zeroed bytes. */
module Wrappers {
  datatype Option<+T> = None | Some(value: T)

  ghost predicate Distinct(s: seq<nat>) { forall i, j :: 0 <= i < j < |s| ==> s[i] != s[j] }

  function Zeros(n: nat): (b: seq<bv8>)
    ensures |b| == n && forall i :: 0 <= i < n ==> b[i] == 0
  {
    seq(n, i => 0 as bv8)
  }
}
