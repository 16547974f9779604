/** Counting the set entries of a vector of flags, the measure by which the
    scanning loops of both programs make progress. */
module Flags {
  /** The number of set flags. */
  function CountTrue(s: seq<bool>): (c: nat)
    ensures c <= |s|
  {
    if s == [] then 0 else CountTrue(s[..|s| - 1]) + if s[|s| - 1] then 1 else 0
  }

  /** Setting a clear flag raises the count by one. */
  lemma {:induction false} CountTrueSet(s: seq<bool>, i: nat)
    requires i < |s| && !s[i]
    ensures CountTrue(s[i := true]) == CountTrue(s) + 1
    decreases |s|
  {
    var t := s[i := true];
    if i < |s| - 1 {
      assert t[..|t| - 1] == s[..|s| - 1][i := true];
      CountTrueSet(s[..|s| - 1], i);
    } else {
      assert t[..|t| - 1] == s[..|s| - 1];
    }
  }

  /** A set flag makes the count positive. */
  lemma {:induction false} CountTruePositive(s: seq<bool>, i: nat)
    requires i < |s| && s[i]
    ensures CountTrue(s) >= 1
    decreases |s|
  {
    if i < |s| - 1 {
      CountTruePositive(s[..|s| - 1], i);
    }
  }
}
