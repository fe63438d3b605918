/** `Predecessor::argpred` (src/bin/main3/pred.rs, copied in src/bin/main3.rs):
    the last index of a vector whose entry is at most a given value, found by
    scanning down from the end. */
module Predecessor {

  /** The last index whose entry is at most `item`. */
  ghost function LastAtMost(s: seq<nat>, item: nat): (i: nat)
    requires exists k :: 0 <= k < |s| && s[k] <= item
    ensures i < |s| && s[i] <= item
    ensures forall k :: i < k < |s| ==> s[k] > item
    decreases |s|
  {
    if s[|s| - 1] <= item then |s| - 1
    else
      var t := s[..|s| - 1];
      assert exists k :: 0 <= k < |t| && t[k] <= item by {
        var k :| 0 <= k < |s| && s[k] <= item;
        assert k < |t| && t[k] == s[k];
      }
      LastAtMost(t, item)
  }

  /** `argpred`. The source starts at len - 1 and decrements while the entry is too
      large: an empty vector, or one with no entry at most `item`, underflows. */
  method ArgPred(s: seq<nat>, item: nat) returns (i: nat)
    requires exists k :: 0 <= k < |s| && s[k] <= item
    ensures i == LastAtMost(s, item)
  {
    i := |s| - 1;
    while s[i] > item
      invariant i < |s|
      invariant forall k :: i < k < |s| ==> s[k] > item
      invariant exists k :: 0 <= k <= i && s[k] <= item
      decreases i
    {
      i := i - 1;
    }
  }

  /** When the vector starts at 0 (the node start offsets do) argpred is defined for
      every value; if the last entry is at most `item` it is the answer; and an
      ascending vector locates `item` between two consecutive entries. */
  lemma LastAtMostLocates(s: seq<nat>, item: nat)
    requires |s| > 0 && s[0] == 0
    ensures exists k :: 0 <= k < |s| && s[k] <= item
    ensures var i := LastAtMost(s, item);
      s[i] <= item && (i + 1 < |s| ==> item < s[i + 1]) &&
      (s[|s| - 1] <= item ==> i == |s| - 1)
  {
    assert s[0] <= item;
  }
}
