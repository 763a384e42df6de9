/** How a property that each step either keeps or breaks behaves over a whole run. */
module Runs {

  /** When a good moment is followed by a good one exactly if the step between them was as it
      should be, all moments are good exactly if all steps were. */
  lemma {:induction false} FirstFailure(good: seq<bool>, owed: seq<bool>)
    requires |good| == |owed| + 1 && good[0]
    requires forall k | 0 <= k < |owed| && good[k] :: good[k + 1] <==> owed[k]
    ensures (forall k | 0 <= k < |good| :: good[k]) <==> (forall k | 0 <= k < |owed| :: owed[k])
  {
    if |owed| > 0 {
      var n := |owed| - 1;
      FirstFailure(good[..n + 1], owed[..n]);
      assert forall k | 0 <= k < n + 1 :: good[k] == good[..n + 1][k];
      assert forall k | 0 <= k < n :: owed[k] == owed[..n][k];
      assert owed == owed[..n] + [owed[n]] && good == good[..n + 1] + [good[n + 1]];
    }
  }
}
