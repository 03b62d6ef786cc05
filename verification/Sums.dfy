/** Sums of sequences of weights, for termination measures that add up threads. */
module Sums {
  function Sum(ws: seq<nat>): nat {
    if ws == [] then 0 else ws[0] + Sum(ws[1..])
  }

  /** Raising every weight by at most `slack` raises the sum by at most `slack` each. */
  lemma {:induction false} SumGrowsBy(ws: seq<nat>, ws': seq<nat>, slack: nat)
    requires |ws| == |ws'| && forall i :: 0 <= i < |ws| ==> ws'[i] <= ws[i] + slack
    ensures Sum(ws') <= Sum(ws) + slack * |ws|
  {
    if ws != [] {
      SumGrowsBy(ws[1..], ws'[1..], slack);
      assert slack * |ws| == slack * |ws[1..]| + slack;
    }
  }

  lemma {:induction false} SumOfUpdate(ws: seq<nat>, t: nat, v: nat)
    requires t < |ws|
    ensures Sum(ws[t := v]) + ws[t] == Sum(ws) + v
  {
    if t == 0 {
      assert ws[t := v][1..] == ws[1..];
    } else {
      assert ws[t := v][1..] == ws[1..][t - 1 := v];
      SumOfUpdate(ws[1..], t - 1, v);
    }
  }

  lemma {:induction false} SumAtMost(ws: seq<nat>, most: nat)
    requires forall i :: 0 <= i < |ws| ==> ws[i] <= most
    ensures Sum(ws) <= most * |ws|
  {
    if ws != [] {
      SumAtMost(ws[1..], most);
      assert most * |ws| == most * |ws[1..]| + most;
    }
  }
}
