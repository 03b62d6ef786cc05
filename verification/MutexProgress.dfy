/** Every schedule of finitely many lock/unlock rounds ends, with everybody done:
    no deadlock, no lost wake-up and no livelock, provided FutexWait does not return
    spuriously. */
module MutexProgress {
  import opened FutexMutex
  import opened Sums

  /** `rounds[t]` counts the unlocks thread `t` still has to perform. */
  datatype Workers = Workers(lock: State, rounds: seq<nat>)

  predicate CanStep(w: Workers, t: nat, a: Action) {
    && |w.rounds| == |w.lock.phases|
    && Enabled(w.lock, t, a)
    && !a.SpuriousReturn?
    && (a.TryFast? || a.UnlockSwap? ==> w.rounds[t] > 0)
  }

  function Step(w: Workers, t: nat, a: Action): Workers
    requires CanStep(w, t, a)
  {
    Workers(Apply(w.lock, t, a), if a.UnlockSwap? then w.rounds[t := w.rounds[t] - 1] else w.rounds)
  }

  predicate Finished(w: Workers) {
    && |w.rounds| == |w.lock.phases|
    && forall t :: 0 <= t < |w.rounds| ==> w.lock.phases[t] == Away && w.rounds[t] == 0
  }

  /** Whoever is inside `lock` or holds the lock still has its unlock to do. */
  predicate Consistent(w: Workers) {
    && Safe(w.lock)
    && |w.rounds| == |w.lock.phases|
    && forall t :: 0 <= t < |w.rounds| && w.lock.phases[t] !in {Away, OwingWake} ==> w.rounds[t] > 0
  }

  lemma {:induction false} StepKeepsConsistent(w: Workers, t: nat, a: Action)
    requires Consistent(w) && CanStep(w, t, a)
    ensures Consistent(Step(w, t, a))
  {
    StepKeepsOwnership(w.lock, t, a);
    StepKeepsSleepersCovered(w.lock, t, a);
  }

  // --- the measure -----------------------------------------------------------

  /** How many steps a thread may still take before the next unlock or wake.  A thread
      about to call FutexWait will sleep at once when the word is still CONTENDED; it
      goes round the loop again only when an unlock intervened since it swapped. */
  function Rank(word: int, p: Phase, rounds: nat): nat {
    match p
    case Away => if rounds > 0 then 6 else 0
    case Checking => if word == CONTENDED then 1 else 5
    case BackingOff => 4
    case Swapping => 3
    case Sleeping => 0
    case Owning => 0
    case OwingWake => 11
  }

  /** One unlock may set every other thread back by at most four steps. */
  function UnlockCost(threads: nat): nat { 4 * threads + 12 }

  function Weight(w: Workers, t: nat): nat
    requires t < |w.rounds| == |w.lock.phases|
  {
    w.rounds[t] * UnlockCost(|w.rounds|) + Rank(w.lock.word, w.lock.phases[t], w.rounds[t])
  }

  function Weights(w: Workers): (ws: seq<nat>)
    requires |w.rounds| == |w.lock.phases|
  {
    seq(|w.rounds|, t requires 0 <= t < |w.rounds| => Weight(w, t))
  }

  function StepsLeft(w: Workers): nat
    requires |w.rounds| == |w.lock.phases|
  {
    Sum(Weights(w))
  }

  lemma {:induction false} OneWeightFalls(ws: seq<nat>, ws': seq<nat>, t: nat, slack: nat)
    requires |ws| == |ws'| && t < |ws| && ws'[t] + slack * |ws| < ws[t]
    requires forall i :: 0 <= i < |ws| && i != t ==> ws'[i] <= ws[i] + slack
    ensures Sum(ws') < Sum(ws)
  {
    SumOfUpdate(ws, t, ws'[t]);
    SumGrowsBy(ws[t := ws'[t]], ws', slack);
  }

  lemma {:induction false} UnlockLowersMeasure(w: Workers, t: nat)
    requires Consistent(w) && CanStep(w, t, UnlockSwap)
    ensures StepsLeft(Step(w, t, UnlockSwap)) < StepsLeft(w)
  {
    var w' := Step(w, t, UnlockSwap);
    var n := |w.rounds|;
    var r, cost := w.rounds[t], UnlockCost(n);
    assert (r - 1) * cost == r * cost - cost;
    OneWeightFalls(Weights(w), Weights(w'), t, 4);
  }

  lemma {:induction false} WakeLowersMeasure(w: Workers, t: nat, u: nat, failed: bool)
    requires Consistent(w) && CanStep(w, t, FutexWake(u, failed))
    ensures StepsLeft(Step(w, t, FutexWake(u, failed))) < StepsLeft(w)
  {
    var w' := Step(w, t, FutexWake(u, failed));
    var ws, ws' := Weights(w), Weights(w');
    if Someone(w.lock, Sleeping) {
      assert ws' == ws[u := ws'[u]][t := ws'[t]];
      SumOfUpdate(ws, u, ws'[u]);
      SumOfUpdate(ws[u := ws'[u]], t, ws'[t]);
    } else {
      OneWeightFalls(ws, ws', t, 0);
    }
  }

  /** A thread about to wait that bounces back saw the word change since it swapped. */
  lemma {:induction false} StepLowersMeasure(w: Workers, t: nat, a: Action)
    requires Consistent(w) && CanStep(w, t, a)
    ensures StepsLeft(Step(w, t, a)) < StepsLeft(w)
  {
    if a.UnlockSwap? {
      UnlockLowersMeasure(w, t);
    } else if a.FutexWake? {
      WakeLowersMeasure(w, t, a.target, a.failed);
    } else {
      OneWeightFalls(Weights(w), Weights(Step(w, t, a)), t, 0);
    }
  }

  // --- no stuck state --------------------------------------------------------

  /** An awake, unfinished thread can always take its next step. */
  lemma {:induction false} AwakeThreadCanStep(w: Workers, t: nat) returns (a: Action)
    requires Consistent(w) && t < |w.rounds|
    requires w.lock.phases[t] != Sleeping && !(w.lock.phases[t] == Away && w.rounds[t] == 0)
    ensures CanStep(w, t, a)
  {
    match w.lock.phases[t]
    case Away => a := TryFast;
    case Swapping => a := SwapContended;
    case Checking => a := FutexWait(false);
    case BackingOff => a := EndBackoff;
    case Owning => a := UnlockSwap;
    case OwingWake =>
      var u: nat := 0;
      if Someone(w.lock, Sleeping) {
        u :| u < |w.rounds| && w.lock.phases[u] == Sleeping;
      }
      a := FutexWake(u, false);
  }

  /** No deadlock: while anybody has work left, somebody can step.  In particular the
      unfinished threads are never all asleep. */
  lemma {:induction false} SomebodyCanStep(w: Workers) returns (t: nat, a: Action)
    requires Consistent(w) && !Finished(w)
    ensures CanStep(w, t, a)
  {
    t :| t < |w.rounds| && !(w.lock.phases[t] == Away && w.rounds[t] == 0);
    if w.lock.phases[t] == Sleeping {
      assert Someone(w.lock, Sleeping);
      if w.lock.word == CONTENDED {
        t :| t < |w.rounds| && w.lock.phases[t] == Owning;
      } else {
        var p, k := Witness(w.lock);
        t := k;
      }
    }
    a := AwakeThreadCanStep(w, t);
  }

  lemma {:induction false} StuckExactlyWhenFinished(w: Workers)
    requires Consistent(w)
    ensures (forall t, a :: !CanStep(w, t, a)) <==> Finished(w)
    ensures Finished(w) ==> w.lock == Initial(|w.rounds|)
  {
    if !Finished(w) {
      var t, a := SomebodyCanStep(w);
    } else {
      assert w.lock.phases == Initial(|w.rounds|).phases;
    }
  }

  // --- whole schedules -------------------------------------------------------

  predicate Runs(w: Workers, run: Schedule)
    decreases |run|
  {
    run == [] || (CanStep(w, run[0].0, run[0].1) && Runs(Step(w, run[0].0, run[0].1), run[1..]))
  }

  function End(w: Workers, run: Schedule): Workers
    requires Runs(w, run)
    decreases |run|
  {
    if run == [] then w else End(Step(w, run[0].0, run[0].1), run[1..])
  }

  lemma {:induction false} ScheduleSpendsMeasure(w: Workers, run: Schedule)
    requires Consistent(w) && Runs(w, run)
    ensures Consistent(End(w, run))
    ensures |run| + StepsLeft(End(w, run)) <= StepsLeft(w)
    decreases |run|
  {
    if run != [] {
      StepKeepsConsistent(w, run[0].0, run[0].1);
      StepLowersMeasure(w, run[0].0, run[0].1);
      ScheduleSpendsMeasure(Step(w, run[0].0, run[0].1), run[1..]);
    }
  }

  function Start(rounds: seq<nat>): Workers {
    Workers(Initial(|rounds|), rounds)
  }

  lemma {:induction false} StartMeasure(rounds: seq<nat>, cost: nat, ws: seq<nat>)
    requires |ws| == |rounds|
    requires forall t :: 0 <= t < |ws| ==> ws[t] <= rounds[t] * cost + 6
    ensures Sum(ws) <= Sum(rounds) * cost + 6 * |rounds|
  {
    if ws != [] {
      StartMeasure(rounds[1..], cost, ws[1..]);
      assert Sum(rounds) * cost == rounds[0] * cost + Sum(rounds[1..]) * cost;
    }
  }

  /** Main result.  Any number of threads, any number of rounds each, any schedule: the
      schedule has bounded length, and it can be extended unless every thread has
      finished all its rounds, leaving the lock free. */
  lemma {:induction false} EveryScheduleFinishes(rounds: seq<nat>, run: Schedule)
    requires Runs(Start(rounds), run)
    ensures |run| <= Sum(rounds) * UnlockCost(|rounds|) + 6 * |rounds|
    ensures var w := End(Start(rounds), run);
      (forall t, a :: !CanStep(w, t, a)) <==> Finished(w)
    ensures var w := End(Start(rounds), run);
      Finished(w) ==> w.lock == Initial(|rounds|)
  {
    var w := End(Start(rounds), run);
    ScheduleSpendsMeasure(Start(rounds), run);
    StartMeasure(rounds, UnlockCost(|rounds|), Weights(Start(rounds)));
    LengthIsKept(Start(rounds), run);
    StuckExactlyWhenFinished(w);
  }

  lemma {:induction false} LengthIsKept(w: Workers, run: Schedule)
    requires Runs(w, run)
    ensures |End(w, run).rounds| == |w.rounds|
    decreases |run|
  {
    if run != [] {
      LengthIsKept(Step(w, run[0].0, run[0].1), run[1..]);
    }
  }
}
