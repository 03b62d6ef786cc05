/** Which system calls the futex lock makes: none without contention, one wake for each
    contended unlock, one back-off for each failed wait. */
module FutexCalls {
  import opened FutexMutex

  // --- without contention ----------------------------------------------------------

  /** Nobody but `t` has touched the lock. */
  predicate Untouched(s: State, t: nat) {
    && t < |s.phases|
    && (forall i :: 0 <= i < |s.phases| && i != t ==> s.phases[i] == Away)
    && ((s.word == UNLOCKED && s.phases[t] == Away) || (s.word == LOCKED && s.phases[t] == Owning))
  }

  lemma {:induction false} QuietFrom(s: State, t: nat, run: Schedule)
    requires Untouched(s, t) && Valid(s, run)
    requires forall i | 0 <= i < |run| :: run[i].0 == t
    ensures forall i | 0 <= i < |run| :: run[i].1.TryFast? || run[i].1.UnlockSwap?
    decreases |run|
  {
    if run != [] {
      assert forall i | 0 <= i < |run[1..]| :: run[1..][i] == run[i + 1];
      QuietFrom(Apply(s, t, run[0].1), t, run[1..]);
      assert forall i | 0 < i < |run| :: run[i] == run[1..][i - 1];
    }
  }

  /** A thread that is alone locks and unlocks by one atomic access each: it never swaps in
      the contended mark and never enters the kernel. */
  lemma {:induction false} AloneIsQuiet(threads: nat, t: nat, run: Schedule)
    requires t < threads && Valid(Initial(threads), run)
    requires forall i | 0 <= i < |run| :: run[i].0 == t
    ensures forall i | 0 <= i < |run| :: run[i].1.TryFast? || run[i].1.UnlockSwap?
  {
    QuietFrom(Initial(threads), t, run);
  }

  // --- with contention ---------------------------------------------------------------

  /** The step ends a FutexWait of thread `t` with the error value. */
  predicate FailsWait(s: State, t: nat, u: nat, a: Action) {
    || (u == t && a == SpuriousReturn(true))
    || (u == t && a == FutexWait(true) && s.word != CONTENDED)
    || (a == FutexWake(t, true) && t < |s.phases| && s.phases[t] == Sleeping)
  }

  /** How often FutexWait fails for the thread, and how often it sleeps a millisecond. */
  function FailedWaits(s: State, run: Schedule, t: nat): nat
    requires Valid(s, run)
    decreases |run|
  {
    if run == [] then 0
    else
      (if FailsWait(s, t, run[0].0, run[0].1) then 1 else 0) +
      FailedWaits(Apply(s, run[0].0, run[0].1), run[1..], t)
  }

  function BackOffs(run: Schedule, t: nat): nat {
    if run == [] then 0 else (if run[0] == (t, EndBackoff) then 1 else 0) + BackOffs(run[1..], t)
  }

  function At(s: State, t: nat, p: Phase): nat {
    if t < |s.phases| && s.phases[t] == p then 1 else 0
  }

  lemma {:induction false} StepBacksOff(s: State, t: nat, u: nat, a: Action)
    requires Enabled(s, u, a)
    ensures At(s, t, BackingOff) + (if FailsWait(s, t, u, a) then 1 else 0) ==
            (if (u, a) == (t, EndBackoff) then 1 else 0) + At(Apply(s, u, a), t, BackingOff)
  {
    assert t < |s.phases| && s.phases[t] == Sleeping ==> Someone(s, Sleeping);
  }

  lemma {:induction false} BackOffsFrom(s: State, run: Schedule, t: nat)
    requires Valid(s, run)
    ensures At(s, t, BackingOff) + FailedWaits(s, run, t) == BackOffs(run, t) + At(After(s, run), t, BackingOff)
    decreases |run|
  {
    if run != [] {
      StepBacksOff(s, t, run[0].0, run[0].1);
      BackOffsFrom(Apply(s, run[0].0, run[0].1), run[1..], t);
    }
  }

  /** In every run each thread sleeps its millisecond once for each of its waits that failed,
      and for no other; one sleep may still be under way. */
  lemma {:induction false} EveryFailureBacksOff(threads: nat, run: Schedule, t: nat)
    requires Valid(Initial(threads), run)
    ensures FailedWaits(Initial(threads), run, t) == BackOffs(run, t) + At(After(Initial(threads), run), t, BackingOff)
  {
    BackOffsFrom(Initial(threads), run, t);
  }

  /** How often the thread's unlocks swap out the contended mark, and how often it wakes. */
  function ContendedUnlocks(s: State, run: Schedule, t: nat): nat
    requires Valid(s, run)
    decreases |run|
  {
    if run == [] then 0
    else
      (if run[0] == (t, UnlockSwap) && s.word == CONTENDED then 1 else 0) +
      ContendedUnlocks(Apply(s, run[0].0, run[0].1), run[1..], t)
  }

  function Wakes(run: Schedule, t: nat): nat {
    if run == [] then 0 else (if run[0].0 == t && run[0].1.FutexWake? then 1 else 0) + Wakes(run[1..], t)
  }

  lemma {:induction false} WakesFrom(s: State, run: Schedule, t: nat)
    requires Valid(s, run)
    ensures At(s, t, OwingWake) + ContendedUnlocks(s, run, t) == Wakes(run, t) + At(After(s, run), t, OwingWake)
    decreases |run|
  {
    if run != [] {
      StepWakes(s, t, run[0].0, run[0].1);
      WakesFrom(Apply(s, run[0].0, run[0].1), run[1..], t);
    }
  }

  lemma {:induction false} StepWakes(s: State, t: nat, u: nat, a: Action)
    requires Enabled(s, u, a)
    ensures At(s, t, OwingWake) + (if (u, a) == (t, UnlockSwap) && s.word == CONTENDED then 1 else 0) ==
            (if u == t && a.FutexWake? then 1 else 0) + At(Apply(s, u, a), t, OwingWake)
  {
  }

  /** In every run each thread calls FutexWake once for each of its unlocks that found the
      lock contended, and for no other; one call may still be due. */
  lemma {:induction false} EveryContendedUnlockWakes(threads: nat, run: Schedule, t: nat)
    requires Valid(Initial(threads), run)
    ensures ContendedUnlocks(Initial(threads), run, t) == Wakes(run, t) + At(After(Initial(threads), run), t, OwingWake)
  {
    WakesFrom(Initial(threads), run, t);
  }
}
