/** The three-state futex lock of `RawMutex`, as interleaved atomic steps of any
    number of threads.  One step is one atomic access to the lock word, one system
    call, or one return from a system call. */
module FutexMutex {

  const UNLOCKED := 0
  const LOCKED := 1
  const CONTENDED := 2

  /** Where a thread stands in `lock` and `unlock`. */
  datatype Phase =
    | Away        // outside both functions, not holding the lock
    | Swapping    // head of the retry loop, about to swap in CONTENDED
    | Checking    // saw the lock taken, about to call FutexWait
    | Sleeping    // queued inside FutexWait
    | BackingOff  // FutexWait reported failure, in the one-millisecond sleep
    | Owning      // `lock` returned and `unlock` has not swapped yet
    | OwingWake   // `unlock` swapped out CONTENDED and must still call FutexWake

  datatype State = State(word: int, phases: seq<Phase>)

  /** `failed` records whether FutexWait returned the error value, which sends the
      thread through the back-off sleep before it retries. */
  datatype Action =
    | TryFast
    | SwapContended
    | FutexWait(failed: bool)
    | SpuriousReturn(failed: bool)
    | EndBackoff
    | UnlockSwap
    | FutexWake(target: nat, failed: bool)

  function Retry(failed: bool): Phase {
    if failed then BackingOff else Swapping
  }

  predicate Someone(s: State, p: Phase) {
    exists i :: 0 <= i < |s.phases| && s.phases[i] == p
  }

  predicate Enabled(s: State, t: nat, a: Action) {
    && t < |s.phases|
    && match a
       case TryFast => s.phases[t] == Away
       case SwapContended => s.phases[t] == Swapping
       case FutexWait(_) => s.phases[t] == Checking
       case SpuriousReturn(_) => s.phases[t] == Checking || s.phases[t] == Sleeping
       case EndBackoff => s.phases[t] == BackingOff
       case UnlockSwap => s.phases[t] == Owning
       case FutexWake(u, _) =>
         // the kernel picks one sleeper, whenever there is one
         && s.phases[t] == OwingWake
         && (Someone(s, Sleeping) ==> u < |s.phases| && s.phases[u] == Sleeping)
  }

  function Apply(s: State, t: nat, a: Action): State
    requires Enabled(s, t, a)
  {
    match a
    case TryFast =>
      if s.word == UNLOCKED then State(LOCKED, s.phases[t := Owning])
      else s.(phases := s.phases[t := Swapping])
    case SwapContended =>
      State(CONTENDED, s.phases[t := if s.word == UNLOCKED then Owning else Checking])
    case FutexWait(failed) =>
      s.(phases := s.phases[t := if s.word == CONTENDED then Sleeping else Retry(failed)])
    case SpuriousReturn(failed) => s.(phases := s.phases[t := Retry(failed)])
    case EndBackoff => s.(phases := s.phases[t := Swapping])
    case UnlockSwap =>
      State(UNLOCKED, s.phases[t := if s.word == CONTENDED then OwingWake else Away])
    case FutexWake(u, failed) =>
      if Someone(s, Sleeping) then s.(phases := s.phases[u := Retry(failed)][t := Away])
      else s.(phases := s.phases[t := Away])
  }

  function Initial(threads: nat): State {
    State(UNLOCKED, seq(threads, _ => Away))
  }

  predicate AtMostOneOwner(s: State) {
    forall i, j | 0 <= i < |s.phases| && 0 <= j < |s.phases| ::
      s.phases[i] == Owning && s.phases[j] == Owning ==> i == j
  }

  /** A sleeper is never forgotten: the word will make the owner wake somebody, or an
      unlocker already owes that wake, or an awake contender is about to mark the word. */
  predicate SleepersCovered(s: State) {
    Someone(s, Sleeping) ==>
      || s.word == CONTENDED
      || Someone(s, OwingWake)
      || Someone(s, Swapping)
      || Someone(s, BackingOff)
  }

  predicate Safe(s: State) {
    && s.word in {UNLOCKED, LOCKED, CONTENDED}
    && AtMostOneOwner(s)
    && (s.word == UNLOCKED <==> !Someone(s, Owning))
    && SleepersCovered(s)
  }

  /** A thread at phase `p` other than those whose phase the step rewrites is still there. */
  lemma {:induction false} StillThere(s: State, t: nat, a: Action, p: Phase, i: nat)
    requires Enabled(s, t, a)
    requires i < |s.phases| && s.phases[i] == p && i != t
    requires a.FutexWake? ==> p != Sleeping
    ensures Someone(Apply(s, t, a), p)
  {
    assert Apply(s, t, a).phases[i] == p;
  }

  lemma {:induction false} StepKeepsOwnership(s: State, t: nat, a: Action)
    requires Safe(s) && Enabled(s, t, a)
    ensures var s' := Apply(s, t, a);
      && s'.word in {UNLOCKED, LOCKED, CONTENDED}
      && AtMostOneOwner(s')
      && (s'.word == UNLOCKED <==> !Someone(s', Owning))
  {
    var s' := Apply(s, t, a);
    if s'.phases[t] == Owning {
      assert Someone(s', Owning);
    } else if i :| 0 <= i < |s.phases| && s.phases[i] == Owning {
      assert Someone(s, Owning);
      if i != t {
        StillThere(s, t, a, Owning, i);
      }
    }
  }

  lemma {:induction false} StepKeepsSleepersCovered(s: State, t: nat, a: Action)
    requires Safe(s) && Enabled(s, t, a)
    ensures SleepersCovered(Apply(s, t, a))
  {
    var s' := Apply(s, t, a);
    if Someone(s', Sleeping) && s'.word != CONTENDED {
      assert s'.phases[t] != Sleeping;
      var i :| 0 <= i < |s'.phases| && s'.phases[i] == Sleeping;
      assert s.phases[i] == Sleeping;
      assert Someone(s, Sleeping);
      if a.FutexWake? {
        assert s'.phases[a.target] == Retry(a.failed);
      } else if a.UnlockSwap? && s.word == CONTENDED {
        assert s'.phases[t] == OwingWake;
      } else if s'.phases[t] in {Swapping, BackingOff} {
        assert Someone(s', s'.phases[t]);
      } else {
        var p, k := Witness(s);
        StillThere(s, t, a, p, k);
      }
    }
  }

  lemma {:induction false} Witness(s: State) returns (p: Phase, k: nat)
    requires SleepersCovered(s) && Someone(s, Sleeping) && s.word != CONTENDED
    ensures p in {OwingWake, Swapping, BackingOff} && k < |s.phases| && s.phases[k] == p
  {
    p := if Someone(s, OwingWake) then OwingWake else if Someone(s, Swapping) then Swapping else BackingOff;
    k :| 0 <= k < |s.phases| && s.phases[k] == p;
  }

  type Schedule = seq<(nat, Action)>

  predicate Valid(s: State, run: Schedule)
    decreases |run|
  {
    run == [] || (Enabled(s, run[0].0, run[0].1) && Valid(Apply(s, run[0].0, run[0].1), run[1..]))
  }

  function After(s: State, run: Schedule): State
    requires Valid(s, run)
    decreases |run|
  {
    if run == [] then s else After(Apply(s, run[0].0, run[0].1), run[1..])
  }

  lemma {:induction false} SafetyIsKept(s: State, run: Schedule)
    requires Safe(s) && Valid(s, run)
    ensures Safe(After(s, run)) && |After(s, run).phases| == |s.phases|
    decreases |run|
  {
    if run != [] {
      StepKeepsOwnership(s, run[0].0, run[0].1);
      StepKeepsSleepersCovered(s, run[0].0, run[0].1);
      SafetyIsKept(Apply(s, run[0].0, run[0].1), run[1..]);
    }
  }

  /** Safety over every interleaving of every number of threads, spurious returns
      included. */
  lemma {:induction false} EveryReachableStateIsSafe(threads: nat, run: Schedule)
    requires Valid(Initial(threads), run)
    ensures var s := After(Initial(threads), run);
      && |s.phases| == threads
      && AtMostOneOwner(s)
      && (s.word == UNLOCKED <==> !Someone(s, Owning))
      && (Someone(s, Sleeping) ==>
            || s.word == CONTENDED
            || Someone(s, OwingWake) || Someone(s, Swapping) || Someone(s, BackingOff))
  {
    SafetyIsKept(Initial(threads), run);
  }
}
