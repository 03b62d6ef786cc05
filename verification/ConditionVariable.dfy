/** The sequence-counter condition variable of `RawConditionVariable`, layered on the
    futex lock: a wait loads the sequence, unlocks, sleeps if the sequence is still the
    one it loaded, and locks again; a signal increments the sequence and wakes one. */
module ConditionVariable {
  import opened FutexMutex

  const WORD_SIZE := 0x1_0000_0000

  /** Where a thread stands in `wait` or `signal`.  `at` is the number of signals ever
      sent when `wait` loaded the sequence, of which the program sees the low 32 bits. */
  datatype Waiting =
    | NotWaiting
    | Loaded(at: nat)      // still holds the lock
    | Releasing(at: nat)   // unlocking, then about to call FutexWait
    | Parked               // queued inside FutexWait on the sequence
    | Relocking            // FutexWait returned, inside the closing `lock`
    | Signalling           // incremented the sequence, about to call FutexWake

  datatype Cond = Cond(lock: State, signals: nat, waits: seq<Waiting>)

  datatype Act =
    | OnLock(a: Action)
    | LoadSequence
    | SleepOnSequence
    | ReturnEarly          // FutexWait on the sequence returns without a wake
    | Increment
    | WakeOne(target: nat)

  predicate SameWord(at: nat, signals: nat) {
    at % WORD_SIZE == signals % WORD_SIZE
  }

  predicate AnyParked(s: Cond) {
    exists i :: 0 <= i < |s.waits| && s.waits[i] == Parked
  }

  /** Which steps on the lock each stage of `wait` performs. */
  predicate LockStepFits(w: Waiting, a: Action) {
    match w
    case NotWaiting => true
    case Loaded(_) => a.UnlockSwap?
    case Releasing(_) => a.FutexWake?
    case Parked => false
    case Relocking => !a.UnlockSwap? && !a.FutexWake?
    case Signalling => false
  }

  predicate CanAct(s: Cond, t: nat, act: Act) {
    && t < |s.waits| == |s.lock.phases|
    && match act
       case OnLock(a) => Enabled(s.lock, t, a) && LockStepFits(s.waits[t], a)
       case LoadSequence => s.waits[t] == NotWaiting && s.lock.phases[t] == Owning
       case SleepOnSequence => s.waits[t].Releasing? && s.lock.phases[t] == Away
       case ReturnEarly => s.waits[t] == Parked || (s.waits[t].Releasing? && s.lock.phases[t] == Away)
       case Increment => s.waits[t] == NotWaiting && s.lock.phases[t] in {Away, Owning}
       case WakeOne(u) =>
         && s.waits[t] == Signalling
         && (AnyParked(s) ==> u < |s.waits| && s.waits[u] == Parked)
  }

  /** The stage after a step on the lock; `wait` returns once it owns the lock again. */
  function AfterLockStep(w: Waiting, p: Phase): Waiting {
    match w
    case Loaded(at) => Releasing(at)
    case Relocking => if p == Owning then NotWaiting else Relocking
    case _ => w
  }

  function Do(s: Cond, t: nat, act: Act): Cond
    requires CanAct(s, t, act)
  {
    match act
    case OnLock(a) =>
      var lock := Apply(s.lock, t, a);
      s.(lock := lock, waits := s.waits[t := AfterLockStep(s.waits[t], lock.phases[t])])
    case LoadSequence => s.(waits := s.waits[t := Loaded(s.signals)])
    case SleepOnSequence =>
      s.(waits := s.waits[t := if SameWord(s.waits[t].at, s.signals) then Parked else Relocking])
    case ReturnEarly => s.(waits := s.waits[t := Relocking])
    case Increment => s.(signals := s.signals + 1, waits := s.waits[t := Signalling])
    case WakeOne(u) =>
      if AnyParked(s) then s.(waits := s.waits[u := Relocking][t := NotWaiting])
      else s.(waits := s.waits[t := NotWaiting])
  }

  function Fresh(threads: nat): Cond {
    Cond(Initial(threads), 0, seq(threads, _ => NotWaiting))
  }

  // --- the invariant ---------------------------------------------------------

  /** What the lock phase of a thread is at each stage. */
  predicate StageFits(w: Waiting, p: Phase, signals: nat) {
    match w
    case NotWaiting => true
    case Loaded(at) => p == Owning && at <= signals
    case Releasing(at) => p in {Away, OwingWake} && at <= signals
    case Parked => p == Away
    case Relocking => p !in {Owning, OwingWake}
    case Signalling => p in {Away, Owning}
  }

  predicate Invariant(s: Cond) {
    && Safe(s.lock)
    && |s.waits| == |s.lock.phases|
    && forall t :: 0 <= t < |s.waits| ==> StageFits(s.waits[t], s.lock.phases[t], s.signals)
  }

  lemma {:induction false} OthersKeepPhase(s: State, t: nat, a: Action, i: nat)
    requires Enabled(s, t, a) && i < |s.phases| && i != t
    ensures var p := Apply(s, t, a).phases[i];
      p == s.phases[i] || (a.FutexWake? && s.phases[i] == Sleeping && p in {Swapping, BackingOff})
  {
  }

  lemma {:induction false} ActKeepsInvariant(s: Cond, t: nat, act: Act)
    requires Invariant(s) && CanAct(s, t, act)
    ensures Invariant(Do(s, t, act))
  {
    var s' := Do(s, t, act);
    if act.OnLock? {
      StepKeepsOwnership(s.lock, t, act.a);
      StepKeepsSleepersCovered(s.lock, t, act.a);
    }
    forall i | 0 <= i < |s'.waits|
      ensures StageFits(s'.waits[i], s'.lock.phases[i], s'.signals)
    {
      if act.OnLock? && i != t {
        OthersKeepPhase(s.lock, t, act.a, i);
      }
      assert StageFits(s.waits[i], s.lock.phases[i], s.signals);
    }
  }

  type Acts = seq<(nat, Act)>

  predicate Valid(s: Cond, run: Acts)
    decreases |run|
  {
    run == [] || (CanAct(s, run[0].0, run[0].1) && Valid(Do(s, run[0].0, run[0].1), run[1..]))
  }

  function After(s: Cond, run: Acts): Cond
    requires Valid(s, run)
    decreases |run|
  {
    if run == [] then s else After(Do(s, run[0].0, run[0].1), run[1..])
  }

  lemma {:induction false} InvariantIsKept(s: Cond, run: Acts)
    requires Invariant(s) && Valid(s, run)
    ensures Invariant(After(s, run))
    decreases |run|
  {
    if run != [] {
      ActKeepsInvariant(s, run[0].0, run[0].1);
      InvariantIsKept(Do(s, run[0].0, run[0].1), run[1..]);
    }
  }

  /** Whatever step, of whatever thread, ends a wait in a reachable state: the thread whose
      wait it was owns the lock then, alone. */
  lemma {:induction false} WaitReturnsOwning(threads: nat, run: Acts, t: nat, act: Act, waiter: nat)
    requires Valid(Fresh(threads), run) && CanAct(After(Fresh(threads), run), t, act)
    requires var s := After(Fresh(threads), run);
      waiter < |s.waits| && s.waits[waiter] !in {NotWaiting, Signalling} && Do(s, t, act).waits[waiter] == NotWaiting
    ensures var s := Do(After(Fresh(threads), run), t, act);
      && s.lock.phases[waiter] == Owning
      && s.lock.word != UNLOCKED
      && forall i :: 0 <= i < |s.lock.phases| && s.lock.phases[i] == Owning ==> i == waiter
  {
    InvariantIsKept(Fresh(threads), run);
    ActKeepsInvariant(After(Fresh(threads), run), t, act);
    assert Someone(Do(After(Fresh(threads), run), t, act).lock, Owning);
  }

  // --- delivery of signals ---------------------------------------------------

  /** Asleep, or loaded the current sequence and about to sleep. */
  predicate IsBlocked(s: Cond, t: nat) {
    && t < |s.waits|
    && (s.waits[t] == Parked ||
        ((s.waits[t].Loaded? || s.waits[t].Releasing?) && SameWord(s.waits[t].at, s.signals)))
  }

  function Blocked(s: Cond): set<nat> {
    set t: nat | t < |s.waits| && IsBlocked(s, t)
  }

  /** Fewer than 2^32 signals since each pending wait loaded the sequence. */
  predicate NoWrap(s: Cond) {
    forall i :: 0 <= i < |s.waits| && (s.waits[i].Loaded? || s.waits[i].Releasing?) ==>
                s.signals - s.waits[i].at < WORD_SIZE
  }

  predicate NeverWraps(s: Cond, run: Acts)
    requires Valid(s, run)
    decreases |run|
  {
    && NoWrap(s)
    && (run != [] ==> NeverWraps(Do(s, run[0].0, run[0].1), run[1..]))
  }

  predicate Avoids(run: Acts, t: nat) {
    forall i :: 0 <= i < |run| ==> run[i].0 != t
  }

  /** Between its two steps, a signaller that holds the lock; nobody has loaded the
      sequence since the increment. */
  predicate MidSignal(s: Cond, t: nat) {
    && Invariant(s)
    && t < |s.waits| && s.waits[t] == Signalling && s.lock.phases[t] == Owning
    && forall i :: 0 <= i < |s.waits| && (s.waits[i].Loaded? || s.waits[i].Releasing?) ==>
                   s.waits[i].at < s.signals
  }

  lemma {:induction false} SameWordWithinWrap(at: nat, signals: nat)
    requires at < signals < at + WORD_SIZE
    ensures !SameWord(at, signals)
  {
  }

  /** Mid-signal only threads already asleep are blocked. */
  lemma {:induction false} MidSignalBlocksSleepersOnly(s: Cond, t: nat)
    requires MidSignal(s, t) && NoWrap(s)
    ensures forall i :: i in Blocked(s) <==> 0 <= i < |s.waits| && s.waits[i] == Parked
  {
    forall i: nat | i < |s.waits| && (s.waits[i].Loaded? || s.waits[i].Releasing?)
      ensures !IsBlocked(s, i)
    {
      SameWordWithinWrap(s.waits[i].at, s.signals);
    }
  }

  lemma {:induction false} OtherKeepsMidSignal(s: Cond, t: nat, other: nat, act: Act)
    requires MidSignal(s, t) && NoWrap(s) && CanAct(s, other, act) && other != t
    ensures MidSignal(Do(s, other, act), t)
    ensures forall i :: 0 <= i < |s.waits| && Do(s, other, act).waits[i] == Parked ==> s.waits[i] == Parked
  {
    ActKeepsInvariant(s, other, act);
    if act.OnLock? {
      OthersKeepPhase(s.lock, other, act.a, t);
    }
    if act.SleepOnSequence? {
      SameWordWithinWrap(s.waits[other].at, s.signals);
    }
  }

  lemma {:induction false} OthersKeepMidSignal(s: Cond, t: nat, run: Acts)
    requires MidSignal(s, t) && Valid(s, run) && NeverWraps(s, run) && Avoids(run, t)
    ensures MidSignal(After(s, run), t) && NoWrap(After(s, run))
    ensures Blocked(After(s, run)) <= Blocked(s)
    decreases |run|
  {
    if run != [] {
      var s1 := Do(s, run[0].0, run[0].1);
      OtherKeepsMidSignal(s, t, run[0].0, run[0].1);
      OthersKeepMidSignal(s1, t, run[1..]);
      MidSignalBlocksSleepersOnly(s, t);
      MidSignalBlocksSleepersOnly(s1, t);
    }
  }

  /** Main result.  A thread signals while holding the lock; whatever the other threads
      do between its increment and its wake, the set of blocked waiters has strictly
      shrunk by the end, unless it was empty. */
  lemma {:induction false} SignalReleasesAWaiter(s: Cond, t: nat, others: Acts, u: nat)
    requires Invariant(s) && NoWrap(s) && CanAct(s, t, Increment) && s.lock.phases[t] == Owning
    requires var s1 := Do(s, t, Increment);
      Valid(s1, others) && Avoids(others, t) && NeverWraps(s1, others) &&
      CanAct(After(s1, others), t, WakeOne(u))
    ensures var end := Do(After(Do(s, t, Increment), others), t, WakeOne(u));
      && Invariant(end)
      && end.lock.phases[t] == Owning
      && (if Blocked(s) == {} then Blocked(end) == {} else Blocked(end) < Blocked(s))
  {
    var s1 := Do(s, t, Increment);
    ActKeepsInvariant(s, t, Increment);
    assert MidSignal(s1, t);
    MidSignalBlocksSleepersOnly(s1, t);
    var s2 := After(s1, others);
    OthersKeepMidSignal(s1, t, others);
    MidSignalBlocksSleepersOnly(s2, t);
    ActKeepsInvariant(s2, t, WakeOne(u));
    var end := Do(s2, t, WakeOne(u));
    WakeRemovesASleeper(s2, t, u);
    assert Blocked(s1) <= Blocked(s);
    if Blocked(s2) != {} {
      assert u in Blocked(s2) && u !in Blocked(end);
    } else if b :| b in Blocked(s) {
      assert Blocked(end) == {};
    }
  }

  lemma {:induction false} WakeRemovesASleeper(s: Cond, t: nat, u: nat)
    requires MidSignal(s, t) && NoWrap(s) && CanAct(s, t, WakeOne(u))
    ensures Blocked(Do(s, t, WakeOne(u))) == Blocked(s) - {u}
    ensures Blocked(s) != {} ==> u in Blocked(s)
  {
    MidSignalBlocksSleepersOnly(s, t);
    var s' := Do(s, t, WakeOne(u));
    forall i | i in Blocked(s) ensures AnyParked(s) { assert s.waits[i] == Parked; }
    if AnyParked(s) {
      assert IsBlocked(s, u);
    } else {
      assert Blocked(s) == {};
    }
    forall i: nat | i < |s.waits| ensures i in Blocked(s') <==> i in Blocked(s) - {u} {
      assert s'.signals == s.signals;
    }
  }

  // --- past 2^32 signals -------------------------------------------------------

  lemma {:induction false} SameWordMeansMultiple(at: nat, signals: nat)
    requires at <= signals
    ensures SameWord(at, signals) <==> (signals - at) % WORD_SIZE == 0
  {
    if (signals - at) % WORD_SIZE == 0 {
      var k := (signals - at) / WORD_SIZE;
      assert signals == at + k * WORD_SIZE;
      assert signals % WORD_SIZE == at % WORD_SIZE;
    }
  }

  /** The limit on signals per wait is exact: a pending wait that loaded the sequence
      before some signals still goes to sleep if and only if their number is a multiple
      of 2^32. */
  lemma {:induction false} StaleWaitSleepsExactlyOnWrap(s: Cond, t: nat)
    requires Invariant(s) && CanAct(s, t, SleepOnSequence)
    ensures Do(s, t, SleepOnSequence).waits[t] == Parked <==> (s.signals - s.waits[t].at) % WORD_SIZE == 0
  {
    assert StageFits(s.waits[t], s.lock.phases[t], s.signals);
    SameWordMeansMultiple(s.waits[t].at, s.signals);
  }

  function Signals(run: Acts): nat {
    if run == [] then 0 else (if run[0].1.Increment? then 1 else 0) + Signals(run[1..])
  }

  /** Until it calls FutexWait a wait remembers the sequence it loaded. */
  lemma {:induction false} PendingRemembers(s: Cond, t: nat, at: nat, run: Acts)
    requires Valid(s, run) && t < |s.waits| && s.waits[t] in {Loaded(at), Releasing(at)}
    requires forall i | 0 <= i < |run| && run[i].0 == t :: run[i].1.OnLock?
    ensures var s' := After(s, run);
      && |s'.waits| == |s.waits| && s'.waits[t] in {Loaded(at), Releasing(at)}
      && s'.signals == s.signals + Signals(run)
    decreases |run|
  {
    if run != [] {
      assert forall i | 0 <= i < |run[1..]| :: run[1..][i] == run[i + 1];
      PendingRemembers(Do(s, run[0].0, run[0].1), t, at, run[1..]);
    }
  }

  /** A whole wait, from the load of the sequence to FutexWait, whatever the other threads do
      meanwhile: it goes to sleep exactly when a multiple of 2^32 signals came in between;
      so it does when there was none. */
  lemma {:induction false} WaitSleepsExactlyUnlessSignalled(threads: nat, before: Acts, t: nat, meanwhile: Acts)
    requires Valid(Fresh(threads), before) && CanAct(After(Fresh(threads), before), t, LoadSequence)
    requires Valid(Do(After(Fresh(threads), before), t, LoadSequence), meanwhile)
    requires forall i | 0 <= i < |meanwhile| && meanwhile[i].0 == t :: meanwhile[i].1.OnLock?
    requires CanAct(After(Do(After(Fresh(threads), before), t, LoadSequence), meanwhile), t, SleepOnSequence)
    ensures var s := After(Do(After(Fresh(threads), before), t, LoadSequence), meanwhile);
      Do(s, t, SleepOnSequence).waits[t] == Parked <==> Signals(meanwhile) % WORD_SIZE == 0
  {
    var s := After(Fresh(threads), before);
    InvariantIsKept(Fresh(threads), before);
    ActKeepsInvariant(s, t, LoadSequence);
    var s1 := Do(s, t, LoadSequence);
    InvariantIsKept(s1, meanwhile);
    PendingRemembers(s1, t, s.signals, meanwhile);
    StaleWaitSleepsExactlyOnWrap(After(s1, meanwhile), t);
  }

  /** Has loaded the sequence and not yet called FutexWait. */
  predicate IsPending(s: Cond, i: nat) {
    i < |s.waits| && (s.waits[i].Loaded? || s.waits[i].Releasing?)
  }

  /** A signal blocks a waiter that was not blocked exactly when it completes a multiple of
      2^32 signals since that waiter loaded the sequence. */
  lemma {:induction false} IncrementBlocksExactlyOnWrap(s: Cond, t: nat)
    requires Invariant(s) && CanAct(s, t, Increment)
    ensures forall i :: i in Blocked(Do(s, t, Increment)) - Blocked(s) <==>
                        i >= 0 && IsPending(s, i) && (s.signals + 1 - s.waits[i].at) % WORD_SIZE == 0
  {
    var s' := Do(s, t, Increment);
    forall i: nat
      ensures i in Blocked(s') - Blocked(s) <==>
              IsPending(s, i) && (s.signals + 1 - s.waits[i].at) % WORD_SIZE == 0
    {
      if IsPending(s, i) {
        assert StageFits(s.waits[i], s.lock.phases[i], s.signals);
        SameWordMeansMultiple(s.waits[i].at, s.signals + 1);
        SameWordMeansMultiple(s.waits[i].at, s.signals);
      }
    }
  }

  /** One thread has loaded the sequence and unlocked; `signals` signals have been sent since. */
  function Waiter(signals: nat): Cond {
    Cond(State(UNLOCKED, [Away, Away]), signals, [NotWaiting, Releasing(0)])
  }

  /** The other thread may send any number of signals meanwhile. */
  lemma {:induction false} SignalsPassBy(sent: nat, signals: nat) returns (run: Acts)
    requires sent <= signals
    ensures Valid(Waiter(sent), run) && After(Waiter(sent), run) == Waiter(signals)
    decreases signals - sent
  {
    run := [];
    if sent < signals {
      var rest := SignalsPassBy(sent + 1, signals);
      SignalPassesBy(sent);
      run := [(0, Increment)] + ([(0, WakeOne(0))] + rest);
      Prepend(Do(Waiter(sent), 0, Increment), (0, WakeOne(0)), rest);
      Prepend(Waiter(sent), (0, Increment), [(0, WakeOne(0))] + rest);
    }
  }

  lemma {:induction false} SignalPassesBy(sent: nat)
    ensures CanAct(Waiter(sent), 0, Increment)
    ensures var s := Do(Waiter(sent), 0, Increment);
      CanAct(s, 0, WakeOne(0)) && Do(s, 0, WakeOne(0)) == Waiter(sent + 1)
  {
  }

  lemma {:induction false} Prepend(s: Cond, step: (nat, Act), run: Acts)
    requires CanAct(s, step.0, step.1) && Valid(Do(s, step.0, step.1), run)
    ensures Valid(s, [step] + run) && After(s, [step] + run) == After(Do(s, step.0, step.1), run)
  {
    assert ([step] + run)[1..] == run;
  }

  lemma {:induction false} Append(s: Cond, run: Acts, step: (nat, Act))
    requires Valid(s, run) && CanAct(After(s, run), step.0, step.1)
    ensures Valid(s, run + [step]) && After(s, run + [step]) == Do(After(s, run), step.0, step.1)
    decreases |run|
  {
    if run == [] {
      assert [] + [step] == [step];
      Prepend(s, step, []);
    } else {
      var next := Do(s, run[0].0, run[0].1);
      Append(next, run[1..], step);
      Prepend(s, run[0], run[1..] + [step]);
      assert [run[0]] + (run[1..] + [step]) == run + [step];
    }
  }

  lemma {:induction false} WaiterIsReachable(signals: nat) returns (run: Acts)
    ensures Valid(Fresh(2), run) && After(Fresh(2), run) == Waiter(signals)
  {
    var s0 := Fresh(2);
    assert s0 == Cond(State(UNLOCKED, [Away, Away]), 0, [NotWaiting, NotWaiting]);
    var s1 := Do(s0, 1, OnLock(TryFast));
    var s2 := Do(s1, 1, LoadSequence);
    assert Do(s2, 1, OnLock(UnlockSwap)) == Waiter(0);
    run := SignalsPassBy(0, signals);
    Prepend(s2, (1, OnLock(UnlockSwap)), run);
    run := [(1, OnLock(UnlockSwap))] + run;
    Prepend(s1, (1, LoadSequence), run);
    run := [(1, LoadSequence)] + run;
    Prepend(s0, (1, OnLock(TryFast)), run);
    run := [(1, OnLock(TryFast))] + run;
  }

  /** So past that limit the promise fails.  A run of two threads leads to a state in which
      a signal sent under the lock, with one wait pending, leaves that waiter blocked
      although it was not before. */
  lemma {:induction false} WrapAroundBlocksAgain() returns (run: Acts)
    ensures Valid(Fresh(2), run)
    ensures var s := After(Fresh(2), run);
      && s.signals == WORD_SIZE - 1 && CanAct(s, 0, Increment) && s.lock.phases[0] == Owning
      && 1 !in Blocked(s) && 1 in Blocked(Do(s, 0, Increment))
  {
    var waiting := WaiterIsReachable(WORD_SIZE - 1);
    Append(Fresh(2), waiting, (0, OnLock(TryFast)));
    run := waiting + [(0, OnLock(TryFast))];
    var s := After(Fresh(2), run);
    assert s == Cond(State(LOCKED, [Owning, Away]), WORD_SIZE - 1, [NotWaiting, Releasing(0)]);
    assert IsBlocked(Do(s, 0, Increment), 1);
  }
}
