/** Threads that lock, wait and signal finitely often: without spurious returns every
    schedule ends, and only waiters that nobody has woken are left waiting. */
module ConditionProgress {
  import opened FutexMutex
  import opened ConditionVariable
  import P = MutexProgress
  import opened Sums

  /** What each thread may still do: unlocks, the one inside each wait and the one after it
      included, waits and signals. */
  datatype Program = Program(cond: Cond, rounds: seq<nat>, waitsLeft: seq<nat>, signalsLeft: seq<nat>)

  predicate Shaped(w: Program) {
    |w.cond.lock.phases| == |w.cond.waits| == |w.rounds| == |w.waitsLeft| == |w.signalsLeft|
  }

  function Locking(w: Program): P.Workers { P.Workers(w.cond.lock, w.rounds) }

  predicate CanMove(w: Program, t: nat, act: Act) {
    && Shaped(w) && CanAct(w.cond, t, act)
    && match act
       case OnLock(a) => P.CanStep(Locking(w), t, a)
       case LoadSequence => w.waitsLeft[t] > 0 && w.rounds[t] >= 2
       case SleepOnSequence => true
       case ReturnEarly => false
       case Increment => w.signalsLeft[t] > 0
       case WakeOne(_) => true
  }

  function Less(budget: seq<nat>, t: nat, spent: bool): seq<nat>
    requires t < |budget| && (spent ==> budget[t] > 0)
  {
    if spent then budget[t := budget[t] - 1] else budget
  }

  function Move(w: Program, t: nat, act: Act): Program
    requires CanMove(w, t, act)
  {
    Program(Do(w.cond, t, act),
            Less(w.rounds, t, act.OnLock? && act.a.UnlockSwap?),
            Less(w.waitsLeft, t, act.LoadSequence?),
            Less(w.signalsLeft, t, act.Increment?))
  }

  /** A thread inside a wait can still unlock as often as it will have to. */
  predicate CanFinish(waiting: Waiting, rounds: nat) {
    match waiting
    case NotWaiting => true
    case Loaded(_) => rounds >= 2
    case Signalling => true
    case _ => rounds >= 1
  }

  predicate Steady(w: Program) {
    && Shaped(w) && Invariant(w.cond) && P.Consistent(Locking(w))
    && forall t: nat :: t < |w.rounds| ==> CanFinish(w.cond.waits[t], w.rounds[t])
  }

  /** On the lock alone, a move is a step of the lock or nothing. */
  lemma {:induction false} MoveOnTheLock(w: Program, t: nat, act: Act)
    requires CanMove(w, t, act)
    ensures Locking(Move(w, t, act)) == if act.OnLock? then P.Step(Locking(w), t, act.a) else Locking(w)
  {
  }

  lemma {:induction false} MoveKeepsSteady(w: Program, t: nat, act: Act)
    requires Steady(w) && CanMove(w, t, act)
    ensures Steady(Move(w, t, act))
  {
    var w' := Move(w, t, act);
    MoveOnTheLock(w, t, act);
    ActKeepsInvariant(w.cond, t, act);
    if act.OnLock? {
      P.StepKeepsConsistent(Locking(w), t, act.a);
    }
    forall i: nat | i < |w'.rounds|
      ensures CanFinish(w'.cond.waits[i], w'.rounds[i])
    {
      assert CanFinish(w.cond.waits[i], w.rounds[i]);
    }
  }

  // --- the measure ---------------------------------------------------------------

  /** Two steps a wait takes on the sequence, and two a signal takes. */
  function WorkOf(waiting: Waiting, waitsLeft: nat, signalsLeft: nat): nat {
    (if waiting.Loaded? || waiting.Releasing? || waiting.Signalling? then 1 else 0) + 2 * waitsLeft + 2 * signalsLeft
  }

  function Works(w: Program): (ws: seq<nat>)
    requires Shaped(w)
  {
    seq(|w.rounds|, t requires 0 <= t < |w.rounds| => WorkOf(w.cond.waits[t], w.waitsLeft[t], w.signalsLeft[t]))
  }

  function MovesLeft(w: Program): nat
    requires Shaped(w)
  {
    P.StepsLeft(Locking(w)) + Sum(Works(w))
  }

  /** A step on the lock leaves the other work as it is. */
  lemma {:induction false} LockMoveKeepsWorks(w: Program, t: nat, a: Action)
    requires Steady(w) && CanMove(w, t, OnLock(a))
    ensures Works(Move(w, t, OnLock(a))) == Works(w)
  {
  }

  lemma {:induction false} SequenceMoveLowersWork(w: Program, t: nat, act: Act)
    requires Steady(w) && CanMove(w, t, act) && !act.OnLock?
    ensures Sum(Works(Move(w, t, act))) < Sum(Works(w))
  {
    var ws, ws' := Works(w), Works(Move(w, t, act));
    assert ws' == ws[t := ws'[t]];
    SumOfUpdate(ws, t, ws'[t]);
  }

  lemma {:induction false} LockMoveLowersMeasure(w: Program, t: nat, a: Action)
    requires Steady(w) && CanMove(w, t, OnLock(a))
    ensures P.StepsLeft(Locking(Move(w, t, OnLock(a)))) < P.StepsLeft(Locking(w))
  {
    MoveOnTheLock(w, t, OnLock(a));
    P.StepLowersMeasure(Locking(w), t, a);
  }

  lemma {:induction false} MoveLowersMeasure(w: Program, t: nat, act: Act)
    requires Steady(w) && CanMove(w, t, act)
    ensures Shaped(Move(w, t, act)) && MovesLeft(Move(w, t, act)) < MovesLeft(w)
  {
    if act.OnLock? {
      LockMoveLowersMeasure(w, t, act.a);
      LockMoveKeepsWorks(w, t, act.a);
    } else {
      MoveOnTheLock(w, t, act);
      SequenceMoveLowersWork(w, t, act);
    }
  }

  // --- where a schedule can end ---------------------------------------------------

  /** Asleep in a wait that no signal has ended, or done with everything. */
  predicate AtRest(w: Program, t: nat)
    requires Shaped(w) && t < |w.rounds|
  {
    || w.cond.waits[t] == Parked
    || (&& w.cond.waits[t] == NotWaiting && w.cond.lock.phases[t] == Away
        && w.rounds[t] == 0 && w.signalsLeft[t] == 0)
  }

  predicate Settled(w: Program)
    requires Shaped(w)
  {
    forall t: nat :: t < |w.rounds| ==> AtRest(w, t)
  }

  /** A thread that is awake on the lock and not at rest can move. */
  lemma {:induction false} AwakeThreadCanMove(w: Program, t: nat) returns (act: Act)
    requires Steady(w) && t < |w.rounds| && !AtRest(w, t) && w.cond.lock.phases[t] != Sleeping
    ensures CanMove(w, t, act)
  {
    var waiting, phase := w.cond.waits[t], w.cond.lock.phases[t];
    assert StageFits(waiting, phase, w.cond.signals) && CanFinish(waiting, w.rounds[t]);
    if waiting == Signalling {
      var u: nat := 0;
      if AnyParked(w.cond) {
        u :| u < |w.cond.waits| && w.cond.waits[u] == Parked;
      }
      act := WakeOne(u);
    } else if waiting.Releasing? && phase == Away {
      act := SleepOnSequence;
    } else if phase == Away && w.rounds[t] == 0 {
      act := Increment;
    } else {
      var a := P.AwakeThreadCanStep(Locking(w), t);
      act := OnLock(a);
    }
  }

  /** While anybody is not at rest, somebody can move. */
  lemma {:induction false} SomebodyCanMove(w: Program) returns (t: nat, act: Act)
    requires Steady(w) && !Settled(w)
    ensures CanMove(w, t, act)
  {
    t :| t < |w.rounds| && !AtRest(w, t);
    if w.cond.lock.phases[t] == Sleeping {
      t := SomebodyAwake(w, t);
    }
    act := AwakeThreadCanMove(w, t);
  }

  lemma {:induction false} SomebodyAwake(w: Program, sleeper: nat) returns (t: nat)
    requires Steady(w) && sleeper < |w.rounds| && w.cond.lock.phases[sleeper] == Sleeping
    ensures t < |w.rounds| && !AtRest(w, t) && w.cond.lock.phases[t] != Sleeping
  {
    assert Someone(w.cond.lock, Sleeping);
    if w.cond.lock.word == CONTENDED {
      t :| t < |w.rounds| && w.cond.lock.phases[t] == Owning;
    } else {
      var p, k := Witness(w.cond.lock);
      t := k;
    }
    assert StageFits(w.cond.waits[t], w.cond.lock.phases[t], w.cond.signals);
  }

  ghost predicate Stuck(w: Program) {
    forall t: nat, act: Act :: !CanMove(w, t, act)
  }

  lemma {:induction false} StuckExactlyWhenSettled(w: Program)
    requires Steady(w)
    ensures Stuck(w) <==> Settled(w)
    ensures Settled(w) ==> forall t: nat :: t < |w.rounds| ==> w.cond.waits[t] != Relocking
  {
    if !Settled(w) {
      var t, act := SomebodyCanMove(w);
    } else {
      forall t: nat, act: Act
        ensures !CanMove(w, t, act)
      {
        if t < |w.rounds| {
          AtRestCannotMove(w, t, act);
        }
      }
      forall t: nat | t < |w.rounds|
        ensures w.cond.waits[t] != Relocking
      {
        assert AtRest(w, t);
      }
    }
  }

  lemma {:induction false} AtRestCannotMove(w: Program, t: nat, act: Act)
    requires Steady(w) && t < |w.rounds| && AtRest(w, t)
    ensures !CanMove(w, t, act)
  {
    assert StageFits(w.cond.waits[t], w.cond.lock.phases[t], w.cond.signals);
  }

  // --- whole schedules --------------------------------------------------------------

  predicate Runs(w: Program, run: Acts)
    decreases |run|
  {
    run == [] || (CanMove(w, run[0].0, run[0].1) && Runs(Move(w, run[0].0, run[0].1), run[1..]))
  }

  function End(w: Program, run: Acts): Program
    requires Runs(w, run)
    decreases |run|
  {
    if run == [] then w else End(Move(w, run[0].0, run[0].1), run[1..])
  }

  lemma {:induction false} ScheduleSpendsMeasure(w: Program, run: Acts)
    requires Steady(w) && Runs(w, run)
    ensures Steady(End(w, run)) && |End(w, run).rounds| == |w.rounds|
    ensures |run| + MovesLeft(End(w, run)) <= MovesLeft(w)
    decreases |run|
  {
    if run != [] {
      MoveKeepsSteady(w, run[0].0, run[0].1);
      MoveLowersMeasure(w, run[0].0, run[0].1);
      ScheduleSpendsMeasure(Move(w, run[0].0, run[0].1), run[1..]);
    }
  }

  function Start(rounds: seq<nat>, waits: seq<nat>, signals: seq<nat>): Program {
    Program(Fresh(|rounds|), rounds, waits, signals)
  }

  lemma {:induction false} StartWork(waits: seq<nat>, signals: seq<nat>, ws: seq<nat>)
    requires |ws| == |waits| == |signals|
    requires forall t :: 0 <= t < |ws| ==> ws[t] == 2 * waits[t] + 2 * signals[t]
    ensures Sum(ws) == 2 * Sum(waits) + 2 * Sum(signals)
  {
    if ws != [] {
      StartWork(waits[1..], signals[1..], ws[1..]);
    }
  }

  lemma {:induction false} StartIsSteady(rounds: seq<nat>, waits: seq<nat>, signals: seq<nat>)
    requires |rounds| == |waits| == |signals|
    ensures Steady(Start(rounds, waits, signals))
  {
  }

  function Bound(rounds: seq<nat>, waits: seq<nat>, signals: seq<nat>): nat {
    Sum(rounds) * P.UnlockCost(|rounds|) + 6 * |rounds| + 2 * Sum(waits) + 2 * Sum(signals)
  }

  lemma {:induction false} StartIsBounded(rounds: seq<nat>, waits: seq<nat>, signals: seq<nat>)
    requires |rounds| == |waits| == |signals|
    ensures Shaped(Start(rounds, waits, signals))
    ensures MovesLeft(Start(rounds, waits, signals)) <= Bound(rounds, waits, signals)
  {
    var w := Start(rounds, waits, signals);
    P.StartMeasure(rounds, P.UnlockCost(|rounds|), P.Weights(Locking(w)));
    StartWork(waits, signals, Works(w));
  }

  /** Main result.  Any number of threads with any numbers of unlocks, waits and signals,
      any schedule without spurious returns: its length is bounded, and it can be extended
      until every thread is at rest.  So a waiter that was woken always returns from its
      wait: in the end nobody is on the way back. */
  lemma {:induction false} EveryScheduleSettles(rounds: seq<nat>, waits: seq<nat>, signals: seq<nat>, run: Acts)
    requires |rounds| == |waits| == |signals| && Runs(Start(rounds, waits, signals), run)
    ensures |run| <= Bound(rounds, waits, signals)
    ensures var w := End(Start(rounds, waits, signals), run);
      && Shaped(w) && |w.rounds| == |rounds|
      && (Stuck(w) <==> Settled(w))
      && (Settled(w) ==> forall t: nat :: t < |w.rounds| ==> w.cond.waits[t] != Relocking)
  {
    var start := Start(rounds, waits, signals);
    StartIsSteady(rounds, waits, signals);
    StartIsBounded(rounds, waits, signals);
    ScheduleSpendsMeasure(start, run);
    StuckExactlyWhenSettled(End(start, run));
  }
}
