/** What each operation of the lifecycle has done by the time it returns: not only is every
    call into the core safe, the calls that are due are made, once. */
module LifecycleCalls {
  import opened Options
  import opened Lifecycle

  /** What a step of a thread can be seen to do. */
  datatype Event =
    | Wakes                      // calls the frame queue's wake
    | WakesRequested(c: nat)     // ... when the stop of the connection has been requested
    | Sends                      // hands an input packet to the core
    | TakesGate
    | TakesGateActive(c: nat)    // ... while the connection is active
    | TakesGateRegistered        // ... while some connection is registered
    | TakesLock
    | TakesLockActive(c: nat)
    | Claims                     // sets CONNECTION_ACTIVE
    | FindsClaimed               // finds CONNECTION_ACTIVE set
    | CallsStart
    | Starts                     // the core's start succeeds
    | Opens                      // returns a handle of an active, registered connection
    | StopsCore
    | Frees                      // clears CONNECTION_ACTIVE

  predicate GateTaken(s: State, t: nat, s': State) { s.gate != Some(t) && s'.gate == Some(t) }

  predicate LockTaken(s: State, t: nat, s': State) { s.coreLock != Some(t) && s'.coreLock == Some(t) }

  predicate IsActive(s: State, c: nat) { c < |s.conns| && s.conns[c].active }

  predicate HandedOut(s: State, t: nat, s': State)
    requires t < |s.pcs|
  {
    && s.pcs[t].StartReturn? && !HasHandle(s, s.pcs[t].c) && HasHandle(s', s.pcs[t].c)
    && IsActive(s', s.pcs[t].c) && s'.registered == Some(s.pcs[t].c)
  }

  predicate Does(s: State, t: nat, a: Action, e: Event)
    requires Enabled(s, t, a)
  {
    var p, s' := s.pcs[t], Apply(s, t, a);
    match e
    case Wakes => p.RequestWake? || p == CallbackWake
    case WakesRequested(c) => (p.RequestWake? || p == CallbackWake) && c < |s.conns| && s.conns[c].stopRequested
    case Sends => p.SendCall?
    case TakesGate => GateTaken(s, t, s')
    case TakesGateActive(c) => GateTaken(s, t, s') && IsActive(s, c)
    case TakesGateRegistered => GateTaken(s, t, s') && s.registered.Some?
    case TakesLock => LockTaken(s, t, s')
    case TakesLockActive(c) => LockTaken(s, t, s') && IsActive(s, c)
    case Claims => !s.connectionActive && s'.connectionActive
    case FindsClaimed => p == StartCas && s.connectionActive
    case CallsStart => p == StartCore
    case Starts => p == StartCore && a == Advance(true)
    case Opens => HandedOut(s, t, s')
    case StopsCore => p.StopJoin?
    case Frees => s.connectionActive && !s'.connectionActive
  }

  type Events = iset<Event>

  ghost function Seen(s: State, t: nat, a: Action): Events
    requires Enabled(s, t, a)
  {
    iset e: Event | Does(s, t, a, e)
  }

  /** What the thread's steps in the run do, one after the other. */
  ghost function Trace(s: State, run: Schedule, t: nat): seq<Events>
    requires Valid(s, run)
    decreases |run|
  {
    if run == [] then []
    else
      var rest := Trace(Apply(s, run[0].0, run[0].1), run[1..], t);
      if run[0].0 == t then [Seen(s, t, run[0].1)] + rest else rest
  }

  ghost function Count(trace: seq<Events>, e: Event): nat {
    if trace == [] then 0 else (if e in trace[0] then 1 else 0) + Count(trace[1..], e)
  }

  lemma {:induction false} CountOneMore(seen: Events, rest: seq<Events>, e: Event)
    ensures Count([seen] + rest, e) == (if e in seen then 1 else 0) + Count(rest, e)
  {
    assert ([seen] + rest)[1..] == rest;
  }

  /** In the run the thread begins nothing, and is idle at the end. */
  ghost predicate Returns(s: State, run: Schedule, t: nat) {
    && Valid(s, run) && t < |s.pcs|
    && (forall i | 0 <= i < |run| && run[i].0 == t :: run[i].1.Advance?)
    && t < |After(s, run).pcs| && After(s, run).pcs[t] == Idle
  }

  /** The run is one whole operation of the thread, with whatever the others do meanwhile. */
  ghost predicate Executes(s: State, run: Schedule, t: nat, op: Op) {
    && Valid(s, run) && run != [] && run[0] == (t, Begin(op))
    && Returns(Apply(s, t, Begin(op)), run[1..], t)
  }

  // --- one step of a run -----------------------------------------------------------

  lemma {:induction false} ReturnsFurther(s: State, run: Schedule, t: nat)
    requires Invariant(s) && Returns(s, run, t) && run != []
    ensures var (u, a) := run[0];
      && Enabled(s, u, a) && Invariant(Apply(s, u, a)) && Returns(Apply(s, u, a), run[1..], t)
      && After(Apply(s, u, a), run[1..]) == After(s, run)
      && (u == t ==> a.Advance? && s.pcs[t] != Idle)
      && Trace(s, run, t) ==
         (if u == t then [Seen(s, t, a)] else []) + Trace(Apply(s, u, a), run[1..], t)
  {
    StepKeepsInvariant(s, run[0].0, run[0].1);
    assert forall i | 0 <= i < |run[1..]| :: run[1..][i] == run[i + 1];
  }

  lemma {:induction false} OthersLeave(s: State, t: nat, u: nat, a: Action)
    requires Invariant(s) && Enabled(s, u, a) && t < |s.pcs| && t != u
    ensures var s' := Apply(s, u, a);
      && t < |s'.pcs| && s'.pcs[t] == s.pcs[t] && |s'.conns| >= |s.conns|
      && (HoldsGate(s.pcs[t]) ==>
            s'.registered == s.registered && forall c: nat | c < |s.conns| :: s'.conns[c].active == s.conns[c].active)
      && (HoldsCoreLock(s.pcs[t]) ==> forall c: nat | c < |s.conns| :: s'.conns[c].active == s.conns[c].active)
  {
    StepIsFramed(s, u, a);
    Facts(s, t);
    Facts(s, u);
  }

  /** A stop once requested stays requested. */
  lemma {:induction false} RequestStays(s: State, u: nat, a: Action, c: nat)
    requires Enabled(s, u, a) && c < |s.conns| && s.conns[c].stopRequested
    ensures c < |Apply(s, u, a).conns| && Apply(s, u, a).conns[c].stopRequested
  {
  }

  /** A stopped connection stays stopped. */
  lemma {:induction false} StoppedStays(s: State, u: nat, a: Action, c: nat)
    requires Invariant(s) && Enabled(s, u, a) && c < |s.conns| && s.conns[c].life == Stopped
    ensures c < |Apply(s, u, a).conns| && Apply(s, u, a).conns[c].life == Stopped
  {
    StepIsFramed(s, u, a);
    Facts(s, u);
  }

  /** How an operation begins: nothing is seen of it yet. */
  lemma {:induction false} BeginsIn(s: State, run: Schedule, t: nat, op: Op)
    requires Executes(s, run, t, op)
    ensures CanBegin(s, op) && Apply(s, t, Begin(op)) == s.(pcs := s.pcs[t := Enter(op)])
    ensures After(Apply(s, t, Begin(op)), run[1..]) == After(s, run)
    ensures Trace(s, run, t) == [Seen(s, t, Begin(op))] + Trace(Apply(s, t, Begin(op)), run[1..], t)
  {
  }

  lemma {:induction false} BeginIsSilent(s: State, t: nat, op: Op, e: Event)
    requires Enabled(s, t, Begin(op))
    ensures e !in Seen(s, t, Begin(op))
  {
  }

  lemma {:induction false} Begins(threads: nat, before: Schedule, run: Schedule, t: nat, op: Op)
    requires Valid(Initial(threads), before) && Executes(After(Initial(threads), before), run, t, op)
    ensures var s := After(Initial(threads), before);
      var s1 := Apply(s, t, Begin(op));
      && Invariant(s1) && Returns(s1, run[1..], t) && After(s1, run[1..]) == After(s, run)
      && CanBegin(s, op) && s1 == s.(pcs := s.pcs[t := Enter(op)])
      && forall e :: Count(Trace(s, run, t), e) == Count(Trace(s1, run[1..], t), e)
  {
    var s := After(Initial(threads), before);
    InvariantIsKept(Initial(threads), before);
    StepKeepsInvariant(s, t, Begin(op));
    BeginsIn(s, run, t, op);
    forall e: Event { BeginIsSilent(s, t, op, e); }
    CountsFrom(Trace(s, run, t), Seen(s, t, Begin(op)), Trace(Apply(s, t, Begin(op)), run[1..], t));
  }

  lemma {:induction false} CountsFrom(trace: seq<Events>, seen: Events, rest: seq<Events>)
    requires trace == [seen] + rest && forall e :: e !in seen
    ensures forall e :: Count(trace, e) == Count(rest, e)
  {
    forall e { CountOneMore(seen, rest, e); }
  }

  // --- request_stop ------------------------------------------------------------------

  /** The thread is inside a request for `c`, past its first step only once that is done. */
  predicate AtRequest(s: State, t: nat, c: nat) {
    && t < |s.pcs| && c < |s.conns|
    && s.pcs[t] in {Idle, RequestFlag(c), RequestGate(c), RequestCheck(c), RequestWake(c), RequestOpenGate(c)}
    && (s.pcs[t] != RequestFlag(c) ==> s.conns[c].stopRequested)
  }

  lemma {:induction false} StaysAtRequest(s: State, t: nat, c: nat, u: nat, a: Action)
    requires Invariant(s) && Enabled(s, u, a) && AtRequest(s, t, c) && (u == t ==> a.Advance?)
    ensures AtRequest(Apply(s, u, a), t, c)
    ensures u != t && HoldsGate(s.pcs[t]) ==> IsActive(Apply(s, u, a), c) == IsActive(s, c)
  {
    if s.conns[c].stopRequested { RequestStays(s, u, a, c); }
    if u != t { OthersLeave(s, t, u, a); }
  }

  /** What a step of a request does, and where it goes. */
  ghost predicate RequestMoves(p: Pc, active: bool, seen: Events, p': Pc, active': bool, c: nat) {
    && (Wakes in seen <==> p == RequestWake(c))
    && (WakesRequested(c) in seen <==> p == RequestWake(c))
    && (TakesGate in seen <==> p == RequestGate(c))
    && (TakesGateActive(c) in seen <==> p == RequestGate(c) && active)
    && TakesLock !in seen && Sends !in seen
    && active' == active
    && p' == match p
             case RequestFlag(_) => RequestGate(c)
             case RequestGate(_) => RequestCheck(c)
             case RequestCheck(_) => if active then RequestWake(c) else RequestOpenGate(c)
             case RequestWake(_) => RequestOpenGate(c)
             case _ => Idle
  }

  lemma {:induction false} ARequestMoves(s: State, t: nat, a: Action, c: nat)
    requires Enabled(s, t, a) && a.Advance? && Holding(s, t) && AtRequest(s, t, c)
    ensures var s' := Apply(s, t, a);
      RequestMoves(s.pcs[t], IsActive(s, c), Seen(s, t, a), s'.pcs[t], IsActive(s', c), c)
  {
  }

  /** What a request at `p` has still to do. */
  ghost predicate RequestOwes(p: Pc, active: bool, trace: seq<Events>, c: nat) {
    var wakes, gates, activeGates := Count(trace, Wakes), Count(trace, TakesGate), Count(trace, TakesGateActive(c));
    && Count(trace, TakesLock) == 0 && Count(trace, Sends) == 0 && Count(trace, WakesRequested(c)) == wakes
    && match p
       case RequestFlag(_) => gates == 1 && wakes == activeGates
       case RequestGate(_) => gates == 1 && wakes == activeGates
       case RequestCheck(_) => gates == 0 && activeGates == 0 && wakes == if active then 1 else 0
       case RequestWake(_) => gates == 0 && activeGates == 0 && wakes == 1
       case _ => gates == 0 && activeGates == 0 && wakes == 0
  }

  lemma {:induction false} RequestPays(p: Pc, active: bool, seen: Events, p': Pc, active': bool, rest: seq<Events>,
                                       c: nat)
    requires RequestMoves(p, active, seen, p', active', c) && RequestOwes(p', active', rest, c)
    requires p in {RequestFlag(c), RequestGate(c), RequestCheck(c), RequestWake(c), RequestOpenGate(c)}
    ensures RequestOwes(p, active, [seen] + rest, c)
  {
    forall e { CountOneMore(seen, rest, e); }
  }

  lemma {:induction false} RequestFrom(s: State, run: Schedule, t: nat, c: nat)
    requires Invariant(s) && Returns(s, run, t) && AtRequest(s, t, c)
    ensures RequestOwes(s.pcs[t], IsActive(s, c), Trace(s, run, t), c)
    ensures c < |After(s, run).conns| && After(s, run).conns[c].stopRequested
    decreases |run|
  {
    if run != [] {
      var (u, a) := run[0];
      var s', rest := Apply(s, u, a), run[1..];
      ReturnsFurther(s, run, t);
      StaysAtRequest(s, t, c, u, a);
      RequestFrom(s', rest, t, c);
      if u == t {
        Facts(s, t);
        ARequestMoves(s, t, a, c);
        RequestPays(s.pcs[t], IsActive(s, c), Seen(s, t, a), s'.pcs[t], IsActive(s', c), Trace(s', rest, t), c);
      }
    }
  }

  /** A stop request takes the gate once; it wakes the frame queue once if its connection is
      active then, and not at all otherwise.  The stop has been requested by then, and is so
      when it returns. */
  lemma {:induction false} EveryRequestWakes(threads: nat, before: Schedule, run: Schedule, t: nat, c: nat)
    requires Valid(Initial(threads), before) && Executes(After(Initial(threads), before), run, t, Request(c))
    ensures var s := After(Initial(threads), before);
      var trace := Trace(s, run, t);
      && Count(trace, TakesGate) == 1
      && Count(trace, Wakes) == Count(trace, TakesGateActive(c)) == Count(trace, WakesRequested(c))
      && Count(trace, TakesLock) == 0 && Count(trace, Sends) == 0
      && c < |After(s, run).conns| && After(s, run).conns[c].stopRequested
  {
    Begins(threads, before, run, t, Request(c));
    RequestFrom(Apply(After(Initial(threads), before), t, Begin(Request(c))), run[1..], t, c);
  }

  // --- input sends -------------------------------------------------------------------

  predicate AtSend(s: State, t: nat, c: nat) {
    t < |s.pcs| && c < |s.conns| && s.pcs[t] in {Idle, SendLock(c), SendCheck(c), SendCall(c), SendUnlock(c)}
  }

  lemma {:induction false} StaysAtSend(s: State, t: nat, c: nat, u: nat, a: Action)
    requires Invariant(s) && Enabled(s, u, a) && AtSend(s, t, c) && (u == t ==> a.Advance?)
    ensures AtSend(Apply(s, u, a), t, c)
    ensures u != t && HoldsCoreLock(s.pcs[t]) ==> IsActive(Apply(s, u, a), c) == IsActive(s, c)
  {
    if u != t { OthersLeave(s, t, u, a); }
  }

  ghost predicate SendMoves(p: Pc, active: bool, seen: Events, p': Pc, active': bool, c: nat) {
    && (Sends in seen <==> p == SendCall(c))
    && (TakesLock in seen <==> p == SendLock(c))
    && (TakesLockActive(c) in seen <==> p == SendLock(c) && active)
    && TakesGate !in seen && Wakes !in seen
    && active' == active
    && p' == match p
             case SendLock(_) => SendCheck(c)
             case SendCheck(_) => if active then SendCall(c) else SendUnlock(c)
             case SendCall(_) => SendUnlock(c)
             case _ => Idle
  }

  lemma {:induction false} ASendMoves(s: State, t: nat, a: Action, c: nat)
    requires Enabled(s, t, a) && a.Advance? && Holding(s, t) && AtSend(s, t, c)
    ensures var s' := Apply(s, t, a);
      SendMoves(s.pcs[t], IsActive(s, c), Seen(s, t, a), s'.pcs[t], IsActive(s', c), c)
  {
  }

  ghost predicate SendOwes(p: Pc, active: bool, trace: seq<Events>, c: nat) {
    var sends, locks, activeLocks := Count(trace, Sends), Count(trace, TakesLock), Count(trace, TakesLockActive(c));
    && Count(trace, TakesGate) == 0 && Count(trace, Wakes) == 0
    && match p
       case SendLock(_) => locks == 1 && sends == activeLocks
       case SendCheck(_) => locks == 0 && activeLocks == 0 && sends == if active then 1 else 0
       case SendCall(_) => locks == 0 && activeLocks == 0 && sends == 1
       case _ => locks == 0 && activeLocks == 0 && sends == 0
  }

  lemma {:induction false} SendPays(p: Pc, active: bool, seen: Events, p': Pc, active': bool, rest: seq<Events>,
                                    c: nat)
    requires SendMoves(p, active, seen, p', active', c) && SendOwes(p', active', rest, c)
    requires p in {SendLock(c), SendCheck(c), SendCall(c), SendUnlock(c)}
    ensures SendOwes(p, active, [seen] + rest, c)
  {
    forall e { CountOneMore(seen, rest, e); }
  }

  lemma {:induction false} SendFrom(s: State, run: Schedule, t: nat, c: nat)
    requires Invariant(s) && Returns(s, run, t) && AtSend(s, t, c)
    ensures SendOwes(s.pcs[t], IsActive(s, c), Trace(s, run, t), c)
    decreases |run|
  {
    if run != [] {
      var (u, a) := run[0];
      var s', rest := Apply(s, u, a), run[1..];
      ReturnsFurther(s, run, t);
      StaysAtSend(s, t, c, u, a);
      SendFrom(s', rest, t, c);
      if u == t {
        Facts(s, t);
        ASendMoves(s, t, a, c);
        SendPays(s.pcs[t], IsActive(s, c), Seen(s, t, a), s'.pcs[t], IsActive(s', c), Trace(s', rest, t), c);
      }
    }
  }

  /** A send takes the core lock once, and calls the core once if its connection is active
      then, not at all otherwise. */
  lemma {:induction false} EverySendCalls(threads: nat, before: Schedule, run: Schedule, t: nat, c: nat)
    requires Valid(Initial(threads), before) && Executes(After(Initial(threads), before), run, t, Send(c))
    ensures var trace := Trace(After(Initial(threads), before), run, t);
      && Count(trace, TakesLock) == 1
      && Count(trace, Sends) == Count(trace, TakesLockActive(c))
      && Count(trace, TakesGate) == 0 && Count(trace, Wakes) == 0
  {
    Begins(threads, before, run, t, Send(c));
    SendFrom(Apply(After(Initial(threads), before), t, Begin(Send(c))), run[1..], t, c);
  }

  // --- the termination callback ------------------------------------------------------

  predicate AtCallback(s: State, t: nat) { t < |s.pcs| && (s.pcs[t] == Idle || InCallback(s.pcs[t])) }

  lemma {:induction false} StaysAtCallback(s: State, t: nat, u: nat, a: Action)
    requires Invariant(s) && Enabled(s, u, a) && AtCallback(s, t) && (u == t ==> a.Advance?)
    ensures AtCallback(Apply(s, u, a), t)
    ensures u != t && HoldsGate(s.pcs[t]) ==> Apply(s, u, a).registered == s.registered
  {
    if u != t { OthersLeave(s, t, u, a); }
  }

  ghost predicate CallbackMoves(p: Pc, registered: bool, seen: Events, p': Pc, registered': bool) {
    && (Wakes in seen <==> p == CallbackWake)
    && (TakesGate in seen <==> p == CallbackGate)
    && (TakesGateRegistered in seen <==> p == CallbackGate && registered)
    && TakesLock !in seen && Sends !in seen
    && registered' == registered
    && p' == match p
             case CallbackGate => CallbackCheck
             case CallbackCheck => if registered then CallbackWake else CallbackOpenGate
             case CallbackWake => CallbackOpenGate
             case _ => Idle
  }

  lemma {:induction false} ACallbackMoves(s: State, t: nat, a: Action)
    requires Enabled(s, t, a) && a.Advance? && Holding(s, t) && AtCallback(s, t)
    ensures var s' := Apply(s, t, a);
      CallbackMoves(s.pcs[t], s.registered.Some?, Seen(s, t, a), s'.pcs[t], s'.registered.Some?)
  {
  }

  ghost predicate CallbackOwes(p: Pc, registered: bool, trace: seq<Events>) {
    var wakes, gates, registeredGates :=
      Count(trace, Wakes), Count(trace, TakesGate), Count(trace, TakesGateRegistered);
    && Count(trace, TakesLock) == 0 && Count(trace, Sends) == 0
    && match p
       case CallbackGate => gates == 1 && wakes == registeredGates
       case CallbackCheck => gates == 0 && registeredGates == 0 && wakes == if registered then 1 else 0
       case CallbackWake => gates == 0 && registeredGates == 0 && wakes == 1
       case _ => gates == 0 && registeredGates == 0 && wakes == 0
  }

  lemma {:induction false} CallbackPays(p: Pc, registered: bool, seen: Events, p': Pc, registered': bool,
                                        rest: seq<Events>)
    requires CallbackMoves(p, registered, seen, p', registered') && CallbackOwes(p', registered', rest)
    requires InCallback(p)
    ensures CallbackOwes(p, registered, [seen] + rest)
  {
    forall e { CountOneMore(seen, rest, e); }
  }

  lemma {:induction false} CallbackFrom(s: State, run: Schedule, t: nat)
    requires Invariant(s) && Returns(s, run, t) && AtCallback(s, t)
    ensures CallbackOwes(s.pcs[t], s.registered.Some?, Trace(s, run, t))
    decreases |run|
  {
    if run != [] {
      var (u, a) := run[0];
      var s', rest := Apply(s, u, a), run[1..];
      ReturnsFurther(s, run, t);
      StaysAtCallback(s, t, u, a);
      CallbackFrom(s', rest, t);
      if u == t {
        Facts(s, t);
        ACallbackMoves(s, t, a);
        CallbackPays(s.pcs[t], s.registered.Some?, Seen(s, t, a), s'.pcs[t], s'.registered.Some?, Trace(s', rest, t));
      }
    }
  }

  /** The termination callback takes the gate once, and wakes the frame queue once if a
      connection is registered then, not at all otherwise. */
  lemma {:induction false} EveryCallbackWakes(threads: nat, before: Schedule, run: Schedule, t: nat)
    requires Valid(Initial(threads), before) && Executes(After(Initial(threads), before), run, t, Callback)
    ensures var trace := Trace(After(Initial(threads), before), run, t);
      && Count(trace, TakesGate) == 1
      && Count(trace, Wakes) == Count(trace, TakesGateRegistered)
      && Count(trace, TakesLock) == 0 && Count(trace, Sends) == 0
  {
    Begins(threads, before, run, t, Callback);
    CallbackFrom(Apply(After(Initial(threads), before), t, Begin(Callback)), run[1..], t);
  }

  // --- stop --------------------------------------------------------------------------

  /** The thread is inside the stop of `c`, or has stopped it. */
  predicate AtStop(s: State, t: nat, c: nat) {
    && t < |s.pcs| && c < |s.conns|
    && (s.pcs[t] != StopFlag(c) ==> s.conns[c].stopRequested)
    && if s.pcs[t] == Idle then s.conns[c].life == Stopped else InStop(s.pcs[t]) && s.pcs[t].c == c
  }

  lemma {:induction false} StaysAtStop(s: State, t: nat, c: nat, u: nat, a: Action)
    requires Invariant(s) && Enabled(s, u, a) && AtStop(s, t, c) && (u == t ==> a.Advance?)
    ensures AtStop(Apply(s, u, a), t, c)
  {
    Facts(s, t);
    if s.conns[c].stopRequested { RequestStays(s, u, a, c); }
    if s.conns[c].life == Stopped { StoppedStays(s, u, a, c); }
    if u != t { OthersLeave(s, t, u, a); }
  }

  ghost predicate StopMoves(p: Pc, seen: Events, p': Pc, c: nat) {
    && (TakesLock in seen <==> p.StopLock?)
    && (TakesGate in seen <==> p.StopGate?)
    && (StopsCore in seen <==> p.StopJoin?)
    && (Frees in seen <==> p.StopFree?)
    && Wakes !in seen && Sends !in seen
    && p' == match p
             case StopFlag(_) => StopLock(c)
             case StopLock(_) => StopGate(c)
             case StopGate(_) => StopDeactivate(c)
             case StopDeactivate(_) => StopUnregister(c)
             case StopUnregister(_) => StopOpenGate(c)
             case StopOpenGate(_) => StopCall(c)
             case StopCall(_) => StopJoin(c)
             case StopJoin(_) => StopFree(c)
             case StopFree(_) => StopMark(c)
             case StopMark(_) => StopUnlock(c)
             case _ => Idle
  }

  /** The singleton is this connection's until it is cleared. */
  lemma {:induction false} StopHoldsSingleton(s: State, t: nat, c: nat)
    requires Invariant(s) && AtStop(s, t, c) && s.pcs[t] == StopFree(c)
    ensures s.connectionActive
  {
    Facts(s, t);
    assert Stage(s, c);
  }

  lemma {:induction false} AStopMoves(s: State, t: nat, a: Action, c: nat)
    requires Enabled(s, t, a) && a.Advance? && Holding(s, t) && AtStop(s, t, c)
    requires s.pcs[t] == StopFree(c) ==> s.connectionActive
    ensures StopMoves(s.pcs[t], Seen(s, t, a), Apply(s, t, a).pcs[t], c)
  {
  }

  /** What a stop at `p` has still to do: take each lock once, stop the core once, and
      clear the singleton once. */
  ghost predicate StopOwes(p: Pc, trace: seq<Events>) {
    && Count(trace, Wakes) == 0 && Count(trace, Sends) == 0
    && Count(trace, TakesLock) == (if p.StopFlag? || p.StopLock? then 1 else 0)
    && Count(trace, TakesGate) == (if p.StopFlag? || p.StopLock? || p.StopGate? then 1 else 0)
    && Count(trace, StopsCore) == (if InStop(p) && !(p.StopFree? || p.StopMark? || p.StopUnlock?) then 1 else 0)
    && Count(trace, Frees) == (if InStop(p) && !(p.StopMark? || p.StopUnlock?) then 1 else 0)
  }

  lemma {:induction false} StopPays(p: Pc, seen: Events, p': Pc, rest: seq<Events>, c: nat)
    requires StopMoves(p, seen, p', c) && StopOwes(p', rest) && InStop(p) && p.c == c
    ensures StopOwes(p, [seen] + rest)
  {
    forall e { CountOneMore(seen, rest, e); }
  }

  lemma {:induction false} StopFrom(s: State, run: Schedule, t: nat, c: nat)
    requires Invariant(s) && Returns(s, run, t) && AtStop(s, t, c)
    ensures StopOwes(s.pcs[t], Trace(s, run, t))
    ensures Invariant(After(s, run)) && AtStop(After(s, run), t, c)
    decreases |run|
  {
    if run != [] {
      var (u, a) := run[0];
      var s', rest := Apply(s, u, a), run[1..];
      ReturnsFurther(s, run, t);
      StaysAtStop(s, t, c, u, a);
      StopFrom(s', rest, t, c);
      if u == t {
        Facts(s, t);
        if s.pcs[t] == StopFree(c) { StopHoldsSingleton(s, t, c); }
        AStopMoves(s, t, a, c);
        StopPays(s.pcs[t], Seen(s, t, a), s'.pcs[t], Trace(s', rest, t), c);
      }
    }
  }

  lemma {:induction false} StoppedMeans(s: State, c: nat)
    requires Invariant(s) && c < |s.conns| && s.conns[c].life == Stopped
    ensures s.conns[c].stopped && !s.conns[c].active && s.conns[c].coreStops == 1 && s.registered != Some(c)
  {
    assert Stage(s, c);
    if s.gate.Some? { Facts(s, s.gate.value); }
  }

  /** A stop takes each lock once, stops the core once and clears the singleton once.  When
      it returns the connection is stopped, inactive and not registered. */
  lemma {:induction false} EveryStopStops(threads: nat, before: Schedule, run: Schedule, t: nat, c: nat)
    requires Valid(Initial(threads), before) && Executes(After(Initial(threads), before), run, t, Stop(c))
    ensures var s := After(Initial(threads), before);
      var trace, s' := Trace(s, run, t), After(s, run);
      && Count(trace, TakesLock) == 1 && Count(trace, TakesGate) == 1
      && Count(trace, StopsCore) == 1 && Count(trace, Frees) == 1
      && Count(trace, Wakes) == 0 && Count(trace, Sends) == 0
      && c < |s'.conns| && s'.conns[c].stopped && s'.conns[c].stopRequested && !s'.conns[c].active
      && s'.conns[c].coreStops == 1 && s'.registered != Some(c)
  {
    var s := After(Initial(threads), before);
    Begins(threads, before, run, t, Stop(c));
    StopFrom(Apply(s, t, Begin(Stop(c))), run[1..], t, c);
    StoppedMeans(After(s, run), c);
  }

  // --- start -------------------------------------------------------------------------

  predicate AtStart(s: State, t: nat) {
    && t < |s.pcs|
    && (InStart(s.pcs[t]) || s.pcs[t] in {Idle, StartCas, StartCore, StartUndo})
    && (s.pcs[t].StartReturn? ==> s.registered == Some(s.pcs[t].c))
  }

  lemma {:induction false} StaysAtStart(s: State, t: nat, u: nat, a: Action)
    requires Invariant(s) && Enabled(s, u, a) && AtStart(s, t) && (u == t ==> a.Advance?)
    ensures AtStart(Apply(s, u, a), t)
  {
    if u != t { OthersLeave(s, t, u, a); }
  }

  ghost predicate StartMoves(p: Pc, seen: Events, p': Pc) {
    && (p == StartCas ==>
          (Claims in seen) != (FindsClaimed in seen) && p' == if Claims in seen then StartCore else Idle)
    && (p != StartCas ==> Claims !in seen && FindsClaimed !in seen)
    && (CallsStart in seen <==> p == StartCore)
    && (Starts in seen ==> p == StartCore)
    && (p == StartCore ==> if Starts in seen then p'.StartGate? else p' == StartUndo)
    && (Frees in seen <==> p == StartUndo)
    && (Opens in seen <==> p.StartReturn?)
    && Wakes !in seen && Sends !in seen && StopsCore !in seen
    && (p.StartGate? ==> p'.StartStore?) && (p.StartStore? ==> p'.StartReturn?)
    && (p.StartReturn? || p == StartUndo ==> p' == Idle)
  }

  /** What a start's position says about the singleton and about its connection. */
  predicate StartFacts(s: State, t: nat)
    requires t < |s.pcs|
  {
    && (s.pcs[t] in {StartCore, StartUndo} ==> s.connectionActive)
    && (InStart(s.pcs[t]) ==> s.pcs[t].c < |s.conns| && s.conns[s.pcs[t].c].life == Opening
                              && s.conns[s.pcs[t].c].active && s.connectionActive)
  }

  lemma {:induction false} StartHasFacts(s: State, t: nat)
    requires Invariant(s) && t < |s.pcs|
    ensures StartFacts(s, t)
  {
    Facts(s, t);
  }

  lemma {:induction false} AStartMoves(s: State, t: nat, a: Action)
    requires Enabled(s, t, a) && a.Advance? && AtStart(s, t) && StartFacts(s, t)
    ensures StartMoves(s.pcs[t], Seen(s, t, a), Apply(s, t, a).pcs[t])
  {
  }

  /** What a start at `p` has still to do. */
  ghost predicate StartOwes(p: Pc, trace: seq<Events>) {
    && Count(trace, Claims) + Count(trace, FindsClaimed) == (if p == StartCas then 1 else 0)
    && Count(trace, CallsStart) == Count(trace, Claims) + (if p == StartCore then 1 else 0)
    && Count(trace, Starts) + Count(trace, Frees) == Count(trace, CallsStart) + (if p == StartUndo then 1 else 0)
    && Count(trace, Opens) == Count(trace, Starts) + (if InStart(p) then 1 else 0)
    && Count(trace, Wakes) == 0 && Count(trace, Sends) == 0 && Count(trace, StopsCore) == 0
  }

  lemma {:induction false} StartPays(p: Pc, seen: Events, p': Pc, rest: seq<Events>)
    requires StartMoves(p, seen, p') && StartOwes(p', rest) && (InStart(p) || p in {StartCas, StartCore, StartUndo})
    ensures StartOwes(p, [seen] + rest)
  {
    forall e { CountOneMore(seen, rest, e); }
  }

  lemma {:induction false} StartFrom(s: State, run: Schedule, t: nat)
    requires Invariant(s) && Returns(s, run, t) && AtStart(s, t)
    ensures StartOwes(s.pcs[t], Trace(s, run, t))
    decreases |run|
  {
    if run != [] {
      var (u, a) := run[0];
      var s', rest := Apply(s, u, a), run[1..];
      ReturnsFurther(s, run, t);
      StaysAtStart(s, t, u, a);
      StartFrom(s', rest, t);
      if u == t {
        StartHasFacts(s, t);
        AStartMoves(s, t, a);
        StartPays(s.pcs[t], Seen(s, t, a), s'.pcs[t], Trace(s', rest, t));
      }
    }
  }

  /** A start either finds the singleton claimed, or claims it and calls the core once; then
      the core's start succeeds and a handle of an active, registered connection is
      returned, or it fails and the singleton is cleared again. */
  lemma {:induction false} EveryStartOpensOrGivesUp(threads: nat, before: Schedule, run: Schedule, t: nat)
    requires Valid(Initial(threads), before) && Executes(After(Initial(threads), before), run, t, Start)
    ensures var trace := Trace(After(Initial(threads), before), run, t);
      && Count(trace, Claims) + Count(trace, FindsClaimed) == 1
      && Count(trace, CallsStart) == Count(trace, Claims)
      && Count(trace, Starts) + Count(trace, Frees) == Count(trace, CallsStart)
      && Count(trace, Opens) == Count(trace, Starts)
      && Count(trace, Wakes) == 0 && Count(trace, Sends) == 0 && Count(trace, StopsCore) == 0
  {
    Begins(threads, before, run, t, Start);
    StartFrom(Apply(After(Initial(threads), before), t, Begin(Start)), run[1..], t);
  }
}
