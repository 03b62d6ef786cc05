/** The stream connection's lifecycle as a concurrent protocol: starts, stops (a drop is a
    stop), stop requests and input sends through any number of handles, stale ones
    included, and the core's own termination callback, under two locks. */
module Lifecycle {
  import opened Options
  import opened Sums

  /** How far a connection has come: an auxiliary history.  Of it the protocol itself knows
      only whether `start` has returned, which is what makes a handle exist. */
  datatype Life = Opening | Open | Closing | Joining | Joined | Released | Stopped

  /** The shared state behind every handle of one connection, its owner's `stopped` flag
      and the number of times the core was stopped for it. */
  datatype Conn = Conn(active: bool, stopRequested: bool, stopped: bool, coreStops: nat, life: Life)

  datatype Core = Down | Starting | Live(conn: nat) | Stopping(conn: nat)

  /** Who occupies the singleton; an auxiliary history of `CONNECTION_ACTIVE`. */
  datatype Slot = Free | Starter(thread: nat) | Occupied(conn: nat)

  /** Where a thread stands; the name says what it does next. */
  datatype Pc =
    | Idle
    | StartCas | StartCore | StartUndo
    | StartGate(c: nat) | StartStore(c: nat) | StartReturn(c: nat)
    | StopFlag(c: nat) | StopLock(c: nat) | StopGate(c: nat) | StopDeactivate(c: nat)
    | StopUnregister(c: nat) | StopOpenGate(c: nat) | StopCall(c: nat) | StopJoin(c: nat)
    | StopFree(c: nat) | StopMark(c: nat) | StopUnlock(c: nat)
    | RequestFlag(c: nat) | RequestGate(c: nat) | RequestCheck(c: nat) | RequestWake(c: nat) | RequestOpenGate(c: nat)
    | SendLock(c: nat) | SendCheck(c: nat) | SendCall(c: nat) | SendUnlock(c: nat)
    | CallbackGate | CallbackCheck | CallbackWake | CallbackOpenGate

  datatype State = State(
    connectionActive: bool,        // CONNECTION_ACTIVE
    coreLock: Option<nat>,         // holder of CORE_CONNECTION_LOCK
    gate: Option<nat>,             // holder of the VIDEO_WAKE_STATE lock
    registered: Option<nat>,       // the connection VIDEO_WAKE_STATE names
    core: Core,
    conns: seq<Conn>,
    pcs: seq<Pc>,
    slot: Slot)

  datatype Op = Start | Stop(c: nat) | Request(c: nat) | Send(c: nat) | Callback

  datatype Action = Begin(op: Op) | Advance(ok: bool)

  predicate InStart(p: Pc) { p.StartGate? || p.StartStore? || p.StartReturn? }

  predicate InStop(p: Pc) {
    p.StopFlag? || p.StopLock? || p.StopGate? || p.StopDeactivate? || p.StopUnregister? || p.StopOpenGate? ||
    p.StopCall? || p.StopJoin? || p.StopFree? || p.StopMark? || p.StopUnlock?
  }

  predicate Drives(p: Pc) { InStart(p) || InStop(p) }

  predicate InCallback(p: Pc) {
    p.CallbackGate? || p.CallbackCheck? || p.CallbackWake? || p.CallbackOpenGate?
  }

  predicate HoldsCoreLock(p: Pc) {
    p.StopGate? || p.StopDeactivate? || p.StopUnregister? || p.StopOpenGate? || p.StopCall? || p.StopJoin? ||
    p.StopFree? || p.StopMark? || p.StopUnlock? || p.SendCheck? || p.SendCall? || p.SendUnlock?
  }

  predicate HoldsGate(p: Pc) {
    p.StartStore? || p.StartReturn? || p.StopDeactivate? || p.StopUnregister? || p.StopOpenGate? ||
    p.RequestCheck? || p.RequestWake? || p.RequestOpenGate? ||
    p.CallbackCheck? || p.CallbackWake? || p.CallbackOpenGate?
  }

  predicate WorkerInCallback(s: State) {
    exists t :: 0 <= t < |s.pcs| && InCallback(s.pcs[t])
  }

  /** A handle exists once `start` has returned. */
  predicate HasHandle(s: State, c: nat) {
    c < |s.conns| && s.conns[c].life != Opening
  }

  predicate CanBegin(s: State, op: Op) {
    match op
    case Start => true
    case Stop(c) =>
      // `stop` takes the connection exclusively and returns at once when already stopped
      && HasHandle(s, c) && !s.conns[c].stopped
      && forall t :: 0 <= t < |s.pcs| ==> !(InStop(s.pcs[t]) && s.pcs[t].c == c)
    case Request(c) => HasHandle(s, c)
    case Send(c) => HasHandle(s, c)
    case Callback => s.core != Down   // the core's workers live until it is joined
  }

  predicate Enabled(s: State, t: nat, a: Action) {
    && t < |s.pcs|
    && match a
       case Begin(op) => s.pcs[t] == Idle && CanBegin(s, op)
       case Advance(ok) =>
         match s.pcs[t]
         case Idle => false
         case StartGate(_) => s.gate == None
         case StopGate(_) => s.gate == None
         case RequestGate(_) => s.gate == None
         case CallbackGate => s.gate == None
         case StopLock(_) => s.coreLock == None
         case SendLock(_) => s.coreLock == None
         case StartCore => !ok ==> !WorkerInCallback(s)   // a failing start joins its workers
         case StopJoin(_) => !WorkerInCallback(s)
         case _ => true
  }

  function Enter(op: Op): Pc {
    match op
    case Start => StartCas
    case Stop(c) => StopFlag(c)
    case Request(c) => RequestFlag(c)
    case Send(c) => SendLock(c)
    case Callback => CallbackGate
  }

  function Set(s: State, c: nat, conn: Conn): State
    requires c < |s.conns|
  {
    s.(conns := s.conns[c := conn])
  }

  /** The effect of a thread's next step on everything but its own position. */
  function Effect(s: State, t: nat, ok: bool): State
    requires t < |s.pcs|
  {
    match s.pcs[t]
    case StartCas =>
      if s.connectionActive then s
      else s.(connectionActive := true, core := Starting, slot := Starter(t))
    case StartCore =>
      if ok then s.(core := Live(|s.conns|), slot := Occupied(|s.conns|),
                    conns := s.conns + [Conn(true, false, false, 0, Opening)])
      else s.(core := Down)
    case StartUndo => s.(connectionActive := false, slot := Free)
    case StartGate(_) => s.(gate := Some(t))
    case StartStore(c) => s.(registered := Some(c))
    case StartReturn(c) => if c < |s.conns| then Set(s, c, s.conns[c].(life := Open)).(gate := None) else s
    case StopFlag(c) => if c < |s.conns| then Set(s, c, s.conns[c].(stopRequested := true)) else s
    case StopLock(_) => s.(coreLock := Some(t))
    case StopGate(_) => s.(gate := Some(t))
    case StopDeactivate(c) => if c < |s.conns| then Set(s, c, s.conns[c].(active := false, life := Closing)) else s
    case StopUnregister(_) => s.(registered := None)
    case StopOpenGate(_) => s.(gate := None)
    case StopCall(c) => if c < |s.conns| then Set(s, c, s.conns[c].(life := Joining)).(core := Stopping(c)) else s
    case StopJoin(c) =>
      if c < |s.conns| then Set(s, c, s.conns[c].(coreStops := s.conns[c].coreStops + 1, life := Joined)).(core := Down)
      else s
    case StopFree(c) =>
      if c < |s.conns| then Set(s, c, s.conns[c].(life := Released)).(connectionActive := false, slot := Free) else s
    case StopMark(c) => if c < |s.conns| then Set(s, c, s.conns[c].(stopped := true, life := Stopped)) else s
    case StopUnlock(_) => s.(coreLock := None)
    case RequestFlag(c) => if c < |s.conns| then Set(s, c, s.conns[c].(stopRequested := true)) else s
    case RequestGate(_) => s.(gate := Some(t))
    case RequestOpenGate(_) => s.(gate := None)
    case SendLock(_) => s.(coreLock := Some(t))
    case SendUnlock(_) => s.(coreLock := None)
    case CallbackGate => s.(gate := Some(t))
    case CallbackOpenGate => s.(gate := None)
    case _ => s   // checks, and the calls into the core
  }

  /** Where the thread goes next. */
  function Goto(s: State, t: nat, ok: bool): Pc
    requires t < |s.pcs|
  {
    match s.pcs[t]
    case StartCas => if s.connectionActive then Idle else StartCore
    case StartCore => if ok then StartGate(|s.conns|) else StartUndo
    case StartGate(c) => StartStore(c)
    case StartStore(c) => StartReturn(c)
    case StopFlag(c) => StopLock(c)
    case StopLock(c) => StopGate(c)
    case StopGate(c) => StopDeactivate(c)
    case StopDeactivate(c) => StopUnregister(c)
    case StopUnregister(c) => StopOpenGate(c)
    case StopOpenGate(c) => StopCall(c)
    case StopCall(c) => StopJoin(c)
    case StopJoin(c) => StopFree(c)
    case StopFree(c) => StopMark(c)
    case StopMark(c) => StopUnlock(c)
    case RequestFlag(c) => RequestGate(c)
    case RequestGate(c) => RequestCheck(c)
    case RequestCheck(c) => if c < |s.conns| && s.conns[c].active then RequestWake(c) else RequestOpenGate(c)
    case RequestWake(c) => RequestOpenGate(c)
    case SendLock(c) => SendCheck(c)
    case SendCheck(c) => if c < |s.conns| && s.conns[c].active then SendCall(c) else SendUnlock(c)
    case SendCall(c) => SendUnlock(c)
    case CallbackGate => CallbackCheck
    case CallbackCheck => if s.registered.Some? then CallbackWake else CallbackOpenGate
    case CallbackWake => CallbackOpenGate
    case _ => Idle
  }

  function Apply(s: State, t: nat, a: Action): State
    requires Enabled(s, t, a)
  {
    match a
    case Begin(op) => s.(pcs := s.pcs[t := Enter(op)])
    case Advance(ok) => Effect(s, t, ok).(pcs := s.pcs[t := Goto(s, t, ok)])
  }

  function Initial(threads: nat): State {
    State(false, None, None, None, Down, [], seq(threads, _ => Idle), Free)
  }

  // --- the invariant ---------------------------------------------------------

  /** Each lock is held by exactly the thread that stands inside it. */
  predicate Holding(s: State, t: nat)
    requires t < |s.pcs|
  {
    && (HoldsCoreLock(s.pcs[t]) <==> s.coreLock == Some(t))
    && (HoldsGate(s.pcs[t]) <==> s.gate == Some(t))
  }

  predicate Locks(s: State) {
    && (forall t :: 0 <= t < |s.pcs| ==> Holding(s, t))
    && (s.coreLock.Some? ==> s.coreLock.value < |s.pcs|)
    && (s.gate.Some? ==> s.gate.value < |s.pcs|)
  }

  /** A connection's flags are those of its stage, and the singleton and the core belong to
      the one connection, or start, that is under way. */
  predicate Stage(s: State, c: nat)
    requires c < |s.conns|
  {
    var n := s.conns[c];
    && (n.active <==> n.life in {Opening, Open})
    && (n.stopped <==> n.life == Stopped)
    && n.coreStops == (if n.life in {Joined, Released, Stopped} then 1 else 0)
    && (s.slot == Occupied(c) <==> n.life in {Opening, Open, Closing, Joining, Joined})
    && (s.core == Live(c) <==> n.life in {Opening, Open, Closing})
    && (s.core == Stopping(c) <==> n.life == Joining)
  }

  predicate Singleton(s: State) {
    && (s.connectionActive <==> s.slot != Free)
    && (forall c :: 0 <= c < |s.conns| ==> Stage(s, c))
    && (s.core.Live? || s.core.Stopping? ==> s.core.conn < |s.conns|)
    && (s.slot.Occupied? ==> s.slot.conn < |s.conns|)
    && (s.slot.Starter? ==> s.slot.thread < |s.pcs|)
    && (s.core == Starting <==> s.slot.Starter? && s.pcs[s.slot.thread] == StartCore)
  }

  /** What a thread's position says about the state. */
  predicate Position(s: State, t: nat)
    requires t < |s.pcs|
  {
    var p := s.pcs[t];
    match p
    case StartCore => s.slot == Starter(t)
    case StartUndo => s.slot == Starter(t)
    case StartGate(c) => c < |s.conns| && s.conns[c].life == Opening
    case StartStore(c) => c < |s.conns| && s.conns[c].life == Opening
    case StartReturn(c) => c < |s.conns| && s.conns[c].life == Opening
    case StopFlag(c) => c < |s.conns| && s.conns[c].life == Open
    case StopLock(c) => c < |s.conns| && s.conns[c].life == Open
    case StopGate(c) => c < |s.conns| && s.conns[c].life == Open
    case StopDeactivate(c) => c < |s.conns| && s.conns[c].life == Open
    case StopUnregister(c) => c < |s.conns| && s.conns[c].life == Closing
    case StopOpenGate(c) => c < |s.conns| && s.conns[c].life == Closing
    case StopCall(c) => c < |s.conns| && s.conns[c].life == Closing
    case StopJoin(c) => c < |s.conns| && s.conns[c].life == Joining
    case StopFree(c) => c < |s.conns| && s.conns[c].life == Joined
    case StopMark(c) => c < |s.conns| && s.conns[c].life == Released
    case StopUnlock(c) => c < |s.conns| && s.conns[c].life == Stopped
    case RequestWake(c) => c < |s.conns| && s.conns[c].active
    case SendCall(c) => c < |s.conns| && s.conns[c].active
    case CallbackWake => s.registered.Some?
    case _ => true
  }

  /** No two threads drive the same connection's start or stop. */
  predicate OneDriver(s: State) {
    forall t, u | 0 <= t < |s.pcs| && 0 <= u < |s.pcs| && Drives(s.pcs[t]) && Drives(s.pcs[u]) ::
      s.pcs[t].c == s.pcs[u].c ==> t == u
  }

  /** The registered connection is active, except inside the gate that is unregistering it. */
  predicate Registration(s: State) {
    s.registered.Some? ==>
      && s.registered.value < |s.conns|
      && (s.conns[s.registered.value].active ||
          (s.gate.Some? && s.gate.value < |s.pcs| && s.pcs[s.gate.value] == StopUnregister(s.registered.value)))
  }

  predicate Stops(s: State, c: nat) {
    exists t :: 0 <= t < |s.pcs| && InStop(s.pcs[t]) && s.pcs[t].c == c
  }

  /** A stop once begun is still under way until it is finished. */
  predicate StopsUnderWay(s: State) {
    forall c :: 0 <= c < |s.conns| && s.conns[c].life in {Closing, Joining, Joined, Released} ==> Stops(s, c)
  }

  predicate Invariant(s: State) {
    && Locks(s)
    && Singleton(s)
    && (forall t :: 0 <= t < |s.pcs| ==> Position(s, t))
    && OneDriver(s)
    && StopsUnderWay(s)
    && Registration(s)
  }
  // --- every step keeps the invariant ----------------------------------------

  /** What a step of thread `t` may change of what other threads rely on. */
  ghost predicate Framed(s: State, t: nat, s': State)
    requires t < |s.pcs|
  {
    var p := s.pcs[t];
    && |s'.pcs| == |s.pcs|
    && (forall u :: 0 <= u < |s.pcs| && u != t ==> s'.pcs[u] == s.pcs[u])
    && |s'.conns| >= |s.conns|
    && (forall c :: 0 <= c < |s.conns| && s'.conns[c].life != s.conns[c].life ==> Drives(p) && p.c == c)
    && (forall c :: 0 <= c < |s.conns| && s'.conns[c].active != s.conns[c].active ==> p == StopDeactivate(c))
    && (s'.registered != s.registered ==> HoldsGate(p))
    && (s'.slot != s.slot ==> (p == StartCas && !s.connectionActive) || p == StartCore || p == StartUndo || p.StopFree?)
    && (s'.gate != s.gate ==> s.gate == None || HoldsGate(p))
  }

  lemma {:induction false} StepIsFramed(s: State, t: nat, a: Action)
    requires Invariant(s) && Enabled(s, t, a)
    ensures Framed(s, t, Apply(s, t, a))
  {
  }

  /** Each thread's own facts. */
  lemma {:induction false} Facts(s: State, t: nat)
    requires Invariant(s) && t < |s.pcs|
    ensures Position(s, t)
    ensures Holding(s, t)
    ensures Drives(s.pcs[t]) ==> s.pcs[t].c < |s.conns| && Stage(s, s.pcs[t].c)
  {
  }

  /** How a step moves a lock, given where it leaves the thread. */
  predicate LockMoves(t: nat, before: bool, after: bool, lock: Option<nat>, lock': Option<nat>) {
    && lock' == (if after then Some(t) else if before then None else lock)
    && (after && !before ==> lock == None)
  }

  lemma {:induction false} StepMovesLocks(s: State, t: nat, a: Action)
    requires Enabled(s, t, a) && Holding(s, t) && Position(s, t)
    ensures var s' := Apply(s, t, a);
            && LockMoves(t, HoldsCoreLock(s.pcs[t]), HoldsCoreLock(s'.pcs[t]), s.coreLock, s'.coreLock)
            && LockMoves(t, HoldsGate(s.pcs[t]), HoldsGate(s'.pcs[t]), s.gate, s'.gate)
  {
  }

  lemma {:induction false} LocksAreKept(s: State, t: nat, s': State)
    requires Locks(s) && t < |s.pcs| && Framed(s, t, s')
    requires LockMoves(t, HoldsCoreLock(s.pcs[t]), HoldsCoreLock(s'.pcs[t]), s.coreLock, s'.coreLock)
    requires LockMoves(t, HoldsGate(s.pcs[t]), HoldsGate(s'.pcs[t]), s.gate, s'.gate)
    ensures Locks(s')
  {
    assert Holding(s, t);
    forall u | 0 <= u < |s'.pcs|
      ensures Holding(s', u)
    {
      assert Holding(s, u);
      if u != t { assert s'.pcs[u] == s.pcs[u]; }
    }
  }

  /** Threads that do not step stay where their positions say. */
  lemma {:induction false} OthersKeepPosition(s: State, t: nat, s': State, u: nat)
    requires Invariant(s) && t < |s.pcs| && u < |s.pcs| && u != t && Framed(s, t, s')
    ensures Position(s', u)
  {
    Facts(s, t);
    Facts(s, u);
    assert s'.pcs[u] == s.pcs[u];
  }


  /** The stepping thread arrives where its new position says. */
  lemma {:induction false} OwnPosition(s: State, t: nat, a: Action)
    requires Invariant(s) && Enabled(s, t, a)
    ensures Position(Apply(s, t, a), t)
  {
    Facts(s, t);
    if a.Begin? && a.op.Stop? {
      assert Stage(s, a.op.c) && !Stops(s, a.op.c);
    }
  }

  /** Where a step leaves its thread driving a connection, it drove it before, or the
      connection is new, or a stop of it begins. */
  lemma {:induction false} OwnDrive(s: State, t: nat, a: Action)
    requires Enabled(s, t, a) && Drives(Apply(s, t, a).pcs[t])
    ensures var c := Apply(s, t, a).pcs[t].c;
      (Drives(s.pcs[t]) && s.pcs[t].c == c) || c == |s.conns| || a == Begin(Stop(c))
  {
  }

  lemma {:induction false} NobodyElseDrives(s: State, t: nat, a: Action, u: nat)
    requires Invariant(s) && Enabled(s, t, a) && u < |s.pcs| && u != t
    requires Drives(Apply(s, t, a).pcs[t]) && Drives(s.pcs[u])
    ensures Apply(s, t, a).pcs[t].c != s.pcs[u].c
  {
    OwnDrive(s, t, a);
    Facts(s, u);
  }

  lemma {:induction false} OneDriverIsKept(s: State, t: nat, a: Action)
    requires Invariant(s) && Enabled(s, t, a)
    ensures OneDriver(Apply(s, t, a))
  {
    var s' := Apply(s, t, a);
    StepIsFramed(s, t, a);
    forall u | 0 <= u < |s.pcs| && u != t && Drives(s'.pcs[t]) && Drives(s'.pcs[u])
      ensures s'.pcs[t].c != s'.pcs[u].c
    {
      assert s'.pcs[u] == s.pcs[u];
      NobodyElseDrives(s, t, a, u);
    }
  }

  /** A step that leaves a connection half closed leaves the thread that stops it at work. */
  lemma {:induction false} OwnStop(s: State, t: nat, a: Action, c: nat)
    requires Invariant(s) && Enabled(s, t, a) && c < |Apply(s, t, a).conns|
    requires Apply(s, t, a).conns[c].life in {Closing, Joining, Joined, Released}
    requires (Drives(s.pcs[t]) && s.pcs[t].c == c) || c >= |s.conns|
    ensures InStop(Apply(s, t, a).pcs[t]) && Apply(s, t, a).pcs[t].c == c
  {
    Facts(s, t);
  }

  lemma {:induction false} StopsAreKept(s: State, t: nat, a: Action, c: nat)
    requires Invariant(s) && Enabled(s, t, a) && c < |Apply(s, t, a).conns|
    requires Apply(s, t, a).conns[c].life in {Closing, Joining, Joined, Released}
    ensures Stops(Apply(s, t, a), c)
  {
    var s' := Apply(s, t, a);
    StepIsFramed(s, t, a);
    if (Drives(s.pcs[t]) && s.pcs[t].c == c) || c >= |s.conns| {
      OwnStop(s, t, a, c);
    } else {
      assert Stops(s, c);
      var u: nat :| u < |s.pcs| && InStop(s.pcs[u]) && s.pcs[u].c == c;
      assert s'.pcs[u] == s.pcs[u];
    }
  }

  lemma {:induction false} RegistrationIsKept(s: State, t: nat, a: Action)
    requires Invariant(s) && Enabled(s, t, a)
    ensures Registration(Apply(s, t, a))
  {
    Facts(s, t);
    if s.gate.Some? {
      Facts(s, s.gate.value);
    }
  }

  lemma {:induction false} StageIsKept(s: State, t: nat, a: Action, c: nat)
    requires Invariant(s) && Enabled(s, t, a) && c < |Apply(s, t, a).conns|
    ensures Stage(Apply(s, t, a), c)
  {
    Facts(s, t);
    if c < |s.conns| { assert Stage(s, c); }
  }

  lemma {:induction false} SingletonIsKept(s: State, t: nat, a: Action)
    requires Invariant(s) && Enabled(s, t, a)
    ensures Singleton(Apply(s, t, a))
  {
    var s' := Apply(s, t, a);
    Facts(s, t);
    forall c | 0 <= c < |s'.conns|
      ensures Stage(s', c)
    {
      StageIsKept(s, t, a, c);
    }
    if s.slot.Starter? {
      Facts(s, s.slot.thread);
      if s.slot.thread != t { assert s'.pcs[s.slot.thread] == s.pcs[s.slot.thread]; }
    }
  }

  lemma {:induction false} StepKeepsInvariant(s: State, t: nat, a: Action)
    requires Invariant(s) && Enabled(s, t, a)
    ensures Invariant(Apply(s, t, a)) && |Apply(s, t, a).pcs| == |s.pcs|
  {
    var s' := Apply(s, t, a);
    StepIsFramed(s, t, a);
    Facts(s, t);
    StepMovesLocks(s, t, a);
    LocksAreKept(s, t, s');
    SingletonIsKept(s, t, a);
    OneDriverIsKept(s, t, a);
    RegistrationIsKept(s, t, a);
    forall u | 0 <= u < |s'.pcs|
      ensures Position(s', u)
    {
      if u == t { OwnPosition(s, t, a); } else { OthersKeepPosition(s, t, s', u); }
    }
    forall c | 0 <= c < |s'.conns| && s'.conns[c].life in {Closing, Joining, Joined, Released}
      ensures Stops(s', c)
    {
      StopsAreKept(s, t, a, c);
    }
  }

  // --- runs --------------------------------------------------------------------

  type Schedule = seq<(nat, Action)>

  predicate Valid(s: State, run: Schedule)
    decreases |run|
  {
    run == [] || (Enabled(s, run[0].0, run[0].1) && Valid(Apply(s, run[0].0, run[0].1), run[1..]))
  }

  function After(s: State, run: Schedule): State
    requires Valid(s, run)
    decreases |run|
  {
    if run == [] then s else After(Apply(s, run[0].0, run[0].1), run[1..])
  }

  lemma {:induction false} InvariantIsKept(s: State, run: Schedule)
    requires Invariant(s) && Valid(s, run)
    ensures Invariant(After(s, run)) && |After(s, run).pcs| == |s.pcs|
    decreases |run|
  {
    if run != [] {
      StepKeepsInvariant(s, run[0].0, run[0].1);
      InvariantIsKept(Apply(s, run[0].0, run[0].1), run[1..]);
    }
  }

  /** Main result, over every interleaving of every number of threads: one connection at
      most is active; whoever wakes the frame queue or sends input, through a stale handle
      or not, finds the live core of its own or of the registered connection; a finished
      stop has stopped the core exactly once, and no stop ever stops it again. */
  lemma {:induction false} EveryReachableStateIsSafe(threads: nat, run: Schedule)
    requires Valid(Initial(threads), run)
    ensures var s := After(Initial(threads), run);
      && (forall c, d | 0 <= c < |s.conns| && 0 <= d < |s.conns| :: s.conns[c].active && s.conns[d].active ==> c == d)
      && (forall c | 0 <= c < |s.conns| :: s.conns[c].active ==> s.connectionActive && s.core == Live(c))
      && (forall c | 0 <= c < |s.conns| :: s.conns[c].coreStops <= 1)
      && (forall c | 0 <= c < |s.conns| :: s.conns[c].stopped ==> s.conns[c].coreStops == 1)
      && (forall t: nat | t < |s.pcs| :: CallsReachALiveCore(s, t))
  {
    var s := After(Initial(threads), run);
    InvariantIsKept(Initial(threads), run);
    forall c | 0 <= c < |s.conns|
      ensures s.conns[c].active ==> s.connectionActive && s.core == Live(c)
      ensures s.conns[c].coreStops <= 1
      ensures s.conns[c].stopped ==> s.conns[c].coreStops == 1
    {
      assert Stage(s, c);
    }
    forall t: nat | t < |s.pcs|
      ensures CallsReachALiveCore(s, t)
    {
      CallsAreSafe(s, t);
    }
  }

  /** What each call into the core needs to find when it is made. */
  predicate CallsReachALiveCore(s: State, t: nat)
    requires t < |s.pcs|
  {
    match s.pcs[t]
    case RequestWake(c) => s.core == Live(c) && s.gate == Some(t)
    case SendCall(c) => s.core == Live(c) && s.coreLock == Some(t)
    case CallbackWake => s.registered.Some? && s.core == Live(s.registered.value) && s.gate == Some(t)
    case StopCall(c) => s.core == Live(c) && s.coreLock == Some(t) && s.registered == None
    case StopJoin(c) => s.core == Stopping(c) && s.coreLock == Some(t)
    case StartCore => s.core == Starting
    case _ => true
  }

  lemma {:induction false} CallsAreSafe(s: State, t: nat)
    requires Invariant(s) && t < |s.pcs|
    ensures CallsReachALiveCore(s, t)
  {
    Facts(s, t);
    var p := s.pcs[t];
    if p.RequestWake? || p.SendCall? {
      assert Stage(s, p.c);
    }
    if s.registered.Some? {
      assert Stage(s, s.registered.value);
      if !s.conns[s.registered.value].active {
        Facts(s, s.gate.value);
      }
    }
  }

  // --- the locks cannot deadlock ------------------------------------------------

  predicate CanAdvance(s: State, t: nat) {
    Enabled(s, t, Advance(true))
  }

  /** While any operation is unfinished some thread can take its next step, also while a
      stop waits, inside the core lock, for workers that are in the callback. */
  lemma {:induction false} SomebodyCanAdvance(s: State, busy: nat) returns (t: nat)
    requires Invariant(s) && busy < |s.pcs| && s.pcs[busy] != Idle
    ensures CanAdvance(s, t)
  {
    t := busy;
    if !CanAdvance(s, t) && s.coreLock.Some? {
      t := s.coreLock.value;
      Facts(s, t);
    }
    if !CanAdvance(s, t) && WorkerInCallback(s) {
      t :| 0 <= t < |s.pcs| && InCallback(s.pcs[t]);
    }
    if !CanAdvance(s, t) {
      t := s.gate.value;
      Facts(s, t);
    }
  }

  /** An upper bound on the steps a thread still takes before it is idle. */
  function Rank(p: Pc): nat {
    match p
    case Idle => 0
    case StartCas => 5
    case StartCore => 4
    case StartUndo => 1
    case StartGate(_) => 3
    case StartStore(_) => 2
    case StartReturn(_) => 1
    case StopFlag(_) => 11
    case StopLock(_) => 10
    case StopGate(_) => 9
    case StopDeactivate(_) => 8
    case StopUnregister(_) => 7
    case StopOpenGate(_) => 6
    case StopCall(_) => 5
    case StopJoin(_) => 4
    case StopFree(_) => 3
    case StopMark(_) => 2
    case StopUnlock(_) => 1
    case RequestFlag(_) => 5
    case RequestGate(_) => 4
    case RequestCheck(_) => 3
    case RequestWake(_) => 2
    case RequestOpenGate(_) => 1
    case SendLock(_) => 4
    case SendCheck(_) => 3
    case SendCall(_) => 2
    case SendUnlock(_) => 1
    case CallbackGate => 4
    case CallbackCheck => 3
    case CallbackWake => 2
    case CallbackOpenGate => 1
  }

  function Ranks(pcs: seq<Pc>): (ranks: seq<nat>) {
    seq(|pcs|, t requires 0 <= t < |pcs| => Rank(pcs[t]))
  }

  function StepsLeft(s: State): nat { Sum(Ranks(s.pcs)) }

  lemma {:induction false} AdvanceLowersMeasure(s: State, t: nat, ok: bool)
    requires Enabled(s, t, Advance(ok))
    ensures StepsLeft(Apply(s, t, Advance(ok))) < StepsLeft(s)
  {
    var p := Goto(s, t, ok);
    assert Rank(p) < Rank(s.pcs[t]);
    SumOfUpdate(Ranks(s.pcs), t, Rank(p));
    assert Ranks(s.pcs[t := p]) == Ranks(s.pcs)[t := Rank(p)];
  }

  predicate OnlyAdvances(run: Schedule) {
    forall i :: 0 <= i < |run| ==> run[i].1.Advance?
  }

  predicate Quiescent(s: State) {
    forall t :: 0 <= t < |s.pcs| ==> s.pcs[t] == Idle
  }

  lemma {:induction false} StuckOnlyWhenQuiescent(s: State)
    requires Invariant(s)
    ensures Quiescent(s) <==> forall t: nat :: !CanAdvance(s, t)
  {
    forall busy: nat | busy < |s.pcs| && s.pcs[busy] != Idle
      ensures exists t: nat :: CanAdvance(s, t)
    {
      var t := SomebodyCanAdvance(s, busy);
    }
  }

  lemma {:induction false} AdvancesAreBounded(s: State, run: Schedule)
    requires Valid(s, run) && OnlyAdvances(run)
    ensures |run| + StepsLeft(After(s, run)) <= StepsLeft(s)
    decreases |run|
  {
    if run != [] {
      AdvanceLowersMeasure(s, run[0].0, run[0].1.ok);
      assert OnlyAdvances(run[1..]);
      AdvancesAreBounded(Apply(s, run[0].0, run[0].1), run[1..]);
    }
  }

  /** From every reachable state, however the threads are scheduled, the operations under
      way take a bounded number of steps, and only when all are finished is nobody able to
      take one: no start, stop, request, send or callback is ever stuck. */
  lemma {:induction false} PendingOperationsFinish(threads: nat, run: Schedule, rest: Schedule)
    requires Valid(Initial(threads), run)
    requires Valid(After(Initial(threads), run), rest) && OnlyAdvances(rest)
    ensures var s := After(Initial(threads), run);
      var s' := After(s, rest);
      && |rest| <= StepsLeft(s)
      && (Quiescent(s') <==> forall t: nat :: !CanAdvance(s', t))
  {
    var s := After(Initial(threads), run);
    var s' := After(s, rest);
    InvariantIsKept(Initial(threads), run);
    InvariantIsKept(s, rest);
    AdvancesAreBounded(s, rest);
    StuckOnlyWhenQuiescent(s');
  }

  // --- every successful start is stopped at most once ----------------------------

  function CoreStarts(s: State, run: Schedule): nat
    requires Valid(s, run)
    decreases |run|
  {
    if run == [] then 0
    else
      (if s.pcs[run[0].0] == StartCore && run[0].1 == Advance(true) then 1 else 0) +
      CoreStarts(Apply(s, run[0].0, run[0].1), run[1..])
  }

  function CoreStops(s: State, run: Schedule): nat
    requires Valid(s, run)
    decreases |run|
  {
    if run == [] then 0
    else
      (if s.pcs[run[0].0].StopJoin? then 1 else 0) + CoreStops(Apply(s, run[0].0, run[0].1), run[1..])
  }

  function Running(s: State): nat { if s.core.Live? || s.core.Stopping? then 1 else 0 }

  lemma {:induction false} StepBalances(s: State, t: nat, a: Action)
    requires Invariant(s) && Enabled(s, t, a)
    ensures var s' := Apply(s, t, a);
      Running(s') + (if s.pcs[t].StopJoin? then 1 else 0)
      == Running(s) + (if s.pcs[t] == StartCore && a == Advance(true) then 1 else 0)
  {
    CallsAreSafe(s, t);
    Facts(s, t);
    if Running(s) == 1 {
      assert Stage(s, s.core.conn);
    }
  }

  lemma {:induction false} StopsBalanceStarts(s: State, run: Schedule)
    requires Invariant(s) && Valid(s, run)
    ensures Running(s) + CoreStarts(s, run) == CoreStops(s, run) + Running(After(s, run))
    decreases |run|
  {
    if run != [] {
      StepBalances(s, run[0].0, run[0].1);
      StepKeepsInvariant(s, run[0].0, run[0].1);
      StopsBalanceStarts(Apply(s, run[0].0, run[0].1), run[1..]);
    }
  }

  /** Over a whole run the core has been stopped once for every successful start, but for
      the one start whose connection still holds it. */
  lemma {:induction false} EveryStartIsStoppedOnce(threads: nat, run: Schedule)
    requires Valid(Initial(threads), run)
    ensures var s := After(Initial(threads), run);
      && CoreStarts(Initial(threads), run) == CoreStops(Initial(threads), run) + Running(s)
      && (Running(s) == 1 ==> s.connectionActive)
  {
    var s := After(Initial(threads), run);
    StopsBalanceStarts(Initial(threads), run);
    InvariantIsKept(Initial(threads), run);
    if Running(s) == 1 {
      assert Stage(s, s.core.conn);
    }
  }
}
