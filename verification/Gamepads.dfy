/** The two-table gamepad synchroniser: `devices` is what the user holds, `sent` what the
    session has queued for the host. */
module Gamepads {
  import opened Options
  import opened ButtonSwap
  import opened GamepadPlan
  import opened Sequences

  /** The session's send function.  Any call of it may fail; every packet that was queued is
      in the log, and every packet that was not is in `refused`. */
  class Session {
    var log: seq<Packet>
    var refused: seq<Packet>

    constructor ()
      ensures log == [] && refused == []
    {
      log, refused := [], [];
    }

    /** Whether the core queues a packet is not decided here. */
    method Send(p: Packet) returns (ok: bool)
      modifies this
      ensures log == if ok then old(log) + [p] else old(log)
      ensures refused == if ok then old(refused) else old(refused) + [p]
    {
      ok := *;
      if ok {
        log := log + [p];
      } else {
        refused := refused + [p];
      }
    }
  }

  /** Where a synchronisation began: the acknowledged table, and what had been queued and
      refused by then. */
  datatype SyncRun = SyncRun(start: Slots<Device>, log: seq<Packet>, refused: seq<Packet>)

  /** From `run` on, `packets` were owed, and queuing and committing them led to `sent`. */
  ghost predicate Progress(devices: Slots<Device>, swap: bool, run: SyncRun, packets: seq<Packet>,
                           sent: Slots<Device>, log: seq<Packet>)
  {
    && Tables(devices, sent) && Tables(devices, run.start)
    && Owed(devices, run.start, swap, packets)
    && sent == SentAfter(devices, run.start, packets)
    && log == run.log + packets
  }

  /** What a later run adds to an earlier one. */
  lemma {:induction false} RunsJoin(devices: Slots<Device>, swap: bool, run: SyncRun, packets: seq<Packet>,
                                    later: SyncRun, more: seq<Packet>, sent: Slots<Device>, log: seq<Packet>)
    requires Progress(devices, swap, run, packets, later.start, later.log)
    requires Progress(devices, swap, later, more, sent, log)
    ensures Progress(devices, swap, run, packets + more, sent, log)
    ensures packets + more <= CleanSync(devices, run.start, swap)
    ensures packets + more == CleanSync(devices, run.start, swap) <==> Next(devices, sent, swap) == None
  {
    RetryIsExact(devices, run.start, swap, packets, more);
    Regroup(run.log, packets, more);
  }

  /** One packet more, the one owed next. */
  lemma {:induction false} RunGoesOn(devices: Slots<Device>, swap: bool, run: SyncRun, packets: seq<Packet>,
                                     sent: Slots<Device>, log: seq<Packet>, p: Packet)
    requires Progress(devices, swap, run, packets, sent, log) && Next(devices, sent, swap) == Some(p)
    ensures Progress(devices, swap, run, packets + [p], Commit(devices, sent, p), log + [p])
  {
    OweOneMore(devices, run.start, swap, packets, p);
    Regroup(run.log, packets, [p]);
  }

  function SlotOf(devices: Slots<Device>, id: nat, from: nat): (slot: nat)
    requires from <= |devices|
    ensures from <= slot <= |devices|
    ensures slot < |devices| ==> devices[slot].Some? && devices[slot].value.id == id
    ensures forall i :: from <= i < slot ==> devices[i].None? || devices[i].value.id != id
    decreases |devices| - from
  {
    if from == |devices| || (devices[from].Some? && devices[from].value.id == id) then from
    else SlotOf(devices, id, from + 1)
  }

  function FreeSlot(devices: Slots<Device>, from: nat): (slot: nat)
    requires from <= |devices|
    ensures from <= slot <= |devices|
    ensures slot < |devices| ==> devices[slot].None?
    ensures forall i :: from <= i < slot ==> devices[i].Some?
    decreases |devices| - from
  {
    if from == |devices| || devices[from].None? then from else FreeSlot(devices, from + 1)
  }

  /** The state is the other one, but for the two buttons that have changed places. */
  predicate ABExchanged(held: ControllerState, state: ControllerState) {
    && Exchanged(held.buttons, state.buttons)
    && held.leftTrigger == state.leftTrigger && held.rightTrigger == state.rightTrigger
    && held.leftX == state.leftX && held.leftY == state.leftY
    && held.rightX == state.rightX && held.rightY == state.rightY
  }

  class RemoteGamepads {
    const devices: array<Option<Device>>
    const sent: array<Option<Device>>
    var swapAb: bool
    var session: Session

    /** The host's image of the session so far is the acknowledged table, every packet was
        acceptable when it came, and no identity sits in two slots of either table. */
    ghost predicate Valid()
      reads this, devices, sent, session
    {
      && devices != sent
      && devices.Length == sent.Length == SLOTS
      && DistinctIds(devices[..]) && DistinctIds(sent[..])
      && AcceptableLog(EMPTY_HOST, session.log)
      && ReplayAll(EMPTY_HOST, session.log) == StatesOf(sent[..])
    }

    constructor (session: Session)
      requires session.log == []
      ensures Valid() && fresh(devices) && fresh(sent) && this.session == session
      ensures forall i :: 0 <= i < SLOTS ==> devices[i] == None && sent[i] == None
    {
      devices := new Option<Device>[SLOTS](_ => None);
      sent := new Option<Device>[SLOTS](_ => None);
      swapAb := false;
      this.session := session;
      new;
      assert StatesOf(sent[..]) == EMPTY_HOST;
    }

    /** A snapshot updates its device in place, a new device takes the first free slot, a
        reset frees the slot, and nobody else moves. */
    method Observe(id: nat, reset: bool, state: ControllerState)
      requires Valid()
      modifies devices
      ensures Valid()
      ensures reset ==> SlotOf(devices[..], id, 0) == SLOTS
      ensures !reset ==>
                var known := SlotOf(old(devices[..]), id, 0);
                var slot := if known < SLOTS then known else FreeSlot(old(devices[..]), 0);
                if slot < SLOTS then devices[slot] == Some(Device(id, state)) else devices[..] == old(devices[..])
      ensures forall i | 0 <= i < SLOTS && old(devices[i]).Some? && old(devices[i]).value.id != id ::
                devices[i] == old(devices[i])
      ensures forall i | 0 <= i < SLOTS && devices[i].Some? && devices[i].value.id != id ::
                devices[i] == old(devices[i])
    {
      ghost var before := devices[..];
      var existing := SlotOf(devices[..], id, 0);
      if reset {
        if existing < SLOTS {
          devices[existing] := None;
        }
      } else {
        var slot := if existing < SLOTS then existing else FreeSlot(devices[..], 0);
        if slot < SLOTS {
          devices[slot] := Some(Device(id, state));
          assert devices[..] == before[slot := devices[slot]];
        }
      }
    }

    method SetSwapAb(enabled: bool)
      requires Valid()
      modifies this`swapAb
      ensures Valid() && swapAb == enabled
    {
      swapAb := enabled;
    }

    /** `packets` were owed, in this order, since the table was `run.start`; they are queued
        and committed, and nothing else is. */
    ghost predicate Underway(run: SyncRun, packets: seq<Packet>)
      reads this, devices, sent, session
    {
      devices != sent && Progress(devices[..], swapAb, run, packets, sent[..], session.log)
    }

    /** No send has failed. */
    ghost predicate Unrefused(run: SyncRun)
      reads this`session, session
    {
      session.refused == run.refused
    }

    /** The one send that failed was that of the packet owed next. */
    ghost predicate Refused(run: SyncRun)
      reads this, devices, sent, session
    {
      && Tables(devices[..], sent[..]) && Next(devices[..], sent[..], swapAb).Some?
      && session.refused == run.refused + [Next(devices[..], sent[..], swapAb).value]
    }

    /** Sends the packet owed next and commits it only once it is queued. */
    method SendAndCommit(p: Packet, entry: Option<Device>, ghost run: SyncRun, ghost packets: seq<Packet>)
      returns (ok: bool, ghost packets': seq<Packet>)
      requires Underway(run, packets) && Unrefused(run)
      requires Next(devices[..], sent[..], swapAb) == Some(p) && p.slot < SLOTS
      requires Commit(devices[..], sent[..], p) == sent[..][p.slot := entry]
      modifies sent, session
      ensures Underway(run, packets')
      ensures sent[..] == if ok then old(sent[..])[p.slot := entry] else old(sent[..])
      ensures if ok then Unrefused(run) else Refused(run)
    {
      ok := session.Send(p);
      packets' := packets;
      if ok {
        RunGoesOn(devices[..], swapAb, run, packets, sent[..], old(session.log), p);
        packets' := packets + [p];
        sent[p.slot] := entry;
        assert sent[..] == old(sent[..])[p.slot := entry];
      }
    }

    /** One slot of the first pass. */
    method RemoveStale(slot: nat, ghost run: SyncRun, ghost packets: seq<Packet>)
      returns (ok: bool, ghost packets': seq<Packet>)
      requires slot < SLOTS && Underway(run, packets) && Unrefused(run) && NoneStale(devices[..], sent[..], slot)
      modifies sent, session
      ensures Underway(run, packets')
      ensures ok ==> NoneStale(devices[..], sent[..], slot + 1)
      ensures if ok then Unrefused(run) else Refused(run)
    {
      ok, packets' := true, packets;
      ghost var before := sent[..];
      if sent[slot].Some? && (devices[slot].None? || devices[slot].value.id != sent[slot].value.id) {
        assert FirstStale(devices[..], sent[..], 0) == slot by { assert Stale(devices[..], sent[..], slot); }
        ok, packets' := SendAndCommit(Report(slot, Mask(sent[..]) - {slot}, NEUTRAL), None, run, packets);
        assert forall i :: 0 <= i < slot ==> !Stale(devices[..], before, i) && sent[..][i] == before[i];
      }
    }

    /** Second pass, first half: announce a device the host does not know yet. */
    method Announce(slot: nat, wanted: Device, ghost run: SyncRun, ghost packets: seq<Packet>)
      returns (ok: bool, ghost packets': seq<Packet>)
      requires slot < SLOTS && Underway(run, packets) && Unrefused(run) && NoneStale(devices[..], sent[..], SLOTS)
      requires AllSettled(devices[..], sent[..], swapAb, slot)
      requires Desired(devices[slot], swapAb) == Some(wanted)
      modifies sent, session
      ensures Underway(run, packets')
      ensures ok ==> NoneStale(devices[..], sent[..], SLOTS) && AllSettled(devices[..], sent[..], swapAb, slot)
      ensures ok ==> sent[slot].Some?
      ensures if ok then Unrefused(run) else Refused(run)
    {
      ok, packets' := true, packets;
      if sent[slot].None? {
        var entry := Device(wanted.id, NEUTRAL);
        AnnouncementIsOwed(devices[..], sent[..], swapAb, slot, wanted);
        ok, packets' := SendAndCommit(Arrival(slot, Mask(sent[..]) + {slot}), Some(entry), run, packets);
      }
    }

    /** Second pass, second half: report a state that differs from the acknowledged one. */
    method Update(slot: nat, wanted: Device, ghost run: SyncRun, ghost packets: seq<Packet>)
      returns (ok: bool, ghost packets': seq<Packet>)
      requires slot < SLOTS && Underway(run, packets) && Unrefused(run) && NoneStale(devices[..], sent[..], SLOTS)
      requires AllSettled(devices[..], sent[..], swapAb, slot)
      requires Desired(devices[slot], swapAb) == Some(wanted) && sent[slot].Some?
      modifies sent, session
      ensures Underway(run, packets')
      ensures ok ==> NoneStale(devices[..], sent[..], SLOTS) && AllSettled(devices[..], sent[..], swapAb, slot + 1)
      ensures if ok then Unrefused(run) else Refused(run)
    {
      ok, packets' := true, packets;
      if sent[slot] != Some(wanted) {
        UpdateIsOwed(devices[..], sent[..], swapAb, slot, wanted);
        ok, packets' := SendAndCommit(Report(slot, Mask(sent[..]), wanted.state), Some(wanted), run, packets);
      }
    }

    /** `sync`: two passes, removals before announcements.  The packets it queues are the
        undisturbed ones, in order, up to the first send that fails, and that one fails on
        the packet that comes next. */
    method Sync() returns (ok: bool, ghost packets: seq<Packet>)
      requires Valid()
      modifies sent, session
      ensures Valid()
      ensures SyncedAs(SyncRun(old(sent[..]), old(session.log), old(session.refused)), packets, ok)
    {
      ghost var run := SyncRun(sent[..], session.log, session.refused);
      ok, packets := RemovalPass(run);
      if ok {
        ok, packets := AnnouncePass(run, packets);
      }
      QueuedIsABeginning(devices[..], run.start, swapAb, packets);
      EndSync(run, packets);
    }

    /** What one synchronisation did: it succeeded with all the undisturbed packets, or it
        stopped after some of them because the next one was refused. */
    ghost predicate SyncedAs(run: SyncRun, packets: seq<Packet>, ok: bool)
      reads this, devices, sent, session
    {
      && Underway(run, packets)
      && (ok <==> Next(devices[..], sent[..], swapAb) == None)
      && var clean := CleanSync(devices[..], run.start, swapAb);
         if ok then packets == clean && session.refused == run.refused
         else && packets < clean
              && session.refused == run.refused + [clean[|packets|]]
    }

    /** Main result on retrying: however often a synchronisation fails, wherever it does, and
        however often it is tried again, all attempts together queue the packets of one
        undisturbed synchronisation, each once and in order; short of success, a beginning of
        them.  Once one has succeeded a further one sends nothing. */
    method SyncUntilQueued(attempts: nat) returns (ok: bool, ghost packets: seq<Packet>)
      requires Valid()
      modifies sent, session
      ensures Valid()
      ensures session.log == old(session.log) + packets
      ensures packets <= CleanSync(devices[..], old(sent[..]), swapAb)
      ensures ok ==>
                && packets == CleanSync(devices[..], old(sent[..]), swapAb)
                && |session.refused| < |old(session.refused)| + attempts
      ensures !ok ==> |session.refused| == |old(session.refused)| + attempts
      ensures ok ==> Next(devices[..], sent[..], swapAb) == None
    {
      ghost var run := SyncRun(sent[..], session.log, session.refused);
      ok, packets := false, [];
      for attempt := 0 to attempts
        invariant Valid() && Underway(run, packets) && packets <= CleanSync(devices[..], run.start, swapAb)
        invariant |session.refused| == |run.refused| + attempt
      {
        ok, packets := Resume(run, packets);
        if ok {
          return;
        }
      }
      ok := false;
    }

    /** One more attempt takes up exactly where the last ones left off. */
    method Resume(ghost run: SyncRun, ghost packets: seq<Packet>) returns (ok: bool, ghost packets': seq<Packet>)
      requires Valid() && Underway(run, packets)
      modifies sent, session
      ensures Valid() && Underway(run, packets') && packets' <= CleanSync(devices[..], run.start, swapAb)
      ensures ok <==> packets' == CleanSync(devices[..], run.start, swapAb)
      ensures ok <==> Next(devices[..], sent[..], swapAb) == None
      ensures |session.refused| == if ok then |old(session.refused)| else |old(session.refused)| + 1
    {
      ghost var later, more := SyncRun(sent[..], session.log, session.refused), [];
      ok, more := Sync();
      RunsJoin(devices[..], swapAb, run, packets, later, more, sent[..], session.log);
      packets' := packets + more;
    }

    /** A synchronisation when nothing is owed sends nothing, and cannot fail. */
    method SyncAgain() returns (ok: bool)
      requires Valid() && Next(devices[..], sent[..], swapAb) == None
      modifies sent, session
      ensures Valid() && ok && sent[..] == old(sent[..])
      ensures session.log == old(session.log) && session.refused == old(session.refused)
    {
      ghost var packets;
      ok, packets := Sync();
    }

    method RemovalPass(ghost run: SyncRun) returns (ok: bool, ghost packets: seq<Packet>)
      requires Underway(run, []) && Unrefused(run)
      modifies sent, session
      ensures Underway(run, packets)
      ensures ok ==> NoneStale(devices[..], sent[..], SLOTS)
      ensures if ok then Unrefused(run) else Refused(run)
    {
      packets := [];
      for slot := 0 to SLOTS
        invariant Underway(run, packets) && Unrefused(run) && NoneStale(devices[..], sent[..], slot)
      {
        ok, packets := RemoveStale(slot, run, packets);
        if !ok {
          return;
        }
      }
      ok := true;
    }

    method AnnouncePass(ghost run: SyncRun, ghost packets: seq<Packet>)
      returns (ok: bool, ghost packets': seq<Packet>)
      requires Underway(run, packets) && Unrefused(run) && NoneStale(devices[..], sent[..], SLOTS)
      modifies sent, session
      ensures Underway(run, packets')
      ensures ok ==> Next(devices[..], sent[..], swapAb) == None
      ensures if ok then Unrefused(run) else Refused(run)
    {
      packets' := packets;
      for slot := 0 to SLOTS
        invariant Underway(run, packets') && Unrefused(run) && NoneStale(devices[..], sent[..], SLOTS)
        invariant AllSettled(devices[..], sent[..], swapAb, slot)
      {
        ok, packets' := Settle(slot, run, packets');
        if !ok {
          return;
        }
      }
      ok := true;
    }

    /** One slot of the second pass. */
    method Settle(slot: nat, ghost run: SyncRun, ghost packets: seq<Packet>)
      returns (ok: bool, ghost packets': seq<Packet>)
      requires slot < SLOTS && Underway(run, packets) && Unrefused(run) && NoneStale(devices[..], sent[..], SLOTS)
      requires AllSettled(devices[..], sent[..], swapAb, slot)
      modifies sent, session
      ensures Underway(run, packets')
      ensures ok ==> NoneStale(devices[..], sent[..], SLOTS) && AllSettled(devices[..], sent[..], swapAb, slot + 1)
      ensures if ok then Unrefused(run) else Refused(run)
    {
      ok, packets' := true, packets;
      if devices[slot].Some? {
        var wanted := Desired(devices[slot], swapAb).value;
        ok, packets' := Announce(slot, wanted, run, packets);
        if ok {
          ok, packets' := Update(slot, wanted, run, packets');
        }
      }
    }

    /** However a synchronisation ends, the session invariant holds again. */
    lemma {:induction false} EndSync(run: SyncRun, packets: seq<Packet>)
      requires Underway(run, packets)
      requires DistinctIds(devices[..]) && DistinctIds(run.start)
      requires AcceptableLog(EMPTY_HOST, run.log) && ReplayAll(EMPTY_HOST, run.log) == StatesOf(run.start)
      ensures Valid()
    {
      OwedPacketsAreAcceptable(devices[..], run.start, swapAb, packets);
      LogInTwoParts(EMPTY_HOST, run.log, packets);
    }

    /** After a synchronisation that succeeded the host holds, slot for slot, what the user
        holds; with the toggle on, A and B have changed places and nothing else has. */
    lemma {:induction false} HostIsInSync(slot: nat)
      requires Valid() && Next(devices[..], sent[..], swapAb) == None && slot < SLOTS
      ensures var held := ReplayAll(EMPTY_HOST, session.log)[slot];
        && (held.Some? <==> devices[slot].Some?)
        && (held.Some? ==>
              && (!swapAb ==> held.value == devices[slot].value.state)
              && (swapAb ==> ABExchanged(held.value, devices[slot].value.state)))
    {
      NothingOwedExactlyWhenInSync(devices[..], sent[..], swapAb);
      if devices[slot].Some? {
        SwapExchanges(devices[slot].value.state.buttons);
      }
    }

    /** `release_all`: forget every device; with a live connection also tell the host, by a
        synchronisation that removes every controller. */
    method ReleaseAll(connected: bool, next: Session) returns (ok: bool, ghost packets: seq<Packet>)
      requires Valid() && next.log == []
      modifies this`session, devices, sent, session
      ensures Valid() && forall i :: 0 <= i < SLOTS ==> devices[i] == None
      ensures connected ==>
                && session == old(session)
                && SyncedAs(SyncRun(old(sent[..]), old(session.log), old(session.refused)), packets, ok)
                && (ok ==> ReplayAll(EMPTY_HOST, session.log) == EMPTY_HOST)
      ensures !connected ==>
                ok && session == next && sent[..] == devices[..] && next.log == [] && unchanged(old(session))
    {
      forall i | 0 <= i < SLOTS {
        devices[i] := None;
      }
      packets := [];
      assert sent[..] == old(sent[..]);
      if connected {
        ok, packets := Sync();
        if ok {
          NothingOwedExactlyWhenInSync(devices[..], sent[..], swapAb);
          assert StatesOf(sent[..]) == EMPTY_HOST;
        }
      } else {
        ResetSession(next);
        ok := true;
      }
    }

    /** `reset_session`: the old connection is gone, the next one must announce anew. */
    method ResetSession(next: Session)
      requires Valid() && next.log == []
      modifies this`session, sent
      ensures Valid() && session == next && forall i :: 0 <= i < SLOTS ==> sent[i] == None
    {
      forall i | 0 <= i < SLOTS {
        sent[i] := None;
      }
      session := next;
      assert StatesOf(sent[..]) == EMPTY_HOST;
    }
  }
}
