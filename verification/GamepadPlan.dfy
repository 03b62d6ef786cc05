/** What a gamepad synchronisation has to send, stated from the tables alone, and how
    the host replays it. */
module GamepadPlan {
  import opened Options
  import opened ButtonSwap
  import opened Sums

  const SLOTS: nat := 16

  datatype ControllerState = ControllerState(
    buttons: bv32, leftTrigger: int, rightTrigger: int, leftX: int, leftY: int, rightX: int, rightY: int)

  const NEUTRAL := ControllerState(0, 0, 0, 0, 0, 0, 0)

  datatype Device = Device(id: nat, state: ControllerState)

  datatype Packet =
    | Arrival(slot: nat, mask: SlotMask)
    | Report(slot: nat, mask: SlotMask, state: ControllerState)

  type Slots<T> = seq<Option<T>>

  /** A 16-bit slot mask, as the set of the positions of its one bits. */
  type SlotMask = set<nat>

  function Mask<T>(table: Slots<T>): SlotMask {
    set slot: nat | slot < |table| && table[slot].Some?
  }

  function Desired(device: Option<Device>, swap: bool): Option<Device> {
    if swap && device.Some? then
      Some(Device(device.value.id, device.value.state.(buttons := SwapAB(device.value.state.buttons))))
    else device
  }

  // --- the next packet -------------------------------------------------------

  /** The slot was announced for an identity that is no longer there. */
  predicate Stale(devices: Slots<Device>, sent: Slots<Device>, slot: nat)
    requires slot < |devices| == |sent|
  {
    sent[slot].Some? && (devices[slot].None? || devices[slot].value.id != sent[slot].value.id)
  }

  predicate Unsettled(devices: Slots<Device>, sent: Slots<Device>, swap: bool, slot: nat)
    requires slot < |devices| == |sent|
  {
    devices[slot].Some? && sent[slot] != Desired(devices[slot], swap)
  }

  predicate Tables(devices: Slots<Device>, sent: Slots<Device>) {
    |devices| == |sent| == SLOTS
  }

  function FirstStale(devices: Slots<Device>, sent: Slots<Device>, from: nat): (slot: nat)
    requires Tables(devices, sent) && from <= SLOTS
    ensures from <= slot <= SLOTS
    ensures slot < SLOTS ==> Stale(devices, sent, slot)
    ensures forall i :: from <= i < slot ==> !Stale(devices, sent, i)
    decreases SLOTS - from
  {
    if from == SLOTS || Stale(devices, sent, from) then from else FirstStale(devices, sent, from + 1)
  }

  function FirstUnsettled(devices: Slots<Device>, sent: Slots<Device>, swap: bool, from: nat): (slot: nat)
    requires Tables(devices, sent) && from <= SLOTS
    ensures from <= slot <= SLOTS
    ensures slot < SLOTS ==> Unsettled(devices, sent, swap, slot)
    ensures forall i :: from <= i < slot ==> !Unsettled(devices, sent, swap, i)
    decreases SLOTS - from
  {
    if from == SLOTS || Unsettled(devices, sent, swap, from) then from
    else FirstUnsettled(devices, sent, swap, from + 1)
  }

  predicate NoneStale(devices: Slots<Device>, sent: Slots<Device>, below: nat)
    requires Tables(devices, sent) && below <= SLOTS
  {
    forall i :: 0 <= i < below ==> !Stale(devices, sent, i)
  }

  predicate AllSettled(devices: Slots<Device>, sent: Slots<Device>, swap: bool, below: nat)
    requires Tables(devices, sent) && below <= SLOTS
  {
    forall i :: 0 <= i < below ==> !Unsettled(devices, sent, swap, i)
  }

  lemma {:induction false} FirstAre(devices: Slots<Device>, sent: Slots<Device>, swap: bool, slot: nat)
    requires Tables(devices, sent) && slot < SLOTS && NoneStale(devices, sent, SLOTS)
    requires AllSettled(devices, sent, swap, slot)
    ensures FirstStale(devices, sent, 0) == SLOTS
    ensures Unsettled(devices, sent, swap, slot) ==> FirstUnsettled(devices, sent, swap, 0) == slot
  {
  }

  /** Writing a slot's own identity makes nothing stale and unsettles no other slot. */
  lemma {:induction false} EntryKeepsOthers(devices: Slots<Device>, sent: Slots<Device>, swap: bool,
                                            slot: nat, entry: Device)
    requires Tables(devices, sent) && slot < SLOTS && NoneStale(devices, sent, SLOTS)
    requires AllSettled(devices, sent, swap, slot)
    requires devices[slot].Some? && devices[slot].value.id == entry.id
    ensures var sent' := sent[slot := Some(entry)];
      && NoneStale(devices, sent', SLOTS) && AllSettled(devices, sent', swap, slot)
      && (Some(entry) == Desired(devices[slot], swap) ==> AllSettled(devices, sent', swap, slot + 1))
  {
    var sent' := sent[slot := Some(entry)];
    forall i | 0 <= i < SLOTS
      ensures !Stale(devices, sent', i)
      ensures i < slot ==> !Unsettled(devices, sent', swap, i)
    {
      assert !Stale(devices, sent, i);
      assert i < slot ==> !Unsettled(devices, sent, swap, i);
    }
  }

  /** The packet owed first: remove the lowest stale identity, else announce or update the
      lowest unsettled slot.  Nothing but the two tables decides it. */
  function Next(devices: Slots<Device>, sent: Slots<Device>, swap: bool): Option<Packet>
    requires Tables(devices, sent)
  {
    var r := FirstStale(devices, sent, 0);
    if r < SLOTS then Some(Report(r, Mask(sent) - {r}, NEUTRAL)) else
    var u := FirstUnsettled(devices, sent, swap, 0);
    if u == SLOTS then None
    else if sent[u].None? then Some(Arrival(u, Mask(sent) + {u}))
    else Some(Report(u, Mask(sent), Desired(devices[u], swap).value.state))
  }

  /** The acknowledged table once packet `p`, the next one owed, has been queued. */
  function Commit(devices: Slots<Device>, sent: Slots<Device>, p: Packet): (sent': Slots<Device>)
    requires Tables(devices, sent)
    ensures Tables(devices, sent')
  {
    if p.slot >= SLOTS then sent
    else if devices[p.slot].None? || (p.Report? && p.slot !in p.mask) then sent[p.slot := None]
    else sent[p.slot := Some(Device(devices[p.slot].value.id, if p.Arrival? then NEUTRAL else p.state))]
  }

  /** What the second pass owes a device the host does not know yet. */
  lemma {:induction false} AnnouncementIsOwed(devices: Slots<Device>, sent: Slots<Device>, swap: bool,
                                              slot: nat, wanted: Device)
    requires Tables(devices, sent) && slot < SLOTS && NoneStale(devices, sent, SLOTS)
    requires AllSettled(devices, sent, swap, slot)
    requires Desired(devices[slot], swap) == Some(wanted) && sent[slot].None?
    ensures var p := Arrival(slot, Mask(sent) + {slot});
      var sent' := sent[slot := Some(Device(wanted.id, NEUTRAL))];
      && Next(devices, sent, swap) == Some(p) && Commit(devices, sent, p) == sent'
      && NoneStale(devices, sent', SLOTS) && AllSettled(devices, sent', swap, slot)
  {
    FirstAre(devices, sent, swap, slot);
    EntryKeepsOthers(devices, sent, swap, slot, Device(wanted.id, NEUTRAL));
  }

  /** What it owes a device whose state differs from the acknowledged one. */
  lemma {:induction false} UpdateIsOwed(devices: Slots<Device>, sent: Slots<Device>, swap: bool,
                                        slot: nat, wanted: Device)
    requires Tables(devices, sent) && slot < SLOTS && NoneStale(devices, sent, SLOTS)
    requires AllSettled(devices, sent, swap, slot)
    requires Desired(devices[slot], swap) == Some(wanted) && sent[slot].Some? && sent[slot] != Some(wanted)
    ensures var p := Report(slot, Mask(sent), wanted.state);
      var sent' := sent[slot := Some(wanted)];
      && Next(devices, sent, swap) == Some(p) && Commit(devices, sent, p) == sent'
      && NoneStale(devices, sent', SLOTS) && AllSettled(devices, sent', swap, slot + 1)
  {
    FirstAre(devices, sent, swap, slot);
    EntryKeepsOthers(devices, sent, swap, slot, wanted);
  }

  /** `packets` are owed one after the other, starting from `sent`. */
  predicate Owed(devices: Slots<Device>, sent: Slots<Device>, swap: bool, packets: seq<Packet>)
    requires Tables(devices, sent)
    decreases |packets|
  {
    packets == [] ||
    (Next(devices, sent, swap) == Some(packets[0]) &&
     Owed(devices, Commit(devices, sent, packets[0]), swap, packets[1..]))
  }

  function SentAfter(devices: Slots<Device>, sent: Slots<Device>, packets: seq<Packet>): (sent': Slots<Device>)
    requires Tables(devices, sent)
    ensures Tables(devices, sent')
    decreases |packets|
  {
    if packets == [] then sent else SentAfter(devices, Commit(devices, sent, packets[0]), packets[1..])
  }

  /** The first packet of a series decides where the rest goes on, whatever follows it. */
  lemma {:induction false} FirstOwed(devices: Slots<Device>, sent: Slots<Device>, swap: bool,
                                     a: seq<Packet>, b: seq<Packet>)
    requires Tables(devices, sent) && a != [] && Owed(devices, sent, swap, a)
    ensures var next := Commit(devices, sent, a[0]);
      && Owed(devices, next, swap, a[1..])
      && SentAfter(devices, sent, a) == SentAfter(devices, next, a[1..])
      && (Owed(devices, next, swap, a[1..] + b) ==> Owed(devices, sent, swap, a + b))
      && SentAfter(devices, sent, a + b) == SentAfter(devices, next, a[1..] + b)
  {
    assert (a + b)[0] == a[0] && (a + b)[1..] == a[1..] + b;
  }

  lemma {:induction false} OweOneMore(devices: Slots<Device>, sent: Slots<Device>, swap: bool,
                                      packets: seq<Packet>, p: Packet)
    requires Tables(devices, sent) && Owed(devices, sent, swap, packets)
    requires Next(devices, SentAfter(devices, sent, packets), swap) == Some(p)
    ensures Owed(devices, sent, swap, packets + [p])
    ensures SentAfter(devices, sent, packets + [p]) == Commit(devices, SentAfter(devices, sent, packets), p)
    decreases |packets|
  {
    if packets == [] {
      assert packets + [p] == [p];
    } else {
      FirstOwed(devices, sent, swap, packets, [p]);
      OweOneMore(devices, Commit(devices, sent, packets[0]), swap, packets[1..], p);
    }
  }

  // --- exact retry -----------------------------------------------------------

  lemma {:induction false} OwedPrefix(devices: Slots<Device>, sent: Slots<Device>, swap: bool,
                                      a: seq<Packet>, b: seq<Packet>)
    requires Tables(devices, sent) && Owed(devices, sent, swap, a) && Owed(devices, sent, swap, b)
    requires Next(devices, SentAfter(devices, sent, b), swap) == None
    ensures a <= b
    decreases |a|
  {
    if a != [] {
      OwedPrefix(devices, Commit(devices, sent, a[0]), swap, a[1..], b[1..]);
      assert a == [a[0]] + a[1..] && b == [b[0]] + b[1..];
    }
  }

  lemma {:induction false} OwedInTwoParts(devices: Slots<Device>, sent: Slots<Device>, swap: bool,
                                          a: seq<Packet>, b: seq<Packet>)
    requires Tables(devices, sent) && Owed(devices, sent, swap, a)
    requires Owed(devices, SentAfter(devices, sent, a), swap, b)
    ensures Owed(devices, sent, swap, a + b)
    ensures SentAfter(devices, sent, a + b) == SentAfter(devices, SentAfter(devices, sent, a), b)
    decreases |a|
  {
    if a == [] {
      assert a + b == b;
    } else {
      FirstOwed(devices, sent, swap, a, b);
      OwedInTwoParts(devices, Commit(devices, sent, a[0]), swap, a[1..], b);
    }
  }

  // --- the undisturbed synchronisation ----------------------------------------

  /** How many packets a slot may still need: three if a stale identity has to make room for
      a new one, two to announce and update, one to update. */
  function SlotWork(device: Option<Device>, sent: Option<Device>, swap: bool): nat {
    if sent.Some? && (device.None? || device.value.id != sent.value.id) then 3
    else if device.None? then 0
    else if sent.None? then 2
    else if sent != Desired(device, swap) then 1
    else 0
  }

  function Works(devices: Slots<Device>, sent: Slots<Device>, swap: bool): seq<nat>
    requires Tables(devices, sent)
  {
    seq(SLOTS, i requires 0 <= i < SLOTS => SlotWork(devices[i], sent[i], swap))
  }

  function Work(devices: Slots<Device>, sent: Slots<Device>, swap: bool): nat
    requires Tables(devices, sent)
  {
    Sum(Works(devices, sent, swap))
  }

  lemma {:induction false} NextLowersSlotWork(devices: Slots<Device>, sent: Slots<Device>, swap: bool)
    requires Tables(devices, sent) && Next(devices, sent, swap).Some?
    ensures var p := Next(devices, sent, swap).value;
      && p.slot < SLOTS
      && SlotWork(devices[p.slot], Commit(devices, sent, p)[p.slot], swap)
         < SlotWork(devices[p.slot], sent[p.slot], swap)
  {
  }

  lemma {:induction false} NextLowersWork(devices: Slots<Device>, sent: Slots<Device>, swap: bool)
    requires Tables(devices, sent) && Next(devices, sent, swap).Some?
    ensures Work(devices, Commit(devices, sent, Next(devices, sent, swap).value), swap) < Work(devices, sent, swap)
  {
    var p := Next(devices, sent, swap).value;
    var sent' := Commit(devices, sent, p);
    NextLowersSlotWork(devices, sent, swap);
    var less := SlotWork(devices[p.slot], sent'[p.slot], swap);
    SumOfUpdate(Works(devices, sent, swap), p.slot, less);
    assert Works(devices, sent', swap) == Works(devices, sent, swap)[p.slot := less];
  }

  /** The packets of one synchronisation that nothing disturbs. */
  function CleanSync(devices: Slots<Device>, sent: Slots<Device>, swap: bool): (packets: seq<Packet>)
    requires Tables(devices, sent)
    ensures |packets| <= Work(devices, sent, swap)
    decreases Work(devices, sent, swap)
  {
    var p := Next(devices, sent, swap);
    if p.None? then []
    else
      NextLowersWork(devices, sent, swap);
      [p.value] + CleanSync(devices, Commit(devices, sent, p.value), swap)
  }

  /** Three packets a slot are always enough. */
  lemma {:induction false} CleanSyncIsShort(devices: Slots<Device>, sent: Slots<Device>, swap: bool)
    requires Tables(devices, sent)
    ensures |CleanSync(devices, sent, swap)| <= 3 * SLOTS
  {
    SumAtMost(Works(devices, sent, swap), 3);
  }

  lemma {:induction false} CleanSyncSettles(devices: Slots<Device>, sent: Slots<Device>, swap: bool)
    requires Tables(devices, sent)
    ensures Owed(devices, sent, swap, CleanSync(devices, sent, swap))
    ensures Next(devices, SentAfter(devices, sent, CleanSync(devices, sent, swap)), swap) == None
    decreases Work(devices, sent, swap)
  {
    var p := Next(devices, sent, swap);
    if p.Some? {
      NextLowersWork(devices, sent, swap);
      var rest := CleanSync(devices, Commit(devices, sent, p.value), swap);
      CleanSyncSettles(devices, Commit(devices, sent, p.value), swap);
      assert ([p.value] + rest)[1..] == rest;
    }
  }

  /** What was queued so far is the beginning of the undisturbed synchronisation, and what
      is owed next is its next packet. */
  lemma {:induction false} QueuedIsABeginning(devices: Slots<Device>, sent: Slots<Device>,
                                              swap: bool, packets: seq<Packet>)
    requires Tables(devices, sent) && Owed(devices, sent, swap, packets)
    ensures var clean := CleanSync(devices, sent, swap);
      var next := Next(devices, SentAfter(devices, sent, packets), swap);
      && packets <= clean
      && next == (if |packets| < |clean| then Some(clean[|packets|]) else None)
  {
    CleanSyncSettles(devices, sent, swap);
    var clean := CleanSync(devices, sent, swap);
    OwedPrefix(devices, sent, swap, packets, clean);
    var next := Next(devices, SentAfter(devices, sent, packets), swap);
    if next.Some? {
      OweOneMore(devices, sent, swap, packets, next.value);
      OwedPrefix(devices, sent, swap, packets + [next.value], clean);
    } else {
      OwedPrefix(devices, sent, swap, clean, packets);
    }
  }

  /** A synchronisation that failed after `before` and one that goes on with `rest` queue
      together a beginning of the undisturbed synchronisation, and all of it exactly when
      nothing is owed any more. */
  lemma {:induction false} RetryIsExact(devices: Slots<Device>, sent: Slots<Device>, swap: bool,
                                        before: seq<Packet>, rest: seq<Packet>)
    requires Tables(devices, sent) && Owed(devices, sent, swap, before)
    requires Owed(devices, SentAfter(devices, sent, before), swap, rest)
    ensures Owed(devices, sent, swap, before + rest)
    ensures SentAfter(devices, sent, before + rest) == SentAfter(devices, SentAfter(devices, sent, before), rest)
    ensures before + rest <= CleanSync(devices, sent, swap)
    ensures before + rest == CleanSync(devices, sent, swap) <==>
            Next(devices, SentAfter(devices, sent, before + rest), swap) == None
  {
    OwedInTwoParts(devices, sent, swap, before, rest);
    QueuedIsABeginning(devices, sent, swap, before + rest);
  }

  /** A synchronisation owes nothing exactly when the acknowledged table is the desired one. */
  lemma {:induction false} NothingOwedExactlyWhenInSync(devices: Slots<Device>, sent: Slots<Device>, swap: bool)
    requires Tables(devices, sent)
    ensures Next(devices, sent, swap) == None <==>
            forall i :: 0 <= i < SLOTS ==> sent[i] == Desired(devices[i], swap)
  {
    if Next(devices, sent, swap) == None {
      forall i | 0 <= i < SLOTS
        ensures sent[i] == Desired(devices[i], swap)
      {
        assert !Stale(devices, sent, i) && !Unsettled(devices, sent, swap, i);
      }
    }
  }

  // --- the host --------------------------------------------------------------

  type Host = h: seq<Option<ControllerState>> | |h| == SLOTS witness seq(SLOTS, _ => None)

  const EMPTY_HOST: Host := seq(SLOTS, _ => None)

  /** The host reads the packets it is sent: an arrival plugs a neutral controller in, a
      report whose own mask bit is clear unplugs it. */
  function Replay(host: Host, p: Packet): Host {
    if p.slot >= SLOTS then host
    else if p.Arrival? then host[p.slot := Some(NEUTRAL)]
    else if p.slot in p.mask then host[p.slot := Some(p.state)]
    else host[p.slot := None]
  }

  /** Arrivals only for a free slot, reports only for a taken one, and the mask is the
      host's occupied set once the packet is in; what unplugs a controller lets go of all
      of it. */
  predicate Acceptable(host: Host, p: Packet) {
    && p.slot < SLOTS
    && (p.Arrival? <==> host[p.slot].None?)
    && (p.Report? && p.slot !in p.mask ==> p.state == ControllerState(0, 0, 0, 0, 0, 0, 0))
    && p.mask == Mask(Replay(host, p))
  }

  predicate AcceptableLog(host: Host, log: seq<Packet>)
    decreases |log|
  {
    log == [] || (Acceptable(host, log[0]) && AcceptableLog(Replay(host, log[0]), log[1..]))
  }

  function ReplayAll(host: Host, log: seq<Packet>): Host
    decreases |log|
  {
    if log == [] then host else ReplayAll(Replay(host, log[0]), log[1..])
  }

  function StateOf(device: Option<Device>): Option<ControllerState> {
    if device.Some? then Some(device.value.state) else None
  }

  function StatesOf(table: Slots<Device>): Host
    requires |table| == SLOTS
  {
    seq(SLOTS, i requires 0 <= i < SLOTS => StateOf(table[i]))
  }

  predicate DistinctIds(table: Slots<Device>) {
    forall i, j | 0 <= i < j < |table| ::
      table[i].Some? && table[j].Some? ==> table[i].value.id != table[j].value.id
  }

  /** One packet: the host stays the image of the acknowledged table, the packet is
      acceptable to it, and no identity is announced twice. */
  lemma {:induction false} NextIsAcceptable(devices: Slots<Device>, sent: Slots<Device>, swap: bool)
    requires Tables(devices, sent) && DistinctIds(devices) && DistinctIds(sent)
    requires Next(devices, sent, swap).Some?
    ensures var p := Next(devices, sent, swap).value;
      && Acceptable(StatesOf(sent), p)
      && Replay(StatesOf(sent), p) == StatesOf(Commit(devices, sent, p))
      && DistinctIds(Commit(devices, sent, p))
  {
    HostFollows(devices, sent, swap);
    MaskIsNext(devices, sent, swap);
    CommitKeepsIdsDistinct(devices, sent, swap);
    var sent' := Commit(devices, sent, Next(devices, sent, swap).value);
    assert Mask(StatesOf(sent')) == Mask(sent');
  }

  lemma {:induction false} HostFollows(devices: Slots<Device>, sent: Slots<Device>, swap: bool)
    requires Tables(devices, sent) && Next(devices, sent, swap).Some?
    ensures var p := Next(devices, sent, swap).value;
      && p.slot < SLOTS && (p.Arrival? <==> sent[p.slot].None?)
      && Replay(StatesOf(sent), p) == StatesOf(Commit(devices, sent, p))
  {
  }

  lemma {:induction false} MaskIsNext(devices: Slots<Device>, sent: Slots<Device>, swap: bool)
    requires Tables(devices, sent) && Next(devices, sent, swap).Some?
    ensures var p := Next(devices, sent, swap).value;
      p.mask == Mask(Commit(devices, sent, p))
  {
  }

  lemma {:induction false} CommitKeepsIdsDistinct(devices: Slots<Device>, sent: Slots<Device>, swap: bool)
    requires Tables(devices, sent) && DistinctIds(devices) && DistinctIds(sent)
    requires Next(devices, sent, swap).Some?
    ensures DistinctIds(Commit(devices, sent, Next(devices, sent, swap).value))
  {
    var p := Next(devices, sent, swap).value;
    if FirstStale(devices, sent, 0) < SLOTS {
      assert Commit(devices, sent, p) == sent[p.slot := None];
      IdsWithoutSlot(sent, p.slot);
    } else {
      AnnouncedIdsAreThere(devices, sent, swap);
      IdsFromDevices(devices, Commit(devices, sent, p));
    }
  }

  lemma {:induction false} IdsWithoutSlot(table: Slots<Device>, slot: nat)
    requires DistinctIds(table) && slot < |table|
    ensures DistinctIds(table[slot := None])
  {
  }

  /** In the second pass every announced identity is the one in the device table. */
  lemma {:induction false} AnnouncedIdsAreThere(devices: Slots<Device>, sent: Slots<Device>, swap: bool)
    requires Tables(devices, sent) && Next(devices, sent, swap).Some? && FirstStale(devices, sent, 0) == SLOTS
    ensures var sent' := Commit(devices, sent, Next(devices, sent, swap).value);
      forall i | 0 <= i < SLOTS && sent'[i].Some? :: devices[i].Some? && devices[i].value.id == sent'[i].value.id
  {
    var sent' := Commit(devices, sent, Next(devices, sent, swap).value);
    forall i | 0 <= i < SLOTS && sent'[i].Some?
      ensures devices[i].Some? && devices[i].value.id == sent'[i].value.id
    {
      assert !Stale(devices, sent, i);
    }
  }

  lemma {:induction false} IdsFromDevices(devices: Slots<Device>, table: Slots<Device>)
    requires |devices| == |table| && DistinctIds(devices)
    requires forall i | 0 <= i < |table| && table[i].Some? ::
      devices[i].Some? && devices[i].value.id == table[i].value.id
    ensures DistinctIds(table)
  {
  }

  /** Main result on the wire: the host that was the image of the acknowledged table is so
      after every packet, and every packet was acceptable to it when it came. */
  lemma {:induction false} OwedPacketsAreAcceptable(devices: Slots<Device>, sent: Slots<Device>,
                                                    swap: bool, packets: seq<Packet>)
    requires Tables(devices, sent) && DistinctIds(devices) && DistinctIds(sent)
    requires Owed(devices, sent, swap, packets)
    ensures AcceptableLog(StatesOf(sent), packets)
    ensures ReplayAll(StatesOf(sent), packets) == StatesOf(SentAfter(devices, sent, packets))
    ensures DistinctIds(SentAfter(devices, sent, packets))
    decreases |packets|
  {
    if packets != [] {
      NextIsAcceptable(devices, sent, swap);
      OwedPacketsAreAcceptable(devices, Commit(devices, sent, packets[0]), swap, packets[1..]);
    }
  }

  lemma {:induction false} LogInTwoParts(host: Host, a: seq<Packet>, b: seq<Packet>)
    ensures ReplayAll(host, a + b) == ReplayAll(ReplayAll(host, a), b)
    ensures AcceptableLog(host, a) && AcceptableLog(ReplayAll(host, a), b) ==> AcceptableLog(host, a + b)
    decreases |a|
  {
    if a == [] {
      assert a + b == b;
    } else {
      assert (a + b)[0] == a[0] && (a + b)[1..] == a[1..] + b;
      LogInTwoParts(Replay(host, a[0]), a[1..], b);
    }
  }
}
