/** Routing direct touch to the host: native contacts, or one contact that drives the mouse. */
module Touch {
  import opened Options
  import opened AspectFit
  import opened RemoteHost

  const IDS: nat := 10

  type Screen = s: Size | s.width < WORD && s.height < WORD witness Size(0, 0)

  datatype Phase = PhaseDown | PhaseMove | PhaseUp | PhaseCancel

  datatype Change = Change(seat: nat, id: nat, phase: Phase, x: int, y: int)

  datatype Contact = Contact(seat: nat, localId: nat, remoteId: nat, position: Point)

  datatype Outcome = Done(handled: bool) | Failed(error: Error)

  function Clamp(v: real): real { if v < 0.0 then 0.0 else if v > 1.0 then 1.0 else v }

  predicate InUnit(v: real) { 0.0 <= v <= 1.0 }

  /** Window coordinates to coordinates in the letterboxed video; a new contact outside the
      video has none. */
  function VideoPosition(x: int, y: int, viewport: Screen, video: Screen, clamp: bool): Option<Point> {
    var fit := FitSize(video.width, video.height, viewport.width, viewport.height);
    if fit.width == 0 || fit.height == 0 then None
    else
      var px := (x as real - (viewport.width - fit.width) as real * 0.5) / fit.width as real;
      var py := (y as real - (viewport.height - fit.height) as real * 0.5) / fit.height as real;
      if !clamp && (!InUnit(px) || !InUnit(py)) then None else Some(Point(Clamp(px), Clamp(py)))
  }

  lemma {:induction false} RatioInUnit(offset: real, side: real)
    requires side > 0.0
    ensures InUnit(offset / side) <==> 0.0 <= offset <= side
  {
    assert offset / side * side == offset;
    if offset / side > 1.0 { assert offset / side * side > 1.0 * side; }
    if offset / side < 0.0 { assert offset / side * side < 0.0; }
  }

  /** Where a coordinate lies along a side of the picture: at its place in it, or at the
      border it is beyond. */
  predicate LiesAlong(at: real, coordinate: int, side: nat, viewportSide: nat) {
    var before := viewportSide - side;
    if 2 * coordinate < before then at == 0.0
    else if 2 * coordinate > viewportSide + side then at == 1.0
    else 2.0 * at * side as real == (2 * coordinate - before) as real
  }

  lemma {:induction false} RatioLiesAlong(coordinate: int, side: nat, viewportSide: nat)
    requires 0 < side <= viewportSide
    ensures var ratio := (coordinate as real - (viewportSide - side) as real * 0.5) / side as real;
      LiesAlong(Clamp(ratio), coordinate, side, viewportSide)
  {
    var offset := coordinate as real - (viewportSide - side) as real * 0.5;
    RatioInUnit(offset, side as real);
    assert offset / side as real * side as real == offset;
    if offset < 0.0 { assert offset / side as real < 0.0; }
  }

  /** A new contact has a position exactly when it is on the picture, borders included; one
      already down always has, if there is a picture.  The position is the contact's place on
      the picture, across and down, or on the border it is beyond. */
  lemma {:induction false} PositionExactlyOnThePicture(x: int, y: int, viewport: Screen, video: Screen, clamp: bool)
    ensures var fit := FitSize(video.width, video.height, viewport.width, viewport.height);
      var point := VideoPosition(x, y, viewport, video, clamp);
      && fit.width <= viewport.width && fit.height <= viewport.height
      && (point.Some? ==> InUnit(point.value.x) && InUnit(point.value.y))
      && (point.Some? ==>
            && LiesAlong(point.value.x, x, fit.width, viewport.width)
            && LiesAlong(point.value.y, y, fit.height, viewport.height))
      && (point.Some? <==>
            && fit.width > 0 && fit.height > 0
            && (clamp || (&& viewport.width - fit.width <= 2 * x <= viewport.width + fit.width
                          && viewport.height - fit.height <= 2 * y <= viewport.height + fit.height)))
  {
    var fit := FitSize(video.width, video.height, viewport.width, viewport.height);
    FitStaysInside(video.width, video.height, viewport.width, viewport.height);
    if fit.width > 0 && fit.height > 0 {
      RatioInUnit(x as real - (viewport.width - fit.width) as real * 0.5, fit.width as real);
      RatioInUnit(y as real - (viewport.height - fit.height) as real * 0.5, fit.height as real);
      RatioLiesAlong(x, fit.width, viewport.width);
      RatioLiesAlong(y, fit.height, viewport.height);
    }
  }

  // --- the tracking table ------------------------------------------------------

  function Find(contacts: seq<Contact>, seat: nat, id: nat, from: nat): (i: nat)
    requires from <= |contacts|
    ensures from <= i <= |contacts|
    ensures i < |contacts| ==> contacts[i].seat == seat && contacts[i].localId == id
    ensures forall k :: from <= k < i ==> !(contacts[k].seat == seat && contacts[k].localId == id)
    decreases |contacts| - from
  {
    if from == |contacts| || (contacts[from].seat == seat && contacts[from].localId == id) then from
    else Find(contacts, seat, id, from + 1)
  }

  predicate Taken(contacts: seq<Contact>, id: nat) {
    exists i :: 0 <= i < |contacts| && contacts[i].remoteId == id
  }

  function FreeId(contacts: seq<Contact>, from: nat): (id: nat)
    requires from <= IDS
    ensures from <= id <= IDS
    ensures id < IDS ==> !Taken(contacts, id)
    ensures forall k: nat :: from <= k < id ==> Taken(contacts, k)
    decreases IDS - from, contacts
  {
    if from == IDS || !Taken(contacts, from) then from else FreeId(contacts, from + 1)
  }

  function Ids(contacts: seq<Contact>): set<nat> {
    set i | 0 <= i < |contacts| :: contacts[i].remoteId
  }

  predicate Distinct(contacts: seq<Contact>) {
    && (forall i, j | 0 <= i < j < |contacts| :: contacts[i].remoteId != contacts[j].remoteId)
    && (forall i, j | 0 <= i < j < |contacts| ::
          !(contacts[i].seat == contacts[j].seat && contacts[i].localId == contacts[j].localId))
    && (forall i | 0 <= i < |contacts| :: contacts[i].remoteId < IDS)
  }

  predicate Tracks(native: Option<bool>, contacts: seq<Contact>, touches: set<nat>) {
    && Distinct(contacts)
    && (contacts != [] ==> native.Some?)
    && (native == Some(false) ==> |contacts| <= 1)
    && touches == (if native == Some(true) then Ids(contacts) else {})
  }

  lemma {:induction false} IdsOfOneMore(contacts: seq<Contact>, c: Contact)
    ensures Ids(contacts + [c]) == Ids(contacts) + {c.remoteId}
  {
    var more := contacts + [c];
    forall id: nat
      ensures id in Ids(more) <==> id in Ids(contacts) + {c.remoteId}
    {
      if id in Ids(contacts) {
        var i :| 0 <= i < |contacts| && contacts[i].remoteId == id;
        assert more[i].remoteId == id;
      } else if id == c.remoteId {
        assert more[|contacts|].remoteId == id;
      }
    }
  }

  lemma {:induction false} AsManyIdsAsContacts(contacts: seq<Contact>)
    requires Distinct(contacts)
    ensures |Ids(contacts)| == |contacts|
    decreases |contacts|
  {
    if contacts != [] {
      var init, last := contacts[..|contacts| - 1], contacts[|contacts| - 1];
      AsManyIdsAsContacts(init);
      IdsOfOneMore(init, last);
      assert contacts == init + [last];
      assert last.remoteId !in Ids(init);
    }
  }

  lemma {:induction false} NumbersBelow(n: nat) returns (all: set<nat>)
    ensures |all| == n && forall k: nat :: k in all <==> k < n
  {
    all := {};
    if n > 0 {
      var fewer := NumbersBelow(n - 1);
      all := fewer + {n - 1};
    }
  }

  lemma {:induction false} SubsetIsSmaller(small: set<nat>, large: set<nat>)
    requires small <= large
    ensures |small| <= |large|
    ensures |small| == |large| ==> small == large
    decreases small
  {
    if x: nat :| x in small {
      SubsetIsSmaller(small - {x}, large - {x});
      if |small| == |large| {
        assert small == (small - {x}) + {x} == large;
      }
    }
  }

  /** Pigeonhole: identifiers run out exactly when ten contacts are held. */
  lemma {:induction false} IdsRunOutAtTen(contacts: seq<Contact>)
    requires Distinct(contacts)
    ensures |contacts| <= IDS
    ensures FreeId(contacts, 0) == IDS <==> |contacts| == IDS
  {
    var all := NumbersBelow(IDS);
    AsManyIdsAsContacts(contacts);
    SubsetIsSmaller(Ids(contacts), all);
    var id := FreeId(contacts, 0);
    assert Taken(contacts, id) <==> id in Ids(contacts);
    if id == IDS {
      forall k: nat | k in all
        ensures k in Ids(contacts)
      {
        assert Taken(contacts, k);
      }
      SubsetIsSmaller(all, Ids(contacts));
    }
  }

  lemma {:induction false} OneMoreContact(contacts: seq<Contact>, c: Contact)
    requires Distinct(contacts) && c.remoteId < IDS && !Taken(contacts, c.remoteId)
    requires Find(contacts, c.seat, c.localId, 0) == |contacts|
    ensures Distinct(contacts + [c]) && Ids(contacts + [c]) == Ids(contacts) + {c.remoteId}
  {
    IdsOfOneMore(contacts, c);
  }

  lemma {:induction false} OneContactLess(contacts: seq<Contact>, index: nat)
    requires Distinct(contacts) && index < |contacts|
    ensures var fewer := contacts[..index] + contacts[index + 1..];
      Distinct(fewer) && Ids(fewer) == Ids(contacts) - {contacts[index].remoteId}
  {
    var fewer := contacts[..index] + contacts[index + 1..];
    assert forall i | 0 <= i < |fewer| :: fewer[i] == contacts[if i < index then i else i + 1];
    forall id: nat
      ensures id in Ids(fewer) <==> id in Ids(contacts) - {contacts[index].remoteId}
    {
      if id in Ids(contacts) && id != contacts[index].remoteId {
        var i :| 0 <= i < |contacts| && contacts[i].remoteId == id;
        assert fewer[if i < index then i else i - 1].remoteId == id;
      }
    }
  }

  lemma {:induction false} MovedContact(contacts: seq<Contact>, index: nat, at: Point)
    requires Distinct(contacts) && index < |contacts|
    ensures var moved := contacts[index := contacts[index].(position := at)];
      Distinct(moved) && Ids(moved) == Ids(contacts)
  {
    var moved := contacts[index := contacts[index].(position := at)];
    assert forall i | 0 <= i < |contacts| :: moved[i].remoteId == contacts[i].remoteId;
  }

  // --- what is sent ------------------------------------------------------------

  function KindOf(phase: Phase): TouchKind {
    match phase
    case PhaseDown => Down
    case PhaseMove => Move
    case PhaseUp => Up
    case PhaseCancel => Cancel
  }

  predicate Ends(phase: Phase) { phase == PhaseUp || phase == PhaseCancel }

  function BeginPackets(native: bool, id: nat, at: Point): seq<Packet> {
    if native then [RemoteHost.Touch(Down, id, at)] else [Position(at), MouseButton(Left, true)]
  }

  function ContinuePackets(native: bool, phase: Phase, id: nat, at: Point): seq<Packet> {
    if native then [RemoteHost.Touch(KindOf(phase), id, at)]
    else if phase == PhaseUp then [Position(at), MouseButton(Left, false)]
    else if phase == PhaseCancel then [MouseButton(Left, false)]
    else [Position(at)]
  }

  function ReleasePackets(native: bool): seq<Packet> {
    [if native then RemoteHost.Touch(CancelAll, 0, Point(0.0, 0.0)) else MouseButton(Left, false)]
  }

  /** What tells the host of a contact's event: a host that knows touch gets the event itself,
      another one the mouse in its stead. */
  function EventPackets(native: bool, phase: Phase, id: nat, at: Point): seq<Packet> {
    if native then
      match phase
      case PhaseDown => [RemoteHost.Touch(Down, id, at)]
      case PhaseMove => [RemoteHost.Touch(Move, id, at)]
      case PhaseUp => [RemoteHost.Touch(Up, id, at)]
      case PhaseCancel => [RemoteHost.Touch(Cancel, id, at)]
    else
      match phase
      case PhaseDown => [Position(at), MouseButton(Left, true)]
      case PhaseMove => [Position(at)]
      case PhaseUp => [Position(at), MouseButton(Left, false)]
      case PhaseCancel => [MouseButton(Left, false)]
  }

  /** The packets were tried in order up to the first that failed. */
  predicate TriedUntilFailure(tries: seq<Attempt>, packets: seq<Packet>) {
    && |tries| <= |packets| && Packets(tries) == packets[..|tries|]
    && (|tries| < |packets| ==> FirstError(tries).Some?)
    && (forall i :: 0 <= i < |tries| - 1 ==> tries[i].error.None?)
  }

  function Verdict(error: Option<Error>): Outcome {
    if error.Some? then Failed(error.value) else Done(true)
  }

  /** Touch input leaves keys and the other buttons alone, presses the left button only for
      a contact it keeps, and drops such a contact only once the button is up. */
  predicate MindsTheMouse(before: Host, after: Host, held: bool, holds: bool) {
    && after.keys == before.keys
    && (Middle in after.buttons <==> Middle in before.buttons)
    && (Right in after.buttons <==> Right in before.buttons)
    && (Left in after.buttons ==> Left in before.buttons || holds)
    && (held && !holds ==> Left !in after.buttons)
  }

  /** Dropping a native contact whose end the host has received. */
  lemma {:induction false} EndedNatively(contacts: seq<Contact>, index: nat, before: Host, after: Host)
    requires Tracks(Some(true), contacts, before.touches) && index < |contacts|
    requires after == before.(touches := before.touches - {contacts[index].remoteId})
    ensures Tracks(Some(true), contacts[..index] + contacts[index + 1..], after.touches)
    ensures MindsTheMouse(before, after, false, false)
  {
    OneContactLess(contacts, index);
  }

  /** Dropping the one contact that stood in for the mouse button, which is up again. */
  lemma {:induction false} EndedByMouse(contacts: seq<Contact>, index: nat, before: Host, after: Host)
    requires Tracks(Some(false), contacts, before.touches) && index < |contacts|
    requires after == Receive(before, MouseButton(Left, false))
    ensures contacts[..index] + contacts[index + 1..] == [] && Tracks(Some(false), [], after.touches)
    ensures MindsTheMouse(before, after, true, false)
  {
  }

  /** Keeping a contact, whether or not the mouse button that it stood for is up by now. */
  lemma {:induction false} KeptContact(native: bool, contacts: seq<Contact>, index: nat, at: Point,
                                       before: Host, after: Host)
    requires Tracks(Some(native), contacts, before.touches) && index < |contacts|
    requires after == before || (!native && after == Receive(before, MouseButton(Left, false)))
    ensures Tracks(Some(native), contacts[index := contacts[index].(position := at)], after.touches)
    ensures MindsTheMouse(before, after, !native, !native)
  {
    MovedContact(contacts, index, at);
  }

  lemma {:induction false} AllForgotten(native: bool, contacts: seq<Contact>, before: Host,
                                        after: Host, error: Option<Error>)
    requires Tracks(Some(native), contacts, before.touches) && contacts != []
    requires after == Try(before, Attempt(ReleasePackets(native)[0], error))
    ensures Tracks(None, [], after.touches) <==> error.None? || !native
    ensures error.None? ==> MindsTheMouse(before, after, !native, false)
  {
    assert contacts[0].remoteId in Ids(contacts);
  }

  class TouchInput {
    var native: Option<bool>
    var contacts: seq<Contact>

    /** The host's native contacts are exactly the tracked ones. */
    predicate Valid(host: Host)
      reads this
    {
      Tracks(native, contacts, host.touches)
    }

    /** A contact is standing in for the left mouse button. */
    predicate HoldsLeft()
      reads this
    {
      native == Some(false) && contacts != []
    }

    constructor ()
      ensures native == None && contacts == []
    {
      native, contacts := None, [];
    }

    /** The host is asked whether it knows touch exactly when that is not known yet, and its
        answer, unless it failed, is remembered. */
    predicate AskedAs(was: Option<bool>, asked: seq<Query>)
      reads this
    {
      if was.Some? then asked == [] && native == was
      else |asked| == 1 && native == if asked[0].error.Some? then None else Some(asked[0].supported)
    }

    /** What became of a new contact on the picture once the mode is known: where the host
        knows touch it is refused exactly when ten contacts are held, else when one is. */
    predicate ToldAs(change: Change, at: Point, outcome: Outcome, tries: seq<Attempt>, before: seq<Contact>)
      requires native.Some?
      reads this
    {
      if (if native.value then |before| == IDS else before != []) then
        outcome == Done(false) && tries == [] && contacts == before
      else
        var id := FreeId(before, 0);
        && TriedUntilFailure(tries, BeginPackets(native.value, id, at))
        && outcome == Verdict(FirstError(tries))
        && contacts == if outcome.Done? then before + [Contact(change.seat, change.id, id, at)] else before
    }

    /** What became of it, given the mode and the table before it. */
    predicate BeganAs(change: Change, at: Point, outcome: Outcome, tries: seq<Attempt>, asked: seq<Query>,
                      was: Option<bool>, before: seq<Contact>)
      reads this
    {
      && AskedAs(was, asked)
      && if native.Some? then ToldAs(change, at, outcome, tries, before)
         else outcome == Failed(asked[0].error.value) && tries == [] && contacts == before
    }

    /** What became of a change to the tracked contact `index`. */
    predicate ContinuedAs(phase: Phase, index: nat, at: Option<Point>, outcome: Outcome,
                          tries: seq<Attempt>, before: seq<Contact>)
      requires index < |before|
      reads this
    {
      var point := if at.Some? then at.value else before[index].position;
      && Packets(tries) == ContinuePackets(native == Some(true), phase, before[index].remoteId, point)
      && outcome == Verdict(FirstError(tries))
      && contacts == (if Ends(phase) && outcome.Done? then before[..index] + before[index + 1..]
                      else before[index := before[index].(position := point)])
    }

    /** What became of a touch event at `point`, given the mode and the table before it. */
    predicate RoutedAs(change: Change, point: Option<Point>, outcome: Outcome, tries: seq<Attempt>,
                       asked: seq<Query>, was: Option<bool>, before: seq<Contact>)
      reads this
    {
      var known := Find(before, change.seat, change.id, 0);
      if known == |before| && change.phase == PhaseDown && point.Some? then
        BeganAs(change, point.value, outcome, tries, asked, was, before)
      else
        && asked == [] && native == was
        && if known < |before| && change.phase != PhaseDown then
             ContinuedAs(change.phase, known, point, outcome, tries, before)
           else
             outcome == Done(known < |before| && change.phase == PhaseDown) && tries == [] && contacts == before
    }

    /** Whatever is sent for an event tells the host of that event: of its phase, for the
        contact's own or the lowest free identifier, at the event's position or, where there is
        no picture, the contact's last one.  Nothing of it is missing once the event counts as
        handled.  Only then is a contact entered or dropped; a tracked one takes the position,
        and when the host is told nothing the table stays as it was. */
    lemma {:induction false} EventsAreTold(change: Change, point: Option<Point>, outcome: Outcome,
                                           tries: seq<Attempt>, asked: seq<Query>, was: Option<bool>,
                                           before: seq<Contact>)
      requires RoutedAs(change, point, outcome, tries, asked, was, before)
      ensures tries == [] ==> contacts == before
      ensures tries != [] ==>
                var known := Find(before, change.seat, change.id, 0);
                && (change.phase == PhaseDown <==> known == |before|)
                && (change.phase == PhaseDown ==> point.Some?)
                && var id := if change.phase == PhaseDown then FreeId(before, 0) else before[known].remoteId;
                   var at := if point.Some? then point.value else before[known].position;
                   var packets := EventPackets(native == Some(true), change.phase, id, at);
                   && Packets(tries) <= packets
                   && (outcome == Done(true) ==> Packets(tries) == packets && FirstError(tries) == None)
                   && contacts ==
                      match change.phase
                      case PhaseDown =>
                        if outcome == Done(true) then before + [Contact(change.seat, change.id, id, at)] else before
                      case PhaseMove => before[known := before[known].(position := at)]
                      case _ =>
                        if outcome == Done(true) then before[..known] + before[known + 1..]
                        else before[known := before[known].(position := at)]
    {
    }

    /** One touch event.  Whatever sends fail, the host's native contacts stay the tracked
        ones and the mouse button is minded. */
    method Route(change: Change, viewport: Screen, video: Screen, control: Control)
      returns (outcome: Outcome, ghost tries: seq<Attempt>, ghost asked: seq<Query>)
      requires Valid(control.Host())
      modifies this, control
      ensures Valid(control.Host())
      ensures control.log == old(control.log) + tries && control.queries == old(control.queries) + asked
      ensures MindsTheMouse(old(control.Host()), control.Host(), old(HoldsLeft()), HoldsLeft())
      ensures RoutedAs(change, VideoPosition(change.x, change.y, viewport, video, change.phase != PhaseDown),
                       outcome, tries, asked, old(native), old(contacts))
    {
      var point := VideoPosition(change.x, change.y, viewport, video, change.phase != PhaseDown);
      outcome, tries, asked := RouteTo(change, point, control);
    }

    method RouteTo(change: Change, point: Option<Point>, control: Control)
      returns (outcome: Outcome, ghost tries: seq<Attempt>, ghost asked: seq<Query>)
      requires Valid(control.Host())
      modifies this, control
      ensures Valid(control.Host())
      ensures control.log == old(control.log) + tries && control.queries == old(control.queries) + asked
      ensures MindsTheMouse(old(control.Host()), control.Host(), old(HoldsLeft()), HoldsLeft())
      ensures RoutedAs(change, point, outcome, tries, asked, old(native), old(contacts))
    {
      var existing := Find(contacts, change.seat, change.id, 0);
      asked := [];
      if change.phase == PhaseDown {
        if existing < |contacts| {
          return Done(true), [], [];
        }
        if point.None? {
          return Done(false), [], [];
        }
        outcome, tries, asked := Begin(change, point.value, control);
      } else {
        if existing == |contacts| {
          return Done(false), [], [];
        }
        outcome, tries := Continue(change.phase, existing, point, control);
      }
    }

    method Begin(change: Change, at: Point, control: Control)
      returns (outcome: Outcome, ghost tries: seq<Attempt>, ghost asked: seq<Query>)
      requires Valid(control.Host()) && Find(contacts, change.seat, change.id, 0) == |contacts|
      modifies this, control
      ensures Valid(control.Host())
      ensures control.log == old(control.log) + tries && control.queries == old(control.queries) + asked
      ensures MindsTheMouse(old(control.Host()), control.Host(), old(HoldsLeft()), HoldsLeft())
      ensures BeganAs(change, at, outcome, tries, asked, old(native), old(contacts))
    {
      asked := [];
      if native.None? {
        var answer := control.SupportsTouch();
        asked := [answer];
        if answer.error.Some? {
          return Failed(answer.error.value), [], asked;
        }
        native := Some(answer.supported);
      }
      outcome, tries := BeginInMode(change, at, control);
    }

    method BeginInMode(change: Change, at: Point, control: Control)
      returns (outcome: Outcome, ghost tries: seq<Attempt>)
      requires Valid(control.Host()) && Find(contacts, change.seat, change.id, 0) == |contacts| && native.Some?
      modifies this`contacts, control`log
      ensures Valid(control.Host())
      ensures control.log == old(control.log) + tries
      ensures MindsTheMouse(old(control.Host()), control.Host(), old(HoldsLeft()), HoldsLeft())
      ensures ToldAs(change, at, outcome, tries, old(contacts))
    {
      IdsRunOutAtTen(contacts);
      if !native.value && contacts != [] {
        return Done(false), [];
      }
      var id := FreeId(contacts, 0);
      if id == IDS {
        return Done(false), [];
      }
      outcome, tries := Accept(Contact(change.seat, change.id, id, at), control);
    }

    /** Presses a contact whose identifier is free and tracks it once the host has it. */
    method Accept(contact: Contact, control: Control) returns (outcome: Outcome, ghost tries: seq<Attempt>)
      requires Valid(control.Host()) && Find(contacts, contact.seat, contact.localId, 0) == |contacts|
      requires contact.remoteId < IDS && !Taken(contacts, contact.remoteId)
      requires native.Some? && (native.value || contacts == [])
      modifies this`contacts, control`log
      ensures Valid(control.Host())
      ensures control.log == old(control.log) + tries
      ensures MindsTheMouse(old(control.Host()), control.Host(), old(HoldsLeft()), HoldsLeft())
      ensures TriedUntilFailure(tries, BeginPackets(native.value, contact.remoteId, contact.position))
      ensures outcome == Verdict(FirstError(tries))
      ensures contacts == if outcome.Done? then old(contacts) + [contact] else old(contacts)
    {
      outcome, tries := Press(contact.remoteId, contact.position, control);
      if outcome.Done? {
        OneMoreContact(contacts, contact);
        contacts := contacts + [contact];
      }
    }

    /** Presses a new contact, or the mouse button in its stead. */
    method Press(id: nat, at: Point, control: Control) returns (outcome: Outcome, ghost tries: seq<Attempt>)
      requires native.Some?
      modifies control`log
      ensures control.log == old(control.log) + tries
      ensures TriedUntilFailure(tries, BeginPackets(native.value, id, at))
      ensures outcome == Verdict(FirstError(tries))
      ensures control.Host() ==
              if outcome.Failed? then old(control.Host())
              else if native.value then Receive(old(control.Host()), RemoteHost.Touch(Down, id, at))
              else Receive(old(control.Host()), MouseButton(Left, true))
    {
      if native.value {
        var error := control.Send(RemoteHost.Touch(Down, id, at));
        return Verdict(error), [Attempt(RemoteHost.Touch(Down, id, at), error)];
      }
      var error := control.Send(Position(at));
      tries := [Attempt(Position(at), error)];
      if error.Some? {
        return Failed(error.value), tries;
      }
      error := control.Send(MouseButton(Left, true));
      OneMore(NOTHING_HELD, tries, Attempt(MouseButton(Left, true), error));
      return Verdict(error), tries + [Attempt(MouseButton(Left, true), error)];
    }

    method Continue(phase: Phase, index: nat, point: Option<Point>, control: Control)
      returns (outcome: Outcome, ghost tries: seq<Attempt>)
      requires Valid(control.Host()) && index < |contacts| && phase != PhaseDown
      modifies this`contacts, control`log
      ensures Valid(control.Host())
      ensures control.log == old(control.log) + tries
      ensures MindsTheMouse(old(control.Host()), control.Host(), old(HoldsLeft()), HoldsLeft())
      ensures ContinuedAs(phase, index, point, outcome, tries, old(contacts))
    {
      var contact := contacts[index];
      var at := if point.Some? then point.value else contact.position;
      outcome, tries := Follow(phase, contact.remoteId, at, control);
      if Ends(phase) && outcome.Done? {
        if native.value {
          EndedNatively(contacts, index, old(control.Host()), control.Host());
        } else {
          EndedByMouse(contacts, index, old(control.Host()), control.Host());
        }
        contacts := contacts[..index] + contacts[index + 1..];
      } else {
        KeptContact(native.value, contacts, index, at, old(control.Host()), control.Host());
        contacts := contacts[index := contact.(position := at)];
      }
    }

    /** What a tracked contact's change sends.  In mouse mode an ending contact releases the
        button even when its final position could not be sent. */
    method Follow(phase: Phase, id: nat, at: Point, control: Control)
      returns (outcome: Outcome, ghost tries: seq<Attempt>)
      requires phase != PhaseDown
      modifies control`log
      ensures control.log == old(control.log) + tries
      ensures Packets(tries) == ContinuePackets(native == Some(true), phase, id, at)
      ensures outcome == Verdict(FirstError(tries))
      ensures Ends(phase) && outcome.Done? ==>
                var before := old(control.Host());
                control.Host() == if native == Some(true) then before.(touches := before.touches - {id})
                                  else Receive(before, MouseButton(Left, false))
      ensures !(Ends(phase) && outcome.Done?) ==>
                || control.Host() == old(control.Host())
                || (native != Some(true) && control.Host() == Receive(old(control.Host()), MouseButton(Left, false)))
    {
      if native == Some(true) {
        outcome, tries := Tell(RemoteHost.Touch(KindOf(phase), id, at), control);
      } else if Ends(phase) {
        outcome, tries := LetGo(phase == PhaseUp, at, control);
      } else {
        outcome, tries := Tell(Position(at), control);
      }
    }

    static method Tell(p: Packet, control: Control) returns (outcome: Outcome, ghost tries: seq<Attempt>)
      modifies control`log
      ensures control.log == old(control.log) + tries
      ensures Packets(tries) == [p] && outcome == Verdict(FirstError(tries))
      ensures control.Host() == if outcome.Done? then Receive(old(control.Host()), p) else old(control.Host())
    {
      var error := control.Send(p);
      return Verdict(error), [Attempt(p, error)];
    }

    /** Ends a contact that stood in for the left button, after its final position if it was
        lifted; the button is let go of even when that position could not be sent. */
    static method LetGo(lifted: bool, at: Point, control: Control) returns (outcome: Outcome, ghost tries: seq<Attempt>)
      modifies control`log
      ensures control.log == old(control.log) + tries
      ensures Packets(tries) == if lifted then [Position(at), MouseButton(Left, false)] else [MouseButton(Left, false)]
      ensures outcome == Verdict(FirstError(tries))
      ensures || control.Host() == Receive(old(control.Host()), MouseButton(Left, false))
              || (control.Host() == old(control.Host()) && outcome.Failed?)
    {
      outcome, tries := Done(true), [];
      if lifted {
        outcome, tries := Tell(Position(at), control);
      }
      var release := control.Send(MouseButton(Left, false));
      OneMore(NOTHING_HELD, tries, Attempt(MouseButton(Left, false), release));
      tries := tries + [Attempt(MouseButton(Left, false), release)];
      outcome := if outcome.Failed? then outcome else Verdict(release);
    }

    static method LiftAll(native: bool, control: Control) returns (error: Option<Error>, ghost tries: seq<Attempt>)
      modifies control`log
      ensures control.log == old(control.log) + tries
      ensures Packets(tries) == ReleasePackets(native) && error == FirstError(tries)
      ensures control.Host() == Try(old(control.Host()), Attempt(ReleasePackets(native)[0], error))
      ensures control.Host() == ReceiveAll(old(control.Host()), tries)
    {
      var packet := ReleasePackets(native)[0];
      error := control.Send(packet);
      tries := [Attempt(packet, error)];
    }

    /** Lifts whatever is held and forgets it, even when the host could not be told; the
        host's native contacts are tracked afterwards exactly when it was, or had none. */
    method ReleaseTo(control: Control) returns (error: Option<Error>, ghost tries: seq<Attempt>)
      requires Valid(control.Host())
      modifies this, control`log
      ensures contacts == [] && native == if old(contacts) == [] then old(native) else None
      ensures control.log == old(control.log) + tries
      ensures Packets(tries) == if old(contacts) == [] then [] else ReleasePackets(old(native) == Some(true))
      ensures error == FirstError(tries)
      ensures control.Host() == ReceiveAll(old(control.Host()), tries)
      ensures Valid(control.Host()) <==> error.None? || old(native) == Some(false)
      ensures error.None? ==>
                MindsTheMouse(old(control.Host()), control.Host(), old(HoldsLeft()), HoldsLeft())
    {
      if contacts == [] {
        return None, [];
      }
      error, tries := LiftAll(native.value, control);
      AllForgotten(native.value, contacts, old(control.Host()), control.Host(), error);
      contacts := [];
      native := None;
    }
  }
}
