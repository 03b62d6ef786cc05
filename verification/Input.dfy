/** Tracking what the host was told is held down, so that all of it can be let go. */
module Input {
  import opened Options
  import opened RemoteHost
  import opened Keyboard
  import opened Touch
  import opened Sequences

  // --- the mouse-button bits ----------------------------------------------------

  const BUTTONS: seq<Button> := [Left, Middle, Right]

  function Bit(b: Button): bv8 {
    match b
    case Left => 1
    case Middle => 2
    case Right => 4
  }

  predicate Has(bits: bv8, b: Button) { bits & Bit(b) != 0 }

  function Updated(bits: bv8, b: Button, pressed: bool): bv8 {
    if pressed then bits | Bit(b) else bits & !Bit(b)
  }

  lemma {:induction false} UpdatesOneBit(bits: bv8, b: Button, pressed: bool, c: Button)
    ensures Has(Updated(bits, b, pressed), c) <==> if c == b then pressed else Has(bits, c)
  {
  }

  // --- what letting go sends -----------------------------------------------------

  function KeyReleases(order: seq<nat>): seq<Packet> {
    seq(|order|, i requires 0 <= i < |order| => Key(WireKeyCode(order[i]), false))
  }

  /** The first `n` buttons, those that are pressed. */
  function ButtonReleases(bits: bv8, n: nat): (r: seq<Packet>)
    requires n <= |BUTTONS|
  {
    if n == 0 then []
    else ButtonReleases(bits, n - 1) + if Has(bits, BUTTONS[n - 1]) then [MouseButton(BUTTONS[n - 1], false)] else []
  }

  lemma {:induction false} LeastOf(keys: set<nat>) returns (least: nat)
    requires keys != {}
    ensures least in keys && forall j | j in keys :: least <= j
  {
    least :| least in keys;
    if keys != {least} {
      var other := LeastOf(keys - {least});
      assert forall j | j in keys :: j == least || j in keys - {least};
      least := if other < least then other else least;
    }
  }

  function Least(keys: set<nat>): (k: nat)
    requires keys != {}
    ensures k in keys && forall j | j in keys :: k <= j
  {
    assert exists k :: k in keys && forall j | j in keys :: k <= j by {
      var k := LeastOf(keys);
    }
    var k :| k in keys && forall j | j in keys :: k <= j;
    k
  }

  /** An ordered set is iterated in ascending order. */
  function Ascending(keys: set<nat>): (order: seq<nat>)
    ensures forall k :: k in order <==> k in keys
    ensures forall i, j | 0 <= i < j < |order| :: order[i] < order[j]
  {
    if keys == {} then [] else [Least(keys)] + Ascending(keys - {Least(keys)})
  }

  predicate Releases(p: Packet) {
    match p
    case Key(_, pressed) => !pressed
    case MouseButton(_, pressed) => !pressed
    case Touch(kind, _, _) => kind == CancelAll
    case Position(_) => false
  }

  predicate NeverQueued(tries: seq<Attempt>, p: Packet) {
    forall i | 0 <= i < |tries| :: tries[i].packet == p ==> tries[i].error.Some?
  }

  predicate ContactsLifted(tries: seq<Attempt>) {
    exists i :: 0 <= i < |tries| && tries[i].packet.Touch? && tries[i].error.None?
  }

  /** What was held and was not successfully let go is still held, and nothing else is. */
  ghost predicate OnlyFailuresStayHeld(before: Host, after: Host, tries: seq<Attempt>) {
    && (forall c: nat :: c in after.keys <==> c in before.keys && NeverQueued(tries, Key(c, false)))
    && (forall b: Button :: b in after.buttons <==> b in before.buttons && NeverQueued(tries, MouseButton(b, false)))
    && after.touches == if ContactsLifted(tries) then {} else before.touches
  }

  lemma {:induction false} LettingGo(h: Host, tries: seq<Attempt>)
    requires forall i | 0 <= i < |tries| :: Releases(tries[i].packet)
    ensures OnlyFailuresStayHeld(h, ReceiveAll(h, tries), tries)
  {
    if tries != [] {
      var init, last := tries[..|tries| - 1], tries[|tries| - 1];
      LettingGo(h, init);
      forall p: Packet
        ensures NeverQueued(tries, p) <==> NeverQueued(init, p) && (last.packet == p ==> last.error.Some?)
      {
      }
      assert ContactsLifted(tries) <==> ContactsLifted(init) || (last.packet.Touch? && last.error.None?);
    }
  }

  lemma {:induction false} PressedButtonIsReleased(bits: bv8, b: Button, n: nat)
    requires n <= |BUTTONS|
    ensures MouseButton(b, false) in ButtonReleases(bits, n) <==> Has(bits, b) && b in BUTTONS[..n]
    ensures forall p | p in ButtonReleases(bits, n) :: p.MouseButton? && Releases(p)
  {
    if n > 0 {
      PressedButtonIsReleased(bits, b, n - 1);
      assert BUTTONS[..n] == BUTTONS[..n - 1] + [BUTTONS[n - 1]];
    }
  }

  /** The host's keys are the wire codes of the tracked keys, each standing for one key. */
  ghost predicate OnTheWire(keys: set<nat>, codes: set<nat>) {
    && (forall k :: k in keys ==> k < 0x100)
    && (forall c :: c in codes ==> 0x8000 <= c < 0x8100)
    && (forall k: nat | k < 0x100 :: k in keys <==> WireKeyCode(k) in codes)
  }

  lemma {:induction false} KeyOnTheWire(keys: set<nat>, codes: set<nat>, vk: nat)
    requires OnTheWire(keys, codes) && vk < 0x100
    ensures OnTheWire(keys + {vk}, codes + {WireKeyCode(vk)})
    ensures OnTheWire(keys - {vk}, codes - {WireKeyCode(vk)})
  {
    CodeOnTheWire(vk);
    forall k: nat | k < 0x100
      ensures WireKeyCode(k) == WireKeyCode(vk) <==> k == vk
    {
      CodeOnTheWire(k);
    }
  }

  function Tracked(keys: set<nat>, vk: nat, pressed: bool, outcome: Outcome): set<nat> {
    if outcome.Failed? then keys else if pressed then keys + {vk} else keys - {vk}
  }

  lemma {:induction false} SucceededOrNotTried(tries: seq<Attempt>, p: Packet)
    requires FirstError(tries) == None
    ensures NeverQueued(tries, p) <==> p !in Packets(tries)
  {
    NoErrorMeansAllSucceeded(tries);
    if p in Packets(tries) {
      var i :| 0 <= i < |tries| && Packets(tries)[i] == p;
      assert tries[i].packet == p;
    }
    forall i | 0 <= i < |tries| && tries[i].packet == p
      ensures p in Packets(tries)
    {
      assert Packets(tries)[i] == p;
    }
  }

  lemma {:induction false} EveryButtonReleased(bits: bv8, b: Button)
    requires Has(bits, b)
    ensures MouseButton(b, false) in ButtonReleases(bits, |BUTTONS|)
  {
    PressedButtonIsReleased(bits, b, |BUTTONS|);
    assert BUTTONS[0] == Left && BUTTONS[1] == Middle && BUTTONS[2] == Right;
  }

  /** Releasing the pressed mouse buttons. */
  lemma {:induction false} MouseLetGo(bits: bv8, h: Host, tries: seq<Attempt>)
    requires Packets(tries) == ButtonReleases(bits, |BUTTONS|)
    ensures OnlyFailuresStayHeld(h, ReceiveAll(h, tries), tries)
    ensures ReceiveAll(h, tries).touches == h.touches && ReceiveAll(h, tries).keys == h.keys
    ensures FirstError(tries) == None ==>
              forall b: Button :: b in ReceiveAll(h, tries).buttons <==> b in h.buttons && !Has(bits, b)
  {
    forall b: Button
      ensures MouseButton(b, false) in Packets(tries) <==> Has(bits, b)
    {
      PressedButtonIsReleased(bits, b, |BUTTONS|);
      if Has(bits, b) { EveryButtonReleased(bits, b); }
    }
    forall i | 0 <= i < |tries|
      ensures tries[i].packet.MouseButton? && Releases(tries[i].packet)
    {
      assert Packets(tries)[i] in Packets(tries);
      PressedButtonIsReleased(bits, Left, |BUTTONS|);
    }
    LettingGo(h, tries);
    if FirstError(tries) == None {
      forall b: Button { SucceededOrNotTried(tries, MouseButton(b, false)); }
    }
  }

  function AllReleases(native: Option<bool>, contacts: seq<Contact>, keys: set<nat>, bits: bv8): seq<Packet> {
    (if contacts == [] then [] else ReleasePackets(native == Some(true))) +
    KeyReleases(Ascending(keys)) +
    ButtonReleases(bits, |BUTTONS|)
  }

  /** The packets let go of everything that is tracked, and press nothing. */
  ghost predicate LetsGo(ps: seq<Packet>, native: Option<bool>, contacts: seq<Contact>, keys: set<nat>, bits: bv8) {
    && (forall i | 0 <= i < |ps| :: Releases(ps[i]))
    && (forall k | k in keys :: Key(WireKeyCode(k), false) in ps)
    && (forall b: Button | Has(bits, b) :: MouseButton(b, false) in ps)
    && (contacts != [] ==> ReleasePackets(native == Some(true))[0] in ps)
  }

  lemma {:induction false} EveryKeyReleased(keys: set<nat>, k: nat)
    requires k in keys
    ensures Key(WireKeyCode(k), false) in KeyReleases(Ascending(keys))
  {
    var order := Ascending(keys);
    var i :| 0 <= i < |order| && order[i] == k;
    assert KeyReleases(order)[i] == Key(WireKeyCode(k), false);
  }

  lemma {:induction false} AllReleasesLetGo(native: Option<bool>, contacts: seq<Contact>, keys: set<nat>, bits: bv8)
    ensures LetsGo(AllReleases(native, contacts, keys, bits), native, contacts, keys, bits)
  {
    forall k | k in keys { EveryKeyReleased(keys, k); }
    forall b: Button | Has(bits, b) { EveryButtonReleased(bits, b); }
    PressedButtonIsReleased(bits, Left, |BUTTONS|);
    assert forall p | p in AllReleases(native, contacts, keys, bits) :: Releases(p);
  }

  /** The tracking an `Agrees` host goes with. */
  ghost predicate Holds(h: Host, native: Option<bool>, contacts: seq<Contact>, keys: set<nat>, bits: bv8) {
    && Tracks(native, contacts, h.touches)
    && OnTheWire(keys, h.keys)
    && (Middle in h.buttons <==> Has(bits, Middle))
    && (Right in h.buttons <==> Has(bits, Right))
    && (Left in h.buttons ==> Has(bits, Left) || (native == Some(false) && contacts != []))
  }

  lemma {:induction false} EveryButtonLetGo(native: Option<bool>, contacts: seq<Contact>, keys: set<nat>, bits: bv8,
                                            h: Host, tries: seq<Attempt>, b: Button)
    requires LetsGo(Packets(tries), native, contacts, keys, bits) && FirstError(tries) == None
    requires Holds(h, native, contacts, keys, bits) && b in h.buttons
    ensures !NeverQueued(tries, MouseButton(b, false))
  {
    SucceededOrNotTried(tries, MouseButton(b, false));
  }

  lemma {:induction false} EveryKeyLetGo(native: Option<bool>, contacts: seq<Contact>, keys: set<nat>, bits: bv8,
                                         h: Host, tries: seq<Attempt>, c: nat)
    requires LetsGo(Packets(tries), native, contacts, keys, bits) && FirstError(tries) == None
    requires OnTheWire(keys, h.keys) && c in h.keys
    ensures !NeverQueued(tries, Key(c, false))
  {
    CodeOnTheWire(c - 0x8000);
    SucceededOrNotTried(tries, Key(c, false));
  }

  /** Nothing stays held: once every release has been queued the host holds nothing. */
  lemma {:induction false} NothingStaysHeld(native: Option<bool>, contacts: seq<Contact>, keys: set<nat>, bits: bv8,
                                            h: Host, tries: seq<Attempt>)
    requires LetsGo(Packets(tries), native, contacts, keys, bits) && Holds(h, native, contacts, keys, bits)
    requires OnlyFailuresStayHeld(h, ReceiveAll(h, tries), tries)
    ensures FirstError(tries) == None ==> ReceiveAll(h, tries) == NOTHING_HELD
  {
    if FirstError(tries) == None {
      forall c | c in h.keys { EveryKeyLetGo(native, contacts, keys, bits, h, tries, c); }
      forall b: Button | b in h.buttons { EveryButtonLetGo(native, contacts, keys, bits, h, tries, b); }
      if h.touches != {} {
        SucceededOrNotTried(tries, ReleasePackets(true)[0]);
        assert ContactsLifted(tries);
      }
      assert ReceiveAll(h, tries).keys == {} && ReceiveAll(h, tries).buttons == {};
    }
  }

  lemma {:induction false} AllLetGo(native: Option<bool>, contacts: seq<Contact>, keys: set<nat>, bits: bv8,
                                    h: Host, tries: seq<Attempt>)
    requires Packets(tries) == AllReleases(native, contacts, keys, bits) && Holds(h, native, contacts, keys, bits)
    ensures OnlyFailuresStayHeld(h, ReceiveAll(h, tries), tries)
    ensures FirstError(tries) == None ==> ReceiveAll(h, tries) == NOTHING_HELD
  {
    AllReleasesLetGo(native, contacts, keys, bits);
    assert forall i | 0 <= i < |tries| :: tries[i].packet == Packets(tries)[i];
    LettingGo(h, tries);
    NothingStaysHeld(native, contacts, keys, bits, h, tries);
  }

  lemma {:induction false} OneKeyMore(order: seq<nat>, i: nat)
    requires i < |order|
    ensures KeyReleases(order[..i + 1]) == KeyReleases(order[..i]) + [Key(WireKeyCode(order[i]), false)]
  {
  }

  /** The tries made since the log was `log` and the host held `h`, and the error to report. */
  ghost predicate Reported(control: Control, log: seq<Attempt>, h: Host, tries: seq<Attempt>, first: Option<Error>)
    reads control`log
  {
    && control.log == log + tries
    && control.Host() == ReceiveAll(h, tries)
    && first == FirstError(tries)
  }

  class RemoteInput {
    var touches: TouchInput
    var keys: set<nat>
    var mouseButtons: bv8

    /** The tracking agrees with what the host holds: keys and the middle and right buttons
        exactly; the left button is held only for itself or for a contact standing in. */
    ghost predicate Agrees(host: Host)
      reads this, touches
    {
      Holds(host, touches.native, touches.contacts, keys, mouseButtons)
    }

    constructor ()
      ensures Agrees(NOTHING_HELD) && fresh(touches)
    {
      touches := new TouchInput();
      keys, mouseButtons := {}, 0;
    }

    /** A key event is tracked exactly when it was queued. */
    method SendKey(keycode: KeyCode, pressed: bool, control: Control)
      returns (outcome: Outcome, ghost tries: seq<Attempt>)
      requires Agrees(control.Host())
      modifies this`keys, control`log
      ensures Agrees(control.Host())
      ensures control.log == old(control.log) + tries
      ensures match KeycodeToVk(keycode)
              case None => outcome == Done(false) && tries == [] && keys == old(keys)
              case Some(vk) =>
                && Packets(tries) == [Key(WireKeyCode(vk), pressed)] && outcome == Verdict(FirstError(tries))
                && keys == Tracked(old(keys), vk, pressed, outcome)
    {
      var vk := KeycodeToVk(keycode);
      if vk.None? {
        return Done(false), [];
      }
      outcome, tries := SendVirtualKey(vk.value, pressed, control);
    }

    method SendVirtualKey(vk: nat, pressed: bool, control: Control)
      returns (outcome: Outcome, ghost tries: seq<Attempt>)
      requires Agrees(control.Host()) && vk < 0x100
      modifies this`keys, control`log
      ensures Agrees(control.Host())
      ensures control.log == old(control.log) + tries
      ensures Packets(tries) == [Key(WireKeyCode(vk), pressed)] && outcome == Verdict(FirstError(tries))
      ensures keys == Tracked(old(keys), vk, pressed, outcome)
    {
      var error := control.Send(Key(WireKeyCode(vk), pressed));
      if error.None? {
        KeyOnTheWire(keys, old(control.Host()).keys, vk);
        keys := if pressed then keys + {vk} else keys - {vk};
      }
      return Verdict(error), [Attempt(Key(WireKeyCode(vk), pressed), error)];
    }

    /** A mouse button is tracked exactly when the event was queued. */
    method SendMouseButton(button: Button, pressed: bool, control: Control)
      returns (error: Option<Error>)
      requires Agrees(control.Host())
      modifies this`mouseButtons, control`log
      ensures Agrees(control.Host())
      ensures control.log == old(control.log) + [Attempt(MouseButton(button, pressed), error)]
      ensures mouseButtons == if error.None? then Updated(old(mouseButtons), button, pressed) else old(mouseButtons)
    {
      error := control.Send(MouseButton(button, pressed));
      if error.Some? {
        return;
      }
      UpdatesOneBit(mouseButtons, button, pressed, Left);
      UpdatesOneBit(mouseButtons, button, pressed, Middle);
      UpdatesOneBit(mouseButtons, button, pressed, Right);
      mouseButtons := Updated(mouseButtons, button, pressed);
    }

    method SendTouch(change: Change, viewport: Screen, video: Screen, control: Control)
      returns (outcome: Outcome, ghost tries: seq<Attempt>, ghost asked: seq<Query>)
      requires Agrees(control.Host())
      modifies touches, control
      ensures Agrees(control.Host())
      ensures control.log == old(control.log) + tries && control.queries == old(control.queries) + asked
      ensures touches.RoutedAs(change, VideoPosition(change.x, change.y, viewport, video, change.phase != PhaseDown),
                               outcome, tries, asked, old(touches.native), old(touches.contacts))
    {
      outcome, tries, asked := touches.Route(change, viewport, video, control);
    }

    /** Forgets the mouse buttons; with a connection, first tells the host to release those
        that were pressed.  Keys and touches are left alone. */
    method ReleaseMouse(control: Control?) returns (error: Option<Error>, ghost tries: seq<Attempt>)
      requires control != null ==> Agrees(control.Host())
      modifies this`mouseButtons, control
      ensures mouseButtons == 0
      ensures control == null ==> error == None && tries == []
      ensures control != null ==>
                && control.log == old(control.log) + tries && control.queries == old(control.queries)
                && error == FirstError(tries)
                && Packets(tries) == ButtonReleases(old(mouseButtons), |BUTTONS|)
                && OnlyFailuresStayHeld(old(control.Host()), control.Host(), tries)
                && (error.None? ==> Agrees(control.Host()))
                && (Agrees(control.Host()) <==>
                      && !(Has(old(mouseButtons), Middle) && NeverQueued(tries, MouseButton(Middle, false)))
                      && !(Has(old(mouseButtons), Right) && NeverQueued(tries, MouseButton(Right, false)))
                      && (Left in old(control.Host()).buttons && NeverQueued(tries, MouseButton(Left, false)) ==>
                            touches.HoldsLeft()))
    {
      var buttons := mouseButtons;
      mouseButtons := 0;
      if control == null {
        return None, [];
      }
      error, tries := ReleaseButtons(buttons, None, control, control.log, control.Host(), []);
      MouseLetGo(buttons, old(control.Host()), tries);
    }

    /** Forgets everything.  With a connection, the host is told to let go of the touches,
        then the keys in ascending order, then the mouse buttons, whatever fails; if nothing
        did, it holds nothing any more. */
    method ReleaseAll(control: Control?) returns (error: Option<Error>, ghost tries: seq<Attempt>)
      requires control != null ==> Agrees(control.Host())
      modifies this, touches, control
      ensures fresh(touches) && touches.contacts == [] && touches.native == None
      ensures keys == {} && mouseButtons == 0
      ensures control == null ==> error == None && tries == []
      ensures control != null ==>
                && control.log == old(control.log) + tries && control.queries == old(control.queries)
                && error == FirstError(tries)
                && Packets(tries) ==
                   AllReleases(old(touches.native), old(touches.contacts), old(keys), old(mouseButtons))
                && OnlyFailuresStayHeld(old(control.Host()), control.Host(), tries)
                && (error.None? ==> control.Host() == NOTHING_HELD && Agrees(control.Host()))
    {
      var order, buttons, held := Ascending(keys), mouseButtons, touches;
      ghost var native, contacts := touches.native, touches.contacts;
      keys, mouseButtons := {}, 0;
      touches := new TouchInput();
      if control == null {
        return None, [];
      }
      error, tries := LetAllGo(held, order, buttons, control);
      AllLetGo(native, contacts, old(keys), buttons, old(control.Host()), tries);
    }

    /** Touches, keys, buttons: every release is tried and the first error reported. */
    static method LetAllGo(held: TouchInput, order: seq<nat>, buttons: bv8, control: Control)
      returns (error: Option<Error>, ghost tries: seq<Attempt>)
      requires held.Valid(control.Host())
      modifies held, control`log
      ensures control.log == old(control.log) + tries && error == FirstError(tries)
      ensures control.Host() == ReceiveAll(old(control.Host()), tries)
      ensures Packets(tries) ==
              (if old(held.contacts) == [] then [] else ReleasePackets(old(held.native) == Some(true))) +
              KeyReleases(order) + ButtonReleases(buttons, |BUTTONS|)
    {
      ghost var log, h := control.log, control.Host();
      error, tries := held.ReleaseTo(control);
      error, tries := ReleaseKeys(order, error, control, log, h, tries);
      error, tries := ReleaseButtons(buttons, error, control, log, h, tries);
    }

    /** Starts over for a new connection; nothing is sent. */
    method Reset()
      modifies this
      ensures fresh(touches) && touches.contacts == [] && touches.native == None
      ensures keys == {} && mouseButtons == 0 && Agrees(NOTHING_HELD)
    {
      touches := new TouchInput();
      keys, mouseButtons := {}, 0;
    }

    /** A failure does not stop the rest, and the first error is the one reported. */
    static method ReleaseOne(p: Packet, first: Option<Error>, control: Control,
                             ghost log: seq<Attempt>, ghost h: Host, ghost tries: seq<Attempt>)
      returns (first': Option<Error>, ghost tries': seq<Attempt>)
      requires Reported(control, log, h, tries, first)
      modifies control`log
      ensures Reported(control, log, h, tries', first')
      ensures Packets(tries') == Packets(tries) + [p]
    {
      var error := control.Send(p);
      OneMore(h, tries, Attempt(p, error));
      tries' := tries + [Attempt(p, error)];
      first' := if first.Some? then first else error;
    }

    /** The pressed buttons, left to right. */
    static method ReleaseButtons(buttons: bv8, first: Option<Error>, control: Control,
                                 ghost log: seq<Attempt>, ghost h: Host, ghost tries: seq<Attempt>)
      returns (first': Option<Error>, ghost tries': seq<Attempt>)
      requires Reported(control, log, h, tries, first)
      modifies control`log
      ensures Reported(control, log, h, tries', first')
      ensures Packets(tries') == Packets(tries) + ButtonReleases(buttons, |BUTTONS|)
    {
      first', tries' := first, tries;
      for i := 0 to |BUTTONS|
        invariant Reported(control, log, h, tries', first')
        invariant Packets(tries') == Packets(tries) + ButtonReleases(buttons, i)
      {
        Regroup(Packets(tries), ButtonReleases(buttons, i), [MouseButton(BUTTONS[i], false)]);
        if Has(buttons, BUTTONS[i]) {
          first', tries' := ReleaseOne(MouseButton(BUTTONS[i], false), first', control, log, h, tries');
        }
      }
    }

    static method ReleaseKeys(order: seq<nat>, first: Option<Error>, control: Control,
                              ghost log: seq<Attempt>, ghost h: Host, ghost tries: seq<Attempt>)
      returns (first': Option<Error>, ghost tries': seq<Attempt>)
      requires Reported(control, log, h, tries, first)
      modifies control`log
      ensures Reported(control, log, h, tries', first')
      ensures Packets(tries') == Packets(tries) + KeyReleases(order)
    {
      first', tries' := first, tries;
      for i := 0 to |order|
        invariant Reported(control, log, h, tries', first')
        invariant Packets(tries') == Packets(tries) + KeyReleases(order[..i])
      {
        first', tries' := ReleaseOne(Key(WireKeyCode(order[i]), false), first', control, log, h, tries');
        OneKeyMore(order, i);
        Regroup(Packets(tries), KeyReleases(order[..i]), [Key(WireKeyCode(order[i]), false)]);
      }
      assert order[..|order|] == order;
    }
  }
}
