/** The remote host as the input code sees it: what is held down there, and the connection
    that carries input packets to it, any of which may fail to be queued. */
module RemoteHost {
  import opened Options

  datatype Button = Left | Middle | Right

  datatype TouchKind = Down | Move | Up | Cancel | CancelAll

  /** A position normalised to the video rectangle. */
  datatype Point = Point(x: real, y: real)

  datatype Packet =
    | Touch(kind: TouchKind, id: nat, at: Point)
    | Position(at: Point)
    | MouseButton(button: Button, pressed: bool)
    | Key(code: nat, pressed: bool)

  type Error = int

  datatype Attempt = Attempt(packet: Packet, error: Option<Error>)

  /** An answer to whether the host knows native touch; an error means there was none. */
  datatype Query = Query(supported: bool, error: Option<Error>)

  datatype Host = Host(touches: set<nat>, buttons: set<Button>, keys: set<nat>)

  const NOTHING_HELD := Host({}, {}, {})

  function Receive(h: Host, p: Packet): Host {
    match p
    case Touch(Down, id, _) => h.(touches := h.touches + {id})
    case Touch(Up, id, _) => h.(touches := h.touches - {id})
    case Touch(Cancel, id, _) => h.(touches := h.touches - {id})
    case Touch(CancelAll, _, _) => h.(touches := {})
    case MouseButton(b, pressed) => h.(buttons := if pressed then h.buttons + {b} else h.buttons - {b})
    case Key(code, pressed) => h.(keys := if pressed then h.keys + {code} else h.keys - {code})
    case _ => h
  }

  /** A packet that could not be queued leaves the host as it was. */
  function Try(h: Host, a: Attempt): Host {
    if a.error.None? then Receive(h, a.packet) else h
  }

  function ReceiveAll(h: Host, tries: seq<Attempt>): Host {
    if tries == [] then h else Try(ReceiveAll(h, tries[..|tries| - 1]), tries[|tries| - 1])
  }

  function FirstError(tries: seq<Attempt>): Option<Error> {
    if tries == [] then None
    else
      var earlier := FirstError(tries[..|tries| - 1]);
      if earlier.Some? then earlier else tries[|tries| - 1].error
  }

  function Packets(tries: seq<Attempt>): seq<Packet> {
    seq(|tries|, i requires 0 <= i < |tries| => tries[i].packet)
  }

  lemma {:induction false} OneMore(h: Host, tries: seq<Attempt>, a: Attempt)
    ensures ReceiveAll(h, tries + [a]) == Try(ReceiveAll(h, tries), a)
    ensures FirstError(tries + [a]) == if FirstError(tries).Some? then FirstError(tries) else a.error
    ensures Packets(tries + [a]) == Packets(tries) + [a.packet]
  {
    assert (tries + [a])[..|tries|] == tries;
  }

  lemma {:induction false} NoErrorMeansAllSucceeded(tries: seq<Attempt>)
    ensures FirstError(tries) == None <==> forall i | 0 <= i < |tries| :: tries[i].error == None
  {
    if tries != [] {
      NoErrorMeansAllSucceeded(tries[..|tries| - 1]);
    }
  }

  /** The error reported is that of the earliest try that failed. */
  lemma {:induction false} FirstErrorIsFirst(tries: seq<Attempt>, e: Error)
    ensures FirstError(tries) == Some(e) <==>
            exists i | 0 <= i < |tries| :: tries[i].error == Some(e) && forall k | 0 <= k < i :: tries[k].error == None
  {
    if tries != [] {
      var init := tries[..|tries| - 1];
      FirstErrorIsFirst(init, e);
      NoErrorMeansAllSucceeded(init);
      assert tries == init + [tries[|init|]];
    }
  }

  class Control {
    var log: seq<Attempt>      // every packet handed to the core, and how that ended
    var queries: seq<Query>    // every question whether the host knows touch, with its answer

    constructor ()
      ensures log == [] && queries == []
    {
      log, queries := [], [];
    }

    function Host(): Host
      reads this`log
    {
      ReceiveAll(NOTHING_HELD, log)
    }

    /** Whether the core accepts a packet is not decided here. */
    method Send(p: Packet) returns (error: Option<Error>)
      modifies this`log
      ensures log == old(log) + [Attempt(p, error)]
      ensures Host() == Try(old(Host()), Attempt(p, error))
    {
      error := *;
      OneMore(NOTHING_HELD, log, Attempt(p, error));
      log := log + [Attempt(p, error)];
    }

    /** The host's answer about native touch, or the error that kept it from answering. */
    method SupportsTouch() returns (answer: Query)
      modifies this`queries
      ensures queries == old(queries) + [answer]
    {
      answer := *;
      queries := queries + [answer];
    }
  }
}
