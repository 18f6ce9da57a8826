/** How much the terminal channel pumps, grants and writes, to the byte, and what each
    message comes to. */
module TerminalFlow {
  import opened Bytes
  import opened ChannelFrames
  import opened TerminalChannel

  // ---- Output ----

  /** A read hands over as much as the offer, the output, the peer's window, its packet
      size and the buffer of 2048 bytes all admit. */
  lemma PumpLenGreatest(k: Settings, t: Terminal, offered: nat, n: nat)
    ensures n <= PumpLen(k, t, offered) <==>
            n <= offered && n <= |t.out| && n <= t.peerWindow && n <= 2048 && (k.peerMax != 0 ==> n <= k.peerMax)
  {
  }

  /** What a read hands over goes out as one frame. */
  lemma PumpOneFrame(k: Settings, t: Terminal, most: nat, offers: seq<Offer>)
    requires t.running && t.peerWindow != 0 && PumpLen(k, t, most) != 0
    ensures var n := PumpLen(k, t, most);
            Pump(k, t, [Bytes(most)] + offers) ==
            Pump(k, t.(out := t.out[n..], peerWindow := t.peerWindow - n, frames := t.frames + [t.out[..n]]), offers)
  {
    assert ([Bytes(most)] + offers)[1..] == offers;
  }

  ghost predicate Balanced(k: Settings, t: Terminal) {
    |Concat(t.frames)| + t.peerWindow == k.peerInitial + t.allowed
  }

  lemma {:induction false} PumpBalanced(k: Settings, t: Terminal, offers: seq<Offer>)
    requires Balanced(k, t)
    ensures Balanced(k, Pump(k, t, offers).terminal)
    decreases |offers|
  {
    hide Concat;
    if t.running && t.peerWindow != 0 && offers != [] && offers[0].Bytes? {
      var n := PumpLen(k, t, offers[0].most);
      if n != 0 {
        ConcatSnoc(t.frames, t.out[..n]);
        assert Chunked(t.out[..n]) == [t.out[..n]];
        PumpBalanced(k, PumpOnce(t, n), offers[1..]);
      }
    }
  }

  lemma RespondBalanced(k: Settings, t: Terminal, c: Call)
    requires Balanced(k, t) && Continues(Respond(k, t, c))
    requires c.input.Adjust? ==> k.peerInitial + t.allowed + c.input.bytes <= U32_MAX
    ensures Balanced(k, Respond(k, t, c).terminal)
  {
    hide Pump, Concat;
    match c.input
    case Adjust(n) => PumpBalanced(k, Adjusted(t, n), c.after);
    case Typed(data, written) => PumpBalanced(k, TakeInput(k, t, data, written).terminal, c.after);
    case _ => PumpBalanced(k, t, c.after);
  }

  predicate Continues(r: Answer) {
    r.outcome == Ok || r.outcome == NotFound
  }

  lemma {:induction false} RunBalanced(k: Settings, events: seq<Event>)
    requires Run(k, events).Some? && k.peerInitial + AdjustsOf(events) <= U32_MAX
    ensures Balanced(k, Run(k, events).value)
  {
    hide Pump, Respond, Concat;
    if events == [] {
      StartBalanced(k);
    } else {
      RunBalanced(k, events[..|events| - 1]);
      RunIntake(k, events[..|events| - 1]);
      var t := Run(k, events[..|events| - 1]).value;
      match events[|events| - 1]
      case Produce(bytes) =>
      case Served(c) =>
        PumpBalanced(k, t, c.before);
        PumpIntake(k, t, c.before);
        RespondBalanced(k, Pump(k, t, c.before).terminal, c);
    }
  }

  lemma StartBalanced(k: Settings)
    ensures Balanced(k, Opened(k))
  {
  }

  /** While the peer keeps its grants within 32 bits, every byte it allows is either sent
      or still open. */
  lemma PeerWindowExact(k: Settings, events: seq<Event>)
    requires Run(k, events).Some? && k.peerInitial + AdjustsOf(events) <= 0xFFFF_FFFF
    ensures var t := Run(k, events).value;
            |Concat(t.frames)| + t.peerWindow == k.peerInitial + AdjustsOf(events)
  {
    hide Run, AdjustsOf, Concat;
    RunBalanced(k, events);
    RunIntake(k, events);
  }

  // ---- Input ----

  /** What the terminal took of each input message, put together. */
  function WrittenOf(events: seq<Event>): ByteString {
    if events == [] then [] else
      var e := events[|events| - 1];
      WrittenOf(events[..|events| - 1]) +
      if e.Served? && e.call.input.Typed? then TakenOf(e.call.input.data, e.call.input.written) else []
  }

  function TakenOf(data: ByteString, written: Option<nat>): ByteString {
    if written.Some? && written.value <= |data| then data[..written.value] else []
  }

  ghost predicate SameInput(a: Terminal, b: Terminal) {
    && a.written == b.written && a.window == b.window && a.granted == b.granted
    && a.running == b.running && a.closeSent == b.closeSent
  }

  lemma {:induction false} PumpInput(k: Settings, t: Terminal, offers: seq<Offer>)
    ensures SameInput(Pump(k, t, offers).terminal, t)
    decreases |offers|
  {
    hide Chunked;
    if t.running && t.peerWindow != 0 && offers != [] && offers[0].Bytes? {
      var n := PumpLen(k, t, offers[0].most);
      if n != 0 { PumpInput(k, PumpOnce(t, n), offers[1..]); }
    }
  }

  lemma TakeInputEffect(k: Settings, t: Terminal, data: ByteString, written: Option<nat>)
    requires TakeInput(k, t, data, written).outcome == Ok
    ensures var u := TakeInput(k, t, data, written).terminal;
            var left: int := t.window - |data|;
            && left >= 0 && u.running == t.running && u.closeSent == t.closeSent
            && u.written == t.written + TakenOf(data, written)
            && (left <= k.windowMax / 2 ==> u.window == k.windowMax && u.granted == t.granted + (k.windowMax - left))
            && (left > k.windowMax / 2 ==> u.window == left && u.granted == t.granted)
  {
  }

  lemma TakeInputFails(k: Settings, t: Terminal, data: ByteString, written: Option<nat>)
    ensures TakeInput(k, t, data, written).outcome != NotFound
  {
  }

  /** Input is charged to the receive window, which is topped up to its maximum exactly
      when no more than half of it would be left, and what the terminal takes of it is
      written; nothing else moves either. */
  lemma RespondInput(k: Settings, t: Terminal, c: Call)
    requires Continues(Respond(k, t, c))
    ensures var u := Respond(k, t, c).terminal;
            var typed := c.input.Typed?;
            var left: int := t.window - if typed then |c.input.data| else 0;
            && left >= 0 && u.running == t.running && u.closeSent == t.closeSent
            && u.written == t.written + (if typed then TakenOf(c.input.data, c.input.written) else [])
            && (typed && left <= k.windowMax / 2 ==>
                u.window == k.windowMax && u.granted == t.granted + (k.windowMax - left))
            && (!typed || left > k.windowMax / 2 ==> u.window == left && u.granted == t.granted)
  {
    hide Pump, TakeInput, TakenOf;
    match c.input
    case Adjust(n) => PumpInput(k, Adjusted(t, n), c.after);
    case Typed(data, written) =>
      if TakeInput(k, t, data, written).outcome == Ok { TakeInputEffect(k, t, data, written); }
      TakeInputFails(k, t, data, written);
      PumpInput(k, TakeInput(k, t, data, written).terminal, c.after);
    case _ => PumpInput(k, t, c.after);
  }

  /** Over every run the terminal has been given exactly what it took, in order; the
      child is taken for running and the channel has not been closed. */
  lemma {:induction false} WrittenExactly(k: Settings, events: seq<Event>)
    requires Run(k, events).Some?
    ensures var t := Run(k, events).value;
            t.written == WrittenOf(events) && t.running && !t.closeSent
  {
    hide Pump, Respond, TakenOf;
    if events != [] {
      WrittenExactly(k, events[..|events| - 1]);
      var t := Run(k, events[..|events| - 1]).value;
      match events[|events| - 1]
      case Produce(bytes) =>
      case Served(c) =>
        PumpInput(k, t, c.before);
        PumpIntake(k, t, c.before);
        RespondInput(k, Pump(k, t, c.before).terminal, c);
    }
  }

  // ---- What a message comes to ----

  /** What input comes to when nothing fails to be read. */
  function InputOutcome(k: Settings, t: Terminal, data: ByteString, written: Option<nat>): Outcome {
    if |data| > t.window then SecurityError
    else if k.windowMax == 0 then InvalidArgument
    else if !t.running then Unsupported
    else if written.None? then WriteFailed
    else if written.value > |data| then PlatformError
    else Ok
  }

  /** A call whose reads do not fail: the child's end closes it, before or behind the
      message; without a message it reports so; and each message has its own outcome. */
  lemma CallOutcome(k: Settings, t: Terminal, c: Call)
    requires t.window <= k.windowMax
    requires ReadFails !in c.before && ReadFails !in c.after
    ensures var outcome := Serve(k, t, c).outcome;
            var last := if c.endedAfter then Closed else Ok;
            if c.endedBefore then outcome == Closed
            else if c.input == NoMessage then outcome == if c.endedAfter then Closed else NotFound
            else if c.recipient != k.serverChannel then outcome == SecurityError
            else match c.input
              case Adjust(_) => outcome == last
              case ChannelRequest(granted) => outcome == if granted then last else Ok
              case EndOfInput => outcome == last
              case ClosePeer => outcome == Closed && Serve(k, t, c).terminal.closeSent
              case Typed(data, written) =>
                var verdict := InputOutcome(k, t, data, written);
                outcome == if verdict == Ok then last else verdict
              case _ => outcome == Unsupported
  {
    hide Pump, InputOutcome;
    PumpNoFailure(k, t, c.before);
    PumpInput(k, t, c.before);
    var u := Pump(k, t, c.before).terminal;
    if c.input.Typed? { TakeInputOutcome(k, t, u, c.input.data, c.input.written); }
    forall v: Terminal
      ensures Pump(k, v, c.after).outcome == Ok
    {
      PumpNoFailure(k, v, c.after);
    }
  }

  lemma TakeInputOutcome(k: Settings, t: Terminal, u: Terminal, data: ByteString, written: Option<nat>)
    requires t.window <= k.windowMax && SameInput(u, t)
    ensures TakeInput(k, u, data, written).outcome == InputOutcome(k, t, data, written)
  {
  }

  lemma {:induction false} PumpNoFailure(k: Settings, t: Terminal, offers: seq<Offer>)
    requires ReadFails !in offers
    ensures Pump(k, t, offers).outcome == Ok
    decreases |offers|
  {
    hide Chunked;
    if t.running && t.peerWindow != 0 && offers != [] && offers[0].Bytes? {
      var n := PumpLen(k, t, offers[0].most);
      if n != 0 { PumpNoFailure(k, PumpOnce(t, n), offers[1..]); }
    } else if offers != [] {
      assert offers[0] in offers;
    }
  }
}
