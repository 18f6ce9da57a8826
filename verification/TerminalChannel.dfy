/** The terminal side of a channel: output pumped from the terminal into the peer's
    window, input taken within the server's own (RFC 4254, section 5.2). */
module TerminalChannel {
  import opened Bytes
  import opened ChannelFrames

  const PUMP_BUFFER: nat := 2048

  datatype Outcome =
    | Ok | NotFound | Closed | SecurityError | InvalidArgument | Unsupported
    | ReadFailed | WriteFailed | PlatformError

  datatype Settings = Settings(serverChannel: nat, windowMax: nat, peerInitial: nat, peerMax: nat)

  /** out is what the terminal has produced and not yet handed over; the last fields
      record what has passed through since the channel was accepted. */
  datatype Terminal = Terminal(
    window: nat, peerWindow: nat, running: bool, closeSent: bool, out: ByteString,
    produced: ByteString, frames: seq<ByteString>, got: ByteString, written: ByteString,
    granted: nat, allowed: nat)

  function Opened(k: Settings): Terminal {
    Terminal(k.windowMax, k.peerInitial, true, false, [], [], [], [], [], 0, 0)
  }

  /** What one read of the terminal comes to: so many bytes at most, nothing at the
      moment (or reading is not supported), or an error. */
  datatype Offer = Bytes(most: nat) | Idle | ReadFails

  /** One read hands over at most what fits the window, the peer's packet size and
      the buffer, and no more than the terminal offers. */
  function PumpLen(k: Settings, t: Terminal, offered: nat): (n: nat)
    ensures n <= |t.out| && n <= t.peerWindow && n <= PUMP_BUFFER
    ensures k.peerMax != 0 ==> n <= k.peerMax
  {
    Min(Min(offered, Limited(Min(t.peerWindow, PUMP_BUFFER), k.peerMax)), |t.out|)
  }

  function PumpOnce(t: Terminal, n: nat): Terminal
    requires n <= |t.out| && n <= t.peerWindow
  {
    t.(out := t.out[n..], peerWindow := t.peerWindow - n, frames := t.frames + Chunked(t.out[..n]))
  }

  datatype Answer = Answer(outcome: Outcome, terminal: Terminal)

  /** The pump: offers are the successive reads of the terminal, after which it is
      idle. */
  function Pump(k: Settings, t: Terminal, offers: seq<Offer>): Answer
    decreases |offers|
  {
    if !t.running || t.peerWindow == 0 || offers == [] then Answer(Ok, t) else
      match offers[0]
      case Idle => Answer(Ok, t)
      case ReadFails => Answer(ReadFailed, t)
      case Bytes(most) =>
        var n := PumpLen(k, t, most);
        if n == 0 then Answer(Ok, t) else Pump(k, PumpOnce(t, n), offers[1..])
  }

  datatype Input =
    | NoMessage
    | Adjust(bytes: nat)
    | ChannelRequest(granted: bool)
    | EndOfInput
    | ClosePeer
    | Typed(data: ByteString, written: Option<nat>)
    | OtherInput

  /** One call: the reads before and after the message, whether the child was found to
      have ended at either point, and the message. */
  datatype Call = Call(
    before: seq<Offer>, endedBefore: bool, recipient: nat, input: Input, after: seq<Offer>, endedAfter: bool)

  function Grant(k: Settings, t: Terminal): Terminal
    requires t.window <= k.windowMax
  {
    if t.window > k.windowMax / 2 then t
    else t.(window := k.windowMax, granted := t.granted + (k.windowMax - t.window))
  }

  /** Input within the window goes to the terminal; written is how much of it the
      terminal took, or None when the write failed. */
  function TakeInput(k: Settings, t: Terminal, data: ByteString, written: Option<nat>): Answer {
    if |data| > t.window then Answer(SecurityError, t)
    else if k.windowMax == 0 || t.window > k.windowMax then Answer(InvalidArgument, t)
    else
      var u := Grant(k, t.(window := t.window - |data|, got := t.got + data));
      if !t.running then Answer(Unsupported, u)
      else if written.None? then Answer(WriteFailed, u)
      else if written.value > |data| then Answer(PlatformError, u)
      else Answer(Ok, u.(written := u.written + data[..written.value]))
  }

  function Adjusted(t: Terminal, n: nat): Terminal {
    t.(peerWindow := SaturatingU32(t.peerWindow, n), allowed := t.allowed + n)
  }

  /** Pumping again after a message, and finding out whether the child has ended. */
  function Finish(k: Settings, t: Terminal, c: Call, outcome: Outcome): Answer {
    var r := Pump(k, t, c.after);
    if r.outcome != Ok then r else Answer(if c.endedAfter then Closed else outcome, r.terminal)
  }

  function Respond(k: Settings, t: Terminal, c: Call): Answer {
    if c.input.NoMessage? then Finish(k, t, c, NotFound)
    else if c.recipient != k.serverChannel then Answer(SecurityError, t)
    else RespondTo(k, t, c, c.input)
  }

  function RespondTo(k: Settings, t: Terminal, c: Call, input: Input): Answer {
    match input
    case Adjust(n) => Finish(k, Adjusted(t, n), c, Ok)
    case ChannelRequest(granted) => if granted then Finish(k, t, c, Ok) else Answer(Ok, t)
    case EndOfInput => Finish(k, t, c, Ok)
    case ClosePeer => Answer(Closed, t.(closeSent := true))
    case Typed(data, written) =>
      var r := TakeInput(k, t, data, written);
      if r.outcome != Ok then r else Finish(k, r.terminal, c, Ok)
    case _ => Answer(Unsupported, t)
  }

  function Serve(k: Settings, t: Terminal, c: Call): Answer {
    var r := Pump(k, t, c.before);
    if r.outcome != Ok then r
    else if c.endedBefore then Answer(Closed, r.terminal)
    else Respond(k, r.terminal, c)
  }

  datatype Event = Produce(bytes: ByteString) | Served(call: Call)

  function Run(k: Settings, events: seq<Event>): Option<Terminal> {
    if events == [] then Some(Opened(k)) else
      match Run(k, events[..|events| - 1])
      case None => None
      case Some(t) =>
        match events[|events| - 1]
        case Produce(bytes) => Some(t.(out := t.out + bytes, produced := t.produced + bytes))
        case Served(c) =>
          var r := Serve(k, t, c);
          if r.outcome == Ok || r.outcome == NotFound then Some(r.terminal) else None
  }

  // ---- What every run keeps ----

  ghost predicate OutputInOrder(t: Terminal) {
    t.produced == Concat(t.frames) + t.out
  }

  ghost predicate InputWindow(k: Settings, t: Terminal) {
    && t.window + |t.got| == k.windowMax + t.granted
    && t.window <= k.windowMax && (k.windowMax != 0 ==> t.window > k.windowMax / 2)
  }

  ghost predicate OutputWindow(k: Settings, t: Terminal) {
    && |Concat(t.frames)| + t.peerWindow <= k.peerInitial + t.allowed
    && FramesFit(t.frames, k.peerMax)
    && forall i | 0 <= i < |t.frames| :: |t.frames[i]| <= PUMP_BUFFER
  }

  ghost predicate Inv(k: Settings, t: Terminal) {
    OutputInOrder(t) && InputWindow(k, t) && OutputWindow(k, t)
  }

  lemma OpenedInv(k: Settings)
    ensures Inv(k, Opened(k))
  {
  }

  lemma PumpOnceInv(k: Settings, t: Terminal, n: nat)
    requires Inv(k, t) && n <= |t.out| && n <= t.peerWindow && n <= PUMP_BUFFER
    requires k.peerMax != 0 ==> n <= k.peerMax
    ensures Inv(k, PumpOnce(t, n))
  {
    hide Concat, FramesFit;
    var data := t.out[..n];
    ChunkedSound(data, k.peerMax);
    assert Chunked(data) == [data];
    ConcatAppend(t.frames, [data]);
    FitsAppend(t.frames, [data], k.peerMax);
    Assoc(Concat(t.frames), data, t.out[n..]);
    assert t.out == data + t.out[n..];
  }

  lemma {:induction false} PumpInv(k: Settings, t: Terminal, offers: seq<Offer>)
    requires Inv(k, t)
    ensures Inv(k, Pump(k, t, offers).terminal)
    decreases |offers|
  {
    hide Inv, Chunked;
    if t.running && t.peerWindow != 0 && offers != [] && offers[0].Bytes? {
      var n := PumpLen(k, t, offers[0].most);
      if n != 0 {
        PumpOnceInv(k, t, n);
        PumpInv(k, PumpOnce(t, n), offers[1..]);
      }
    }
  }

  lemma RespondInv(k: Settings, t: Terminal, c: Call)
    requires Inv(k, t)
    ensures var r := Respond(k, t, c);
            r.outcome == Ok || r.outcome == NotFound ==> Inv(k, r.terminal)
  {
    hide Pump, Concat, FramesFit;
    match c.input
    case Adjust(n) =>
      PumpInv(k, Adjusted(t, n), c.after);
    case Typed(data, written) =>
      var r := TakeInput(k, t, data, written);
      if r.outcome == Ok { PumpInv(k, r.terminal, c.after); }
    case _ => PumpInv(k, t, c.after);
  }

  lemma {:induction false} RunInv(k: Settings, events: seq<Event>)
    requires Run(k, events).Some?
    ensures Inv(k, Run(k, events).value)
  {
    hide Pump, Respond, Concat, FramesFit;
    if events == [] {
      OpenedInv(k);
    } else {
      RunInv(k, events[..|events| - 1]);
      var t := Run(k, events[..|events| - 1]).value;
      match events[|events| - 1]
      case Produce(bytes) => Assoc(Concat(t.frames), t.out, bytes);
      case Served(c) =>
        PumpInv(k, t, c.before);
        RespondInv(k, Pump(k, t, c.before).terminal, c);
    }
  }

  /** What the peer sent, what it granted, and what the terminal produced. */
  function InputOf(events: seq<Event>): ByteString {
    if events == [] then [] else
      var e := events[|events| - 1];
      InputOf(events[..|events| - 1]) + if e.Served? && e.call.input.Typed? then e.call.input.data else []
  }

  function AdjustsOf(events: seq<Event>): nat {
    if events == [] then 0 else
      var e := events[|events| - 1];
      AdjustsOf(events[..|events| - 1]) + if e.Served? && e.call.input.Adjust? then e.call.input.bytes else 0
  }

  function OutputOf(events: seq<Event>): ByteString {
    if events == [] then [] else
      var e := events[|events| - 1];
      OutputOf(events[..|events| - 1]) + if e.Produce? then e.bytes else []
  }

  ghost predicate SameIntake(a: Terminal, b: Terminal) {
    a.got == b.got && a.allowed == b.allowed && a.produced == b.produced
  }

  lemma {:induction false} PumpIntake(k: Settings, t: Terminal, offers: seq<Offer>)
    ensures SameIntake(Pump(k, t, offers).terminal, t)
    ensures Pump(k, t, offers).outcome == Ok || Pump(k, t, offers).outcome == ReadFailed
    decreases |offers|
  {
    hide Chunked;
    if t.running && t.peerWindow != 0 && offers != [] && offers[0].Bytes? {
      var n := PumpLen(k, t, offers[0].most);
      if n != 0 { PumpIntake(k, PumpOnce(t, n), offers[1..]); }
    }
  }

  lemma RespondIntake(k: Settings, t: Terminal, c: Call)
    requires Respond(k, t, c).outcome == Ok || Respond(k, t, c).outcome == NotFound
    ensures var u := Respond(k, t, c).terminal;
            && u.got == t.got + (if c.input.Typed? then c.input.data else [])
            && u.allowed == t.allowed + (if c.input.Adjust? then c.input.bytes else 0)
            && u.produced == t.produced
  {
    hide Pump;
    match c.input
    case Adjust(n) => PumpIntake(k, Adjusted(t, n), c.after);
    case Typed(data, written) => PumpIntake(k, TakeInput(k, t, data, written).terminal, c.after);
    case _ => PumpIntake(k, t, c.after);
  }

  lemma {:induction false} RunIntake(k: Settings, events: seq<Event>)
    requires Run(k, events).Some?
    ensures var t := Run(k, events).value;
            t.got == InputOf(events) && t.allowed == AdjustsOf(events) && t.produced == OutputOf(events)
  {
    hide Pump, Respond;
    if events != [] {
      RunIntake(k, events[..|events| - 1]);
      var t := Run(k, events[..|events| - 1]).value;
      match events[|events| - 1]
      case Produce(bytes) =>
      case Served(c) =>
        PumpIntake(k, t, c.before);
        RespondIntake(k, Pump(k, t, c.before).terminal, c);
    }
  }

  /** Over every run: the terminal's output reaches the peer in order and without
      loss, within the window and the packet size the peer allows, and the receive
      window is the sum of the grants less the input and stays above half. */
  lemma TerminalFlowControl(k: Settings, events: seq<Event>)
    requires Run(k, events).Some?
    ensures var t := Run(k, events).value;
            && OutputOf(events) == Concat(t.frames) + t.out
            && t.window == k.windowMax + t.granted - |InputOf(events)|
            && t.window <= k.windowMax && (k.windowMax != 0 ==> t.window > k.windowMax / 2)
            && |Concat(t.frames)| <= k.peerInitial + AdjustsOf(events)
            && FramesFit(t.frames, k.peerMax)
  {
    hide Run, Concat, FramesFit, InputOf, AdjustsOf, OutputOf;
    RunInv(k, events);
    RunIntake(k, events);
  }

  /** A pump whose reads all yield something stops only when the output is used up or
      the peer's window is: unlike on the SFTP side, an adjustment always gets waiting
      output going. */
  lemma {:induction false} PumpExhausts(k: Settings, t: Terminal, offers: seq<Offer>)
    requires t.running && |offers| >= t.peerWindow
    requires forall i | 0 <= i < |offers| :: offers[i].Bytes? && offers[i].most > 0
    ensures var r := Pump(k, t, offers);
            r.outcome == Ok && (r.terminal.out == [] || r.terminal.peerWindow == 0)
    decreases |offers|
  {
    hide Chunked;
    if t.peerWindow != 0 && offers != [] {
      var n := PumpLen(k, t, offers[0].most);
      if n != 0 { PumpExhausts(k, PumpOnce(t, n), offers[1..]); }
    }
  }

  // ---- The procedures ----

  class TerminalSession {
    const settings: Settings
    var window: nat
    var peerWindow: nat
    var running: bool
    var closeSent: bool
    var out: ByteString              // the terminal's own output queue
    var frames: seq<ByteString>      // the connection
    var written: ByteString          // the terminal's input
    ghost var produced: ByteString
    ghost var got: ByteString
    ghost var granted: nat
    ghost var allowed: nat

    ghost predicate Valid()
      reads this
    {
      window <= settings.windowMax && peerWindow <= U32_MAX
    }

    ghost function View(): Terminal
      reads this
    {
      Terminal(window, peerWindow, running, closeSent, out, produced, frames, got, written, granted, allowed)
    }

    constructor (settings: Settings)
      requires settings.peerInitial <= U32_MAX
      ensures Valid() && View() == Opened(settings) && this.settings == settings
    {
      this.settings := settings;
      window, peerWindow, running, closeSent := settings.windowMax, settings.peerInitial, true, false;
      out, frames, written, produced, got, granted, allowed := [], [], [], [], [], 0, 0;
    }

    method PumpOutput(offers: seq<Offer>) returns (outcome: Outcome)
      requires Valid()
      modifies this`out, this`peerWindow, this`frames
      ensures Valid() && Answer(outcome, View()) == Pump(settings, old(View()), offers)
    {
      hide Chunked;
      if !running { return Ok; }
      var i := 0;
      assert offers[0..] == offers;
      while peerWindow != 0 && i < |offers|
        invariant i <= |offers| && Valid()
        invariant Pump(settings, View(), offers[i..]) == Pump(settings, old(View()), offers)
      {
        if offers[i].Idle? { return Ok; }
        if offers[i].ReadFails? { return ReadFailed; }
        var n := ReadOnce(offers[i].most);
        if n == 0 { return Ok; }
        assert offers[i..][1..] == offers[i + 1..];
        i := i + 1;
      }
      return Ok;
    }

    /** One read and one send, within the window, the packet size and the buffer. */
    method ReadOnce(offered: nat) returns (n: nat)
      requires Valid() && peerWindow != 0
      modifies this`out, this`peerWindow, this`frames
      ensures Valid() && n == PumpLen(settings, old(View()), offered)
      ensures View() == if n == 0 then old(View()) else PumpOnce(old(View()), n)
    {
      hide Chunked;
      var most := peerWindow;
      if settings.peerMax != 0 { most := Min(most, settings.peerMax); }
      most := Min(most, PUMP_BUFFER);
      n := Min(Min(offered, most), |out|);
      if n == 0 { return; }
      frames := frames + Chunked(out[..n]);
      peerWindow, out := peerWindow - n, out[n..];
    }

    method MaybeReplenish()
      requires Valid()
      modifies this`window, this`granted
      ensures Valid() && View() == Grant(settings, old(View()))
    {
      if window > settings.windowMax / 2 { return; }
      granted := granted + (settings.windowMax - window);
      window := settings.windowMax;
    }

    method ChargeWindow(data: ByteString)
      requires Valid() && |data| <= window
      modifies this`window, this`granted, this`got
      ensures Valid()
      ensures View() == Grant(settings, old(View()).(window := old(window) - |data|, got := old(got) + data))
    {
      window, got := window - |data|, got + data;
      MaybeReplenish();
    }

    method ReceiveInput(data: ByteString, taken: Option<nat>) returns (outcome: Outcome)
      requires Valid()
      modifies this`window, this`granted, this`got, this`written
      ensures Valid() && Answer(outcome, View()) == TakeInput(settings, old(View()), data, taken)
    {
      if |data| > window { return SecurityError; }
      if settings.windowMax == 0 { return InvalidArgument; }
      ChargeWindow(data);
      if !running { return Unsupported; }
      if taken.None? { return WriteFailed; }
      if taken.value > |data| { return PlatformError; }
      written := written + data[..taken.value];
      return Ok;
    }

    /** One call of the channel's message processing. */
    method ProcessCall(c: Call) returns (outcome: Outcome)
      requires Valid()
      modifies this
      ensures Valid() && Answer(outcome, View()) == Serve(settings, old(View()), c)
    {
      hide Pump, TakeInput;
      outcome := PumpOutput(c.before);
      if outcome != Ok { return; }
      if c.endedBefore { return Closed; }
      var verdict := NotFound;
      if !c.input.NoMessage? {
        if c.recipient != settings.serverChannel { return SecurityError; }
        match c.input {
          case Adjust(n) =>
            peerWindow := if U32_MAX - peerWindow < n then U32_MAX else peerWindow + n;
            allowed := allowed + n;
          case ChannelRequest(granted) =>
            if !granted { return Ok; }
          case EndOfInput =>
          case ClosePeer =>
            closeSent := true;
            return Closed;
          case Typed(data, taken) =>
            outcome := ReceiveInput(data, taken);
            if outcome != Ok { return; }
          case _ =>
            return Unsupported;
        }
        verdict := Ok;
      }
      outcome := PumpOutput(c.after);
      if outcome != Ok { return; }
      outcome := if c.endedAfter then Closed else verdict;
    }
  }
}
