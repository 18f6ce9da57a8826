/** The SFTP side of a channel: reassembling requests from arbitrary fragments,
    answering them in order, and flow control in both directions (RFC 4254,
    section 5.2). Values only; SftpBuffer holds the in-place procedures. */
module SftpChannel {
  import opened Bytes
  import opened ChannelFrames
  import Wire = WireBuffer

  const MAX_SFTP: nat := 131072
  const MAX_RESPONSE: nat := 35000

  // ---- Requests in a byte stream ----

  datatype Framing = Partial | Bad | Whole(len: nat)

  /** What the front of the receive buffer holds. */
  function Front(rx: ByteString): (r: Framing)
    ensures r.Whole? ==> 5 <= r.len <= |rx|
  {
    if |rx| < 4 then Partial else
      var n := Wire.U32Of(rx[..4]);
      if n == 0 || n > MAX_SFTP - 4 then Bad
      else if |rx| < n + 4 then Partial
      else Whole(n + 4)
  }

  ghost predicate IsPacket(p: ByteString) {
    Front(p) == Whole(|p|)
  }

  ghost predicate ArePackets(s: seq<ByteString>) {
    forall i | 0 <= i < |s| :: IsPacket(s[i])
  }

  /** The reference: cut whole packets off the front of the stream while there are
      any. */
  function Split(stream: ByteString): (seq<ByteString>, ByteString)
    decreases |stream|
  {
    match Front(stream)
    case Whole(n) =>
      var (packets, rest) := Split(stream[n..]);
      ([stream[..n]] + packets, rest)
    case _ => ([], stream)
  }

  lemma FrontStable(p: ByteString, more: ByteString)
    requires IsPacket(p)
    ensures Front(p + more) == Whole(|p|)
  {
    assert (p + more)[..4] == p[..4];
  }

  lemma FrontIsPacket(rx: ByteString)
    requires Front(rx).Whole?
    ensures IsPacket(rx[..Front(rx).len])
  {
    var n := Front(rx).len;
    assert rx[..n][..4] == rx[..4];
  }

  lemma ConcatHead(packets: seq<ByteString>)
    requires packets != []
    ensures Concat(packets) == packets[0] + Concat(packets[1..])
  {
    ConcatOne(packets[0]);
    ConcatAppend([packets[0]], packets[1..]);
    assert [packets[0]] + packets[1..] == packets;
  }

  lemma SplitStep(p: ByteString, more: ByteString)
    requires IsPacket(p)
    ensures Split(p + more) == ([p] + Split(more).0, Split(more).1)
  {
    hide Front;
    FrontStable(p, more);
    assert (p + more)[..|p|] == p && (p + more)[|p|..] == more;
  }

  /** Whatever whole packets have been cut off so far begin the reference cut, and
      the cut of what is left is the rest of it. */
  lemma {:induction false} SplitUnique(packets: seq<ByteString>, rx: ByteString)
    requires ArePackets(packets)
    ensures Split(Concat(packets) + rx) == (packets + Split(rx).0, Split(rx).1)
    decreases |packets|
  {
    hide Split, IsPacket;
    if packets == [] {
      assert Concat(packets) + rx == rx && packets + Split(rx).0 == Split(rx).0;
    } else {
      var p, later := packets[0], packets[1..];
      SplitUnique(later, rx);
      ConcatHead(packets);
      Assoc(p, Concat(later), rx);
      SplitStep(p, Concat(later) + rx);
      assert packets + Split(rx).0 == [p] + (later + Split(rx).0);
    }
  }

  // ---- The channel ----

  /** The request handler: the answer to the last of the requests so far, or None
      when it fails. */
  type Handler = seq<ByteString> -> Option<ByteString>

  datatype Config = Config(
    handler: Handler, serverChannel: nat, windowMax: nat, peerInitial: nat, peerMax: nat)

  /** What has passed through the channel since it was accepted. */
  datatype Log = Log(
    got: ByteString, handled: seq<ByteString>, responses: seq<ByteString>, frames: seq<ByteString>,
    granted: nat, allowed: nat)

  datatype Channel = Channel(
    rx: ByteString, pending: ByteString, window: nat, peerWindow: nat,
    eofSent: bool, closeSent: bool, log: Log)

  function Accepted(k: Config): Channel {
    Channel([], [], k.windowMax, k.peerInitial, false, false, Log([], [], [], [], 0, 0))
  }

  datatype Outcome =
    | Ok | NotFound | Closed | SecurityError | InvalidArgument | TooSmall | Malformed | Unsupported | HandlerFailed

  datatype Message =
    | Timeout
    | WindowAdjust(bytes: nat)
    | Request
    | Eof
    | Close
    | Data(data: ByteString)
    | OtherMessage

  datatype Result = Result(outcome: Outcome, channel: Channel)

  // ---- Receiving data ----

  /** Tops the receive window up once half of it is used. */
  function Replenished(k: Config, ch: Channel): Channel
    requires ch.window <= k.windowMax
  {
    if ch.window > k.windowMax / 2 then ch
    else ch.(window := k.windowMax, log := ch.log.(granted := ch.log.granted + (k.windowMax - ch.window)))
  }

  function TakeData(k: Config, ch: Channel, data: ByteString): Result {
    if |data| > ch.window then Result(SecurityError, ch)
    else if k.windowMax == 0 || ch.window > k.windowMax then Result(InvalidArgument, ch)
    else
      var c := Replenished(k, ch.(window := ch.window - |data|));
      if |data| > MAX_SFTP - |ch.rx| then Result(TooSmall, c)
      else Result(Ok, c.(rx := c.rx + data, log := c.log.(got := c.log.got + data)))
  }

  // ---- Sending answers ----

  /** Bytes the pending answer may send next. */
  function SendLen(k: Config, ch: Channel): (n: nat)
    ensures n <= |ch.pending| && n <= ch.peerWindow
    ensures ch.pending != [] && ch.peerWindow != 0 ==> n > 0
    ensures k.peerMax != 0 ==> n <= k.peerMax
  {
    Limited(Min(|ch.pending|, ch.peerWindow), k.peerMax)
  }

  function FlushOnce(k: Config, ch: Channel): Channel {
    var n := SendLen(k, ch);
    ch.(pending := ch.pending[n..], peerWindow := ch.peerWindow - n,
        log := ch.log.(frames := ch.log.frames + Chunked(ch.pending[..n])))
  }

  function Flush(k: Config, ch: Channel): Channel
    decreases |ch.pending|
  {
    if ch.pending == [] || ch.peerWindow == 0 then ch else Flush(k, FlushOnce(k, ch))
  }

  function Flushed(k: Config, ch: Channel): Result {
    var c := Flush(k, ch);
    Result(if c.pending == [] then Ok else NotFound, c)
  }

  /** A request leaves the receive buffer and its answer is recorded. */
  function Answered(ch: Channel, n: nat, response: ByteString): Channel
    requires n <= |ch.rx|
  {
    ch.(rx := ch.rx[n..],
        log := ch.log.(handled := ch.log.handled + [ch.rx[..n]], responses := ch.log.responses + [response]))
  }

  function Hold(ch: Channel, response: ByteString): Channel {
    ch.(pending := response)
  }

  function Deliver(k: Config, ch: Channel, response: ByteString): Channel
    requires |response| <= ch.peerWindow
  {
    ch.(peerWindow := ch.peerWindow - |response|,
        log := ch.log.(frames := ch.log.frames + Frames(response, k.peerMax)))
  }

  function Answer(k: Config, ch: Channel, n: nat): Option<ByteString>
    requires n <= |ch.rx|
  {
    match k.handler(ch.log.handled + [ch.rx[..n]])
    case None => None
    case Some(r) => if |r| > MAX_RESPONSE then None else Some(r)
  }

  /** Answers whole requests until none is left or an answer does not fit the
      peer's window. */
  function Drain(k: Config, ch: Channel): Result
    decreases |ch.rx|
  {
    match Front(ch.rx)
    case Partial => Result(Ok, ch)
    case Bad => Result(Malformed, ch)
    case Whole(n) =>
      match Answer(k, ch, n)
      case None => Result(HandlerFailed, ch)
      case Some(response) =>
        var c := Answered(ch, n, response);
        if |response| > ch.peerWindow then Flushed(k, Hold(c, response))
        else Drain(k, Deliver(k, c, response))
  }

  function FlushThenDrain(k: Config, ch: Channel): Result {
    var r := Flushed(k, ch);
    if r.outcome != Ok then r else Drain(k, r.channel)
  }

  function Adjusted(ch: Channel, n: nat): Channel {
    ch.(peerWindow := SaturatingU32(ch.peerWindow, n), log := ch.log.(allowed := ch.log.allowed + n))
  }

  /** One call of the channel's message processing. */
  function Process(k: Config, ch: Channel, recipient: nat, m: Message): Result {
    match m
    case Timeout =>
      if ch.rx != [] then FlushThenDrain(k, ch)
      else Result(if ch.closeSent then Closed else NotFound, ch)
    case _ => if recipient != k.serverChannel then Result(SecurityError, ch) else Handle(k, ch, m)
  }

  function Handle(k: Config, ch: Channel, m: Message): Result
    requires !m.Timeout?
  {
    match m
    case WindowAdjust(n) =>
      var c := Adjusted(ch, n);
      if ch.rx == [] then Result(Ok, c) else FlushThenDrain(k, c)
    case Request => Result(Ok, ch)
    case Eof => Result(Ok, ch.(eofSent := true, closeSent := true))
    case Close => Result(Closed, ch.(closeSent := true))
    case Data(data) =>
      var r := TakeData(k, ch, data);
      if r.outcome != Ok then r else FlushThenDrain(k, r.channel)
    case OtherMessage => Result(Unsupported, ch)
  }

  datatype Event = Event(recipient: nat, message: Message)

  /** The channel goes on after Ok and NotFound; anything else ends it. */
  function Run(k: Config, events: seq<Event>): Option<Channel> {
    if events == [] then Some(Accepted(k)) else
      var e := events[|events| - 1];
      match Run(k, events[..|events| - 1])
      case None => None
      case Some(ch) =>
        var r := Process(k, ch, e.recipient, e.message);
        if r.outcome == Ok || r.outcome == NotFound then Some(r.channel) else None
  }

  // ---- What every run keeps ----

  /** Every byte received is in a request already handled, or in the buffer. */
  ghost predicate Reassembled(ch: Channel) {
    && ch.log.got == Concat(ch.log.handled) + ch.rx
    && ArePackets(ch.log.handled) && |ch.rx| <= MAX_SFTP
  }

  /** Request i was answered by the handler, in order. */
  ghost predicate AnsweredInOrder(k: Config, ch: Channel) {
    && |ch.log.responses| == |ch.log.handled|
    && forall i | 0 <= i < |ch.log.handled| :: AnswerAt(k, ch, i)
  }

  ghost predicate AnswerAt(k: Config, ch: Channel, i: nat)
    requires i < |ch.log.handled| && |ch.log.responses| == |ch.log.handled|
  {
    k.handler(ch.log.handled[..i + 1]) == Some(ch.log.responses[i])
  }

  /** Every byte of every answer has been sent, in order, or is pending. */
  ghost predicate Accounted(ch: Channel) {
    && Concat(ch.log.responses) == Concat(ch.log.frames) + ch.pending
    && |ch.pending| <= MAX_RESPONSE
  }

  /** The receive window: what was granted less what came in, always more than half
      of the maximum. */
  ghost predicate WindowKept(k: Config, ch: Channel) {
    && ch.window + |ch.log.got| == k.windowMax + ch.log.granted
    && ch.window <= k.windowMax
    && (k.windowMax != 0 ==> ch.window > k.windowMax / 2)
  }

  /** Nothing is sent beyond what the peer allowed, nor in too large a frame. */
  ghost predicate PeerRespected(k: Config, ch: Channel) {
    && |Concat(ch.log.frames)| + ch.peerWindow <= k.peerInitial + ch.log.allowed
    && FramesFit(ch.log.frames, k.peerMax)
  }

  /** With nothing pending, no whole request is left waiting. */
  ghost predicate CaughtUp(ch: Channel) {
    ch.pending == [] ==> Front(ch.rx) == Partial
  }

  ghost predicate Inv(k: Config, ch: Channel) {
    && Reassembled(ch) && AnsweredInOrder(k, ch) && Accounted(ch)
    && WindowKept(k, ch) && PeerRespected(k, ch)
  }

  lemma AcceptedInv(k: Config)
    ensures Inv(k, Accepted(k)) && CaughtUp(Accepted(k))
  {
  }

  lemma FlushOnceInv(k: Config, ch: Channel)
    requires Inv(k, ch)
    ensures Inv(k, FlushOnce(k, ch))
  {
    hide Chunked, Concat, FramesFit, Reassembled, AnswerAt;
    var n := SendLen(k, ch);
    var c := FlushOnce(k, ch);
    ChunkedSound(ch.pending[..n], k.peerMax);
    ConcatAppend(ch.log.frames, Chunked(ch.pending[..n]));
    FitsAppend(ch.log.frames, Chunked(ch.pending[..n]), k.peerMax);
    Assoc(Concat(ch.log.frames), ch.pending[..n], ch.pending[n..]);
    assert ch.pending == ch.pending[..n] + ch.pending[n..];
    SameInput(k, ch, c);
  }

  lemma SameInput(k: Config, ch: Channel, c: Channel)
    requires Reassembled(ch) && AnsweredInOrder(k, ch)
    requires c.rx == ch.rx && c.log.got == ch.log.got
    requires c.log.handled == ch.log.handled && c.log.responses == ch.log.responses
    ensures Reassembled(c) && AnsweredInOrder(k, c)
  {
    forall i | 0 <= i < |c.log.handled|
      ensures AnswerAt(k, c, i)
    {
      assert AnswerAt(k, ch, i);
    }
  }

  lemma {:induction false} FlushInv(k: Config, ch: Channel)
    requires Inv(k, ch)
    ensures Inv(k, Flush(k, ch))
    ensures Flush(k, ch).rx == ch.rx
    ensures Flush(k, ch).pending == [] || Flush(k, ch).peerWindow == 0
    decreases |ch.pending|
  {
    hide Inv, Chunked;
    if ch.pending != [] && ch.peerWindow != 0 {
      FlushOnceInv(k, ch);
      FlushInv(k, FlushOnce(k, ch));
    }
  }

  /** A longer pending answer than the window cannot be sent in full. */
  lemma {:induction false} FlushLeaves(k: Config, ch: Channel)
    requires |ch.pending| > ch.peerWindow
    ensures Flush(k, ch).pending != []
    decreases |ch.pending|
  {
    hide Chunked;
    if ch.peerWindow != 0 { FlushLeaves(k, FlushOnce(k, ch)); }
  }

  lemma AnsweredParts(k: Config, ch: Channel, n: nat)
    requires Reassembled(ch) && AnsweredInOrder(k, ch) && Front(ch.rx) == Whole(n)
    requires Answer(k, ch, n).Some?
    ensures var c := Answered(ch, n, Answer(k, ch, n).value);
            Reassembled(c) && AnsweredInOrder(k, c)
  {
    hide Front;
    var response := Answer(k, ch, n).value;
    var c := Answered(ch, n, response);
    FrontIsPacket(ch.rx);
    ConcatSnoc(ch.log.handled, ch.rx[..n]);
    Assoc(Concat(ch.log.handled), ch.rx[..n], ch.rx[n..]);
    assert ch.rx == ch.rx[..n] + ch.rx[n..];
    forall i | 0 <= i < |c.log.handled|
      ensures AnswerAt(k, c, i)
    {
      if i < |ch.log.handled| {
        assert AnswerAt(k, ch, i);
        assert c.log.handled[..i + 1] == ch.log.handled[..i + 1];
      } else {
        assert c.log.handled[..i + 1] == ch.log.handled + [ch.rx[..n]];
      }
    }
  }

  lemma HoldInv(k: Config, ch: Channel, n: nat)
    requires Inv(k, ch) && ch.pending == [] && Front(ch.rx) == Whole(n) && Answer(k, ch, n).Some?
    ensures Inv(k, Hold(Answered(ch, n, Answer(k, ch, n).value), Answer(k, ch, n).value))
  {
    hide Reassembled, AnswerAt, Concat, Front;
    var response := Answer(k, ch, n).value;
    var c := Answered(ch, n, response);
    AnsweredParts(k, ch, n);
    ConcatSnoc(ch.log.responses, response);
    assert Concat(ch.log.frames) + [] == Concat(ch.log.frames);
    SameInput(k, c, Hold(c, response));
  }

  lemma DeliverInv(k: Config, ch: Channel, n: nat)
    requires Inv(k, ch) && ch.pending == [] && Front(ch.rx) == Whole(n) && Answer(k, ch, n).Some?
    requires |Answer(k, ch, n).value| <= ch.peerWindow
    ensures Inv(k, Deliver(k, Answered(ch, n, Answer(k, ch, n).value), Answer(k, ch, n).value))
  {
    hide Reassembled, AnswerAt, Concat, Front, FramesFit, Frames;
    var response := Answer(k, ch, n).value;
    var c := Answered(ch, n, response);
    var frames := Frames(response, k.peerMax);
    AnsweredParts(k, ch, n);
    ConcatSnoc(ch.log.responses, response);
    FramesSound(response, k.peerMax);
    ConcatAppend(ch.log.frames, frames);
    FitsAppend(ch.log.frames, frames, k.peerMax);
    assert Concat(ch.log.frames) + [] == Concat(ch.log.frames);
    assert Concat(ch.log.frames + frames) + [] == Concat(ch.log.frames + frames);
    SameInput(k, c, Deliver(k, c, response));
  }

  predicate GoesOn(r: Result) {
    r.outcome == Ok || r.outcome == NotFound
  }

  ghost predicate Sound(k: Config, r: Result) {
    GoesOn(r) ==> Inv(k, r.channel) && CaughtUp(r.channel)
  }

  lemma {:induction false} DrainSound(k: Config, ch: Channel)
    requires Inv(k, ch) && ch.pending == []
    ensures Sound(k, Drain(k, ch))
    decreases |ch.rx|
  {
    hide Inv, Front, Answer, Flush, Frames;
    match Front(ch.rx)
    case Partial =>
    case Bad =>
    case Whole(n) =>
      match Answer(k, ch, n)
      case None =>
      case Some(response) =>
        var c := Answered(ch, n, response);
        if |response| > ch.peerWindow {
          HoldInv(k, ch, n);
          FlushInv(k, Hold(c, response));
          FlushLeaves(k, Hold(c, response));
        } else {
          DeliverInv(k, ch, n);
          DrainSound(k, Deliver(k, c, response));
        }
  }

  lemma FlushThenDrainSound(k: Config, ch: Channel)
    requires Inv(k, ch)
    ensures Sound(k, FlushThenDrain(k, ch))
  {
    hide Inv, Flush, Drain;
    FlushInv(k, ch);
    if Flush(k, ch).pending == [] { DrainSound(k, Flush(k, ch)); }
  }

  lemma TakeDataInv(k: Config, ch: Channel, data: ByteString)
    requires Inv(k, ch) && TakeData(k, ch, data).outcome == Ok
    ensures Inv(k, TakeData(k, ch, data).channel)
  {
    hide Concat, AnswerAt, ArePackets, FramesFit;
    var c := TakeData(k, ch, data).channel;
    Assoc(Concat(ch.log.handled), ch.rx, data);
    forall i | 0 <= i < |c.log.handled|
      ensures AnswerAt(k, c, i)
    {
      assert AnswerAt(k, ch, i);
      AnswerSame(k, ch, c, i);
    }
  }

  lemma AnswerSame(k: Config, ch: Channel, c: Channel, i: nat)
    requires i < |ch.log.handled| && |ch.log.responses| == |ch.log.handled|
    requires c.log.handled == ch.log.handled && c.log.responses == ch.log.responses
    ensures AnswerAt(k, c, i) == AnswerAt(k, ch, i)
  {
  }

  lemma AdjustedInv(k: Config, ch: Channel, n: nat)
    requires Inv(k, ch)
    ensures Inv(k, Adjusted(ch, n))
  {
    hide Concat, FramesFit, Reassembled, AnsweredInOrder;
    SameInput(k, ch, Adjusted(ch, n));
  }

  lemma FlagsInv(k: Config, ch: Channel)
    requires Inv(k, ch)
    ensures Inv(k, ch.(eofSent := true, closeSent := true))
  {
    hide Concat, FramesFit, Reassembled, AnsweredInOrder;
    SameInput(k, ch, ch.(eofSent := true, closeSent := true));
  }

  lemma ProcessSound(k: Config, ch: Channel, recipient: nat, m: Message)
    requires Inv(k, ch) && CaughtUp(ch)
    ensures Sound(k, Process(k, ch, recipient, m))
  {
    hide Inv, FlushThenDrain, TakeData, Front;
    match m
    case Timeout => FlushThenDrainSound(k, ch);
    case WindowAdjust(n) =>
      AdjustedInv(k, ch, n);
      FlushThenDrainSound(k, Adjusted(ch, n));
    case Eof => FlagsInv(k, ch);
    case Data(data) =>
      if TakeData(k, ch, data).outcome == Ok {
        TakeDataInv(k, ch, data);
        FlushThenDrainSound(k, TakeData(k, ch, data).channel);
      } else {
        TakeDataErrors(k, ch, data);
      }
    case _ =>
  }

  lemma TakeDataErrors(k: Config, ch: Channel, data: ByteString)
    ensures TakeData(k, ch, data).outcome != NotFound
  {
  }

  lemma {:induction false} RunInv(k: Config, events: seq<Event>)
    requires Run(k, events).Some?
    ensures Inv(k, Run(k, events).value) && CaughtUp(Run(k, events).value)
  {
    hide Inv, CaughtUp, Process;
    if events == [] {
      AcceptedInv(k);
    } else {
      var e := events[|events| - 1];
      RunInv(k, events[..|events| - 1]);
      ProcessSound(k, Run(k, events[..|events| - 1]).value, e.recipient, e.message);
    }
  }

  // ---- What went in ----

  /** The data messages of a run, put together. */
  function DataOf(events: seq<Event>): ByteString {
    if events == [] then [] else
      var m := events[|events| - 1].message;
      DataOf(events[..|events| - 1]) + if m.Data? then m.data else []
  }

  /** The window the peer has granted since the channel was opened. */
  function AdjustsOf(events: seq<Event>): nat {
    if events == [] then 0 else
      var m := events[|events| - 1].message;
      AdjustsOf(events[..|events| - 1]) + if m.WindowAdjust? then m.bytes else 0
  }

  ghost predicate SameIntake(a: Channel, b: Channel) {
    a.log.got == b.log.got && a.log.allowed == b.log.allowed
  }

  lemma {:induction false} FlushIntake(k: Config, ch: Channel)
    ensures SameIntake(Flush(k, ch), ch)
    decreases |ch.pending|
  {
    hide Chunked;
    if ch.pending != [] && ch.peerWindow != 0 { FlushIntake(k, FlushOnce(k, ch)); }
  }

  lemma {:induction false} DrainIntake(k: Config, ch: Channel)
    ensures SameIntake(Drain(k, ch).channel, ch)
    decreases |ch.rx|
  {
    hide Front, Answer, Flush, Frames;
    match Front(ch.rx)
    case Whole(n) =>
      match Answer(k, ch, n) {
        case None =>
        case Some(response) =>
          var c := Answered(ch, n, response);
          if |response| > ch.peerWindow {
            FlushIntake(k, Hold(c, response));
          } else {
            DrainIntake(k, Deliver(k, c, response));
          }
      }
    case _ =>
  }

  lemma FlushThenDrainIntake(k: Config, ch: Channel)
    ensures SameIntake(FlushThenDrain(k, ch).channel, ch)
  {
    hide Flush, Drain;
    FlushIntake(k, ch);
    DrainIntake(k, Flush(k, ch));
  }

  lemma ProcessIntake(k: Config, ch: Channel, e: Event)
    requires GoesOn(Process(k, ch, e.recipient, e.message))
    ensures var c := Process(k, ch, e.recipient, e.message).channel;
            && c.log.got == ch.log.got + (if e.message.Data? then e.message.data else [])
            && c.log.allowed == ch.log.allowed + if e.message.WindowAdjust? then e.message.bytes else 0
  {
    hide FlushThenDrain;
    match e.message
    case Timeout => FlushThenDrainIntake(k, ch);
    case WindowAdjust(n) => FlushThenDrainIntake(k, Adjusted(ch, n));
    case Data(data) =>
      if TakeData(k, ch, data).outcome == Ok { FlushThenDrainIntake(k, TakeData(k, ch, data).channel); }
    case _ =>
  }

  lemma {:induction false} RunIntake(k: Config, events: seq<Event>)
    requires Run(k, events).Some?
    ensures Run(k, events).value.log.got == DataOf(events)
    ensures Run(k, events).value.log.allowed == AdjustsOf(events)
  {
    hide Process;
    if events != [] {
      RunIntake(k, events[..|events| - 1]);
      ProcessIntake(k, Run(k, events[..|events| - 1]).value, events[|events| - 1]);
    }
  }

  // ---- What that means ----

  /** Whatever the fragments, the requests handled begin the reference cut of the
      bytes received; with nothing pending they are all of it. */
  lemma RequestsReassembled(k: Config, events: seq<Event>)
    requires Run(k, events).Some?
    ensures var ch := Run(k, events).value;
            && ch.log.handled <= Split(DataOf(events)).0
            && (ch.pending == [] ==> (ch.log.handled, ch.rx) == Split(DataOf(events)))
  {
    hide Run, DataOf, Concat, Front, AnswerAt;
    RunInv(k, events);
    RunIntake(k, events);
    var ch := Run(k, events).value;
    SplitUnique(ch.log.handled, ch.rx);
    if ch.pending == [] {
      SplitPartial(ch.rx);
      assert ch.log.handled + [] == ch.log.handled;
    }
  }

  lemma SplitPartial(rx: ByteString)
    requires Front(rx) == Partial
    ensures Split(rx) == ([], rx)
  {
    hide Front;
  }

  /** One of two sequences begins the other. */
  ghost predicate Comparable<T>(a: seq<T>, b: seq<T>) {
    a <= b || b <= a
  }

  lemma PrefixesComparable<T>(a: seq<T>, b: seq<T>, whole: seq<T>)
    requires a <= whole && b <= whole
    ensures Comparable(a, b) && (|a| <= |b| ==> a <= b)
  {
  }

  /** The answers follow from the requests. */
  lemma {:induction false} AnswersDetermined(k: Config, a: Channel, b: Channel, n: nat)
    requires AnsweredInOrder(k, a) && AnsweredInOrder(k, b)
    requires a.log.handled <= b.log.handled && n <= |a.log.handled|
    ensures a.log.responses[..n] == b.log.responses[..n]
  {
    if n > 0 {
      AnswersDetermined(k, a, b, n - 1);
      assert AnswerAt(k, a, n - 1) && AnswerAt(k, b, n - 1);
      assert a.log.handled[..n] == b.log.handled[..n];
      assert a.log.responses[..n] == a.log.responses[..n - 1] + [a.log.responses[n - 1]];
      assert b.log.responses[..n] == b.log.responses[..n - 1] + [b.log.responses[n - 1]];
    }
  }

  lemma ConcatPrefix(a: seq<ByteString>, b: seq<ByteString>)
    requires a <= b
    ensures Concat(a) <= Concat(b)
  {
    hide Concat;
    ConcatAppend(a, b[|a|..]);
    assert a + b[|a|..] == b;
  }

  /** A run that has handled no more requests has answered no more, and what the two
      have sent agrees as far as both have sent. */
  lemma BehindAgrees(k: Config, a: Channel, b: Channel)
    requires AnsweredInOrder(k, a) && AnsweredInOrder(k, b) && Accounted(a) && Accounted(b)
    requires a.log.handled <= b.log.handled
    ensures a.log.responses <= b.log.responses && Comparable(Concat(a.log.frames), Concat(b.log.frames))
  {
    hide Concat, AnsweredInOrder;
    AnswersInOrderLength(k, a);
    AnswersInOrderLength(k, b);
    AnswersDetermined(k, a, b, |a.log.handled|);
    assert a.log.responses[..|a.log.handled|] == a.log.responses;
    ConcatPrefix(a.log.responses, b.log.responses);
    PrefixesComparable(Concat(a.log.frames), Concat(b.log.frames), Concat(b.log.responses));
  }

  lemma AnswersInOrderLength(k: Config, ch: Channel)
    requires AnsweredInOrder(k, ch)
    ensures |ch.log.responses| == |ch.log.handled|
  {
  }

  /** Two runs that received the same bytes, cut and interleaved in any way, differ only
      in how far they have got: of their requests, of their answers and of the bytes
      they have sent, one list begins the other. */
  lemma FragmentationIndependent(k: Config, one: seq<Event>, two: seq<Event>)
    requires Run(k, one).Some? && Run(k, two).Some? && DataOf(one) == DataOf(two)
    ensures var a, b := Run(k, one).value, Run(k, two).value;
            && Comparable(a.log.handled, b.log.handled) && Comparable(a.log.responses, b.log.responses)
            && (a.log.handled <= b.log.handled ==> a.log.responses <= b.log.responses)
            && Comparable(Concat(a.log.frames), Concat(b.log.frames))
  {
    hide Run, DataOf, Concat, AnsweredInOrder, Reassembled, CaughtUp, Accounted, Split;
    RequestsReassembled(k, one);
    RequestsReassembled(k, two);
    RunInv(k, one);
    RunInv(k, two);
    var a, b := Run(k, one).value, Run(k, two).value;
    PrefixesComparable(a.log.handled, b.log.handled, Split(DataOf(one)).0);
    if a.log.handled <= b.log.handled { BehindAgrees(k, a, b); } else { BehindAgrees(k, b, a); }
  }

  /** With nothing pending in either run they have got equally far, and hold the same
      incomplete request. */
  lemma SettledRunsAgree(k: Config, one: seq<Event>, two: seq<Event>)
    requires Run(k, one).Some? && Run(k, two).Some? && DataOf(one) == DataOf(two)
    requires Run(k, one).value.pending == [] && Run(k, two).value.pending == []
    ensures var a, b := Run(k, one).value, Run(k, two).value;
            && a.log.handled == b.log.handled && a.log.responses == b.log.responses
            && Concat(a.log.frames) == Concat(b.log.frames) && a.rx == b.rx
  {
    hide Run, DataOf, Concat, AnsweredInOrder, Reassembled, CaughtUp, Split;
    RequestsReassembled(k, one);
    RequestsReassembled(k, two);
    RunInv(k, one);
    RunInv(k, two);
    var a, b := Run(k, one).value, Run(k, two).value;
    FragmentationIndependent(k, one, two);
    AnswersInOrderLength(k, a);
    AnswersInOrderLength(k, b);
    assert Concat(a.log.frames) + [] == Concat(a.log.frames);
    assert Concat(b.log.frames) + [] == Concat(b.log.frames);
  }

  /** Flow control over every run, in both directions. */
  lemma FlowControl(k: Config, events: seq<Event>)
    requires Run(k, events).Some?
    ensures var ch := Run(k, events).value;
            && ch.window == k.windowMax + ch.log.granted - |DataOf(events)|
            && ch.window <= k.windowMax && (k.windowMax != 0 ==> ch.window > k.windowMax / 2)
            && |Concat(ch.log.frames)| <= k.peerInitial + AdjustsOf(events)
            && FramesFit(ch.log.frames, k.peerMax)
            && Concat(ch.log.responses) == Concat(ch.log.frames) + ch.pending
  {
    hide Run, DataOf, Concat, Reassembled, AnsweredInOrder, FramesFit, CaughtUp;
    RunInv(k, events);
    RunIntake(k, events);
  }

  // ---- When a window adjustment does not help ----

  /** An answer is waiting although the peer has room for some of it. */
  ghost predicate Stalled(ch: Channel) {
    ch.pending != [] && ch.peerWindow != 0
  }

  lemma {:induction false} FlushNoStall(k: Config, ch: Channel)
    ensures !Stalled(Flush(k, ch))
    decreases |ch.pending|
  {
    hide Chunked;
    if ch.pending != [] && ch.peerWindow != 0 { FlushNoStall(k, FlushOnce(k, ch)); }
  }

  lemma {:induction false} DrainNoStall(k: Config, ch: Channel)
    requires ch.pending == []
    ensures !Stalled(Drain(k, ch).channel)
    decreases |ch.rx|
  {
    hide Front, Answer, Flush, Frames;
    match Front(ch.rx)
    case Whole(n) =>
      match Answer(k, ch, n) {
        case None =>
        case Some(response) =>
          var c := Answered(ch, n, response);
          if |response| > ch.peerWindow {
            FlushNoStall(k, Hold(c, response));
          } else {
            DrainNoStall(k, Deliver(k, c, response));
          }
      }
    case _ =>
  }

  lemma FlushThenDrainNoStall(k: Config, ch: Channel)
    ensures !Stalled(FlushThenDrain(k, ch).channel)
  {
    hide Flush, Drain;
    FlushNoStall(k, ch);
    if Flush(k, ch).pending == [] { DrainNoStall(k, Flush(k, ch)); }
  }

  /** An adjustment that gives room to a waiting answer gets it going exactly when
      the receive buffer holds part of a further request. */
  lemma AdjustResumesIff(k: Config, ch: Channel, n: nat)
    requires ch.pending != [] && n > 0
    ensures !Stalled(Process(k, ch, k.serverChannel, WindowAdjust(n)).channel) <==> ch.rx != []
  {
    hide FlushThenDrain;
    FlushThenDrainNoStall(k, Adjusted(ch, n));
  }

  /** So a run stalls only with an empty receive buffer. */
  lemma {:induction false} StallsOnlyWhenEmpty(k: Config, events: seq<Event>)
    requires Run(k, events).Some?
    ensures Stalled(Run(k, events).value) ==> Run(k, events).value.rx == []
  {
    hide FlushThenDrain, TakeData;
    if events != [] {
      var e := events[|events| - 1];
      StallsOnlyWhenEmpty(k, events[..|events| - 1]);
      var ch := Run(k, events[..|events| - 1]).value;
      match e.message
      case Timeout => FlushThenDrainNoStall(k, ch);
      case WindowAdjust(n) => FlushThenDrainNoStall(k, Adjusted(ch, n));
      case Data(data) =>
        FlushThenDrainNoStall(k, TakeData(k, ch, data).channel);
        TakeDataErrors(k, ch, data);
      case _ =>
    }
  }

  lemma HeldWhenClosed(k: Config, ch: Channel, n: nat, answer: ByteString)
    requires ch.pending == [] && ch.peerWindow == 0 && Front(ch.rx) == Whole(n)
    requires Answer(k, ch, n) == Some(answer) && answer != []
    ensures var r := FlushThenDrain(k, ch);
            && r.outcome == NotFound && r.channel.pending == answer && r.channel.rx == ch.rx[n..]
            && r.channel.peerWindow == 0
  {
    hide Front, Answer, Frames;
  }

  function OneAnswer(answer: ByteString): Config {
    Config(_ => Some(answer), 0, 100, 0, 0)
  }

  /** A request of five bytes, with more behind it, whose answer finds the peer's window
      closed. */
  lemma FirstStep(request: ByteString, more: ByteString, answer: ByteString)
    requires IsPacket(request) && |request| == 5 && |more| <= 1 && |answer| == 1
    ensures var k := OneAnswer(answer);
            var r := Process(k, Accepted(k), 0, Data(request + more));
            r.outcome == NotFound && r.channel.pending == answer && r.channel.rx == more && r.channel.peerWindow == 0
  {
    hide Front, FlushThenDrain;
    var k := OneAnswer(answer);
    var data := request + more;
    var t := TakeData(k, Accepted(k), data);
    assert t.outcome == Ok && t.channel.rx == [] + data == data;
    FrontStable(request, more);
    HeldWhenClosed(k, t.channel, 5, answer);
    assert data[5..] == more;
  }

  /** And it does happen: that request alone, then the adjustment that opens the window. */
  lemma StallHappens() returns (k: Config, events: seq<Event>)
    ensures Run(k, events).Some? && Stalled(Run(k, events).value)
  {
    hide Process, Front;
    var request: ByteString := [0, 0, 0, 1, 7];
    var answer: ByteString := [9];
    SmallRequest(request);
    FirstStep(request, [], answer);
    k := OneAnswer(answer);
    RunSnoc(k, [], Event(0, Data(request + [])));
    var first := [] + [Event(0, Data(request + []))];
    RunSnoc(k, first, Event(0, WindowAdjust(1)));
    events := first + [Event(0, WindowAdjust(1))];
    AdjustResumesIff(k, Run(k, first).value, 1);
    AdjustGoesOn(k, Run(k, first).value, 1);
  }

  // ---- Data behind the server's own EOF and CLOSE ----

  /** A channel carried on from a given state. */
  function Continue(k: Config, ch: Channel, events: seq<Event>): Option<Channel> {
    if events == [] then Some(ch) else
      var e := events[|events| - 1];
      match Continue(k, ch, events[..|events| - 1])
      case None => None
      case Some(c) =>
        var r := Process(k, c, e.recipient, e.message);
        if GoesOn(r) then Some(r.channel) else None
  }

  /** A peer that has sent its EOF sends no more data. */
  ghost predicate NoData(events: seq<Event>) {
    forall i | 0 <= i < |events| :: !events[i].message.Data?
  }

  ghost predicate SendsData(k: Config, ch: Channel, e: Event) {
    Process(k, ch, e.recipient, e.message).channel.log.frames != ch.log.frames
  }

  /** Whatever comes but data, no data goes out any more. */
  ghost predicate Silent(k: Config, ch: Channel) {
    forall events: seq<Event>, e: Event ::
      NoData(events) && !e.message.Data? && Continue(k, ch, events).Some? ==>
        !SendsData(k, Continue(k, ch, events).value, e)
  }

  /** Nothing to answer, or nothing that would set the pending answer going. */
  ghost predicate AtRest(ch: Channel) {
    (ch.pending == [] && Front(ch.rx) == Partial) || ch.rx == []
  }

  lemma RestStays(k: Config, ch: Channel, e: Event)
    requires AtRest(ch) && !e.message.Data?
    ensures !SendsData(k, ch, e) && AtRest(Process(k, ch, e.recipient, e.message).channel)
  {
    hide Front;
  }

  lemma {:induction false} RestContinues(k: Config, ch: Channel, events: seq<Event>)
    requires AtRest(ch) && NoData(events) && Continue(k, ch, events).Some?
    ensures AtRest(Continue(k, ch, events).value)
  {
    hide AtRest, Process;
    if events != [] {
      RestContinues(k, ch, events[..|events| - 1]);
      RestStays(k, Continue(k, ch, events[..|events| - 1]).value, events[|events| - 1]);
    }
  }

  lemma {:induction false} FlushFramesGrow(k: Config, ch: Channel)
    ensures ch.log.frames <= Flush(k, ch).log.frames
    decreases |ch.pending|
  {
    hide Chunked;
    if ch.pending != [] && ch.peerWindow != 0 { FlushFramesGrow(k, FlushOnce(k, ch)); }
  }

  lemma {:induction false} DrainFramesGrow(k: Config, ch: Channel)
    ensures ch.log.frames <= Drain(k, ch).channel.log.frames
    decreases |ch.rx|
  {
    hide Front, Answer, Flush, Frames;
    match Front(ch.rx)
    case Whole(n) =>
      match Answer(k, ch, n) {
        case None =>
        case Some(response) =>
          var c := Answered(ch, n, response);
          if |response| > ch.peerWindow {
            FlushFramesGrow(k, Hold(c, response));
          } else {
            DrainFramesGrow(k, Deliver(k, c, response));
          }
      }
    case _ =>
  }

  /** A pending answer with room and a nonempty receive buffer is sent on. */
  lemma FlushSends(k: Config, ch: Channel)
    requires ch.pending != [] && ch.peerWindow != 0
    ensures |FlushThenDrain(k, ch).channel.log.frames| > |ch.log.frames|
  {
    hide Flush, Drain, Chunked;
    FlushBegins(k, ch);
    FlushFramesGrow(k, FlushOnce(k, ch));
    DrainFramesGrow(k, Flush(k, ch));
  }

  lemma FlushBegins(k: Config, ch: Channel)
    requires ch.pending != [] && ch.peerWindow != 0
    ensures Flush(k, ch) == Flush(k, FlushOnce(k, ch))
    ensures |FlushOnce(k, ch).log.frames| > |ch.log.frames|
  {
  }

  /** Once the peer sends no more data the channel sends none either, in whatever way it
      goes on, exactly when no answer is pending or the receive buffer is empty. */
  lemma SilentIff(k: Config, ch: Channel)
    requires CaughtUp(ch)
    ensures Silent(k, ch) <==> ch.pending == [] || ch.rx == []
  {
    hide Process, Front;
    if ch.pending == [] || ch.rx == [] {
      forall events: seq<Event>, e: Event
        | NoData(events) && !e.message.Data? && Continue(k, ch, events).Some?
        ensures !SendsData(k, Continue(k, ch, events).value, e)
      {
        RestContinues(k, ch, events);
        RestStays(k, Continue(k, ch, events).value, e);
      }
    } else {
      var e := Event(k.serverChannel, WindowAdjust(1));
      AdjustSends(k, ch);
      assert NoData([]) && Continue(k, ch, []) == Some(ch) && SendsData(k, ch, e);
    }
  }

  lemma AdjustSends(k: Config, ch: Channel)
    requires ch.pending != [] && ch.rx != []
    ensures SendsData(k, ch, Event(k.serverChannel, WindowAdjust(1)))
  {
    hide FlushThenDrain;
    FlushSends(k, Adjusted(ch, 1));
  }

  /** So data can follow the server's own EOF and CLOSE: a request with the beginning of
      another behind it, the peer's EOF, and the adjustment that sets the answer going. */
  lemma DataAfterClose() returns (k: Config, events: seq<Event>, e: Event)
    ensures Run(k, events).Some? && Run(k, events).value.eofSent && Run(k, events).value.closeSent
    ensures !e.message.Data? && SendsData(k, Run(k, events).value, e)
  {
    hide Process, Front;
    var request: ByteString := [0, 0, 0, 1, 7];
    var answer: ByteString := [9];
    SmallRequest(request);
    FirstStep(request, [0], answer);
    k := OneAnswer(answer);
    var data := Event(0, Data(request + [0]));
    RunSnoc(k, [], data);
    var first := [] + [data];
    RunSnoc(k, first, Event(0, Eof));
    EofCloses(k, Run(k, first).value);
    events := first + [Event(0, Eof)];
    e := Event(0, WindowAdjust(1));
    AdjustSends(k, Run(k, events).value);
  }

  lemma EofCloses(k: Config, ch: Channel)
    ensures Process(k, ch, k.serverChannel, Eof) == Result(Ok, ch.(eofSent := true, closeSent := true))
  {
  }

  lemma RunSnoc(k: Config, events: seq<Event>, e: Event)
    requires Run(k, events).Some?
    ensures var r := Process(k, Run(k, events).value, e.recipient, e.message);
            Run(k, events + [e]) == if GoesOn(r) then Some(r.channel) else None
  {
    hide Process;
    assert (events + [e])[..|events|] == events;
  }

  lemma SmallRequest(request: ByteString)
    requires request == [0, 0, 0, 1, 7]
    ensures IsPacket(request)
  {
    assert request[..4] == [0, 0, 0, 1];
  }

  lemma AdjustGoesOn(k: Config, ch: Channel, n: nat)
    requires ch.rx == []
    ensures Process(k, ch, k.serverChannel, WindowAdjust(n)).outcome == Ok
  {
  }
}
