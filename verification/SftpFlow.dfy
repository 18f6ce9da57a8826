/** How much the SFTP channel sends and grants, and what each message comes to: the
    exact account behind the bounds of SftpChannel. */
module SftpFlow {
  import opened Bytes
  import opened ChannelFrames
  import opened SftpChannel
  import opened Positional
  import Wire = WireBuffer

  // ---- Frames ----

  /** All frames but the last have the full length, and the last is not longer. */
  ghost predicate Full(frames: seq<ByteString>, n: nat) {
    && (forall i | 0 <= i < |frames| - 1 :: |frames[i]| == n)
    && (frames != [] ==> |frames[|frames| - 1]| <= n)
  }

  lemma {:induction false} ChunkedFull(data: ByteString)
    ensures Full(Chunked(data), 32759) && Chunked(data) != []
    decreases |data|
  {
    if |data| > MAX_DATA { ChunkedFull(data[MAX_DATA..]); }
  }

  /** An answer goes out in frames as long as the peer's packet size and the transport
      allow, and an empty answer in none. */
  lemma {:induction false} FramesFull(data: ByteString, peerMax: nat)
    requires peerMax <= 32759
    ensures Full(Frames(data, peerMax), if peerMax == 0 then 32759 else peerMax)
    ensures Frames(data, peerMax) == [] <==> data == []
    decreases |data|
  {
    if peerMax == 0 {
      ChunkedFull(data);
      if data != [] {
        assert data[..|data|] == data && data[|data|..] == [];
        assert Chunked(data) + [] == Chunked(data);
      }
    } else if data != [] {
      var n := Limited(|data|, peerMax);
      assert Chunked(data[..n]) == [data[..n]];
      FramesFull(data[n..], peerMax);
    }
  }

  lemma FramesStep(data: ByteString, m: nat, n: nat, peerMax: nat)
    requires 0 < m <= |data| && n == Limited(m, peerMax)
    ensures Frames(data[..m], peerMax) == Chunked(data[..n]) + Frames(data[n..][..m - n], peerMax)
    ensures data[n..][m - n..] == data[m..]
  {
    hide Chunked;
    assert data[..m][..n] == data[..n] && data[..m][n..] == data[n..][..m - n];
  }

  lemma NothingToSend(peerMax: nat)
    ensures Frames([], peerMax) == []
  {
  }

  /** The first n bytes of the pending answer are out, cut like any answer, and nothing
      else has changed. */
  ghost function Sent(k: Config, ch: Channel, n: nat): Channel
    requires n <= |ch.pending| && n <= ch.peerWindow
  {
    ch.(pending := ch.pending[n..], peerWindow := ch.peerWindow - n,
        log := ch.log.(frames := ch.log.frames + Frames(ch.pending[..n], k.peerMax)))
  }

  lemma SentNone(k: Config, ch: Channel)
    ensures Sent(k, ch, 0) == ch
  {
    NothingToSend(k.peerMax);
    assert ch.pending[..0] == [] && ch.pending[0..] == ch.pending && ch.log.frames + [] == ch.log.frames;
  }

  lemma SentStep(k: Config, ch: Channel, m: nat)
    requires 0 < m == Min(|ch.pending|, ch.peerWindow)
    ensures Sent(k, FlushOnce(k, ch), m - SendLen(k, ch)) == Sent(k, ch, m)
  {
    hide Chunked, Frames;
    var n := SendLen(k, ch);
    FramesStep(ch.pending, m, n, k.peerMax);
    Assoc(ch.log.frames, Chunked(ch.pending[..n]), Frames(ch.pending[n..][..m - n], k.peerMax));
  }

  /** Flushing sends what fits both the pending answer and the peer's window. */
  lemma {:induction false} FlushIsFrames(k: Config, ch: Channel)
    ensures Flush(k, ch) == Sent(k, ch, Min(|ch.pending|, ch.peerWindow))
    decreases |ch.pending|
  {
    hide Chunked, Sent;
    var m := Min(|ch.pending|, ch.peerWindow);
    if m == 0 {
      SentNone(k, ch);
    } else {
      SentStep(k, ch, m);
      FlushIsFrames(k, FlushOnce(k, ch));
    }
  }

  // ---- The peer's window, to the byte ----

  ghost predicate Balanced(k: Config, ch: Channel) {
    |Concat(ch.log.frames)| + ch.peerWindow == k.peerInitial + ch.log.allowed
  }

  lemma SentBalanced(k: Config, ch: Channel, c: Channel, data: ByteString)
    requires Balanced(k, ch) && |data| <= ch.peerWindow && c.peerWindow == ch.peerWindow - |data|
    requires c.log.allowed == ch.log.allowed && c.log.frames == ch.log.frames + Frames(data, k.peerMax)
    ensures Balanced(k, c)
  {
    hide Concat, Frames;
    FramesSound(data, k.peerMax);
    ConcatAppend(ch.log.frames, Frames(data, k.peerMax));
  }

  lemma FlushBalanced(k: Config, ch: Channel)
    requires Balanced(k, ch)
    ensures Balanced(k, Flush(k, ch))
  {
    hide Balanced, Flush, Frames;
    FlushIsFrames(k, ch);
    SentBalanced(k, ch, Flush(k, ch), ch.pending[..Min(|ch.pending|, ch.peerWindow)]);
  }

  lemma {:induction false} DrainBalanced(k: Config, ch: Channel)
    requires Balanced(k, ch)
    ensures Balanced(k, Drain(k, ch).channel)
    decreases |ch.rx|
  {
    hide Front, Answer, Flush, Frames, Concat;
    match Front(ch.rx)
    case Whole(n) =>
      match Answer(k, ch, n) {
        case None =>
        case Some(response) =>
          var c := Answered(ch, n, response);
          if |response| > ch.peerWindow {
            FlushBalanced(k, Hold(c, response));
          } else {
            SentBalanced(k, ch, Deliver(k, c, response), response);
            DrainBalanced(k, Deliver(k, c, response));
          }
      }
    case _ =>
  }

  lemma FlushThenDrainBalanced(k: Config, ch: Channel)
    requires Balanced(k, ch)
    ensures Balanced(k, FlushThenDrain(k, ch).channel)
  {
    hide Balanced, Flush, Drain;
    FlushBalanced(k, ch);
    DrainBalanced(k, Flush(k, ch));
  }

  lemma ProcessBalanced(k: Config, ch: Channel, e: Event)
    requires Balanced(k, ch) && GoesOn(Process(k, ch, e.recipient, e.message))
    requires e.message.WindowAdjust? ==> k.peerInitial + ch.log.allowed + e.message.bytes <= U32_MAX
    ensures Balanced(k, Process(k, ch, e.recipient, e.message).channel)
  {
    hide FlushThenDrain, Concat;
    match e.message
    case Timeout => FlushThenDrainBalanced(k, ch);
    case WindowAdjust(n) => FlushThenDrainBalanced(k, Adjusted(ch, n));
    case Data(data) =>
      if TakeData(k, ch, data).outcome == Ok { FlushThenDrainBalanced(k, TakeData(k, ch, data).channel); }
    case _ =>
  }

  lemma {:induction false} RunBalanced(k: Config, events: seq<Event>)
    requires Run(k, events).Some? && k.peerInitial + AdjustsOf(events) <= U32_MAX
    ensures Balanced(k, Run(k, events).value)
  {
    hide Process, Balanced;
    if events == [] {
      StartBalanced(k);
    } else {
      RunBalanced(k, events[..|events| - 1]);
      RunIntake(k, events[..|events| - 1]);
      ProcessBalanced(k, Run(k, events[..|events| - 1]).value, events[|events| - 1]);
    }
  }

  lemma StartBalanced(k: Config)
    ensures Balanced(k, Accepted(k))
  {
  }

  /** While the peer keeps its grants within 32 bits, every byte it allows is either sent
      or still open: the window is the initial one plus all adjustments less the data. */
  lemma PeerWindowExact(k: Config, events: seq<Event>)
    requires Run(k, events).Some? && k.peerInitial + AdjustsOf(events) <= 0xFFFF_FFFF
    ensures var ch := Run(k, events).value;
            |Concat(ch.log.frames)| + ch.peerWindow == k.peerInitial + AdjustsOf(events)
  {
    hide Run, AdjustsOf, Concat;
    RunBalanced(k, events);
    RunIntake(k, events);
  }

  // ---- What a message comes to ----

  /** The front of the buffer: a length of one to 131068 and so many bytes. */
  lemma FrontExactly(rx: ByteString)
    ensures var n := if |rx| < 4 then 0 else Value(256, rx[..4]);
            && (Front(rx) == Partial <==> |rx| < 4 || (1 <= n <= 131068 && |rx| < n + 4))
            && (Front(rx) == Bad <==> |rx| >= 4 && (n == 0 || n > 131068))
            && (Front(rx).Whole? ==> Front(rx).len == n + 4)
  {
    hide Wire.U32Of;
    if |rx| >= 4 { Wire.U32Digits(rx[..4]); }
  }

  /** Draining ends with an answer that has to wait, a malformed request, one the handler
      fails on, or none at all. */
  ghost predicate Explained(k: Config, r: Result) {
    var ch := r.channel;
    match r.outcome
    case NotFound => ch.pending != [] && ch.peerWindow == 0
    case Ok => ch.pending == [] && Front(ch.rx) == Partial
    case Malformed => ch.pending == [] && Front(ch.rx) == Bad
    case HandlerFailed =>
      && ch.pending == [] && Front(ch.rx).Whole?
      && var answer := k.handler(ch.log.handled + [ch.rx[..Front(ch.rx).len]]);
         answer.None? || |answer.value| > 35000
    case _ => false
  }

  lemma {:induction false} DrainExplained(k: Config, ch: Channel)
    requires ch.pending == []
    ensures Explained(k, Drain(k, ch))
    decreases |ch.rx|
  {
    hide Front, Flush, Frames;
    match Front(ch.rx)
    case Whole(n) =>
      match Answer(k, ch, n) {
        case None =>
        case Some(response) =>
          var c := Answered(ch, n, response);
          if |response| > ch.peerWindow {
            FlushIsFrames(k, Hold(c, response));
          } else {
            DrainExplained(k, Deliver(k, c, response));
          }
      }
    case _ =>
  }

  lemma FlushThenDrainExplained(k: Config, ch: Channel)
    ensures Explained(k, FlushThenDrain(k, ch))
  {
    hide Flush, Drain, Front, Frames;
    FlushIsFrames(k, ch);
    if Flush(k, ch).pending == [] { DrainExplained(k, Flush(k, ch)); }
  }

  /** Data is turned down exactly beyond the window, without a window to top up, or beyond
      the 131072 bytes of the receive buffer; all other data is worked on. */
  lemma DataOutcome(k: Config, ch: Channel, data: ByteString)
    requires ch.window <= k.windowMax
    ensures var r := Process(k, ch, k.serverChannel, Data(data));
            && (r.outcome == SecurityError <==> |data| > ch.window)
            && (r.outcome == InvalidArgument <==> |data| <= ch.window && k.windowMax == 0)
            && (r.outcome == TooSmall <==> |data| <= ch.window && k.windowMax != 0 && |ch.rx| + |data| > 131072)
            && (r.outcome !in {SecurityError, InvalidArgument, TooSmall} ==> Explained(k, r))
  {
    hide FlushThenDrain, Replenished;
    if TakeData(k, ch, data).outcome == Ok || |ch.rx| <= MAX_SFTP {
      FlushThenDrainExplained(k, TakeData(k, ch, data).channel);
    }
  }

  /** A timeout or an adjustment with anything in the receive buffer is worked on too. */
  lemma ResumedOutcome(k: Config, ch: Channel, n: nat)
    requires ch.rx != []
    ensures forall recipient: nat :: Explained(k, Process(k, ch, recipient, Timeout))
    ensures Explained(k, Process(k, ch, k.serverChannel, WindowAdjust(n)))
  {
    hide FlushThenDrain, Explained;
    FlushThenDrainExplained(k, ch);
    FlushThenDrainExplained(k, Adjusted(ch, n));
  }

  /** What the other messages come to; none of them touches data, answers or windows. */
  lemma QuietOutcome(k: Config, ch: Channel, e: Event)
    requires e.message in {Request, Eof, Close, OtherMessage} || (e.message == Timeout && ch.rx == []) ||
             (e.message != Timeout && e.recipient != k.serverChannel)
    ensures var r := Process(k, ch, e.recipient, e.message);
            && r.channel.(eofSent := ch.eofSent, closeSent := ch.closeSent) == ch
            && r.outcome == (
                 if e.message == Timeout then (if ch.closeSent then Closed else NotFound)
                 else if e.recipient != k.serverChannel then SecurityError
                 else if e.message == Close then Closed
                 else if e.message == OtherMessage then Unsupported
                 else Ok)
  {
  }

  ghost predicate SameWindow(a: Channel, b: Channel) {
    a.window == b.window && a.log.granted == b.log.granted && a.eofSent == b.eofSent && a.closeSent == b.closeSent
  }

  lemma {:induction false} DrainWindow(k: Config, ch: Channel)
    ensures SameWindow(Drain(k, ch).channel, ch)
    decreases |ch.rx|
  {
    hide Front, Answer, Flush, Frames;
    match Front(ch.rx)
    case Whole(n) =>
      match Answer(k, ch, n) {
        case None =>
        case Some(response) =>
          var c := Answered(ch, n, response);
          if |response| > ch.peerWindow {
            FlushIsFrames(k, Hold(c, response));
          } else {
            DrainWindow(k, Deliver(k, c, response));
          }
      }
    case _ =>
  }

  lemma FlushThenDrainWindow(k: Config, ch: Channel)
    ensures SameWindow(FlushThenDrain(k, ch).channel, ch)
  {
    hide Flush, Drain, Frames;
    FlushIsFrames(k, ch);
    DrainWindow(k, Flush(k, ch));
  }

  /** Data is charged to the receive window, and the window is topped up to its maximum
      exactly when no more than half of it would be left; nothing else moves it. */
  lemma WindowStep(k: Config, ch: Channel, e: Event)
    requires GoesOn(Process(k, ch, e.recipient, e.message))
    ensures var c := Process(k, ch, e.recipient, e.message).channel;
            var left: int := ch.window - if e.message.Data? then |e.message.data| else 0;
            && left >= 0
            && (e.message.Data? && left <= k.windowMax / 2 ==>
                c.window == k.windowMax && c.log.granted == ch.log.granted + (k.windowMax - left))
            && (!e.message.Data? || left > k.windowMax / 2 ==>
                c.window == left && c.log.granted == ch.log.granted)
  {
    hide FlushThenDrain;
    match e.message
    case Timeout => FlushThenDrainWindow(k, ch);
    case WindowAdjust(n) => FlushThenDrainWindow(k, Adjusted(ch, n));
    case Data(data) =>
      if TakeData(k, ch, data).outcome == Ok { FlushThenDrainWindow(k, TakeData(k, ch, data).channel); }
    case _ =>
  }

  lemma FlagsStep(k: Config, ch: Channel, e: Event)
    requires GoesOn(Process(k, ch, e.recipient, e.message))
    ensures var c := Process(k, ch, e.recipient, e.message).channel;
            && c.eofSent == (ch.eofSent || e.message == Eof)
            && c.closeSent == (ch.closeSent || e.message == Eof)
  {
    hide FlushThenDrain;
    match e.message
    case Timeout => FlushThenDrainWindow(k, ch);
    case WindowAdjust(n) => FlushThenDrainWindow(k, Adjusted(ch, n));
    case Data(data) =>
      if TakeData(k, ch, data).outcome == Ok { FlushThenDrainWindow(k, TakeData(k, ch, data).channel); }
    case _ =>
  }

  /** The server has sent its EOF and its CLOSE exactly when the peer's EOF has come; the
      peer's CLOSE is answered and ends the channel. */
  lemma {:induction false} ClosedExactly(k: Config, events: seq<Event>)
    requires Run(k, events).Some?
    ensures var ch := Run(k, events).value;
            && (ch.eofSent <==> exists i :: 0 <= i < |events| && events[i].message == Eof)
            && ch.closeSent == ch.eofSent
            && Process(k, ch, k.serverChannel, Close) == Result(Closed, ch.(closeSent := true))
  {
    hide Process;
    if events != [] {
      var n := |events| - 1;
      var e := events[n];
      ClosedExactly(k, events[..n]);
      FlagsStep(k, Run(k, events[..n]).value, e);
      var ch, c := Run(k, events[..n]).value, Run(k, events).value;
      if ch.eofSent {
        var i :| 0 <= i < n && events[..n][i].message == Eof;
        assert events[i].message == Eof;
      }
      if i :| 0 <= i < |events| && events[i].message == Eof {
        assert i < n ==> events[..n][i].message == Eof;
      }
    }
    CloseAnswered(k, Run(k, events).value);
  }

  lemma CloseAnswered(k: Config, ch: Channel)
    ensures Process(k, ch, k.serverChannel, Close) == Result(Closed, ch.(closeSent := true))
  {
  }
}
