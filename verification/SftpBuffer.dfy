/** The SFTP channel as the server runs it: two fixed buffers that are appended to
    and shifted down in place. */
module SftpBuffer {
  import opened Bytes
  import opened ChannelFrames
  import opened SftpChannel
  import Wire = WireBuffer

  /** The first n of len bytes leave, the others move to the front. */
  method MoveToFront(a: array<Byte>, n: nat, len: nat)
    requires n <= len <= a.Length
    modifies a
    ensures a[..len - n] == old(a[..len])[n..]
  {
    forall i | 0 <= i < len - n {
      a[i] := a[n + i];
    }
  }

  class Channel {
    const config: Config
    const rx: array<Byte>
    const pending: array<Byte>
    var rxLen: nat
    var pendingLen: nat
    var window: nat
    var peerWindow: nat
    var eofSent: bool
    var closeSent: bool
    var handled: seq<ByteString>     // the state of the request handler
    var frames: seq<ByteString>      // the connection
    ghost var got: ByteString
    ghost var responses: seq<ByteString>
    ghost var granted: nat
    ghost var allowed: nat

    ghost predicate Valid()
      reads this
    {
      && rx != pending && rx.Length == MAX_SFTP && pending.Length == MAX_SFTP
      && rxLen <= MAX_SFTP && pendingLen <= MAX_SFTP && window <= config.windowMax
      && peerWindow <= U32_MAX
    }

    ghost function View(): SftpChannel.Channel
      requires Valid()
      reads this, rx, pending
    {
      SftpChannel.Channel(rx[..rxLen], pending[..pendingLen], window, peerWindow, eofSent, closeSent,
                          Log(got, handled, responses, frames, granted, allowed))
    }

    constructor (config: Config)
      requires config.peerInitial <= U32_MAX
      ensures Valid() && View() == Accepted(config) && this.config == config && fresh(rx) && fresh(pending)
    {
      this.config := config;
      rx, pending := new Byte[MAX_SFTP](_ => 0), new Byte[MAX_SFTP](_ => 0);
      rxLen, pendingLen := 0, 0;
      window, peerWindow := config.windowMax, config.peerInitial;
      eofSent, closeSent := false, false;
      handled, frames, got, responses, granted, allowed := [], [], [], [], 0, 0;
    }

    // ---- Sending ----

    method SendChannelData(data: ByteString)
      modifies this`frames
      ensures frames == old(frames) + Chunked(data)
    {
      hide Chunked;
      var offset := 0;
      ghost var done: seq<ByteString> := [];
      var more := true;
      assert data[0..] == data;
      while more
        invariant offset <= |data| && frames == old(frames) + done
        invariant more ==> Chunked(data) == done + Chunked(data[offset..])
        invariant !more ==> Chunked(data) == done
        decreases more, |data| - offset
      {
        var len := Min(|data| - offset, MAX_DATA);
        ghost var left := data[offset..];
        var frame := data[offset..offset + len];
        assert frame == left[..len] && data[offset + len..] == left[len..];
        ChunkStep(left, len);
        frames := frames + [frame];
        assert done + ([frame] + Chunked(left[len..])) == (done + [frame]) + Chunked(left[len..]);
        done := done + [frame];
        offset := offset + len;
        more := offset < |data|;
      }
    }

    /** Sends what the peer's window allows of the pending answer. */
    method FlushPending() returns (outcome: Outcome)
      requires Valid()
      modifies this`frames, this`peerWindow, this`pendingLen, pending
      ensures Valid()
      ensures Result(outcome, View()) == Flushed(config, old(View()))
    {
      while pendingLen != 0 && peerWindow != 0
        invariant Valid() && Flush(config, View()) == Flush(config, old(View()))
        decreases pendingLen
      {
        FlushSome();
      }
      outcome := if pendingLen == 0 then Ok else NotFound;
    }

    method FlushSome()
      requires Valid() && pendingLen != 0 && peerWindow != 0
      modifies this`frames, this`peerWindow, this`pendingLen, pending
      ensures Valid() && pendingLen < old(pendingLen)
      ensures View() == FlushOnce(config, old(View()))
    {
      hide Chunked;
      var n := pendingLen;
      if n > peerWindow { n := peerWindow; }
      if config.peerMax != 0 && n > config.peerMax { n := config.peerMax; }
      ghost var was := pending[..pendingLen];
      assert pending[..n] == was[..n];
      SendChannelData(pending[..n]);
      peerWindow := peerWindow - n;
      ShiftPending(n);
    }

    method ShiftPending(n: nat)
      requires Valid() && n <= pendingLen
      modifies this`pendingLen, pending
      ensures Valid() && pendingLen == old(pendingLen) - n
      ensures View() == old(View()).(pending := old(View()).pending[n..])
    {
      MoveToFront(pending, n, pendingLen);
      pendingLen := pendingLen - n;
    }

    /** Sends an answer that fits the window, cut to the peer's packet size. */
    method SendResponse(response: ByteString)
      requires |response| <= peerWindow
      modifies this`frames, this`peerWindow
      ensures frames == old(frames) + Frames(response, config.peerMax)
      ensures peerWindow == old(peerWindow) - |response|
    {
      hide Chunked, Frames;
      var sent := 0;
      ghost var done: seq<ByteString> := [];
      assert response[0..] == response;
      while sent < |response|
        invariant sent <= |response| && frames == old(frames) + done && peerWindow == old(peerWindow)
        invariant Frames(response, config.peerMax) == done + Frames(response[sent..], config.peerMax)
      {
        var n := |response| - sent;
        if config.peerMax != 0 && n > config.peerMax { n := config.peerMax; }
        ghost var left := response[sent..];
        assert response[sent..sent + n] == left[..n] && response[sent + n..] == left[n..];
        FramesNext(left, config.peerMax, n);
        Assoc(done, Chunked(left[..n]), Frames(left[n..], config.peerMax));
        SendChannelData(response[sent..sent + n]);
        Assoc(old(frames), done, Chunked(left[..n]));
        done := done + Chunked(left[..n]);
        sent := sent + n;
      }
      assert response[sent..] == [];
      FramesEnd(config.peerMax);
      assert done + [] == done;
      peerWindow := peerWindow - |response|;
    }

    // ---- Receiving ----

    method MaybeReplenish()
      requires Valid()
      modifies this`window, this`granted
      ensures Valid() && View() == Replenished(config, old(View()))
    {
      if window > config.windowMax / 2 { return; }
      granted := granted + (config.windowMax - window);
      window := config.windowMax;
    }

    method ChargeWindow(n: nat)
      requires Valid() && n <= window
      modifies this`window, this`granted
      ensures Valid() && View() == Replenished(config, old(View()).(window := old(window) - n))
    {
      window := window - n;
      MaybeReplenish();
    }

    method AppendData(data: ByteString)
      requires Valid() && |data| <= MAX_SFTP - rxLen
      modifies this`rxLen, this`got, rx
      ensures Valid()
      ensures View() == old(View()).(rx := old(View()).rx + data,
                                     log := old(View()).log.(got := old(View()).log.got + data))
    {
      ghost var was := rx[..rxLen];
      forall i | 0 <= i < |data| {
        rx[rxLen + i] := data[i];
      }
      rxLen := rxLen + |data|;
      assert rx[..rxLen] == was + data;
      got := got + data;
    }

    method ReceiveData(data: ByteString) returns (outcome: Outcome)
      requires Valid()
      modifies this`window, this`granted, this`rxLen, this`got, rx
      ensures Valid() && Result(outcome, View()) == TakeData(config, old(View()), data)
    {
      if |data| > window { return SecurityError; }
      if config.windowMax == 0 { return InvalidArgument; }
      ChargeWindow(|data|);
      if |data| > MAX_SFTP - rxLen { return TooSmall; }
      AppendData(data);
      return Ok;
    }

    // ---- Requests ----

    /** Drops a handled request from the front of the buffer. */
    method RemoveRequest(n: nat, response: ByteString)
      requires Valid() && n <= rxLen
      modifies this`rxLen, this`handled, this`responses, rx
      ensures Valid() && View() == Answered(old(View()), n, response)
      ensures rxLen == old(rxLen) - n
    {
      assert rx[..n] == rx[..rxLen][..n];
      handled := handled + [rx[..n]];
      responses := responses + [response];
      MoveToFront(rx, n, rxLen);
      rxLen := rxLen - n;
    }

    method HoldResponse(response: ByteString)
      requires Valid() && |response| <= MAX_SFTP
      modifies this`pendingLen, pending
      ensures Valid() && View() == Hold(old(View()), response)
    {
      forall i | 0 <= i < |response| {
        pending[i] := response[i];
      }
      pendingLen := |response|;
      assert pending[..pendingLen] == response;
    }

    /** What the front of the buffer holds. */
    method Inspect() returns (front: Framing)
      requires Valid()
      ensures front == Front(View().rx)
    {
      if rxLen < 4 { return Partial; }
      assert rx[..rxLen][..4] == [rx[0], rx[1], rx[2], rx[3]];
      var n := Wire.Word(rx[0], rx[1], rx[2], rx[3]);
      if n == 0 || n > MAX_SFTP - 4 { return Bad; }
      if rxLen < n + 4 { return Partial; }
      return Whole(n + 4);
    }

    /** Answers whole requests until none is left or an answer has to wait. */
    method DrainRequests() returns (outcome: Outcome)
      requires Valid()
      modifies this, rx, pending
      ensures Valid() && Result(outcome, View()) == Drain(config, old(View()))
    {
      hide Front, Flush, Frames;
      var front := Inspect();
      while front.Whole?
        invariant Valid() && front == Front(View().rx)
        invariant Drain(config, View()) == Drain(config, old(View()))
        decreases rxLen
      {
        var answer := config.handler(handled + [rx[..front.len]]);
        assert View().rx[..front.len] == rx[..front.len];
        if answer.None? || |answer.value| > MAX_RESPONSE { return HandlerFailed; }
        RemoveRequest(front.len, answer.value);
        if |answer.value| > peerWindow {
          HoldResponse(answer.value);
          outcome := FlushPending();
          return;
        }
        ghost var v := View();
        SendResponse(answer.value);
        assert View() == Deliver(config, v, answer.value);
        front := Inspect();
      }
      outcome := if front.Bad? then Malformed else Ok;
    }

    method FlushAndDrain() returns (outcome: Outcome)
      requires Valid()
      modifies this, rx, pending
      ensures Valid() && Result(outcome, View()) == FlushThenDrain(config, old(View()))
    {
      hide Flush, Drain;
      outcome := FlushPending();
      if outcome != Ok { return; }
      outcome := DrainRequests();
    }

    /** One call of the channel's message processing. */
    method ProcessMessage(recipient: nat, m: Message) returns (outcome: Outcome)
      requires Valid()
      modifies this, rx, pending
      ensures Valid() && Result(outcome, View()) == Process(config, old(View()), recipient, m)
    {
      hide FlushThenDrain, TakeData;
      if m.Timeout? {
        if rxLen != 0 {
          outcome := FlushAndDrain();
          return;
        }
        return if closeSent then Closed else NotFound;
      }
      if recipient != config.serverChannel { return SecurityError; }
      match m
      case WindowAdjust(n) =>
        peerWindow := if U32_MAX - peerWindow < n then U32_MAX else peerWindow + n;
        allowed := allowed + n;
        assert View() == Adjusted(old(View()), n);
        if rxLen == 0 { return Ok; }
        outcome := FlushAndDrain();
      case Request =>
        outcome := Ok;
      case Eof =>
        eofSent, closeSent := true, true;
        outcome := Ok;
      case Close =>
        closeSent := true;
        outcome := Closed;
      case Data(data) =>
        outcome := ReceiveData(data);
        if outcome == Ok { outcome := FlushAndDrain(); }
      case OtherMessage =>
        outcome := Unsupported;
    }
  }

  lemma ChunkStep(data: ByteString, n: nat)
    requires n == Min(|data|, MAX_DATA)
    ensures n < |data| ==> Chunked(data) == [data[..n]] + Chunked(data[n..])
    ensures n == |data| ==> Chunked(data) == [data] && data[..n] == data
  {
  }

  lemma FramesNext(data: ByteString, peerMax: nat, n: nat)
    requires data != [] && n == Limited(|data|, peerMax)
    ensures Frames(data, peerMax) == Chunked(data[..n]) + Frames(data[n..], peerMax)
  {
    hide Chunked;
  }

  lemma FramesEnd(peerMax: nat)
    ensures Frames([], peerMax) == []
  {
  }
}
