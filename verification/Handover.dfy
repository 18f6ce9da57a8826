/** Handing a task's terminal over to a connecting client: the recent output is
    replayed from the ring, then live output follows without a gap. Screen
    snapshots are off. */
module Handover {
  import opened Bytes
  import opened ReplayRing

  // ---- The protocol as events ----

  datatype Event =
    | Attach                     // a client takes the terminal
    | Replay(bytes: ByteString)  // a client read served from the ring
    | Live(bytes: ByteString)    // a client read served by the child
    | Monitor(bytes: ByteString) // output captured while nobody is attached
    | Close                      // the client leaves

  datatype Config = Config(capacity: nat, replayOnAttach: bool)

  /** The kept output and the attachment's place in it. */
  datatype State = State(ring: ByteString, attached: bool, offset: nat, remaining: nat)

  const INITIAL := State([], false, 0, 0)

  predicate Enabled(s: State, e: Event) {
    match e
    case Attach => !s.attached
    case Replay(b) => s.attached && 0 < |b| <= s.remaining && s.offset + |b| <= |s.ring| &&
                      b == s.ring[s.offset..s.offset + |b|]
    case Live(_) => s.attached && (s.remaining == 0 || |s.ring| <= s.offset)
    case Monitor(_) => !s.attached
    case Close => s.attached
  }

  function Apply(c: Config, s: State, e: Event): State
    requires Enabled(s, e)
  {
    match e
    case Attach => s.(attached := true, offset := 0, remaining := if c.replayOnAttach then |s.ring| else 0)
    case Replay(b) => s.(offset := s.offset + |b|, remaining := s.remaining - |b|)
    case Live(b) => s.(ring := Tail(s.ring + b, c.capacity), remaining := 0)
    case Monitor(b) => s.(ring := Tail(s.ring + b, c.capacity))
    case Close => s.(attached := false, offset := 0, remaining := 0)
  }

  /** The state a history leads to, when every event in it was possible. */
  function Run(c: Config, trace: seq<Event>): Option<State> {
    if trace == [] then Some(INITIAL) else
      var n := |trace| - 1;
      match Run(c, trace[..n])
      case None => None
      case Some(s) => if Enabled(s, trace[n]) then Some(Apply(c, s, trace[n])) else None
  }

  /** Everything read from the child, by the monitor or for a client. */
  function Captured(trace: seq<Event>): ByteString {
    if trace == [] then [] else
      var n := |trace| - 1;
      Captured(trace[..n]) + match trace[n] { case Live(b) => b case Monitor(b) => b case _ => [] }
  }

  /** Everything handed to clients. */
  function Delivered(trace: seq<Event>): ByteString {
    if trace == [] then [] else
      var n := |trace| - 1;
      Delivered(trace[..n]) + match trace[n] { case Live(b) => b case Replay(b) => b case _ => [] }
  }

  /** What an attached client has yet to receive from the ring. */
  function Undelivered(s: State): ByteString {
    if s.offset + s.remaining <= |s.ring| then s.ring[s.offset..s.offset + s.remaining] else []
  }

  lemma RunSnoc(c: Config, trace: seq<Event>, e: Event)
    requires Run(c, trace).Some? && Enabled(Run(c, trace).value, e)
    ensures Run(c, trace + [e]) == Some(Apply(c, Run(c, trace).value, e))
  {
    assert (trace + [e])[..|trace|] == trace;
  }

  /** At every moment the ring holds the end of all captured output. */
  lemma {:induction false} RingIsTail(c: Config, trace: seq<Event>)
    requires Run(c, trace).Some?
    ensures Run(c, trace).value.ring == Tail(Captured(trace), c.capacity)
  {
    if trace != [] {
      var n := |trace| - 1;
      RingIsTail(c, trace[..n]);
      match trace[n] {
        case Live(b) => TailTail(Captured(trace[..n]), b, c.capacity);
        case Monitor(b) => TailTail(Captured(trace[..n]), b, c.capacity);
        case _ => assert Captured(trace) == Captured(trace[..n]);
      }
    }
  }

  /** A pending replay always reaches exactly to the ring's end. */
  lemma {:induction false} ReplayBounds(c: Config, trace: seq<Event>)
    requires Run(c, trace).Some?
    ensures var s := Run(c, trace).value; s.remaining > 0 ==> s.attached && s.offset + s.remaining == |s.ring|
  {
    if trace != [] {
      ReplayBounds(c, trace[..|trace| - 1]);
    }
  }

  ghost predicate Uninterrupted(mid: seq<Event>) {
    forall i | 0 <= i < |mid| :: !mid[i].Attach? && !mid[i].Close?
  }

  /** The replay part of a session: nothing is captured until it is over. */
  ghost predicate Progress(base: ByteString, mid: seq<Event>, s: State) {
    s.attached &&
    if s.remaining > 0 then
      Captured(mid) == [] && s.ring == base && s.offset + s.remaining == |base| && Delivered(mid) == base[..s.offset]
    else Delivered(mid) == base + Captured(mid)
  }

  lemma {:induction false} SessionProgress(c: Config, pre: seq<Event>, mid: seq<Event>)
    requires Run(c, pre + [Attach] + mid).Some? && Uninterrupted(mid)
    ensures Run(c, pre).Some?
    ensures var base := if c.replayOnAttach then Run(c, pre).value.ring else [];
            Progress(base, mid, Run(c, pre + [Attach] + mid).value)
  {
    hide Progress, Apply, Captured, Delivered;
    var all := pre + [Attach] + mid;
    if mid == [] {
      assert all == pre + [Attach];
      assert all[..|pre|] == pre;
      FreshAttachment(c, Run(c, pre).value);
    } else {
      var n := |mid| - 1;
      var last := mid[n];
      assert all[..|all| - 1] == pre + [Attach] + mid[..n] && all[|all| - 1] == last;
      SessionProgress(c, pre, mid[..n]);
      var base := if c.replayOnAttach then Run(c, pre).value.ring else [];
      ProgressStep(c, base, mid[..n], last, Run(c, pre + [Attach] + mid[..n]).value);
      assert mid[..n] + [last] == mid;
    }
  }

  lemma FreshAttachment(c: Config, s: State)
    requires !s.attached
    ensures Progress(if c.replayOnAttach then s.ring else [], [], Apply(c, s, Attach))
  {
  }

  lemma ProgressStep(c: Config, base: ByteString, mid: seq<Event>, e: Event, s: State)
    requires Progress(base, mid, s) && Enabled(s, e) && !e.Attach? && !e.Close?
    ensures Progress(base, mid + [e], Apply(c, s, e))
  {
    var next := mid + [e];
    assert next[..|mid|] == mid;
    match e {
      case Live(b) =>
        assert Captured(next) == Captured(mid) + b && Delivered(next) == Delivered(mid) + b;
        assert base + (Captured(mid) + b) == base + Captured(mid) + b;
      case Replay(b) =>
        assert Captured(next) == Captured(mid) && Delivered(next) == Delivered(mid) + b;
        assert base[..s.offset] + b == base[..s.offset + |b|];
    }
  }

  /** The hand-over: from attach to any later moment before close, what the
      client got plus what it will still get from the ring is the output kept at
      the moment of attaching followed by everything captured since. */
  lemma NoGapNoOverlap(c: Config, pre: seq<Event>, mid: seq<Event>)
    requires Run(c, pre + [Attach] + mid).Some? && Uninterrupted(mid)
    ensures var kept := if c.replayOnAttach then Tail(Captured(pre), c.capacity) else [];
            Delivered(mid) + Undelivered(Run(c, pre + [Attach] + mid).value) == kept + Captured(mid)
  {
    hide Run, Captured, Delivered, Tail;
    SessionProgress(c, pre, mid);
    RingIsTail(c, pre);
    var s := Run(c, pre + [Attach] + mid).value;
    var base := if c.replayOnAttach then Run(c, pre).value.ring else [];
    if s.remaining > 0 {
      assert base[..s.offset] + base[s.offset..] == base;
      assert base + [] == base;
    } else {
      assert Undelivered(s) == [];
    }
  }

  // ---- The task's terminal ----

  datatype Status = Ok | AlreadyExists | Failure

  const CAPTURES: nat := 64

  function BytesOf(read: Option<ByteString>): ByteString {
    if read.Some? then read.value else []
  }

  /** The captures of a monitor pass from read i on. */
  ghost function MonitorEvents(child: nat -> Option<ByteString>, i: nat): seq<Event>
    requires i <= CAPTURES
    decreases CAPTURES - i
  {
    if i == CAPTURES then [] else
      [Monitor(BytesOf(child(i)))] + if BytesOf(child(i)) == [] then [] else MonitorEvents(child, i + 1)
  }

  /** Every capture of the pass from read i on yields something. */
  ghost predicate AllFull(child: nat -> Option<ByteString>, i: nat)
    requires i <= CAPTURES
    decreases CAPTURES - i
  {
    i == CAPTURES || (BytesOf(child(i)) != [] && AllFull(child, i + 1))
  }

  lemma MonitorNext(child: nat -> Option<ByteString>, i: nat)
    requires i < CAPTURES
    ensures BytesOf(child(i)) == [] ==>
              MonitorEvents(child, i) == [Monitor(BytesOf(child(i)))] && !AllFull(child, i)
    ensures BytesOf(child(i)) != [] ==>
              && MonitorEvents(child, i) == [Monitor(BytesOf(child(i)))] + MonitorEvents(child, i + 1)
              && AllFull(child, i) == AllFull(child, i + 1)
  {
  }

  /** A pass captures up to and including the first read that yields nothing, and at most
      sixty-four times. */
  lemma {:induction false} MonitorLength(child: nat -> Option<ByteString>, i: nat, n: nat)
    requires i <= n <= 64 && forall k | i <= k < n :: BytesOf(child(k)) != []
    requires n < 64 ==> BytesOf(child(n)) == []
    ensures |MonitorEvents(child, i)| == (if n == 64 then 64 else n + 1) - i
    ensures forall k | 0 <= k < |MonitorEvents(child, i)| ::
              MonitorEvents(child, i)[k] == Monitor(BytesOf(child(i + k)))
    ensures AllFull(child, i) <==> n == 64
    decreases n - i
  {
    hide BytesOf;
    if i < n { MonitorLength(child, i + 1, n); }
  }

  lemma MonitorEnd(child: nat -> Option<ByteString>)
    ensures MonitorEvents(child, CAPTURES) == [] && AllFull(child, CAPTURES)
  {
  }

  class Terminal {
    const ring: Ring
    const replayOnAttach: bool
    var running: bool
    var startedOnce: bool
    var stopMonitor: bool
    var attached: bool
    var replayOffset: nat
    var replayRemaining: nat
    ghost var trace: seq<Event>

    ghost function Settings(): Config
      reads this
    {
      Config(ring.buffer.Length, replayOnAttach)
    }

    ghost function Now(): State
      requires ring.Valid()
      reads this, ring, ring.buffer
    {
      State(ring.Contents(), attached, replayOffset, replayRemaining)
    }

    /** Every state of the terminal is the outcome of a possible history. */
    ghost predicate Valid()
      reads this, ring, ring.buffer
    {
      ring.Valid() &&
      Run(Settings(), trace) == Some(Now())
    }

    constructor (capacity: nat, replay: bool)
      ensures Valid() && trace == [] && ring.buffer.Length == capacity && replayOnAttach == replay
      ensures fresh(ring) && fresh(ring.buffer) && !running
    {
      ring := new Ring(capacity);
      replayOnAttach := replay;
      running, startedOnce, stopMonitor, attached := false, false, false, false;
      replayOffset, replayRemaining := 0, 0;
      trace := [];
    }

    /** Attaching; `spawned` is the outcome of making sure the child runs. */
    method AttachCommon(spawned: Status, up: bool) returns (status: Status)
      requires Valid() && (spawned == Ok ==> up)
      modifies this
      ensures Valid()
      ensures status == if old(attached) then AlreadyExists else spawned
      ensures trace == old(trace) + if status == Ok then [Attach] else []
      ensures running == (if old(attached) then old(running) else up)
      ensures startedOnce == (old(startedOnce) || (up && !old(attached))) && stopMonitor == old(stopMonitor)
    {
      if attached { return AlreadyExists; }
      running, startedOnce := up, startedOnce || up;
      if spawned != Ok { return spawned; }
      RunSnoc(Settings(), trace, Attach);
      replayOffset, replayRemaining := 0, 0;
      if replayOnAttach && ring.len != 0 {
        replayRemaining := ring.len;
      }
      attached := true;
      trace := trace + [Attach];
      return Ok;
    }

    /** Capturing output the child has ready (`child`, or an error) and feeding the
        ring; an empty read looks whether the child is `gone`. */
    method CaptureOutput(limit: nat, child: Option<ByteString>, gone: bool, ghost e: Event)
      returns (status: Status, bytes: ByteString)
      requires Valid() && (child.Some? ==> |child.value| <= limit)
      requires (e.Live? || e.Monitor?) && Enabled(Now(), e)
      requires (e.Live? ==> replayRemaining == 0)
      requires e.bytes == if running && limit > 0 && child.Some? then child.value else []
      modifies this`trace, this`running, ring, ring.buffer
      ensures Valid() && trace == old(trace) + [e] && bytes == e.bytes
      ensures status == if old(running) && limit > 0 && child.None? then Failure else Ok
      ensures running == (old(running) && !(limit > 0 && child == Some([]) && gone))
    {
      hide Run, Tail;
      RunSnoc(Settings(), trace, e);
      trace := trace + [e];
      if !running || limit == 0 || child.None? {
        ring.Append([]);
        return if running && limit != 0 then Failure else Ok, [];
      }
      ring.Append(child.value);
      if |child.value| == 0 && gone { running := false; }
      return Ok, child.value;
    }

    /** A replay read as long as asked for, unless it ends with the replay or at the end of
        the ring's buffer. */
    ghost predicate Whole(bytes: ByteString, limit: nat, offset: nat, remaining: nat)
      reads this, ring
    {
      |bytes| == Min(limit, remaining) ||
      (ring.buffer.Length > 0 && (ring.start + offset) % ring.buffer.Length + |bytes| == ring.buffer.Length)
    }

    /** The part of a read that comes from the ring. */
    method ReadReplay(limit: nat) returns (bytes: ByteString)
      requires Valid() && attached && limit > 0 && replayRemaining != 0
      modifies this`replayOffset, this`replayRemaining, this`trace
      ensures Valid() && trace == old(trace) + [Replay(bytes)] && 0 < |bytes| <= limit
      ensures Whole(bytes, limit, old(replayOffset), old(replayRemaining))
    {
      hide Run, Tail;
      ReplayBounds(Settings(), trace);
      assert replayOffset < ring.len;  // the guard against a replay running past the ring never fires
      bytes := ring.CopyOut(replayOffset, replayRemaining, limit);
      RunSnoc(Settings(), trace, Replay(bytes));
      replayOffset, replayRemaining := replayOffset + |bytes|, replayRemaining - |bytes|;
      trace := trace + [Replay(bytes)];
    }

    /** A client read: replay first, then the child. */
    method Read(limit: nat, child: Option<ByteString>, gone: bool) returns (status: Status, bytes: ByteString)
      requires Valid() && attached && (child.Some? ==> |child.value| <= limit)
      modifies this, ring, ring.buffer
      ensures Valid() && |bytes| <= limit
      ensures trace == old(trace) + if limit == 0 || !old(running) then []
                                    else if old(replayRemaining) != 0 then [Replay(bytes)] else [Live(bytes)]
      ensures limit == 0 || !old(running) ==> bytes == []
      ensures limit > 0 && old(running) ==>
                if old(replayRemaining) != 0 then old(Whole(bytes, limit, replayOffset, replayRemaining))
                else bytes == BytesOf(child)
      ensures running == (old(running) && !(limit > 0 && old(replayRemaining) == 0 && child == Some([]) && gone))
      ensures status == if limit > 0 && old(running) && old(replayRemaining) == 0 && child.None? then Failure else Ok
    {
      hide Run, Tail;
      if limit == 0 || !running { return Ok, []; }
      if replayRemaining != 0 {
        bytes := ReadReplay(limit);
        return Ok, bytes;
      }
      ghost var e := Live(if child.Some? then child.value else []);
      status, bytes := CaptureOutput(limit, child, gone, e);
    }

    /** One monitor pass: drains the child unless a client is attached, and says whether
        the watchdog is to look after it. */
    method MonitorStep(child: nat -> Option<ByteString>, gone: bool) returns (done: bool, watchdog: bool)
      requires Valid() && forall i: nat :: child(i).Some? ==> |child(i).value| <= 4096
      modifies this`trace, this`running, ring, ring.buffer
      ensures Valid() && done == stopMonitor
      ensures var draining := !stopMonitor && startedOnce && old(running) && !attached;
              && trace == old(trace) + (if draining then MonitorEvents(child, 0) else [])
              && watchdog == (!stopMonitor && startedOnce && !(draining && AllFull(child, 0)))
    {
      if stopMonitor { return true, false; }
      if !startedOnce { return false, false; }
      if !running || attached { return false, true; }
      var full := DrainChild(child, gone);
      return false, !full;
    }

    /** One capture for the monitor; more says whether it yielded anything. */
    method CaptureNext(next: Option<ByteString>, gone: bool) returns (more: bool)
      requires Valid() && running && !attached && (next.Some? ==> |next.value| <= 4096)
      modifies this`trace, this`running, ring, ring.buffer
      ensures Valid() && trace == old(trace) + [Monitor(BytesOf(next))]
      ensures more == (BytesOf(next) != []) && (more ==> running)
    {
      hide Run, Tail;
      var status, bytes := CaptureOutput(4096, next, gone, Monitor(BytesOf(next)));
      more := status == Ok && |bytes| != 0;
    }

    /** Up to sixty-four captures, ending at the first that yields nothing. */
    method DrainChild(child: nat -> Option<ByteString>, gone: bool) returns (full: bool)
      requires Valid() && running && !attached && forall i: nat :: child(i).Some? ==> |child(i).value| <= 4096
      modifies this`trace, this`running, ring, ring.buffer
      ensures Valid() && trace == old(trace) + MonitorEvents(child, 0) && full == AllFull(child, 0)
    {
      hide MonitorEvents, AllFull, BytesOf, Run, Valid;
      var count := 0;
      while count < CAPTURES
        invariant 0 <= count <= CAPTURES && Valid() && running
        invariant trace + MonitorEvents(child, count) == old(trace) + MonitorEvents(child, 0)
        invariant AllFull(child, 0) == AllFull(child, count)
      {
        MonitorNext(child, count);
        ghost var was, e := trace, Monitor(BytesOf(child(count)));
        var more := CaptureNext(child(count), gone);
        if !more {
          assert was + [e] == trace;
          return false;
        }
        assert was + ([e] + MonitorEvents(child, count + 1)) == trace + MonitorEvents(child, count + 1);
        count := count + 1;
      }
      MonitorEnd(child);
      assert trace + [] == trace;
      return true;
    }

    method Detach()
      requires Valid() && attached
      modifies this
      ensures Valid() && !attached && trace == old(trace) + [Close]
      ensures running == old(running) && startedOnce == old(startedOnce) && stopMonitor == old(stopMonitor)
    {
      RunSnoc(Settings(), trace, Close);
      attached, replayOffset, replayRemaining := false, 0, 0;
      trace := trace + [Close];
    }
  }
}
