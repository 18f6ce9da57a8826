/** The sliding-window limit on automatic restarts of a task's command. */
module RestartLimiter {

  const MAX_HISTORY: nat := 64

  datatype Config = Config(limit: nat, window: nat, hasCommand: bool)

  /** `log` records the counted restarts since the last manual rerun; the code
      keeps only `history`. `clock` is the time of the latest event. */
  datatype State = State(
    history: seq<nat>, faulted: bool, startedOnce: bool, running: bool, exited: bool,
    log: seq<nat>, clock: nat)

  const INITIAL := State([], false, false, false, false, [], 0)

  /** What becomes of an attempt to have the command running. */
  datatype Outcome = Nothing | Started | Refused | NoCommand | StartFailed

  /** The operations that may start the command. `gone` says whether the platform
      reports the child's exit, `ok` whether a spawn would succeed. */
  datatype Event =
    | EnsureRunning(now: nat, gone: bool, ok: bool)
    | Watchdog(now: nat, gone: bool, attached: bool, ok: bool)
    | Signal(now: nat, gone: bool, ok: bool)
    | WaitExit(now: nat, gone: bool, wanted: bool, ok: bool)
    | Manual(now: nat, ok: bool)

  // ---- Specification of the operations ----

  predicate IsRecent(c: Config, now: nat, t: nat) {
    c.window == 0 || now < t || now - t < c.window
  }

  function Recent(c: Config, now: nat, history: seq<nat>): (r: seq<nat>)
    ensures |r| <= |history|
  {
    if history == [] then [] else
      var n := |history| - 1;
      Recent(c, now, history[..n]) + if IsRecent(c, now, history[n]) then [history[n]] else []
  }

  predicate Limited(c: Config) {
    c.limit != 0 && c.window != 0
  }

  /** Counting a restart: refused once the window is full. */
  function Note(c: Config, s: State, now: nat): (State, bool) {
    if !Limited(c) then (s.(log := s.log + [now]), true) else
      var h := Recent(c, now, s.history);
      if |h| >= c.limit then (s.(history := h, faulted := true), false)
      else (s.(history := if |h| < MAX_HISTORY then h + [now] else h, log := s.log + [now]), true)
  }

  function Launch(s: State, ok: bool): (State, Outcome) {
    if ok then (s.(running := true, startedOnce := true, exited := false, faulted := false), Started)
    else (s.(faulted := true), StartFailed)
  }

  function Spawn(c: Config, s: State, counted: bool, now: nat, ok: bool): (State, Outcome) {
    if s.faulted then (s, Refused)
    else if !c.hasCommand then (s, NoCommand)
    else if counted then
      var (t, granted) := Note(c, s, now);
      if granted then Launch(t, ok) else (t, Refused)
    else Launch(s, ok)
  }

  function PollExit(s: State, gone: bool): State {
    if s.running && gone then s.(running := false, exited := true) else s
  }

  predicate HasExited(s: State) {
    !s.running && s.exited
  }

  function Step(c: Config, s0: State, e: Event): (State, Outcome) {
    var s := s0.(clock := e.now);
    match e
    case EnsureRunning(now, gone, ok) =>
      var p := PollExit(s, gone);
      if p.running then (p, Nothing)
      else if p.faulted then (p, Refused)
      else Spawn(c, p, p.startedOnce, now, ok)
    case Watchdog(now, gone, attached, ok) =>
      var p := PollExit(s, gone);
      if !HasExited(p) || p.faulted || attached then (p, Nothing)
      else
        var (t, o) := Spawn(c, p, true, now, ok);
        (if o == Started then t else t.(faulted := true), o)
    case Signal(now, gone, ok) =>
      if !s.running then (s, Nothing)
      else
        var p := PollExit(s, gone);
        if HasExited(p) && !p.faulted then Spawn(c, p, true, now, ok) else (p, Nothing)
    case WaitExit(now, gone, wanted, ok) =>
      var p := PollExit(s, gone);
      if HasExited(p) && wanted && !p.faulted then Spawn(c, p, true, now, ok) else (p, Nothing)
    case Manual(now, ok) =>
      Spawn(c, s.(faulted := false, exited := false, running := false, history := [], log := []), false, now, ok)
  }

  function Run(c: Config, es: seq<Event>): State {
    if es == [] then INITIAL else
      var n := |es| - 1;
      Step(c, Run(c, es[..n]), es[n]).0
  }

  ghost predicate ClockForward(es: seq<Event>) {
    forall i, j | 0 <= i < j < |es| :: es[i].now <= es[j].now
  }

  // ---- At most `limit` restarts in any window ----

  function CountIn(log: seq<nat>, from: int, width: nat): nat {
    if log == [] then 0 else
      var n := |log| - 1;
      CountIn(log[..n], from, width) + if from <= log[n] < from + width then 1 else 0
  }

  ghost predicate Sorted(log: seq<nat>) {
    forall i, j | 0 <= i < j < |log| :: log[i] <= log[j]
  }

  /** Any limit + 1 consecutive restarts take at least a window. */
  ghost predicate Spaced(c: Config, log: seq<nat>) {
    forall i, j | 0 <= i && i + c.limit <= j < |log| :: log[j] - log[i] >= c.window
  }

  lemma {:induction false} CountSpan(log: seq<nat>, from: int, width: nat) returns (i: nat, j: nat)
    requires CountIn(log, from, width) > 0
    ensures i <= j < |log| && CountIn(log, from, width) <= j - i + 1
    ensures from <= log[i] < from + width && from <= log[j] < from + width
  {
    var n := |log| - 1;
    if CountIn(log[..n], from, width) == 0 {
      i, j := n, n;
    } else {
      i, j := CountSpan(log[..n], from, width);
      if from <= log[n] < from + width { j := n; }
    }
  }

  lemma SpacedCount(c: Config, log: seq<nat>, from: int)
    requires Sorted(log) && Spaced(c, log)
    ensures CountIn(log, from, c.window) <= c.limit
  {
    if CountIn(log, from, c.window) > c.limit {
      var i, j := CountSpan(log, from, c.window);
    }
  }

  /** The kept history is the end of the log; what was dropped is a window old. */
  ghost predicate Keeps(c: Config, h: seq<nat>, log: seq<nat>, clock: nat) {
    && Sorted(log) && Spaced(c, log)
    && (forall i | 0 <= i < |log| :: log[i] <= clock)
    && |h| <= |log| && h == log[|log| - |h|..]
    && (forall i | 0 <= i < |log| - |h| :: clock - log[i] >= c.window)
  }

  ghost predicate Inv(c: Config, s: State) {
    Keeps(c, s.history, s.log, s.clock)
  }

  lemma {:induction false} RecentAreRecent(c: Config, now: nat, h: seq<nat>, i: nat)
    requires i < |Recent(c, now, h)|
    ensures IsRecent(c, now, Recent(c, now, h)[i])
  {
    var n := |h| - 1;
    if i < |Recent(c, now, h[..n])| {
      RecentAreRecent(c, now, h[..n], i);
    }
  }

  lemma RecentSnoc(c: Config, now: nat, h: seq<nat>, t: nat)
    ensures Recent(c, now, h + [t]) == Recent(c, now, h) + if IsRecent(c, now, t) then [t] else []
  {
    assert (h + [t])[..|h|] == h;
  }

  /** How many entries pruning drops: a prefix, when the history is sorted. */
  lemma {:induction false} RecentIsSuffix(c: Config, now: nat, h: seq<nat>) returns (k: nat)
    requires Sorted(h) && forall i | 0 <= i < |h| :: h[i] <= now
    ensures k <= |h| && Recent(c, now, h) == h[k..]
    ensures forall i | 0 <= i < k :: now - h[i] >= c.window
  {
    if h == [] {
      k := 0;
    } else {
      var n := |h| - 1;
      var g, t := h[..n], h[n];
      assert h == g + [t];
      k := RecentIsSuffix(c, now, g);
      RecentSnoc(c, now, g, t);
      if IsRecent(c, now, t) {
        assert g[k..] + [t] == h[k..];
      } else {
        if k < n {
          RecentAreRecent(c, now, g, 0);
        }
        assert k == n && h[n + 1..] == [];
        k := n + 1;
      }
    }
  }

  lemma PruneKeeps(c: Config, h: seq<nat>, log: seq<nat>, clock: nat)
    requires Keeps(c, h, log, clock)
    ensures Keeps(c, Recent(c, clock, h), log, clock)
  {
    hide Recent;
    var m := |log| - |h|;
    assert forall i | 0 <= i < |h| :: h[i] == log[m + i];
    var k := RecentIsSuffix(c, clock, h);
    assert h[k..] == log[m + k..];
    forall i | 0 <= i < m + k ensures clock - log[i] >= c.window {
      if i >= m { assert log[i] == h[i - m]; }
    }
  }

  lemma AppendKeeps(c: Config, h: seq<nat>, log: seq<nat>, clock: nat)
    requires Keeps(c, h, log, clock) && |h| < c.limit
    ensures Keeps(c, h + [clock], log + [clock], clock)
  {
    var log' := log + [clock];
    assert h + [clock] == log'[|log'| - (|h| + 1)..];
    assert Spaced(c, log') by {
      forall i, j | 0 <= i && i + c.limit <= j < |log'| ensures log'[j] - log'[i] >= c.window {
        assert log'[i] == log[i];
        if j < |log| { assert log'[j] == log[j]; }
      }
    }
    assert Sorted(log');
  }

  lemma NoteKeeps(c: Config, s: State)
    requires 1 <= c.limit <= MAX_HISTORY && c.window > 0 && Inv(c, s)
    ensures Inv(c, Note(c, s, s.clock).0)
  {
    hide Recent, Keeps;
    PruneKeeps(c, s.history, s.log, s.clock);
    var h := Recent(c, s.clock, s.history);
    if |h| < c.limit { AppendKeeps(c, h, s.log, s.clock); }
  }

  lemma TickKeeps(c: Config, s: State, now: nat)
    requires Inv(c, s) && s.clock <= now
    ensures Inv(c, s.(clock := now))
  {
  }

  lemma SpawnKeeps(c: Config, s: State, counted: bool, ok: bool)
    requires 1 <= c.limit <= MAX_HISTORY && c.window > 0 && Inv(c, s)
    ensures Inv(c, Spawn(c, s, counted, s.clock, ok).0)
  {
    hide Note, Keeps;
    if !s.faulted && counted { NoteKeeps(c, s); }
  }

  lemma EmptyKeeps(c: Config, clock: nat)
    ensures Keeps(c, [], [], clock)
  {
  }

  lemma StepKeeps(c: Config, s: State, e: Event)
    requires 1 <= c.limit <= MAX_HISTORY && c.window > 0 && Inv(c, s) && s.clock <= e.now
    ensures Inv(c, Step(c, s, e).0)
  {
    hide Keeps, Spawn;
    assert Inv(c, s.(clock := e.now)) by { TickKeeps(c, s, e.now); }
    var t := s.(clock := e.now);
    match e {
      case EnsureRunning(now, gone, ok) =>
        var p := PollExit(t, gone);
        SpawnKeeps(c, p, p.startedOnce, ok);
      case Watchdog(now, gone, attached, ok) =>
        SpawnKeeps(c, PollExit(t, gone), true, ok);
      case Signal(now, gone, ok) =>
        SpawnKeeps(c, PollExit(t, gone), true, ok);
      case WaitExit(now, gone, wanted, ok) =>
        SpawnKeeps(c, PollExit(t, gone), true, ok);
      case Manual(now, ok) =>
        EmptyKeeps(c, now);
        SpawnKeeps(c, t.(faulted := false, exited := false, running := false, history := [], log := []), false, ok);
    }
  }

  lemma {:induction false} RunInv(c: Config, es: seq<Event>)
    requires 1 <= c.limit <= MAX_HISTORY && c.window > 0 && ClockForward(es)
    ensures Inv(c, Run(c, es))
    ensures es != [] ==> Run(c, es).clock == es[|es| - 1].now
  {
    hide Keeps, Step;
    if es == [] {
      EmptyKeeps(c, 0);
    } else {
      var n := |es| - 1;
      RunInv(c, es[..n]);
      assert Run(c, es[..n]).clock <= es[n].now by {
        if n > 0 { assert es[..n][n - 1] == es[n - 1]; }
      }
      StepKeeps(c, Run(c, es[..n]), es[n]);
      StepClock(c, Run(c, es[..n]), es[n]);
    }
  }

  lemma SpawnClock(c: Config, s: State, counted: bool, now: nat, ok: bool)
    ensures Spawn(c, s, counted, now, ok).0.clock == s.clock
  {
    hide Recent;
  }

  lemma StepClock(c: Config, s: State, e: Event)
    ensures Step(c, s, e).0.clock == e.now
  {
    hide Spawn;
    var t := s.(clock := e.now);
    match e {
      case EnsureRunning(now, gone, ok) =>
        var p := PollExit(t, gone);
        SpawnClock(c, p, p.startedOnce, now, ok);
      case Watchdog(now, gone, attached, ok) => SpawnClock(c, PollExit(t, gone), true, now, ok);
      case Signal(now, gone, ok) => SpawnClock(c, PollExit(t, gone), true, now, ok);
      case WaitExit(now, gone, wanted, ok) => SpawnClock(c, PollExit(t, gone), true, now, ok);
      case Manual(now, ok) =>
        var cleared := t.(faulted := false, exited := false, running := false, history := [], log := []);
        SpawnClock(c, cleared, false, now, ok);
    }
  }

  /** In every run with a forward clock, every window of the configured width
      holds at most `limit` counted restarts since the last manual rerun. */
  lemma RestartRate(c: Config, es: seq<Event>, from: int)
    requires 1 <= c.limit <= MAX_HISTORY && c.window > 0 && ClockForward(es)
    ensures CountIn(Run(c, es).log, from, c.window) <= c.limit
  {
    RunInv(c, es);
    SpacedCount(c, Run(c, es).log, from);
  }

  // ---- ... exactly for limits the history can hold ----

  ghost predicate RateHolds(c: Config) {
    forall es: seq<Event>, from: int :: ClockForward(es) ==> CountIn(Run(c, es).log, from, c.window) <= c.limit
  }

  /** A command that exits at once, n times within the same millisecond. */
  function Crashes(n: nat): (es: seq<Event>)
    ensures |es| == n && forall i | 0 <= i < n :: es[i].now == 0
  {
    seq(n, _ => EnsureRunning(0, true, true))
  }

  /** The limiter cannot refuse what its history cannot hold. */
  lemma CrashStep(c: Config, s: State)
    requires c.limit > MAX_HISTORY && c.hasCommand
    requires !s.faulted && s.startedOnce && s.running && |s.history| <= MAX_HISTORY
    ensures var t := Step(c, s, EnsureRunning(0, true, true)).0;
            t.log == s.log + [0] && |t.history| <= MAX_HISTORY && !t.faulted && t.startedOnce && t.running
  {
    hide Recent;
  }

  lemma CountSnoc(log: seq<nat>, t: nat, from: int, width: nat)
    ensures CountIn(log + [t], from, width) == CountIn(log, from, width) + if from <= t < from + width then 1 else 0
  {
    assert (log + [t])[..|log|] == log;
  }

  lemma {:induction false} CrashLoop(c: Config, n: nat)
    requires c.limit > MAX_HISTORY && c.window > 0 && c.hasCommand
    ensures var s := Run(c, Crashes(n + 1));
            |s.log| == n && CountIn(s.log, 0, c.window) == n && |s.history| <= MAX_HISTORY &&
            !s.faulted && s.startedOnce && s.running
  {
    var es := Crashes(n + 1);
    assert es[..n] == Crashes(n);
    if n == 0 {
      assert es[..0] == [];
    } else {
      hide Step, CountIn;
      CrashLoop(c, n - 1);
      var s := Run(c, Crashes(n));
      CrashStep(c, s);
      CountSnoc(s.log, 0, 0, c.window);
    }
  }

  /** The rate limit of a task with a command holds in every run if and only if the
      limit fits the sixty-four entries of the history. */
  lemma RateHoldsIff(c: Config)
    requires Limited(c) && c.hasCommand
    ensures RateHolds(c) <==> c.limit <= MAX_HISTORY
  {
    hide Run, CountIn;
    if c.limit <= MAX_HISTORY {
      forall es: seq<Event>, from: int | ClockForward(es)
        ensures CountIn(Run(c, es).log, from, c.window) <= c.limit
      {
        RestartRate(c, es, from);
      }
    } else {
      var es := Crashes(c.limit + 2);
      CrashLoop(c, c.limit + 1);
      assert ClockForward(es);
      assert CountIn(Run(c, es).log, 0, c.window) > c.limit;
    }
  }

  // ---- A fault latches ----

  lemma FaultedStep(c: Config, s: State, e: Event)
    requires s.faulted && !e.Manual?
    ensures Step(c, s, e).0.faulted && Step(c, s, e).1 != Started
  {
  }

  lemma {:induction false} FaultStays(c: Config, es: seq<Event>, i: nat, j: nat)
    requires i <= j <= |es| && Run(c, es[..i]).faulted && forall k | i <= k < j :: !es[k].Manual?
    ensures Run(c, es[..j]).faulted
  {
    hide Step;
    if i < j {
      FaultStays(c, es, i, j - 1);
      assert es[..j][..j - 1] == es[..j - 1];
      FaultedStep(c, Run(c, es[..j - 1]), es[j - 1]);
    }
  }

  /** What came of event i of a run. */
  function OutcomeAt(c: Config, es: seq<Event>, i: nat): Outcome
    requires i < |es|
  {
    Step(c, Run(c, es[..i]), es[i]).1
  }

  lemma RefusalFaults(c: Config, s: State, e: Event)
    requires Step(c, s, e).1 == Refused || Step(c, s, e).1 == StartFailed
    ensures Step(c, s, e).0.faulted
  {
    hide Recent;
  }

  /** After a refusal or a failed start at event i of any run, nothing starts the command
      at any later event j unless a manual rerun comes in between. */
  lemma FaultLatches(c: Config, es: seq<Event>, i: nat, j: nat)
    requires i < j < |es| && (OutcomeAt(c, es, i) == Refused || OutcomeAt(c, es, i) == StartFailed)
    requires forall k | i < k <= j :: !es[k].Manual?
    ensures OutcomeAt(c, es, j) != Started && Run(c, es[..j]).faulted
  {
    hide Step;
    RefusalFaults(c, Run(c, es[..i]), es[i]);
    assert es[..i + 1][..i] == es[..i];
    FaultStays(c, es, i + 1, j);
    FaultedStep(c, Run(c, es[..j]), es[j]);
  }

  // ---- The terminal's restart bookkeeping ----

  class Limiter {
    const config: Config
    const history: array<nat>
    var len: nat
    var faulted: bool
    var startedOnce: bool
    var running: bool
    var exited: bool
    ghost var log: seq<nat>
    ghost var clock: nat

    ghost predicate Valid()
      reads this
    {
      history.Length == MAX_HISTORY && len <= MAX_HISTORY
    }

    ghost function Now(): State
      requires Valid()
      reads this, history
    {
      State(history[..len], faulted, startedOnce, running, exited, log, clock)
    }

    constructor (c: Config)
      ensures Valid() && config == c && Now() == INITIAL && fresh(history)
    {
      config := c;
      history := new nat[MAX_HISTORY];
      len, faulted, startedOnce, running, exited := 0, false, false, false, false;
      log, clock := [], 0;
    }

    /** Compacts the history in place. */
    method Prune(now: nat)
      requires Valid()
      modifies this`len, history
      ensures Valid() && Now() == old(Now()).(history := Recent(config, now, old(Now()).history))
    {
      hide Recent, IsRecent;
      ghost var h := history[..len];
      var writeIdx, readIdx := 0, 0;
      RecentNone(config, now);
      while readIdx < len
        invariant 0 <= writeIdx <= readIdx <= len == |h|
        invariant history[..writeIdx] == Recent(config, now, h[..readIdx])
        invariant forall i | readIdx <= i < len :: history[i] == h[i]
      {
        var ts := history[readIdx];
        RecentNext(config, now, h, readIdx);
        if IsRecent(config, now, ts) {
          ghost var kept := history[..writeIdx];
          history[writeIdx] := ts;
          writeIdx := writeIdx + 1;
          assert history[..writeIdx] == kept + [ts];
        }
        readIdx := readIdx + 1;
      }
      assert h[..len] == h;
      len := writeIdx;
    }

    method NoteRestart(now: nat) returns (granted: bool)
      requires Valid()
      modifies this`len, this`faulted, this`log, history
      ensures Valid() && (Now(), granted) == Note(config, old(Now()), now)
    {
      hide Recent;
      if config.limit == 0 || config.window == 0 {
        log := log + [now];
        return true;
      }
      Prune(now);
      if len >= config.limit {
        faulted := true;
        return false;
      }
      if len < MAX_HISTORY {
        ghost var h := history[..len];
        history[len] := now;
        len := len + 1;
        assert history[..len] == h + [now];
      }
      log := log + [now];
      return true;
    }

    /** Starts the command, counting the start when asked to. */
    method SpawnCommand(counted: bool, now: nat, ok: bool) returns (o: Outcome)
      requires Valid()
      modifies this, history
      ensures Valid() && (Now(), o) == Spawn(config, old(Now()), counted, now, ok)
    {
      hide Recent, Note;
      if faulted { return Refused; }
      if !config.hasCommand { return NoCommand; }
      if counted {
        var granted := NoteRestart(now);
        if !granted { return Refused; }
      }
      if ok {
        running, startedOnce, exited, faulted := true, true, false, false;
        o := Started;
      } else {
        faulted := true;
        o := StartFailed;
      }
    }

    method Poll(gone: bool) returns (e: bool)
      requires Valid()
      modifies this`running, this`exited
      ensures Valid() && Now() == PollExit(old(Now()), gone) && e == HasExited(Now())
    {
      if !running { return exited; }
      if gone {
        running, exited := false, true;
      }
      return gone;
    }

    method EnsureCommandRunning(now: nat, gone: bool, ok: bool) returns (o: Outcome)
      requires Valid()
      modifies this, history
      ensures Valid() && (Now(), o) == Step(config, old(Now()), EnsureRunning(now, gone, ok))
    {
      hide Recent, Note, Spawn;
      clock := now;
      var _ := Poll(gone);
      if running { return Nothing; }
      if faulted { return Refused; }
      o := SpawnCommand(startedOnce, now, ok);
    }

    method WatchdogStep(now: nat, gone: bool, attached: bool, ok: bool) returns (o: Outcome)
      requires Valid()
      modifies this, history
      ensures Valid() && (Now(), o) == Step(config, old(Now()), Watchdog(now, gone, attached, ok))
    {
      hide Recent, Note, Spawn;
      clock := now;
      var ended := Poll(gone);
      if !ended || faulted || attached { return Nothing; }
      o := SpawnCommand(true, now, ok);
      if o != Started { faulted := true; }
    }

    method SignalCommand(now: nat, gone: bool, ok: bool) returns (o: Outcome)
      requires Valid()
      modifies this, history
      ensures Valid() && (Now(), o) == Step(config, old(Now()), Signal(now, gone, ok))
    {
      hide Recent, Note, Spawn;
      clock := now;
      if !running { return Nothing; }
      var ended := Poll(gone);
      if !ended || faulted { return Nothing; }
      o := SpawnCommand(true, now, ok);
    }

    method WaitForExit(now: nat, gone: bool, wanted: bool, ok: bool) returns (o: Outcome)
      requires Valid()
      modifies this, history
      ensures Valid() && (Now(), o) == Step(config, old(Now()), WaitExit(now, gone, wanted, ok))
    {
      hide Recent, Note, Spawn;
      clock := now;
      var ended := Poll(gone);
      if !ended || !wanted || faulted { return Nothing; }
      o := SpawnCommand(true, now, ok);
    }

    method RestartManual(now: nat, ok: bool) returns (o: Outcome)
      requires Valid()
      modifies this, history
      ensures Valid() && (Now(), o) == Step(config, old(Now()), Manual(now, ok))
    {
      hide Recent, Note, Spawn;
      clock := now;
      faulted, exited, running, len := false, false, false, 0;
      log := [];
      o := SpawnCommand(false, now, ok);
    }
  }

  lemma RecentNone(c: Config, now: nat)
    ensures Recent(c, now, []) == []
  {
  }

  lemma RecentNext(c: Config, now: nat, h: seq<nat>, k: nat)
    requires k < |h|
    ensures Recent(c, now, h[..k + 1]) == Recent(c, now, h[..k]) + if IsRecent(c, now, h[k]) then [h[k]] else []
  {
    assert h[..k + 1][..k] == h[..k];
  }
}
