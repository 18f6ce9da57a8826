/** Exactly when the restart bookkeeping starts the command, and what it keeps of it. */
module RestartOutcomes {
  import opened RestartLimiter

  // ---- The limiter's own count ----

  lemma {:induction false} CountRecent(c: Config, now: nat, h: seq<nat>)
    requires c.window > 0 && forall i | 0 <= i < |h| :: h[i] <= now
    ensures |Recent(c, now, h)| == CountIn(h, now - c.window + 1, c.window)
  {
    if h != [] { CountRecent(c, now, h[..|h| - 1]); }
  }

  lemma {:induction false} CountOld(log: seq<nat>, k: nat, from: int, width: nat)
    requires k <= |log| && forall i | 0 <= i < k :: log[i] < from
    ensures CountIn(log, from, width) == CountIn(log[k..], from, width)
  {
    if k == |log| {
      CountNone(log, from, width);
      assert log[k..] == [];
    } else {
      var n := |log| - 1;
      CountOld(log[..n], k, from, width);
      assert log[k..][..n - k] == log[..n][k..];
    }
  }

  lemma {:induction false} CountNone(log: seq<nat>, from: int, width: nat)
    requires forall i | 0 <= i < |log| :: log[i] < from
    ensures CountIn(log, from, width) == 0
  {
    if log != [] { CountNone(log[..|log| - 1], from, width); }
  }

  /** What is left of the history after pruning are the counted restarts of the window
      that ends now. */
  lemma HistoryCounts(c: Config, s: State, now: nat)
    requires c.window > 0 && Inv(c, s) && s.clock <= now
    ensures |Recent(c, now, s.history)| == CountIn(s.log, now - c.window + 1, c.window)
  {
    hide Recent, CountIn, Spaced;
    var k := |s.log| - |s.history|;
    forall i | 0 <= i < |s.history|
      ensures s.history[i] <= now
    {
      assert s.history[i] == s.log[k + i];
    }
    CountRecent(c, now, s.history);
    CountOld(s.log, k, now - c.window + 1, c.window);
  }

  // ---- When the command starts ----

  /** The counted restarts since the last manual rerun leave room for one more: fewer than
      the limit in the window that ends now. There is no limit without a window or a
      count, nor above the 64 entries the history holds. */
  ghost predicate HasRoom(c: Config, s: State, now: nat) {
    c.limit == 0 || c.window == 0 || c.limit > 64 || CountIn(s.log, now - c.window + 1, c.window) < c.limit
  }

  /** The child has ended, now or before. */
  predicate Ended(s: State, gone: bool) {
    if s.running then gone else s.exited
  }

  ghost predicate MayRestart(c: Config, s: State, now: nat, ok: bool) {
    !s.faulted && c.hasCommand && ok && HasRoom(c, s, now)
  }

  /** What has to be so for an event to start the command. */
  ghost predicate Starts(c: Config, s: State, e: Event) {
    match e
    case EnsureRunning(now, gone, ok) =>
      && (!s.running || gone)
      && (if s.startedOnce then MayRestart(c, s, now, ok) else !s.faulted && c.hasCommand && ok)
    case Watchdog(now, gone, attached, ok) => Ended(s, gone) && !attached && MayRestart(c, s, now, ok)
    case Signal(now, gone, ok) => s.running && gone && MayRestart(c, s, now, ok)
    case WaitExit(now, gone, wanted, ok) => Ended(s, gone) && wanted && MayRestart(c, s, now, ok)
    case Manual(_, ok) => c.hasCommand && ok
  }

  /** The history never holds more than its 64 entries. */
  ghost predicate Fits(s: State) {
    |s.history| <= 64
  }

  lemma FitsStep(c: Config, s: State, e: Event)
    requires Fits(s)
    ensures Fits(Step(c, s, e).0)
  {
    hide Spawn;
    var p := s.(clock := e.now);
    match e
    case EnsureRunning(now, gone, ok) => SpawnFits(c, PollExit(p, gone), s.startedOnce, now, ok);
    case Watchdog(now, gone, attached, ok) => SpawnFits(c, PollExit(p, gone), true, now, ok);
    case Signal(now, gone, ok) => SpawnFits(c, PollExit(p, gone), true, now, ok);
    case WaitExit(now, gone, wanted, ok) => SpawnFits(c, PollExit(p, gone), true, now, ok);
    case Manual(now, ok) =>
      var cleared := p.(faulted := false, exited := false, running := false, history := [], log := []);
      SpawnFits(c, cleared, false, now, ok);
  }

  lemma SpawnFits(c: Config, s: State, counted: bool, now: nat, ok: bool)
    requires Fits(s)
    ensures Fits(Spawn(c, s, counted, now, ok).0)
  {
    hide Recent;
  }

  lemma {:induction false} RunFits(c: Config, es: seq<Event>)
    ensures Fits(Run(c, es))
  {
    hide Step;
    if es != [] {
      RunFits(c, es[..|es| - 1]);
      FitsStep(c, Run(c, es[..|es| - 1]), es[|es| - 1]);
    }
  }

  /** A counted restart is granted exactly when there is room. */
  lemma NoteExactly(c: Config, s: State, t: State, now: nat)
    requires Fits(s) && (1 <= c.limit <= MAX_HISTORY && c.window > 0 ==> Inv(c, s)) && s.clock <= now
    requires t.history == s.history
    ensures Note(c, t, now).1 <==> HasRoom(c, s, now)
  {
    hide Recent, CountIn, Keeps;
    if 1 <= c.limit <= MAX_HISTORY && c.window > 0 { HistoryCounts(c, s, now); }
  }

  lemma SpawnExactly(c: Config, s: State, t: State, counted: bool, now: nat, ok: bool)
    requires Fits(s) && (1 <= c.limit <= MAX_HISTORY && c.window > 0 ==> Inv(c, s)) && s.clock <= now
    requires t.history == s.history && t.faulted == s.faulted
    ensures Spawn(c, t, counted, now, ok).1 == Started <==>
            !s.faulted && c.hasCommand && ok && (counted ==> HasRoom(c, s, now))
  {
    hide Note, HasRoom, Keeps;
    NoteExactly(c, s, t, now);
  }

  lemma StepExactly(c: Config, s: State, e: Event)
    requires Fits(s) && (1 <= c.limit <= MAX_HISTORY && c.window > 0 ==> Inv(c, s)) && s.clock <= e.now
    ensures Step(c, s, e).1 == Started <==> Starts(c, s, e)
  {
    hide Spawn, HasRoom, Keeps;
    var p := s.(clock := e.now);
    match e
    case EnsureRunning(now, gone, ok) => SpawnExactly(c, s, PollExit(p, gone), s.startedOnce, now, ok);
    case Watchdog(now, gone, attached, ok) => SpawnExactly(c, s, PollExit(p, gone), true, now, ok);
    case Signal(now, gone, ok) => SpawnExactly(c, s, PollExit(p, gone), true, now, ok);
    case WaitExit(now, gone, wanted, ok) => SpawnExactly(c, s, PollExit(p, gone), true, now, ok);
    case Manual(now, ok) => ManualExactly(c, p, now, ok);
  }

  lemma ManualExactly(c: Config, p: State, now: nat, ok: bool)
    ensures Step(c, p, Manual(now, ok)).1 == Started <==> c.hasCommand && ok
  {
    hide Note;
  }

  /** In every run with a forward clock an event starts the command exactly when the child
      has ended where it has to, nothing stands against it, and the counted restarts of
      the window leave room. */
  lemma StartsExactly(c: Config, es: seq<Event>, e: Event)
    requires ClockForward(es + [e])
    ensures Step(c, Run(c, es), e).1 == Started <==> Starts(c, Run(c, es), e)
  {
    hide Step, Run, Starts, Inv;
    RunFits(c, es);
    ForwardPrefix(es, e);
    RunClock(c, es);
    if 1 <= c.limit <= MAX_HISTORY && c.window > 0 { RunInv(c, es); }
    StepExactly(c, Run(c, es), e);
  }

  lemma ForwardPrefix(es: seq<Event>, e: Event)
    requires ClockForward(es + [e])
    ensures ClockForward(es) && (es != [] ==> es[|es| - 1].now <= e.now)
  {
    var all := es + [e];
    assert forall i | 0 <= i < |es| :: all[i] == es[i];
    if es != [] { assert all[|es| - 1].now <= all[|es|].now; }
  }

  lemma RunClock(c: Config, es: seq<Event>)
    ensures Run(c, es).clock == if es == [] then 0 else es[|es| - 1].now
  {
    hide Step;
    if es != [] { StepClock(c, Run(c, es[..|es| - 1]), es[|es| - 1]); }
  }

  // ---- What an event leaves ----

  /** A start marks the command as running and, unless it is the first one or a manual
      rerun, is counted; a manual rerun forgets what was counted before. */
  lemma StartIsRecorded(c: Config, s: State, e: Event)
    requires Step(c, s, e).1 == Started
    ensures var t := Step(c, s, e).0;
            && t.running && t.startedOnce && !t.exited && !t.faulted
            && t.log == (if e.Manual? then []
                         else if e.EnsureRunning? && !s.startedOnce then s.log
                         else s.log + [e.now])
  {
    hide Recent;
  }

  /** A fault is left by a refusal, by a start that fails, and by a watchdog without a
      command; only a manual rerun clears one. */
  lemma FaultsExactly(c: Config, s: State, e: Event)
    ensures var (t, outcome) := Step(c, s, e);
            t.faulted <==> (s.faulted && !e.Manual?) || outcome == Refused || outcome == StartFailed ||
                           (outcome == NoCommand && e.Watchdog?)
  {
    hide Spawn;
    var p := s.(clock := e.now);
    match e
    case EnsureRunning(now, gone, ok) => SpawnFaults(c, PollExit(p, gone), s.startedOnce, now, ok);
    case Watchdog(now, gone, attached, ok) => SpawnFaults(c, PollExit(p, gone), true, now, ok);
    case Signal(now, gone, ok) => SpawnFaults(c, PollExit(p, gone), true, now, ok);
    case WaitExit(now, gone, wanted, ok) => SpawnFaults(c, PollExit(p, gone), true, now, ok);
    case Manual(now, ok) =>
      var cleared := p.(faulted := false, exited := false, running := false, history := [], log := []);
      SpawnFaults(c, cleared, false, now, ok);
  }

  lemma SpawnFaults(c: Config, s: State, counted: bool, now: nat, ok: bool)
    ensures var (t, outcome) := Spawn(c, s, counted, now, ok);
            t.faulted <==> outcome == Refused || outcome == StartFailed
    ensures Spawn(c, s, counted, now, ok).1 != Nothing
  {
    hide Recent;
  }

  /** Without a start a child that has ended is noted, and nothing else of it changes. */
  lemma EndIsNoted(c: Config, s: State, e: Event)
    requires Step(c, s, e).1 != Started && !e.Manual?
    ensures var t := Step(c, s, e).0;
            var ends := s.running && e.gone;
            t.running == (s.running && !ends) && t.exited == (s.exited || ends) && t.startedOnce == s.startedOnce
  {
    hide Recent;
  }

  /** A manual rerun stops the child and forgets the count, whatever becomes of it. */
  lemma ManualForgets(c: Config, s: State, now: nat, ok: bool)
    ensures var (t, outcome) := Step(c, s, Manual(now, ok));
            && t.history == [] && t.log == [] && !t.exited && t.running == (outcome == Started)
            && outcome == (if !c.hasCommand then NoCommand else if ok then Started else StartFailed)
  {
    hide Recent;
  }
}
