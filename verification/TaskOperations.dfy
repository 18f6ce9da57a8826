/** What the operations on the task table achieve: the panel's create, update and delete,
    the life of a connection, and the end of a stopped task's listener. */
module TaskOperations {
  import opened Bytes
  import opened TaskTable

  /** One more step, if it is enabled. */
  function Do(pool: nat, s: Option<State>, e: Event): Option<State> {
    if s.Some? && Enabled(pool, s.value, e) then Some(Apply(pool, s.value, e)) else None
  }

  function Panel(pool: nat, s: Option<State>, e: PanelStep): Option<State> {
    Do(pool, s, ByPanel(e))
  }

  function Thread(pool: nat, s: Option<State>, l: nat, e: ListenerStep): Option<State> {
    Do(pool, s, ByListener(l, e))
  }

  // ---- The panel ----

  /** The task is in its slot, with its listener, and within the published table. */
  function Settled(s: State, target: nat, config: TaskConfig, l: nat): State
    requires target < |s.slots|
  {
    var generation := s.slots[target].generation + 1;
    s.(slots := s.slots[target := Slot(config, true, false, false, true, 0, generation)], panel := Idle,
       listeners := s.listeners[l := Listener(target, generation, Starting)],
       taskCount := if s.taskCount <= target then target + 1 else s.taskCount)
  }

  /** The task is told to stop and no longer counts as one. */
  function Removed(s: State, victim: nat): State
    requires victim < |s.slots|
  {
    s.(slots := s.slots[victim := s.slots[victim].(initialized := false, deleted := true, stop := true)])
  }

  /** The wiped slot of a task that could not be set up. */
  function Abandoned(s: State, target: nat, config: TaskConfig, stop: bool): State
    requires target < |s.slots|
  {
    s.(slots := s.slots[target := Slot(config, false, false, stop, false, 0, s.slots[target].generation + 1)],
       panel := Idle)
  }

  lemma PlacingSettles(pool: nat, s: State, target: nat, config: TaskConfig, l: nat)
    requires s.panel == Placing(target, config) && target < |s.slots| && s.taskCount <= |s.slots| && l !in s.listeners
    ensures var a := Panel(pool, Some(s), Init(true));
            var b := Panel(pool, a, StartThread(true, l));
            Panel(pool, b, Publish) == Some(Settled(s, target, config, l))
  {
    hide NoClash;
    UpdatedTwice(s.slots, target, Manage(s, Init(true)).slots[target], Settled(s, target, config, l).slots[target]);
  }

  lemma UpdatedTwice(slots: seq<Slot>, i: nat, a: Slot, b: Slot)
    requires i < |slots|
    ensures slots[i := a][i := b] == slots[i := b]
  {
  }

  /** A task that cannot be initialised, or whose thread cannot be created, leaves its slot
      free again and everything else as it was. */
  lemma PlacingFails(pool: nat, s: State, target: nat, config: TaskConfig, l: nat)
    requires s.panel == Placing(target, config) && target < |s.slots| && s.taskCount <= |s.slots| && l !in s.listeners
    ensures Panel(pool, Some(s), Init(false)) == Some(Abandoned(s, target, config, false))
    ensures Panel(pool, Panel(pool, Some(s), Init(true)), StartThread(false, l))
         == Some(Abandoned(s, target, config, true))
  {
    hide NoClash;
    var end := Abandoned(s, target, config, true).slots[target];
    UpdatedTwice(s.slots, target, Manage(s, Init(true)).slots[target], end);
  }

  /** A new task: once it is accepted, every further step of the panel is possible, and
      the table ends with the task live in its slot, its listener started, and nothing
      else changed. */
  lemma CreateCompletes(pool: nat, s: State, target: nat, config: TaskConfig, l: nat)
    requires Enabled(pool, s, ByPanel(Create(config, target))) && l !in s.listeners
    ensures var a := Panel(pool, Some(s), Create(config, target));
            var b := Panel(pool, a, Init(true));
            var c := Panel(pool, b, StartThread(true, l));
            Panel(pool, c, Publish) == Some(Settled(s, target, config, l))
  {
    hide NoClash;
    PlacingSettles(pool, s.(panel := Placing(target, config)), target, config, l);
  }

  /** A changed task: the old one is removed, the new configuration settles in the free
      slot, and nothing else changes. */
  lemma UpdateCompletes(pool: nat, s: State, victim: nat, target: nat, config: TaskConfig, l: nat)
    requires Enabled(pool, s, ByPanel(Update(victim, target, config))) && l !in s.listeners
    ensures var a := Panel(pool, Some(s), Update(victim, target, config));
            var b := Panel(pool, a, Deinit);
            var c := Panel(pool, b, Init(true));
            var d := Panel(pool, c, StartThread(true, l));
            Panel(pool, d, Publish) == Some(Settled(Removed(s, victim), target, config, l))
  {
    hide NoClash;
    DeinitRemoves(pool, s, victim, target, config);
    PlacingSettles(pool, Removed(s, victim).(panel := Placing(target, config)), target, config, l);
  }

  lemma DeinitRemoves(pool: nat, s: State, victim: nat, target: nat, config: TaskConfig)
    requires Enabled(pool, s, ByPanel(Update(victim, target, config)))
    ensures Panel(pool, Panel(pool, Some(s), Update(victim, target, config)), Deinit)
         == Some(Removed(s, victim).(panel := Placing(target, config)))
  {
    hide NoClash;
    UpdatedTwice(s.slots, victim, s.slots[victim].(deleted := true, stop := true), Removed(s, victim).slots[victim]);
  }

  /** A deleted task is removed and nothing else changes. */
  lemma DeleteCompletes(pool: nat, s: State, victim: nat)
    requires Enabled(pool, s, ByPanel(Delete(victim)))
    ensures Panel(pool, Panel(pool, Some(s), Delete(victim)), Deinit) == Some(Removed(s, victim))
  {
    UpdatedTwice(s.slots, victim, s.slots[victim].(deleted := true, stop := true), Removed(s, victim).slots[victim]);
  }

  // ---- When the panel agrees ----

  /** The same letter, in either case. */
  predicate SameLetter(a: char, b: char) {
    a == b || ('A' <= a <= 'Z' && b as nat == a as nat + 32) || ('A' <= b <= 'Z' && a as nat == b as nat + 32)
  }

  /** Two names are taken for the same exactly when they differ in case at most. */
  lemma NamesAlike(a: string, b: string)
    ensures Key(a) == Key(b) <==> |a| == |b| && forall i | 0 <= i < |a| :: SameLetter(a[i], b[i])
  {
    hide SameLetter, Lower;
    forall i | 0 <= i < |a| == |b|
      ensures Key(a)[i] == Key(b)[i] <==> SameLetter(a[i], b[i])
    {
      LettersAlike(a[i], b[i]);
    }
  }

  lemma LettersAlike(a: char, b: char)
    ensures Lower(a) == Lower(b) <==> SameLetter(a, b)
  {
  }

  /** No live task of the whole table, apart from one, has the name or the port. */
  ghost predicate Unused(s: State, config: TaskConfig, except: int) {
    forall i | 0 <= i < |s.slots| && i != except && IsLive(s.slots[i]) ::
      Key(s.slots[i].config.name) != Key(config.name) && s.slots[i].config.port != config.port
  }

  ghost predicate IsVacant(s: State, i: nat) {
    i < |s.slots| && !s.slots[i].initialized && !s.slots[i].listenerRunning
  }

  /** A task can be created in a vacant slot exactly when it has a name and a port that no
      live task has; the part of the table searched for them is enough. */
  lemma CreatableIff(pool: nat, s: State, config: TaskConfig, target: nat)
    requires Inv(pool, s) && s.panel == Idle
    ensures Enabled(pool, s, ByPanel(Create(config, target))) <==>
            config.name != "" && config.port != 0 && IsVacant(s, target) && Unused(s, config, -1)
  {
    hide ThreadsOk, LaunchOk, CountsOk, PoolOk, Key;
  }

  /** A live task can be changed exactly while nobody is connected to it, into a vacant
      slot, and to a name and a port that no other live task has. */
  lemma UpdatableIff(pool: nat, s: State, victim: nat, target: nat, config: TaskConfig)
    requires Inv(pool, s) && s.panel == Idle
    ensures Enabled(pool, s, ByPanel(Update(victim, target, config))) <==>
            && victim < |s.slots| && IsLive(s.slots[victim]) && Counted(s.workers, victim) == {}
            && config.name != "" && config.port != 0 && IsVacant(s, target) && Unused(s, config, victim)
  {
    hide ThreadsOk, LaunchOk, PoolOk, Key, Counted;
  }

  lemma DeletableIff(pool: nat, s: State, victim: nat)
    requires Inv(pool, s) && s.panel == Idle
    ensures Enabled(pool, s, ByPanel(Delete(victim))) <==>
            victim < |s.slots| && IsLive(s.slots[victim]) && Counted(s.workers, victim) == {}
  {
    hide ThreadsOk, LaunchOk, PoolOk, Key, Counted;
  }

  // ---- A connection ----

  /** While a connection is served, its worker is counted at the slot and the listener is
      back in its loop. */
  function Connected(s: State, l: nat, w: nat): State
    requires IsAt(s, l)
  {
    var i := s.listeners[l].slot;
    var t := s.slots[i];
    s.(slots := s.slots[i := t.(workerCount := t.workerCount + 1)],
       workers := s.workers[w := Worker(i, t.generation, Serving)], poolActive := s.poolActive + 1)
  }

  ghost predicate Ready(pool: nat, s: State, l: nat, w: nat) {
    && IsAt(s, l) && s.listeners[l].phase == Looping && s.panel == Idle && s.poolActive < pool && w !in s.workers
    && !s.slots[s.listeners[l].slot].stop && !s.slots[s.listeners[l].slot].deleted
  }

  /** A listener of a live task with room in the pool takes a connection in. */
  lemma ConnectionServed(pool: nat, s: State, l: nat, w: nat)
    requires Ready(pool, s, l, w)
    ensures var a := Thread(pool, Some(s), l, Reserve);
            var b := Thread(pool, a, l, Admit(w));
            Thread(pool, b, l, Launch) == Some(Connected(s, l, w))
  {
    var a := Listen(pool, s, l, Reserve);
    var b := Listen(pool, a, l, Admit(w));
    var c := Listen(pool, b, l, Launch);
    var looping := s.listeners[l];
    assert looping == looping.(phase := Looping);
    assert c.listeners == s.listeners;
    assert c.workers == Connected(s, l, w).workers;
  }

  /** When it ends the table is exactly as before it came. */
  lemma ConnectionEnds(pool: nat, s: State, l: nat, w: nat)
    requires Ready(pool, s, l, w)
    ensures Do(pool, Do(pool, Some(Connected(s, l, w)), WorkerDone(w)), WorkerRelease(w)) == Some(s)
  {
    var i := s.listeners[l].slot;
    var a := Connected(s, l, w);
    var b := Apply(pool, a, WorkerDone(w));
    assert b.slots == s.slots;
    assert b.workers - {w} == s.workers;
  }

  lemma AdmitUndone(pool: nat, s: State, l: nat, w: nat)
    requires CanListen(pool, s, l, Admit(w))
    ensures Thread(pool, Thread(pool, Some(s), l, Admit(w)), l, LaunchFail) == Some(SetPhase(s, l, LaunchFailed))
  {
    var b := Listen(pool, s, l, Admit(w));
    var c := Listen(pool, b, l, LaunchFail);
    assert c.slots == s.slots && c.workers == s.workers;
    assert c.listeners == SetPhase(s, l, LaunchFailed).listeners;
  }

  /** A connection whose thread cannot be created leaves the table as it was too, */
  lemma LaunchFails(pool: nat, s: State, l: nat, w: nat)
    requires Ready(pool, s, l, w)
    ensures var b := Thread(pool, Thread(pool, Some(s), l, Reserve), l, Admit(w));
            Thread(pool, Thread(pool, b, l, LaunchFail), l, BackOut) == Some(s)
  {
    hide Do, Listen, CanListen;
    ReserveUndone(pool, s, l, w);
    AdmitUndone(pool, Listen(pool, s, l, Reserve), l, w);
  }

  lemma ReserveUndone(pool: nat, s: State, l: nat, w: nat)
    requires Ready(pool, s, l, w)
    ensures CanListen(pool, s, l, Reserve)
    ensures var a := Listen(pool, s, l, Reserve);
            && Thread(pool, Some(s), l, Reserve) == Some(a) && CanListen(pool, a, l, Admit(w))
            && Thread(pool, Some(SetPhase(a, l, LaunchFailed)), l, BackOut) == Some(s)
  {
    var a := Listen(pool, s, l, Reserve);
    assert Listen(pool, SetPhase(a, l, LaunchFailed), l, BackOut).listeners == s.listeners;
  }

  /** ... and so does an accept that fails. */
  lemma AcceptFails(pool: nat, s: State, l: nat, w: nat)
    requires Ready(pool, s, l, w)
    ensures Thread(pool, Thread(pool, Some(s), l, Reserve), l, AcceptFailed) == Some(s)
  {
    var a := Listen(pool, s, l, Reserve);
    assert Listen(pool, a, l, AcceptFailed).listeners == s.listeners;
  }

  /** Once a connection has been accepted, its task decides: it is admitted unless the
      task is stopping, and refused if it is. */
  lemma AdmittedIff(pool: nat, s: State, l: nat, w: nat)
    requires IsAt(s, l) && s.listeners[l].phase == Reserved && s.panel == Idle && w !in s.workers
    ensures var t := s.slots[s.listeners[l].slot];
            && (Enabled(pool, s, ByListener(l, Admit(w))) <==> !t.stop && !t.deleted)
            && (Enabled(pool, s, ByListener(l, Refuse)) <==> t.stop || t.deleted)
  {
  }

  // ---- The start ----

  /** At startup every configured task is live in its slot with its listener, and all
      other slots are vacant. */
  lemma StartupTasks(configs: seq<TaskConfig>, i: nat)
    requires Loadable(configs) && i < 32
    ensures var s := Startup(configs);
            && |s.slots| == 32 && s.taskCount == |configs| && s.panel == Idle && s.workers == map[] && s.poolActive == 0
            && (i < |configs| ==>
                && s.slots[i] == Slot(configs[i], true, false, false, true, 0, 0)
                && i in s.listeners && s.listeners[i] == Listener(i, 0, Starting))
            && (i >= |configs| ==> IsVacant(s, i) && i !in s.listeners)
  {
  }

  // ---- The end of a task ----

  /** A listener that gives up ends, and nothing but its slot's mark changes. */
  lemma ListenerGivesUp(pool: nat, s: State, l: nat)
    requires IsAt(s, l) && s.listeners[l].phase == Looping
    ensures var i := s.listeners[l].slot;
            Thread(pool, Thread(pool, Some(s), l, GiveUp), l, End) ==
            Some(s.(slots := s.slots[i := s.slots[i].(listenerRunning := false)], listeners := s.listeners - {l}))
  {
    var a := Listen(pool, s, l, GiveUp);
    assert a.listeners - {l} == s.listeners - {l};
  }

  /** A refused connection gives its place in the pool back and ends the listener. */
  lemma RefusalEnds(pool: nat, s: State, l: nat)
    requires CanListen(pool, s, l, Refuse) && s.poolActive > 0
    ensures var i := s.listeners[l].slot;
            var a := Thread(pool, Thread(pool, Some(s), l, Refuse), l, Drop);
            Thread(pool, a, l, End) ==
            Some(s.(slots := s.slots[i := s.slots[i].(listenerRunning := false)], listeners := s.listeners - {l},
                    poolActive := s.poolActive - 1))
  {
    var a := Listen(pool, s, l, Refuse);
    var b := Listen(pool, a, l, Drop);
    assert b.listeners - {l} == s.listeners - {l};
  }

  /** The steps by which the listener of a stopped task gets to its end, without the lock. */
  function WayOut(phase: ListenerPhase): seq<ListenerStep> {
    match phase
    case Starting => [Start, SeeStop, End]
    case Looping => [SeeStop, End]
    case Reserved => [AcceptFailed, End]
    case Refused => [Drop, End]
    case Launching(_) => [Launch, SeeStop, End]
    case LaunchFailed => [BackOut, SeeStop, End]
    case Ending => [End]
  }

  function Walk(pool: nat, s: Option<State>, l: nat, steps: seq<ListenerStep>): Option<State>
    decreases |steps|
  {
    if steps == [] then s else Walk(pool, Thread(pool, s, l, steps[0]), l, steps[1..])
  }

  lemma WalkCons(pool: nat, s: State, l: nat, step: ListenerStep, steps: seq<ListenerStep>)
    requires CanListen(pool, s, l, step)
    ensures Walk(pool, Some(s), l, [step] + steps) == Walk(pool, Some(Listen(pool, s, l, step)), l, steps)
  {
    assert ([step] + steps)[1..] == steps;
  }

  /** A listener at a slot that is stopping. */
  ghost predicate Stopping(s: State, l: nat, i: nat) {
    && IsAt(s, l) && s.listeners[l].slot == i
    && s.slots[i].stop && !s.slots[i].initialized
  }

  lemma EndVacates(pool: nat, s: State, l: nat, i: nat)
    requires Stopping(s, l, i) && s.listeners[l].phase == Ending
    ensures var t := Walk(pool, Some(s), l, [End]);
            t.Some? && IsVacant(t.value, i) && l !in t.value.listeners
  {
    WalkCons(pool, s, l, End, []);
    assert [End] + [] == [End];
  }

  lemma LoopVacates(pool: nat, s: State, l: nat, i: nat)
    requires Stopping(s, l, i) && s.listeners[l].phase == Looping
    ensures var t := Walk(pool, Some(s), l, [SeeStop, End]);
            t.Some? && IsVacant(t.value, i) && l !in t.value.listeners
  {
    hide Walk;
    WalkCons(pool, s, l, SeeStop, [End]);
    assert [SeeStop] + [End] == [SeeStop, End];
    EndVacates(pool, Listen(pool, s, l, SeeStop), l, i);
  }

  /** Whatever the listener of a removed task is doing, and whoever holds the lock, it can
      go straight to its end, and then the slot is vacant. */
  lemma RemovedTaskVacates(pool: nat, s: State, l: nat)
    requires Inv(pool, s) && IsAt(s, l) && !s.slots[s.listeners[l].slot].initialized
    ensures var t := Walk(pool, Some(s), l, WayOut(s.listeners[l].phase));
            t.Some? && IsVacant(t.value, s.listeners[l].slot) && l !in t.value.listeners
  {
    hide Walk, TableOk, PanelOk, CountsOk, PoolOk;
    var i := s.listeners[l].slot;
    match s.listeners[l].phase
    case Starting =>
      assert [Start] + [SeeStop, End] == [Start, SeeStop, End];
      WalkCons(pool, s, l, Start, [SeeStop, End]);
      LoopVacates(pool, Listen(pool, s, l, Start), l, i);
    case Looping => LoopVacates(pool, s, l, i);
    case Reserved =>
      assert [AcceptFailed] + [End] == [AcceptFailed, End];
      WalkCons(pool, s, l, AcceptFailed, [End]);
      EndVacates(pool, Listen(pool, s, l, AcceptFailed), l, i);
    case Refused =>
      assert [Drop] + [End] == [Drop, End];
      WalkCons(pool, s, l, Drop, [End]);
      EndVacates(pool, Listen(pool, s, l, Drop), l, i);
    case Launching(w) =>
      assert false;
    case LaunchFailed =>
      assert [BackOut] + [SeeStop, End] == [BackOut, SeeStop, End];
      WalkCons(pool, s, l, BackOut, [SeeStop, End]);
      LoopVacates(pool, Listen(pool, s, l, BackOut), l, i);
    case Ending => EndVacates(pool, s, l, i);
  }

  // ---- The panel among the threads ----

  /** The tasks themselves, without the threads and their bookkeeping. */
  function Tasks(s: State): State {
    s.(slots := seq(|s.slots|, i requires 0 <= i < |s.slots| => Bare(s.slots[i])),
       listeners := map[], workers := map[], poolActive := 0)
  }

  function Bare(t: Slot): Slot {
    t.(listenerRunning := false, workerCount := 0)
  }

  function Perform(pool: nat, s: State, es: seq<Event>): Option<State> {
    if es == [] then Some(s) else Do(pool, Perform(pool, s, es[..|es| - 1]), es[|es| - 1])
  }

  /** The panel's steps among all steps. */
  function PanelOf(es: seq<Event>): seq<Event> {
    if es == [] then [] else
      var e := es[|es| - 1];
      PanelOf(es[..|es| - 1]) + if e.ByPanel? then [e] else []
  }

  lemma ThreadsLeaveTasks(pool: nat, s: State, e: Event)
    requires Enabled(pool, s, e) && !e.ByPanel?
    ensures Tasks(Apply(pool, s, e)) == Tasks(s)
  {
    if e.ByListener? {
      hide Listen;
      ListenSlot(pool, s, e.l, e.listenerStep);
    }
  }

  lemma PanelStillCan(s: State, t: State, e: PanelStep)
    requires CanPanel(s, e) && t == Tasks(s)
    ensures CanPanel(t, e)
  {
    hide Clash, Acceptable;
  }

  lemma PanelFields(s: State, t: State, e: PanelStep)
    requires CanPanel(s, e) && CanPanel(t, e) && t == Tasks(s)
    ensures var a, b := Manage(s, e), Manage(t, e);
            && |a.slots| == |b.slots| == |s.slots| && a.taskCount == b.taskCount && a.panel == b.panel
  {
    hide NoClash, Acceptable;
  }

  lemma RemovesAlike(s: State, t: State, e: PanelStep, i: nat)
    requires (e.Update? || e.Delete? || e.Deinit?) && CanPanel(s, e) && CanPanel(t, e)
    requires i < |s.slots| == |t.slots| && t.panel == s.panel
    requires forall j | 0 <= j < |s.slots| :: t.slots[j] == Bare(s.slots[j])
    ensures |Manage(s, e).slots| == |Manage(t, e).slots| == |s.slots|
    ensures Bare(Manage(s, e).slots[i]) == Bare(Manage(t, e).slots[i])
  {
    hide NoClash, Acceptable, IsLive, IsFree;
  }

  lemma PlacesAlike(s: State, t: State, e: PanelStep, i: nat)
    requires (e.Init? || e.StartThread?) && CanPanel(s, e) && CanPanel(t, e)
    requires i < |s.slots| == |t.slots| && t.panel == s.panel
    requires forall j | 0 <= j < |s.slots| :: t.slots[j] == Bare(s.slots[j])
    ensures |Manage(s, e).slots| == |Manage(t, e).slots| == |s.slots|
    ensures Bare(Manage(s, e).slots[i]) == Bare(Manage(t, e).slots[i])
  {
    hide NoClash, Acceptable, IsLive, IsFree;
  }

  lemma PanelSlotAt(s: State, t: State, e: PanelStep, i: nat)
    requires CanPanel(s, e) && CanPanel(t, e) && i < |s.slots| == |t.slots| && t.panel == s.panel
    requires forall j | 0 <= j < |s.slots| :: t.slots[j] == Bare(s.slots[j])
    ensures |Manage(s, e).slots| == |Manage(t, e).slots| == |s.slots|
    ensures Bare(Manage(s, e).slots[i]) == Bare(Manage(t, e).slots[i])
  {
    if e.Update? || e.Delete? || e.Deinit? {
      hide Manage, CanPanel;
      RemovesAlike(s, t, e, i);
    } else if e.Init? || e.StartThread? {
      hide Manage, CanPanel;
      PlacesAlike(s, t, e, i);
    }
  }

  lemma PanelSeesTasks(s: State, t: State, e: PanelStep)
    requires CanPanel(s, e) && t == Tasks(s)
    ensures CanPanel(t, e) && Tasks(Manage(s, e)) == Tasks(Manage(t, e))
  {
    hide CanPanel, Manage;
    PanelStillCan(s, t, e);
    PanelFields(s, t, e);
    forall i | 0 <= i < |s.slots|
      ensures Bare(Manage(s, e).slots[i]) == Bare(Manage(t, e).slots[i])
    {
      PanelSlotAt(s, t, e, i);
    }
    assert Tasks(Manage(s, e)).slots == Tasks(Manage(t, e)).slots;
  }

  /** The panel's steps on the tasks alone. */
  function Replay(t: State, es: seq<Event>): Option<State> {
    if es == [] then Some(t) else
      var e := es[|es| - 1];
      match Replay(t, es[..|es| - 1])
      case None => None
      case Some(u) => if e.ByPanel? && CanPanel(u, e.panelStep) then Some(Tasks(Manage(u, e.panelStep))) else None
  }

  lemma {:induction false} PanelAlone(pool: nat, s: State, es: seq<Event>)
    requires Perform(pool, s, es).Some?
    ensures Replay(Tasks(s), PanelOf(es)) == Some(Tasks(Perform(pool, s, es).value))
  {
    hide Enabled, Apply, Tasks, CanPanel, Manage;
    if es != [] {
      var n := |es| - 1;
      PanelAlone(pool, s, es[..n]);
      var t, e := Perform(pool, s, es[..n]).value, es[n];
      if e.ByPanel? {
        PanelEnabled(pool, t, e);
        PanelSeesTasks(t, Tasks(t), e.panelStep);
        assert (PanelOf(es[..n]) + [e])[..|PanelOf(es[..n])|] == PanelOf(es[..n]);
      } else {
        ThreadsLeaveTasks(pool, t, e);
        assert PanelOf(es[..n]) + [] == PanelOf(es[..n]);
      }
    }
  }

  lemma PanelEnabled(pool: nat, s: State, e: Event)
    requires e.ByPanel?
    ensures Enabled(pool, s, e) <==> CanPanel(s, e.panelStep)
    ensures Enabled(pool, s, e) ==> Apply(pool, s, e) == Manage(s, e.panelStep)
  {
  }

  /** However listeners and workers interleave, the same steps of the panel lead to the
      same tasks: configurations, states, generations and the published part. */
  lemma InterleavingIrrelevant(pool: nat, s: State, one: seq<Event>, two: seq<Event>)
    requires Perform(pool, s, one).Some? && Perform(pool, s, two).Some? && PanelOf(one) == PanelOf(two)
    ensures Tasks(Perform(pool, s, one).value) == Tasks(Perform(pool, s, two).value)
  {
    hide Perform, Tasks, PanelOf, Replay;
    PanelAlone(pool, s, one);
    PanelAlone(pool, s, two);
  }

  function UpdateSteps(victim: nat, target: nat, config: TaskConfig, l: nat): seq<Event> {
    [ByPanel(Update(victim, target, config)), ByPanel(Deinit), ByPanel(Init(true)), ByPanel(StartThread(true, l)),
     ByPanel(Publish)]
  }

  lemma PerformSnoc(pool: nat, s: State, es: seq<Event>, e: Event)
    ensures Perform(pool, s, es + [e]) == Do(pool, Perform(pool, s, es), e)
    ensures PanelOf(es + [e]) == PanelOf(es) + if e.ByPanel? then [e] else []
  {
    hide Do;
    assert (es + [e])[..|es|] == es;
  }

  lemma UpdateInTurn(pool: nat, s: State, victim: nat, target: nat, config: TaskConfig, l: nat)
    requires Enabled(pool, s, ByPanel(Update(victim, target, config))) && l !in s.listeners
    ensures var es := UpdateSteps(victim, target, config, l);
            PanelOf(es) == es && Perform(pool, s, es) == Some(Settled(Removed(s, victim), target, config, l))
  {
    hide Do, Perform, PanelOf;
    UpdateCompletes(pool, s, victim, target, config, l);
    var es := UpdateSteps(victim, target, config, l);
    PerformNone(pool, s);
    forall n | 0 <= n < 5
      ensures Perform(pool, s, es[..n + 1]) == Do(pool, Perform(pool, s, es[..n]), es[n])
      ensures PanelOf(es[..n + 1]) == PanelOf(es[..n]) + [es[n]]
    {
      assert es[..n + 1] == es[..n] + [es[n]];
      PerformSnoc(pool, s, es[..n], es[n]);
    }
    assert es[..0] == [] && es[..5] == es;
    assert Perform(pool, s, es[..0 + 1]) == Do(pool, Some(s), es[0]);
    assert Perform(pool, s, es[..1 + 1]) == Do(pool, Do(pool, Some(s), es[0]), es[1]);
    assert PanelOf(es[..0 + 1]) == [es[0]] && PanelOf(es[..1 + 1]) == [es[0], es[1]];
    assert PanelOf(es[..2 + 1]) == [es[0], es[1], es[2]];
    assert PanelOf(es[..3 + 1]) == [es[0], es[1], es[2], es[3]];
    assert PanelOf(es[..4 + 1]) == es;
  }

  lemma PerformNone(pool: nat, s: State)
    ensures Perform(pool, s, []) == Some(s) && PanelOf([]) == []
  {
  }

  /** An update among any steps of listeners and workers ends with the new configuration
      live in its slot, the old task removed, and every other task as it was. */
  lemma UpdateAmongThreads(
      pool: nat, s: State, es: seq<Event>, victim: nat, target: nat, config: TaskConfig, l: nat)
    requires Enabled(pool, s, ByPanel(Update(victim, target, config))) && l !in s.listeners
    requires PanelOf(es) == UpdateSteps(victim, target, config, l) && Perform(pool, s, es).Some?
    ensures Tasks(Perform(pool, s, es).value) == Tasks(Settled(Removed(s, victim), target, config, l))
  {
    hide Perform, Tasks, PanelOf, Settled, Removed;
    UpdateInTurn(pool, s, victim, target, config, l);
    InterleavingIrrelevant(pool, s, es, UpdateSteps(victim, target, config, l));
  }
}
