/** The table of tasks shared by the panel, one listener thread per task and one
    worker thread per connection. Steps that hold the table lock are separated by
    the points where they release it; everything else interleaves freely. */
module TaskTable {

  const MAX_TASKS: nat := 32

  datatype TaskConfig = TaskConfig(name: string, port: nat)

  /** `generation` counts how often the slot has been wiped for a new task. */
  datatype Slot = Slot(
    config: TaskConfig, initialized: bool, deleted: bool, stop: bool,
    listenerRunning: bool, workerCount: nat, generation: nat)

  datatype ListenerPhase =
    | Starting              // thread created, nothing executed yet
    | Looping               // at the top of the accept loop
    | Reserved              // holds a pool reservation, waiting in accept
    | Refused               // admission found the task stopping
    | Launching(worker: nat) // worker counted, thread not yet created
    | LaunchFailed          // count taken back, reservation still held
    | Ending                // left the loop

  datatype Listener = Listener(slot: nat, generation: nat, phase: ListenerPhase)

  datatype WorkerPhase = Pending | Serving | Uncounted

  datatype Worker = Worker(slot: nat, generation: nat, phase: WorkerPhase)

  /** What the panel is doing while it holds the table lock. */
  datatype Panel =
    | Idle
    | Placing(target: nat, config: TaskConfig)
    | Placed(target: nat)
    | Publishing(target: nat)
    | Deleting(victim: nat)
    | Replacing(victim: nat, target: nat, config: TaskConfig)

  datatype State = State(
    slots: seq<Slot>, taskCount: nat, panel: Panel,
    listeners: map<nat, Listener>, workers: map<nat, Worker>, poolActive: nat)

  // ---- Names ----

  function Lower(ch: char): char {
    if 'A' <= ch <= 'Z' then ch + 32 as char else ch
  }

  /** Task names are compared without regard to case. */
  function Key(name: string): string {
    seq(|name|, i requires 0 <= i < |name| => Lower(name[i]))
  }

  predicate Clash(a: TaskConfig, b: TaskConfig) {
    Key(a.name) == Key(b.name) || a.port == b.port
  }

  predicate IsLive(t: Slot) {
    t.initialized && !t.deleted
  }

  predicate IsFree(t: Slot) {
    !t.initialized && !t.listenerRunning
  }

  predicate IsCounted(w: Worker) {
    w.phase != Uncounted
  }

  /** No live task other than `except` has the name or the port. */
  predicate NoClash(slots: seq<Slot>, limit: nat, config: TaskConfig, except: int)
    requires limit <= |slots|
  {
    forall i | 0 <= i < limit :: i != except && IsLive(slots[i]) ==> !Clash(slots[i].config, config)
  }

  predicate Acceptable(config: TaskConfig) {
    config.name != "" && config.port != 0
  }

  // ---- Steps ----

  datatype ListenerStep =
    | Start
    | SeeStop         // sees stop or deleted at the top of the loop
    | GiveUp          // bind failure with retries disabled
    | Reserve
    | AcceptFailed
    | Admit(w: nat)   // under the lock
    | Refuse          // under the lock
    | Drop            // gives the reservation back
    | Launch
    | LaunchFail      // under the lock
    | BackOut
    | End

  datatype PanelStep =
    | Create(config: TaskConfig, target: nat)
    | Update(victim: nat, target: nat, config: TaskConfig)
    | Delete(victim: nat)
    | Deinit
    | Init(ok: bool)
    | StartThread(ok: bool, l: nat)
    | Publish

  datatype Event =
    | ByListener(l: nat, listenerStep: ListenerStep)
    | WorkerDone(w: nat)    // under the lock
    | WorkerRelease(w: nat)
    | ByPanel(panelStep: PanelStep)

  predicate StopSeen(t: Slot) { t.stop || t.deleted }

  predicate IsAt(s: State, l: nat) {
    l in s.listeners && s.listeners[l].slot < |s.slots|
  }

  predicate CanListen(pool: nat, s: State, l: nat, e: ListenerStep) {
    IsAt(s, l) &&
    var phase, t := s.listeners[l].phase, s.slots[s.listeners[l].slot];
    match e
    case Start => phase == Starting
    case SeeStop => phase == Looping && StopSeen(t)
    case GiveUp => phase == Looping
    case Reserve => phase == Looping && s.poolActive < pool
    case AcceptFailed => phase == Reserved
    case Admit(w) => phase == Reserved && s.panel == Idle && !StopSeen(t) && w !in s.workers
    case Refuse => phase == Reserved && s.panel == Idle && StopSeen(t)
    case Drop => phase == Refused
    case Launch => phase.Launching? && phase.worker in s.workers
    case LaunchFail => phase.Launching? && phase.worker in s.workers && s.panel == Idle
    case BackOut => phase == LaunchFailed
    case End => phase == Ending
  }

  predicate CanPanel(s: State, e: PanelStep) {
    s.taskCount <= |s.slots| &&
    match e
    case Create(config, target) =>
      s.panel == Idle && Acceptable(config) && target < |s.slots| && IsFree(s.slots[target]) &&
      NoClash(s.slots, s.taskCount, config, -1)
    case Update(victim, target, config) =>
      s.panel == Idle && Acceptable(config) && victim < s.taskCount && IsLive(s.slots[victim]) &&
      s.slots[victim].workerCount == 0 &&
      target < |s.slots| && target != victim && IsFree(s.slots[target]) &&
      NoClash(s.slots, s.taskCount, config, victim)
    case Delete(victim) =>
      s.panel == Idle && victim < s.taskCount && IsLive(s.slots[victim]) && s.slots[victim].workerCount == 0
    case Deinit => (s.panel.Deleting? || s.panel.Replacing?) && s.panel.victim < |s.slots|
    case Init(_) => s.panel.Placing? && s.panel.target < |s.slots|
    case StartThread(_, l) => s.panel.Placed? && s.panel.target < |s.slots| && l !in s.listeners
    case Publish => s.panel.Publishing?
  }

  predicate Enabled(pool: nat, s: State, e: Event) {
    match e
    case ByListener(l, step) => CanListen(pool, s, l, step)
    case WorkerDone(w) =>
      w in s.workers && s.workers[w].phase == Serving && s.workers[w].slot < |s.slots| && s.panel == Idle
    case WorkerRelease(w) => w in s.workers && s.workers[w].phase == Uncounted
    case ByPanel(step) => CanPanel(s, step)
  }

  function SetPhase(s: State, l: nat, p: ListenerPhase): State
    requires l in s.listeners
  {
    s.(listeners := s.listeners[l := s.listeners[l].(phase := p)])
  }

  function SetSlot(s: State, i: nat, t: Slot): State
    requires i < |s.slots|
  {
    s.(slots := s.slots[i := t])
  }

  function CountDown(t: Slot): Slot {
    if t.workerCount > 0 then t.(workerCount := t.workerCount - 1) else t
  }

  function Release(s: State): State {
    s.(poolActive := if s.poolActive > 0 then s.poolActive - 1 else 0)
  }

  function Wind(t: Slot): Slot {
    if t.initialized then t.(stop := true, initialized := false) else t
  }

  function Listen(pool: nat, s: State, l: nat, e: ListenerStep): State
    requires CanListen(pool, s, l, e)
  {
    var i := s.listeners[l].slot;
    var t := s.slots[i];
    match e
    case Start => SetPhase(SetSlot(s, i, t.(listenerRunning := true)), l, Looping)
    case SeeStop => SetPhase(s, l, Ending)
    case GiveUp => SetPhase(s, l, Ending)
    case Reserve => SetPhase(s.(poolActive := s.poolActive + 1), l, Reserved)
    case AcceptFailed => SetPhase(Release(s), l, if StopSeen(t) then Ending else Looping)
    case Admit(w) =>
      SetPhase(SetSlot(s, i, t.(workerCount := t.workerCount + 1)).(
                 workers := s.workers[w := Worker(i, t.generation, Pending)]), l, Launching(w))
    case Refuse => SetPhase(s, l, Refused)
    case Drop => SetPhase(Release(s), l, Ending)
    case Launch =>
      var w := s.listeners[l].phase.worker;
      SetPhase(s.(workers := s.workers[w := s.workers[w].(phase := Serving)]), l, Looping)
    case LaunchFail =>
      var w := s.listeners[l].phase.worker;
      SetPhase(SetSlot(s.(workers := s.workers - {w}), i, CountDown(t)), l, LaunchFailed)
    case BackOut => SetPhase(Release(s), l, Looping)
    case End => SetSlot(s.(listeners := s.listeners - {l}), i, t.(listenerRunning := false))
  }

  function Manage(s: State, e: PanelStep): State
    requires CanPanel(s, e)
  {
    match e
    case Create(config, target) => s.(panel := Placing(target, config))
    case Update(victim, target, config) =>
      SetSlot(s, victim, s.slots[victim].(deleted := true, stop := true)).(panel := Replacing(victim, target, config))
    case Delete(victim) =>
      SetSlot(s, victim, s.slots[victim].(deleted := true, stop := true)).(panel := Deleting(victim))
    case Deinit =>
      var i := s.panel.victim;
      SetSlot(s, i, Wind(s.slots[i])).(
        panel := if s.panel.Deleting? then Idle else Placing(s.panel.target, s.panel.config))
    case Init(ok) =>
      var i := s.panel.target;
      var wiped := Slot(s.panel.config, ok, false, false, false, 0, s.slots[i].generation + 1);
      SetSlot(s, i, wiped).(panel := if ok then Placed(i) else Idle)
    case StartThread(ok, l) =>
      var i := s.panel.target;
      if ok then
        SetSlot(s, i, s.slots[i].(listenerRunning := true)).(
          listeners := s.listeners[l := Listener(i, s.slots[i].generation, Starting)], panel := Publishing(i))
      else SetSlot(s, i, Wind(s.slots[i].(listenerRunning := false))).(panel := Idle)
    case Publish =>
      s.(taskCount := if s.taskCount < s.panel.target + 1 then s.panel.target + 1 else s.taskCount, panel := Idle)
  }

  function Apply(pool: nat, s: State, e: Event): State
    requires Enabled(pool, s, e)
  {
    match e
    case ByListener(l, step) => Listen(pool, s, l, step)
    case WorkerDone(w) =>
      var i := s.workers[w].slot;
      SetSlot(s.(workers := s.workers[w := s.workers[w].(phase := Uncounted)]), i, CountDown(s.slots[i]))
    case WorkerRelease(w) => Release(s.(workers := s.workers - {w}))
    case ByPanel(step) => Manage(s, step)
  }

  // ---- Startup ----

  const EMPTY_SLOT := Slot(TaskConfig("", 0), false, false, false, false, 0, 0)

  /** What loading the configuration enforces. */
  predicate Loadable(configs: seq<TaskConfig>) {
    |configs| <= MAX_TASKS && (forall i | 0 <= i < |configs| :: Acceptable(configs[i])) &&
    forall i, j | 0 <= i < j < |configs| :: !Clash(configs[i], configs[j])
  }

  /** All configured tasks initialised and their listener threads created. */
  function Startup(configs: seq<TaskConfig>): State
    requires Loadable(configs)
  {
    State(seq(MAX_TASKS, i requires 0 <= i < MAX_TASKS =>
                if i < |configs| then Slot(configs[i], true, false, false, true, 0, 0) else EMPTY_SLOT),
          |configs|, Idle, map l: nat | 0 <= l < |configs| :: Listener(l, 0, Starting), map[], 0)
  }

  function Run(pool: nat, configs: seq<TaskConfig>, es: seq<Event>): (r: (bool, State))
    requires Loadable(configs)
  {
    if es == [] then (true, Startup(configs)) else
      var n := |es| - 1;
      var (ok, s) := Run(pool, configs, es[..n]);
      if ok && Enabled(pool, s, es[n]) then (true, Apply(pool, s, es[n])) else (false, s)
  }

  // ---- Invariant ----

  /** The workers a slot has to account for. */
  ghost function Counted(workers: map<nat, Worker>, i: nat): set<nat> {
    set w | w in workers && workers[w].slot == i && IsCounted(workers[w])
  }

  predicate Holds(p: ListenerPhase) {
    p == Reserved || p == Refused || p == LaunchFailed
  }

  ghost function Holders(listeners: map<nat, Listener>): set<nat> {
    set l | l in listeners && Holds(listeners[l].phase)
  }

  /** Listeners refer to the incarnation of the slot they were started for. */
  ghost predicate ListenersOk(s: State) {
    forall l | l in s.listeners ::
      var t := s.listeners[l];
      t.slot < |s.slots| && t.generation == s.slots[t.slot].generation && s.slots[t.slot].listenerRunning &&
      (s.slots[t.slot].initialized || s.slots[t.slot].stop)
  }

  ghost predicate OnePerSlot(s: State) {
    forall l, m | l in s.listeners && m in s.listeners && s.listeners[l].slot == s.listeners[m].slot :: l == m
  }

  /** Counted workers serve the live incarnation of the task they were counted for. */
  ghost predicate WorkersOk(s: State) {
    forall w | w in s.workers && IsCounted(s.workers[w]) ::
      var t := s.workers[w];
      t.slot < |s.slots| && t.generation == s.slots[t.slot].generation && IsLive(s.slots[t.slot])
  }

  ghost predicate ThreadsOk(s: State) {
    ListenersOk(s) && OnePerSlot(s) && WorkersOk(s)
  }

  /** A listener about to create a worker thread owns that worker. */
  ghost predicate LaunchOk(s: State) {
    forall l | l in s.listeners && s.listeners[l].phase.Launching? ::
      var w := s.listeners[l].phase.worker;
      w in s.workers && s.workers[w].phase == Pending && s.workers[w].slot == s.listeners[l].slot
  }

  ghost predicate CountsOk(s: State) {
    forall i | 0 <= i < |s.slots| :: s.slots[i].workerCount == |Counted(s.workers, i)|
  }

  ghost predicate PoolOk(pool: nat, s: State) {
    s.poolActive == |Holders(s.listeners)| + |s.workers| <= pool
  }

  /** No two live tasks share a name or a port, and all but the one being placed
      are within the published part of the table. */
  ghost predicate TableOk(s: State) {
    && |s.slots| == MAX_TASKS && s.taskCount <= MAX_TASKS
    && (forall i, j | 0 <= i < j < |s.slots| ::
          IsLive(s.slots[i]) && IsLive(s.slots[j]) ==> !Clash(s.slots[i].config, s.slots[j].config))
    && (forall i | 0 <= i < |s.slots| && s.slots[i].initialized ::
          i < s.taskCount || s.panel == Placed(i) || s.panel == Publishing(i))
  }

  ghost predicate PanelOk(s: State)
    requires |s.slots| == MAX_TASKS
  {
    match s.panel
    case Idle => true
    case Placing(j, config) => j < MAX_TASKS && IsFree(s.slots[j]) && NoClash(s.slots, MAX_TASKS, config, -1)
    case Placed(j) => j < MAX_TASKS && IsLive(s.slots[j]) && !s.slots[j].stop && !s.slots[j].listenerRunning &&
                      s.slots[j].workerCount == 0
    case Publishing(j) => j < MAX_TASKS
    case Deleting(i) => i < MAX_TASKS && s.slots[i].deleted && s.slots[i].stop && s.slots[i].workerCount == 0
    case Replacing(i, j, config) =>
      i < MAX_TASKS && s.slots[i].deleted && s.slots[i].stop && s.slots[i].workerCount == 0 && j != i &&
      j < MAX_TASKS && IsFree(s.slots[j]) && NoClash(s.slots, MAX_TASKS, config, -1)
  }

  ghost predicate Inv(pool: nat, s: State) {
    TableOk(s) && PanelOk(s) && ThreadsOk(s) && LaunchOk(s) && CountsOk(s) && PoolOk(pool, s)
  }

  // ---- Counting ----

  /** How one entry of the worker table affects the counts. */
  lemma CountedUpdate(workers: map<nat, Worker>, w: nat, rec: Worker, i: nat)
    ensures |Counted(workers[w := rec], i)| ==
            |Counted(workers, i) - {w}| + if rec.slot == i && IsCounted(rec) then 1 else 0
  {
    CountedSet(workers, w, rec, i);
  }

  lemma CountedSet(workers: map<nat, Worker>, w: nat, rec: Worker, i: nat)
    ensures Counted(workers[w := rec], i) ==
            Counted(workers, i) - {w} + if rec.slot == i && IsCounted(rec) then {w} else {}
  {
    var after, before := Counted(workers[w := rec], i), Counted(workers, i);
    forall x
      ensures x in after <==> x in before - {w} + if rec.slot == i && IsCounted(rec) then {w} else {}
    {
      if x != w && x in workers { assert workers[w := rec][x] == workers[x]; }
    }
  }

  lemma CountedRemove(workers: map<nat, Worker>, w: nat, i: nat)
    ensures Counted(workers - {w}, i) == Counted(workers, i) - {w}
  {
  }

  lemma HoldersUpdate(listeners: map<nat, Listener>, l: nat, rec: Listener)
    ensures |Holders(listeners[l := rec])| == |Holders(listeners) - {l}| + if Holds(rec.phase) then 1 else 0
  {
    var after := Holders(listeners[l := rec]);
    if Holds(rec.phase) {
      assert after == (Holders(listeners) - {l}) + {l};
    } else {
      assert after == Holders(listeners) - {l};
    }
  }

  lemma HoldersRemove(listeners: map<nat, Listener>, l: nat)
    ensures Holders(listeners - {l}) == Holders(listeners) - {l}
  {
  }

  lemma WorkersRemove(workers: map<nat, Worker>, w: nat)
    requires w in workers
    ensures |workers - {w}| == |workers| - 1
  {
    assert (workers - {w}).Keys == workers.Keys - {w};
    assert |(workers - {w}).Keys| == |workers - {w}|;
  }

  lemma WorkersUpdate(workers: map<nat, Worker>, w: nat, rec: Worker)
    ensures |workers[w := rec]| == if w in workers then |workers| else |workers| + 1
  {
    assert workers[w := rec].Keys == workers.Keys + {w};
    assert |workers[w := rec].Keys| == |workers[w := rec]|;
  }

  // ---- Each step keeps the invariant ----

  /** Listener and worker steps leave the tasks themselves alone. */
  ghost predicate SameTasks(s: State, t: State) {
    && |t.slots| == |s.slots| && t.taskCount == s.taskCount && t.panel == s.panel
    && forall i | 0 <= i < |s.slots| ::
         t.slots[i] == s.slots[i].(listenerRunning := t.slots[i].listenerRunning, workerCount := t.slots[i].workerCount)
  }

  /** ... and while the panel works they count no worker and revive no free slot. */
  ghost predicate Quiet(s: State, t: State) {
    && SameTasks(s, t)
    && forall i | 0 <= i < |s.slots| ::
         (s.panel != Idle ==> t.slots[i].workerCount == s.slots[i].workerCount) &&
         (!s.slots[i].listenerRunning ==> !t.slots[i].listenerRunning)
  }

  /** A listener step touches at most its own slot's bookkeeping. */
  lemma ListenSlot(pool: nat, s: State, l: nat, e: ListenerStep)
    requires CanListen(pool, s, l, e)
    ensures var i, r := s.listeners[l].slot, Listen(pool, s, l, e);
            r.taskCount == s.taskCount && r.panel == s.panel && |r.slots| == |s.slots| &&
            var t, u := s.slots[i], r.slots[i];
            r.slots == s.slots[i := u] &&
            u == t.(listenerRunning := u.listenerRunning, workerCount := u.workerCount) &&
            (s.panel != Idle ==> u.workerCount == t.workerCount)
  {
    var i, r := s.listeners[l].slot, Listen(pool, s, l, e);
    assert r.slots == s.slots[i := r.slots[i]];
  }

  lemma ListenQuiet(pool: nat, s: State, l: nat, e: ListenerStep)
    requires CanListen(pool, s, l, e) && ListenersOk(s)
    ensures Quiet(s, Listen(pool, s, l, e))
  {
    hide Listen;
    ListenSlot(pool, s, l, e);
  }

  lemma QuietKeeps(s: State, t: State)
    requires TableOk(s) && PanelOk(s) && Quiet(s, t)
    ensures TableOk(t) && PanelOk(t)
  {
    hide Clash;
  }

  lemma ManageTable(s: State, e: PanelStep)
    requires CanPanel(s, e) && TableOk(s) && PanelOk(s)
    ensures TableOk(Manage(s, e))
  {
    hide Clash;
    if e.Init? {
      forall i | 0 <= i < MAX_TASKS && IsLive(s.slots[i])
        ensures !Clash(s.panel.config, s.slots[i].config) && !Clash(s.slots[i].config, s.panel.config)
      {
        ClashSymmetric(s.slots[i].config, s.panel.config);
      }
    }
  }

  lemma ClashSymmetric(a: TaskConfig, b: TaskConfig)
    ensures Clash(a, b) == Clash(b, a)
  {
  }

  lemma ManagePanel(s: State, e: PanelStep)
    requires CanPanel(s, e) && TableOk(s) && PanelOk(s)
    ensures |Manage(s, e).slots| == MAX_TASKS && PanelOk(Manage(s, e))
  {
    hide Clash;
  }

  // ---- Threads ----

  /** ... and at most its own entry in the thread table, without changing slot. */
  lemma ListenEntry(pool: nat, s: State, l: nat, e: ListenerStep)
    requires CanListen(pool, s, l, e)
    ensures var r := Listen(pool, s, l, e);
            if e == End then r.listeners == s.listeners - {l}
            else l in r.listeners && r.listeners == s.listeners[l := r.listeners[l]] &&
                 r.listeners[l] == s.listeners[l].(phase := r.listeners[l].phase) &&
                 (s.slots[s.listeners[l].slot].listenerRunning ==> r.slots[s.listeners[l].slot].listenerRunning)
  {
  }

  lemma ListenListeners(pool: nat, s: State, l: nat, e: ListenerStep)
    requires CanListen(pool, s, l, e) && ListenersOk(s) && OnePerSlot(s)
    ensures ListenersOk(Listen(pool, s, l, e)) && OnePerSlot(Listen(pool, s, l, e))
  {
    hide Listen;
    ListenSlot(pool, s, l, e);
    ListenEntry(pool, s, l, e);
  }

  lemma ListenWorkers(pool: nat, s: State, l: nat, e: ListenerStep)
    requires CanListen(pool, s, l, e) && ListenersOk(s) && WorkersOk(s) && LaunchOk(s)
    ensures WorkersOk(Listen(pool, s, l, e))
  {
  }

  lemma ListenLaunch(pool: nat, s: State, l: nat, e: ListenerStep)
    requires CanListen(pool, s, l, e) && OnePerSlot(s) && LaunchOk(s)
    ensures LaunchOk(Listen(pool, s, l, e))
  {
  }

  lemma ListenThreads(pool: nat, s: State, l: nat, e: ListenerStep)
    requires CanListen(pool, s, l, e) && ThreadsOk(s) && LaunchOk(s)
    ensures ThreadsOk(Listen(pool, s, l, e)) && LaunchOk(Listen(pool, s, l, e))
  {
    hide Listen, ListenersOk, OnePerSlot, WorkersOk, LaunchOk;
    ListenListeners(pool, s, l, e);
    ListenWorkers(pool, s, l, e);
    ListenLaunch(pool, s, l, e);
  }

  /** A slot that nobody counts a worker for has none. */
  lemma NoneCounted(s: State, i: nat)
    requires CountsOk(s) && i < |s.slots| && s.slots[i].workerCount == 0
    ensures forall w | w in s.workers && IsCounted(s.workers[w]) :: s.workers[w].slot != i
  {
    assert Counted(s.workers, i) == {};
    forall w | w in s.workers && IsCounted(s.workers[w]) ensures s.workers[w].slot != i {
      assert w !in Counted(s.workers, i);
    }
  }

  /** A slot a listener is at keeps what the listener relies on. */
  lemma ManageSlot(s: State, e: PanelStep, l: nat)
    requires CanPanel(s, e) && |s.slots| == MAX_TASKS && PanelOk(s) && ListenersOk(s) && l in s.listeners
    ensures var i, t := s.listeners[l].slot, Manage(s, e);
            && |t.slots| == |s.slots| && t.slots[i].generation == s.slots[i].generation
            && t.slots[i].listenerRunning && (t.slots[i].initialized || t.slots[i].stop)
  {
    hide NoClash, Acceptable;
  }

  /** No listener is at the slot a new one is started for. */
  lemma PlacedIsVacant(s: State, l: nat)
    requires |s.slots| == MAX_TASKS && PanelOk(s) && s.panel.Placed? && ListenersOk(s) && l in s.listeners
    ensures s.listeners[l].slot != s.panel.target
  {
    hide NoClash;
  }

  lemma NewListener(s: State, e: PanelStep)
    requires CanPanel(s, e) && e.StartThread? && e.ok && |s.slots| == MAX_TASKS && PanelOk(s)
    ensures var i, t := s.panel.target, Manage(s, e);
            |t.slots| == |s.slots| && t.slots[i].generation == s.slots[i].generation && t.slots[i].listenerRunning &&
            t.slots[i].initialized
  {
    hide NoClash;
  }

  /** The heart of the matter: the panel wipes a slot only when no listener
      refers to it ... */
  lemma ManageListeners(s: State, e: PanelStep)
    requires CanPanel(s, e) && TableOk(s) && PanelOk(s) && ListenersOk(s) && OnePerSlot(s)
    ensures ListenersOk(Manage(s, e)) && OnePerSlot(Manage(s, e))
  {
    hide NoClash, Manage, CanPanel, PanelOk;
    var t := Manage(s, e);
    ManageThreads(s, e);
    if e.StartThread? && e.ok { NewListener(s, e); }
    forall l | l in s.listeners
      ensures s.listeners[l].slot < |t.slots| && t.slots[s.listeners[l].slot].generation == s.listeners[l].generation
      ensures t.slots[s.listeners[l].slot].listenerRunning
      ensures t.slots[s.listeners[l].slot].initialized || t.slots[s.listeners[l].slot].stop
      ensures e.StartThread? && e.ok ==> s.listeners[l].slot != s.panel.target
    {
      ManageSlot(s, e, l);
      if e.StartThread? && e.ok { PlacedIsVacant(s, l); }
    }
  }

  /** ... and stops or wipes a task only when it has no worker. */
  lemma ManageWorkers(s: State, e: PanelStep)
    requires CanPanel(s, e) && TableOk(s) && PanelOk(s) && WorkersOk(s) && CountsOk(s)
    ensures WorkersOk(Manage(s, e))
  {
    hide NoClash, CountsOk, TableOk;
    match e {
      case Update(victim, _, _) => NoneCounted(s, victim);
      case Delete(victim) => NoneCounted(s, victim);
      case Deinit => NoneCounted(s, s.panel.victim);
      case StartThread(ok, _) => NoneCounted(s, s.panel.target);
      case _ =>
    }
  }

  lemma ManageLaunch(s: State, e: PanelStep)
    requires CanPanel(s, e) && LaunchOk(s)
    ensures LaunchOk(Manage(s, e))
  {
    hide NoClash;
  }

  lemma DoneThreads(pool: nat, s: State, w: nat)
    requires Enabled(pool, s, WorkerDone(w)) && WorkersOk(s) && LaunchOk(s)
    ensures var t := Apply(pool, s, WorkerDone(w)); WorkersOk(t) && LaunchOk(t) && Quiet(s, t)
  {
  }

  lemma ReleaseThreads(pool: nat, s: State, w: nat)
    requires Enabled(pool, s, WorkerRelease(w)) && WorkersOk(s) && LaunchOk(s)
    ensures var t := Apply(pool, s, WorkerRelease(w)); WorkersOk(t) && LaunchOk(t) && Quiet(s, t)
  {
  }

  lemma DoneListeners(pool: nat, s: State, w: nat)
    requires Enabled(pool, s, WorkerDone(w)) && ListenersOk(s)
    ensures ListenersOk(Apply(pool, s, WorkerDone(w)))
  {
  }

  // ---- Counts and the pool ----

  /** The count of one slot across a listener's step. */
  lemma ListenCountAt(pool: nat, s: State, l: nat, e: ListenerStep, i: nat)
    requires CanListen(pool, s, l, e) && LaunchOk(s) && i < |s.slots|
    requires s.slots[i].workerCount == |Counted(s.workers, i)|
    ensures var t := Listen(pool, s, l, e);
            |t.slots| == |s.slots| && t.slots[i].workerCount == |Counted(t.workers, i)|
  {
    hide Counted;
    match e {
      case Admit(w) =>
        FreshUncounted(s.workers, w, i);
        CountedUpdate(s.workers, w, Listen(pool, s, l, e).workers[w], i);
      case Launch =>
        var w := s.listeners[l].phase.worker;
        CountedSplit(s.workers, w, i);
        CountedUpdate(s.workers, w, Listen(pool, s, l, e).workers[w], i);
      case LaunchFail =>
        CountedSplit(s.workers, s.listeners[l].phase.worker, i);
        CountedRemove(s.workers, s.listeners[l].phase.worker, i);
      case _ =>
    }
  }

  lemma FreshUncounted(workers: map<nat, Worker>, w: nat, i: nat)
    requires w !in workers
    ensures Counted(workers, i) - {w} == Counted(workers, i)
  {
  }

  lemma CountedSplit(workers: map<nat, Worker>, w: nat, i: nat)
    requires w in workers && IsCounted(workers[w])
    ensures |Counted(workers, i)| == |Counted(workers, i) - {w}| + if workers[w].slot == i then 1 else 0
  {
    var c := Counted(workers, i);
    if workers[w].slot == i { assert c == (c - {w}) + {w}; } else { assert c - {w} == c; }
  }

  lemma ListenCounts(pool: nat, s: State, l: nat, e: ListenerStep)
    requires CanListen(pool, s, l, e) && ThreadsOk(s) && LaunchOk(s) && CountsOk(s)
    ensures CountsOk(Listen(pool, s, l, e))
  {
    hide Listen, LaunchOk, ThreadsOk, CanListen, Counted;
    var t := Listen(pool, s, l, e);
    SlotsKept(pool, s, l, e);
    forall i | 0 <= i < |t.slots|
      ensures t.slots[i].workerCount == |Counted(t.workers, i)|
    {
      ListenCountAt(pool, s, l, e, i);
    }
  }

  lemma SlotsKept(pool: nat, s: State, l: nat, e: ListenerStep)
    requires CanListen(pool, s, l, e)
    ensures |Listen(pool, s, l, e).slots| == |s.slots|
  {
  }

  lemma DoneCounts(pool: nat, s: State, w: nat)
    requires Enabled(pool, s, WorkerDone(w)) && WorkersOk(s) && CountsOk(s)
    ensures CountsOk(Apply(pool, s, WorkerDone(w)))
  {
    var t := Apply(pool, s, WorkerDone(w));
    forall i | 0 <= i < |t.slots| ensures t.slots[i].workerCount == |Counted(t.workers, i)| {
      CountedUpdate(s.workers, w, t.workers[w], i);
      if i == s.workers[w].slot { assert w in Counted(s.workers, i); }
      assert i != s.workers[w].slot ==> Counted(s.workers, i) - {w} == Counted(s.workers, i);
    }
  }

  lemma ReleaseCounts(pool: nat, s: State, w: nat)
    requires Enabled(pool, s, WorkerRelease(w)) && CountsOk(s)
    ensures CountsOk(Apply(pool, s, WorkerRelease(w)))
  {
    var t := Apply(pool, s, WorkerRelease(w));
    forall i | 0 <= i < |t.slots| ensures t.slots[i].workerCount == |Counted(t.workers, i)| {
      CountedRemove(s.workers, w, i);
      assert Counted(s.workers, i) - {w} == Counted(s.workers, i);
    }
  }

  lemma ManageCounts(s: State, e: PanelStep)
    requires CanPanel(s, e) && TableOk(s) && PanelOk(s) && WorkersOk(s) && CountsOk(s)
    ensures CountsOk(Manage(s, e))
  {
    hide NoClash;
    if e.Init? {
      var j := s.panel.target;
      assert Counted(s.workers, j) == {} by {
        forall w | w in s.workers && IsCounted(s.workers[w]) ensures s.workers[w].slot != j { }
      }
    }
  }

  function PoolDelta(e: ListenerStep): int {
    match e
    case Reserve => 1
    case AcceptFailed => -1
    case Drop => -1
    case BackOut => -1
    case _ => 0
  }

  function WorkerDelta(e: ListenerStep): int {
    match e
    case Admit(_) => 1
    case LaunchFail => -1
    case _ => 0
  }

  lemma ListenPoolDelta(pool: nat, s: State, l: nat, e: ListenerStep)
    requires CanListen(pool, s, l, e) && e != End
    requires Holds(s.listeners[l].phase) ==> s.poolActive > 0
    ensures var r := Listen(pool, s, l, e);
            && r.poolActive == s.poolActive + PoolDelta(e) && l in r.listeners
            && Unit(Holds(r.listeners[l].phase)) - Unit(Holds(s.listeners[l].phase)) == PoolDelta(e) - WorkerDelta(e)
  {
  }

  lemma ListenWorkerDelta(pool: nat, s: State, l: nat, e: ListenerStep)
    requires CanListen(pool, s, l, e)
    ensures |Listen(pool, s, l, e).workers| == |s.workers| + WorkerDelta(e)
  {
    match e {
      case Admit(w) => WorkersUpdate(s.workers, w, Listen(pool, s, l, e).workers[w]);
      case Launch =>
        var w := s.listeners[l].phase.worker;
        WorkersUpdate(s.workers, w, Listen(pool, s, l, e).workers[w]);
      case LaunchFail => WorkersRemove(s.workers, s.listeners[l].phase.worker);
      case _ =>
    }
  }

  /** A reservation is either held by a listener or has become a worker's. */
  lemma ListenTransfer(pool: nat, s: State, l: nat, e: ListenerStep)
    requires CanListen(pool, s, l, e) && e != End
    requires Holds(s.listeners[l].phase) || s.listeners[l].phase.Launching? ==> s.poolActive > 0
    ensures var r := Listen(pool, s, l, e);
            l in r.listeners &&
            r.poolActive - s.poolActive ==
            Unit(Holds(r.listeners[l].phase)) - Unit(Holds(s.listeners[l].phase)) + |r.workers| - |s.workers|
    ensures e == Reserve || Listen(pool, s, l, e).poolActive <= s.poolActive
  {
    hide Listen;
    ListenPoolDelta(pool, s, l, e);
    ListenWorkerDelta(pool, s, l, e);
  }

  function Unit(b: bool): nat { if b then 1 else 0 }

  lemma EndPool(pool: nat, s: State, l: nat)
    requires CanListen(pool, s, l, End) && PoolOk(pool, s)
    ensures PoolOk(pool, Listen(pool, s, l, End))
  {
    HoldersRemove(s.listeners, l);
    assert Holders(s.listeners) - {l} == Holders(s.listeners);
  }

  /** Whoever holds or hands over a reservation makes the pool nonempty. */
  lemma HolderCounts(pool: nat, s: State, l: nat)
    requires PoolOk(pool, s) && LaunchOk(s) && l in s.listeners
    ensures Holds(s.listeners[l].phase) || s.listeners[l].phase.Launching? ==> s.poolActive > 0
  {
    HoldersSplit(s.listeners, l);
    if s.listeners[l].phase.Launching? {
      WorkersRemove(s.workers, s.listeners[l].phase.worker);
    }
  }

  lemma ListenPool(pool: nat, s: State, l: nat, e: ListenerStep)
    requires CanListen(pool, s, l, e) && PoolOk(pool, s) && LaunchOk(s)
    ensures PoolOk(pool, Listen(pool, s, l, e))
  {
    hide Listen, LaunchOk;
    if e == End {
      EndPool(pool, s, l);
    } else {
      var t := Listen(pool, s, l, e);
      HolderCounts(pool, s, l);
      HoldersSplit(s.listeners, l);
      ListenTransfer(pool, s, l, e);
      ListenEntry(pool, s, l, e);
      HoldersUpdate(s.listeners, l, t.listeners[l]);
      if e == Reserve { ListenReserve(pool, s, l, e); }
    }
  }

  lemma ListenReserve(pool: nat, s: State, l: nat, e: ListenerStep)
    requires CanListen(pool, s, l, e) && e == Reserve
    ensures Listen(pool, s, l, e).poolActive <= pool
  {
  }

  lemma HoldersSplit(listeners: map<nat, Listener>, l: nat)
    requires l in listeners
    ensures |Holders(listeners)| == |Holders(listeners) - {l}| + if Holds(listeners[l].phase) then 1 else 0
  {
    if Holds(listeners[l].phase) {
      assert Holders(listeners) == (Holders(listeners) - {l}) + {l};
    } else {
      assert Holders(listeners) - {l} == Holders(listeners);
    }
  }

  lemma WorkerPool(pool: nat, s: State, e: Event)
    requires Enabled(pool, s, e) && (e.WorkerDone? || e.WorkerRelease?) && PoolOk(pool, s)
    ensures PoolOk(pool, Apply(pool, s, e))
  {
    if e.WorkerDone? {
      WorkersUpdate(s.workers, e.w, s.workers[e.w].(phase := Uncounted));
    } else {
      WorkersRemove(s.workers, e.w);
    }
  }

  /** What a panel step does to the threads: nothing, or one new listener. */
  lemma ManageThreads(s: State, e: PanelStep)
    requires CanPanel(s, e)
    ensures var t := Manage(s, e);
            && t.poolActive == s.poolActive && t.workers == s.workers
            && (if e.StartThread? && e.ok then
                  && s.panel.Placed? && s.panel.target < |s.slots| && e.l !in s.listeners
                  && t.listeners == s.listeners[
                       e.l := Listener(s.panel.target, s.slots[s.panel.target].generation, Starting)]
                else t.listeners == s.listeners)
  {
    hide NoClash, Acceptable;
  }

  lemma ManagePool(pool: nat, s: State, e: PanelStep)
    requires CanPanel(s, e) && PoolOk(pool, s)
    ensures PoolOk(pool, Manage(s, e))
  {
    hide Manage, CanPanel;
    ManageThreads(s, e);
    if e.StartThread? && e.ok {
      var l := e.l;
      HoldersUpdate(s.listeners, l, Manage(s, e).listeners[l]);
      assert Holders(s.listeners) - {l} == Holders(s.listeners);
    }
  }

  /** Every step of every thread keeps the invariant. */
  lemma StepKeeps(pool: nat, s: State, e: Event)
    requires Enabled(pool, s, e) && Inv(pool, s)
    ensures Inv(pool, Apply(pool, s, e))
  {
    hide Listen, Manage, ListenersOk, OnePerSlot, WorkersOk, LaunchOk, CountsOk, PoolOk, TableOk, PanelOk, Quiet;
    match e {
      case ByListener(l, step) =>
        ListenQuiet(pool, s, l, step);
        QuietKeeps(s, Listen(pool, s, l, step));
        ListenThreads(pool, s, l, step);
        ListenCounts(pool, s, l, step);
        ListenPool(pool, s, l, step);
      case WorkerDone(w) =>
        DoneThreads(pool, s, w);
        DoneListeners(pool, s, w);
        SameListeners(s, Apply(pool, s, e));
        QuietKeeps(s, Apply(pool, s, e));
        DoneCounts(pool, s, w);
        WorkerPool(pool, s, e);
      case WorkerRelease(w) =>
        ReleaseThreads(pool, s, w);
        SameListeners(s, Apply(pool, s, e));
        QuietKeeps(s, Apply(pool, s, e));
        ReleaseCounts(pool, s, w);
        WorkerPool(pool, s, e);
      case ByPanel(step) =>
        ManageTable(s, step);
        ManagePanel(s, step);
        ManageListeners(s, step);
        ManageWorkers(s, step);
        ManageLaunch(s, step);
        ManageCounts(s, step);
        ManagePool(pool, s, step);
    }
  }

  lemma SameListeners(s: State, t: State)
    requires OnePerSlot(s) && t.listeners == s.listeners
    ensures OnePerSlot(t) && (t.slots == s.slots && ListenersOk(s) ==> ListenersOk(t))
  {
  }

  // ---- Reachable states ----

  lemma StartupInv(pool: nat, configs: seq<TaskConfig>)
    requires Loadable(configs)
    ensures Inv(pool, Startup(configs))
  {
    hide Clash;
    var s := Startup(configs);
    assert Holders(s.listeners) == {};
    assert forall i: nat :: Counted(s.workers, i) == {};
  }

  lemma {:induction false} RunInv(pool: nat, configs: seq<TaskConfig>, es: seq<Event>)
    requires Loadable(configs)
    ensures Run(pool, configs, es).0 ==> Inv(pool, Run(pool, configs, es).1)
  {
    hide Inv, Enabled, Apply, Startup, Loadable;
    if es == [] {
      StartupInv(pool, configs);
    } else {
      var n := |es| - 1;
      RunInv(pool, configs, es[..n]);
      var (ok, s) := Run(pool, configs, es[..n]);
      if ok && Enabled(pool, s, es[n]) { StepKeeps(pool, s, es[n]); }
    }
  }

  /** In every interleaving: a task's count is its number of live workers, a task
      with workers is live, at most one listener serves a slot and keeps it from
      being reused, live tasks differ in name and port, and the pool bound holds. */
  lemma EveryInterleaving(pool: nat, configs: seq<TaskConfig>, es: seq<Event>)
    requires Loadable(configs) && Run(pool, configs, es).0
    ensures var s := Run(pool, configs, es).1;
            |s.slots| == 32 == MAX_TASKS &&
            (forall i | 0 <= i < MAX_TASKS ::
               s.slots[i].workerCount == |Counted(s.workers, i)| &&
               (s.slots[i].workerCount > 0 ==> s.slots[i].initialized && !s.slots[i].deleted)) &&
            (forall l | l in s.listeners :: s.listeners[l].slot < MAX_TASKS && !IsFree(s.slots[s.listeners[l].slot])) &&
            (forall l, m | l in s.listeners && m in s.listeners && s.listeners[l].slot == s.listeners[m].slot ::
               l == m) &&
            (forall i, j | 0 <= i < j < MAX_TASKS && IsLive(s.slots[i]) && IsLive(s.slots[j]) ::
               Key(s.slots[i].config.name) != Key(s.slots[j].config.name) &&
               s.slots[i].config.port != s.slots[j].config.port) &&
            |s.workers| <= pool
  {
    RunInv(pool, configs, es);
    var s := Run(pool, configs, es).1;
    forall i | 0 <= i < MAX_TASKS && s.slots[i].workerCount > 0 ensures IsLive(s.slots[i]) {
      var w :| w in Counted(s.workers, i);
    }
    forall i, j | 0 <= i < j < MAX_TASKS && IsLive(s.slots[i]) && IsLive(s.slots[j])
      ensures !Clash(s.slots[i].config, s.slots[j].config)
    {
    }
  }

  /** Only the panel's initialisation of a chosen slot starts a new generation. */
  lemma WipeIsInit(pool: nat, s: State, e: Event, i: nat)
    requires Enabled(pool, s, e) && i < |s.slots| && |Apply(pool, s, e).slots| == |s.slots|
    requires Apply(pool, s, e).slots[i].generation != s.slots[i].generation
    ensures s.panel.Placing? && s.panel.target == i
  {
    hide NoClash, Listen, Manage;
    match e {
      case ByListener(l, step) => ListenSlot(pool, s, l, step);
      case ByPanel(step) => ManageGeneration(s, step, i);
      case _ =>
    }
  }

  lemma ManageGeneration(s: State, e: PanelStep, i: nat)
    requires CanPanel(s, e) && i < |s.slots| && |Manage(s, e).slots| == |s.slots|
    requires Manage(s, e).slots[i].generation != s.slots[i].generation
    ensures s.panel.Placing? && s.panel.target == i
  {
    hide NoClash;
  }

  /** A step that wipes a slot for a new task never does so under a thread: no
      listener and no counted worker refers to the slot at that moment. */
  lemma WipeIsSafe(pool: nat, s: State, e: Event, i: nat)
    requires Inv(pool, s) && Enabled(pool, s, e) && i < |s.slots| && |Apply(pool, s, e).slots| == |s.slots|
    requires Apply(pool, s, e).slots[i].generation != s.slots[i].generation
    ensures forall l | l in s.listeners :: s.listeners[l].slot != i
    ensures forall w | w in s.workers && IsCounted(s.workers[w]) :: s.workers[w].slot != i
  {
    hide Apply, Enabled, PoolOk, CountsOk, LaunchOk, NoClash, TableOk;
    WipeIsInit(pool, s, e, i);
  }

  /** A thread's slot keeps the generation it was started with, in every reachable
      state, until the thread has ended. */
  lemma NoThreadOutlivesItsTask(pool: nat, configs: seq<TaskConfig>, es: seq<Event>)
    requires Loadable(configs) && Run(pool, configs, es).0
    ensures var s := Run(pool, configs, es).1;
            (forall l | l in s.listeners ::
               s.listeners[l].slot < |s.slots| &&
               s.listeners[l].generation == s.slots[s.listeners[l].slot].generation) &&
            (forall w | w in s.workers && IsCounted(s.workers[w]) ::
               s.workers[w].slot < |s.slots| &&
               s.workers[w].generation == s.slots[s.workers[w].slot].generation)
  {
    RunInv(pool, configs, es);
  }
}
