/**
 The manager of the cron tasks, as a transition system: its own steps, one abort or spawn at a time,
 interleaved with settings writes, tasks that end, timer ticks and the shutdown signal.
 */
module CronManager {
  import opened Wrappers

  datatype Task = Task(name: string, cronExp: string, path: string, timeout: int)

  /** What the manager compares: the cron switch, the tasks and the two script limits. */
  datatype TaskState = TaskState(enabled: bool, tasks: seq<Task>, memoryLimit: nat, timeoutMillis: nat)

  /** `others` are the settings the comparison leaves out. */
  datatype Settings = Settings(taskState: TaskState, others: string)

  /** A spawned task. `generation` only records which round of spawning it belongs to. */
  datatype Handle = Handle(generation: nat, settings: Settings, task: Task, aborted: bool, finished: bool)

  /** Where the manager stands between two of its steps. */
  datatype Phase =
    | Top
    | Reading
    | Aborting(settings: Settings, next: nat)
    | Spawning(settings: Settings)
    | Waiting
    | Ending(next: nat)
    | Ended

  datatype State = State(
    settings: Settings,
    shutdown: bool,
    closed: bool,
    phase: Phase,
    active: seq<nat>,
    last: Option<TaskState>,
    generation: nat,
    handles: seq<Handle>)

  datatype Event =
    | Manager
    | Timer
    | SignalSeen
    | Write(settings: Settings)
    | Signal(value: bool)
    | Close
    | Exit(handle: nat)

  function Initial(settings: Settings): State {
    State(settings, false, false, Top, [], None, 0, [])
  }

  /** The tasks a task state asks for. */
  function Wanted(taskState: TaskState): seq<Task> {
    if taskState.enabled then taskState.tasks else []
  }

  function Abort(handles: seq<Handle>, i: nat): seq<Handle> {
    if i < |handles| then handles[i := handles[i].(aborted := true)] else handles
  }

  function ManagerStep(s: State): State {
    match s.phase
    case Top => s.(phase := if s.shutdown then Ending(0) else Reading)
    case Reading =>
      s.(phase := if s.last == Some(s.settings.taskState) then Waiting else Aborting(s.settings, 0))
    case Aborting(settings, next) =>
      if next < |s.active| then s.(handles := Abort(s.handles, s.active[next]), phase := Aborting(settings, next + 1))
      else s.(active := [], generation := s.generation + 1, phase := Spawning(settings))
    case Spawning(settings) =>
      var k := |s.active|;
      if k < |Wanted(settings.taskState)| then
        s.(active := s.active + [|s.handles|],
           handles := s.handles + [Handle(s.generation, settings, Wanted(settings.taskState)[k], false, false)])
      else s.(last := Some(settings.taskState), phase := Waiting)
    case Waiting => s
    case Ending(next) =>
      if next < |s.active| then s.(handles := Abort(s.handles, s.active[next]), phase := Ending(next + 1))
      else s.(phase := Ended)
    case Ended => s
  }

  function Step(s: State, e: Event): State {
    match e
    case Manager => ManagerStep(s)
    case Timer => if s.phase == Waiting then s.(phase := Top) else s
    case SignalSeen =>
      if s.phase == Waiting then s.(phase := if s.closed || s.shutdown then Ending(0) else Top) else s
    case Write(settings) => s.(settings := settings)
    case Signal(value) => s.(shutdown := value)
    case Close => s.(closed := true)
    case Exit(i) => if i < |s.handles| then s.(handles := s.handles[i := s.handles[i].(finished := true)]) else s
  }

  function Run(settings: Settings, events: seq<Event>): State {
    if events == [] then Initial(settings)
    else Step(Run(settings, events[..|events| - 1]), events[|events| - 1])
  }

  // ---------------------------------------------------------------- what every run keeps

  /** How many of the active handles have been aborted. */
  function Dropped(s: State): nat {
    match s.phase
    case Aborting(_, next) => next
    case Ending(next) => next
    case Ended => |s.active|
    case _ => 0
  }

  /** The settings whose tasks are active: those being spawned, or those last observed. */
  function Observed(s: State): Option<TaskState> {
    if s.phase.Spawning? then Some(s.phase.settings.taskState) else s.last
  }

  /** The handles not yet aborted are exactly the active ones past those dropped. */
  ghost predicate UnabortedAreActive(s: State) {
    && Dropped(s) <= |s.active|
    && (forall k :: 0 <= k < |s.active| ==> s.active[k] < |s.handles|)
    && (forall j, k :: 0 <= j < k < |s.active| ==> s.active[j] < s.active[k])
    && (forall k :: 0 <= k < |s.active| ==> s.handles[s.active[k]].aborted == (k < Dropped(s)))
    && (forall i :: 0 <= i < |s.handles| && i !in s.active ==> s.handles[i].aborted)
  }

  /** These handles are one generation, spawned in order for a task state. */
  ghost predicate SpawnedFor(handles: seq<Handle>, active: seq<nat>, generation: nat, observed: TaskState) {
    && |active| <= |Wanted(observed)|
    && forall k :: 0 <= k < |active| && active[k] < |handles| ==>
         handles[active[k]].generation == generation &&
         handles[active[k]].settings.taskState == observed &&
         handles[active[k]].task == Wanted(observed)[k]
  }

  /** The active handles are spawned for the observed task state, all of them unless spawning is going on. */
  ghost predicate ActiveAreObserved(s: State) {
    && (Observed(s).None? ==> s.active == [])
    && (Observed(s).Some? ==>
         SpawnedFor(s.handles, s.active, s.generation, Observed(s).value) &&
         (!s.phase.Spawning? ==> |s.active| == |Wanted(Observed(s).value)|))
  }

  ghost predicate Invariant(s: State) {
    && UnabortedAreActive(s)
    && ActiveAreObserved(s)
    && (forall i :: 0 <= i < |s.handles| ==> s.handles[i].generation <= s.generation)
  }

  /** Handles that differ in nothing but whether their tasks are aborted or finished. */
  predicate SameSpawns(handles: seq<Handle>, handles': seq<Handle>) {
    && |handles'| == |handles|
    && forall i :: 0 <= i < |handles| ==>
         handles'[i] == handles[i].(aborted := handles'[i].aborted, finished := handles'[i].finished)
  }

  lemma SameSpawnsKept(handles: seq<Handle>, handles': seq<Handle>, active: seq<nat>, generation: nat,
                       observed: TaskState)
    requires SameSpawns(handles, handles') && SpawnedFor(handles, active, generation, observed)
    ensures SpawnedFor(handles', active, generation, observed)
  {
  }

  lemma AbortKeepsActive(s: State, phase: Phase)
    requires UnabortedAreActive(s) && (s.phase.Aborting? || s.phase.Ending?) && s.phase.next < |s.active|
    requires phase == s.phase.(next := s.phase.next + 1)
    ensures UnabortedAreActive(s.(handles := Abort(s.handles, s.active[s.phase.next]), phase := phase))
  {
    var i := s.active[s.phase.next];
    var s' := s.(handles := Abort(s.handles, i), phase := phase);
    forall k | 0 <= k < |s.active| ensures s'.handles[s.active[k]].aborted == (k < Dropped(s')) {
      assert s.handles[s.active[k]].aborted == (k < Dropped(s));
      assert k != s.phase.next ==> s.active[k] != i;
    }
  }

  lemma AbortKeeps(s: State, phase: Phase)
    requires Invariant(s) && (s.phase.Aborting? || s.phase.Ending?) && s.phase.next < |s.active|
    requires phase == s.phase.(next := s.phase.next + 1)
    ensures Invariant(s.(handles := Abort(s.handles, s.active[s.phase.next]), phase := phase))
  {
    var handles' := Abort(s.handles, s.active[s.phase.next]);
    AbortKeepsActive(s, phase);
    assert SameSpawns(s.handles, handles');
    if Observed(s).Some? { SameSpawnsKept(s.handles, handles', s.active, s.generation, Observed(s).value); }
  }

  lemma AllDropped(s: State)
    requires Invariant(s) && s.phase.Aborting? && s.phase.next == |s.active|
    ensures forall i :: 0 <= i < |s.handles| ==> s.handles[i].aborted
  {
    forall i | 0 <= i < |s.handles| ensures s.handles[i].aborted {
      if i in s.active {
        var k :| 0 <= k < |s.active| && s.active[k] == i;
        assert s.handles[s.active[k]].aborted == (k < Dropped(s));
      }
    }
  }

  /** A new handle at the end, active and not aborted, keeps the others' places. */
  lemma SpawnKeepsActive(s: State, h: Handle)
    requires UnabortedAreActive(s) && Dropped(s) == 0 && s.phase.Spawning? && !h.aborted
    ensures UnabortedAreActive(s.(active := s.active + [|s.handles|], handles := s.handles + [h]))
  {
    var n := |s.handles|;
    var active := s.active + [n];
    var handles := s.handles + [h];
    forall k | 0 <= k < |active| ensures active[k] <= n && !handles[active[k]].aborted {
      if k < |s.active| { assert active[k] == s.active[k] < n; }
    }
    forall i | 0 <= i < |handles| && i !in active ensures handles[i].aborted {
      assert active[|s.active|] == n;
      assert i in s.active ==> i in active;
    }
  }

  /** A new handle for the same task state, the next one wanted. */
  lemma SpawnedForSnoc(handles: seq<Handle>, active: seq<nat>, generation: nat, observed: TaskState, h: Handle)
    requires SpawnedFor(handles, active, generation, observed) && |active| < |Wanted(observed)|
    requires forall k :: 0 <= k < |active| ==> active[k] < |handles|
    requires h.generation == generation && h.settings.taskState == observed && h.task == Wanted(observed)[|active|]
    ensures SpawnedFor(handles + [h], active + [|handles|], generation, observed)
  {
    forall k | 0 <= k < |active| ensures (handles + [h])[active[k]] == handles[active[k]] {}
  }

  lemma SpawnKeeps(s: State)
    requires Invariant(s) && s.phase.Spawning? && |s.active| < |Wanted(s.phase.settings.taskState)|
    ensures Invariant(ManagerStep(s))
  {
    var settings := s.phase.settings;
    var h := Handle(s.generation, settings, Wanted(settings.taskState)[|s.active|], false, false);
    SpawnKeepsActive(s, h);
    SpawnedForSnoc(s.handles, s.active, s.generation, settings.taskState, h);
    assert ManagerStep(s) == s.(active := s.active + [|s.handles|], handles := s.handles + [h]);
  }

  /** A change of phase alone. */
  lemma PhaseKeeps(s: State, phase: Phase)
    requires Invariant(s) && Dropped(s.(phase := phase)) == Dropped(s)
    requires !s.phase.Spawning? && !phase.Spawning?
    ensures Invariant(s.(phase := phase))
  {
  }

  lemma AbortingEnds(s: State)
    requires Invariant(s) && s.phase.Aborting? && s.phase.next == |s.active|
    ensures Invariant(ManagerStep(s))
  {
    AllDropped(s);
    assert ActiveAreObserved(ManagerStep(s));
  }

  lemma SpawningEnds(s: State)
    requires Invariant(s) && s.phase.Spawning? && |s.active| == |Wanted(s.phase.settings.taskState)|
    ensures Invariant(ManagerStep(s))
  {
    var s' := ManagerStep(s);
    assert Observed(s') == Observed(s) && s'.handles == s.handles && s'.active == s.active;
    assert UnabortedAreActive(s');
  }

  lemma AbortingKeeps(s: State)
    requires Invariant(s) && s.phase.Aborting?
    ensures Invariant(ManagerStep(s))
  {
    if s.phase.next < |s.active| {
      AbortKeeps(s, Aborting(s.phase.settings, s.phase.next + 1));
    } else {
      AbortingEnds(s);
    }
  }

  lemma EndingKeeps(s: State)
    requires Invariant(s) && s.phase.Ending?
    ensures Invariant(ManagerStep(s))
  {
    if s.phase.next < |s.active| {
      AbortKeeps(s, Ending(s.phase.next + 1));
    } else {
      PhaseKeeps(s, Ended);
    }
  }

  lemma SpawningKeeps(s: State)
    requires Invariant(s) && s.phase.Spawning?
    ensures Invariant(ManagerStep(s))
  {
    if |s.active| < |Wanted(s.phase.settings.taskState)| { SpawnKeeps(s); } else { SpawningEnds(s); }
  }

  lemma ManagerKeeps(s: State)
    requires Invariant(s)
    ensures Invariant(ManagerStep(s))
  {
    match s.phase
    case Top => PhaseKeeps(s, ManagerStep(s).phase);
    case Reading => PhaseKeeps(s, ManagerStep(s).phase);
    case Aborting(_, _) => AbortingKeeps(s);
    case Spawning(_) => SpawningKeeps(s);
    case Waiting =>
    case Ending(_) => EndingKeeps(s);
    case Ended =>
  }

  /** Handles that differ in nothing but whether their tasks have finished. */
  predicate FinishedMore(handles: seq<Handle>, handles': seq<Handle>) {
    && |handles'| == |handles|
    && forall i :: 0 <= i < |handles| ==> handles'[i] == handles[i].(finished := handles'[i].finished)
  }

  lemma FinishedKeepsActive(s: State, handles': seq<Handle>)
    requires FinishedMore(s.handles, handles') && UnabortedAreActive(s)
    ensures UnabortedAreActive(s.(handles := handles'))
  {
  }

  lemma ExitKeeps(s: State, i: nat)
    requires Invariant(s) && i < |s.handles|
    ensures Invariant(s.(handles := s.handles[i := s.handles[i].(finished := true)]))
  {
    var handles' := s.handles[i := s.handles[i].(finished := true)];
    FinishedKeepsActive(s, handles');
    if Observed(s).Some? { SameSpawnsKept(s.handles, handles', s.active, s.generation, Observed(s).value); }
  }

  /** What the server and the signals change is not what the invariant is about. */
  lemma OutsideKeeps(s: State, settings: Settings, shutdown: bool, closed: bool)
    requires Invariant(s)
    ensures Invariant(s.(settings := settings, shutdown := shutdown, closed := closed))
  {
    var s' := s.(settings := settings, shutdown := shutdown, closed := closed);
    assert Dropped(s') == Dropped(s) && Observed(s') == Observed(s);
  }

  lemma StepKeeps(s: State, e: Event)
    requires Invariant(s)
    ensures Invariant(Step(s, e))
  {
    match e
    case Manager => ManagerKeeps(s);
    case Timer => if s.phase == Waiting { PhaseKeeps(s, Top); }
    case SignalSeen => if s.phase == Waiting { PhaseKeeps(s, Step(s, e).phase); }
    case Exit(i) => if i < |s.handles| { ExitKeeps(s, i); }
    case Write(settings) => OutsideKeeps(s, settings, s.shutdown, s.closed);
    case Signal(value) => OutsideKeeps(s, s.settings, value, s.closed);
    case Close => OutsideKeeps(s, s.settings, s.shutdown, true);
  }

  lemma {:induction false} RunKeeps(settings: Settings, events: seq<Event>)
    ensures Invariant(Run(settings, events))
  {
    if events != [] {
      RunKeeps(settings, events[..|events| - 1]);
      StepKeeps(Run(settings, events[..|events| - 1]), events[|events| - 1]);
    }
  }

  /**
   In every run, the tasks not aborted are one generation, all spawned for the task state the manager
   last took up.
   */
  lemma OneGeneration(settings: Settings, events: seq<Event>, i: nat)
    requires i < |Run(settings, events).handles| && !Run(settings, events).handles[i].aborted
    ensures var s := Run(settings, events);
            s.handles[i].generation == s.generation && Observed(s) == Some(s.handles[i].settings.taskState)
  {
    RunKeeps(settings, events);
    var s := Run(settings, events);
    var k :| 0 <= k < |s.active| && s.active[k] == i;
  }

  /** In every run, by the time a task of a later generation exists the earlier generations are aborted. */
  lemma OldAbortedFirst(settings: Settings, events: seq<Event>, i: nat, j: nat)
    requires i < |Run(settings, events).handles| && j < |Run(settings, events).handles|
    requires Run(settings, events).handles[i].generation < Run(settings, events).handles[j].generation
    ensures Run(settings, events).handles[i].aborted
  {
    RunKeeps(settings, events);
    if !Run(settings, events).handles[i].aborted { OneGeneration(settings, events, i); }
  }

  /** In every run, once the manager has ended no task is left that was not aborted. */
  lemma EndAbortsAll(settings: Settings, events: seq<Event>, i: nat)
    requires Run(settings, events).phase == Ended && i < |Run(settings, events).handles|
    ensures Run(settings, events).handles[i].aborted
  {
    RunKeeps(settings, events);
    var s := Run(settings, events);
    if i in s.active {
      var k :| 0 <= k < |s.active| && s.active[k] == i;
      assert s.handles[s.active[k]].aborted == (k < Dropped(s));
    }
  }

  /** The tasks not aborted, in the order they were spawned. */
  function Live(handles: seq<Handle>): seq<Task> {
    if handles == [] then []
    else Live(handles[..|handles| - 1]) +
         (if handles[|handles| - 1].aborted then [] else [handles[|handles| - 1].task])
  }

  /** Increasing positions, nothing live outside them, nothing aborted among them. */
  ghost predicate LiveAt(handles: seq<Handle>, at: seq<nat>) {
    && (forall k :: 0 <= k < |at| ==> at[k] < |handles| && !handles[at[k]].aborted)
    && (forall j, k :: 0 <= j < k < |at| ==> at[j] < at[k])
    && (forall i {:trigger i in at} :: 0 <= i < |handles| && i !in at ==> handles[i].aborted)
  }

  lemma LiveAtEdges(handles: seq<Handle>, at: seq<nat>)
    requires LiveAt(handles, at)
    ensures at != [] ==> handles != []
    ensures forall k :: 0 <= k < |at| && at[k] == |handles| - 1 ==> k == |at| - 1
  {
    if at != [] {
      assert at[|at| - 1] < |handles|;
      forall k | 0 <= k < |at| - 1 ensures at[k] < |handles| - 1 { assert at[k] < at[|at| - 1]; }
    }
  }

  /** Positions of the live handles, with the last handle left off. */
  lemma LiveAtFront(handles: seq<Handle>, at: seq<nat>) returns (at': seq<nat>)
    requires LiveAt(handles, at) && handles != []
    ensures LiveAt(handles[..|handles| - 1], at')
    ensures at == if handles[|handles| - 1].aborted then at' else at' + [|handles| - 1]
  {
    var n := |handles| - 1;
    LiveAtEdges(handles, at);
    if handles[n].aborted {
      at' := at;
    } else {
      assert n in at;
      at' := at[..|at| - 1];
      assert at == at' + [n];
      forall i | 0 <= i < n && i !in at' ensures handles[i].aborted { assert i !in at; }
    }
  }

  /** The list holds the tasks of the handles at these places. */
  predicate TasksAt(live: seq<Task>, handles: seq<Handle>, at: seq<nat>) {
    |live| == |at| && forall k :: 0 <= k < |at| ==> at[k] < |handles| && live[k] == handles[at[k]].task
  }

  lemma TasksAtSnoc(live: seq<Task>, handles: seq<Handle>, at: seq<nat>, h: Handle)
    requires TasksAt(live, handles, at)
    ensures TasksAt(live, handles + [h], at)
    ensures TasksAt(live + [h.task], handles + [h], at + [|handles|])
  {
    assert forall k :: 0 <= k < |at| ==> (handles + [h])[at[k]] == handles[at[k]];
  }

  lemma LiveSnoc(front: seq<Handle>, h: Handle)
    ensures Live(front + [h]) == if h.aborted then Live(front) else Live(front) + [h.task]
  {
    assert (front + [h])[..|front|] == front && Live(front) + [] == Live(front);
  }

  lemma LiveOneMore(front: seq<Handle>, at: seq<nat>, h: Handle)
    requires TasksAt(Live(front), front, at)
    ensures TasksAt(Live(front + [h]), front + [h], if h.aborted then at else at + [|front|])
  {
    LiveSnoc(front, h);
    TasksAtSnoc(Live(front), front, at, h);
  }

  lemma LastOff(handles: seq<Handle>) returns (front: seq<Handle>, h: Handle)
    requires handles != []
    ensures handles == front + [h] && front == handles[..|handles| - 1] && h == handles[|handles| - 1]
    ensures |front| == |handles| - 1
  {
    front, h := handles[..|handles| - 1], handles[|handles| - 1];
  }

  lemma {:induction false} LiveOf(handles: seq<Handle>, at: seq<nat>)
    requires LiveAt(handles, at)
    ensures TasksAt(Live(handles), handles, at)
    decreases |handles|
  {
    if handles == [] {
      LiveAtEdges(handles, at);
    } else {
      var at' := LiveAtFront(handles, at);
      var front, h := LastOff(handles);
      LiveOf(front, at');
      LiveOneMore(front, at', h);
    }
  }

  /** The live tasks are all tasks of the state if cron is switched on in it, and none if it is off. */
  ghost predicate Settled(handles: seq<Handle>, taskState: TaskState) {
    && (taskState.enabled ==> Live(handles) == taskState.tasks)
    && (!taskState.enabled ==> forall i :: 0 <= i < |handles| ==> handles[i].aborted)
  }

  lemma NoPlaces(handles: seq<Handle>, at: seq<nat>)
    requires LiveAt(handles, at) && |at| == 0
    ensures forall i :: 0 <= i < |handles| ==> handles[i].aborted
  {
    forall i | 0 <= i < |handles| ensures handles[i].aborted { assert i !in at; }
  }

  lemma SettledBy(handles: seq<Handle>, at: seq<nat>, taskState: TaskState)
    requires LiveAt(handles, at) && TasksAt(Live(handles), handles, at) && |at| == |Wanted(taskState)|
    requires forall k :: 0 <= k < |at| && at[k] < |handles| ==> handles[at[k]].task == Wanted(taskState)[k]
    ensures Settled(handles, taskState)
  {
    if taskState.enabled {
      forall k | 0 <= k < |at| ensures Live(handles)[k] == taskState.tasks[k] {}
    } else {
      NoPlaces(handles, at);
    }
  }

  lemma {:induction false} WaitingHasObserved(settings: Settings, events: seq<Event>)
    ensures Run(settings, events).phase == Waiting ==> Run(settings, events).last.Some?
  {
    if events != [] { WaitingHasObserved(settings, events[..|events| - 1]); }
  }

  /**
   In every run, while the manager waits it has taken up some task state. If cron is switched on in it, the
   live tasks are its tasks in their order; if not, every task ever spawned is aborted.
   */
  lemma WaitingIsSettled(settings: Settings, events: seq<Event>)
    requires Run(settings, events).phase == Waiting
    ensures Run(settings, events).last.Some?
    ensures var s := Run(settings, events);
            var t := s.last.value;
            (t.enabled ==> Live(s.handles) == t.tasks) &&
            (!t.enabled ==> forall i :: 0 <= i < |s.handles| ==> s.handles[i].aborted)
  {
    RunKeeps(settings, events);
    WaitingHasObserved(settings, events);
    var s := Run(settings, events);
    InvariantSettles(s);
  }

  lemma InvariantSettles(s: State)
    requires Invariant(s) && s.phase == Waiting && s.last.Some?
    ensures Settled(s.handles, s.last.value)
  {
    assert LiveAt(s.handles, s.active);
    LiveOf(s.handles, s.active);
    SettledBy(s.handles, s.active, s.last.value);
  }

  // ---------------------------------------------------------------- shutting down

  /** The manager alone, with the timer waking it. */
  function Alone(s: State, n: nat): State
    decreases n
  {
    if n == 0 then s else Alone(Step(s, if s.phase == Waiting then Timer else Manager), n - 1)
  }

  /** How many steps are left once the shutdown signal is on. */
  function Rank(s: State): nat
    requires Dropped(s) <= |s.active|
  {
    match s.phase
    case Ended => 0
    case Ending(next) => 1 + |s.active| - next
    case Top => 2 + |s.active|
    case Waiting => 3 + |s.active|
    case Reading =>
      if s.last == Some(s.settings.taskState) then 4 + |s.active|
      else 7 + |s.active| + 2 * |Wanted(s.settings.taskState)|
    case Aborting(settings, next) => 6 + (|s.active| - next) + 2 * |Wanted(settings.taskState)|
    case Spawning(settings) =>
      var wanted := |Wanted(settings.taskState)|;
      if |s.active| <= wanted then 4 + |s.active| + 2 * (wanted - |s.active|) else 4 + |s.active|
  }

  lemma EndedAborted(s: State)
    requires Invariant(s) && s.phase == Ended
    ensures forall i :: 0 <= i < |s.handles| ==> s.handles[i].aborted
  {
    forall i | 0 <= i < |s.handles| ensures s.handles[i].aborted {
      if i in s.active {
        var k :| 0 <= k < |s.active| && s.active[k] == i;
        assert s.handles[s.active[k]].aborted == (k < Dropped(s));
      }
    }
  }

  /** Once shutdown is signalled and nobody interferes, the manager ends within `Rank` steps, every task aborted. */
  lemma {:induction false} ShutdownEnds(s: State, n: nat)
    requires Invariant(s) && s.shutdown && Rank(s) <= n
    ensures var end := Alone(s, n);
            end.phase == Ended && forall i :: 0 <= i < |end.handles| ==> end.handles[i].aborted
    decreases n
  {
    if s.phase == Ended {
      EndedStays(s, n);
      EndedAborted(s);
    } else {
      RankFalls(s);
      ShutdownEnds(Step(s, if s.phase == Waiting then Timer else Manager), n - 1);
    }
  }

  lemma {:induction false} EndedStays(s: State, n: nat)
    requires s.phase == Ended
    ensures Alone(s, n) == s
  {
    if n > 0 { EndedStays(s, n - 1); }
  }

  lemma RankFalls(s: State)
    requires Invariant(s) && s.shutdown && s.phase != Ended
    ensures var e := if s.phase == Waiting then Timer else Manager;
            Invariant(Step(s, e)) && Step(s, e).shutdown && Rank(Step(s, e)) < Rank(s)
  {
    StepKeeps(s, if s.phase == Waiting then Timer else Manager);
  }

  // ---------------------------------------------------------------- one pass of the manager

  /** Every handle of before is aborted, and the tasks wanted follow, spawned in order. */
  ghost predicate Respawned(handles: seq<Handle>, settings: Settings, generation: nat,
                            handles': seq<Handle>, active': seq<nat>) {
    var wanted := Wanted(settings.taskState);
    && |handles'| == |handles| + |wanted|
    && |active'| == |wanted|
    && (forall i :: 0 <= i < |handles| ==> handles'[i] == handles[i].(aborted := true))
    && (forall k :: 0 <= k < |wanted| ==> active'[k] == |handles| + k)
    && (forall k :: 0 <= k < |wanted| ==>
         handles'[|handles| + k] == Handle(generation, settings, wanted[k], false, false))
  }

  /** The first `k` active handles are aborted, the others as before. */
  ghost predicate AbortedUpTo(handles: seq<Handle>, active: seq<nat>, handles': seq<Handle>, k: nat) {
    && |handles'| == |handles|
    && (forall i :: 0 <= i < |handles| ==>
         handles'[i] == handles[i] || handles'[i] == handles[i].(aborted := true))
    && (forall j :: 0 <= j < k && j < |active| && active[j] < |handles| ==> handles'[active[j]].aborted)
  }

  lemma AbortedUpToStep(handles: seq<Handle>, active: seq<nat>, handles': seq<Handle>, k: nat)
    requires AbortedUpTo(handles, active, handles', k) && k < |active| && active[k] < |handles|
    ensures AbortedUpTo(handles, active, Abort(handles', active[k]), k + 1)
  {
  }

  lemma AbortedUpToEnd(handles: seq<Handle>, active: seq<nat>, handles': seq<Handle>)
    requires LiveAt(handles, active) && AbortedUpTo(handles, active, handles', |active|)
    ensures forall i :: 0 <= i < |handles| ==> handles'[i] == handles[i].(aborted := true)
  {
    forall i | 0 <= i < |handles| ensures handles'[i] == handles[i].(aborted := true) {
      if i in active {
        var k :| 0 <= k < |active| && active[k] == i;
        assert handles'[active[k]].aborted;
      }
    }
  }

  class CronLoop {
    var handles: seq<Handle>
    var active: seq<nat>
    var last: Option<TaskState>
    var generation: nat

    /** What holds between two passes. */
    ghost predicate Valid()
      reads this
    {
      && LiveAt(handles, active)
      && if last.Some? then Settled(handles, last.value) else forall i :: 0 <= i < |handles| ==> handles[i].aborted
    }

    constructor ()
      ensures handles == [] && active == [] && last == None && Valid()
    {
      handles, active, last, generation := [], [], None, 0;
    }

    method AbortActive()
      requires LiveAt(handles, active)
      modifies this`handles, this`active
      ensures |handles| == |old(handles)| && active == []
      ensures forall i :: 0 <= i < |handles| ==> handles[i] == old(handles)[i].(aborted := true)
    {
      var k := 0;
      while k < |active|
        invariant 0 <= k <= |active| && active == old(active)
        invariant AbortedUpTo(old(handles), active, handles, k)
      {
        handles := Abort(handles, active[k]);
        k := k + 1;
      }
      AbortedUpToEnd(old(handles), active, handles);
      active := [];
    }

    /** One pass over settings just read: nothing when the task state is the one last observed. */
    method Observe(settings: Settings)
      requires Valid()
      modifies this
      ensures Valid() && last == Some(settings.taskState)
      ensures settings.taskState.enabled ==> Live(handles) == settings.taskState.tasks
      ensures !settings.taskState.enabled ==> forall i :: 0 <= i < |handles| ==> handles[i].aborted
      ensures old(last) == Some(settings.taskState) ==>
                handles == old(handles) && active == old(active) && generation == old(generation)
      ensures old(last) != Some(settings.taskState) ==>
                generation == old(generation) + 1 &&
                Respawned(old(handles), settings, generation, handles, active)
    {
      if last == Some(settings.taskState) { return; }
      Respawn(settings);
      last := Some(settings.taskState);
      RespawnedSettles(old(handles), settings, generation, handles, active);
    }

    method Respawn(settings: Settings)
      requires LiveAt(handles, active)
      modifies this`handles, this`active, this`generation
      ensures generation == old(generation) + 1
      ensures Respawned(old(handles), settings, generation, handles, active)
    {
      AbortActive();
      generation := generation + 1;
      ghost var aborted := handles;
      if settings.taskState.enabled {
        var k := 0;
        while k < |settings.taskState.tasks|
          invariant 0 <= k <= |settings.taskState.tasks|
          invariant generation == old(generation) + 1
          invariant |active| == k && |handles| == |aborted| + k && handles[..|aborted|] == aborted
          invariant forall j :: 0 <= j < k ==> active[j] == |aborted| + j
          invariant forall j :: 0 <= j < k ==>
                      handles[|aborted| + j] == Handle(generation, settings, settings.taskState.tasks[j], false, false)
        {
          active := active + [|handles|];
          handles := handles + [Handle(generation, settings, settings.taskState.tasks[k], false, false)];
          k := k + 1;
        }
      }
    }

    method End()
      requires LiveAt(handles, active)
      modifies this`handles, this`active
      ensures |handles| == |old(handles)|
      ensures forall i :: 0 <= i < |handles| ==> handles[i] == old(handles)[i].(aborted := true)
    {
      AbortActive();
    }
  }

  lemma RespawnedIsLive(handles: seq<Handle>, settings: Settings, generation: nat, handles': seq<Handle>,
                        active': seq<nat>)
    requires Respawned(handles, settings, generation, handles', active')
    ensures LiveAt(handles', active')
  {
    forall k | 0 <= k < |active'| ensures active'[k] < |handles'| && !handles'[active'[k]].aborted {
      assert handles'[|handles| + k] == Handle(generation, settings, Wanted(settings.taskState)[k], false, false);
    }
    forall i | |handles| <= i < |handles'| ensures i in active' {
      assert active'[i - |handles|] == i;
    }
  }

  lemma RespawnedSettles(handles: seq<Handle>, settings: Settings, generation: nat, handles': seq<Handle>,
                         active': seq<nat>)
    requires Respawned(handles, settings, generation, handles', active')
    ensures LiveAt(handles', active') && Settled(handles', settings.taskState)
  {
    RespawnedIsLive(handles, settings, generation, handles', active');
    LiveOf(handles', active');
    RespawnedTasks(handles, settings, generation, handles', active');
    SettledBy(handles', active', settings.taskState);
  }

  lemma RespawnedTasks(handles: seq<Handle>, settings: Settings, generation: nat, handles': seq<Handle>,
                       active': seq<nat>)
    requires Respawned(handles, settings, generation, handles', active')
    ensures |active'| == |Wanted(settings.taskState)|
    ensures forall k :: 0 <= k < |active'| && active'[k] < |handles'| ==>
              handles'[active'[k]].task == Wanted(settings.taskState)[k]
  {
    forall k | 0 <= k < |active'| && active'[k] < |handles'|
      ensures handles'[active'[k]].task == Wanted(settings.taskState)[k]
    {
      assert active'[k] == |handles| + k;
      assert handles'[|handles| + k] == Handle(generation, settings, Wanted(settings.taskState)[k], false, false);
    }
  }

  /** The other kind of pass: a task state that was taken up before changes nothing. */
  lemma UnchangedPass(s: State)
    requires s.phase == Reading && s.last == Some(s.settings.taskState)
    ensures Alone(s, 1) == s.(phase := Waiting)
  {
    assert Alone(s, 1) == Alone(ManagerStep(s), 0);
  }

  lemma {:induction false} AloneAdds(s: State, m: nat, n: nat)
    ensures Alone(s, m + n) == Alone(Alone(s, m), n)
    decreases m
  {
    if m > 0 { AloneAdds(Step(s, if s.phase == Waiting then Timer else Manager), m - 1, n); }
  }

  lemma {:induction false} AbortSteps(start: seq<Handle>, s: State, settings: Settings, k: nat)
    requires s.phase == Aborting(settings, k) && k <= |s.active|
    requires LiveAt(start, s.active) && AbortedUpTo(start, s.active, s.handles, k)
    ensures var s' := Alone(s, |s.active| - k + 1);
            s'.phase == Spawning(settings) && s'.active == [] && s'.generation == s.generation + 1 &&
            |s'.handles| == |start| && forall i :: 0 <= i < |start| ==> s'.handles[i] == start[i].(aborted := true)
    decreases |s.active| - k
  {
    var next := ManagerStep(s);
    assert Alone(s, |s.active| - k + 1) == Alone(next, |s.active| - k);
    if k < |s.active| {
      assert s.active[k] < |s.handles|;
      AbortedUpToStep(start, s.active, s.handles, k);
      AbortSteps(start, next, settings, k + 1);
    } else {
      AbortedUpToEnd(start, s.active, s.handles);
    }
  }

  /** Some of the wanted tasks have been spawned. */
  ghost predicate SpawnedSome(start: seq<Handle>, s: State, settings: Settings) {
    var wanted := Wanted(settings.taskState);
    && |s.active| <= |wanted|
    && |s.handles| == |start| + |s.active|
    && s.handles[..|start|] == start
    && (forall k :: 0 <= k < |s.active| ==> s.active[k] == |start| + k)
    && (forall k :: 0 <= k < |s.active| ==>
         s.handles[|start| + k] == Handle(s.generation, settings, wanted[k], false, false))
  }

  lemma {:induction false} SpawnSteps(start: seq<Handle>, s: State, settings: Settings)
    requires s.phase == Spawning(settings) && SpawnedSome(start, s, settings)
    ensures var s' := Alone(s, |Wanted(settings.taskState)| - |s.active| + 1);
            s'.phase == Waiting && s'.last == Some(settings.taskState) && s'.generation == s.generation &&
            SpawnedSome(start, s', settings) && |s'.active| == |Wanted(settings.taskState)|
    decreases |Wanted(settings.taskState)| - |s.active|
  {
    if |s.active| < |Wanted(settings.taskState)| {
      SpawnSteps(start, ManagerStep(s), settings);
    } else {
      assert Alone(s, 1) == Alone(ManagerStep(s), 0);
    }
  }

  lemma SpawnedAreRespawned(handles: seq<Handle>, start: seq<Handle>, s: State, settings: Settings)
    requires |start| == |handles| && forall i :: 0 <= i < |start| ==> start[i] == handles[i].(aborted := true)
    requires SpawnedSome(start, s, settings) && |s.active| == |Wanted(settings.taskState)|
    ensures Respawned(handles, settings, s.generation, s.handles, s.active)
  {
    forall i | 0 <= i < |handles| ensures s.handles[i] == handles[i].(aborted := true) {
      assert s.handles[i] == s.handles[..|start|][i];
    }
  }

  /** The pass up to its first new task: every task it found is aborted. */
  lemma PassAborts(s: State)
    requires Invariant(s) && s.phase == Reading && s.last != Some(s.settings.taskState)
    ensures var s' := Alone(ManagerStep(s), |s.active| + 1);
            s'.phase == Spawning(s.settings) && s'.active == [] && s'.generation == s.generation + 1 &&
            |s'.handles| == |s.handles| &&
            forall i :: 0 <= i < |s.handles| ==> s'.handles[i] == s.handles[i].(aborted := true)
  {
    assert LiveAt(s.handles, s.active);
    AbortSteps(s.handles, ManagerStep(s), s.settings, 0);
  }

  /** The rest of the pass: the wanted tasks are there. */
  lemma PassSpawns(handles: seq<Handle>, s: State, settings: Settings)
    requires s.phase == Spawning(settings) && s.active == [] && |s.handles| == |handles|
    requires forall i :: 0 <= i < |handles| ==> s.handles[i] == handles[i].(aborted := true)
    ensures var s' := Alone(s, |Wanted(settings.taskState)| + 1);
            s'.phase == Waiting && s'.last == Some(settings.taskState) && s'.generation == s.generation &&
            Respawned(handles, settings, s'.generation, s'.handles, s'.active)
  {
    assert s.handles[..|s.handles|] == s.handles;
    SpawnSteps(s.handles, s, settings);
    SpawnedAreRespawned(handles, s.handles, Alone(s, |Wanted(settings.taskState)| + 1), settings);
  }

  lemma AloneInThree(s: State, m: nat, n: nat)
    requires s.phase != Waiting
    ensures Alone(s, m + n + 1) == Alone(Alone(ManagerStep(s), m), n)
  {
    AloneAdds(s, 1, m + n);
    AloneAdds(ManagerStep(s), m, n);
    assert Alone(s, 1) == Alone(ManagerStep(s), 0) == ManagerStep(s);
  }

  /** Uninterrupted, the manager's steps do what one pass of the loop does. */
  lemma StepsAreThePass(s: State)
    requires Invariant(s) && s.phase == Reading && s.last != Some(s.settings.taskState)
    ensures var s' := Alone(s, |s.active| + |Wanted(s.settings.taskState)| + 3);
            s'.phase == Waiting && s'.last == Some(s.settings.taskState) && s'.generation == s.generation + 1 &&
            Respawned(s.handles, s.settings, s'.generation, s'.handles, s'.active)
  {
    PassAborts(s);
    PassSpawns(s.handles, Alone(ManagerStep(s), |s.active| + 1), s.settings);
    AloneInThree(s, |s.active| + 1, |Wanted(s.settings.taskState)| + 1);
  }

  /** What is read at the start of an uninterrupted pass is what the live tasks are at its end. */
  lemma PassSettles(s: State) returns (n: nat)
    requires Invariant(s) && s.phase == Reading
    ensures var t := s.settings.taskState;
            var end := Alone(s, n);
            end.phase == Waiting && end.last == Some(t) &&
            (t.enabled ==> Live(end.handles) == t.tasks) &&
            (!t.enabled ==> forall i :: 0 <= i < |end.handles| ==> end.handles[i].aborted)
  {
    if s.last == Some(s.settings.taskState) {
      UnchangedPass(s);
      n := 1;
    } else {
      StepsAreThePass(s);
      n := |s.active| + |Wanted(s.settings.taskState)| + 3;
    }
    AloneKeeps(s, n);
    InvariantSettles(Alone(s, n));
  }

  lemma {:induction false} AloneKeeps(s: State, n: nat)
    requires Invariant(s)
    ensures Invariant(Alone(s, n))
    decreases n
  {
    if n > 0 {
      StepKeeps(s, if s.phase == Waiting then Timer else Manager);
      AloneKeeps(Step(s, if s.phase == Waiting then Timer else Manager), n - 1);
    }
  }

  /**
   A waiting manager that is told of the signal ends, with every task aborted, if the signal is on or its
   sender is gone; otherwise it begins another pass.
   */
  lemma SignalIsHeeded(s: State)
    requires Invariant(s) && s.phase == Waiting
    ensures var end := Alone(Step(s, SignalSeen), |s.active| + 1);
            s.shutdown || s.closed ==>
              end.phase == Ended && forall i :: 0 <= i < |end.handles| ==> end.handles[i].aborted
    ensures !s.shutdown && !s.closed ==> Alone(Step(s, SignalSeen), 1) == s.(phase := Reading)
  {
    var next := Step(s, SignalSeen);
    StepKeeps(s, SignalSeen);
    if s.shutdown || s.closed {
      EndingRuns(next, 0);
      AloneKeeps(next, |s.active| + 1);
      EndedAborted(Alone(next, |s.active| + 1));
    } else {
      assert Alone(next, 1) == Alone(ManagerStep(next), 0);
    }
  }

  lemma {:induction false} EndingRuns(s: State, k: nat)
    requires s.phase == Ending(k) && k <= |s.active|
    ensures Alone(s, |s.active| - k + 1).phase == Ended
    decreases |s.active| - k
  {
    if k < |s.active| { EndingRuns(ManagerStep(s), k + 1); }
    else { assert Alone(s, 1) == Alone(ManagerStep(s), 0); }
  }
}
