/** The maintenance scheduler: one heavy task at a time, deduplicated submissions, and a shutdown
    that cancels what has not begun to publish. */
module Maintenance {
  import opened Basics
  import opened Gates

  datatype Kind = Compact | GenerationBuild | TextBuild
  datatype TaskState = Queued | Running | Publishing | Failed | Complete
  datatype Task = Task(id: nat, kind: Kind, state: TaskState, aborted: bool)

  /** The entry a settled task leaves behind. */
  datatype Info = Info(id: nat, kind: Kind, state: TaskState)

  datatype SubmitError = Closed | Backpressure

  const HISTORY_LIMIT := 16
  const DEFAULT_MAX_QUEUE: nat := 4

  /** The scheduler's state; `log` lists every settled promise, oldest first. */
  datatype Sched = Sched(
    nextId: nat,
    running: Option<Task>,
    queue: seq<Task>,
    history: seq<Info>,
    closed: bool,
    maxQueue: nat,
    gate: Gate,
    log: seq<Info>)

  function Initial(maxQueue: nat): Sched
  {
    Sched(1, None, [], [], false, maxQueue, Fresh, [])
  }

  function Remember(history: seq<Info>, entry: Info): seq<Info>
  {
    var longer := [entry] + history;
    if |longer| > HISTORY_LIMIT then longer[..HISTORY_LIMIT] else longer
  }

  /** Settle one task's promise and release its tracker entry. */
  function Settle(s: Sched, t: Task, state: TaskState): Sched
  {
    var entry := Info(t.id, t.kind, state);
    s.(history := Remember(s.history, entry), log := s.log + [entry], gate := AfterLeave(s.gate))
  }

  function AfterPump(s: Sched): Sched
  {
    if s.running.Some? || s.queue == [] then s
    else s.(running := Some(s.queue[0].(state := Running)), queue := s.queue[1..])
  }

  predicate Holds(t: Option<Task>, kind: Kind)
  {
    t.Some? && t.value.kind == kind
  }

  function FindKind(queue: seq<Task>, kind: Kind): (r: Option<Task>)
    ensures r.Some? ==> r.value in queue && r.value.kind == kind
    ensures r.None? ==> forall t <- queue :: t.kind != kind
  {
    if queue == [] then None
    else if queue[0].kind == kind then Some(queue[0])
    else FindKind(queue[1..], kind)
  }

  /** The submission becomes a task of its own. */
  predicate Admits(s: Sched, kind: Kind)
  {
    !s.closed && !Holds(s.running, kind) && FindKind(s.queue, kind).None? && |s.queue| < s.maxQueue && s.gate.open
  }

  function SubmitAnswer(s: Sched, kind: Kind): Result<nat, SubmitError>
  {
    if s.closed then Err(Closed)
    else if Holds(s.running, kind) then Ok(s.running.value.id)
    else if FindKind(s.queue, kind).Some? then Ok(FindKind(s.queue, kind).value.id)
    else if |s.queue| >= s.maxQueue then Err(Backpressure)
    else if !s.gate.open then Err(Closed)
    else Ok(s.nextId)
  }

  function AfterSubmit(s: Sched, kind: Kind): Sched
  {
    if !Admits(s, kind) then s
    else AfterPump(s.(nextId := s.nextId + 1, queue := s.queue + [Task(s.nextId, kind, Queued, false)], gate := AfterEnter(s.gate)))
  }

  function AfterFinish(s: Sched, failed: bool): Sched
    requires s.running.Some?
  {
    AfterPump(Settle(s, s.running.value, if failed then Failed else Complete).(running := None))
  }

  function AfterPublishing(s: Sched): Sched
  {
    if s.running.Some? && s.running.value.state.Running? then s.(running := Some(s.running.value.(state := Publishing))) else s
  }

  function AbortIn(queue: seq<Task>, id: nat): seq<Task>
  {
    if queue == [] then []
    else [if queue[0].id == id then queue[0].(aborted := true) else queue[0]] + AbortIn(queue[1..], id)
  }

  function AfterDeadline(s: Sched, id: nat): Sched
  {
    if s.running.Some? && s.running.value.id == id then s.(running := Some(s.running.value.(aborted := true)))
    else s.(queue := AbortIn(s.queue, id))
  }

  function CancelAll(s: Sched, tasks: seq<Task>): Sched
    decreases |tasks|
  {
    if tasks == [] then s else CancelAll(Settle(s, tasks[0], Failed), tasks[1..])
  }

  function AbortRunning(s: Sched): Sched
  {
    if s.running.Some? && !s.running.value.state.Publishing? then s.(running := Some(s.running.value.(aborted := true))) else s
  }

  function AfterShutdown(s: Sched): Sched
  {
    if s.closed then s
    else
      var t := AbortRunning(CancelAll(s.(closed := true, queue := []), s.queue));
      t.(gate := AfterClose(t.gate))
  }

  /** What a close answers: a promise of the drain, or nothing to wait for. */
  function CloseAnswer(s: Sched): Option<nat>
  {
    if s.closed then None else AfterShutdown(s).gate.closing
  }

  class MaintenanceScheduler {
    var nextId: nat
    var running: Option<Task>
    var queue: seq<Task>
    var history: seq<Info>
    var closed: bool
    const tracker: OpTracker
    const maxQueue: nat
    ghost var log: seq<Info>

    ghost function View(): Sched
      reads this, tracker
    {
      Sched(nextId, running, queue, history, closed, maxQueue, tracker.View(), log)
    }

    constructor (maxQueue: nat)
      ensures View() == Initial(maxQueue) && fresh(tracker)
    {
      this.maxQueue := maxQueue;
      nextId, running, queue, history, closed, log := 1, None, [], [], false, [];
      tracker := new OpTracker();
    }

    method Pump()
      modifies this
      ensures View() == AfterPump(old(View()))
    {
      if running.Some? || |queue| == 0 {
        return;
      }
      var task := queue[0];
      queue := queue[1..];
      running := Some(task.(state := Running));
    }

    /** A promise is named by its task's id. */
    method Submit(kind: Kind) returns (promise: Result<nat, SubmitError>)
      modifies this, tracker
      ensures promise == SubmitAnswer(old(View()), kind)
      ensures View() == AfterSubmit(old(View()), kind)
    {
      if closed {
        return Err(Closed);
      }
      if Holds(running, kind) {
        return Ok(running.value.id);
      }
      var queued := FindKind(queue, kind);
      if queued.Some? {
        return Ok(queued.value.id);
      }
      if |queue| >= maxQueue {
        return Err(Backpressure);
      }
      var entered := tracker.Enter();
      if !entered {
        return Err(Closed);
      }
      var task := Task(nextId, kind, Queued, false);
      nextId := nextId + 1;
      queue := queue + [task];
      Pump();
      return Ok(task.id);
    }

    /** The running task's body (or its disk preflight) ended; the next queued task starts in the same step. */
    method Finish(failed: bool)
      requires running.Some? && tracker.count > 0
      modifies this, tracker
      ensures View() == AfterFinish(old(View()), failed)
    {
      var task := running.value;
      Record(task, if failed then Failed else Complete);
      running := None;
      var r := tracker.Leave();
      Pump();
    }

    /** Settle the promise: history keeps the most recent entries, newest first. */
    method Record(task: Task, state: TaskState)
      modifies this
      ensures View() == old(View()).(history := Remember(old(history), Info(task.id, task.kind, state)),
                                     log := old(log) + [Info(task.id, task.kind, state)])
    {
      var entry := Info(task.id, task.kind, state);
      log := log + [entry];
      history := [entry] + history;
      if |history| > HISTORY_LIMIT {
        history := history[..HISTORY_LIMIT];
      }
    }

    method MarkPublishing()
      modifies this
      ensures View() == AfterPublishing(old(View()))
    {
      if running.Some? && running.value.state.Running? {
        running := Some(running.value.(state := Publishing));
      }
    }

    /** The deadline timer of a task fires. */
    method Deadline(id: nat)
      modifies this
      ensures View() == AfterDeadline(old(View()), id)
    {
      if running.Some? && running.value.id == id {
        running := Some(running.value.(aborted := true));
      } else {
        queue := AbortIn(queue, id);
      }
    }

    /** The first call yields the promise of the drain; every later call resolves at once. */
    method Close() returns (drained: Option<nat>)
      modifies this, tracker
      ensures View() == AfterShutdown(old(View()))
      ensures drained == CloseAnswer(old(View()))
    {
      if closed {
        return None;
      }
      closed := true;
      var tasks := queue;
      queue := [];
      var i := 0;
      while i < |tasks|
        invariant 0 <= i <= |tasks|
        invariant CancelAll(View(), tasks[i..]) == CancelAll(old(View()).(closed := true, queue := []), tasks)
      {
        assert tasks[i..][0] == tasks[i] && tasks[i..][1..] == tasks[i + 1..];
        ghost var before := View();
        Record(tasks[i], Failed);
        var r := tracker.Leave();
        assert View() == Settle(before, tasks[i], Failed);
        i := i + 1;
      }
      if running.Some? && !running.value.state.Publishing? {
        running := Some(running.value.(aborted := true));
      }
      var p := tracker.Close();
      return Some(p);
    }
  }

  // ---- runs -----------------------------------------------------------------------------------

  datatype Event =
    | Submit(kind: Kind)
    | Finish(failed: bool)
    | MarkPublishing
    | Deadline(id: nat)
    | Shutdown

  predicate Possible(s: Sched, e: Event)
  {
    e.Finish? ==> s.running.Some?
  }

  function Next(s: Sched, e: Event): Sched
    requires Possible(s, e)
  {
    match e
    case Submit(kind) => AfterSubmit(s, kind)
    case Finish(failed) => AfterFinish(s, failed)
    case MarkPublishing => AfterPublishing(s)
    case Deadline(id) => AfterDeadline(s, id)
    case Shutdown => AfterShutdown(s)
  }

  predicate IsRun(s: Sched, events: seq<Event>)
    decreases |events|
  {
    events == [] || (Possible(s, events[0]) && IsRun(Next(s, events[0]), events[1..]))
  }

  function After(s: Sched, events: seq<Event>): Sched
    requires IsRun(s, events)
    decreases |events|
  {
    if events == [] then s else After(Next(s, events[0]), events[1..])
  }

  /** The unsettled tasks, running one first. */
  function Tasks(s: Sched): seq<Task>
  {
    (if s.running.Some? then [s.running.value] else []) + s.queue
  }

  ghost predicate DistinctKinds(tasks: seq<Task>)
  {
    forall i, j | 0 <= i < j < |tasks| :: tasks[i].kind != tasks[j].kind
  }

  function TaskCount(tasks: seq<Task>, id: nat): nat
  {
    if tasks == [] then 0 else (if tasks[0].id == id then 1 else 0) + TaskCount(tasks[1..], id)
  }

  function LogCount(log: seq<Info>, id: nat): nat
  {
    if log == [] then 0 else LogCount(log[..|log| - 1], id) + (if log[|log| - 1].id == id then 1 else 0)
  }

  /** Conservation: every id handed out names exactly one unsettled task or exactly one settled promise. */
  ghost predicate IdsConserved(s: Sched)
  {
    forall id: nat :: TaskCount(Tasks(s), id) + LogCount(s.log, id) == (if 0 < id < s.nextId then 1 else 0)
  }

  /** The history is the newest part of the log, newest first. */
  ghost predicate HistoryRecent(s: Sched)
  {
    && |s.history| == (if |s.log| < HISTORY_LIMIT then |s.log| else HISTORY_LIMIT)
    && (forall i | 0 <= i < |s.history| :: s.history[i] == s.log[|s.log| - 1 - i])
  }

  /** The guarantees that hold even between the end of a task and the start of the next. */
  ghost predicate Settled(s: Sched)
  {
    && DistinctKinds(Tasks(s))
    && (s.running.Some? ==> s.running.value.state.Running? || s.running.value.state.Publishing?)
    && (forall t <- s.queue :: t.state.Queued?)
    && (s.closed ==> s.queue == [])
    && s.nextId > 0 && IdsConserved(s)
    && HistoryRecent(s)
    // the tracker counts exactly the unsettled tasks and is closed with the scheduler
    && s.gate.count == |Tasks(s)|
    && (s.gate.closed <==> s.closed)
    && Gates.Sound(World(s.gate, {}))
  }

  ghost predicate Sound(s: Sched)
  {
    Settled(s) && (s.queue != [] ==> s.running.Some?)
  }

  lemma {:induction false} TaskCountSnoc(tasks: seq<Task>, t: Task, id: nat)
    ensures TaskCount(tasks + [t], id) == TaskCount(tasks, id) + (if t.id == id then 1 else 0)
  {
    if tasks != [] {
      TaskCountSnoc(tasks[1..], t, id);
      assert (tasks + [t])[1..] == tasks[1..] + [t];
    }
  }

  /** Only ids matter for the count. */
  lemma {:induction false} TaskCountSame(a: seq<Task>, b: seq<Task>, id: nat)
    requires |a| == |b| && forall i | 0 <= i < |a| :: a[i].id == b[i].id
    ensures TaskCount(a, id) == TaskCount(b, id)
  {
    if a != [] {
      TaskCountSame(a[1..], b[1..], id);
    }
  }

  /** Changing nothing but states and abort flags of unsettled tasks keeps the conservation. */
  lemma ConservedSame(s: Sched, u: Sched)
    requires IdsConserved(s) && u.log == s.log && u.nextId == s.nextId
    requires |Tasks(u)| == |Tasks(s)| && forall i | 0 <= i < |Tasks(s)| :: Tasks(u)[i].id == Tasks(s)[i].id
    ensures IdsConserved(u)
  {
    forall id: nat
      ensures TaskCount(Tasks(u), id) + LogCount(u.log, id) == (if 0 < id < u.nextId then 1 else 0)
    {
      TaskCountSame(Tasks(s), Tasks(u), id);
      assert TaskCount(Tasks(s), id) + LogCount(s.log, id) == (if 0 < id < s.nextId then 1 else 0);
    }
  }

  lemma PumpSound(s: Sched)
    requires Settled(s)
    ensures Sound(AfterPump(s))
  {
    var u := AfterPump(s);
    assert |Tasks(u)| == |Tasks(s)|;
    assert forall i | 0 <= i < |Tasks(s)| :: Tasks(u)[i].id == Tasks(s)[i].id && Tasks(u)[i].kind == Tasks(s)[i].kind;
    ConservedSame(s, u);
  }

  /** The task that a submission queues. */
  function Queue(s: Sched, kind: Kind): Sched
  {
    s.(nextId := s.nextId + 1, queue := s.queue + [Task(s.nextId, kind, Queued, false)], gate := AfterEnter(s.gate))
  }

  lemma QueueConserved(s: Sched, kind: Kind)
    requires IdsConserved(s) && s.nextId > 0
    ensures IdsConserved(Queue(s, kind))
  {
    var t := Task(s.nextId, kind, Queued, false);
    var m := Queue(s, kind);
    assert Tasks(m) == Tasks(s) + [t];
    forall id: nat
      ensures TaskCount(Tasks(m), id) + LogCount(m.log, id) == (if 0 < id < m.nextId then 1 else 0)
    {
      TaskCountSnoc(Tasks(s), t, id);
      assert TaskCount(Tasks(s), id) + LogCount(s.log, id) == (if 0 < id < s.nextId then 1 else 0);
    }
  }

  lemma QueueSettled(s: Sched, kind: Kind)
    requires Sound(s) && Admits(s, kind)
    ensures Settled(Queue(s, kind))
  {
    QueueConserved(s, kind);
    assert Tasks(Queue(s, kind)) == Tasks(s) + [Task(s.nextId, kind, Queued, false)];
    assert forall x <- Tasks(s) :: x.kind != kind;
  }

  lemma SubmitSound(s: Sched, kind: Kind)
    requires Sound(s)
    ensures Sound(AfterSubmit(s, kind))
  {
    if Admits(s, kind) {
      QueueSettled(s, kind);
      PumpSound(Queue(s, kind));
    }
  }

  lemma PublishingSound(s: Sched)
    requires Sound(s)
    ensures Sound(AfterPublishing(s))
  {
    ConservedSame(s, AfterPublishing(s));
  }

  lemma {:induction false} AbortInEach(tasks: seq<Task>, id: nat)
    ensures |AbortIn(tasks, id)| == |tasks|
    ensures forall i | 0 <= i < |tasks| ::
              AbortIn(tasks, id)[i] == (if tasks[i].id == id then tasks[i].(aborted := true) else tasks[i])
  {
    if tasks != [] {
      AbortInEach(tasks[1..], id);
    }
  }

  /** The same task, up to its abort flag. */
  predicate SameTask(t: Task, u: Task)
  {
    u == t.(aborted := u.aborted)
  }

  /** Abort flags carry no obligation. */
  lemma FlagsSound(s: Sched, u: Sched)
    requires Sound(s) && u == s.(running := u.running, queue := u.queue)
    requires u.running.Some? <==> s.running.Some?
    requires s.running.Some? ==> SameTask(s.running.value, u.running.value)
    requires |u.queue| == |s.queue| && forall i | 0 <= i < |s.queue| :: SameTask(s.queue[i], u.queue[i])
    ensures Sound(u)
  {
    assert |Tasks(u)| == |Tasks(s)|;
    assert forall i | 0 <= i < |Tasks(s)| :: SameTask(Tasks(s)[i], Tasks(u)[i]);
    ConservedSame(s, u);
  }

  lemma DeadlineSound(s: Sched, id: nat)
    requires Sound(s)
    ensures Sound(AfterDeadline(s, id))
  {
    AbortInEach(s.queue, id);
    FlagsSound(s, AfterDeadline(s, id));
  }

  lemma {:induction false} TaskCountRemove(tasks: seq<Task>, k: nat, id: nat)
    requires k < |tasks|
    ensures TaskCount(tasks, id) == TaskCount(tasks[..k] + tasks[k + 1..], id) + (if tasks[k].id == id then 1 else 0)
  {
    if k == 0 {
      assert tasks[..0] + tasks[1..] == tasks[1..];
    } else {
      TaskCountRemove(tasks[1..], k - 1, id);
      assert (tasks[..k] + tasks[k + 1..])[1..] == tasks[1..][..k - 1] + tasks[1..][k..];
    }
  }

  /** Settling an unsettled task moves its id from the tasks to the log. */
  lemma SettleSound(s: Sched, u: Sched, k: nat, state: TaskState)
    requires Settled(s) && k < |Tasks(s)|
    requires u == Settle(s, Tasks(s)[k], state).(running := u.running, queue := u.queue)
    requires Tasks(u) == Tasks(s)[..k] + Tasks(s)[k + 1..]
    requires (u.running.None? || u.running == s.running) && forall t <- u.queue :: t in s.queue
    ensures Settled(u)
  {
    LeaveSound(World(s.gate, {}));
    forall id: nat
      ensures TaskCount(Tasks(u), id) + LogCount(u.log, id) == (if 0 < id < u.nextId then 1 else 0)
    {
      assert TaskCount(Tasks(s), id) + LogCount(s.log, id) == (if 0 < id < s.nextId then 1 else 0);
      assert u.log[..|u.log| - 1] == s.log;
      TaskCountRemove(Tasks(s), k, id);
    }
  }

  lemma FinishSound(s: Sched, failed: bool)
    requires Sound(s) && s.running.Some?
    ensures Sound(AfterFinish(s, failed))
  {
    var state := if failed then Failed else Complete;
    var m := Settle(s, s.running.value, state).(running := None);
    assert Tasks(s)[0] == s.running.value && Tasks(m) == Tasks(s)[..0] + Tasks(s)[1..];
    SettleSound(s, m, 0, state);
    PumpSound(m);
  }

  /** Shutdown has taken `tasks` out of the queue; putting the rest back, nothing is lost. */
  lemma {:induction false} CancelSound(s: Sched, tasks: seq<Task>)
    requires s.running.Some? && s.closed && s.queue == [] && Settled(s.(closed := false, queue := tasks))
    ensures var u := CancelAll(s, tasks);
      u.running == s.running && u.closed && u.queue == [] && Settled(u.(closed := false))
    ensures |CancelAll(s, tasks).log| == |s.log| + |tasks| && s.log <= CancelAll(s, tasks).log
    ensures CancelAll(s, tasks).maxQueue == s.maxQueue
    decreases |tasks|
  {
    if tasks == [] {
      assert s.(closed := false, queue := tasks) == s.(closed := false);
    } else {
      var full := s.(closed := false, queue := tasks);
      var u := Settle(s, tasks[0], Failed);
      var rest := u.(closed := false, queue := tasks[1..]);
      assert Tasks(full) == [s.running.value] + tasks;
      assert Tasks(rest) == [s.running.value] + tasks[1..];
      SettleSound(full, rest, 1, Failed);
      CancelSound(u, tasks[1..]);
    }
  }

  /** The state after the queue has been cancelled, before the tracker's gate closes. */
  lemma QueueCancelled(s: Sched)
    requires Sound(s) && !s.closed
    ensures var m := CancelAll(s.(closed := true, queue := []), s.queue);
      m.running == s.running && m.closed && m.queue == [] && Settled(m.(closed := false)) &&
      |m.log| == |s.log| + |s.queue| && s.log <= m.log && m.maxQueue == s.maxQueue
  {
    var emptied := s.(closed := true, queue := []);
    assert emptied.(closed := false, queue := s.queue) == s;
    if s.running.Some? {
      CancelSound(emptied, s.queue);
    } else {
      assert CancelAll(emptied, s.queue) == emptied;
    }
  }

  lemma AbortAndClose(m: Sched)
    requires m.closed && m.queue == [] && Settled(m.(closed := false))
    ensures var v := AbortRunning(m); Sound(v.(gate := AfterClose(v.gate)))
  {
    var open := m.(closed := false);
    var v := AbortRunning(m);
    FlagsSound(open, v.(closed := false));
    CloseSound(World(v.gate, {}));
    ConservedSame(open, v.(gate := AfterClose(v.gate)));
  }

  lemma ShutdownSound(s: Sched)
    requires Sound(s)
    ensures Sound(AfterShutdown(s))
    ensures s.log <= AfterShutdown(s).log && AfterShutdown(s).maxQueue == s.maxQueue
  {
    if !s.closed {
      QueueCancelled(s);
      AbortAndClose(CancelAll(s.(closed := true, queue := []), s.queue));
    }
  }

  lemma NextSound(s: Sched, e: Event)
    requires Sound(s) && Possible(s, e)
    ensures Sound(Next(s, e)) && s.log <= Next(s, e).log && Next(s, e).maxQueue == s.maxQueue
  {
    match e
    case Submit(kind) => SubmitSound(s, kind);
    case Finish(failed) => FinishSound(s, failed);
    case MarkPublishing => PublishingSound(s);
    case Deadline(id) => DeadlineSound(s, id);
    case Shutdown => ShutdownSound(s);
  }

  // ---- guarantees over whole runs -------------------------------------------------------------

  lemma InitialSound(maxQueue: nat)
    ensures Sound(Initial(maxQueue))
  {
    var s := Initial(maxQueue);
    forall id: nat
      ensures TaskCount(Tasks(s), id) + LogCount(s.log, id) == (if 0 < id < s.nextId then 1 else 0)
    {
      assert Tasks(s) == [];
    }
  }

  /** Over every run: one running task, pairwise distinct kinds, no stalled queue, and a log that
      only grows, so that a settled promise stays settled and is never settled again. */
  lemma {:induction false} SchedulerSound(s: Sched, events: seq<Event>)
    requires Sound(s) && IsRun(s, events)
    ensures Sound(After(s, events)) && s.log <= After(s, events).log
    ensures After(s, events).maxQueue == s.maxQueue
    decreases |events|
  {
    if events != [] {
      NextSound(s, events[0]);
      SchedulerSound(Next(s, events[0]), events[1..]);
    }
  }

  lemma {:induction false} CountBound(log: seq<Info>, i: nat, j: nat)
    requires i < j < |log| && log[i].id == log[j].id
    ensures LogCount(log, log[i].id) >= 2
    decreases |log|
  {
    if j < |log| - 1 {
      CountBound(log[..|log| - 1], i, j);
    } else {
      CountAtLeast(log[..|log| - 1], i);
    }
  }

  lemma {:induction false} CountAtLeast(log: seq<Info>, i: nat)
    requires i < |log|
    ensures LogCount(log, log[i].id) >= 1
    decreases |log|
  {
    if i < |log| - 1 {
      CountAtLeast(log[..|log| - 1], i);
    }
  }

  /** An id that is handed out once is settled at most once. */
  lemma SettledOnce(s: Sched, i: nat, j: nat)
    requires IdsConserved(s) && i < j < |s.log|
    ensures s.log[i].id != s.log[j].id
  {
    var id := s.log[i].id;
    assert TaskCount(Tasks(s), id) + LogCount(s.log, id) <= 1;
    if id == s.log[j].id {
      CountBound(s.log, i, j);
    }
  }

  /** Exactly once: no promise is settled twice in any run. */
  lemma SettledAtMostOnce(events: seq<Event>, maxQueue: nat, i: nat, j: nat)
    requires IsRun(Initial(maxQueue), events)
    requires i < j < |After(Initial(maxQueue), events).log|
    ensures After(Initial(maxQueue), events).log[i].id != After(Initial(maxQueue), events).log[j].id
  {
    InitialSound(maxQueue);
    SchedulerSound(Initial(maxQueue), events);
    SettledOnce(After(Initial(maxQueue), events), i, j);
  }

  lemma TwoQueuedCoverTheKinds(s: Sched, kind: Kind)
    requires Sound(s) && |s.queue| >= 2
    ensures Holds(s.running, kind) || FindKind(s.queue, kind).Some?
  {
    var tasks := Tasks(s);
    assert tasks[1] == s.queue[0] && tasks[2] == s.queue[1];
    assert tasks[0].kind != tasks[1].kind && tasks[0].kind != tasks[2].kind && tasks[1].kind != tasks[2].kind;
  }

  /** Three kinds of tasks cannot fill a queue: only a limit below two lets backpressure fire. */
  lemma BackpressureNeedsTinyQueue(s: Sched, kind: Kind)
    requires Sound(s) && SubmitAnswer(s, kind) == Err(Backpressure)
    ensures s.maxQueue <= 1
  {
    if |s.queue| >= 2 {
      TwoQueuedCoverTheKinds(s, kind);
    }
  }

  lemma DefaultNeverBackpressures(events: seq<Event>, kind: Kind)
    requires IsRun(Initial(DEFAULT_MAX_QUEUE), events)
    ensures SubmitAnswer(After(Initial(DEFAULT_MAX_QUEUE), events), kind) != Err(Backpressure)
  {
    InitialSound(DEFAULT_MAX_QUEUE);
    SchedulerSound(Initial(DEFAULT_MAX_QUEUE), events);
    var s := After(Initial(DEFAULT_MAX_QUEUE), events);
    if SubmitAnswer(s, kind) == Err(Backpressure) {
      BackpressureNeedsTinyQueue(s, kind);
    }
  }

  /** Shutdown: everything queued is cancelled, a publishing task is left alone, any other running
      task is aborted, and the drain promise resolves only once every promise is settled. */
  lemma ShutdownGuarantees(s: Sched)
    requires Sound(s) && !s.closed
    ensures var u := AfterShutdown(s);
      u.closed && u.queue == [] && |u.log| == |s.log| + |s.queue| &&
      (s.running.None? ==> u.running.None?) &&
      (s.running.Some? && s.running.value.state.Publishing? ==> u.running == s.running) &&
      (s.running.Some? && !s.running.value.state.Publishing? ==> u.running == Some(s.running.value.(aborted := true)))
  {
    QueueCancelled(s);
  }

  lemma DrainedMeansIdle(s: Sched)
    requires Sound(s) && s.closed && s.gate.closing.value in s.gate.resolved
    ensures Tasks(s) == []
  {
  }

  lemma DrainedMeansSettled(s: Sched, id: nat)
    requires Sound(s) && s.closed && s.gate.closing.value in s.gate.resolved
    requires 0 < id < s.nextId
    ensures s.running.None? && s.queue == []
    ensures LogCount(s.log, id) == 1
  {
    assert Tasks(s) == [];
    assert TaskCount(Tasks(s), id) + LogCount(s.log, id) == 1;
  }

  /** A close has nothing to wait for. */
  ghost predicate ResolvesAtOnce(s: Sched)
  {
    CloseAnswer(s).None? || CloseAnswer(s).value in AfterShutdown(s).gate.resolved
  }

  /** The exact condition: a close resolves at once although tasks are unsettled if and only if it is a later call
      and tasks are unsettled by then. The first call resolves at once exactly if nothing is running. */
  lemma CloseTooEarlyExactly(s: Sched)
    requires Sound(s)
    ensures ResolvesAtOnce(s) && Tasks(AfterShutdown(s)) != [] <==> s.closed && Tasks(s) != []
    ensures !s.closed ==> (ResolvesAtOnce(s) <==> s.running.None?)
  {
    ShutdownSound(s);
    if !s.closed {
      ShutdownGuarantees(s);
      if ResolvesAtOnce(s) {
        DrainedMeansIdle(AfterShutdown(s));
      }
    }
  }

  /** It happens: a task is submitted, the scheduler is closed, and a second close does not wait for the task. */
  lemma SecondCloseTooEarly(maxQueue: nat, kind: Kind)
    requires maxQueue > 0
    ensures var run := [Submit(kind), Shutdown];
      && IsRun(Initial(maxQueue), run)
      && var s := After(Initial(maxQueue), run);
      && ResolvesAtOnce(s) && Tasks(AfterShutdown(s)) != []
  {
    var run := [Submit(kind), Shutdown];
    var one := AfterSubmit(Initial(maxQueue), kind);
    var two := AfterShutdown(one);
    assert one.running.Some? && two.running.Some?;
    assert run[1..] == [Shutdown] && run[1..][1..] == [];
    assert After(two, []) == two && After(one, [Shutdown]) == two;
  }
}
