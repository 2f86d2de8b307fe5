/** Alamofire's RequestTaskMap and the rendezvous of task completion and task metrics in Session. */
module TaskMap {
  import opened Options

  type Task = nat
  type Request = nat
  /** The closure passed to didCompleteTask. */
  type Completion = nat

  datatype Events = Events(completed: bool, metricsGathered: bool)

  datatype Maps = Maps(tasksToRequests: map<Task, Request>,
                       requestsToTasks: map<Request, Task>,
                       taskEvents: map<Task, Events>)

  /** The two maps are inverse to each other, and the events are about the same tasks. */
  ghost predicate Consistent(m: Maps) {
    && (forall t :: t in m.tasksToRequests ==>
          m.tasksToRequests[t] in m.requestsToTasks && m.requestsToTasks[m.tasksToRequests[t]] == t)
    && (forall r :: r in m.requestsToTasks ==>
          m.requestsToTasks[r] in m.tasksToRequests && m.tasksToRequests[m.requestsToTasks[r]] == r)
    && m.taskEvents.Keys == m.tasksToRequests.Keys
  }

  function Associate(m: Maps, r: Request, t: Task): Maps {
    Maps(m.tasksToRequests[t := r], m.requestsToTasks[r := t], m.taskEvents[t := Events(false, false)])
  }

  function Remove(m: Maps, r: Request, t: Task): Maps {
    Maps(m.tasksToRequests - {t}, m.requestsToTasks - {r}, m.taskEvents - {t})
  }

  /** Outcome of the disassociateIfNecessary methods; `Fatal` is a consistency fatalError. */
  datatype Outcome = Fatal | Kept(maps: Maps) | Disassociated(maps: Maps)

  function Disassociate(m: Maps, t: Task): Outcome {
    if t !in m.tasksToRequests then Fatal else Disassociated(Remove(m, m.tasksToRequests[t], t))
  }

  function AfterMetrics(m: Maps, t: Task): Outcome {
    if t !in m.taskEvents then Fatal
    else if m.taskEvents[t].metricsGathered then Fatal
    else if m.taskEvents[t].completed then Disassociate(m, t)
    else Kept(m.(taskEvents := m.taskEvents[t := Events(false, true)]))
  }

  function AfterCompletion(m: Maps, t: Task): Outcome {
    if t !in m.taskEvents then Fatal
    else if m.taskEvents[t].completed then Fatal
    else if m.taskEvents[t].metricsGathered then Disassociate(m, t)
    else Kept(m.(taskEvents := m.taskEvents[t := Events(true, false)]))
  }

  // ---------------------------------------------------------------- the map alone

  /** Assigning a task keeps the maps inverse exactly when neither the request nor the task already
      belongs to another. */
  lemma {:induction false} AssociateConsistent(m: Maps, r: Request, t: Task)
    requires Consistent(m)
    ensures Consistent(Associate(m, r, t)) <==>
              && (r in m.requestsToTasks ==> m.requestsToTasks[r] == t)
              && (t in m.tasksToRequests ==> m.tasksToRequests[t] == r)
  {
    var m' := Associate(m, r, t);
    if r in m.requestsToTasks && m.requestsToTasks[r] != t {
      var other := m.requestsToTasks[r];
      assert other in m'.tasksToRequests && m'.tasksToRequests[other] == r;
      assert !Consistent(m');
    } else if t in m.tasksToRequests && m.tasksToRequests[t] != r {
      var other := m.tasksToRequests[t];
      assert other in m'.requestsToTasks && m'.requestsToTasks[other] == t;
      assert !Consistent(m');
    }
  }

  lemma {:induction false} RemoveConsistent(m: Maps, t: Task)
    requires Consistent(m) && t in m.tasksToRequests
    ensures Consistent(Remove(m, m.tasksToRequests[t], t))
  {
  }

  /** The preconditions of `count`, `eventCount`, `isEmpty` and `isEventsEmpty` always hold. */
  lemma {:induction false} CountsAgree(m: Maps)
    requires Consistent(m)
    ensures |m.tasksToRequests| == |m.requestsToTasks| == |m.taskEvents|
    ensures m.tasksToRequests == map[] <==> m.requestsToTasks == map[]
    decreases |m.tasksToRequests|
  {
    assert |m.taskEvents| == |m.taskEvents.Keys| == |m.tasksToRequests.Keys|;
    if m.tasksToRequests == map[] {
      assert m.requestsToTasks == map[];
    } else {
      var t :| t in m.tasksToRequests;
      var r := m.tasksToRequests[t];
      var m' := Remove(m, r, t);
      RemoveConsistent(m, t);
      assert m'.tasksToRequests.Keys == m.tasksToRequests.Keys - {t};
      assert m'.requestsToTasks.Keys == m.requestsToTasks.Keys - {r};
      CountsAgree(m');
    }
  }

  // ---------------------------------------------------------------- the session

  /** The session's maps and waiting completions, with the history of events and of completions run. */
  datatype State = State(maps: Maps, waiting: map<Task, Completion>, fatal: bool,
                         created: set<Task>, gathered: set<Task>, completed: map<Task, Completion>,
                         ran: map<Task, seq<Completion>>)

  datatype Event = Create(request: Request, task: Task)
                 | MetricsGathered(task: Task)
                 | TaskCompleted(task: Task, completion: Completion)

  /** A task is new and its request has no live task; each task reports its metrics once and completes
      once, in either order. */
  predicate Enabled(s: State, e: Event) {
    match e
    case Create(r, t) => t !in s.created && r !in s.maps.requestsToTasks
    case MetricsGathered(t) => t in s.created && t !in s.gathered
    case TaskCompleted(t, c) => t in s.created && t !in s.completed
  }

  function Ran(s: State, t: Task): seq<Completion> {
    if t in s.ran then s.ran[t] else []
  }

  function DidGatherMetrics(s: State, t: Task): State {
    match AfterMetrics(s.maps, t)
    case Fatal => s.(fatal := true)
    case Kept(maps) => s.(maps := maps)
    case Disassociated(maps) =>
      // waitingCompletions[task]?(), and then its removal
      if t in s.waiting
      then s.(maps := maps, waiting := s.waiting - {t}, ran := s.ran[t := Ran(s, t) + [s.waiting[t]]])
      else s.(maps := maps)
  }

  function DidComplete(s: State, t: Task, c: Completion): State {
    match AfterCompletion(s.maps, t)
    case Fatal => s.(fatal := true)
    case Kept(maps) => s.(maps := maps, waiting := s.waiting[t := c])
    case Disassociated(maps) => s.(maps := maps, ran := s.ran[t := Ran(s, t) + [c]])
  }

  function Next(s: State, e: Event): State {
    match e
    case Create(r, t) => s.(maps := Associate(s.maps, r, t), created := s.created + {t})
    case MetricsGathered(t) => DidGatherMetrics(s, t).(gathered := s.gathered + {t})
    case TaskCompleted(t, c) => DidComplete(s, t, c).(completed := s.completed[t := c])
  }

  function Init(): State {
    State(Maps(map[], map[], map[]), map[], false, {}, {}, map[], map[])
  }

  predicate Legal(s: State, es: seq<Event>)
    decreases |es|
  {
    es == [] || (Enabled(s, es[0]) && Legal(Next(s, es[0]), es[1..]))
  }

  function Run(s: State, es: seq<Event>): State
    decreases |es|
  {
    if es == [] then s else Run(Next(s, es[0]), es[1..])
  }

  /** What the history says about task `t`. */
  ghost predicate TaskInv(s: State, t: Task) {
    var done, metrics := t in s.completed, t in s.gathered;
    && (t in s.maps.taskEvents <==> t in s.created && !(done && metrics))
    && (t in s.maps.taskEvents ==> s.maps.taskEvents[t] == Events(done, metrics))
    && (done || metrics ==> t in s.created)
    && (t in s.waiting <==> done && !metrics)
    && (t in s.waiting ==> s.waiting[t] == s.completed[t])
    && Ran(s, t) == (if done && metrics then [s.completed[t]] else [])
  }

  ghost predicate Inv(s: State) {
    && !s.fatal && Consistent(s.maps)
    && forall t: Task :: TaskInv(s, t)
  }

  lemma {:induction false} CreateKeeps(s: State, r: Request, t: Task)
    requires Inv(s) && Enabled(s, Create(r, t))
    ensures Inv(Next(s, Create(r, t)))
  {
    AssociateConsistent(s.maps, r, t);
    assert TaskInv(s, t);
    forall u: Task ensures TaskInv(Next(s, Create(r, t)), u) { assert TaskInv(s, u); }
  }

  lemma {:induction false} MetricsKeeps(s: State, t: Task)
    requires Inv(s) && Enabled(s, MetricsGathered(t))
    ensures Inv(Next(s, MetricsGathered(t)))
  {
    assert TaskInv(s, t);
    if t in s.completed { RemoveConsistent(s.maps, t); }
    forall u: Task ensures TaskInv(Next(s, MetricsGathered(t)), u) { assert TaskInv(s, u); }
  }

  lemma {:induction false} CompletionKeeps(s: State, t: Task, c: Completion)
    requires Inv(s) && Enabled(s, TaskCompleted(t, c))
    ensures Inv(Next(s, TaskCompleted(t, c)))
  {
    assert TaskInv(s, t);
    if t in s.gathered { RemoveConsistent(s.maps, t); }
    forall u: Task ensures TaskInv(Next(s, TaskCompleted(t, c)), u) { assert TaskInv(s, u); }
  }

  lemma {:induction false} RunKeeps(s: State, es: seq<Event>)
    requires Inv(s) && Legal(s, es)
    ensures Inv(Run(s, es))
    decreases |es|
  {
    hide Inv, Enabled;
    if es != [] {
      match es[0] {
        case Create(r, t) => CreateKeeps(s, r, t);
        case MetricsGathered(t) => MetricsKeeps(s, t);
        case TaskCompleted(t, c) => CompletionKeeps(s, t, c);
      }
      RunKeeps(Next(s, es[0]), es[1..]);
    }
  }

  /** In every run: no consistency fatalError; the maps stay inverse with the events on the same tasks;
      exactly the completed tasks without metrics wait; and the completion of a task runs once, with the
      closure it was given, when both events have happened and not before. */
  lemma {:induction false} EveryRun(es: seq<Event>, t: Task)
    requires Legal(Init(), es)
    ensures var s := Run(Init(), es);
            && !s.fatal && Consistent(s.maps)
            && (t in s.waiting <==> t in s.completed && t !in s.gathered)
            && Ran(s, t) == (if t in s.completed && t in s.gathered then [s.completed[t]] else [])
  {
    assert Inv(Init());
    RunKeeps(Init(), es);
    assert TaskInv(Run(Init(), es), t);
  }

  // ---------------------------------------------------------------- what the events decide

  lemma {:induction false} LegalPrefix(s: State, es: seq<Event>)
    requires es != [] && Legal(s, es)
    ensures var n := |es| - 1;
            Legal(s, es[..n]) && Enabled(Run(s, es[..n]), es[n]) && Run(s, es) == Next(Run(s, es[..n]), es[n])
    decreases |es|
  {
    hide Enabled, Next;
    if |es| > 1 {
      LegalPrefix(Next(s, es[0]), es[1..]);
      assert es[..|es| - 1][1..] == es[1..][..|es| - 2];
    }
  }

  /** The events that the state remembers of task `t` are those that happened. */
  ghost predicate EventsRecorded(es: seq<Event>, s: State, t: Task) {
    && (t in s.created <==> exists r :: Create(r, t) in es)
    && (t in s.gathered <==> MetricsGathered(t) in es)
    && (forall c :: t in s.completed && s.completed[t] == c <==> TaskCompleted(t, c) in es)
  }

  /** The request of task `t` is the one that it was created for. */
  ghost predicate OwnerRecorded(es: seq<Event>, s: State, t: Task) {
    t in s.maps.tasksToRequests ==> forall r :: s.maps.tasksToRequests[t] == r <==> Create(r, t) in es
  }

  ghost predicate Recorded(es: seq<Event>, s: State, t: Task) {
    EventsRecorded(es, s, t) && OwnerRecorded(es, s, t)
  }

  lemma {:induction false} EventStep(es: seq<Event>, s: State, e: Event, t: Task)
    requires Enabled(s, e) && EventsRecorded(es, s, t)
    ensures EventsRecorded(es + [e], Next(s, e), t)
  {
    hide AfterMetrics, AfterCompletion;
    assert forall x :: x in es + [e] <==> x in es || x == e;
  }

  lemma {:induction false} OwnerStep(es: seq<Event>, s: State, e: Event, t: Task)
    requires Inv(s) && Enabled(s, e) && Recorded(es, s, t)
    ensures OwnerRecorded(es + [e], Next(s, e), t)
  {
    assert forall x :: x in es + [e] <==> x in es || x == e;
    if e.Create? {
      assert TaskInv(s, t);
    } else {
      KeepsOwner(s, e, t);
    }
  }

  lemma {:induction false} KeepsOwner(s: State, e: Event, t: Task)
    requires !e.Create?
    ensures var m, m' := s.maps.tasksToRequests, Next(s, e).maps.tasksToRequests;
            t in m' ==> t in m && m'[t] == m[t]
  {
  }

  lemma {:induction false} RecordStep(es: seq<Event>, s: State, e: Event, t: Task)
    requires Inv(s) && Enabled(s, e) && Recorded(es, s, t)
    ensures Recorded(es + [e], Next(s, e), t)
  {
    hide Inv, Next, EventsRecorded, OwnerRecorded;
    EventStep(es, s, e, t);
    OwnerStep(es, s, e, t);
  }

  lemma {:induction false} RunRecords(es: seq<Event>, t: Task)
    requires Legal(Init(), es)
    ensures Inv(Run(Init(), es)) && Recorded(es, Run(Init(), es), t)
    decreases |es|
  {
    hide Enabled, Next, Legal, Inv;
    assert Inv(Init()) by { InitInv(); }
    RunKeeps(Init(), es);
    if es != [] {
      var n := |es| - 1;
      LegalPrefix(Init(), es);
      RunRecords(es[..n], t);
      RecordStep(es[..n], Run(Init(), es[..n]), es[n], t);
      assert es == es[..n] + [es[n]];
    }
  }

  lemma {:induction false} InitInv()
    ensures Inv(Init())
  {
  }

  /** In every run the events alone decide: a task belongs to the request it was created for until it has both
      completed and reported its metrics; if only completed, its completion waits; after both, that
      completion has run, once. */
  lemma {:induction false} EventsDecide(es: seq<Event>, t: Task)
    requires Legal(Init(), es)
    ensures var s, metrics := Run(Init(), es), MetricsGathered(t) in es;
            && (forall r :: t in s.maps.tasksToRequests && s.maps.tasksToRequests[t] == r
                            <==> Create(r, t) in es && !(metrics && exists c :: TaskCompleted(t, c) in es))
            && (forall c :: t in s.waiting && s.waiting[t] == c <==> TaskCompleted(t, c) in es && !metrics)
            && (forall c: Completion :: Ran(s, t) == [c] <==> TaskCompleted(t, c) in es && metrics)
            && (Ran(s, t) == [] <==> !(metrics && exists c :: TaskCompleted(t, c) in es))
  {
    hide Legal, Next, Run;
    RunRecords(es, t);
    var s := Run(Init(), es);
    assert TaskInv(s, t);
    assert t in s.maps.taskEvents <==> t in s.maps.tasksToRequests;
    if t in s.completed { assert TaskCompleted(t, s.completed[t]) in es; }
  }

  /** After every run, an event reaches a consistency fatalError exactly if its task was never created or the
      same kind of event has happened to it before. */
  lemma {:induction false} FatalExactly(es: seq<Event>, e: Event)
    requires Legal(Init(), es)
    ensures var s := Run(Init(), es);
            match e
            case Create(_, _) => !Next(s, e).fatal
            case MetricsGathered(t) =>
              Next(s, e).fatal <==> MetricsGathered(t) in es || forall r :: Create(r, t) !in es
            case TaskCompleted(t, _) =>
              Next(s, e).fatal <==> (exists c :: TaskCompleted(t, c) in es) || forall r :: Create(r, t) !in es
  {
    hide Legal, Run;
    RunRecords(es, e.task);
    var s := Run(Init(), es);
    assert TaskInv(s, e.task);
    if e.task in s.completed { assert TaskCompleted(e.task, s.completed[e.task]) in es; }
  }

  // ---------------------------------------------------------------- the objects

  class RequestTaskMap {
    var tasksToRequests: map<Task, Request>
    var requestsToTasks: map<Request, Task>
    var taskEvents: map<Task, Events>

    function Now(): Maps
      reads this
    {
      Maps(tasksToRequests, requestsToTasks, taskEvents)
    }

    constructor ()
      ensures Now() == Maps(map[], map[], map[])
    {
      tasksToRequests, requestsToTasks, taskEvents := map[], map[], map[];
    }

    /** self[request] = newValue; `ok` is false on a fatalError. */
    method SetTask(request: Request, newValue: Option<Task>) returns (ok: bool)
      modifies this
      ensures newValue.Some? ==> ok && Now() == Associate(old(Now()), request, newValue.value)
      ensures newValue.None? ==> (ok <==> request in old(requestsToTasks))
      ensures newValue.None? && ok ==> Now() == Remove(old(Now()), request, old(requestsToTasks[request]))
    {
      if newValue.None? {
        if request !in requestsToTasks { return false; }
        var task := requestsToTasks[request];
        requestsToTasks := requestsToTasks - {request};
        tasksToRequests := tasksToRequests - {task};
        taskEvents := taskEvents - {task};
        return true;
      }
      requestsToTasks := requestsToTasks[request := newValue.value];
      tasksToRequests := tasksToRequests[newValue.value := request];
      taskEvents := taskEvents[newValue.value := Events(false, false)];
      return true;
    }

    /** self[task] = newValue. */
    method SetRequest(task: Task, newValue: Option<Request>) returns (ok: bool)
      modifies this
      ensures newValue.Some? ==> ok && Now() == Associate(old(Now()), newValue.value, task)
      ensures newValue.None? ==> (ok <==> task in old(tasksToRequests))
      ensures newValue.None? && ok ==> Now() == Remove(old(Now()), old(tasksToRequests[task]), task)
    {
      if newValue.None? {
        if task !in tasksToRequests { return false; }
        var request := tasksToRequests[task];
        tasksToRequests := tasksToRequests - {task};
        requestsToTasks := requestsToTasks - {request};
        taskEvents := taskEvents - {task};
        return true;
      }
      tasksToRequests := tasksToRequests[task := newValue.value];
      requestsToTasks := requestsToTasks[newValue.value := task];
      taskEvents := taskEvents[task := Events(false, false)];
      return true;
    }

    method DisassociateAfterMetrics(task: Task) returns (ok: bool, disassociated: bool)
      modifies this
      ensures match AfterMetrics(old(Now()), task)
              case Fatal => !ok
              case Kept(maps) => ok && !disassociated && Now() == maps
              case Disassociated(maps) => ok && disassociated && Now() == maps
    {
      if task !in taskEvents || taskEvents[task].metricsGathered { return false, false; }
      if taskEvents[task].completed {
        ok := SetRequest(task, None);
        return ok, true;
      }
      taskEvents := taskEvents[task := Events(false, true)];
      return true, false;
    }

    method DisassociateAfterCompletion(task: Task) returns (ok: bool, disassociated: bool)
      modifies this
      ensures match AfterCompletion(old(Now()), task)
              case Fatal => !ok
              case Kept(maps) => ok && !disassociated && Now() == maps
              case Disassociated(maps) => ok && disassociated && Now() == maps
    {
      if task !in taskEvents || taskEvents[task].completed { return false, false; }
      if taskEvents[task].metricsGathered {
        ok := SetRequest(task, None);
        return ok, true;
      }
      taskEvents := taskEvents[task := Events(true, false)];
      return true, false;
    }
  }

  class Session {
    const requestTaskMap: RequestTaskMap
    var waitingCompletions: map<Task, Completion>
    ghost var created: set<Task>
    ghost var gathered: set<Task>
    ghost var completed: map<Task, Completion>
    var ran: map<Task, seq<Completion>>

    ghost function Now(): State
      reads this, requestTaskMap
    {
      State(requestTaskMap.Now(), waitingCompletions, false, created, gathered, completed, ran)
    }

    constructor ()
      ensures Now() == Init() && fresh(requestTaskMap)
    {
      requestTaskMap := new RequestTaskMap();
      waitingCompletions, ran := map[], map[];
      created, gathered, completed := {}, {}, map[];
    }

    method RunCompletion(task: Task, completion: Completion)
      modifies this`ran
      ensures ran == old(ran)[task := Ran(old(Now()), task) + [completion]]
    {
      ran := ran[task := (if task in ran then ran[task] else []) + [completion]];
    }

    /** didCreateURLRequest, where a task is created for the request. */
    method DidCreateTask(request: Request, task: Task)
      requires Inv(Now()) && Enabled(Now(), Create(request, task))
      modifies this, requestTaskMap
      ensures Inv(Now()) && Now() == Next(old(Now()), Create(request, task))
    {
      CreateKeeps(Now(), request, task);
      var _ := requestTaskMap.SetTask(request, Some(task));
      created := created + {task};
    }

    method DidGatherMetricsForTask(task: Task)
      requires Inv(Now()) && Enabled(Now(), MetricsGathered(task))
      modifies this, requestTaskMap
      ensures Inv(Now()) && Now() == Next(old(Now()), MetricsGathered(task))
    {
      MetricsKeeps(Now(), task);
      hide Inv;
      var ok, didDisassociate := requestTaskMap.DisassociateAfterMetrics(task);
      if didDisassociate && task in waitingCompletions {
        RunCompletion(task, waitingCompletions[task]);
        waitingCompletions := waitingCompletions - {task};
      }
      gathered := gathered + {task};
    }

    method DidCompleteTask(task: Task, completion: Completion)
      requires Inv(Now()) && Enabled(Now(), TaskCompleted(task, completion))
      modifies this, requestTaskMap
      ensures Inv(Now()) && Now() == Next(old(Now()), TaskCompleted(task, completion))
    {
      CompletionKeeps(Now(), task, completion);
      hide Inv;
      var ok, didDisassociate := requestTaskMap.DisassociateAfterCompletion(task);
      if didDisassociate {
        RunCompletion(task, completion);
      } else {
        waitingCompletions := waitingCompletions[task := completion];
      }
      completed := completed[task := completion];
    }
  }
}
