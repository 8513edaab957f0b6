/**
 * The backend's write queue with its latched failure, and the reporting of that failure to listeners
 * that may register or leave while they are being told.
 */
module WriteQueue {
  import opened Wrappers

  type Task = nat
  type Listener = nat

  /**
   * `entries` lists every listener ever registered, in order, as a JavaScript Set under iteration does;
   * `live` are those still registered; `reporting` is how far a report has come. `late` and `log` only
   * record what happened: who registered during a report, and who was told.
   */
  datatype Backend = Backend(
    accepting: bool,
    failed: bool,
    closeViolated: bool,
    reported: bool,
    accepted: seq<Task>,
    committed: seq<Task>,
    pending: seq<Task>,
    inFlight: Option<Task>,
    rejected: bool,
    entries: seq<Listener>,
    live: set<Listener>,
    reporting: Option<nat>,
    late: set<Listener>,
    log: seq<Listener>)

  const FRESH_BACKEND :=
    Backend(true, false, false, false, [], [], [], None, false, [], {}, None, {}, [])

  datatype Event =
    | Mutate(task: Task)
    | StartNext
    | Finish(succeeded: bool)
    | FailElsewhere
    | Close
    | OnFailure(listener: Listener)
    | OffFailure(listener: Listener)
    | ReportNext

  predicate Enabled(backend: Backend, event: Event) {
    match event
    case Mutate(_) => true
    // Only listeners run during a report, and they cannot await.
    case StartNext => backend.pending != [] && backend.inFlight.None? && backend.reporting.None?
    case Finish(_) => backend.inFlight.Some? && backend.reporting.None?
    case FailElsewhere => backend.reporting.None?
    case Close => true
    case OnFailure(listener) => listener !in backend.entries
    case OffFailure(_) => true
    case ReportNext => backend.reporting.Some?
  }

  /** `reportFailure`: once only. */
  function Reported(backend: Backend): Backend {
    if backend.reported then backend else backend.(reported := true, reporting := Some(0))
  }

  /** `recordFailure`: the first failure stays. */
  function Failed(backend: Backend): Backend {
    if backend.failed then backend else Reported(backend.(failed := true))
  }

  function CloseViolated(backend: Backend): Backend {
    if backend.closeViolated then backend else Reported(backend.(closeViolated := true))
  }

  function After(backend: Backend, event: Event): Backend
    requires Enabled(backend, event)
  {
    match event
    case Mutate(task) =>
      if !backend.accepting then
        (if backend.failed then backend else CloseViolated(backend))
      else if backend.failed then backend
      else backend.(accepted := backend.accepted + [task], pending := backend.pending + [task])
    case StartNext =>
      var rest := backend.(pending := backend.pending[1..]);
      // A rejected promise skips the task; a recorded failure makes the task throw before it begins.
      if backend.rejected || backend.failed then Failed(rest.(rejected := true))
      else rest.(inFlight := Some(backend.pending[0]))
    case Finish(succeeded) =>
      var idle := backend.(inFlight := None);
      if succeeded then idle.(committed := backend.committed + [backend.inFlight.value])
      else Failed(idle.(rejected := true))
    case FailElsewhere => Failed(backend)
    case Close => backend.(accepting := false)
    case OnFailure(listener) =>
      backend.(entries := backend.entries + [listener],
               live := backend.live + {listener},
               late := if backend.reporting.Some? then backend.late + {listener} else backend.late,
               log := if backend.failed || backend.closeViolated then backend.log + [listener] else backend.log)
    case OffFailure(listener) => backend.(live := backend.live - {listener})
    case ReportNext =>
      var i := backend.reporting.value;
      if i >= |backend.entries| then backend.(reporting := None)
      else
        backend.(reporting := Some(i + 1),
                 log := if backend.entries[i] in backend.live then backend.log + [backend.entries[i]] else backend.log)
  }

  predicate CanRun(backend: Backend, events: seq<Event>)
    decreases |events|
  {
    events == [] || (Enabled(backend, events[0]) && CanRun(After(backend, events[0]), events[1..]))
  }

  function Run(backend: Backend, events: seq<Event>): Backend
    requires CanRun(backend, events)
    decreases |events|
  {
    if events == [] then backend else Run(After(backend, events[0]), events[1..])
  }

  // --- Commits ---------------------------------------------------------------------------------

  function Running(backend: Backend): seq<Task> {
    if backend.inFlight.Some? then [backend.inFlight.value] else []
  }

  /** How many of the accepted writes have settled; each stands for the promise that was the queue's tail then. */
  function Settled(backend: Backend): int {
    |backend.accepted| - |backend.pending| - |Running(backend)|
  }

  ghost predicate QueueValid(backend: Backend) {
    && (backend.reported <==> backend.failed || backend.closeViolated)
    && (backend.closeViolated ==> !backend.accepting)
    && (backend.rejected ==> backend.failed && backend.inFlight.None?)
    && backend.committed + Running(backend) <= backend.accepted
    && (!backend.failed ==> backend.accepted == backend.committed + Running(backend) + backend.pending)
  }

  lemma MutateKeepsQueue(backend: Backend, task: Task)
    requires QueueValid(backend)
    ensures QueueValid(After(backend, Mutate(task)))
  {
    if backend.accepting && !backend.failed {
      var begun := backend.committed + Running(backend);
      assert (begun + backend.pending) + [task] == begun + (backend.pending + [task]);
    }
  }

  lemma StartKeepsQueue(backend: Backend)
    requires QueueValid(backend) && Enabled(backend, StartNext)
    ensures QueueValid(After(backend, StartNext))
  {
    if !backend.rejected && !backend.failed {
      var next, rest := backend.pending[0], backend.pending[1..];
      assert backend.pending == [next] + rest;
      assert backend.committed + [] + backend.pending == backend.committed + [next] + rest;
      assert backend.committed + [next] <= backend.accepted;
    }
  }

  lemma FinishKeepsQueue(backend: Backend, succeeded: bool)
    requires QueueValid(backend) && Enabled(backend, Finish(succeeded))
    ensures QueueValid(After(backend, Finish(succeeded)))
  {
    var begun := backend.committed + [backend.inFlight.value];
    assert begun + [] == begun && backend.committed + [] == backend.committed;
    assert backend.committed <= begun;
  }

  lemma StepKeepsQueue(backend: Backend, event: Event)
    requires QueueValid(backend) && Enabled(backend, event)
    ensures QueueValid(After(backend, event))
    ensures backend.committed <= After(backend, event).committed
    ensures backend.failed ==> After(backend, event).failed && After(backend, event).accepted == backend.accepted
  {
    match event
    case Mutate(task) => MutateKeepsQueue(backend, task);
    case StartNext => StartKeepsQueue(backend);
    case Finish(succeeded) => FinishKeepsQueue(backend, succeeded);
    case _ =>
  }

  /** Whatever is accepted, fails or is closed when: what is committed is a prefix of what was accepted. */
  lemma {:induction false} CommittedIsPrefix(backend: Backend, events: seq<Event>)
    requires QueueValid(backend) && CanRun(backend, events)
    ensures QueueValid(Run(backend, events))
    ensures Run(backend, events).committed <= Run(backend, events).accepted
    ensures backend.committed <= Run(backend, events).committed
    decreases |events|
  {
    if events != [] {
      StepKeepsQueue(backend, events[0]);
      CommittedIsPrefix(After(backend, events[0]), events[1..]);
    }
  }

  /** Once a failure is recorded, at most the write already under way can still commit. */
  lemma {:induction false} NothingCommitsAfterFailure(backend: Backend, events: seq<Event>)
    requires QueueValid(backend) && CanRun(backend, events) && backend.failed
    ensures var after := Run(backend, events);
            after.committed + Running(after) <= backend.committed + Running(backend)
    decreases |events|
  {
    if events != [] {
      StepKeepsQueue(backend, events[0]);
      NothingCommitsAfterFailure(After(backend, events[0]), events[1..]);
    }
  }

  /** When all accepted writes have settled and no failure is recorded, every one of them is committed. */
  lemma CleanDrainMeansCommitted(backend: Backend)
    requires QueueValid(backend) && Settled(backend) == |backend.accepted| && !backend.failed
    ensures backend.committed == backend.accepted
  {
    assert backend.committed + Running(backend) + backend.pending == backend.committed;
  }

  /** What no step takes back: a closed backend accepts nothing, commits and reports stay. */
  lemma StepOnlyAdds(backend: Backend, event: Event)
    requires QueueValid(backend) && Enabled(backend, event)
    ensures var after := After(backend, event);
            && backend.committed <= after.committed && backend.accepted <= after.accepted
            && (!backend.accepting ==> !after.accepting && after.accepted == backend.accepted)
            && (backend.reported ==> after.reported)
  {
    StepKeepsQueue(backend, event);
  }

  // --- Reports ---------------------------------------------------------------------------------

  function Count(log: seq<Listener>, listener: Listener): nat {
    if log == [] then 0
    else Count(log[..|log| - 1], listener) + if log[|log| - 1] == listener then 1 else 0
  }

  lemma CountSnoc(log: seq<Listener>, told: Listener, listener: Listener)
    ensures Count(log + [told], listener) == Count(log, listener) + if told == listener then 1 else 0
  {
    assert (log + [told])[..|log|] == log;
  }

  /** The listener a step tells, if any. */
  function ToldBy(backend: Backend, event: Event): Option<Listener>
    requires Enabled(backend, event)
  {
    match event
    case OnFailure(listener) => if backend.failed || backend.closeViolated then Some(listener) else None
    case ReportNext =>
      var i := backend.reporting.value;
      if i < |backend.entries| && backend.entries[i] in backend.live then Some(backend.entries[i]) else None
    case _ => None
  }

  lemma LogGrows(backend: Backend, event: Event)
    requires Enabled(backend, event)
    ensures After(backend, event).log
         == if ToldBy(backend, event).Some? then backend.log + [ToldBy(backend, event).value] else backend.log
  {
  }

  /** The report has not yet come to this listener. */
  predicate Ahead(backend: Backend, listener: Listener) {
    backend.reporting.Some? && backend.reporting.value <= |backend.entries|
    && listener in backend.entries[backend.reporting.value..]
  }

  /** How often a registration that stays is told in the end. */
  function Due(backend: Backend, listener: Listener): nat {
    if !backend.reported then 0 else if listener in backend.late then 2 else 1
  }

  ghost predicate ToldValid(backend: Backend, listener: Listener) {
    && (listener !in backend.entries ==> Count(backend.log, listener) == 0 && listener !in backend.late)
    && Count(backend.log, listener) <= Due(backend, listener)
    && (listener in backend.live ==>
          Count(backend.log, listener) + (if Ahead(backend, listener) then 1 else 0) == Due(backend, listener))
    && (Ahead(backend, listener) ==> Count(backend.log, listener) + 1 <= Due(backend, listener))
  }

  ghost predicate EntriesValid(backend: Backend) {
    && (forall i, j :: 0 <= i < j < |backend.entries| ==> backend.entries[i] != backend.entries[j])
    && (forall listener :: listener in backend.live ==> listener in backend.entries)
    && (backend.reporting.Some? ==> backend.reported && backend.reporting.value <= |backend.entries|)
    && (!backend.reported ==> backend.late == {})
  }

  ghost predicate ReportValid(backend: Backend) {
    EntriesValid(backend) && forall listener: Listener :: ToldValid(backend, listener)
  }

  lemma StartingAReport(backend: Backend, listener: Listener)
    requires EntriesValid(backend) && ToldValid(backend, listener) && !backend.reported
    ensures ToldValid(Reported(backend), listener)
  {
    assert backend.entries[0..] == backend.entries;
  }

  lemma RegisteringKeepsTold(backend: Backend, added: Listener, listener: Listener)
    requires QueueValid(backend) && EntriesValid(backend) && ToldValid(backend, listener)
    requires added !in backend.entries
    ensures ToldValid(After(backend, OnFailure(added)), listener)
  {
    var after := After(backend, OnFailure(added));
    CountSnoc(backend.log, added, listener);
    if backend.reporting.Some? {
      var i := backend.reporting.value;
      assert after.entries[i..] == backend.entries[i..] + [added];
    }
  }

  lemma ReportingKeepsTold(backend: Backend, listener: Listener)
    requires EntriesValid(backend) && ToldValid(backend, listener) && backend.reporting.Some?
    ensures ToldValid(After(backend, ReportNext), listener)
  {
    var i := backend.reporting.value;
    if i >= |backend.entries| {
      assert backend.entries[i..] == [];
    } else {
      AheadMoves(backend, listener);
      VisitKeepsTold(backend, listener, backend.entries[i]);
    }
  }

  lemma VisitKeepsTold(backend: Backend, listener: Listener, visited: Listener)
    requires EntriesValid(backend) && ToldValid(backend, listener)
    requires backend.reporting.Some? && backend.reporting.value < |backend.entries|
    requires visited == backend.entries[backend.reporting.value] && Ahead(backend, visited)
    requires Ahead(After(backend, ReportNext), listener) <==> Ahead(backend, listener) && listener != visited
    ensures ToldValid(After(backend, ReportNext), listener)
  {
    CountSnoc(backend.log, visited, listener);
  }

  lemma AheadMoves(backend: Backend, listener: Listener)
    requires EntriesValid(backend) && backend.reporting.Some? && backend.reporting.value < |backend.entries|
    ensures Ahead(backend, backend.entries[backend.reporting.value])
    ensures Ahead(After(backend, ReportNext), listener)
       <==> Ahead(backend, listener) && listener != backend.entries[backend.reporting.value]
  {
    var i := backend.reporting.value;
    var rest := backend.entries[i + 1..];
    assert backend.entries[i..] == [backend.entries[i]] + rest;
    assert forall k :: 0 <= k < |rest| ==> rest[k] == backend.entries[i + 1 + k];
  }

  /** Only the report-related part of the state matters to who was told. */
  lemma SameReportState(backend: Backend, after: Backend, listener: Listener)
    requires ToldValid(backend, listener)
    requires after.entries == backend.entries && after.live <= backend.live && after.late == backend.late
    requires after.log == backend.log && after.reporting == backend.reporting && after.reported == backend.reported
    ensures ToldValid(after, listener)
  {
  }

  lemma StepKeepsEntries(backend: Backend, event: Event)
    requires QueueValid(backend) && EntriesValid(backend) && Enabled(backend, event)
    ensures EntriesValid(After(backend, event))
  {
  }

  /** A step that is no report turn and no registration reports nothing, or starts the report. */
  lemma OtherStepsKeepTold(backend: Backend, event: Event, listener: Listener)
    requires QueueValid(backend) && EntriesValid(backend) && ToldValid(backend, listener) && Enabled(backend, event)
    requires !event.OnFailure? && !event.ReportNext?
    ensures ToldValid(After(backend, event), listener)
  {
    var after := After(backend, event);
    if after.reported == backend.reported {
      SameReportState(backend, after, listener);
    } else {
      StartingAReport(backend, listener);
      SameReportState(Reported(backend), after, listener);
    }
  }

  lemma StepKeepsReports(backend: Backend, event: Event)
    requires QueueValid(backend) && ReportValid(backend) && Enabled(backend, event)
    ensures ReportValid(After(backend, event))
  {
    StepKeepsEntries(backend, event);
    var after := After(backend, event);
    forall listener: Listener ensures ToldValid(after, listener) {
      assert ToldValid(backend, listener);
      match event
      case OnFailure(added) => RegisteringKeepsTold(backend, added, listener);
      case ReportNext => ReportingKeepsTold(backend, listener);
      case _ => OtherStepsKeepTold(backend, event, listener);
    }
  }

  lemma {:induction false} RunKeepsReports(backend: Backend, events: seq<Event>)
    requires QueueValid(backend) && ReportValid(backend) && CanRun(backend, events)
    ensures QueueValid(Run(backend, events)) && ReportValid(Run(backend, events))
    decreases |events|
  {
    if events != [] {
      StepKeepsQueue(backend, events[0]);
      StepKeepsReports(backend, events[0]);
      RunKeepsReports(After(backend, events[0]), events[1..]);
    }
  }

  /**
   * The exact count, in any run: a listener is told at most once if it did not register while a report
   * was in progress, and at most twice if it did; one that stays is told exactly that often.
   */
  lemma ToldExactly(events: seq<Event>, listener: Listener)
    requires CanRun(FRESH_BACKEND, events)
    ensures var after := Run(FRESH_BACKEND, events);
            var most := if listener in after.late then 2 else 1;
            && Count(after.log, listener) <= most
            && (listener in after.live && after.reported && after.reporting.None? ==>
                  Count(after.log, listener) == most)
            && (!after.reported ==> Count(after.log, listener) == 0)
  {
    RunKeepsReports(FRESH_BACKEND, events);
    assert ToldValid(Run(FRESH_BACKEND, events), listener);
  }

  /** Registering from inside a report is what it takes to be told twice, and it happens. */
  lemma LateListenerIsToldTwice()
    ensures var reporting := After(After(After(FRESH_BACKEND, OnFailure(0)), FailElsewhere), ReportNext);
            var registered := After(reporting, OnFailure(1));
            && reporting.log == [0] && 1 in registered.late
            && After(registered, ReportNext).log == [0, 1, 1]
            && After(After(registered, ReportNext), ReportNext).reporting == None
  {
  }

  /** The backend's closure variables and what its calls and callbacks do to them. */
  class CacheBackend {
    var acceptingWrites: bool
    var failure: bool
    var closeViolation: bool
    var failureReported: bool
    var queue: seq<Task>
    var running: Option<Task>
    var queueRejected: bool
    var failureListeners: seq<Listener>
    var registered: set<Listener>
    var reportIndex: Option<nat>
    var acceptedCount: nat
    ghost var accepted: seq<Task>
    ghost var committed: seq<Task>
    ghost var late: set<Listener>
    ghost var log: seq<Listener>

    ghost function View(): Backend
      reads this
    {
      Backend(acceptingWrites, failure, closeViolation, failureReported, accepted, committed, queue, running,
              queueRejected, failureListeners, registered, reportIndex, late, log)
    }

    ghost predicate Valid()
      reads this
    {
      QueueValid(View()) && ReportValid(View()) && acceptedCount == |accepted|
    }

    constructor ()
      ensures Valid() && View() == FRESH_BACKEND
    {
      acceptingWrites, failure, closeViolation, failureReported := true, false, false, false;
      queue, running, queueRejected := [], None, false;
      failureListeners, registered, reportIndex := [], {}, None;
      acceptedCount, accepted, committed, late, log := 0, [], [], {}, [];
    }

    method ReportFailure()
      modifies this`failureReported, this`reportIndex
      ensures View() == Reported(old(View()))
    {
      if !failureReported {
        failureReported, reportIndex := true, Some(0);
      }
    }

    method RecordFailure()
      modifies this`failure, this`failureReported, this`reportIndex
      ensures View() == Failed(old(View()))
    {
      if !failure {
        failure := true;
        ReportFailure();
      }
    }

    /** `mutateStore`, as far as the queue is concerned. */
    method MutateStore(task: Task) returns (queued: bool)
      requires Valid()
      modifies this
      ensures Valid() && View() == After(old(View()), Mutate(task))
      ensures queued <==> old(acceptingWrites) && !old(failure)
      ensures queue == if queued then old(queue) + [task] else old(queue)
      ensures closeViolation <==> old(closeViolation) || (!old(acceptingWrites) && !old(failure))
    {
      StepKeepsQueue(View(), Mutate(task));
      StepKeepsReports(View(), Mutate(task));
      queued := acceptingWrites && !failure;
      if queued {
        queue := queue + [task];
        acceptedCount, accepted := acceptedCount + 1, accepted + [task];
      } else if !acceptingWrites && !failure && !closeViolation {
        closeViolation := true;
        ReportFailure();
      }
    }

    /** The first thing `close` does. */
    method Close()
      requires Valid()
      modifies this`acceptingWrites
      ensures Valid() && View() == After(old(View()), Event.Close) && !acceptingWrites
    {
      StepKeepsQueue(View(), Event.Close);
      StepKeepsReports(View(), Event.Close);
      acceptingWrites := false;
    }

    /** The promise chain reaches the next queued write. */
    method StartNextWrite()
      requires Valid() && Enabled(View(), StartNext)
      modifies this
      ensures Valid() && View() == After(old(View()), StartNext)
      ensures queue == old(queue)[1..]
      ensures running == if old(queueRejected) || old(failure) then None else Some(old(queue)[0])
    {
      StepKeepsQueue(View(), StartNext);
      StepKeepsReports(View(), StartNext);
      var task := queue[0];
      queue := queue[1..];
      if queueRejected || failure {
        queueRejected := true;
        RecordFailure();
      } else {
        running := Some(task);
      }
    }

    method FinishWrite(succeeded: bool)
      requires Valid() && Enabled(View(), Finish(succeeded))
      modifies this
      ensures Valid() && View() == After(old(View()), Finish(succeeded))
      ensures committed == if succeeded then old(committed) + [old(running).value] else old(committed)
      ensures failure <==> old(failure) || !succeeded
    {
      StepKeepsQueue(View(), Finish(succeeded));
      StepKeepsReports(View(), Finish(succeeded));
      if succeeded {
        committed := committed + [running.value];
        running := None;
      } else {
        running, queueRejected := None, true;
        RecordFailure();
      }
    }

    method AddFailureListener(listener: Listener) returns (notified: bool)
      requires Valid() && Enabled(View(), OnFailure(listener))
      modifies this
      ensures Valid() && View() == After(old(View()), OnFailure(listener))
      ensures notified <==> failure || closeViolation
    {
      StepKeepsQueue(View(), OnFailure(listener));
      StepKeepsReports(View(), OnFailure(listener));
      failureListeners, registered := failureListeners + [listener], registered + {listener};
      notified := failure || closeViolation;
      late := if reportIndex.Some? then late + {listener} else late;
      log := if notified then log + [listener] else log;
    }

    /** One turn of the loop over the live set of failure listeners. */
    method NotifyNextListener() returns (notified: Option<Listener>)
      requires Valid() && reportIndex.Some?
      modifies this
      ensures Valid() && View() == After(old(View()), ReportNext)
      ensures log == if notified.Some? then old(log) + [notified.value] else old(log)
    {
      StepKeepsQueue(View(), ReportNext);
      StepKeepsReports(View(), ReportNext);
      notified := None;
      var i := reportIndex.value;
      if i >= |failureListeners| {
        reportIndex := None;
      } else {
        reportIndex := Some(i + 1);
        if failureListeners[i] in registered {
          notified := Some(failureListeners[i]);
          log := log + [failureListeners[i]];
        }
      }
    }
  }
}
