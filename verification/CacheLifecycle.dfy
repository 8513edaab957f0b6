/** Binding a session to its cache backend, and what `flushed` and a failure report then mean. */
module CacheLifecycle {
  import opened Wrappers
  import WriteQueue

  type Backend = WriteQueue.Backend

  /** `reports` records the sessions whose failure was handed on. */
  datatype Lifecycle = Lifecycle(
    writerSession: Option<string>,
    active: Option<string>,
    failed: bool,
    reportedSession: Option<string>,
    reports: seq<string>)

  function Created(writerSession: Option<string>): Lifecycle {
    Lifecycle(writerSession, None, false, None, [])
  }

  /** A session id that JavaScript takes for true: an empty one counts as not bound. */
  predicate IsBound(active: Option<string>) {
    active.Some? && active.value != ""
  }

  function ReportFailure(lifecycle: Lifecycle): Lifecycle {
    var failed := lifecycle.(failed := true);
    if !IsBound(failed.active) || failed.reportedSession == failed.active then failed
    else failed.(reportedSession := failed.active, reports := failed.reports + [failed.active.value])
  }

  predicate MayBind(lifecycle: Lifecycle, session: string) {
    && (lifecycle.writerSession.Some? ==> lifecycle.writerSession.value == session)
    && (IsBound(lifecycle.active) ==> lifecycle.active.value == session)
  }

  function Bound(lifecycle: Lifecycle, session: string): Lifecycle
    requires MayBind(lifecycle, session)
  {
    var bound := lifecycle.(active := Some(session));
    if bound.failed then ReportFailure(bound) else bound
  }

  // --- Calls of flush and stop -----------------------------------------------------------------

  datatype Kind = Flushing | Stopping

  /**
   * Where a call stands between two awaits: `close` waits for admissions and the refresh loop; the drain
   * loop waits for the promise that was the tail of the queue after `captured` writes; it has resolved or
   * thrown; the call has been answered.
   */
  datatype Phase = Closing | Draining(captured: nat) | Drained(clean: bool) | Answered(result: bool)

  /** `begun` is how many writes had been accepted when the call was made. */
  datatype Call = Call(kind: Kind, begun: nat, phase: Phase)

  /** The lifecycle is the backend's failure listener number 0, registered when it is created. */
  const OWN_LISTENER: WriteQueue.Listener := 0

  datatype System = System(backend: Option<Backend>, lifecycle: Lifecycle, calls: map<nat, Call>)

  /** There is a backend exactly when there is a writer session. */
  function CreatedSystem(writerSession: Option<string>): System {
    var backend := WriteQueue.After(WriteQueue.FRESH_BACKEND, WriteQueue.OnFailure(OWN_LISTENER));
    System(if writerSession.Some? then Some(backend) else None, Created(writerSession), map[])
  }

  datatype Event =
    | Backend(event: WriteQueue.Event)
    | Bind(session: string)
    | Begin(id: nat, kind: Kind, session: string)
    | FinishClosing(id: nat)
    | Resume(id: nat, threw: bool)
    | Answer(id: nat)

  /** Listeners run within one turn, so nothing that awaited continues during a report. */
  predicate Quiet(system: System) {
    system.backend.Some? ==> system.backend.value.reporting.None?
  }

  /**
   * The promise the drain loop waits for has settled. Whether it rejected is known if it is the last one;
   * of an earlier one only that it did not reject if none has.
   */
  predicate MayResume(backend: Backend, captured: nat, threw: bool) {
    && captured <= WriteQueue.Settled(backend)
    && (threw ==> backend.rejected)
    && (captured == |backend.accepted| && backend.rejected ==> threw)
  }

  predicate Enabled(system: System, event: Event) {
    match event
    case Backend(inner) =>
      system.backend.Some? && WriteQueue.Enabled(system.backend.value, inner) && inner != WriteQueue.OffFailure(OWN_LISTENER)
    case Bind(_) => true
    case Begin(id, _, _) => id !in system.calls
    case FinishClosing(id) => id in system.calls && system.calls[id].phase.Closing? && system.backend.Some? && Quiet(system)
    case Resume(id, threw) =>
      id in system.calls && system.calls[id].phase.Draining? && system.backend.Some? && Quiet(system)
      && MayResume(system.backend.value, system.calls[id].phase.captured, threw)
    case Answer(id) => id in system.calls && system.calls[id].phase.Drained? && Quiet(system)
  }

  function Accepted(system: System): nat {
    if system.backend.Some? then |system.backend.value.accepted| else 0
  }

  function WithPhase(system: System, id: nat, phase: Phase): System
    requires id in system.calls
  {
    system.(calls := system.calls[id := system.calls[id].(phase := phase)])
  }

  /** `flush` and `close` up to their first await: a call for another session throws and leaves no trace. */
  function Begun(system: System, id: nat, kind: Kind, session: string): System {
    if system.lifecycle.active != Some(session) then system
    else if system.lifecycle.failed then
      system.(lifecycle := ReportFailure(system.lifecycle),
              calls := system.calls[id := Call(kind, Accepted(system), Answered(false))])
    else
      var phase := if system.backend.None? then Drained(true)
                   else if kind.Stopping? then Closing
                   else Draining(Accepted(system));
      var closed := if kind.Stopping? && system.backend.Some?
                    then system.(backend := Some(WriteQueue.After(system.backend.value, WriteQueue.Close)))
                    else system;
      closed.(calls := system.calls[id := Call(kind, Accepted(system), phase)])
  }

  /** One turn of the drain loop, after its await: it throws, goes round again, or checks for a recorded failure. */
  function Resumed(backend: Backend, captured: nat, threw: bool): Phase {
    if threw then Drained(false)
    else if captured != |backend.accepted| then Draining(|backend.accepted|)
    else Drained(!backend.failed && !backend.closeViolated)
  }

  /** What is left of `flush` and `close` once the backend's promise has settled. */
  function Settle(system: System, id: nat): System
    requires id in system.calls && system.calls[id].phase.Drained?
  {
    if system.calls[id].phase.clean then
      WithPhase(system, id, Answered(system.calls[id].kind.Flushing? || !system.lifecycle.failed))
    else
      WithPhase(system.(lifecycle := ReportFailure(system.lifecycle)), id, Answered(false))
  }

  /** The backend's step, and the lifecycle's share in it if it is the listener that is told. */
  function BackendStep(backend: Backend, lifecycle: Lifecycle, event: WriteQueue.Event): (Backend, Lifecycle)
    requires WriteQueue.Enabled(backend, event)
  {
    var after := WriteQueue.After(backend, event);
    var told := |after.log| > |backend.log| && after.log[|after.log| - 1] == OWN_LISTENER;
    (after, if told then ReportFailure(lifecycle) else lifecycle)
  }

  function After(system: System, event: Event): System
    requires Enabled(system, event)
  {
    match event
    case Backend(inner) =>
      var step := BackendStep(system.backend.value, system.lifecycle, inner);
      system.(backend := Some(step.0), lifecycle := step.1)
    case Bind(session) =>
      if MayBind(system.lifecycle, session) then system.(lifecycle := Bound(system.lifecycle, session)) else system
    case Begin(id, kind, session) => Begun(system, id, kind, session)
    case FinishClosing(id) => WithPhase(system, id, Draining(Accepted(system)))
    case Resume(id, threw) =>
      WithPhase(system, id, Resumed(system.backend.value, system.calls[id].phase.captured, threw))
    case Answer(id) => Settle(system, id)
  }

  predicate CanRun(system: System, events: seq<Event>)
    decreases |events|
  {
    events == [] || (Enabled(system, events[0]) && CanRun(After(system, events[0]), events[1..]))
  }

  function Run(system: System, events: seq<Event>): System
    requires CanRun(system, events)
    decreases |events|
  {
    if events == [] then system else Run(After(system, events[0]), events[1..])
  }

  // --- What every state satisfies --------------------------------------------------------------

  /** A failure is reported once to the bound session, and only then. */
  ghost predicate ReportedOnce(lifecycle: Lifecycle) {
    && lifecycle.reports == (if lifecycle.failed && IsBound(lifecycle.active) then [lifecycle.active.value] else [])
    && (lifecycle.reportedSession
        == if lifecycle.failed && IsBound(lifecycle.active) then lifecycle.active else None)
  }

  ghost predicate BackendValid(backend: Backend) {
    && WriteQueue.QueueValid(backend) && WriteQueue.ReportValid(backend)
    && OWN_LISTENER in backend.live && OWN_LISTENER !in backend.late
  }

  /** The lifecycle knows of a failure once it was told, and of none that was not recorded. */
  ghost predicate Informed(backend: Backend, lifecycle: Lifecycle) {
    && (WriteQueue.Count(backend.log, OWN_LISTENER) > 0 ==> lifecycle.failed)
    && (lifecycle.failed ==> backend.reported)
  }

  predicate Committed(backend: Backend, call: Call) {
    && call.begun <= |backend.committed|
    && (call.kind.Stopping? ==> !backend.accepting && backend.committed == backend.accepted)
  }

  predicate CallValid(backend: Backend, call: Call) {
    && call.begun <= |backend.accepted|
    && match call.phase
       case Closing => call.kind.Stopping? && !backend.accepting
       case Draining(captured) => captured <= |backend.accepted| && (call.kind.Stopping? ==> !backend.accepting)
       case Drained(clean) => if clean then Committed(backend, call) else backend.reported
       case Answered(result) => if result then Committed(backend, call) else backend.reported
  }

  ghost predicate CallsValid(backend: Backend, calls: map<nat, Call>) {
    forall id :: id in calls ==> CallValid(backend, calls[id])
  }

  ghost predicate Valid(system: System) {
    && ReportedOnce(system.lifecycle)
    && match system.backend
       case Some(backend) =>
         BackendValid(backend) && Informed(backend, system.lifecycle) && CallsValid(backend, system.calls)
       case None =>
         !system.lifecycle.failed
         && forall id :: id in system.calls ==> system.calls[id].phase in {Drained(true), Answered(true)}
  }

  lemma CreatedSystemValid(writerSession: Option<string>)
    ensures Valid(CreatedSystem(writerSession))
  {
    WriteQueue.StepKeepsReports(WriteQueue.FRESH_BACKEND, WriteQueue.OnFailure(OWN_LISTENER));
    WriteQueue.StepKeepsQueue(WriteQueue.FRESH_BACKEND, WriteQueue.OnFailure(OWN_LISTENER));
  }

  lemma BackendStepTells(backend: Backend, event: WriteQueue.Event)
    requires WriteQueue.Enabled(backend, event)
    ensures var after := WriteQueue.After(backend, event);
            && (after.log == backend.log
                || (after.log != [] && after.log[..|after.log| - 1] == backend.log))
            && WriteQueue.Count(after.log, OWN_LISTENER) == WriteQueue.Count(backend.log, OWN_LISTENER)
               + if |after.log| > |backend.log| && after.log[|after.log| - 1] == OWN_LISTENER then 1 else 0
  {
    var after := WriteQueue.After(backend, event);
    WriteQueue.LogGrows(backend, event);
    var told := WriteQueue.ToldBy(backend, event);
    if told.Some? {
      WriteQueue.CountSnoc(backend.log, told.value, OWN_LISTENER);
      assert after.log[..|after.log| - 1] == backend.log;
    }
  }

  lemma ReportKeepsOnce(lifecycle: Lifecycle, session: string)
    requires ReportedOnce(lifecycle)
    ensures ReportedOnce(ReportFailure(lifecycle)) && ReportFailure(lifecycle).failed
    ensures MayBind(lifecycle, session) ==>
              ReportedOnce(Bound(lifecycle, session)) && Bound(lifecycle, session).failed == lifecycle.failed
  {
  }

  lemma OwnListenerStays(backend: Backend, event: WriteQueue.Event)
    requires WriteQueue.Enabled(backend, event) && event != WriteQueue.OffFailure(OWN_LISTENER)
    requires OWN_LISTENER in backend.entries && OWN_LISTENER in backend.live && OWN_LISTENER !in backend.late
    ensures var after := WriteQueue.After(backend, event);
            OWN_LISTENER in after.live && OWN_LISTENER !in after.late
  {
    match event
    case OnFailure(listener) => assert listener != OWN_LISTENER;
    case OffFailure(listener) => assert listener != OWN_LISTENER;
    case _ => assert WriteQueue.After(backend, event).live == backend.live;
  }

  lemma BackendStepKeepsValid(backend: Backend, event: WriteQueue.Event)
    requires BackendValid(backend) && WriteQueue.Enabled(backend, event) && event != WriteQueue.OffFailure(OWN_LISTENER)
    ensures BackendValid(WriteQueue.After(backend, event))
  {
    WriteQueue.StepKeepsQueue(backend, event);
    WriteQueue.StepKeepsReports(backend, event);
    OwnListenerStays(backend, event);
  }

  /** The lifecycle is told exactly when a report reaches it, and then a failure has been recorded. */
  lemma BackendStepInforms(backend: Backend, lifecycle: Lifecycle, event: WriteQueue.Event)
    requires BackendValid(backend) && WriteQueue.Enabled(backend, event) && event != WriteQueue.OffFailure(OWN_LISTENER)
    requires Informed(backend, lifecycle) && ReportedOnce(lifecycle)
    ensures var step := BackendStep(backend, lifecycle, event);
            Informed(step.0, step.1) && ReportedOnce(step.1)
  {
    BackendStepKeepsValid(backend, event);
    BackendStepTells(backend, event);
    ReportKeepsOnce(lifecycle, "");
    WriteQueue.StepOnlyAdds(backend, event);
    var after := WriteQueue.After(backend, event);
    assert WriteQueue.ToldValid(after, OWN_LISTENER);
  }

  /** No step of the backend invalidates what calls rely on. */
  lemma BackendStepKeepsCalls(backend: Backend, calls: map<nat, Call>, event: WriteQueue.Event)
    requires WriteQueue.QueueValid(backend) && WriteQueue.Enabled(backend, event) && CallsValid(backend, calls)
    ensures CallsValid(WriteQueue.After(backend, event), calls)
  {
    WriteQueue.StepOnlyAdds(backend, event);
    WriteQueue.StepKeepsQueue(backend, event);
    var after := WriteQueue.After(backend, event);
    forall id | id in calls ensures CallValid(after, calls[id]) {
      assert CallValid(backend, calls[id]);
      if Committed(backend, calls[id]) && calls[id].kind.Stopping? {
        NothingLeftToCommit(backend, after);
      }
    }
  }

  lemma NothingLeftToCommit(backend: Backend, after: Backend)
    requires backend.committed == backend.accepted == after.accepted
    requires backend.committed <= after.committed && after.committed <= after.accepted
    ensures after.committed == after.accepted
  {
  }

  /** A drain that comes to its end without throwing leaves every accepted write committed. */
  lemma ResumeKeepsCall(backend: Backend, call: Call, threw: bool)
    requires BackendValid(backend) && CallValid(backend, call) && call.phase.Draining?
    requires MayResume(backend, call.phase.captured, threw)
    ensures CallValid(backend, call.(phase := Resumed(backend, call.phase.captured, threw)))
  {
    var phase := Resumed(backend, call.phase.captured, threw);
    if phase == Drained(true) {
      WriteQueue.CleanDrainMeansCommitted(backend);
    }
  }

  lemma BeginKeepsValid(system: System, id: nat, kind: Kind, session: string)
    requires Valid(system) && id !in system.calls
    ensures Valid(Begun(system, id, kind, session))
  {
    ReportKeepsOnce(system.lifecycle, "");
    if system.backend.Some? && system.lifecycle.active == Some(session) {
      var backend := system.backend.value;
      if kind.Stopping? && !system.lifecycle.failed {
        BackendStepKeepsValid(backend, WriteQueue.Close);
        BackendStepKeepsCalls(backend, system.calls, WriteQueue.Close);
      }
    }
  }

  lemma AnswerKeepsValid(system: System, id: nat)
    requires Valid(system) && Enabled(system, Answer(id))
    ensures Valid(Settle(system, id))
  {
    ReportKeepsOnce(system.lifecycle, "");
    if system.backend.Some? {
      var backend := system.backend.value;
      assert CallValid(backend, system.calls[id]);
      forall other | other in system.calls ensures CallValid(backend, Settle(system, id).calls[other]) {
        assert CallValid(backend, system.calls[other]);
      }
    }
  }

  lemma StepKeepsValid(system: System, event: Event)
    requires Valid(system) && Enabled(system, event)
    ensures Valid(After(system, event))
  {
    match event
    case Backend(inner) =>
      BackendStepKeepsValid(system.backend.value, inner);
      BackendStepInforms(system.backend.value, system.lifecycle, inner);
      BackendStepKeepsCalls(system.backend.value, system.calls, inner);
    case Bind(session) => ReportKeepsOnce(system.lifecycle, session);
    case Begin(id, kind, session) => BeginKeepsValid(system, id, kind, session);
    case FinishClosing(id) => assert CallValid(system.backend.value, system.calls[id]);
    case Resume(id, threw) =>
      assert CallValid(system.backend.value, system.calls[id]);
      ResumeKeepsCall(system.backend.value, system.calls[id], threw);
    case Answer(id) => AnswerKeepsValid(system, id);
  }

  lemma {:induction false} RunKeepsValid(system: System, events: seq<Event>)
    requires Valid(system) && CanRun(system, events)
    ensures Valid(Run(system, events))
    decreases |events|
  {
    if events != [] {
      StepKeepsValid(system, events[0]);
      RunKeepsValid(After(system, events[0]), events[1..]);
    }
  }

  /** An answer that was given stays. */
  lemma {:induction false} AnswerStays(system: System, events: seq<Event>, id: nat)
    requires CanRun(system, events) && id in system.calls && system.calls[id].phase.Answered?
    ensures id in Run(system, events).calls && Run(system, events).calls[id] == system.calls[id]
    decreases |events|
  {
    if events != [] {
      AnswerStays(After(system, events[0]), events[1..], id);
    }
  }

  // --- Who is bound ----------------------------------------------------------------------------

  /** At most the writer's session is bound, where there is one. */
  predicate OnlyWriterBound(lifecycle: Lifecycle, writer: string) {
    lifecycle.writerSession == Some(writer) && (lifecycle.active.None? || lifecycle.active.value == writer)
  }

  lemma StepKeepsBinding(system: System, event: Event)
    requires Enabled(system, event)
    ensures var before, after := system.lifecycle, After(system, event).lifecycle;
            && after.writerSession == before.writerSession
            && (after.active != before.active ==>
                  (&& event.Bind? && after.active == Some(event.session)
                   && (before.writerSession.None? || before.writerSession.value == event.session)
                   && (before.active.None? || before.active.value == "")))
  {
  }

  /** With a writer session no other session is ever bound, whoever tries. */
  lemma {:induction false} OnlyTheWriterIsBound(system: System, events: seq<Event>, writer: string)
    requires CanRun(system, events) && OnlyWriterBound(system.lifecycle, writer)
    ensures OnlyWriterBound(Run(system, events).lifecycle, writer)
    decreases |events|
  {
    if events != [] {
      StepKeepsBinding(system, events[0]);
      OnlyTheWriterIsBound(After(system, events[0]), events[1..], writer);
    }
  }

  /** A session that was bound stays bound, and no other takes its place. */
  lemma {:induction false} BoundStaysBound(system: System, events: seq<Event>)
    requires CanRun(system, events) && IsBound(system.lifecycle.active)
    ensures Run(system, events).lifecycle.active == system.lifecycle.active
    decreases |events|
  {
    if events != [] {
      StepKeepsBinding(system, events[0]);
      BoundStaysBound(After(system, events[0]), events[1..]);
    }
  }

  /**
   * In any run the writer's session can be bound, at first as well as later, and then `flush` and `stop` for it
   * begin, while for any other session they are refused.
   */
  lemma WriterCanBindAndCall(writer: string, events: seq<Event>, id: nat, kind: Kind, session: string)
    requires CanRun(CreatedSystem(Some(writer)), events)
    requires id !in Run(CreatedSystem(Some(writer)), events).calls
    ensures var bound := After(Run(CreatedSystem(Some(writer)), events), Bind(writer));
            && bound.lifecycle.active == Some(writer)
            && Enabled(bound, Begin(id, kind, session))
            && (id in After(bound, Begin(id, kind, session)).calls <==> session == writer)
  {
    OnlyTheWriterIsBound(CreatedSystem(Some(writer)), events, writer);
  }

  /** Without a writer session, the first session to come is bound, and its calls begin. */
  lemma FirstComerIsBound(id: nat, kind: Kind, session: string)
    ensures var bound := After(CreatedSystem(None), Bind(session));
            && bound.lifecycle.active == Some(session)
            && id in After(bound, Begin(id, kind, session)).calls
  {
  }

  // --- What an answer means --------------------------------------------------------------------

  /** No failure, and no write after closing, has been recorded. */
  predicate NothingRecorded(system: System) {
    system.backend.Some? ==> !system.backend.value.failed && !system.backend.value.closeViolated
  }

  /**
   * A drain that waited for all that is accepted by then can be answered at once, with yes exactly if the wait did
   * not throw and nothing is recorded; if more was accepted meanwhile it waits for that as well.
   */
  lemma DrainEnds(system: System, id: nat, threw: bool)
    requires Valid(system) && Enabled(system, Resume(id, threw))
    ensures var resumed, waitedFor := After(system, Resume(id, threw)), system.calls[id].phase.captured;
            if threw || waitedFor == Accepted(system) then
              && Enabled(resumed, Answer(id))
              && After(resumed, Answer(id)).calls[id].phase == Answered(!threw && NothingRecorded(system))
            else
              resumed.calls[id].phase == Draining(Accepted(system))
  {
    StepKeepsValid(system, Resume(id, threw));
  }

  /**
   * In any run: when `stop` is answered, the answer is `flushed` if, and only if, no failure has been
   * recorded by then; and then the session has been told of none.
   */
  lemma StopAnswersFlushedIff(writerSession: Option<string>, events: seq<Event>, id: nat)
    requires CanRun(CreatedSystem(writerSession), events)
    requires var system := Run(CreatedSystem(writerSession), events);
             Enabled(system, Answer(id)) && system.calls[id].kind.Stopping?
    ensures var system := Run(CreatedSystem(writerSession), events);
            var answered := After(system, Answer(id));
            && answered.calls[id].phase == Answered(NothingRecorded(system))
            && (NothingRecorded(system) ==> answered.lifecycle.reports == [])
  {
    CreatedSystemValid(writerSession);
    RunKeepsValid(CreatedSystem(writerSession), events);
    var system := Run(CreatedSystem(writerSession), events);
    if system.backend.Some? {
      assert CallValid(system.backend.value, system.calls[id]);
      assert WriteQueue.ToldValid(system.backend.value, OWN_LISTENER);
    }
  }

  /**
   * Once `stop` has answered `flushed`, every accepted write is committed and no more are accepted: then,
   * and at every later point of the run, whatever callers and callbacks go on to do.
   */
  lemma FlushedMeansCommitted(writerSession: Option<string>, events: seq<Event>, more: seq<Event>, id: nat)
    requires CanRun(CreatedSystem(writerSession), events) && CanRun(Run(CreatedSystem(writerSession), events), more)
    requires var system := Run(CreatedSystem(writerSession), events);
             id in system.calls && system.calls[id].kind.Stopping? && system.calls[id].phase == Answered(true)
    ensures var later := Run(Run(CreatedSystem(writerSession), events), more);
            later.backend.Some? ==>
              later.backend.value.committed == later.backend.value.accepted && !later.backend.value.accepting
  {
    CreatedSystemValid(writerSession);
    RunKeepsValid(CreatedSystem(writerSession), events);
    var system := Run(CreatedSystem(writerSession), events);
    RunKeepsValid(system, more);
    AnswerStays(system, more, id);
    var later := Run(system, more);
    if later.backend.Some? {
      assert CallValid(later.backend.value, later.calls[id]);
    }
  }

  /**
   * A flush or a stop that was answered well leaves committed all that was accepted before the call; one that
   * was not means that a failure, or a write after closing, was recorded.
   */
  lemma AnswersAreRight(writerSession: Option<string>, events: seq<Event>, id: nat)
    requires CanRun(CreatedSystem(writerSession), events)
    requires id in Run(CreatedSystem(writerSession), events).calls
    requires Run(CreatedSystem(writerSession), events).calls[id].phase.Answered?
    ensures var system := Run(CreatedSystem(writerSession), events);
            var call := system.calls[id];
            if !call.phase.result then !NothingRecorded(system)
            else system.backend.Some? ==>
                   call.begun <= |system.backend.value.committed|
                   && system.backend.value.committed <= system.backend.value.accepted
  {
    CreatedSystemValid(writerSession);
    RunKeepsValid(CreatedSystem(writerSession), events);
    var system := Run(CreatedSystem(writerSession), events);
    if system.backend.Some? {
      assert CallValid(system.backend.value, system.calls[id]);
    }
  }

  /**
   * In any run, once the backend has finished reporting a failure: a bound session has been told of it
   * exactly once, also if the failure came before the binding. An empty session id is never told.
   */
  lemma FailureReportedExactlyOnce(writerSession: Option<string>, events: seq<Event>)
    requires CanRun(CreatedSystem(writerSession), events)
    ensures var system := Run(CreatedSystem(writerSession), events);
            && |system.lifecycle.reports| <= 1
            && (!NothingRecorded(system) && Quiet(system) ==>
                  system.lifecycle.failed
                  && system.lifecycle.reports
                     == if IsBound(system.lifecycle.active) then [system.lifecycle.active.value] else [])
  {
    CreatedSystemValid(writerSession);
    RunKeepsValid(CreatedSystem(writerSession), events);
    var system := Run(CreatedSystem(writerSession), events);
    if system.backend.Some? {
      assert WriteQueue.ToldValid(system.backend.value, OWN_LISTENER);
    }
  }

  lemma HeardWhenTold(backend: Backend, lifecycle: Lifecycle, notified: Option<WriteQueue.Listener>)
    requires WriteQueue.Enabled(backend, WriteQueue.ReportNext)
    requires WriteQueue.After(backend, WriteQueue.ReportNext).log
          == if notified.Some? then backend.log + [notified.value] else backend.log
    ensures BackendStep(backend, lifecycle, WriteQueue.ReportNext)
         == (WriteQueue.After(backend, WriteQueue.ReportNext),
             if notified == Some(OWN_LISTENER) then ReportFailure(lifecycle) else lifecycle)
  {
  }

  // --- The lifecycle as it runs ----------------------------------------------------------------

  /** The closure variables of the lifecycle, the backend it was given, and the calls under way. */
  class CacheLifecycleState {
    const writerSession: Option<string>
    const backend: WriteQueue.CacheBackend?
    var activeSessionId: Option<string>
    var failed: bool
    var reportedFailureSessionId: Option<string>
    var calls: map<nat, Call>
    ghost var reports: seq<string>

    ghost function Own(): Lifecycle
      reads this
    {
      Lifecycle(writerSession, activeSessionId, failed, reportedFailureSessionId, reports)
    }

    ghost function View(): System
      reads this, backend
    {
      System(if backend == null then None else Some(backend.View()), Own(), calls)
    }

    ghost predicate Consistent()
      reads this, backend
    {
      Valid(View()) && (backend != null ==> backend.Valid())
    }

    /** `createExtensionRuntimeCacheLifecycle`, which refuses a backend without a writer session and the reverse. */
    constructor (writerSession: Option<string>, backend: WriteQueue.CacheBackend?)
      requires writerSession.Some? <==> backend != null
      requires backend != null ==> backend.Valid() && backend.View() == WriteQueue.FRESH_BACKEND
      modifies backend
      ensures this.backend == backend
      ensures View() == CreatedSystem(writerSession) && Consistent()
    {
      this.writerSession, this.backend := writerSession, backend;
      activeSessionId, failed, reportedFailureSessionId, calls, reports := None, false, None, map[], [];
      new;
      if backend != null {
        var _ := backend.AddFailureListener(OWN_LISTENER);
      }
      CreatedSystemValid(writerSession);
    }

    /** `reportFailure`: the bound session is told unless it has been already. */
    method Report() returns (told: Option<string>)
      modifies this
      ensures Own() == ReportFailure(old(Own())) && calls == old(calls)
      ensures reports == if told.Some? then old(reports) + [told.value] else old(reports)
    {
      failed := true;
      told := None;
      if IsBound(activeSessionId) && reportedFailureSessionId != activeSessionId {
        reportedFailureSessionId := activeSessionId;
        told := activeSessionId;
        reports := reports + [activeSessionId.value];
      }
    }

    method BindSession(session: string) returns (bound: bool)
      requires Consistent()
      modifies this
      ensures bound <==> (writerSession.None? || writerSession.value == session)
                         && (old(activeSessionId).None? || old(activeSessionId).value == ""
                             || old(activeSessionId).value == session)
      ensures activeSessionId == if bound then Some(session) else old(activeSessionId)
      ensures Consistent() && View() == After(old(View()), Bind(session))
    {
      StepKeepsValid(View(), Bind(session));
      if writerSession.Some? && writerSession.value != session {
        return false;
      }
      if IsBound(activeSessionId) && activeSessionId.value != session {
        return false;
      }
      SetActive(session);
      bound := true;
    }

    /** The binding itself, with the report of an earlier failure. */
    method SetActive(session: string)
      requires MayBind(Own(), session)
      modifies this
      ensures Own() == Bound(old(Own()), session) && calls == old(calls) && activeSessionId == Some(session)
    {
      activeSessionId := Some(session);
      if failed {
        var _ := Report();
      }
    }

    /** The backend's report reaches its next listener, which may be this lifecycle. */
    method HearReport()
      requires Consistent() && backend != null && backend.reportIndex.Some?
      modifies this, backend
      ensures Consistent() && View() == After(old(View()), Backend(WriteQueue.ReportNext))
    {
      ghost var system, was, own := View(), backend.View(), Own();
      StepKeepsValid(system, Backend(WriteQueue.ReportNext));
      var notified := backend.NotifyNextListener();
      HeardWhenTold(was, own, notified);
      if notified == Some(OWN_LISTENER) {
        var _ := Report();
      }
      assert (backend.View(), Own()) == BackendStep(was, own, WriteQueue.ReportNext);
    }

    /** `flush` or `close` up to its first await; a call for another session is refused. */
    method BeginCall(id: nat, kind: Kind, session: string) returns (begun: bool)
      requires Consistent() && id !in calls
      modifies this, backend
      ensures begun <==> old(activeSessionId) == Some(session)
      ensures Consistent() && View() == After(old(View()), Begin(id, kind, session))
    {
      StepKeepsValid(View(), Begin(id, kind, session));
      if activeSessionId != Some(session) {
        return false;
      }
      var count := 0;
      if backend != null {
        count := backend.acceptedCount;
      }
      if failed {
        var _ := Report();
        calls := calls[id := Call(kind, count, Answered(false))];
      } else if backend == null {
        calls := calls[id := Call(kind, count, Drained(true))];
      } else if kind.Stopping? {
        backend.Close();
        calls := calls[id := Call(kind, count, Closing)];
      } else {
        calls := calls[id := Call(kind, count, Draining(count))];
      }
      begun := true;
    }

    /** `close` has waited for admissions and the refresh loop, and begins to drain. */
    method BeginDrain(id: nat)
      requires Consistent() && Enabled(View(), FinishClosing(id))
      modifies this
      ensures Consistent() && View() == After(old(View()), FinishClosing(id))
    {
      StepKeepsValid(View(), FinishClosing(id));
      calls := calls[id := calls[id].(phase := Draining(backend.acceptedCount))];
    }

    /** One turn of the drain loop, once the promise it waits for has settled. */
    method TurnDrain(id: nat, threw: bool)
      requires Consistent() && Enabled(View(), Resume(id, threw))
      modifies this
      ensures Consistent() && View() == After(old(View()), Resume(id, threw))
    {
      StepKeepsValid(View(), Resume(id, threw));
      var call := calls[id];
      var phase := Drained(false);
      if !threw {
        if call.phase.captured != backend.acceptedCount {
          phase := Draining(backend.acceptedCount);
        } else {
          phase := Drained(!backend.failure && !backend.closeViolation);
        }
      }
      calls := calls[id := call.(phase := phase)];
    }

    /** The call continues after its await of the backend and answers. */
    method AnswerCall(id: nat) returns (result: bool)
      requires Consistent() && Enabled(View(), Answer(id))
      modifies this
      ensures Consistent() && View() == After(old(View()), Answer(id))
      ensures id in calls && calls[id].phase == Answered(result)
      ensures calls[id].kind.Stopping? ==> (result <==> NothingRecorded(old(View())))
    {
      StepKeepsValid(View(), Answer(id));
      var call := calls[id];
      assert backend != null ==> CallValid(backend.View(), call) && WriteQueue.ToldValid(backend.View(), OWN_LISTENER);
      if call.phase.clean {
        result := call.kind.Flushing? || !failed;
      } else {
        var _ := Report();
        result := false;
      }
      calls := calls[id := call.(phase := Answered(result))];
    }
  }
}
