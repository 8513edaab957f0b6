/**
 * The change feed of one store: revisions, a queue of notification batches, and listeners that may
 * re-enter. The notification loop is cut at every listener call, so that anything may happen between.
 */
module ChangeFeed {
  import opened Wrappers
  import opened Numbers

  type Registration = nat

  datatype Batch = Batch(listeners: seq<Registration>, revision: int)

  datatype Delivery = Delivery(to: Registration, revision: int)

  /**
   * `current` holds the registrations of the batch being delivered that are still to be visited.
   * `snapshots` remembers the revision of the snapshot an admission has read, `base` the revision reached
   * when the registration was admitted with it, `log` what was delivered.
   */
  datatype Feed = Feed(
    revision: int,
    listeners: seq<Registration>,
    queue: seq<Batch>,
    notifying: bool,
    current: seq<Registration>,
    currentRevision: int,
    active: set<Registration>,
    snapshots: map<Registration, int>,
    base: map<Registration, int>,
    log: seq<Delivery>)

  const INITIAL_FEED := Feed(-1, [], [], false, [], -1, {}, map[], map[], [])

  function Without(listeners: seq<Registration>, id: Registration): seq<Registration> {
    if listeners == [] then []
    else if listeners[0] == id then Without(listeners[1..], id)
    else [listeners[0]] + Without(listeners[1..], id)
  }

  // --- Steps -----------------------------------------------------------------------------------

  /** What the rest of the program, or a listener, may do to the feed. */
  datatype Event =
    | Register(id: Registration)
    | Unregister(id: Registration)
    | Apply
    | Refresh(id: Registration)
    | Admit(id: Registration)
    | Advance

  predicate Enabled(feed: Feed, event: Event) {
    match event
    case Register(id) => id !in feed.active && id !in feed.base && id !in feed.snapshots && id !in feed.listeners
                         && (forall i :: 0 <= i < |feed.current| ==> feed.current[i] != id)
                         && (forall i :: 0 <= i < |feed.queue| ==> id !in feed.queue[i].listeners)
    case Unregister(_) => true
    case Apply => true
    case Refresh(id) => id !in feed.base
    // Admission resumes from the await of its own refresh, never inside a notification.
    case Admit(id) => id in feed.active && id !in feed.base && id in feed.snapshots && !feed.notifying
    case Advance => feed.notifying
  }

  /** One turn of the notification loop: finish, take the next batch, or visit one registration. */
  function Advanced(feed: Feed): Feed {
    if feed.current != [] then
      var id := feed.current[0];
      feed.(current := feed.current[1..],
            log := if Delivers(feed) then feed.log + [Delivery(id, feed.currentRevision)] else feed.log)
    else if feed.queue != [] then
      feed.(queue := feed.queue[1..], current := feed.queue[0].listeners, currentRevision := feed.queue[0].revision)
    else
      feed.(notifying := false)
  }

  /** `applyStoreSubscriptionSnapshot` ignores old revisions and refuses those past the safe integers. */
  function Applied(feed: Feed, revision: int): Feed {
    if revision <= feed.revision || revision > MAX_SAFE_INTEGER then feed
    else
      feed.(revision := revision,
            queue := feed.queue + [Batch(feed.listeners, revision)],
            notifying := true)
  }

  function After(feed: Feed, event: Event): Feed {
    match event
    case Register(id) => feed.(listeners := feed.listeners + [id], active := feed.active + {id})
    case Unregister(id) => feed.(listeners := Without(feed.listeners, id), active := feed.active - {id})
    // A refresh always applies the next revision.
    case Apply => Applied(feed, feed.revision + 1)
    // The refresh of an admission hands it the snapshot that was applied, unless applying it threw.
    case Refresh(id) =>
      if feed.revision >= MAX_SAFE_INTEGER then feed
      else Applied(feed, feed.revision + 1).(snapshots := feed.snapshots[id := feed.revision + 1])
    case Admit(id) => feed.(base := feed.base[id := feed.revision])
    case Advance => Advanced(feed)
  }

  predicate CanRun(feed: Feed, events: seq<Event>)
    decreases |events|
  {
    events == [] || (Enabled(feed, events[0]) && CanRun(After(feed, events[0]), events[1..]))
  }

  function Run(feed: Feed, events: seq<Event>): Feed
    decreases |events|
  {
    if events == [] then feed else Run(After(feed, events[0]), events[1..])
  }

  // --- What a registration sees ----------------------------------------------------------------

  /** The revisions delivered to one registration, in order. */
  function Seen(log: seq<Delivery>, id: Registration): seq<int> {
    if log == [] then []
    else
      var last := log[|log| - 1];
      Seen(log[..|log| - 1], id) + if last.to == id then [last.revision] else []
  }

  /** The revisions waiting in the queue for one registration. */
  function Queued(queue: seq<Batch>, id: Registration): seq<int> {
    if queue == [] then []
    else Revision(queue[0], id) + Queued(queue[1..], id)
  }

  function Waiting(feed: Feed, id: Registration): seq<int> {
    (if id in feed.current then [feed.currentRevision] else []) + Queued(feed.queue, id)
  }

  /** The revisions after `low`, `count` of them. */
  function From(low: int, count: nat): seq<int> {
    seq(count, i => low + 1 + i)
  }

  predicate Distinct(ids: seq<Registration>) {
    forall i, j :: 0 <= i < j < |ids| ==> ids[i] != ids[j]
  }

  ghost predicate Structure(feed: Feed) {
    && (!feed.notifying ==> feed.queue == [] && feed.current == [])
    && Distinct(feed.listeners) && Distinct(feed.current)
    && (forall i :: 0 <= i < |feed.queue| ==> Distinct(feed.queue[i].listeners))
    && (forall id :: id in feed.active <==> id in feed.listeners)
  }

  /** An admitted, still active registration has seen, or is due, every revision since its admission. */
  ghost predicate Complete(feed: Feed, id: Registration) {
    id in feed.base && id in feed.active ==>
      feed.revision >= feed.base[id]
      && Seen(feed.log, id) + Waiting(feed, id) == From(feed.base[id], feed.revision - feed.base[id])
  }

  /** What any registration has seen is an unbroken run of revisions right after its admission. */
  ghost predicate Consecutive(feed: Feed, id: Registration) {
    && (id !in feed.base ==> Seen(feed.log, id) == [])
    && (id in feed.base ==> Seen(feed.log, id) == From(feed.base[id], |Seen(feed.log, id)|))
  }

  /** No snapshot is ahead of the feed, and admission comes with one that was not ahead of it then. */
  ghost predicate SnapshotsBehind(feed: Feed) {
    && (forall id :: id in feed.snapshots ==> feed.snapshots[id] <= feed.revision)
    && (forall id :: id in feed.base ==> id in feed.snapshots && feed.snapshots[id] <= feed.base[id])
  }

  ghost predicate Valid(feed: Feed) {
    Structure(feed) && SnapshotsBehind(feed) && forall id: Registration :: Complete(feed, id) && Consecutive(feed, id)
  }

  lemma {:induction false} WithoutMembers(listeners: seq<Registration>, id: Registration)
    ensures forall other :: other in Without(listeners, id) <==> other in listeners && other != id
  {
    if listeners != [] {
      WithoutMembers(listeners[1..], id);
      assert forall other :: other in listeners <==> other == listeners[0] || other in listeners[1..];
    }
  }

  lemma {:induction false} WithoutDistinct(listeners: seq<Registration>, id: Registration)
    requires Distinct(listeners)
    ensures Distinct(Without(listeners, id))
  {
    if listeners != [] {
      var rest := listeners[1..];
      WithoutDistinct(rest, id);
      WithoutMembers(rest, id);
      DistinctHead(listeners);
      var kept := Without(rest, id);
      forall i, j | 0 <= i < j < |[listeners[0]] + kept|
        ensures ([listeners[0]] + kept)[i] != ([listeners[0]] + kept)[j]
      {
        assert ([listeners[0]] + kept)[j] == kept[j - 1] && kept[j - 1] in kept;
      }
    }
  }

  lemma DistinctHead(listeners: seq<Registration>)
    requires listeners != [] && Distinct(listeners)
    ensures listeners[0] !in listeners[1..]
  {
  }

  function Revision(batch: Batch, id: Registration): seq<int> {
    if id in batch.listeners then [batch.revision] else []
  }

  lemma {:induction false} QueuedSnoc(queue: seq<Batch>, batch: Batch, id: Registration)
    ensures Queued(queue + [batch], id) == Queued(queue, id) + Revision(batch, id)
  {
    if queue == [] {
      assert queue + [batch] == [batch];
      assert Queued([batch][1..], id) == [];
    } else {
      assert (queue + [batch])[1..] == queue[1..] + [batch] && (queue + [batch])[0] == queue[0];
      QueuedSnoc(queue[1..], batch, id);
      assert Queued(queue + [batch], id) == Revision(queue[0], id) + (Queued(queue[1..], id) + Revision(batch, id));
    }
  }

  lemma SeenSnoc(log: seq<Delivery>, delivery: Delivery, id: Registration)
    ensures Seen(log + [delivery], id) == Seen(log, id) + if delivery.to == id then [delivery.revision] else []
  {
    assert (log + [delivery])[..|log|] == log;
  }

  lemma FromSnoc(low: int, count: nat)
    ensures From(low, count + 1) == From(low, count) + [low + count + 1]
  {
  }

  /** A prefix of an unbroken run is an unbroken run. */
  lemma PrefixOfRun(seen: seq<int>, rest: seq<int>, low: int, count: nat)
    requires seen + rest == From(low, count)
    ensures seen == From(low, |seen|)
    ensures rest != [] ==> rest[0] == low + |seen| + 1
  {
    assert |seen| + |rest| == count;
    assert forall i :: 0 <= i < |seen| ==> seen[i] == (seen + rest)[i];
    if rest != [] {
      assert (seen + rest)[|seen|] == rest[0];
    }
  }

  lemma WaitingGrows(feed: Feed, id: Registration)
    requires id in feed.listeners && feed.revision < MAX_SAFE_INTEGER
    ensures Waiting(Applied(feed, feed.revision + 1), id) == Waiting(feed, id) + [feed.revision + 1]
  {
    QueuedSnoc(feed.queue, Batch(feed.listeners, feed.revision + 1), id);
  }

  lemma OneMoreRevision(seen: seq<int>, waiting: seq<int>, base: int, revision: int)
    requires revision >= base && seen + waiting == From(base, revision - base)
    ensures seen + (waiting + [revision + 1]) == From(base, revision + 1 - base)
  {
    FromSnoc(base, revision - base);
    assert seen + (waiting + [revision + 1]) == seen + waiting + [revision + 1];
  }

  lemma ApplyKeepsComplete(feed: Feed, id: Registration)
    requires Structure(feed) && Complete(feed, id) && Consecutive(feed, id)
    ensures Complete(Applied(feed, feed.revision + 1), id) && Consecutive(Applied(feed, feed.revision + 1), id)
  {
    if id in feed.base && id in feed.active && feed.revision < MAX_SAFE_INTEGER {
      WaitingGrows(feed, id);
      OneMoreRevision(Seen(feed.log, id), Waiting(feed, id), feed.base[id], feed.revision);
    }
  }

  lemma SnapshotKeepsComplete(feed: Feed, snapshots: map<Registration, int>, id: Registration)
    requires Complete(feed, id) && Consecutive(feed, id)
    ensures Complete(feed.(snapshots := snapshots), id) && Consecutive(feed.(snapshots := snapshots), id)
  {
    assert Waiting(feed.(snapshots := snapshots), id) == Waiting(feed, id);
  }

  predicate Delivers(feed: Feed)
    requires feed.current != []
  {
    var visited := feed.current[0];
    visited in feed.active && visited in feed.base && visited in feed.listeners
  }

  lemma VisitedHasSeenMore(feed: Feed)
    requires Structure(feed) && feed.current != [] && Delivers(feed)
    ensures var after, id := Advanced(feed), feed.current[0];
            && Seen(after.log, id) == Seen(feed.log, id) + [feed.currentRevision]
            && Waiting(feed, id) == [feed.currentRevision] + Waiting(after, id)
  {
    var after, id := Advanced(feed), feed.current[0];
    SeenSnoc(feed.log, Delivery(id, feed.currentRevision), id);
    DistinctHead(feed.current);
  }

  lemma VisitedKeepsComplete(feed: Feed, id: Registration)
    requires Structure(feed) && feed.current != [] && Delivers(feed) && id == feed.current[0]
    requires Complete(feed, id)
    ensures Complete(Advanced(feed), id) && Consecutive(Advanced(feed), id)
  {
    var after, revision := Advanced(feed), feed.currentRevision;
    VisitedHasSeenMore(feed);
    assert Seen(after.log, id) + Waiting(after, id) == Seen(feed.log, id) + ([revision] + Waiting(after, id));
    PrefixOfRun(Seen(after.log, id), Waiting(after, id), feed.base[id], feed.revision - feed.base[id]);
  }

  lemma OthersKeepComplete(feed: Feed, id: Registration)
    requires feed.current != [] && Complete(feed, id) && Consecutive(feed, id)
    requires id != feed.current[0] || (!Delivers(feed) && !(id in feed.base && id in feed.active))
    ensures Complete(Advanced(feed), id) && Consecutive(Advanced(feed), id)
  {
    var after, visited := Advanced(feed), feed.current[0];
    assert feed.current == [visited] + after.current;
    if Delivers(feed) {
      SeenSnoc(feed.log, Delivery(visited, feed.currentRevision), id);
    }
    assert Seen(after.log, id) == Seen(feed.log, id);
    assert id != visited ==> Waiting(after, id) == Waiting(feed, id);
  }

  /** Visiting a registration moves its revision from what waits to what was seen. */
  lemma VisitKeepsComplete(feed: Feed, id: Registration)
    requires Structure(feed) && feed.current != [] && Complete(feed, id) && Consecutive(feed, id)
    ensures Complete(Advanced(feed), id) && Consecutive(Advanced(feed), id)
  {
    if Delivers(feed) && id == feed.current[0] {
      VisitedKeepsComplete(feed, id);
    } else {
      OthersKeepComplete(feed, id);
    }
  }

  /** Taking the next batch out of the queue leaves what waits for a registration as it was. */
  lemma ShiftKeepsComplete(feed: Feed, id: Registration)
    requires feed.current == [] && Complete(feed, id) && Consecutive(feed, id)
    ensures Complete(Advanced(feed), id) && Consecutive(Advanced(feed), id)
  {
    if feed.queue != [] {
      assert Waiting(Advanced(feed), id) == Waiting(feed, id);
    }
  }

  lemma MembershipKeepsComplete(feed: Feed, event: Event, id: Registration)
    requires Structure(feed) && Enabled(feed, event) && Complete(feed, id) && Consecutive(feed, id)
    requires event.Register? || event.Unregister? || event.Admit?
    ensures Complete(After(feed, event), id) && Consecutive(After(feed, event), id)
  {
    assert Waiting(After(feed, event), id) == Waiting(feed, id);
    if event == Admit(id) {
      assert From(feed.revision, 0) == [];
    }
  }

  lemma StepKeepsStructure(feed: Feed, event: Event)
    requires Structure(feed) && Enabled(feed, event)
    ensures Structure(After(feed, event))
  {
    match event
    case Unregister(id) =>
      WithoutMembers(feed.listeners, id);
      WithoutDistinct(feed.listeners, id);
    case _ =>
  }

  lemma StepKeepsSnapshots(feed: Feed, event: Event)
    requires SnapshotsBehind(feed) && Enabled(feed, event)
    ensures SnapshotsBehind(After(feed, event))
  {
  }

  lemma StepKeepsComplete(feed: Feed, event: Event, id: Registration)
    requires Structure(feed) && Enabled(feed, event) && Complete(feed, id) && Consecutive(feed, id)
    ensures Complete(After(feed, event), id) && Consecutive(After(feed, event), id)
  {
    match event
    case Apply =>
      ApplyKeepsComplete(feed, id);
    case Refresh(_) =>
      ApplyKeepsComplete(feed, id);
      SnapshotKeepsComplete(Applied(feed, feed.revision + 1), After(feed, event).snapshots, id);
    case Advance =>
      if feed.current != [] {
        VisitKeepsComplete(feed, id);
      } else {
        ShiftKeepsComplete(feed, id);
      }
    case _ =>
      MembershipKeepsComplete(feed, event, id);
  }

  lemma StepKeepsValid(feed: Feed, event: Event)
    requires Valid(feed) && Enabled(feed, event)
    ensures Valid(After(feed, event))
  {
    StepKeepsStructure(feed, event);
    StepKeepsSnapshots(feed, event);
    var after := After(feed, event);
    forall id: Registration ensures Complete(after, id) && Consecutive(after, id) {
      assert Complete(feed, id) && Consecutive(feed, id);
      StepKeepsComplete(feed, event, id);
    }
  }

  /**
   * Under any re-entrant use, from the start: each registration sees consecutive revisions beginning
   * right after its admission, and nothing before it was admitted; while it stays subscribed none is
   * lost, so whenever no notification is in progress it has seen them all.
   */
  lemma {:induction false} FeedIsConsecutive(feed: Feed, events: seq<Event>, id: Registration)
    requires Valid(feed) && CanRun(feed, events)
    ensures var after := Run(feed, events);
            && Valid(after)
            && (id !in after.base ==> Seen(after.log, id) == [])
            && (id in after.base ==> Seen(after.log, id) == From(after.base[id], |Seen(after.log, id)|))
            && (id in after.base && id in after.active && !after.notifying ==>
                  after.revision >= after.base[id]
                  && Seen(after.log, id) == From(after.base[id], after.revision - after.base[id]))
    decreases |events|
  {
    if events == [] {
      assert Complete(feed, id) && Consecutive(feed, id);
      if !feed.notifying {
        assert Waiting(feed, id) == [];
      }
    } else {
      StepKeepsValid(feed, events[0]);
      FeedIsConsecutive(After(feed, events[0]), events[1..], id);
    }
  }

  function TurnsFor(queue: seq<Batch>): nat {
    if queue == [] then 0 else 1 + |queue[0].listeners| + TurnsFor(queue[1..])
  }

  /** The turns a notification still takes by itself: one for each listener, each batch, and the end. */
  function TurnsLeft(feed: Feed): nat {
    if feed.notifying then |feed.current| + TurnsFor(feed.queue) + 1 else 0
  }

  function Turns(count: nat): seq<Event> {
    seq(count, _ => Advance)
  }

  /**
   * A notification that listeners do not interfere with ends after exactly these turns, and then every admitted
   * registration that is active has seen every revision since its admission.
   */
  lemma {:induction false} NotificationEnds(feed: Feed, id: Registration)
    requires Valid(feed)
    ensures CanRun(feed, Turns(TurnsLeft(feed)))
    ensures var after := Run(feed, Turns(TurnsLeft(feed)));
            && !after.notifying && after.queue == [] && after.current == []
            && after.revision == feed.revision && after.listeners == feed.listeners && after.active == feed.active
            && (id in feed.base && id in feed.active ==>
                  feed.revision >= feed.base[id]
                  && Seen(after.log, id) == From(feed.base[id], feed.revision - feed.base[id]))
    decreases TurnsLeft(feed)
  {
    if feed.notifying {
      var next := After(feed, Advance);
      StepKeepsValid(feed, Advance);
      assert TurnsLeft(feed) == TurnsLeft(next) + 1;
      assert Turns(TurnsLeft(feed))[1..] == Turns(TurnsLeft(next));
      NotificationEnds(next, id);
    } else {
      FeedIsConsecutive(feed, [], id);
    }
  }

  lemma NextRevisionKeepsValid(feed: Feed, snapshotRevision: int)
    requires Valid(feed) && snapshotRevision == feed.revision + 1
    ensures Valid(Applied(feed, snapshotRevision))
  {
    StepKeepsValid(feed, Apply);
  }

  lemma InitialFeedValid()
    ensures Valid(INITIAL_FEED)
  {
  }

  /** What a registration sees is strictly increasing and newer than the snapshot it was admitted with. */
  lemma SeenIncreases(feed: Feed, events: seq<Event>, id: Registration, i: nat, j: nat)
    requires Valid(feed) && CanRun(feed, events)
    requires var after := Run(feed, events);
             id in after.base && i < j < |Seen(after.log, id)|
    ensures var after := Run(feed, events);
            id in after.snapshots && after.snapshots[id] < Seen(after.log, id)[i] < Seen(after.log, id)[j]
  {
    FeedIsConsecutive(feed, events, id);
  }

  /**
   * So nothing is missing between the snapshot and what a registration sees if, and only if, the snapshot was
   * still the newest at admission: a revision that overtakes it is in neither.
   */
  lemma NothingMissedIffNotOvertaken(feed: Feed, events: seq<Event>, id: Registration)
    requires Valid(feed) && CanRun(feed, events)
    requires var after := Run(feed, events); id in after.base && id in after.active && !after.notifying
    ensures var after := Run(feed, events);
            && id in after.snapshots && after.snapshots[id] <= after.revision
            && (Seen(after.log, id) == From(after.snapshots[id], after.revision - after.snapshots[id])
                <==> after.base[id] == after.snapshots[id])
  {
    FeedIsConsecutive(feed, events, id);
  }

  /** All the turns of a notification of one registration. */
  function Notified(feed: Feed): Feed {
    Advanced(Advanced(Advanced(feed)))
  }

  lemma UnadmittedHearsNothing(feed: Feed, batch: Batch)
    requires feed.queue == [batch] && feed.current == [] && feed.notifying
    requires |batch.listeners| == 1 && batch.listeners[0] !in feed.base
    ensures Notified(feed)
         == feed.(queue := [], current := [], currentRevision := batch.revision, notifying := false)
  {
    assert Advanced(feed).current == batch.listeners && Advanced(feed).queue == [];
    assert Advanced(Advanced(feed)).current == [];
  }

  /** Such a revision: it is applied after the snapshot was taken and before the registration is admitted. */
  lemma OvertakenRevisionIsMissed()
    ensures var registered := After(INITIAL_FEED, Register(0));
            var refreshed := Notified(After(registered, Refresh(0)));
            var overtaken := Notified(After(refreshed, Apply));
            && Enabled(registered, Refresh(0)) && !refreshed.notifying && Enabled(overtaken, Admit(0))
            && var after := After(overtaken, Admit(0));
               0 in after.active && !after.notifying && after.revision == 1
               && 0 in after.snapshots && after.snapshots[0] == 0 && Seen(after.log, 0) == []
  {
    var registered := After(INITIAL_FEED, Register(0));
    var refreshed := After(registered, Refresh(0));
    assert registered.listeners == [0];
    UnadmittedHearsNothing(refreshed, Batch([0], 0));
    assert Notified(refreshed).revision == 0 && Notified(refreshed).listeners == [0];
    var overtaken := After(Notified(refreshed), Apply);
    assert overtaken.queue == [] + [Batch([0], 1)] == [Batch([0], 1)];
    UnadmittedHearsNothing(overtaken, Batch([0], 1));
  }

  /** Nothing is delivered to a registration that is no longer active. */
  lemma NothingAfterUnsubscribe(feed: Feed, event: Event, id: Registration)
    requires Enabled(feed, event) && id !in feed.active
    ensures Seen(After(feed, event).log, id) == Seen(feed.log, id)
  {
    if event.Advance? && feed.current != [] && After(feed, event).log != feed.log {
      SeenSnoc(feed.log, Delivery(feed.current[0], feed.currentRevision), id);
    }
  }

  lemma {:induction false} UnsubscribedForever(feed: Feed, events: seq<Event>, id: Registration)
    requires CanRun(feed, events) && id !in feed.active
    requires forall i :: 0 <= i < |events| ==> events[i] != Register(id)
    ensures Seen(Run(feed, events).log, id) == Seen(feed.log, id)
    decreases |events|
  {
    if events != [] {
      NothingAfterUnsubscribe(feed, events[0], id);
      assert events[0] != Register(id);
      forall i | 0 <= i < |events[1..]| ensures events[1..][i] != Register(id) {
        assert events[1..][i] == events[i + 1];
      }
      UnsubscribedForever(After(feed, events[0]), events[1..], id);
    }
  }

  /** Were admission possible inside a notification, a registration could see a revision twice over. */
  lemma AdmissionInsideNotificationWouldReplay()
    ensures var feed := Advanced(After(After(INITIAL_FEED, Register(0)), Apply));
            var admitted := feed.(base := feed.base[0 := feed.revision]);
            feed.notifying && Seen(Advanced(admitted).log, 0) == [admitted.base[0]]
  {
    var feed := Advanced(After(After(INITIAL_FEED, Register(0)), Apply));
    assert feed.current == [0];
    SeenSnoc([], Delivery(0, 0), 0);
    assert [] + [Delivery(0, 0)] == [Delivery(0, 0)];
  }

  /** The subscription state object, with the fields the backend keeps. */
  class StoreSubscription {
    var revision: int
    var listeners: seq<Registration>
    var notificationQueue: seq<Batch>
    var notifyingListeners: bool
    var remaining: seq<Registration>
    var remainingRevision: int
    var active: set<Registration>
    ghost var snapshots: map<Registration, int>
    ghost var base: map<Registration, int>
    var admitted: set<Registration>
    ghost var log: seq<Delivery>

    ghost function View(): Feed
      reads this
    {
      Feed(revision, listeners, notificationQueue, notifyingListeners, remaining, remainingRevision, active, snapshots,
           base, log)
    }

    ghost predicate Consistent()
      reads this
    {
      Valid(View()) && admitted == base.Keys
    }

    constructor ()
      ensures Consistent() && View() == INITIAL_FEED
    {
      revision, listeners, notificationQueue, notifyingListeners := -1, [], [], false;
      remaining, remainingRevision, active, snapshots, base, admitted, log := [], -1, {}, map[], map[], {}, [];
      new;
      InitialFeedValid();
    }

    method Subscribe(id: Registration)
      requires Consistent() && Enabled(View(), Register(id))
      modifies this
      ensures Consistent() && View() == After(old(View()), Register(id))
    {
      StepKeepsValid(View(), Register(id));
      listeners, active := listeners + [id], active + {id};
    }

    method Unsubscribe(id: Registration)
      requires Consistent()
      modifies this
      ensures Consistent() && View() == After(old(View()), Unregister(id))
    {
      StepKeepsValid(View(), Unregister(id));
      active := active - {id};
      listeners := Without(listeners, id);
    }

    /**
     * `applyStoreSubscriptionSnapshot`: a nested call only queues its batch. Snapshots are never ahead of the
     * next revision; an exhausted revision is an error that leaves everything as it was.
     */
    method ApplySnapshot(snapshotRevision: int) returns (exhausted: bool)
      requires Consistent() && snapshotRevision <= revision + 1
      modifies this
      ensures Consistent() && View() == Applied(old(View()), snapshotRevision)
      ensures exhausted <==> snapshotRevision > old(revision) && snapshotRevision > MAX_SAFE_INTEGER
      ensures revision == if snapshotRevision > old(revision) && !exhausted then snapshotRevision else old(revision)
      ensures notificationQueue
           == if revision > old(revision) then old(notificationQueue) + [Batch(old(listeners), revision)]
              else old(notificationQueue)
    {
      exhausted := false;
      if snapshotRevision <= revision {
        return;
      }
      if snapshotRevision > MAX_SAFE_INTEGER {
        return true;
      }
      NextRevisionKeepsValid(View(), snapshotRevision);
      revision := snapshotRevision;
      notificationQueue := notificationQueue + [Batch(listeners, revision)];
      notifyingListeners := true;
    }

    /** The refresh that an admission waits for: it applies the next revision and returns that snapshot. */
    method RefreshForAdmission(id: Registration) returns (snapshotRevision: Option<int>)
      requires Consistent() && Enabled(View(), Refresh(id))
      modifies this
      ensures Consistent() && View() == After(old(View()), Refresh(id))
      ensures snapshotRevision == if old(revision) < MAX_SAFE_INTEGER then Some(old(revision) + 1) else None
    {
      StepKeepsValid(View(), Refresh(id));
      var next := revision + 1;
      var exhausted := ApplySnapshot(next);
      if exhausted {
        return None;
      }
      snapshots := snapshots[id := next];
      snapshotRevision := Some(next);
    }

    /** One turn of the notification loop; `notified` is the listener that is called, if any. */
    method NotifyNext() returns (notified: Option<Registration>)
      requires Consistent() && notifyingListeners
      modifies this
      ensures Consistent() && View() == Advanced(old(View()))
      ensures notified
           == if old(remaining) != [] && old(remaining)[0] in listeners && old(remaining)[0] in active * admitted
              then Some(old(remaining)[0]) else None
      ensures log == if notified.Some? then old(log) + [Delivery(notified.value, remainingRevision)] else old(log)
    {
      StepKeepsValid(View(), Advance);
      notified := None;
      if remaining != [] {
        var id := remaining[0];
        remaining := remaining[1..];
        if id in active && id in admitted && id in listeners {
          notified := Some(id);
          log := log + [Delivery(id, remainingRevision)];
        }
      } else if notificationQueue != [] {
        var batch := notificationQueue[0];
        notificationQueue := notificationQueue[1..];
        remaining, remainingRevision := batch.listeners, batch.revision;
      } else {
        notifyingListeners := false;
      }
    }

    method AdmitRegistration(id: Registration)
      requires Consistent() && Enabled(View(), Admit(id))
      modifies this
      ensures Consistent() && View() == After(old(View()), Admit(id))
    {
      StepKeepsValid(View(), Admit(id));
      admitted := admitted + {id};
      base := base[id := revision];
    }
  }

  // --- Which stores are tracked ----------------------------------------------------------------

  const MAX_FEED_FILES: nat := 32
  const MAX_FEED_STORES_PER_FILE: nat := 8

  type Table = map<string, map<string, set<Registration>>>

  function Listeners(table: Table, path: string, key: string): set<Registration> {
    if path in table && key in table[path] then table[path][key] else {}
  }

  function Stores(table: Table, path: string): map<string, set<Registration>> {
    if path in table then table[path] else map[]
  }

  /** `subscribeStore` refuses a 33rd file, or a ninth store of one file. */
  predicate Accepts(table: Table, path: string, key: string) {
    && (path in table || |table| < MAX_FEED_FILES)
    && (key in Stores(table, path) || |Stores(table, path)| < MAX_FEED_STORES_PER_FILE)
  }

  function Subscribed(table: Table, path: string, key: string, id: Registration): Table {
    table[path := Stores(table, path)[key := Listeners(table, path, key) + {id}]]
  }

  function WithoutListener(stores: map<string, set<Registration>>, key: string, id: Registration)
    : map<string, set<Registration>>
    requires key in stores
  {
    if stores[key] - {id} == {} then stores - {key} else stores[key := stores[key] - {id}]
  }

  /** Unsubscribing drops a store with its last listener, and a file with its last store. */
  function Unsubscribed(table: Table, path: string, key: string, id: Registration): Table {
    if path !in table || key !in table[path] then table
    else
      var stores := WithoutListener(table[path], key, id);
      if stores == map[] then table - {path} else table[path := stores]
  }

  ghost predicate StoresValid(stores: map<string, set<Registration>>) {
    |stores| <= MAX_FEED_STORES_PER_FILE && forall key :: key in stores ==> stores[key] != {}
  }

  ghost predicate TableValid(table: Table) {
    && |table| <= MAX_FEED_FILES
    && forall path :: path in table ==> table[path] != map[] && StoresValid(table[path])
  }

  lemma FewerKeys<K, V>(m: map<K, V>, k: K)
    ensures |m - {k}| <= |m|
  {
    assert (m - {k}).Keys == m.Keys - {k};
    assert m.Keys == (m - {k}).Keys + (m.Keys * {k});
  }

  lemma OneMoreKey<K, V>(m: map<K, V>, k: K, v: V)
    ensures |m[k := v]| == if k in m then |m| else |m| + 1
  {
    assert m[k := v].Keys == m.Keys + {k};
    assert k in m ==> m[k := v].Keys == m.Keys;
  }

  lemma OneMoreStore(stores: map<string, set<Registration>>, key: string, listeners: set<Registration>)
    requires StoresValid(stores) && (key in stores || |stores| < MAX_FEED_STORES_PER_FILE) && listeners != {}
    ensures StoresValid(stores[key := listeners])
  {
    OneMoreKey(stores, key, listeners);
  }

  lemma OneMoreFile(table: Table, path: string, key: string, stores: map<string, set<Registration>>)
    requires TableValid(table) && (path in table || |table| < MAX_FEED_FILES)
    requires StoresValid(stores) && key in stores
    ensures TableValid(table[path := stores])
  {
    OneMoreKey(table, path, stores);
  }

  lemma ListenersAfterSubscribing(table: Table, path: string, key: string, id: Registration)
    ensures Listeners(Subscribed(table, path, key, id), path, key) == Listeners(table, path, key) + {id}
  {
  }

  /** Every tracked store has a listener, with at most 32 files and eight stores per file. */
  lemma SubscribingKeepsTable(table: Table, path: string, key: string, id: Registration)
    requires TableValid(table) && Accepts(table, path, key)
    ensures TableValid(Subscribed(table, path, key, id))
    ensures id in Listeners(Subscribed(table, path, key, id), path, key)
  {
    var stores, listeners := Stores(table, path), Listeners(table, path, key) + {id};
    assert id in listeners;
    OneMoreStore(stores, key, listeners);
    OneMoreFile(table, path, key, stores[key := listeners]);
    ListenersAfterSubscribing(table, path, key, id);
  }

  /** Subscribing adds one registration and no other listener. */
  lemma SubscribingAddsOnlyItself(table: Table, path: string, key: string, id: Registration, otherPath: string,
                                  otherKey: string)
    ensures var before := Listeners(table, otherPath, otherKey);
            Listeners(Subscribed(table, path, key, id), otherPath, otherKey)
            == if otherPath == path && otherKey == key then before + {id} else before
  {
  }

  lemma WithoutListenerValid(stores: map<string, set<Registration>>, key: string, id: Registration)
    requires StoresValid(stores) && key in stores
    ensures StoresValid(WithoutListener(stores, key, id))
  {
    FewerKeys(stores, key);
    OneMoreKey(stores, key, stores[key] - {id});
  }

  lemma UnsubscribingKeepsTable(table: Table, path: string, key: string, id: Registration)
    requires TableValid(table)
    ensures TableValid(Unsubscribed(table, path, key, id))
  {
    if path in table && key in table[path] {
      WithoutListenerValid(table[path], key, id);
      FewerKeys(table, path);
      OneMoreKey(table, path, WithoutListener(table[path], key, id));
    }
  }

  /** Unsubscribing takes away one registration and no other listener. */
  lemma UnsubscribingTakesOnlyItself(table: Table, path: string, key: string, id: Registration, otherPath: string,
                                     otherKey: string)
    ensures var before := Listeners(table, otherPath, otherKey);
            Listeners(Unsubscribed(table, path, key, id), otherPath, otherKey)
            == if otherPath == path && otherKey == key then before - {id} else before
  {
    if path in table && key in table[path] {
      var stores := WithoutListener(table[path], key, id);
      assert otherKey != key && otherKey in table[path] ==> otherKey in stores;
    }
  }

  /** Unsubscribing again changes nothing at all, whoever subscribed meanwhile. */
  lemma UnsubscribingAgain(table: Table, path: string, key: string, id: Registration)
    requires TableValid(table) && id !in Listeners(table, path, key)
    ensures Unsubscribed(table, path, key, id) == table
  {
    if path in table && key in table[path] {
      var listeners := table[path][key];
      assert StoresValid(table[path]);
      assert listeners != {} && listeners - {id} == listeners;
      assert table[path][key := listeners] == table[path];
    }
  }

  class SubscriptionTable {
    var files: Table

    constructor ()
      ensures files == map[] && TableValid(files)
    {
      files := map[];
    }

    method Subscribe(path: string, key: string, id: Registration) returns (accepted: bool)
      requires TableValid(files)
      modifies this
      ensures accepted <==> (path in old(files) || |old(files)| < 32)
                            && (path in old(files) ==> key in old(files)[path] || |old(files)[path]| < 8)
      ensures TableValid(files) && accepted == Accepts(old(files), path, key)
      ensures files == if accepted then Subscribed(old(files), path, key, id) else old(files)
    {
      accepted := Accepts(files, path, key);
      if accepted {
        SubscribingKeepsTable(files, path, key, id);
        files := Subscribed(files, path, key, id);
      }
    }

    method Unsubscribe(path: string, key: string, id: Registration)
      requires TableValid(files)
      modifies this
      ensures TableValid(files) && files == Unsubscribed(old(files), path, key, id)
    {
      UnsubscribingKeepsTable(files, path, key, id);
      files := Unsubscribed(files, path, key, id);
    }
  }
}
