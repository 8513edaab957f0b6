/**
 * Whole runs of a shared cache directory. A step is one operation of one process, cut off at any point:
 * since every operation holds the directory lock throughout, and a crash may leave any point, runs of
 * such steps are all that several crashing processes can do to the directory.
 */
module CacheRuns {
  import opened Wrappers
  import opened Ordering
  import opened Totals
  import opened CacheEntries
  import opened CacheFiles
  import opened StoreRetention
  import opened DirectoryQuota
  import opened ControlRecords
  import opened CacheDirectories
  import opened ControlListings

  datatype Event =
    | Updating(lease: Lease, namespace: Digest, key: string, mutation: Mutation)
    | Recovering(lease: Lease, namespace: Digest)
    | Admitting(lease: Lease, address: Address)
    | Activating(lease: Lease)
    | Revoking(lease: Lease)
    | Releasing(lease: Lease)
    | Resetting
    | Damaging(namespace: Digest, content: Bytes)

  /** `d` is a point, intermediate or final, of this event from `from`; damage comes from outside. */
  ghost predicate Next(codec: Codec, control: ControlMeasure, from: Disk, event: Event, d: Disk) {
    match event
    case Updating(lease, namespace, key, mutation) => UpdatePoint(codec, from, lease, namespace, key, mutation, d)
    case Recovering(lease, namespace) => RecoveryPoint(codec, from, lease, namespace, d)
    case Admitting(lease, address) => AdmissionPoint(control, from, lease, address, d)
    case Activating(lease) => ActivationPoint(control, from, lease, d)
    case Revoking(lease) => RevocationPoint(from, lease, d)
    case Releasing(lease) => ReleasePoint(from, lease, d)
    case Resetting => ResetPoint(from, d)
    case Damaging(namespace, content) => d == from.(files := from.files[Active(namespace) := content])
  }

  ghost predicate IsRun(codec: Codec, control: ControlMeasure, states: seq<Disk>, events: seq<Event>) {
    && |states| == |events| + 1
    && forall i :: 0 <= i < |events| ==> StepAt(codec, control, states, events, i)
  }

  ghost predicate StepAt(codec: Codec, control: ControlMeasure, states: seq<Disk>, events: seq<Event>, i: nat)
    requires i < |events| && |states| == |events| + 1
  {
    Next(codec, control, states[i], events[i], states[i + 1])
  }

  ghost predicate NoDamage(events: seq<Event>) {
    forall i :: 0 <= i < |events| ==> !events[i].Damaging?
  }

  ghost predicate NamespaceUndamaged(events: seq<Event>, namespace: Digest) {
    forall i :: 0 <= i < |events| && events[i].Damaging? ==> events[i].namespace != namespace
  }

  // --- Space -----------------------------------------------------------------------------------

  lemma StepKeepsQuota(codec: Codec, control: ControlMeasure, from: Disk, event: Event, d: Disk)
    requires Next(codec, control, from, event, d) && !event.Damaging? && WithinQuota(from.files)
    ensures WithinQuota(d.files)
  {
    if Submap(d.files, from.files) {
      SmallerFits(d.files, from.files, NO_RESERVATION);
    }
  }

  /** Once the quota holds, it holds at every later point, whatever runs and wherever it crashes. */
  lemma {:induction false} SpaceBound(codec: Codec, control: ControlMeasure, states: seq<Disk>, events: seq<Event>,
                                      i: nat, j: nat)
    requires IsRun(codec, control, states, events) && NoDamage(events)
    requires i <= j < |states| && WithinQuota(states[i].files)
    ensures WithinQuota(states[j].files)
    ensures |states[j].files| <= 32 && Total(Sizes(states[j].files)) <= 256 * 1024 * 1024
    decreases j - i
  {
    if i < j {
      assert StepAt(codec, control, states, events, i);
      StepKeepsQuota(codec, control, states[i], events[i], states[i + 1]);
      SpaceBound(codec, control, states, events, i + 1, j);
    }
  }

  /** Control records stay within budget, and no namespace ever has more than eight retained stores. */
  ghost predicate ControlInvariant(control: ControlMeasure, d: Disk) {
    && ControlFits(d) && d.controlTemporaries <= 1 && RecordsCapped(control, d)
    && StoreBudgetHolds(RetainedAddresses(d.records))
  }

  lemma FewerRecordsRetainLess(records: map<RecordId, Record>, more: map<RecordId, Record>)
    requires Submap(records, more) && StoreBudgetHolds(RetainedAddresses(more))
    ensures RetainedAddresses(records) <= RetainedAddresses(more)
    ensures StoreBudgetHolds(RetainedAddresses(records))
  {
    forall namespace: Digest
      ensures |StoresIn(RetainedAddresses(records), namespace)| <= MAX_STORES_PER_FILE
    {
      SubsetCount(StoresIn(RetainedAddresses(records), namespace), StoresIn(RetainedAddresses(more), namespace));
    }
  }

  lemma StepKeepsControl(codec: Codec, control: ControlMeasure, from: Disk, event: Event, d: Disk)
    requires Next(codec, control, from, event, d) && ControlInvariant(control, from)
    ensures ControlInvariant(control, d)
  {
    if event.Revoking? || event.Releasing? || event.Resetting? {
      StepOnlyRemovesRecords(codec, control, from, event, d);
      SubmapCount(d.writers, from.writers);
      SubmapCount(d.records, from.records);
      FewerRecordsRetainLess(d.records, from.records);
    } else if event.Activating? {
      assert d.records == from.records;
    } else if !event.Damaging? {
      assert d.writers == from.writers;
    }
  }

  lemma StepOnlyRemovesRecords(codec: Codec, control: ControlMeasure, from: Disk, event: Event, d: Disk)
    requires Next(codec, control, from, event, d) && (event.Revoking? || event.Releasing? || event.Resetting?)
    ensures Submap(d.writers, from.writers) && Submap(d.records, from.records)
    ensures d.controlTemporaries <= from.controlTemporaries
  {
  }

  lemma {:induction false} ControlBound(codec: Codec, control: ControlMeasure, states: seq<Disk>, events: seq<Event>,
                                        j: nat)
    requires IsRun(codec, control, states, events) && j < |states| && ControlInvariant(control, states[0])
    ensures ControlInvariant(control, states[j])
  {
    if j > 0 {
      ControlBound(codec, control, states, events, j - 1);
      assert StepAt(codec, control, states, events, j - 1);
      StepKeepsControl(codec, control, states[j - 1], events[j - 1], states[j]);
    }
  }

  /**
   * In any run, whatever a scan of the control records finds is within every limit: the physical limits on
   * files and on bytes, temporaries counted, never refuse anything that the limits on records allow.
   */
  lemma PhysicalControlBound(codec: Codec, control: ControlMeasure, states: seq<Disk>, events: seq<Event>, j: nat,
                             names: seq<ControlName>, listing: seq<ControlFile>)
    requires IsRun(codec, control, states, events) && j < |states| && ControlInvariant(control, states[0])
    requires Lists(control, states[j], names, listing)
    ensures Capped(listing) && WithinBudget(Measured(listing))
    ensures Measured(listing).files <= MAX_PHYSICAL_FILES && Measured(listing).bytes <= MAX_PHYSICAL_BYTES
  {
    ControlBound(codec, control, states, events, j);
    BudgetIsControlFits(control, states[j], names, listing);
  }

  /** In any run, an update of an admitted store, or a clear of any, is never refused for want of stores. */
  lemma AdmissionImpliesRoom(codec: Codec, control: ControlMeasure, states: seq<Disk>, events: seq<Event>, j: nat,
                             namespace: Digest,
                             key: string, mutation: Mutation)
    requires IsRun(codec, control, states, events) && j < |states| && ControlInvariant(control, states[0])
    requires mutation.Clear? || Address(namespace, key) in RetainedAddresses(states[j].records)
    ensures HasRoom(states[j], namespace, key, mutation)
  {
    ControlBound(codec, control, states, events, j);
  }

  // --- What may happen to one namespace file ---------------------------------------------------

  predicate ActsOn(event: Event, namespace: Digest) {
    (event.Updating? || event.Recovering?) && event.namespace == namespace
  }

  /**
   * One step leaves a namespace file as it was, replaces it by what an update or a recovery of that very
   * namespace writes, or evicts it while another operation needs the room and nothing retains it.
   */
  lemma NamespaceStep(codec: Codec, control: ControlMeasure, from: Disk, event: Event, d: Disk, namespace: Digest)
    requires Next(codec, control, from, event, d) && !(event.Damaging? && event.namespace == namespace)
    ensures var was, now := Slot(from.files, Active(namespace)), Slot(d.files, Active(namespace));
            || now == was
            || (&& event.Updating? && event.namespace == namespace && IsActive(from, event.lease)
                && exists next :: NextFile(codec, from, namespace, event.key, event.mutation, next)
                                  && now == Content(codec, next))
            || (&& event.Recovering? && event.namespace == namespace && IsActive(from, event.lease)
                && exists next :: RecoveredFile(codec, from, namespace, next) && now == Some(codec.Serialize(next)))
            || (now == None && !ActsOn(event, namespace) && Active(namespace) !in RetainedPaths(from))
  {
    var active := Active(namespace);
    if event.Admitting? && d != from && active in from.files && active in RetainedPaths(from) {
      assert active in Only(from.files, RetainedPaths(from) + OwnPaths(event.address.namespace));
    }
  }

  // --- Evidence --------------------------------------------------------------------------------

  /**
   * Wherever a step is cut off: if a corrupt file is gone or replaced, its first 16 MiB are in the
   * evidence file, unless the file was evicted to make room for another, unretained namespace.
   */
  lemma EvidenceBeforeDestruction(codec: Codec, control: ControlMeasure, from: Disk, event: Event, d: Disk,
                                  namespace: Digest)
    requires Next(codec, control, from, event, d) && !event.Damaging?
    requires ReadActive(codec, from.files, namespace).Corrupt?
    requires Slot(d.files, Active(namespace)) != Slot(from.files, Active(namespace))
    ensures || Slot(d.files, Quarantined(namespace)) == Some(Prefix(from.files[Active(namespace)]))
            || (Active(namespace) !in d.files && !ActsOn(event, namespace) && Active(namespace) !in RetainedPaths(from))
  {
    NamespaceStep(codec, control, from, event, d, namespace);
  }

  /**
   * When a quota pass made for one namespace leaves nothing of another's corrupt file, neither the file nor
   * evidence: exactly if that digest is open to eviction, the protected files fit, and those left by the
   * evictions before it do not. Otherwise the corrupt file is still there as it was.
   */
  lemma PassDestroysCorruptFileIff(codec: Codec, from: Disk, namespace: Digest, reservation: Reservation, after: Files,
                                   outcome: Convergence, other: Digest)
    requires ReadActive(codec, from.files, other).Corrupt?
    requires IsConvergence(from.files, OwnPaths(namespace) + RetainedPaths(from), reservation, after, outcome)
    ensures var kept := OwnPaths(namespace) + RetainedPaths(from);
            if Takes(from.files - StaleTemporaries(from.files, kept), kept, reservation, other) then
              Active(other) !in after && Quarantined(other) !in after
            else
              Slot(after, Active(other)) == Slot(from.files, Active(other))
              && Slot(after, Quarantined(other)) == Slot(from.files, Quarantined(other))
  {
    var kept := OwnPaths(namespace) + RetainedPaths(from);
    ConvergenceKeepsProtected(from.files, kept, reservation, after, outcome);
    EvictedIff(from.files, kept, reservation, after, outcome, Active(other));
    if Quarantined(other) in from.files {
      EvictedIff(from.files, kept, reservation, after, outcome, Quarantined(other));
    }
  }

  /**
   * The exception is real: the first pass of an update evicts another namespace's corrupt file, which nothing
   * retains, and a crash right there leaves neither the file nor evidence of it.
   */
  lemma EvictionLeavesNoEvidence(codec: Codec, control: ControlMeasure, from: Disk, lease: Lease, namespace: Digest,
                                 key: string, mutation: Mutation, other: Digest, content: Bytes)
    requires namespace != other && IsActive(from, lease) && from.records == map[]
    requires from.files == map[Active(other) := content] && codec.Read(content).Corrupt?
    requires |content| > MAX_DIRECTORY_BYTES
    ensures var d := from.(files := map[]);
            && ReadActive(codec, from.files, other).Corrupt?
            && IsConvergence(from.files, OwnPaths(namespace) + RetainedPaths(from), NO_RESERVATION, d.files, Converged)
            && Next(codec, control, from, Updating(lease, namespace, key, mutation), d)
            && Active(other) !in d.files && Quarantined(other) !in d.files
  {
    NothingIsRetained(from);
    LoneFileIsEvicted(namespace, other, content);
    SamePointIsUpdatePoint(codec, from, lease, namespace, key, mutation);
    assert SlotsSame(from, namespace, from.(files := map[]));
  }

  lemma NothingIsRetained(from: Disk)
    requires from.records == map[]
    ensures RetainedPaths(from) == {}
    ensures forall kept: set<Artifact> :: kept + RetainedPaths(from) == kept
  {
    assert RetainedAddresses(from.records) == {};
  }

  lemma LoneFileIsEvicted(namespace: Digest, other: Digest, content: Bytes)
    requires namespace != other && |content| > MAX_DIRECTORY_BYTES
    ensures IsConvergence(map[Active(other) := content], OwnPaths(namespace), NO_RESERVATION, map[], Converged)
  {
    var files: Files := map[Active(other) := content];
    var kept := OwnPaths(namespace);
    assert files - StaleTemporaries(files, kept) == files;
    assert Active(other) in files && Group(files, other) == {Active(other)};
    assert FreeDigests(files, kept) == {other};
    DirectoryQuota.OrderMembers(files, kept);
    var order := GroupOrder(files, kept);
    assert other in order;
    OneGroup(files, other, kept);
    TooLargeAlone(files, Active(other));
    assert Only(files, kept) == map[];
    assert Sizes(map[]) == map[];
    assert AfterEvicting(files, order, 0) == files;
    assert AfterEvicting(files, order, 1) == map[];
    assert IsShortestEviction(files, order, 1, NO_RESERVATION, map[]);
  }

  lemma OneGroup(files: Files, other: Digest, kept: set<Artifact>)
    requires FreeDigests(files, kept) == {other}
    ensures GroupOrder(files, kept) == [other]
  {
    Ordering.LessIsStrictTotal();
    Ordering.AscendingMembers(FreeDigests(files, kept), Ordering.Less);
    var order := GroupOrder(files, kept);
    assert |order| == 1 && order[0] in order;
  }

  // --- What is written reads back --------------------------------------------------------------

  lemma NextFileValid(codec: Codec, from: Disk, namespace: Digest, key: string, mutation: Mutation, next: CacheFile)
    requires codec.Lawful() && NextFile(codec, from, namespace, key, mutation, next)
    ensures FileInvariant(next) && Fits(codec, next)
    ensures codec.Read(codec.Serialize(next)) == Clean(next)
    ensures ReadSlot(codec, Content(codec, next)).Clean?
    ensures ReadSlot(codec, Content(codec, next)).file.stores == next.stores
  {
    var file := ReadActive(codec, from.files, namespace).file;
    assert FileInvariant(file);
    var mutated := Mutated(file, key, mutation);
    if mutation.Update? {
      AppliedUnique(if key in file.stores then file.stores[key].entries else [], mutation);
    }
    assert FileInvariant(mutated);
    RetentionKeepsPinned(codec, mutated, OwnKey(key, mutation), RetainedStores(from, namespace), Kept(next));
  }

  /** An update stamps its own store with the new sequence, which makes it the most recently mutated of all. */
  lemma UpdateStampsItsStore(codec: Codec, from: Disk, namespace: Digest, key: string, mutation: Mutation,
                             next: CacheFile)
    requires codec.Lawful() && NextFile(codec, from, namespace, key, mutation, next) && mutation.Update?
    ensures next.mutationSequence == ReadActive(codec, from.files, namespace).file.mutationSequence + 1
    ensures key in next.stores && next.stores[key].lastMutationSequence == next.mutationSequence
    ensures forall other :: other in next.stores && other != key ==>
              next.stores[other].lastMutationSequence < next.mutationSequence
  {
    var file := ReadActive(codec, from.files, namespace).file;
    assert FileInvariant(file);
    RetentionKeepsPinned(codec, Mutated(file, key, mutation), OwnKey(key, mutation), RetainedStores(from, namespace),
                         Kept(next));
    forall other | other in next.stores && other != key
      ensures next.stores[other].lastMutationSequence < next.mutationSequence
    {
      assert ValidStore(file.stores[other], file.mutationSequence);
    }
  }

  /** In an empty directory an update under an active lease succeeds if one store of its size may be stored at all. */
  lemma FirstUpdateSucceeds(codec: Codec, from: Disk, lease: Lease, namespace: Digest, key: string, mutation: Mutation,
                            next: CacheFile)
    requires codec.Lawful() && mutation.Update?
    requires from.files == map[] && IsActive(from, lease) && ControlFits(from)
    requires next == CacheFile(1, map[key := Store(Applied([], mutation), 1)])
    requires codec.Size(next) <= MAX_ACTIVE_FILE_BYTES
    ensures UpdateSucceeds(codec, from, lease, namespace, key, mutation)
  {
    assert next == Mutated(EMPTY_CACHE_FILE, key, mutation);
    FittingFileIsKept(codec, next, OwnKey(key, mutation), RetainedStores(from, namespace));
    assert ProtectedFiles(from, namespace) == map[] && Sizes(map[]) == map[];
    assert UpdateWrites(codec, from, namespace, key, mutation, next);
  }

  lemma FittingFileIsKept(codec: Codec, file: CacheFile, own: Option<string>, retained: set<string>)
    requires Fits(codec, file)
    ensures IsRetention(codec, file, own, retained, Kept(file))
  {
    assert AfterDropping(file, EvictionOrder(file, own, retained), 0) == file;
    assert IsShortestPrefix(codec, file, EvictionOrder(file, own, retained), 0);
  }

  lemma RecoveredFileValid(codec: Codec, from: Disk, namespace: Digest, next: CacheFile)
    requires codec.Lawful() && RecoveredFile(codec, from, namespace, next)
    ensures FileInvariant(next) && Fits(codec, next)
    ensures codec.Read(codec.Serialize(next)) == Clean(next)
  {
    var file := ReadActive(codec, from.files, namespace).file;
    assert FileInvariant(file);
    RetentionKeepsPinned(codec, file, None, RetainedStores(from, namespace), Kept(next));
  }

  /** A recovery writes back all the valid stores if, and only if, they fit into one file as they are. */
  lemma RecoveryKeepsAllIffTheyFit(codec: Codec, from: Disk, namespace: Digest, next: CacheFile)
    requires RecoveredFile(codec, from, namespace, next)
    ensures var parsed := ReadActive(codec, from.files, namespace).file;
            next == parsed <==> Fits(codec, parsed)
  {
    var parsed, retained := ReadActive(codec, from.files, namespace).file, RetainedStores(from, namespace);
    RetentionKeepsPinned(codec, parsed, None, retained, Kept(next));
    if Fits(codec, parsed) {
      FittingFileUntouched(codec, parsed, None, retained, Kept(next));
    }
  }

  /** Whether they fit or not, the valid stores that are retained stay, and nothing is invented. */
  lemma RecoveryKeepsRetained(codec: Codec, from: Disk, namespace: Digest, next: CacheFile)
    requires RecoveredFile(codec, from, namespace, next)
    ensures var parsed := ReadActive(codec, from.files, namespace).file;
            && (forall key :: key in RetainedStores(from, namespace) && key in parsed.stores ==> key in next.stores)
            && (forall key :: key in next.stores ==> key in parsed.stores && next.stores[key] == parsed.stores[key])
  {
    var parsed, retained := ReadActive(codec, from.files, namespace).file, RetainedStores(from, namespace);
    RetentionKeepsPinned(codec, parsed, None, retained, Kept(next));
  }

  /** Of the stores that are not retained it was mutated longest ago; if at once with others, its key is the first. */
  ghost predicate LeastRecent(file: CacheFile, retained: set<string>, gone: string) {
    && gone in file.stores && gone !in retained
    && forall key :: key in file.stores && key !in retained && key != gone ==>
         file.stores[gone].lastMutationSequence < file.stores[key].lastMutationSequence
         || (file.stores[gone].lastMutationSequence == file.stores[key].lastMutationSequence
             && exists i :: PrecedesAt(gone, key, i))
  }

  lemma FirstIsLeastRecent(file: CacheFile, retained: set<string>)
    requires EvictionOrder(file, None, retained) != []
    ensures LeastRecent(file, retained, EvictionOrder(file, None, retained)[0].key)
  {
    var order := EvictionOrder(file, None, retained);
    StoreRetention.OrderMembers(file, None, retained);
    StoreRetention.OrderSorted(file, None, retained);
    var first := order[0];
    assert first in order;
    forall key | key in file.stores && key !in retained && key != first.key
      ensures first.sequence < file.stores[key].lastMutationSequence
              || (first.sequence == file.stores[key].lastMutationSequence && exists i :: PrecedesAt(first.key, key, i))
    {
      var candidate := Candidate(file.stores[key].lastMutationSequence, key);
      assert candidate in Evictable(file, None, retained);
      var j :| 0 <= j < |order| && order[j] == candidate;
      LessMeans(first.key, key);
    }
  }

  /** A corrupt file with nine valid stores loses the least recent of them, and only that if the rest is small enough. */
  lemma NineValidStoresLoseOne(codec: Codec, from: Disk, namespace: Digest, next: CacheFile)
    requires RecoveredFile(codec, from, namespace, next)
    requires |ReadActive(codec, from.files, namespace).file.stores| == 9
    ensures var parsed := ReadActive(codec, from.files, namespace).file;
            exists gone :: LeastRecent(parsed, RetainedStores(from, namespace), gone) && gone !in next.stores
              && (codec.Size(WithoutStore(parsed, gone)) <= MAX_ACTIVE_FILE_BYTES ==> next == WithoutStore(parsed, gone))
  {
    var parsed, retained := ReadActive(codec, from.files, namespace).file, RetainedStores(from, namespace);
    var order := EvictionOrder(parsed, None, retained);
    OrderDistinct(parsed, None, retained);
    var n: nat :| IsShortestPrefix(codec, parsed, order, n) && next == AfterDropping(parsed, order, n);
    assert AfterDropping(parsed, order, 0) == parsed;
    LeftAfterDropping(parsed, order, n);
    assert order[..n][0] == order[0];
    CountAfterDropping(parsed, order, 1);
    assert AfterDropping(parsed, order, 1) == WithoutStore(parsed, order[0].key);
    FirstIsLeastRecent(parsed, retained);
  }

  /** The file is absent, or reads clean and within the limits of one file. */
  ghost predicate WellWritten(codec: Codec, content: Option<Bytes>) {
    content.Some? ==> codec.Read(content.value).Clean? && Fits(codec, codec.Read(content.value).file)
  }

  lemma StepKeepsWellWritten(codec: Codec, control: ControlMeasure, from: Disk, event: Event, d: Disk, namespace: Digest)
    requires codec.Lawful() && Next(codec, control, from, event, d)
    requires !(event.Damaging? && event.namespace == namespace)
    requires WellWritten(codec, Slot(from.files, Active(namespace)))
    ensures WellWritten(codec, Slot(d.files, Active(namespace)))
  {
    NamespaceStep(codec, control, from, event, d, namespace);
    var content := Slot(d.files, Active(namespace));
    if content != Slot(from.files, Active(namespace)) && event.Updating? && event.namespace == namespace {
      var next :| NextFile(codec, from, namespace, event.key, event.mutation, next) && content == Content(codec, next);
      NextFileValid(codec, from, namespace, event.key, event.mutation, next);
    }
  }

  /** Whatever a run wrote, and wherever it stopped, the file reads clean. */
  lemma {:induction false} RunKeepsWellWritten(codec: Codec, control: ControlMeasure, states: seq<Disk>,
                                               events: seq<Event>, i: nat, j: nat,
                                              namespace: Digest)
    requires codec.Lawful() && IsRun(codec, control, states, events) && NamespaceUndamaged(events, namespace)
    requires i <= j < |states| && WellWritten(codec, Slot(states[i].files, Active(namespace)))
    ensures WellWritten(codec, Slot(states[j].files, Active(namespace)))
    decreases j - i
  {
    if i < j {
      assert StepAt(codec, control, states, events, i);
      StepKeepsWellWritten(codec, control, states[i], events[i], states[i + 1], namespace);
      RunKeepsWellWritten(codec, control, states, events, i + 1, j, namespace);
    }
  }

  /** A damaged file that a completed recovery replaced reads clean from then on, as what was recovered. */
  lemma RecoveryRepairs(codec: Codec, from: Disk, d: Disk, namespace: Digest, file: CacheFile)
    requires codec.Lawful() && RecoveredFile(codec, from, namespace, file)
    requires Replaced(codec, from, namespace, Some(codec.Serialize(file)), d)
    ensures ReadActive(codec, d.files, namespace) == Clean(file)
    ensures WellWritten(codec, Slot(d.files, Active(namespace)))
  {
    RecoveredFileValid(codec, from, namespace, file);
  }

  /** What the read without the lock returns: it applies retention to a file that is there. */
  ghost predicate UnlockedRead(codec: Codec, files: Files, namespace: Digest, result: Retention) {
    if Active(namespace) in files then IsRetention(codec, ReadActive(codec, files, namespace).file, None, {}, result)
    else result == Kept(EMPTY_CACHE_FILE)
  }

  /** At every point of a run that read sees what a locked read sees, and never a half-written file. */
  lemma UnlockedReadAgrees(codec: Codec, control: ControlMeasure, states: seq<Disk>, events: seq<Event>, j: nat,
                           namespace: Digest, unlocked: Retention)
    requires codec.Lawful() && IsRun(codec, control, states, events) && NamespaceUndamaged(events, namespace)
    requires j < |states| && WellWritten(codec, Slot(states[0].files, Active(namespace)))
    requires UnlockedRead(codec, states[j].files, namespace, unlocked)
    ensures unlocked.Kept? && ReadActive(codec, states[j].files, namespace) == Clean(unlocked.file)
  {
    RunKeepsWellWritten(codec, control, states, events, 0, j, namespace);
    if Active(namespace) in states[j].files {
      FittingFileUntouched(codec, ReadActive(codec, states[j].files, namespace).file, None, {}, unlocked);
    }
  }

  // --- The mutation sequence -------------------------------------------------------------------

  function SequenceAt(codec: Codec, d: Disk, namespace: Digest): nat {
    ReadActive(codec, d.files, namespace).file.mutationSequence
  }

  /** A step takes the mutation sequence of a namespace back if, and only if, it removes its file. */
  lemma SequenceFallsIff(codec: Codec, control: ControlMeasure, from: Disk, event: Event, d: Disk, namespace: Digest)
    requires codec.Lawful() && Next(codec, control, from, event, d)
    requires !(event.Damaging? && event.namespace == namespace)
    ensures SequenceAt(codec, d, namespace) < SequenceAt(codec, from, namespace)
       <==> Active(namespace) !in d.files && SequenceAt(codec, from, namespace) > 0
  {
    NamespaceStep(codec, control, from, event, d, namespace);
    var content := Slot(d.files, Active(namespace));
    if content.Some? && content != Slot(from.files, Active(namespace)) {
      if event.Updating? {
        var next :| NextFile(codec, from, namespace, event.key, event.mutation, next) && content == Content(codec, next);
        NextFileSequence(codec, from, namespace, event.key, event.mutation, next);
      } else {
        var next :| RecoveredFile(codec, from, namespace, next) && content == Some(codec.Serialize(next));
        RecoveredFileSequence(codec, from, namespace, next);
      }
    }
  }

  lemma NextFileSequence(codec: Codec, from: Disk, namespace: Digest, key: string, mutation: Mutation, next: CacheFile)
    requires codec.Lawful() && NextFile(codec, from, namespace, key, mutation, next)
    ensures codec.Read(codec.Serialize(next)).file.mutationSequence == SequenceAt(codec, from, namespace) + 1
  {
    NextFileValid(codec, from, namespace, key, mutation, next);
    RetentionKeepsPinned(codec, Mutated(ReadActive(codec, from.files, namespace).file, key, mutation),
                         OwnKey(key, mutation), RetainedStores(from, namespace), Kept(next));
  }

  lemma RecoveredFileSequence(codec: Codec, from: Disk, namespace: Digest, next: CacheFile)
    requires codec.Lawful() && RecoveredFile(codec, from, namespace, next)
    ensures codec.Read(codec.Serialize(next)).file.mutationSequence == SequenceAt(codec, from, namespace)
  {
    RecoveredFileValid(codec, from, namespace, next);
    RetentionKeepsPinned(codec, ReadActive(codec, from.files, namespace).file, None, RetainedStores(from, namespace),
                         Kept(next));
  }

  /** So between two points of a run it only rises, unless the file was gone at some point after the first. */
  lemma {:induction false} SequenceRisesWhilePresent(codec: Codec, control: ControlMeasure, states: seq<Disk>,
                                                     events: seq<Event>, i: nat, j: nat, namespace: Digest)
    requires codec.Lawful() && IsRun(codec, control, states, events) && NamespaceUndamaged(events, namespace)
    requires i <= j < |states|
    requires forall k :: i < k <= j ==> Active(namespace) in states[k].files
    ensures SequenceAt(codec, states[i], namespace) <= SequenceAt(codec, states[j], namespace)
    decreases j
  {
    if i < j {
      SequenceRisesWhilePresent(codec, control, states, events, i, j - 1, namespace);
      assert StepAt(codec, control, states, events, j - 1);
      SequenceFallsIff(codec, control, states[j - 1], events[j - 1], states[j], namespace);
    }
  }

  // --- Fencing ---------------------------------------------------------------------------------

  predicate UnderLease(event: Event, lease: Lease) {
    (event.Updating? || event.Recovering? || event.Admitting?) && event.lease == lease
  }

  /** An operation under a lease takes effect only while that lease is active, from start to end. */
  lemma EffectNeedsActiveLease(codec: Codec, control: ControlMeasure, from: Disk, event: Event, d: Disk, lease: Lease)
    requires Next(codec, control, from, event, d) && UnderLease(event, lease) && d != from
    ensures IsActive(from, lease) && IsActive(d, lease) && d.writers == from.writers
  {
  }

  lemma OnlyActivationActivates(codec: Codec, control: ControlMeasure, from: Disk, event: Event, d: Disk, lease: Lease)
    requires Next(codec, control, from, event, d) && !IsActive(from, lease) && IsActive(d, lease)
    ensures event == Activating(lease)
  {
  }

  /** A lease ends by its own revocation or release, by a newer activation of its session, or by a reset. */
  lemma ActiveLeaseEndsOnlyByName(codec: Codec, control: ControlMeasure, from: Disk, event: Event, d: Disk, lease: Lease)
    requires Next(codec, control, from, event, d) && IsActive(from, lease) && !IsActive(d, lease)
    ensures || event == Revoking(lease) || event == Releasing(lease) || event == Resetting
            || (event.Activating? && event.lease.sessionId == lease.sessionId && event.lease != lease)
  {
  }

  /** A session has one active token: activating another one at once takes the old one's place. */
  lemma NewerActivationFences(control: ControlMeasure, from: Disk, newer: Lease, d: Disk, older: Lease)
    requires ActivationPoint(control, from, newer, d) && d.writers != from.writers
    requires older.sessionId == newer.sessionId && older != newer
    ensures IsActive(d, newer) && !IsActive(d, older)
  {
  }

  /** Once a token is inactive, nothing under it takes effect again unless it is activated again. */
  lemma {:induction false} FencedForever(codec: Codec, control: ControlMeasure, states: seq<Disk>,
                                         events: seq<Event>, i: nat, j: nat,
                                        lease: Lease)
    requires IsRun(codec, control, states, events) && i <= j < |events| && !IsActive(states[i], lease)
    requires forall k :: i <= k < j ==> events[k] != Activating(lease)
    ensures !IsActive(states[j], lease)
    ensures UnderLease(events[j], lease) ==> states[j + 1] == states[j]
    decreases j - i
  {
    if i < j {
      assert StepAt(codec, control, states, events, i);
      if IsActive(states[i + 1], lease) {
        OnlyActivationActivates(codec, control, states[i], events[i], states[i + 1], lease);
      }
      FencedForever(codec, control, states, events, i + 1, j, lease);
    } else if states[j + 1] != states[j] && UnderLease(events[j], lease) {
      assert StepAt(codec, control, states, events, j);
      EffectNeedsActiveLease(codec, control, states[j], events[j], states[j + 1], lease);
    }
  }

  // --- Retention over whole runs ---------------------------------------------------------------

  function StoreAt(codec: Codec, d: Disk, namespace: Digest, key: string): Option<Store> {
    var stores := ReadActive(codec, d.files, namespace).file.stores;
    if key in stores then Some(stores[key]) else None
  }

  function EntriesAt(codec: Codec, d: Disk, namespace: Digest, key: string): seq<Entry> {
    var store := StoreAt(codec, d, namespace, key);
    if store.Some? then store.value.entries else []
  }

  predicate Addressed(event: Event, namespace: Digest, key: string) {
    event.Updating? && event.namespace == namespace && event.key == key
  }

  /** A mutation of this store took effect: it was the one asked for, and the namespace file changed. */
  predicate Commits(from: Disk, event: Event, d: Disk, namespace: Digest, key: string) {
    Addressed(event, namespace, key) && Slot(d.files, Active(namespace)) != Slot(from.files, Active(namespace))
  }

  /**
   * A step leaves a retained store as it was, unless it commits a mutation of it, and then exactly that is
   * applied. The file may be corrupt, or too large: a recovery leaves its valid retained stores as they were.
   */
  lemma StepKeepsRetained(codec: Codec, control: ControlMeasure, from: Disk, event: Event, d: Disk, namespace: Digest,
                          key: string)
    requires codec.Lawful() && Next(codec, control, from, event, d)
    requires !(event.Damaging? && event.namespace == namespace)
    requires Address(namespace, key) in RetainedAddresses(from.records)
    ensures if Commits(from, event, d, namespace, key) then
              && IsActive(from, event.lease)
              && EntriesAt(codec, d, namespace, key) == Applied(EntriesAt(codec, from, namespace, key), event.mutation)
              && (StoreAt(codec, d, namespace, key).None? <==> event.mutation.Clear?)
            else
              StoreAt(codec, d, namespace, key) == StoreAt(codec, from, namespace, key)
  {
    NamespaceStep(codec, control, from, event, d, namespace);
    RetainedPathsProtect(from, namespace, key);
    var content := Slot(d.files, Active(namespace));
    if content != Slot(from.files, Active(namespace)) {
      if event.Updating? {
        var next :| NextFile(codec, from, namespace, event.key, event.mutation, next) && content == Content(codec, next);
        NextFileValid(codec, from, namespace, event.key, event.mutation, next);
        NextFileStores(codec, from, namespace, event.key, event.mutation, next, key);
      } else {
        var next :| RecoveredFile(codec, from, namespace, next) && content == Some(codec.Serialize(next));
        RecoveredFileValid(codec, from, namespace, next);
        RecoveryKeepsRetained(codec, from, namespace, next);
      }
    }
  }

  lemma RetainedPathsProtect(from: Disk, namespace: Digest, key: string)
    requires Address(namespace, key) in RetainedAddresses(from.records)
    ensures Active(namespace) in RetainedPaths(from)
    ensures key in RetainedStores(from, namespace)
  {
    assert Address(namespace, key).namespace == namespace;
  }

  lemma NextFileStores(codec: Codec, from: Disk, namespace: Digest, own: string, mutation: Mutation, next: CacheFile,
                       key: string)
    requires NextFile(codec, from, namespace, own, mutation, next)
    ensures var stores := ReadActive(codec, from.files, namespace).file.stores;
            var mutated := Mutated(ReadActive(codec, from.files, namespace).file, own, mutation).stores;
            && (key in next.stores ==> key in mutated && next.stores[key] == mutated[key])
            && (key in RetainedStores(from, namespace) || (key == own && mutation.Update?) ==>
                  (key in next.stores <==> key in mutated))
            && (key != own ==> (key in mutated <==> key in stores) && (key in mutated ==> mutated[key] == stores[key]))
  {
    var file := ReadActive(codec, from.files, namespace).file;
    RetentionKeepsPinned(codec, Mutated(file, own, mutation), OwnKey(own, mutation), RetainedStores(from, namespace),
                         Kept(next));
  }

  /** The mutations of one store that took effect in a run, in order. */
  function CommittedMutations(states: seq<Disk>, events: seq<Event>, namespace: Digest, key: string): seq<Mutation>
    requires |states| == |events| + 1
    decreases |events|
  {
    if events == [] then []
    else
      var n := |events| - 1;
      CommittedMutations(states[..n + 1], events[..n], namespace, key)
      + if Commits(states[n], events[n], states[n + 1], namespace, key) then [events[n].mutation] else []
  }

  function FoldedFrom(entries: seq<Entry>, mutations: seq<Mutation>): seq<Entry> {
    if mutations == [] then entries
    else Applied(FoldedFrom(entries, mutations[..|mutations| - 1]), mutations[|mutations| - 1])
  }

  /** What ends the hold of a session and its token on everything they admitted. */
  predicate EndsHold(event: Event, lease: Lease) {
    event.Resetting? || (event.Releasing? && IdOf(event.lease) == IdOf(lease))
  }

  lemma StepKeepsHold(codec: Codec, control: ControlMeasure, from: Disk, event: Event, d: Disk, lease: Lease,
                      address: Address)
    requires Next(codec, control, from, event, d) && !EndsHold(event, lease) && address in HeldAddresses(from, lease)
    ensures address in HeldAddresses(d, lease)
  {
  }

  /** A record keeps an address until its own release, or a reset, whatever else happens to the directory. */
  lemma {:induction false} HoldPersists(codec: Codec, control: ControlMeasure, states: seq<Disk>, events: seq<Event>,
                                        i: nat, j: nat, lease: Lease, address: Address)
    requires IsRun(codec, control, states, events) && i <= j < |states| && address in HeldAddresses(states[i], lease)
    requires forall k :: i <= k < j ==> !EndsHold(events[k], lease)
    ensures address in HeldAddresses(states[j], lease) && address in RetainedAddresses(states[j].records)
    decreases j
  {
    if i < j {
      HoldPersists(codec, control, states, events, i, j - 1, lease, address);
      assert StepAt(codec, control, states, events, j - 1);
      StepKeepsHold(codec, control, states[j - 1], events[j - 1], states[j], lease, address);
    }
    assert IdOf(lease) in states[j].records;
  }

  ghost predicate RetainedThroughout(states: seq<Disk>, namespace: Digest, key: string) {
    forall k :: 0 <= k < |states| ==> Address(namespace, key) in RetainedAddresses(states[k].records)
  }

  /** The store is what the mutations done make of what it was: untouched, or their fold and present unless cleared. */
  ghost predicate HoldsAfter(codec: Codec, first: Disk, done: seq<Mutation>, d: Disk, namespace: Digest, key: string) {
    && EntriesAt(codec, d, namespace, key) == FoldedFrom(EntriesAt(codec, first, namespace, key), done)
    && if done == [] then
         StoreAt(codec, d, namespace, key) == StoreAt(codec, first, namespace, key)
       else
         StoreAt(codec, d, namespace, key).None? <==> done[|done| - 1].Clear?
  }

  /**
   * From any point at which a lease holds an address, which is what an admission ends with, until its record
   * is released or all are reset, the store is exactly what it was with the mutations of its own that took
   * effect applied in order. It is absent only if it was absent and none took effect, or if the last that did
   * was a clear: no other session's update, admission, quota pass, recovery, release or crash drops it or
   * alters it.
   */
  lemma RetentionOverRuns(codec: Codec, control: ControlMeasure, states: seq<Disk>, events: seq<Event>,
                          lease: Lease, namespace: Digest, key: string)
    requires codec.Lawful() && IsRun(codec, control, states, events) && NamespaceUndamaged(events, namespace)
    requires Address(namespace, key) in HeldAddresses(states[0], lease)
    requires forall k :: 0 <= k < |events| ==> !EndsHold(events[k], lease)
    ensures HoldsAfter(codec, states[0], CommittedMutations(states, events, namespace, key), states[|events|],
                       namespace, key)
  {
    forall k | 0 <= k < |states| ensures Address(namespace, key) in RetainedAddresses(states[k].records) {
      HoldPersists(codec, control, states, events, 0, k, lease, Address(namespace, key));
    }
    RetainedStoreOverRuns(codec, control, states, events, namespace, key);
  }

  /** The same for as long as there is some record that holds the address, be it now one and now another. */
  lemma {:induction false} RetainedStoreOverRuns(codec: Codec, control: ControlMeasure, states: seq<Disk>,
                                            events: seq<Event>, namespace: Digest, key: string)
    requires codec.Lawful() && IsRun(codec, control, states, events) && NamespaceUndamaged(events, namespace)
    requires RetainedThroughout(states, namespace, key)
    ensures HoldsAfter(codec, states[0], CommittedMutations(states, events, namespace, key), states[|events|],
                       namespace, key)
    decreases |events|
  {
    if events != [] {
      var n := |events| - 1;
      RunPrefix(codec, control, states, events, n);
      RetainedPrefix(states, n + 1, namespace, key);
      RetainedStoreOverRuns(codec, control, states[..n + 1], events[..n], namespace, key);
      assert StepAt(codec, control, states, events, n);
      HoldsAfterOneMore(codec, control, states[0], CommittedMutations(states[..n + 1], events[..n], namespace, key),
                        states[n], events[n], states[n + 1], namespace, key);
    }
  }

  lemma HoldsAfterOneMore(codec: Codec, control: ControlMeasure, first: Disk, done: seq<Mutation>, from: Disk,
                          event: Event, d: Disk, namespace: Digest, key: string)
    requires codec.Lawful() && Next(codec, control, from, event, d)
    requires !(event.Damaging? && event.namespace == namespace)
    requires Address(namespace, key) in RetainedAddresses(from.records)
    requires HoldsAfter(codec, first, done, from, namespace, key)
    ensures var more := if Commits(from, event, d, namespace, key) then [event.mutation] else [];
            HoldsAfter(codec, first, done + more, d, namespace, key)
  {
    StepKeepsRetained(codec, control, from, event, d, namespace, key);
    if Commits(from, event, d, namespace, key) {
      assert (done + [event.mutation])[..|done|] == done;
    } else {
      assert done + [] == done;
    }
  }

  lemma RetainedPrefix(states: seq<Disk>, n: nat, namespace: Digest, key: string)
    requires RetainedThroughout(states, namespace, key) && n <= |states|
    ensures RetainedThroughout(states[..n], namespace, key)
  {
  }

  lemma RunPrefix(codec: Codec, control: ControlMeasure, states: seq<Disk>, events: seq<Event>, n: nat)
    requires IsRun(codec, control, states, events) && n <= |events|
    ensures IsRun(codec, control, states[..n + 1], events[..n])
  {
    var shorter, fewer := states[..n + 1], events[..n];
    forall i | 0 <= i < n ensures StepAt(codec, control, shorter, fewer, i) {
      assert StepAt(codec, control, states, events, i);
    }
  }

  // --- Refinement to plain ordered maps --------------------------------------------------------

  type Log = map<string, seq<Mutation>>

  function Past(log: Log, key: string): seq<Mutation> {
    if key in log then log[key] else []
  }

  function Extended(keys: set<string>, own: string, mutation: Mutation, log: Log): Log {
    map key | key in keys :: if key == own then Past(log, key) + [mutation] else Past(log, key)
  }

  /**
   * The mutations each present store has undergone since it was last created, cleared or evicted,
   * after one more step.
   */
  function LogAfter(codec: Codec, from: Disk, event: Event, d: Disk, namespace: Digest, log: Log): Log {
    var stores := ReadActive(codec, d.files, namespace).file.stores;
    var committed := Slot(d.files, Active(namespace)) != Slot(from.files, Active(namespace));
    if committed && event.Updating? && event.namespace == namespace then
      Extended(stores.Keys, event.key, event.mutation, log)
    else
      map key | key in stores :: Past(log, key)
  }

  function LogAt(codec: Codec, states: seq<Disk>, events: seq<Event>, namespace: Digest, n: nat): Log
    requires n < |states| && |states| == |events| + 1
  {
    if n == 0 then map[]
    else LogAfter(codec, states[n - 1], events[n - 1], states[n], namespace,
                  LogAt(codec, states, events, namespace, n - 1))
  }

  ghost predicate Explains(codec: Codec, log: Log, d: Disk, namespace: Digest) {
    var stores := ReadActive(codec, d.files, namespace).file.stores;
    && log.Keys == stores.Keys
    && forall key :: key in stores ==> stores[key].entries == Folded(log[key])
  }

  lemma StepRefines(codec: Codec, control: ControlMeasure, from: Disk, event: Event, d: Disk, namespace: Digest, log: Log)
    requires codec.Lawful() && Next(codec, control, from, event, d)
    requires !(event.Damaging? && event.namespace == namespace)
    requires WellWritten(codec, Slot(from.files, Active(namespace))) && Explains(codec, log, from, namespace)
    ensures Explains(codec, LogAfter(codec, from, event, d, namespace, log), d, namespace)
  {
    NamespaceStep(codec, control, from, event, d, namespace);
    var content := Slot(d.files, Active(namespace));
    if content != Slot(from.files, Active(namespace)) && event.Updating? && event.namespace == namespace {
      var next :| NextFile(codec, from, namespace, event.key, event.mutation, next) && content == Content(codec, next);
      CommitRefines(codec, from, event, d, namespace, log, next);
    }
  }

  /** A committed update folds its mutation into its own store, and leaves the others as they were. */
  lemma CommitRefines(codec: Codec, from: Disk, event: Event, d: Disk, namespace: Digest, log: Log, next: CacheFile)
    requires codec.Lawful() && event.Updating? && event.namespace == namespace
    requires NextFile(codec, from, namespace, event.key, event.mutation, next)
    requires Slot(d.files, Active(namespace)) == Content(codec, next) != Slot(from.files, Active(namespace))
    requires Explains(codec, log, from, namespace)
    ensures Explains(codec, LogAfter(codec, from, event, d, namespace, log), d, namespace)
  {
    NextFileValid(codec, from, namespace, event.key, event.mutation, next);
    forall key | key in next.stores
      ensures next.stores[key].entries
           == Folded(if key == event.key then Past(log, key) + [event.mutation] else Past(log, key))
    {
      StoreFolds(codec, from, namespace, event.key, event.mutation, next, key, log);
    }
  }

  lemma StoreFolds(codec: Codec, from: Disk, namespace: Digest, own: string, mutation: Mutation, next: CacheFile,
                   key: string, log: Log)
    requires NextFile(codec, from, namespace, own, mutation, next) && key in next.stores
    requires Explains(codec, log, from, namespace)
    ensures next.stores[key].entries == Folded(if key == own then Past(log, key) + [mutation] else Past(log, key))
  {
    NextFileStores(codec, from, namespace, own, mutation, next, key);
    assert (Past(log, key) + [mutation])[..|Past(log, key)|] == Past(log, key);
  }

  /**
   * After any run from an absent file, every store present holds exactly the fold of its own committed
   * mutations since it was last created, cleared or evicted.
   */
  lemma {:induction false} RunRefinesPlainMaps(codec: Codec, control: ControlMeasure, states: seq<Disk>,
                                               events: seq<Event>, namespace: Digest,
                                              n: nat)
    requires codec.Lawful() && IsRun(codec, control, states, events) && NamespaceUndamaged(events, namespace)
    requires n < |states| && Active(namespace) !in states[0].files
    ensures Explains(codec, LogAt(codec, states, events, namespace, n), states[n], namespace)
  {
    if n > 0 {
      RunRefinesPlainMaps(codec, control, states, events, namespace, n - 1);
      RunKeepsWellWritten(codec, control, states, events, 0, n - 1, namespace);
      assert StepAt(codec, control, states, events, n - 1);
      StepRefines(codec, control, states[n - 1], events[n - 1], states[n], namespace,
                  LogAt(codec, states, events, namespace, n - 1));
    }
  }

  /**
   * So every store present reads as a plain map that underwent those mutations, with no key twice. The order
   * of its entries is that of `CacheEntries.MutationMeaning`.
   */
  lemma RunReadsAsPlainMaps(codec: Codec, control: ControlMeasure, states: seq<Disk>, events: seq<Event>,
                            namespace: Digest, n: nat)
    requires codec.Lawful() && IsRun(codec, control, states, events) && NamespaceUndamaged(events, namespace)
    requires n < |states| && Active(namespace) !in states[0].files
    ensures var stores := ReadActive(codec, states[n].files, namespace).file.stores;
            var log := LogAt(codec, states, events, namespace, n);
            log.Keys == stores.Keys
            && forall key :: key in stores ==>
                 UniqueKeys(stores[key].entries) && AsMap(stores[key].entries) == MapFolded(log[key])
  {
    RunRefinesPlainMaps(codec, control, states, events, namespace, n);
    var stores := ReadActive(codec, states[n].files, namespace).file.stores;
    var log := LogAt(codec, states, events, namespace, n);
    forall key | key in stores
      ensures UniqueKeys(stores[key].entries) && AsMap(stores[key].entries) == MapFolded(log[key])
    {
      FoldedRefinesMap(log[key]);
    }
  }
}
