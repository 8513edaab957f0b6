/**
 * A cache directory shared by several processes, and the operations on it. Each operation holds the
 * directory lock for its whole duration, so it is one method here; `points` collects every state the
 * directory goes through meanwhile, which is where a crash may leave it and what an unlocked reader sees.
 */
module CacheDirectories {
  import opened Wrappers
  import opened Numbers
  import opened Totals
  import opened CacheEntries
  import opened CacheFiles
  import opened StoreRetention
  import opened ControlRecords
  import opened DirectoryQuota

  const MAX_CORRUPT_FILE_BYTES: nat := 16 * 1024 * 1024
  const COPY_BUFFER_BYTES: nat := 64 * 1024
  const MAX_RECORD_ADDRESSES: nat := 256

  datatype Lease = Lease(sessionId: string, token: string, principal: string)

  /** The name of a retention record: the digest of its session and token. */
  datatype RecordId = RecordId(sessionId: string, token: string)

  datatype Address = Address(namespace: Digest, store: string)

  datatype Record = Record(addresses: set<Address>, principal: string)

  /** The serialized sizes of control records. */
  datatype ControlMeasure = ControlMeasure(lease: Lease -> nat, record: (RecordId, Record) -> nat) {
    function LeaseBytes(value: Lease): nat {
      lease(value)
    }

    function RecordBytes(id: RecordId, value: Record): nat {
      record(id, value)
    }
  }

  /** Everything the directory holds: store artifacts, writer leases by session, retention records. */
  datatype Disk = Disk(
    files: Files, writers: map<string, Lease>, records: map<RecordId, Record>, controlTemporaries: nat)

  // --- Reading the directory -------------------------------------------------------------------

  predicate IsActive(disk: Disk, lease: Lease) {
    lease.sessionId in disk.writers && disk.writers[lease.sessionId] == lease
  }

  function IdOf(lease: Lease): RecordId {
    RecordId(lease.sessionId, lease.token)
  }

  function RetainedAddresses(records: map<RecordId, Record>): set<Address> {
    set id, address | id in records && address in records[id].addresses :: address
  }

  function StoresIn(addresses: set<Address>, namespace: Digest): set<string> {
    set address | address in addresses && address.namespace == namespace :: address.store
  }

  function RetainedStores(disk: Disk, namespace: Digest): set<string> {
    StoresIn(RetainedAddresses(disk.records), namespace)
  }

  function PathsOf(addresses: set<Address>): set<Artifact> {
    (set address | address in addresses :: Active(address.namespace))
    + (set address | address in addresses :: Quarantined(address.namespace))
  }

  /** The paths `readRetainedCacheArtifactPaths` protects in every quota pass. */
  function RetainedPaths(disk: Disk): set<Artifact> {
    PathsOf(RetainedAddresses(disk.records))
  }

  /** The control records are within their budget; see `ControlListings.BudgetIsControlFits`. */
  predicate ControlFits(disk: Disk) {
    |disk.writers| <= MAX_WRITER_FILES && |disk.records| <= MAX_RETENTION_FILES
  }

  function Slot(files: Files, artifact: Artifact): Option<Bytes> {
    if artifact in files then Some(files[artifact]) else None
  }

  function ReadSlot(codec: Codec, content: Option<Bytes>): Parsed {
    if content.None? then Clean(EMPTY_CACHE_FILE) else codec.Read(content.value)
  }

  function ReadActive(codec: Codec, files: Files, namespace: Digest): Parsed {
    ReadSlot(codec, Slot(files, Active(namespace)))
  }

  function Prefix(content: Bytes): Bytes {
    if |content| <= MAX_CORRUPT_FILE_BYTES then content else content[..MAX_CORRUPT_FILE_BYTES]
  }

  /** Evidence is the beginning of the corrupt file, all of it unless that is more than 16 MiB. */
  lemma PrefixIsBeginning(content: Bytes)
    ensures Prefix(content) <= content
    ensures |Prefix(content)| == if |content| <= 16 * 1024 * 1024 then |content| else 16 * 1024 * 1024
  {
  }

  predicate NoTemporaries(files: Files) {
    forall artifact :: artifact in files ==> !artifact.Temporary?
  }

  function OwnPaths(namespace: Digest): set<Artifact> {
    {Active(namespace), Quarantined(namespace)}
  }

  // --- What the points of an operation have in common ------------------------------------------

  ghost predicate ControlKept(from: Disk, d: Disk) {
    d.writers == from.writers && d.records == from.records && d.controlTemporaries <= from.controlTemporaries
  }

  /** A point of a quota pass: files only disappear, and none that is still there at the end. */
  ghost predicate PassPoint(from: Disk, atEnd: Files, d: Disk) {
    ControlKept(from, d) && Submap(d.files, from.files) && Submap(atEnd, d.files)
  }

  /** Outside its own namespace an operation creates nothing, changes nothing, and spares what is retained. */
  ghost predicate OthersSpared(from: Disk, namespace: Digest, files: Files) {
    && (forall artifact :: artifact in files && artifact.digest != namespace
          ==> artifact in from.files && files[artifact] == from.files[artifact])
    && (forall artifact :: artifact in from.files && artifact in RetainedPaths(from) ==>
          artifact.digest == namespace || artifact in files)
  }

  /** The evidence file after an operation on a namespace that did, or did not, read as corrupt. */
  function EvidenceAfter(files: Files, namespace: Digest, corrupted: bool): Option<Bytes> {
    if corrupted && Active(namespace) in files then Some(Prefix(files[Active(namespace)]))
    else if Quarantined(namespace) in files then Some(Prefix(files[Quarantined(namespace)]))
    else None
  }

  /**
   * A point of an operation that replaces a namespace file by `next`: the file is wholly old or wholly
   * new, and once it is new the evidence is in place.
   */
  ghost predicate ReplacePoint(from: Disk, namespace: Digest, corrupted: bool, next: Option<Bytes>, d: Disk) {
    var evidence := EvidenceAfter(from.files, namespace, corrupted);
    && ControlKept(from, d)
    && OthersSpared(from, namespace, d.files)
    && (Slot(d.files, Quarantined(namespace)) == Slot(from.files, Quarantined(namespace))
        || Slot(d.files, Quarantined(namespace)) == evidence)
    && (Slot(d.files, Active(namespace)) == Slot(from.files, Active(namespace))
        || (Slot(d.files, Active(namespace)) == next && Slot(d.files, Quarantined(namespace)) == evidence))
  }

  /** The files that no operation on this namespace may evict: its own and the retained ones. */
  function ProtectedFiles(disk: Disk, namespace: Digest): Files {
    Only(disk.files, OwnPaths(namespace) + RetainedPaths(disk))
  }

  /** Next to them there is room for one more file of `bytes` bytes; everything else can be evicted for it. */
  ghost predicate RoomFor(disk: Disk, namespace: Digest, bytes: nat) {
    !Exceeds(ProtectedFiles(disk, namespace), Reservation(bytes, 1))
  }

  /** Evidence has to be written: the file is corrupt, or older evidence is too large. */
  predicate NeedsEvidence(files: Files, namespace: Digest, corrupted: bool) {
    corrupted
    || (Quarantined(namespace) in files && |files[Quarantined(namespace)]| > MAX_CORRUPT_FILE_BYTES)
  }

  function WithSlot(files: Files, artifact: Artifact, content: Option<Bytes>): Files {
    if content.Some? then files[artifact := content.value] else files - {artifact}
  }

  /** There is room for the evidence, if any is needed, and then next to it for the new content, if any. */
  ghost predicate ReplaceFits(disk: Disk, namespace: Digest, corrupted: bool, next: Option<Bytes>) {
    var evidence := EvidenceAfter(disk.files, namespace, corrupted);
    && (NeedsEvidence(disk.files, namespace, corrupted) && evidence.Some? ==>
          RoomFor(disk, namespace, |evidence.value|))
    && (next.Some? ==>
          !Exceeds(WithSlot(ProtectedFiles(disk, namespace), Quarantined(namespace), evidence),
                   Reservation(|next.value|, 1)))
  }

  /** Space: either files have only been removed so far, or the quota holds. */
  ghost predicate SpacePoint(from: Disk, d: Disk) {
    Submap(d.files, from.files) || WithinQuota(d.files)
  }

  // --- What one update or recovery is to write -------------------------------------------------

  function OwnKey(key: string, mutation: Mutation): Option<string> {
    if mutation.Clear? then None else Some(key)
  }

  /** The namespace file after a mutation of one store, before retention. */
  function Mutated(file: CacheFile, key: string, mutation: Mutation): CacheFile {
    var current := if key in file.stores then file.stores[key].entries else [];
    var sequence := file.mutationSequence + 1;
    CacheFile(sequence,
              if mutation.Clear? then file.stores - {key}
              else file.stores[key := Store(Applied(current, mutation), sequence)])
  }

  /** What an update writes, given what it reads. */
  ghost predicate NextFile(codec: Codec, from: Disk, namespace: Digest, key: string, mutation: Mutation,
                           next: CacheFile)
  {
    var file := ReadActive(codec, from.files, namespace).file;
    && file.mutationSequence < MAX_SAFE_INTEGER
    && IsRetention(codec, Mutated(file, key, mutation), OwnKey(key, mutation),
                   RetainedStores(from, namespace), Kept(next))
  }

  /** What a recovery writes. */
  ghost predicate RecoveredFile(codec: Codec, from: Disk, namespace: Digest, next: CacheFile) {
    var parsed := ReadActive(codec, from.files, namespace);
    && parsed.Corrupt?
    && IsRetention(codec, parsed.file, None, RetainedStores(from, namespace), Kept(next))
  }

  /** An update that leaves no store removes the file; a recovery always writes one. */
  function Content(codec: Codec, file: CacheFile): Option<Bytes> {
    if file.stores == map[] then None else Some(codec.Serialize(file))
  }

  /** A point of an operation under this lease that may replace a namespace file by `content`. */
  ghost predicate WriterPoint(codec: Codec, from: Disk, lease: Lease, namespace: Digest, content: Option<Bytes>,
                              d: Disk)
  {
    && IsActive(from, lease)
    && SpacePoint(from, d)
    && ReplacePoint(from, namespace, ReadActive(codec, from.files, namespace).Corrupt?, content, d)
  }

  /** The content is what was there, or what the update is to write. */
  ghost predicate UpdateContent(codec: Codec, from: Disk, namespace: Digest, key: string, mutation: Mutation,
                                content: Option<Bytes>)
  {
    || content == Slot(from.files, Active(namespace))
    || exists next :: NextFile(codec, from, namespace, key, mutation, next) && content == Content(codec, next)
  }

  /** Where a crash may leave an update. */
  ghost predicate UpdatePoint(codec: Codec, from: Disk, lease: Lease, namespace: Digest, key: string,
                              mutation: Mutation, d: Disk)
  {
    d == from || exists content ::
      UpdateContent(codec, from, namespace, key, mutation, content)
      && WriterPoint(codec, from, lease, namespace, content, d)
  }

  ghost predicate RecoveryContent(codec: Codec, from: Disk, namespace: Digest, content: Option<Bytes>) {
    || content == Slot(from.files, Active(namespace))
    || exists next :: RecoveredFile(codec, from, namespace, next) && content == Some(codec.Serialize(next))
  }

  /** Where a crash may leave a read that repairs a corrupt file. */
  ghost predicate RecoveryPoint(codec: Codec, from: Disk, lease: Lease, namespace: Digest, d: Disk) {
    d == from || exists content ::
      RecoveryContent(codec, from, namespace, content) && WriterPoint(codec, from, lease, namespace, content, d)
  }

  /** The files of a namespace after a completed replacement. */
  ghost predicate Replaced(codec: Codec, from: Disk, namespace: Digest, content: Option<Bytes>, d: Disk) {
    && Slot(d.files, Active(namespace)) == content
    && Slot(d.files, Quarantined(namespace))
         == EvidenceAfter(from.files, namespace, ReadActive(codec, from.files, namespace).Corrupt?)
    && NoTemporaries(d.files) && WithinQuota(d.files)
  }

  ghost predicate Updated(codec: Codec, from: Disk, namespace: Digest, key: string, mutation: Mutation, d: Disk) {
    exists next ::
      NextFile(codec, from, namespace, key, mutation, next)
      && Replaced(codec, from, namespace, Content(codec, next), d)
  }

  /** The lease is active, the control records fit, and what may not be evicted is within the quota. */
  ghost predicate Opens(disk: Disk, lease: Lease, namespace: Digest) {
    IsActive(disk, lease) && ControlFits(disk) && WithinQuota(ProtectedFiles(disk, namespace))
  }

  /** An update has this to write, and there is room for it. */
  ghost predicate UpdateWrites(codec: Codec, from: Disk, namespace: Digest, key: string, mutation: Mutation,
                               next: CacheFile)
  {
    && NextFile(codec, from, namespace, key, mutation, next)
    && ReplaceFits(from, namespace, ReadActive(codec, from.files, namespace).Corrupt?, Content(codec, next))
  }

  /** When an update succeeds. */
  ghost predicate UpdateSucceeds(codec: Codec, from: Disk, lease: Lease, namespace: Digest, key: string,
                                 mutation: Mutation)
  {
    Opens(from, lease, namespace) && exists next :: UpdateWrites(codec, from, namespace, key, mutation, next)
  }

  ghost predicate RecoveryWrites(codec: Codec, from: Disk, namespace: Digest, next: CacheFile) {
    && RecoveredFile(codec, from, namespace, next)
    && ReplaceFits(from, namespace, true, Some(codec.Serialize(next)))
  }

  /** When the recovery of a corrupt file succeeds. */
  ghost predicate RecoverySucceeds(codec: Codec, from: Disk, lease: Lease, namespace: Digest) {
    Opens(from, lease, namespace) && exists next :: RecoveryWrites(codec, from, namespace, next)
  }

  /** At most eight stores are retained here, and the store to be written, if any, is one of them. */
  predicate HasRoom(disk: Disk, namespace: Digest, key: string, mutation: Mutation) {
    && |RetainedStores(disk, namespace)| <= MAX_STORES_PER_FILE
    && (mutation.Clear? || key in RetainedStores(disk, namespace))
  }

  // --- Leases and retention --------------------------------------------------------------------

  /** Where a crash may leave an activation: no store artifact moves, at most one temporary is left. */
  ghost predicate ActivationPoint(control: ControlMeasure, from: Disk, lease: Lease, d: Disk) {
    && d.files == from.files && d.records == from.records
    && (d.controlTemporaries <= from.controlTemporaries || d.controlTemporaries <= 1)
    && (d.writers == from.writers
        || (d.writers == from.writers[lease.sessionId := lease] && |d.writers| <= MAX_WRITER_FILES
            && control.LeaseBytes(lease) <= WRITER_MAX_FILE_BYTES))
  }

  /** Where a crash may leave a revocation. */
  ghost predicate RevocationPoint(from: Disk, lease: Lease, d: Disk) {
    d == from || (IsActive(from, lease) && d == from.(writers := from.writers - {lease.sessionId}))
  }

  predicate HoldsRecord(disk: Disk, lease: Lease) {
    IdOf(lease) in disk.records && disk.records[IdOf(lease)].principal == lease.principal
  }

  /** Where a crash may leave a release: the lease goes first, then the record. */
  ghost predicate ReleasePoint(from: Disk, lease: Lease, d: Disk) {
    var revoked := if IsActive(from, lease) then from.(writers := from.writers - {lease.sessionId}) else from;
    || d == from
    || d == revoked
    || (HoldsRecord(from, lease) && d == revoked.(records := from.records - {IdOf(lease)}))
  }

  /** Where a crash may leave a reset: control records only disappear. */
  ghost predicate ResetPoint(from: Disk, d: Disk) {
    && d.files == from.files && d.controlTemporaries <= from.controlTemporaries
    && Submap(d.writers, from.writers) && Submap(d.records, from.records)
  }

  function HeldAddresses(disk: Disk, lease: Lease): set<Address> {
    if IdOf(lease) in disk.records then disk.records[IdOf(lease)].addresses else {}
  }

  /** No namespace has more than eight distinct stores among these addresses. */
  ghost predicate StoreBudgetHolds(addresses: set<Address>) {
    forall namespace :: |StoresIn(addresses, namespace)| <= MAX_STORES_PER_FILE
  }

  function WithAdmission(disk: Disk, lease: Lease, address: Address): map<RecordId, Record> {
    disk.records[IdOf(lease) := Record(HeldAddresses(disk, lease) + {address}, lease.principal)]
  }

  /** The lease owns its record, if there is one, and every limit allows the larger one. */
  ghost predicate Admissible(disk: Disk, lease: Lease, address: Address) {
    && (IdOf(lease) in disk.records ==> HoldsRecord(disk, lease))
    && |HeldAddresses(disk, lease) + {address}| <= MAX_RECORD_ADDRESSES
    && ControlFits(disk)
    && StoreBudgetHolds(RetainedAddresses(disk.records) + (HeldAddresses(disk, lease) + {address}))
  }

  /**
   * The record has the address already; or what has to be protected leaves room, the larger record is small
   * enough, and there is a place for it.
   */
  ghost predicate AdmissionFits(control: ControlMeasure, disk: Disk, lease: Lease, address: Address) {
    var addresses := HeldAddresses(disk, lease) + {address};
    || address in HeldAddresses(disk, lease)
    || (&& WithinQuota(Only(disk.files, PathsOf(addresses) + RetainedPaths(disk)))
        && control.RecordBytes(IdOf(lease), Record(addresses, lease.principal)) <= RETENTION_MAX_FILE_BYTES
        && (IdOf(lease) in disk.records || |disk.records| < MAX_RETENTION_FILES))
  }

  /** Where a crash may leave an admission: no protected file goes, and the record is old or new. */
  ghost predicate AdmissionPoint(control: ControlMeasure, from: Disk, lease: Lease, address: Address, d: Disk) {
    d == from ||
    (&& IsActive(from, lease)
     && d.writers == from.writers
     && Submap(d.files, from.files)
     && Submap(Only(from.files, RetainedPaths(from) + OwnPaths(address.namespace)), d.files)
     && (d.controlTemporaries <= from.controlTemporaries || d.controlTemporaries <= 1)
     && (d.records == from.records
         || (d.records == WithAdmission(from, lease, address)
             && |d.records| <= MAX_RETENTION_FILES && StoreBudgetHolds(RetainedAddresses(d.records))
             && control.RecordBytes(IdOf(lease), d.records[IdOf(lease)]) <= RETENTION_MAX_FILE_BYTES)))
  }

  datatype Outcome =
    | Done
    | LeaseInactive
    | ControlRefused
    | QuotaRefused
    | SequenceExhausted
    | StoresRefused
    | BytesRefused
    | RecordRefused

  // --- The directory ---------------------------------------------------------------------------

  class CacheDirectory {
    const codec: Codec
    const control: ControlMeasure
    var disk: Disk
    ghost var points: set<Disk>

    /** The state the directory is in is among the points, as every state it was in before. */
    ghost predicate Recorded()
      reads this
    {
      disk in points
    }

    constructor (codec: Codec, control: ControlMeasure, disk: Disk)
      ensures this.codec == codec && this.control == control && this.disk == disk && points == {disk} && Recorded()
    {
      this.codec, this.control, this.disk, points := codec, control, disk, {disk};
    }

    /** One atomic step of the file system. */
    method Step(next: Disk)
      requires Recorded()
      modifies this
      ensures Recorded() && old(points) <= points
      ensures disk == next && points == old(points) + {next}
    {
      disk, points := next, points + {next};
    }

    method Unlink(artifact: Artifact)
      requires Recorded()
      modifies this
      ensures Recorded() && old(points) <= points
      ensures disk == old(disk).(files := old(disk.files) - {artifact}) && points == old(points) + {disk}
    {
      Step(disk.(files := disk.files - {artifact}));
    }

    /** Removes some artifacts, one at a time, in whatever order the directory lists them. */
    method UnlinkAll(gone: set<Artifact>)
      requires Recorded()
      modifies this
      ensures Recorded() && old(points) <= points
      ensures disk == old(disk).(files := old(disk.files) - gone)
      ensures forall d :: d in points ==> d in old(points) || PassPoint(old(disk), disk.files, d)
    {
      ghost var before := disk;
      var pending := gone;
      while pending != {}
        invariant pending <= gone
        invariant disk == before.(files := before.files - (gone - pending))
        invariant Recorded() && old(points) <= points
        invariant forall d :: d in points ==> d in old(points) || PassPoint(before, disk.files, d)
        decreases |pending|
      {
        var artifact :| artifact in pending;
        Unlink(artifact);
        pending := pending - {artifact};
        assert disk.files == before.files - (gone - pending);
      }
      assert gone - {} == gone;
    }

    /** The totals the quota is checked against. */
    method Measure(files: Files) returns (bytes: nat)
      ensures bytes == Total(Sizes(files))
    {
      bytes := 0;
      var rest := files;
      while rest != map[]
        invariant bytes + Total(Sizes(rest)) == Total(Sizes(files))
        decreases |rest|
      {
        assert rest.Keys != {};
        var artifact :| artifact in rest;
        TotalWithout(Sizes(rest), artifact);
        assert Sizes(rest - {artifact}) == Sizes(rest) - {artifact};
        assert (rest - {artifact}).Keys == rest.Keys - {artifact};
        bytes, rest := bytes + |rest[artifact]|, rest - {artifact};
      }
      assert Sizes(rest) == map[];
    }

    method IsOverQuota(files: Files, reservation: Reservation) returns (over: bool)
      ensures over <==> Exceeds(files, reservation)
    {
      var bytes := Measure(files);
      over := |files| + reservation.files > MAX_DIRECTORY_FILES
              || bytes + reservation.bytes > MAX_DIRECTORY_BYTES;
    }

    /** The eviction loop of a quota pass, over candidates that are already in order. */
    method EvictGroups(order: seq<Digest>, reservation: Reservation) returns (fits: bool, ghost n: nat)
      requires Recorded()
      modifies this
      ensures Recorded() && old(points) <= points
      ensures n <= |order| && disk == old(disk).(files := AfterEvicting(old(disk.files), order, n))
      ensures NoEvictionFits(old(disk.files), order, n, reservation)
      ensures fits <==> !Exceeds(disk.files, reservation)
      ensures !fits ==> n == |order|
      ensures forall d :: d in points ==> d in old(points) || PassPoint(old(disk), disk.files, d)
    {
      ghost var before := disk;
      var candidates := order;
      n := 0;
      var over := IsOverQuota(disk.files, reservation);
      while over
        invariant n <= |order| && candidates == order[n..]
        invariant disk == before.(files := AfterEvicting(before.files, order, n))
        invariant NoEvictionFits(before.files, order, n, reservation)
        invariant over <==> Exceeds(disk.files, reservation)
        invariant Recorded() && old(points) <= points
        invariant forall d :: d in points ==> d in old(points) || PassPoint(before, disk.files, d)
        decreases |candidates|
      {
        if candidates == [] {
          return false, n;
        }
        EvictNext(candidates[0], before, old(points), order, n);
        OneMoreExceeds(before.files, order, n, reservation);
        n, candidates := n + 1, candidates[1..];
        over := IsOverQuota(disk.files, reservation);
      }
      fits := true;
    }

    /** One turn of that loop, which started in `from` with these points: the whole group of a candidate goes. */
    method EvictNext(digest: Digest, ghost from: Disk, ghost before: set<Disk>, ghost order: seq<Digest>, ghost n: nat)
      requires Recorded()
      requires n < |order| && digest == order[n] && disk == from.(files := AfterEvicting(from.files, order, n))
      requires forall d :: d in points ==> d in before || PassPoint(from, disk.files, d)
      modifies this
      ensures Recorded() && old(points) <= points
      ensures disk == from.(files := AfterEvicting(from.files, order, n + 1))
      ensures forall d :: d in points ==> d in before || PassPoint(from, disk.files, d)
    {
      ghost var earlier, sofar := disk, points;
      LeftAfterEvicting(from.files, order, n);
      UnlinkAll(Group(disk.files, digest));
      PointsCompose(from, earlier, disk.files, before, sofar, points);
    }

    /**
     * One quota pass. `None` stands for an unreadable retention set; otherwise the files are exactly
     * what `IsConvergence` says.
     */
    method Converge(kept: set<Artifact>, reservation: Reservation) returns (outcome: Option<Convergence>)
      requires reservation.bytes <= MAX_DIRECTORY_BYTES && reservation.files <= MAX_DIRECTORY_FILES
      requires Recorded()
      modifies this
      ensures Recorded() && old(points) <= points
      ensures disk == old(disk).(files := disk.files, controlTemporaries := 0)
      ensures outcome.None? <==> !ControlFits(old(disk))
      ensures outcome.None? ==> disk.files == old(disk.files)
      ensures outcome.Some? ==>
                IsConvergence(old(disk.files), kept + RetainedPaths(old(disk)), reservation, disk.files, outcome.value)
      ensures forall d :: d in points ==> d in old(points) || PassPoint(old(disk), disk.files, d)
    {
      Step(disk.(controlTemporaries := 0));
      if !ControlFits(disk) {
        return None;
      }
      ghost var sofar := points;
      var reached := SweepAndEvict(kept + RetainedPaths(disk), reservation);
      SweepIsPass(old(disk), disk.files, old(points), sofar, points);
      outcome := Some(reached);
    }

    /** A pass once it is known what is protected: stale temporaries go first. */
    method SweepAndEvict(protected: set<Artifact>, reservation: Reservation) returns (outcome: Convergence)
      requires Recorded()
      modifies this
      ensures Recorded() && old(points) <= points
      ensures disk == old(disk).(files := disk.files) && Submap(disk.files, old(disk.files))
      ensures IsConvergence(old(disk.files), protected, reservation, disk.files, outcome)
      ensures forall d :: d in points ==> d in old(points) || PassPoint(old(disk), disk.files, d)
    {
      ghost var start, sofar := disk, points;
      UnlinkAll(StaleTemporaries(disk.files, protected));
      ghost var cleaned, middle := disk, points;
      outcome := EvictUnprotected(protected, reservation);
      PointsCompose(start, cleaned, disk.files, sofar, middle, points);
    }

    /** The second part of a pass: the protected files must fit, then groups are evicted until all do. */
    method EvictUnprotected(protected: set<Artifact>, reservation: Reservation) returns (outcome: Convergence)
      requires Recorded()
      modifies this
      ensures Recorded() && old(points) <= points
      ensures disk == old(disk).(files := disk.files) && Submap(disk.files, old(disk.files))
      ensures ConvergenceOver(old(disk.files), Only(old(disk.files), protected), GroupOrder(old(disk.files), protected),
                              reservation, disk.files, outcome)
      ensures forall d :: d in points ==> d in old(points) || PassPoint(old(disk), disk.files, d)
    {
      ghost var clean := disk.files;
      var over := IsOverQuota(Only(disk.files, protected), reservation);
      if over {
        return ProtectedTooLarge;
      }
      var order := GroupOrder(disk.files, protected);
      var fits: bool;
      ghost var n: nat;
      fits, n := EvictGroups(order, reservation);
      LeftAfterEvicting(clean, order, n);
      EvictionIsConvergence(clean, Only(clean, protected), order, reservation, n, disk.files);
      outcome := if fits then Converged else Exhausted;
    }

    /** Writes a temporary file chunk by chunk and renames it over `dest`. */
    method WriteThrough(dest: Artifact, content: Bytes, tag: nat)
      requires !dest.Temporary? && Temporary(dest.digest, tag) !in disk.files
      requires Recorded()
      modifies this
      ensures Recorded() && old(points) <= points
      ensures disk == old(disk).(files := old(disk.files)[dest := content])
      ensures forall d :: d in points ==> d in old(points) || WritePoint(old(disk), dest, content, tag, d)
    {
      ghost var before := disk;
      var temporary := Temporary(dest.digest, tag);
      var written := 0;
      Step(disk.(files := disk.files[temporary := []]));
      assert CopyPoint(before, dest, content, tag, 0, disk);
      while written < |content|
        invariant written <= |content|
        invariant disk == before.(files := before.files[temporary := content[..written]])
        invariant Recorded() && old(points) <= points
        invariant forall d :: d in points ==> d in old(points) || WritePoint(before, dest, content, tag, d)
      {
        var remaining := |content| - written;
        var bytesRead :| 1 <= bytesRead <= if remaining < COPY_BUFFER_BYTES then remaining else COPY_BUFFER_BYTES;
        written := written + bytesRead;
        Step(disk.(files := disk.files[temporary := content[..written]]));
        assert CopyPoint(before, dest, content, tag, written, disk);
      }
      assert content[..written] == content;
      Step(disk.(files := (disk.files - {temporary})[dest := disk.files[temporary]]));
      assert disk.files == before.files[dest := content];
    }

    /** A quota pass that makes room for one file of `bytes` bytes next to this namespace's files. */
    method Reserve(namespace: Digest, bytes: nat) returns (reserved: bool)
      requires bytes <= MAX_DIRECTORY_BYTES
      requires NoTemporaries(disk.files) && WithinQuota(disk.files) && ControlFits(disk)
      requires Recorded()
      modifies this
      ensures Recorded() && old(points) <= points
      ensures reserved <==> RoomFor(old(disk), namespace, bytes)
      ensures reserved ==> !Exceeds(disk.files, Reservation(bytes, 1))
      ensures NoTemporaries(disk.files) && WithinQuota(disk.files) && ControlFits(disk)
      ensures SlotsKept(old(disk), namespace, disk)
      ensures forall d :: d in points ==> d in old(points) || SlotsKept(old(disk), namespace, d)
    {
      var outcome := Converge(OwnPaths(namespace), Reservation(bytes, 1));
      reserved := outcome == Some(Converged);
      PassKeepsSlots(old(disk), namespace, Reservation(bytes, 1), disk, outcome.value);
      forall d | d in points && d !in old(points) ensures SlotsKept(old(disk), namespace, d) {
        PointKeepsSlots(old(disk), namespace, disk.files, d);
      }
    }

    /** Makes room for one file, then writes it atomically. */
    method ReservedWrite(dest: Artifact, content: Bytes) returns (written: bool)
      requires |content| <= MAX_DIRECTORY_BYTES
      requires NoTemporaries(disk.files) && WithinQuota(disk.files) && ControlFits(disk) && !dest.Temporary?
      requires Recorded()
      modifies this
      ensures Recorded() && old(points) <= points
      ensures forall d :: d in points ==> d in old(points) || WriteTouches(old(disk), dest, content, d)
      ensures WriteTouches(old(disk), dest, content, disk)
      ensures NoTemporaries(disk.files) && ControlFits(disk)
      ensures written <==> RoomFor(old(disk), dest.digest, |content|)
      ensures Slot(disk.files, dest) == if written then Some(content) else Slot(old(disk.files), dest)
      ensures forall other :: other in OwnPaths(dest.digest) && other != dest ==>
                Slot(disk.files, other) == Slot(old(disk.files), other)
    {
      ghost var from := disk;
      written := Reserve(dest.digest, |content|);
      if !written {
        return;
      }
      ghost var middle := disk;
      WriteThrough(dest, content, 0);
      forall d | WritePoint(middle, dest, content, 0, d) ensures WriteTouches(from, dest, content, d) {
        ReservedWriteTouches(from, middle, dest, content, 0, d);
      }
    }

    /** Quarantines the active file when it read as corrupt; otherwise only bounds old evidence. */
    method PreserveEvidence(namespace: Digest, corrupted: bool) returns (preserved: bool)
      requires NoTemporaries(disk.files) && WithinQuota(disk.files) && ControlFits(disk)
      requires corrupted ==> Active(namespace) in disk.files
      requires Recorded()
      modifies this
      ensures Recorded() && old(points) <= points
      ensures forall d :: d in points ==> d in old(points) || EvidencePoint(old(disk), namespace, corrupted, d)
      ensures EvidencePoint(old(disk), namespace, corrupted, disk)
      ensures NoTemporaries(disk.files) && ControlFits(disk)
      ensures preserved <==> (NeedsEvidence(old(disk.files), namespace, corrupted) ==>
                RoomFor(old(disk), namespace, |EvidenceAfter(old(disk.files), namespace, corrupted).value|))
      ensures preserved ==>
                Slot(disk.files, Quarantined(namespace)) == EvidenceAfter(old(disk.files), namespace, corrupted)
    {
      var source := if corrupted then Active(namespace) else Quarantined(namespace);
      if !corrupted && (source !in disk.files || |disk.files[source]| <= MAX_CORRUPT_FILE_BYTES) {
        return true;
      }
      preserved := ReservedWrite(Quarantined(namespace), Prefix(disk.files[source]));
    }

    /** Puts the new content in place, or removes the file when nothing is left to store. */
    method Install(namespace: Digest, next: Option<Bytes>) returns (installed: bool)
      requires next.Some? ==> |next.value| <= MAX_ACTIVE_FILE_BYTES
      requires NoTemporaries(disk.files) && WithinQuota(disk.files) && ControlFits(disk)
      requires Recorded()
      modifies this
      ensures Recorded() && old(points) <= points
      ensures forall d :: d in points ==> d in old(points) || InstallPoint(old(disk), namespace, next, d)
      ensures InstallPoint(old(disk), namespace, next, disk)
      ensures NoTemporaries(disk.files) && ControlFits(disk)
      ensures installed <==> (next.Some? ==> RoomFor(old(disk), namespace, |next.value|))
      ensures Slot(disk.files, Quarantined(namespace)) == Slot(old(disk.files), Quarantined(namespace))
      ensures Slot(disk.files, Active(namespace)) == if installed then next else Slot(old(disk.files), Active(namespace))
    {
      if next.Some? {
        installed := ReservedWrite(Active(namespace), next.value);
      } else {
        if Active(namespace) in disk.files {
          UnlinkTouches(disk, namespace);
          Unlink(Active(namespace));
        }
        installed := true;
      }
    }

    /** A quota pass over files that fit: it always converges, and evicts nothing. */
    method FinalPass(namespace: Digest)
      requires NoTemporaries(disk.files) && WithinQuota(disk.files) && ControlFits(disk)
      requires Recorded()
      modifies this
      ensures Recorded() && old(points) <= points
      ensures disk == old(disk).(controlTemporaries := 0)
      ensures forall d :: d in points ==>
                d in old(points) || (d.files == old(disk.files) && ControlKept(old(disk), d))
    {
      var outcome := Converge(OwnPaths(namespace), NO_RESERVATION);
      NothingToConverge(old(disk.files), OwnPaths(namespace) + RetainedPaths(old(disk)), disk.files, outcome.value);
      assert outcome == Some(Converged);
      forall d | PassPoint(old(disk), disk.files, d) ensures d.files == old(disk.files) {
        SubmapEqual(d.files, disk.files);
      }
    }

    /**
     * Replaces a namespace file by `next`, or removes it, keeping evidence of what was corrupt. The last
     * quota pass finds nothing to do: the two reservations made all the room that was needed.
     */
    method ReplaceFile(namespace: Digest, next: Option<Bytes>, corrupted: bool) returns (replaced: bool)
      requires next.Some? ==> |next.value| <= MAX_ACTIVE_FILE_BYTES
      requires NoTemporaries(disk.files) && WithinQuota(disk.files) && ControlFits(disk)
      requires corrupted ==> Active(namespace) in disk.files
      requires Recorded()
      modifies this
      ensures Recorded() && old(points) <= points
      ensures forall d :: d in points ==>
                d in old(points) || (ReplacePoint(old(disk), namespace, corrupted, next, d) && WithinQuota(d.files))
      ensures ReplacePoint(old(disk), namespace, corrupted, next, disk) && WithinQuota(disk.files)
      ensures NoTemporaries(disk.files)
      ensures replaced <==> ReplaceFits(old(disk), namespace, corrupted, next)
      ensures replaced ==> Slot(disk.files, Active(namespace)) == next
                           && Slot(disk.files, Quarantined(namespace)) == EvidenceAfter(old(disk.files), namespace, corrupted)
      ensures !replaced ==> Slot(disk.files, Active(namespace)) == Slot(old(disk.files), Active(namespace))
    {
      ghost var from := disk;
      replaced := PreserveEvidence(namespace, corrupted);
      if !replaced {
        return;
      }
      ReplaceFitsNow(from, namespace, corrupted, next, disk);
      replaced := FinishReplacement(from, namespace, next, corrupted);
    }

    /** The rest of a replacement that began in `from`, once the evidence is in place. */
    method FinishReplacement(ghost from: Disk, namespace: Digest, next: Option<Bytes>, ghost corrupted: bool)
      returns (replaced: bool)
      requires next.Some? ==> |next.value| <= MAX_ACTIVE_FILE_BYTES
      requires NoTemporaries(disk.files) && WithinQuota(disk.files) && ControlFits(disk) && Recorded()
      requires EvidencePoint(from, namespace, corrupted, disk)
      requires Slot(disk.files, Quarantined(namespace)) == EvidenceAfter(from.files, namespace, corrupted)
      modifies this
      ensures Recorded() && old(points) <= points
      ensures forall d :: d in points ==>
                d in old(points) || (ReplacePoint(from, namespace, corrupted, next, d) && WithinQuota(d.files))
      ensures ReplacePoint(from, namespace, corrupted, next, disk) && WithinQuota(disk.files)
      ensures NoTemporaries(disk.files)
      ensures replaced <==> (next.Some? ==> RoomFor(old(disk), namespace, |next.value|))
      ensures replaced ==> Slot(disk.files, Active(namespace)) == next
                           && Slot(disk.files, Quarantined(namespace)) == EvidenceAfter(from.files, namespace, corrupted)
      ensures !replaced ==> Slot(disk.files, Active(namespace)) == Slot(from.files, Active(namespace))
    {
      ghost var middle := disk;
      replaced := Install(namespace, next);
      forall d | InstallPoint(middle, namespace, next, d) ensures ReplacePoint(from, namespace, corrupted, next, d) {
        InstallAfterEvidence(from, namespace, corrupted, next, middle, d);
      }
      if !replaced {
        return;
      }
      FinalPass(namespace);
    }

    /** The first quota pass of an update or recovery, which may start from any directory. */
    method FirstPass(namespace: Digest) returns (outcome: Outcome)
      requires Recorded()
      modifies this
      ensures Recorded() && old(points) <= points
      ensures forall d :: d in points ==>
                d in old(points) || (SlotsSame(old(disk), namespace, d) && Submap(d.files, old(disk.files)))
      ensures SlotsSame(old(disk), namespace, disk) && Submap(disk.files, old(disk.files))
      ensures outcome.Done? ==> NoTemporaries(disk.files) && WithinQuota(disk.files) && ControlFits(disk)
      ensures outcome in {Done, ControlRefused, QuotaRefused}
      ensures outcome.ControlRefused? <==> !ControlFits(old(disk))
      ensures outcome.Done? ==> WithinQuota(ProtectedFiles(old(disk), namespace))
      ensures outcome.QuotaRefused? ==> !WithinQuota(ProtectedFiles(old(disk), namespace))
    {
      var pass := Converge(OwnPaths(namespace), NO_RESERVATION);
      if pass.None? {
        forall d | PassPoint(old(disk), disk.files, d) ensures d.files == old(disk.files) {
          SubmapEqual(d.files, disk.files);
        }
        return ControlRefused;
      }
      PassKeepsSlots(old(disk), namespace, NO_RESERVATION, disk, pass.value);
      forall d | PassPoint(old(disk), disk.files, d) ensures SlotsSame(old(disk), namespace, d) {
        PointKeepsSlots(old(disk), namespace, disk.files, d);
      }
      outcome := if pass.value.Converged? then Done else QuotaRefused;
    }

    /** Applies one queued mutation: `updateCacheFile`. */
    method Update(lease: Lease, namespace: Digest, key: string, mutation: Mutation) returns (outcome: Outcome)
      requires codec.Lawful()
      requires Recorded()
      modifies this
      ensures Recorded() && old(points) <= points
      ensures forall d :: d in points ==>
                d in old(points) || UpdatePoint(codec, old(disk), lease, namespace, key, mutation, d)
      ensures UpdatePoint(codec, old(disk), lease, namespace, key, mutation, disk)
      ensures outcome.LeaseInactive? <==> !IsActive(old(disk), lease)
      ensures outcome.LeaseInactive? ==> disk == old(disk) && points == old(points)
      ensures outcome.ControlRefused? <==> IsActive(old(disk), lease) && !ControlFits(old(disk))
      ensures outcome.Done? <==> UpdateSucceeds(codec, old(disk), lease, namespace, key, mutation)
      ensures outcome.Done? ==> Updated(codec, old(disk), namespace, key, mutation, disk)
      ensures !outcome.Done? ==> Slot(disk.files, Active(namespace)) == Slot(old(disk.files), Active(namespace))
      ensures HasRoom(old(disk), namespace, key, mutation) ==> !outcome.StoresRefused?
    {
      ghost var from := disk;
      if !IsActive(disk, lease) {
        return LeaseInactive;
      }
      outcome := FirstPass(namespace);
      SamePointIsUpdatePoint(codec, from, lease, namespace, key, mutation);
      if outcome.Done? {
        outcome := WriteUpdate(from, lease, namespace, key, mutation);
      }
    }

    /** The rest of an update that began in `from`, once its first quota pass is done. */
    method WriteUpdate(ghost from: Disk, lease: Lease, namespace: Digest, key: string, mutation: Mutation)
      returns (outcome: Outcome)
      requires codec.Lawful() && Recorded()
      requires IsActive(from, lease) && SlotsSame(from, namespace, disk)
      requires NoTemporaries(disk.files) && WithinQuota(disk.files) && ControlFits(disk)
      requires UpdatePoint(codec, from, lease, namespace, key, mutation, disk)
      modifies this
      ensures Recorded() && old(points) <= points
      ensures forall d :: d in points ==>
                d in old(points) || UpdatePoint(codec, from, lease, namespace, key, mutation, d)
      ensures UpdatePoint(codec, from, lease, namespace, key, mutation, disk)
      ensures outcome.Done? ==> Updated(codec, from, namespace, key, mutation, disk)
      ensures !outcome.Done? ==> Slot(disk.files, Active(namespace)) == Slot(from.files, Active(namespace))
      ensures HasRoom(from, namespace, key, mutation) ==> !outcome.StoresRefused?
      ensures !outcome.LeaseInactive? && !outcome.ControlRefused?
      ensures outcome.Done? <==> exists next :: UpdateWrites(codec, from, namespace, key, mutation, next)
    {
      ghost var middle := disk;
      var next: CacheFile;
      PlansAgree(codec, from, namespace, key, mutation, middle);
      outcome, next := PlanUpdate(namespace, key, mutation);
      if !outcome.Done? {
        if !outcome.SequenceExhausted? {
          NothingToPlan(codec, disk, namespace, key, mutation,
                        if outcome.StoresRefused? then StoreCountExceeded else BytesExceeded);
        }
        return;
      }
      OnePlan(codec, from, namespace, key, mutation, next);
      var replaced := ReplaceFile(namespace, Content(codec, next), ReadActive(codec, disk.files, namespace).Corrupt?);
      ReplaceIsUpdate(codec, from, lease, namespace, key, mutation, middle, next);
      outcome := if replaced then Done else QuotaRefused;
    }

    /** What an update is to write, or why it may not. */
    method PlanUpdate(namespace: Digest, key: string, mutation: Mutation) returns (outcome: Outcome, next: CacheFile)
      requires codec.Lawful()
      ensures outcome in {Done, SequenceExhausted, StoresRefused, BytesRefused}
      ensures outcome.Done? ==>
                NextFile(codec, disk, namespace, key, mutation, next) && codec.Size(next) <= MAX_ACTIVE_FILE_BYTES
      ensures outcome.SequenceExhausted? <==>
                ReadActive(codec, disk.files, namespace).file.mutationSequence >= MAX_SAFE_INTEGER
      ensures outcome.StoresRefused? || outcome.BytesRefused? ==>
                IsRetention(codec, Mutated(ReadActive(codec, disk.files, namespace).file, key, mutation),
                            OwnKey(key, mutation), RetainedStores(disk, namespace),
                            if outcome.StoresRefused? then StoreCountExceeded else BytesExceeded)
      ensures HasRoom(disk, namespace, key, mutation) ==> !outcome.StoresRefused?
    {
      var file := ReadActive(codec, disk.files, namespace).file;
      next := file;
      if file.mutationSequence >= MAX_SAFE_INTEGER {
        return SequenceExhausted, next;
      }
      var mutated, own := Mutated(file, key, mutation), OwnKey(key, mutation);
      var retained := RetainedStores(disk, namespace);
      var retention := RetainCacheFile(codec, mutated, own, retained);
      if HasRoom(disk, namespace, key, mutation) {
        RetainedStoreAlwaysHasRoom(codec, mutated, own, retained, retention);
      }
      if !retention.Kept? {
        return if retention.StoreCountExceeded? then StoresRefused else BytesRefused, next;
      }
      RetentionKeepsPinned(codec, mutated, own, retained, retention);
      outcome, next := Done, retention.file;
    }

    /** Reads a namespace file under the lock and repairs it if it is corrupt. */
    method ReadWithRecovery(lease: Lease, namespace: Digest) returns (outcome: Outcome, file: CacheFile)
      requires codec.Lawful()
      requires Recorded()
      modifies this
      ensures Recorded() && old(points) <= points
      ensures forall d :: d in points ==> d in old(points) || RecoveryPoint(codec, old(disk), lease, namespace, d)
      ensures RecoveryPoint(codec, old(disk), lease, namespace, disk)
      ensures ReadActive(codec, old(disk.files), namespace).Clean? ==>
                outcome.Done? && disk == old(disk) && file == ReadActive(codec, old(disk.files), namespace).file
      ensures outcome.LeaseInactive? ==> disk == old(disk) && !IsActive(old(disk), lease)
      ensures outcome.Done? && ReadActive(codec, old(disk.files), namespace).Corrupt? ==>
                && RecoveredFile(codec, old(disk), namespace, file)
                && Replaced(codec, old(disk), namespace, Some(codec.Serialize(file)), disk)
      ensures ReadActive(codec, old(disk.files), namespace).Corrupt? ==>
                (outcome.Done? <==> RecoverySucceeds(codec, old(disk), lease, namespace))
      ensures |RetainedStores(old(disk), namespace)| <= MAX_STORES_PER_FILE ==> !outcome.StoresRefused?
    {
      ghost var from := disk;
      var parsed := ReadActive(codec, disk.files, namespace);
      file := parsed.file;
      if parsed.Clean? {
        return Done, file;
      }
      if !IsActive(disk, lease) {
        return LeaseInactive, file;
      }
      outcome := FirstPass(namespace);
      SamePointIsRecoveryPoint(codec, from, lease, namespace);
      if outcome.Done? {
        outcome, file := WriteRecovery(from, lease, namespace, parsed.file);
      }
    }

    /** The rest of a recovery that began in `from`, once its first quota pass is done. */
    method WriteRecovery(ghost from: Disk, lease: Lease, namespace: Digest, parsed: CacheFile)
      returns (outcome: Outcome, file: CacheFile)
      requires codec.Lawful() && Recorded()
      requires IsActive(from, lease) && SlotsSame(from, namespace, disk)
      requires NoTemporaries(disk.files) && WithinQuota(disk.files) && ControlFits(disk)
      requires ReadActive(codec, from.files, namespace) == Corrupt(parsed)
      requires RecoveryPoint(codec, from, lease, namespace, disk)
      modifies this
      ensures Recorded() && old(points) <= points
      ensures forall d :: d in points ==> d in old(points) || RecoveryPoint(codec, from, lease, namespace, d)
      ensures RecoveryPoint(codec, from, lease, namespace, disk)
      ensures outcome.Done? ==> RecoveredFile(codec, from, namespace, file)
                                && Replaced(codec, from, namespace, Some(codec.Serialize(file)), disk)
      ensures outcome.Done? <==> exists next :: RecoveryWrites(codec, from, namespace, next)
      ensures |RetainedStores(from, namespace)| <= MAX_STORES_PER_FILE ==> !outcome.StoresRefused?
      ensures !outcome.LeaseInactive?
    {
      ghost var middle := disk;
      FitStays(codec, from, namespace, middle);
      file := parsed;
      var retained := RetainedStores(disk, namespace);
      var retention := RetainCacheFile(codec, parsed, None, retained);
      if |retained| <= MAX_STORES_PER_FILE {
        RetainedStoreAlwaysHasRoom(codec, parsed, None, retained, retention);
      }
      if !retention.Kept? {
        NothingToRecover(codec, from, namespace, retention);
        return if retention.StoreCountExceeded? then StoresRefused else BytesRefused, file;
      }
      RetentionKeepsPinned(codec, parsed, None, retained, retention);
      file := retention.file;
      OneRecovery(codec, from, namespace, file);
      var replaced := ReplaceFile(namespace, Some(codec.Serialize(file)), true);
      ReplaceIsRecovery(codec, from, lease, namespace, middle, file);
      outcome := if replaced then Done else QuotaRefused;
    }

    /** `activateExtensionRuntimeCacheWriterLease`. */
    method Activate(lease: Lease) returns (outcome: Outcome)
      requires Recorded()
      modifies this
      ensures Recorded() && old(points) <= points
      ensures forall d :: d in points ==> d in old(points) || ActivationPoint(control, old(disk), lease, d)
      ensures ActivationPoint(control, old(disk), lease, disk) && disk.controlTemporaries == 0
      ensures outcome.Done? ==> disk.writers == old(disk.writers)[lease.sessionId := lease] && IsActive(disk, lease)
      ensures !outcome.Done? ==> disk.writers == old(disk.writers)
      ensures outcome.Done? <==> control.LeaseBytes(lease) <= WRITER_MAX_FILE_BYTES && ControlFits(old(disk))
                                 && (lease.sessionId in old(disk.writers) || |old(disk.writers)| < MAX_WRITER_FILES)
    {
      Step(disk.(controlTemporaries := 0));
      if control.LeaseBytes(lease) > WRITER_MAX_FILE_BYTES {
        return RecordRefused;
      }
      if !ControlFits(disk) {
        return ControlRefused;
      }
      // The reservation; see `ControlListings.LeaseReservationIsACount`.
      if lease.sessionId !in disk.writers && |disk.writers| >= MAX_WRITER_FILES {
        return RecordRefused;
      }
      ghost var writers := disk.writers;
      assert lease.sessionId in writers ==> writers[lease.sessionId := lease].Keys == writers.Keys;
      assert lease.sessionId !in writers ==> writers[lease.sessionId := lease].Keys == writers.Keys + {lease.sessionId};
      Step(disk.(controlTemporaries := 1));
      Step(disk.(writers := disk.writers[lease.sessionId := lease], controlTemporaries := 0));
      outcome := Done;
    }

    /** `revokeExtensionRuntimeCacheWrites`: an old token leaves a newer lease of its session alone. */
    method Revoke(lease: Lease)
      requires Recorded()
      modifies this
      ensures Recorded() && old(points) <= points
      ensures forall d :: d in points ==> d in old(points) || RevocationPoint(old(disk), lease, d)
      ensures disk == if IsActive(old(disk), lease)
                      then old(disk).(writers := old(disk.writers) - {lease.sessionId}) else old(disk)
      ensures !IsActive(disk, lease)
    {
      if IsActive(disk, lease) {
        Step(disk.(writers := disk.writers - {lease.sessionId}));
      }
    }

    /** `releaseExtensionRuntimeCacheRetention`. */
    method Release(lease: Lease)
      requires Recorded()
      modifies this
      ensures Recorded() && old(points) <= points
      ensures forall d :: d in points ==> d in old(points) || ReleasePoint(old(disk), lease, d)
      ensures ReleasePoint(old(disk), lease, disk)
      ensures !IsActive(disk, lease) && !HoldsRecord(disk, lease)
      ensures forall session :: session in old(disk.writers) && old(disk.writers)[session] != lease ==>
                session in disk.writers && disk.writers[session] == old(disk.writers)[session]
      ensures disk.records == if HoldsRecord(old(disk), lease) then old(disk.records) - {IdOf(lease)} else old(disk.records)
      ensures forall id :: id in old(disk.records) && id !in disk.records ==>
                id == IdOf(lease) && old(disk.records)[id].principal == lease.principal
    {
      Revoke(lease);
      if HoldsRecord(disk, lease) {
        Step(disk.(records := disk.records - {IdOf(lease)}));
      }
    }

    /** `resetExtensionRuntimeCacheWriterLeases`: every control record goes, in whatever order. */
    method Reset()
      requires Recorded()
      modifies this
      ensures Recorded() && old(points) <= points
      ensures forall d :: d in points ==> d in old(points) || ResetPoint(old(disk), d)
      ensures disk == old(disk).(writers := map[], records := map[], controlTemporaries := 0)
    {
      ghost var from := disk;
      while disk.writers != map[] || disk.records != map[] || disk.controlTemporaries > 0
        invariant ResetPoint(from, disk)
        invariant Recorded() && old(points) <= points
        invariant forall d :: d in points ==> d in old(points) || ResetPoint(from, d)
        decreases |disk.writers| + |disk.records| + disk.controlTemporaries
      {
        if disk.writers != map[] {
          assert disk.writers.Keys != {};
          var session :| session in disk.writers;
          assert (disk.writers - {session}).Keys == disk.writers.Keys - {session};
          Step(disk.(writers := disk.writers - {session}));
        } else if disk.records != map[] {
          assert disk.records.Keys != {};
          var id :| id in disk.records;
          assert (disk.records - {id}).Keys == disk.records.Keys - {id};
          Step(disk.(records := disk.records - {id}));
        } else {
          Step(disk.(controlTemporaries := disk.controlTemporaries - 1));
        }
      }
    }

    /** `assertRetainedStoreBudget`, one address at a time. */
    method CheckStoreBudget(addresses: set<Address>) returns (holds: bool)
      ensures holds <==> StoreBudgetHolds(addresses)
    {
      var seen, pending := {}, addresses;
      var storesByNamespace: map<Digest, set<string>> := map[];
      assert forall namespace :: StoresIn({}, namespace) == {};
      while pending != {}
        invariant seen <= addresses && pending == addresses - seen
        invariant forall namespace ::
                    StoresIn(seen, namespace)
                    == if namespace in storesByNamespace then storesByNamespace[namespace] else {}
        invariant StoreBudgetHolds(seen)
        decreases |pending|
      {
        var address :| address in pending;
        var stores := if address.namespace in storesByNamespace then storesByNamespace[address.namespace] else {};
        stores := stores + {address.store};
        OneMoreAddress(seen, address);
        seen, pending := seen + {address}, pending - {address};
        if |stores| > MAX_STORES_PER_FILE {
          TooManyStores(seen, addresses, address.namespace);
          return false;
        }
        storesByNamespace := storesByNamespace[address.namespace := stores];
      }
      assert seen == addresses;
      holds := true;
    }

    /** `admitCacheRetention`: pins one store of one namespace for the holder of this lease. */
    method Admit(lease: Lease, address: Address) returns (outcome: Outcome)
      requires Recorded()
      modifies this
      ensures Recorded() && old(points) <= points
      ensures forall d :: d in points ==> d in old(points) || AdmissionPoint(control, old(disk), lease, address, d)
      ensures AdmissionPoint(control, old(disk), lease, address, disk)
      ensures !IsActive(old(disk), lease) ==> outcome.LeaseInactive? && disk == old(disk) && points == old(points)
      ensures disk.records == if outcome.Done? then WithAdmission(old(disk), lease, address) else old(disk.records)
      ensures outcome.Done? ==> address in HeldAddresses(disk, lease) && HoldsRecord(disk, lease)
                                && StoreBudgetHolds(RetainedAddresses(disk.records))
      ensures outcome.Done? && IdOf(lease) in old(disk.records) ==>
                old(disk.records)[IdOf(lease)].principal == lease.principal
      ensures outcome.Done? <==> IsActive(old(disk), lease) && Admissible(old(disk), lease, address)
                                 && AdmissionFits(control, old(disk), lease, address)
    {
      if !IsActive(disk, lease) {
        return LeaseInactive;
      }
      ghost var from := disk;
      Step(disk.(controlTemporaries := 0));
      AdmissionFromSwept(control, from, lease, address);
      AdmissionAfterSweep(control, from, lease, address);
      outcome := CheckAdmission(lease, address);
      if outcome.Done? {
        outcome := RecordAdmission(lease, address);
      }
    }

    /** What an admission checks before its quota pass, in this order. */
    method CheckAdmission(lease: Lease, address: Address) returns (outcome: Outcome)
      ensures outcome in {Done, LeaseInactive, RecordRefused, ControlRefused, StoresRefused}
      ensures outcome.Done? <==> Admissible(disk, lease, address)
      ensures outcome.LeaseInactive? <==> IdOf(lease) in disk.records && !HoldsRecord(disk, lease)
      ensures outcome.StoresRefused? ==>
                !StoreBudgetHolds(RetainedAddresses(disk.records) + (HeldAddresses(disk, lease) + {address}))
    {
      if IdOf(lease) in disk.records && !HoldsRecord(disk, lease) {
        return LeaseInactive;
      }
      var addresses := HeldAddresses(disk, lease) + {address};
      if |addresses| > MAX_RECORD_ADDRESSES {
        return RecordRefused;
      }
      if !ControlFits(disk) {
        return ControlRefused;
      }
      var withinBudget := CheckStoreBudget(RetainedAddresses(disk.records) + addresses);
      outcome := if withinBudget then Done else StoresRefused;
    }

    /** Unless the record has the address already: the quota pass of an admission, and then the larger record. */
    method RecordAdmission(lease: Lease, address: Address) returns (outcome: Outcome)
      requires Recorded()
      requires IsActive(disk, lease) && Admissible(disk, lease, address)
      modifies this
      ensures Recorded() && old(points) <= points
      ensures forall d :: d in points ==> d in old(points) || AdmissionPoint(control, old(disk), lease, address, d)
      ensures AdmissionPoint(control, old(disk), lease, address, disk)
      ensures disk.records == if outcome.Done? then WithAdmission(old(disk), lease, address) else old(disk.records)
      ensures outcome.Done? ==> StoreBudgetHolds(RetainedAddresses(disk.records))
      ensures outcome.Done? <==> AdmissionFits(control, old(disk), lease, address)
    {
      if address in HeldAddresses(disk, lease) {
        AdmittedBefore(disk, lease, address);
        return Done;
      }
      var addresses := HeldAddresses(disk, lease) + {address};
      AdmissionAddresses(disk, lease, address);
      var converged := PassForAdmission(lease, address, addresses);
      if !converged {
        return QuotaRefused;
      }
      outcome := WriteRecord(IdOf(lease), Record(addresses, lease.principal));
    }

    /**
     * The quota pass of an admission, which spares the namespaces of the addresses to be held. It fails only
     * if the files it has to spare are too large by themselves.
     */
    method PassForAdmission(lease: Lease, address: Address, addresses: set<Address>) returns (converged: bool)
      requires Recorded()
      requires IsActive(disk, lease) && ControlFits(disk) && address in addresses
      modifies this
      ensures Recorded() && old(points) <= points
      ensures forall d :: d in points ==> d in old(points) || AdmissionPoint(control, old(disk), lease, address, d)
      ensures AdmissionPoint(control, old(disk), lease, address, disk)
      ensures disk == old(disk).(files := disk.files, controlTemporaries := 0)
      ensures converged <==> WithinQuota(Only(old(disk.files), PathsOf(addresses) + RetainedPaths(old(disk))))
    {
      var pass := Converge(PathsOf(addresses), NO_RESERVATION);
      AdmissionPass(old(disk), addresses, address, disk.files, pass.value);
      forall d | PassPoint(old(disk), disk.files, d) ensures AdmissionPoint(control, old(disk), lease, address, d) {
      }
      converged := pass.value.Converged?;
    }

    /** The atomic replacement of one retention record. */
    method WriteRecord(id: RecordId, record: Record) returns (outcome: Outcome)
      requires Recorded()
      modifies this
      ensures Recorded() && old(points) <= points
      ensures outcome in {Done, RecordRefused}
      ensures outcome.RecordRefused? ==> disk == old(disk) && points == old(points)
      ensures outcome.Done? <==> control.RecordBytes(id, record) <= RETENTION_MAX_FILE_BYTES
                                 && (id in old(disk.records) || |old(disk.records)| < MAX_RETENTION_FILES)
      ensures outcome.Done? && |old(disk.records)| <= MAX_RETENTION_FILES ==> |disk.records| <= MAX_RETENTION_FILES
      ensures outcome.Done? ==> disk == old(disk).(records := old(disk.records)[id := record], controlTemporaries := 0)
      ensures outcome.Done? ==> points == old(points) + {old(disk).(controlTemporaries := 1), disk}
    {
      if control.RecordBytes(id, record) > RETENTION_MAX_FILE_BYTES {
        return RecordRefused;
      }
      // The reservation; see `ControlListings.RecordReservationIsACount`.
      if id !in disk.records && |disk.records| >= MAX_RETENTION_FILES {
        return RecordRefused;
      }
      ghost var records := disk.records;
      assert id in records ==> records[id := record].Keys == records.Keys;
      assert id !in records ==> records[id := record].Keys == records.Keys + {id};
      Step(disk.(controlTemporaries := 1));
      Step(disk.(records := disk.records[id := record], controlTemporaries := 0));
      outcome := Done;
    }
  }

  lemma OneMoreAddress(seen: set<Address>, address: Address)
    ensures StoresIn(seen + {address}, address.namespace) == StoresIn(seen, address.namespace) + {address.store}
    ensures forall namespace :: namespace != address.namespace ==>
              StoresIn(seen + {address}, namespace) == StoresIn(seen, namespace)
  {
  }

  lemma TooManyStores(seen: set<Address>, addresses: set<Address>, namespace: Digest)
    requires seen <= addresses && |StoresIn(seen, namespace)| > MAX_STORES_PER_FILE
    ensures !StoreBudgetHolds(addresses)
  {
    SubsetCount(StoresIn(seen, namespace), StoresIn(addresses, namespace));
  }

  /** Replacing a holder's record by a larger one adds exactly the new address. */
  lemma AdmissionAddresses(from: Disk, lease: Lease, address: Address)
    ensures RetainedAddresses(WithAdmission(from, lease, address))
         == RetainedAddresses(from.records) + (HeldAddresses(from, lease) + {address})
    ensures HeldAddresses(from, lease) <= RetainedAddresses(from.records)
    ensures address in HeldAddresses(from, lease) ==>
              RetainedAddresses(from.records) + (HeldAddresses(from, lease) + {address}) == RetainedAddresses(from.records)
  {
    var records := WithAdmission(from, lease, address);
    assert records[IdOf(lease)].addresses == HeldAddresses(from, lease) + {address};
    forall a | a in RetainedAddresses(from.records) ensures a in RetainedAddresses(records) {
      var id :| id in from.records && a in from.records[id].addresses;
      assert id in records && a in records[id].addresses;
    }
    forall a | a in HeldAddresses(from, lease) + {address} ensures a in RetainedAddresses(records) {
      assert IdOf(lease) in records && a in records[IdOf(lease)].addresses;
    }
  }

  /** Admitting what the holder's record has already leaves the records as they are. */
  lemma AdmittedBefore(from: Disk, lease: Lease, address: Address)
    requires HoldsRecord(from, lease) && address in HeldAddresses(from, lease)
    ensures WithAdmission(from, lease, address) == from.records
    ensures HeldAddresses(from, lease) + {address} <= RetainedAddresses(from.records)
    ensures RetainedAddresses(from.records) + (HeldAddresses(from, lease) + {address})
         == RetainedAddresses(from.records)
  {
    AdmissionAddresses(from, lease, address);
    assert HeldAddresses(from, lease) + {address} == HeldAddresses(from, lease);
  }

  /** Removing control temporaries first changes nothing that an admission depends on. */
  lemma AdmissionAfterSweep(control: ControlMeasure, from: Disk, lease: Lease, address: Address)
    ensures var swept := from.(controlTemporaries := 0);
            && Admissible(swept, lease, address) == Admissible(from, lease, address)
            && AdmissionFits(control, swept, lease, address) == AdmissionFits(control, from, lease, address)
            && WithAdmission(swept, lease, address) == WithAdmission(from, lease, address)
  {
    var swept := from.(controlTemporaries := 0);
    assert HeldAddresses(swept, lease) == HeldAddresses(from, lease);
    assert RetainedPaths(swept) == RetainedPaths(from);
  }

  /** Nor where a crash may leave one. */
  lemma AdmissionFromSwept(control: ControlMeasure, from: Disk, lease: Lease, address: Address)
    requires IsActive(from, lease)
    ensures var swept := from.(controlTemporaries := 0);
            && AdmissionPoint(control, from, lease, address, swept)
            && forall d :: AdmissionPoint(control, swept, lease, address, d) ==>
                 AdmissionPoint(control, from, lease, address, d)
  {
  }

  lemma AdmissionPass(from: Disk, addresses: set<Address>, address: Address, after: Files, outcome: Convergence)
    requires address in addresses
    requires IsConvergence(from.files, PathsOf(addresses) + RetainedPaths(from), NO_RESERVATION, after, outcome)
    ensures Submap(after, from.files)
    ensures Submap(Only(from.files, RetainedPaths(from) + OwnPaths(address.namespace)), after)
    ensures outcome.Converged? <==> !Exceeds(Only(from.files, PathsOf(addresses) + RetainedPaths(from)), NO_RESERVATION)
  {
    var kept := PathsOf(addresses) + RetainedPaths(from);
    ConvergenceKeepsProtected(from.files, kept, NO_RESERVATION, after, outcome);
    PathsArePaired(addresses);
    PathsArePaired(RetainedAddresses(from.records));
    ConvergesIffProtectedFit(from.files, kept, NO_RESERVATION, after, outcome);
  }

  // --- From the parts of an operation to the whole ---------------------------------------------

  lemma SameIsReplacePoint(from: Disk, namespace: Digest, corrupted: bool, d: Disk)
    requires SlotsSame(from, namespace, d)
    ensures ReplacePoint(from, namespace, corrupted, Slot(from.files, Active(namespace)), d)
  {
  }

  lemma SamePointIsUpdatePoint(codec: Codec, from: Disk, lease: Lease, namespace: Digest, key: string,
                               mutation: Mutation)
    requires IsActive(from, lease)
    ensures forall d :: SlotsSame(from, namespace, d) && Submap(d.files, from.files) ==>
              UpdatePoint(codec, from, lease, namespace, key, mutation, d)
  {
    var content := Slot(from.files, Active(namespace));
    assert UpdateContent(codec, from, namespace, key, mutation, content);
    forall d | SlotsSame(from, namespace, d) && Submap(d.files, from.files)
      ensures WriterPoint(codec, from, lease, namespace, content, d)
    {
      SameIsReplacePoint(from, namespace, ReadActive(codec, from.files, namespace).Corrupt?, d);
    }
  }

  lemma SamePointIsRecoveryPoint(codec: Codec, from: Disk, lease: Lease, namespace: Digest)
    requires IsActive(from, lease)
    ensures forall d :: SlotsSame(from, namespace, d) && Submap(d.files, from.files) ==>
              RecoveryPoint(codec, from, lease, namespace, d)
  {
    var content := Slot(from.files, Active(namespace));
    assert RecoveryContent(codec, from, namespace, content);
    forall d | SlotsSame(from, namespace, d) && Submap(d.files, from.files)
      ensures WriterPoint(codec, from, lease, namespace, content, d)
    {
      SameIsReplacePoint(from, namespace, ReadActive(codec, from.files, namespace).Corrupt?, d);
    }
  }

  /** A replacement that starts after the first pass is one that starts before it. */
  lemma ReplaceFromEarlier(
      from: Disk, namespace: Digest, corrupted: bool, content: Option<Bytes>, middle: Disk, d: Disk)
    requires SlotsSame(from, namespace, middle)
    requires ReplacePoint(middle, namespace, corrupted, content, d)
    ensures ReplacePoint(from, namespace, corrupted, content, d)
    ensures EvidenceAfter(middle.files, namespace, corrupted) == EvidenceAfter(from.files, namespace, corrupted)
  {
    SparedThrough(from, namespace, middle, d);
    assert Slot(middle.files, Active(namespace)) == Slot(from.files, Active(namespace));
    assert Slot(middle.files, Quarantined(namespace)) == Slot(from.files, Quarantined(namespace));
  }

  lemma NothingToPlan(codec: Codec, from: Disk, namespace: Digest, key: string, mutation: Mutation,
                      refusal: Retention)
    requires !refusal.Kept?
    requires IsRetention(codec, Mutated(ReadActive(codec, from.files, namespace).file, key, mutation),
                         OwnKey(key, mutation), RetainedStores(from, namespace), refusal)
    ensures forall next :: !NextFile(codec, from, namespace, key, mutation, next)
  {
    forall next | NextFile(codec, from, namespace, key, mutation, next) ensures false {
      RetentionUnique(codec, Mutated(ReadActive(codec, from.files, namespace).file, key, mutation),
                      OwnKey(key, mutation), RetainedStores(from, namespace), refusal, Kept(next));
    }
  }

  /** What an update is to write is determined by what it finds. */
  lemma OnePlan(codec: Codec, from: Disk, namespace: Digest, key: string, mutation: Mutation, next: CacheFile)
    requires NextFile(codec, from, namespace, key, mutation, next)
    ensures forall other :: NextFile(codec, from, namespace, key, mutation, other) ==> other == next
    ensures (exists other :: UpdateWrites(codec, from, namespace, key, mutation, other))
       <==> UpdateWrites(codec, from, namespace, key, mutation, next)
  {
    forall other | NextFile(codec, from, namespace, key, mutation, other) ensures other == next {
      RetentionUnique(codec, Mutated(ReadActive(codec, from.files, namespace).file, key, mutation),
                      OwnKey(key, mutation), RetainedStores(from, namespace), Kept(next), Kept(other));
    }
  }

  lemma OneRecovery(codec: Codec, from: Disk, namespace: Digest, next: CacheFile)
    requires RecoveredFile(codec, from, namespace, next)
    ensures (exists other :: RecoveryWrites(codec, from, namespace, other)) <==> RecoveryWrites(codec, from, namespace, next)
  {
    forall other | RecoveredFile(codec, from, namespace, other) ensures other == next {
      RetentionUnique(codec, ReadActive(codec, from.files, namespace).file, None, RetainedStores(from, namespace),
                      Kept(next), Kept(other));
    }
  }

  lemma NothingToRecover(codec: Codec, from: Disk, namespace: Digest, refusal: Retention)
    requires !refusal.Kept?
    requires IsRetention(codec, ReadActive(codec, from.files, namespace).file, None, RetainedStores(from, namespace),
                         refusal)
    ensures forall next :: !RecoveredFile(codec, from, namespace, next)
  {
    forall next | RecoveredFile(codec, from, namespace, next) ensures false {
      RetentionUnique(codec, ReadActive(codec, from.files, namespace).file, None, RetainedStores(from, namespace),
                      refusal, Kept(next));
    }
  }

  /** While nothing of the namespace is touched, whether a replacement fits stays the same. */
  lemma FitStays(codec: Codec, from: Disk, namespace: Digest, d: Disk)
    requires SlotsSame(from, namespace, d)
    ensures ReadActive(codec, d.files, namespace) == ReadActive(codec, from.files, namespace)
    ensures forall corrupted :: EvidenceAfter(d.files, namespace, corrupted) == EvidenceAfter(from.files, namespace, corrupted)
    ensures forall corrupted, next ::
              ReplaceFits(d, namespace, corrupted, next) <==> ReplaceFits(from, namespace, corrupted, next)
  {
    ProtectedStays(from, namespace, d);
    SlotsAgree(from, d, Active(namespace));
    SlotsAgree(from, d, Quarantined(namespace));
  }

  lemma PlansAgree(codec: Codec, from: Disk, namespace: Digest, key: string, mutation: Mutation, middle: Disk)
    requires SlotsSame(from, namespace, middle)
    ensures ReadActive(codec, middle.files, namespace) == ReadActive(codec, from.files, namespace)
    ensures forall next :: NextFile(codec, middle, namespace, key, mutation, next)
                      <==> NextFile(codec, from, namespace, key, mutation, next)
    ensures forall corrupted, next ::
              ReplaceFits(middle, namespace, corrupted, next) <==> ReplaceFits(from, namespace, corrupted, next)
  {
    FitStays(codec, from, namespace, middle);
  }

  lemma ReplaceIsUpdate(codec: Codec, from: Disk, lease: Lease, namespace: Digest, key: string, mutation: Mutation,
                        middle: Disk, next: CacheFile)
    requires IsActive(from, lease) && SlotsSame(from, namespace, middle)
    requires NextFile(codec, from, namespace, key, mutation, next)
    ensures var corrupted := ReadActive(codec, from.files, namespace).Corrupt?;
            forall d :: ReplacePoint(middle, namespace, corrupted, Content(codec, next), d) && WithinQuota(d.files) ==>
              UpdatePoint(codec, from, lease, namespace, key, mutation, d)
  {
    var corrupted, content := ReadActive(codec, from.files, namespace).Corrupt?, Content(codec, next);
    assert UpdateContent(codec, from, namespace, key, mutation, content);
    forall d | ReplacePoint(middle, namespace, corrupted, content, d) && WithinQuota(d.files)
      ensures WriterPoint(codec, from, lease, namespace, content, d)
    {
      ReplaceFromEarlier(from, namespace, corrupted, content, middle, d);
    }
  }

  lemma ReplaceIsRecovery(codec: Codec, from: Disk, lease: Lease, namespace: Digest, middle: Disk, next: CacheFile)
    requires IsActive(from, lease) && SlotsSame(from, namespace, middle)
    requires RecoveredFile(codec, from, namespace, next)
    ensures var content := Some(codec.Serialize(next));
            forall d :: ReplacePoint(middle, namespace, true, content, d) && WithinQuota(d.files) ==>
              RecoveryPoint(codec, from, lease, namespace, d)
  {
    var content := Some(codec.Serialize(next));
    assert RecoveryContent(codec, from, namespace, content);
    forall d | ReplacePoint(middle, namespace, true, content, d) && WithinQuota(d.files)
      ensures WriterPoint(codec, from, lease, namespace, content, d)
    {
      ReplaceFromEarlier(from, namespace, true, content, middle, d);
    }
  }

  ghost predicate CopyPoint(from: Disk, dest: Artifact, content: Bytes, tag: nat, n: nat, d: Disk) {
    n <= |content| && d == from.(files := from.files[Temporary(dest.digest, tag) := content[..n]])
  }

  /** A point of an atomic write: part of the content in a temporary, or all of it in place. */
  ghost predicate WritePoint(from: Disk, dest: Artifact, content: Bytes, tag: nat, d: Disk) {
    d == from.(files := from.files[dest := content]) || exists n :: CopyPoint(from, dest, content, tag, n, d)
  }

  /** Nothing of this namespace or of a retained one is touched. */
  ghost predicate SlotsSame(from: Disk, namespace: Digest, d: Disk) {
    && ControlKept(from, d)
    && OthersSpared(from, namespace, d.files)
    && Slot(d.files, Active(namespace)) == Slot(from.files, Active(namespace))
    && Slot(d.files, Quarantined(namespace)) == Slot(from.files, Quarantined(namespace))
  }

  ghost predicate SlotsKept(from: Disk, namespace: Digest, d: Disk) {
    SlotsSame(from, namespace, d) && WithinQuota(d.files)
  }

  lemma PointKeepsSlots(from: Disk, namespace: Digest, atEnd: Files, d: Disk)
    requires PassPoint(from, atEnd, d)
    requires Submap(Only(from.files, OwnPaths(namespace) + RetainedPaths(from)), atEnd)
    ensures SlotsSame(from, namespace, d)
    ensures WithinQuota(from.files) ==> WithinQuota(d.files)
  {
    if WithinQuota(from.files) {
      SmallerFits(d.files, from.files, NO_RESERVATION);
    }
    var own := Only(from.files, OwnPaths(namespace) + RetainedPaths(from));
    assert Active(namespace) in from.files ==> Active(namespace) in own;
    assert Quarantined(namespace) in from.files ==> Quarantined(namespace) in own;
    forall artifact | artifact in from.files && artifact in RetainedPaths(from) ensures artifact in d.files {
      assert artifact in own;
    }
  }

  lemma PassKeepsSlots(from: Disk, namespace: Digest, reservation: Reservation, d: Disk, outcome: Convergence)
    requires d == from.(files := d.files, controlTemporaries := 0)
    requires IsConvergence(from.files, OwnPaths(namespace) + RetainedPaths(from), reservation, d.files, outcome)
    ensures SlotsSame(from, namespace, d) && NoTemporaries(d.files) && Submap(d.files, from.files)
    ensures WithinQuota(from.files) ==> WithinQuota(d.files)
    ensures Submap(Only(from.files, OwnPaths(namespace) + RetainedPaths(from)), d.files)
    ensures outcome.Converged? ==> !Exceeds(d.files, reservation)
    ensures !outcome.Exhausted?
    ensures outcome.Converged?
       <==> !Exceeds(Only(from.files, OwnPaths(namespace) + RetainedPaths(from)), reservation)
  {
    var kept := OwnPaths(namespace) + RetainedPaths(from);
    ConvergenceKeepsProtected(from.files, kept, reservation, d.files, outcome);
    PointKeepsSlots(from, namespace, d.files, d);
    PathsArePaired(RetainedAddresses(from.records));
    EvictionNeverRunsOut(from.files, kept, reservation, d.files, outcome);
    ConvergesIffProtectedFit(from.files, kept, reservation, d.files, outcome);
  }

  /** What every operation protects comes in pairs, so its eviction loop never runs out. */
  lemma PathsArePaired(addresses: set<Address>)
    ensures Paired(PathsOf(addresses))
    ensures forall namespace :: Paired(OwnPaths(namespace) + PathsOf(addresses))
  {
  }

  /** At most the two files of one namespace change, each to one given content; the quota holds. */
  ghost predicate Touches(from: Disk, namespace: Digest, active: Option<Bytes>, evidence: Option<Bytes>, d: Disk) {
    && ControlKept(from, d)
    && OthersSpared(from, namespace, d.files)
    && (Slot(d.files, Active(namespace)) == Slot(from.files, Active(namespace))
        || Slot(d.files, Active(namespace)) == active)
    && (Slot(d.files, Quarantined(namespace)) == Slot(from.files, Quarantined(namespace))
        || Slot(d.files, Quarantined(namespace)) == evidence)
    && WithinQuota(d.files)
  }

  ghost predicate EvidencePoint(from: Disk, namespace: Digest, corrupted: bool, d: Disk) {
    Touches(from, namespace, Slot(from.files, Active(namespace)), EvidenceAfter(from.files, namespace, corrupted), d)
  }

  ghost predicate InstallPoint(from: Disk, namespace: Digest, next: Option<Bytes>, d: Disk) {
    Touches(from, namespace, next, Slot(from.files, Quarantined(namespace)), d)
  }

  lemma SparedThrough(from: Disk, namespace: Digest, middle: Disk, d: Disk)
    requires ControlKept(from, middle) && OthersSpared(from, namespace, middle.files)
    requires ControlKept(middle, d) && OthersSpared(middle, namespace, d.files)
    ensures ControlKept(from, d) && OthersSpared(from, namespace, d.files)
  {
  }

  /** A point of making room for one file and writing it. */
  ghost predicate WriteTouches(from: Disk, dest: Artifact, content: Bytes, d: Disk) {
    if dest.Active? then InstallPoint(from, dest.digest, Some(content), d)
    else Touches(from, dest.digest, Slot(from.files, Active(dest.digest)), Some(content), d)
  }

  lemma ReservedWriteTouches(from: Disk, middle: Disk, dest: Artifact, content: Bytes, tag: nat, d: Disk)
    requires SlotsKept(from, dest.digest, middle)
    requires !dest.Temporary? && Temporary(dest.digest, tag) !in middle.files
    requires !Exceeds(middle.files, Reservation(|content|, 1))
    requires WritePoint(middle, dest, content, tag, d)
    ensures WriteTouches(from, dest, content, d)
  {
    if d == middle.(files := middle.files[dest := content]) {
      ReservedWriteFits(middle.files, Reservation(|content|, 1), dest, content);
    } else {
      var n: nat :| CopyPoint(middle, dest, content, tag, n, d);
      ReservedWriteFits(middle.files, Reservation(|content|, 1), Temporary(dest.digest, tag), content[..n]);
    }
    SparedThrough(from, dest.digest, middle, d);
  }

  lemma UnlinkTouches(from: Disk, namespace: Digest)
    requires WithinQuota(from.files)
    ensures InstallPoint(from, namespace, None, from.(files := from.files - {Active(namespace)}))
  {
    SmallerFits(from.files - {Active(namespace)}, from.files, NO_RESERVATION);
  }

  /** A file of another namespace that is protected stays as it is. */
  lemma RetainedStays(from: Disk, namespace: Digest, d: Disk, artifact: Artifact)
    requires ControlKept(from, d) && OthersSpared(from, namespace, d.files)
    requires artifact in RetainedPaths(from) && artifact.digest != namespace
    ensures Slot(d.files, artifact) == Slot(from.files, artifact)
  {
  }

  /** What is protected stays as it is while nothing of the namespace is touched. */
  lemma ProtectedStays(from: Disk, namespace: Digest, d: Disk)
    requires SlotsSame(from, namespace, d)
    ensures ProtectedFiles(d, namespace) == ProtectedFiles(from, namespace)
  {
    assert RetainedPaths(d) == RetainedPaths(from);
    forall artifact | artifact in OwnPaths(namespace) + RetainedPaths(from)
      ensures Slot(d.files, artifact) == Slot(from.files, artifact)
    {
      ProtectedIsOwnOrRetained(from, namespace, artifact);
      if artifact.digest != namespace {
        RetainedStays(from, namespace, d, artifact);
      }
    }
    OnlyAgrees(from.files, d.files, OwnPaths(namespace) + RetainedPaths(from));
  }

  lemma ProtectedIsOwnOrRetained(disk: Disk, namespace: Digest, artifact: Artifact)
    requires artifact in OwnPaths(namespace) + RetainedPaths(disk)
    ensures artifact == Active(namespace) || artifact == Quarantined(namespace)
            || (artifact in RetainedPaths(disk) && artifact.digest != namespace)
  {
  }

  lemma OnlyAgrees(a: Files, b: Files, kept: set<Artifact>)
    requires forall artifact :: artifact in kept ==> Slot(b, artifact) == Slot(a, artifact)
    ensures Only(b, kept) == Only(a, kept)
  {
    forall artifact | artifact in kept
      ensures (artifact in a <==> artifact in b) && (artifact in a ==> a[artifact] == b[artifact])
    {
      assert Slot(b, artifact) == Slot(a, artifact);
    }
  }

  lemma SlotsAgree(from: Disk, d: Disk, artifact: Artifact)
    requires Slot(d.files, artifact) == Slot(from.files, artifact)
    ensures artifact in d.files <==> artifact in from.files
    ensures artifact in d.files ==> d.files[artifact] == from.files[artifact]
  {
  }

  /** Once the evidence is in place, it is what is protected besides the files that were before. */
  lemma ProtectedAfterEvidence(from: Disk, namespace: Digest, corrupted: bool, d: Disk)
    requires ControlKept(from, d) && OthersSpared(from, namespace, d.files)
    requires Slot(d.files, Active(namespace)) == Slot(from.files, Active(namespace))
    requires Slot(d.files, Quarantined(namespace)) == EvidenceAfter(from.files, namespace, corrupted)
    ensures ProtectedFiles(d, namespace)
         == WithSlot(ProtectedFiles(from, namespace), Quarantined(namespace),
                     EvidenceAfter(from.files, namespace, corrupted))
  {
    assert RetainedPaths(d) == RetainedPaths(from);
    var kept, evidence := OwnPaths(namespace) + RetainedPaths(from), EvidenceAfter(from.files, namespace, corrupted);
    forall artifact | artifact in kept
      ensures Slot(d.files, artifact) == Slot(WithSlot(from.files, Quarantined(namespace), evidence), artifact)
    {
      ProtectedIsOwnOrRetained(from, namespace, artifact);
      if artifact.digest != namespace {
        RetainedStays(from, namespace, d, artifact);
      }
      SlotOfWithSlot(from.files, Quarantined(namespace), evidence, artifact);
    }
    OnlyAgrees(WithSlot(from.files, Quarantined(namespace), evidence), d.files, kept);
    OnlyWithSlot(from.files, kept, Quarantined(namespace), evidence);
  }

  lemma SlotOfWithSlot(files: Files, changed: Artifact, content: Option<Bytes>, artifact: Artifact)
    ensures Slot(WithSlot(files, changed, content), artifact)
         == if artifact == changed then content else Slot(files, artifact)
  {
  }

  lemma OnlyWithSlot(files: Files, kept: set<Artifact>, changed: Artifact, content: Option<Bytes>)
    requires changed in kept
    ensures Only(WithSlot(files, changed, content), kept) == WithSlot(Only(files, kept), changed, content)
  {
  }

  /** Whether a replacement fits then depends on the room that is left for the new content. */
  lemma ReplaceFitsNow(from: Disk, namespace: Digest, corrupted: bool, next: Option<Bytes>, d: Disk)
    requires ControlKept(from, d) && OthersSpared(from, namespace, d.files)
    requires Slot(d.files, Active(namespace)) == Slot(from.files, Active(namespace))
    requires Slot(d.files, Quarantined(namespace)) == EvidenceAfter(from.files, namespace, corrupted)
    requires var evidence := EvidenceAfter(from.files, namespace, corrupted);
             NeedsEvidence(from.files, namespace, corrupted) && evidence.Some? ==>
               RoomFor(from, namespace, |evidence.value|)
    ensures ReplaceFits(from, namespace, corrupted, next) <==> (next.Some? ==> RoomFor(d, namespace, |next.value|))
  {
    ProtectedAfterEvidence(from, namespace, corrupted, d);
  }

  lemma InstallAfterEvidence(from: Disk, namespace: Digest, corrupted: bool, next: Option<Bytes>, middle: Disk, d: Disk)
    requires EvidencePoint(from, namespace, corrupted, middle)
    requires Slot(middle.files, Quarantined(namespace)) == EvidenceAfter(from.files, namespace, corrupted)
    requires InstallPoint(middle, namespace, next, d)
    ensures ReplacePoint(from, namespace, corrupted, next, d)
  {
    SparedThrough(from, namespace, middle, d);
  }

  /** Clearing control temporaries first does not take a pass out of its bounds. */
  lemma SweepIsPass(from: Disk, atEnd: Files, before: set<Disk>, sofar: set<Disk>, all: set<Disk>)
    requires Submap(atEnd, from.files)
    requires sofar == before + {from.(controlTemporaries := 0)}
    requires forall d :: d in all ==> d in sofar || PassPoint(from.(controlTemporaries := 0), atEnd, d)
    ensures forall d :: d in all ==> d in before || PassPoint(from, atEnd, d)
  {
  }

  /** Points of two consecutive stretches of a pass are points of the whole. */
  lemma PointsCompose(from: Disk, middle: Disk, atEnd: Files, before: set<Disk>, sofar: set<Disk>, all: set<Disk>)
    requires Submap(middle.files, from.files) && Submap(atEnd, middle.files) && ControlKept(from, middle)
    requires forall d :: d in sofar ==> d in before || PassPoint(from, middle.files, d)
    requires forall d :: d in all ==> d in sofar || PassPoint(middle, atEnd, d)
    ensures forall d :: d in all ==> d in before || PassPoint(from, atEnd, d)
  {
  }
}
