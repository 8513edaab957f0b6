/** What a scan of the cache directory finds of its control records, and what the budget on it then says. */
module ControlListings {
  import opened Wrappers
  import opened Totals
  import opened ControlRecords
  import opened CacheDirectories

  datatype ControlName = LeaseFile(sessionId: string) | RecordFile(id: RecordId) | TemporaryFile(serial: nat)

  /** Every record on disk was small enough when it was written. */
  predicate RecordsCapped(control: ControlMeasure, disk: Disk) {
    && (forall session :: session in disk.writers ==> control.LeaseBytes(disk.writers[session]) <= WRITER_MAX_FILE_BYTES)
    && (forall id :: id in disk.records ==> control.RecordBytes(id, disk.records[id]) <= RETENTION_MAX_FILE_BYTES)
  }

  /** The file of a name; a temporary holds at most what a record of its kind may. */
  predicate IsFileOf(control: ControlMeasure, disk: Disk, name: ControlName, file: ControlFile) {
    match name
    case LeaseFile(session) =>
      session in disk.writers && file == ControlFile(Writer, true, control.LeaseBytes(disk.writers[session]))
    case RecordFile(id) =>
      id in disk.records && file == ControlFile(Retention, true, control.RecordBytes(id, disk.records[id]))
    case TemporaryFile(_) => !file.final && file.bytes <= Cap(file.kind)
  }

  predicate Distinct(names: seq<ControlName>) {
    forall i, j :: 0 <= i < j < |names| ==> names[i] != names[j]
  }

  ghost predicate AreFilesOf(control: ControlMeasure, disk: Disk, names: seq<ControlName>, listing: seq<ControlFile>) {
    && |names| == |listing| && Distinct(names)
    && forall i :: 0 <= i < |names| ==> IsFileOf(control, disk, names[i], listing[i])
  }

  /** A listing of the directory, in whatever order: each lease, each record and each temporary once. */
  ghost predicate Lists(control: ControlMeasure, disk: Disk, names: seq<ControlName>, listing: seq<ControlFile>) {
    && AreFilesOf(control, disk, names, listing)
    && (forall session :: session in disk.writers ==> LeaseFile(session) in names)
    && (forall id :: id in disk.records ==> RecordFile(id) in names)
    && Temporaries(listing) == disk.controlTemporaries
  }

  function Sessions(names: seq<ControlName>): set<string> {
    set name | name in names && name.LeaseFile? :: name.sessionId
  }

  function Ids(names: seq<ControlName>): set<RecordId> {
    set name | name in names && name.RecordFile? :: name.id
  }

  lemma OneMoreName(names: seq<ControlName>, name: ControlName)
    requires name !in names
    ensures |Sessions(names + [name])| == |Sessions(names)| + if name.LeaseFile? then 1 else 0
    ensures |Ids(names + [name])| == |Ids(names)| + if name.RecordFile? then 1 else 0
  {
    var more := names + [name];
    assert forall other :: other in more <==> other in names || other == name;
    if name.LeaseFile? {
      assert Sessions(more) == Sessions(names) + {name.sessionId};
      assert name.sessionId !in Sessions(names);
    } else {
      assert Sessions(more) == Sessions(names);
    }
    if name.RecordFile? {
      assert Ids(more) == Ids(names) + {name.id};
      assert name.id !in Ids(names);
    } else {
      assert Ids(more) == Ids(names);
    }
  }

  /** The counts of a listing are the numbers of names of each kind. */
  lemma {:induction false} NamesAreCounted(
      control: ControlMeasure, disk: Disk, names: seq<ControlName>, listing: seq<ControlFile>)
    requires AreFilesOf(control, disk, names, listing)
    ensures FinalFiles(listing, Writer) == |Sessions(names)| && FinalFiles(listing, Retention) == |Ids(names)|
    decreases |names|
  {
    if names != [] {
      var n := |names| - 1;
      NamesAreCounted(control, disk, names[..n], listing[..n]);
      OneMoreName(names[..n], names[n]);
      assert names == names[..n] + [names[n]];
      assert IsFileOf(control, disk, names[n], listing[n]);
    } else {
      assert Sessions(names) == {} && Ids(names) == {};
    }
  }

  lemma ListingCounts(control: ControlMeasure, disk: Disk, names: seq<ControlName>, listing: seq<ControlFile>)
    requires Lists(control, disk, names, listing)
    ensures FinalFiles(listing, Writer) == |disk.writers| && FinalFiles(listing, Retention) == |disk.records|
  {
    NamesAreCounted(control, disk, names, listing);
    forall name | name in names
      ensures (name.LeaseFile? ==> name.sessionId in disk.writers) && (name.RecordFile? ==> name.id in disk.records)
    {
      var i :| 0 <= i < |names| && names[i] == name;
      assert IsFileOf(control, disk, names[i], listing[i]);
    }
    assert Sessions(names) == disk.writers.Keys;
    assert Ids(names) == disk.records.Keys;
  }

  lemma ListingIsCapped(control: ControlMeasure, disk: Disk, names: seq<ControlName>, listing: seq<ControlFile>)
    requires Lists(control, disk, names, listing) && RecordsCapped(control, disk)
    ensures Capped(listing)
  {
    forall i | 0 <= i < |listing| ensures listing[i].bytes <= Cap(listing[i].kind) {
      assert IsFileOf(control, disk, names[i], listing[i]);
    }
  }

  /** The budget check on any listing of the directory comes down to the two counts that operations check. */
  lemma BudgetIsControlFits(control: ControlMeasure, disk: Disk, names: seq<ControlName>, listing: seq<ControlFile>)
    requires Lists(control, disk, names, listing) && RecordsCapped(control, disk) && disk.controlTemporaries <= 1
    ensures Capped(listing) && (WithinBudget(Measured(listing)) <==> ControlFits(disk))
  {
    ListingCounts(control, disk, names, listing);
    ListingIsCapped(control, disk, names, listing);
    BudgetIsACount(listing);
  }

  /** The reservation of a lease is refused exactly where `Activate` refuses it. */
  lemma LeaseReservationIsACount(
      control: ControlMeasure, disk: Disk, names: seq<ControlName>, listing: seq<ControlFile>, lease: Lease)
    requires Lists(control, disk, names, listing) && RecordsCapped(control, disk) && ControlFits(disk)
    requires disk.controlTemporaries == 0 && control.LeaseBytes(lease) <= WRITER_MAX_FILE_BYTES
    ensures var current := if lease.sessionId in disk.writers then Some(control.LeaseBytes(disk.writers[lease.sessionId]))
                           else None;
            WithinBudget(Reserved(Measured(listing), Writer, current, control.LeaseBytes(lease)))
            <==> lease.sessionId in disk.writers || |disk.writers| < MAX_WRITER_FILES
  {
    BudgetIsControlFits(control, disk, names, listing);
    ListingCounts(control, disk, names, listing);
    var index: Option<nat> := None;
    if lease.sessionId in disk.writers {
      var i :| 0 <= i < |names| && names[i] == LeaseFile(lease.sessionId);
      assert IsFileOf(control, disk, names[i], listing[i]);
      index := Some(i);
    }
    ReservationIsACount(listing, Writer, index, control.LeaseBytes(lease));
  }

  /** The reservation of a retention record is refused exactly where `WriteRecord` refuses it. */
  lemma RecordReservationIsACount(
      control: ControlMeasure, disk: Disk, names: seq<ControlName>, listing: seq<ControlFile>, id: RecordId, record: Record)
    requires Lists(control, disk, names, listing) && RecordsCapped(control, disk) && ControlFits(disk)
    requires disk.controlTemporaries == 0 && control.RecordBytes(id, record) <= RETENTION_MAX_FILE_BYTES
    ensures var current := if id in disk.records then Some(control.RecordBytes(id, disk.records[id])) else None;
            WithinBudget(Reserved(Measured(listing), Retention, current, control.RecordBytes(id, record)))
            <==> id in disk.records || |disk.records| < MAX_RETENTION_FILES
  {
    BudgetIsControlFits(control, disk, names, listing);
    ListingCounts(control, disk, names, listing);
    var index: Option<nat> := None;
    if id in disk.records {
      var i :| 0 <= i < |names| && names[i] == RecordFile(id);
      assert IsFileOf(control, disk, names[i], listing[i]);
      index := Some(i);
    }
    ReservationIsACount(listing, Retention, index, control.RecordBytes(id, record));
  }
}
