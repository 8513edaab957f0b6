/** The budget on writer leases and retention records, the control files of a cache directory. */
module ControlRecords {
  import opened Wrappers
  import opened Numbers

  const WRITER_MAX_FILE_BYTES: nat := 2 * 1024
  const RETENTION_MAX_FILE_BYTES: nat := 64 * 1024
  const MAX_WRITER_FILES: nat := 64
  const MAX_RETENTION_FILES: nat := 64
  const MAX_FINAL_FILES: nat := MAX_WRITER_FILES + MAX_RETENTION_FILES
  const MAX_FINAL_BYTES: nat :=
    MAX_WRITER_FILES * WRITER_MAX_FILE_BYTES + MAX_RETENTION_FILES * RETENTION_MAX_FILE_BYTES
  const MAX_PHYSICAL_FILES: nat := MAX_FINAL_FILES + 1
  const MAX_PHYSICAL_BYTES: nat := MAX_FINAL_BYTES + RETENTION_MAX_FILE_BYTES

  datatype Kind = Writer | Retention

  function Cap(kind: Kind): nat {
    if kind.Retention? then RETENTION_MAX_FILE_BYTES else WRITER_MAX_FILE_BYTES
  }

  function MaxFiles(kind: Kind): nat {
    if kind.Retention? then MAX_RETENTION_FILES else MAX_WRITER_FILES
  }

  datatype Budget = Budget(bytes: int, files: int, retentionFinalBytes: int, retentionFinalFiles: int,
                           writerFinalBytes: int, writerFinalFiles: int)

  const EMPTY_BUDGET := Budget(0, 0, 0, 0, 0, 0)

  predicate IsSafeInteger(n: int) {
    -(MAX_SAFE_INTEGER as int) <= n <= MAX_SAFE_INTEGER
  }

  /** `assertCacheControlDirectoryBudget` does not throw. */
  predicate WithinBudget(budget: Budget) {
    var finalFiles := budget.retentionFinalFiles + budget.writerFinalFiles;
    var finalBytes := budget.retentionFinalBytes + budget.writerFinalBytes;
    && IsSafeInteger(budget.files) && IsSafeInteger(budget.bytes)
    && IsSafeInteger(budget.retentionFinalFiles) && IsSafeInteger(budget.retentionFinalBytes)
    && IsSafeInteger(budget.writerFinalFiles) && IsSafeInteger(budget.writerFinalBytes)
    && IsSafeInteger(finalFiles) && IsSafeInteger(finalBytes)
    && 0 <= budget.retentionFinalFiles <= MAX_RETENTION_FILES
    && 0 <= budget.writerFinalFiles <= MAX_WRITER_FILES
    && 0 <= finalFiles <= MAX_FINAL_FILES
    && 0 <= finalBytes <= MAX_FINAL_BYTES
    && budget.bytes <= MAX_PHYSICAL_BYTES
    && budget.files <= MAX_PHYSICAL_FILES
    && 0 <= budget.retentionFinalBytes && 0 <= budget.writerFinalBytes
  }

  /** A recognized control file: a final record, or a temporary left by an atomic replacement. */
  datatype ControlFile = ControlFile(kind: Kind, final: bool, bytes: nat)

  function WithFile(budget: Budget, file: ControlFile): Budget {
    var total := budget.(files := budget.files + 1, bytes := budget.bytes + file.bytes);
    if file.final && file.kind.Retention? then
      total.(retentionFinalFiles := total.retentionFinalFiles + 1,
             retentionFinalBytes := total.retentionFinalBytes + file.bytes)
    else if file.final then
      total.(writerFinalFiles := total.writerFinalFiles + 1,
             writerFinalBytes := total.writerFinalBytes + file.bytes)
    else
      total
  }

  /** The totals of a directory listing. */
  function Measured(listing: seq<ControlFile>): Budget {
    if listing == [] then EMPTY_BUDGET
    else WithFile(Measured(listing[..|listing| - 1]), listing[|listing| - 1])
  }

  predicate Capped(listing: seq<ControlFile>) {
    forall i :: 0 <= i < |listing| ==> listing[i].bytes <= Cap(listing[i].kind)
  }

  /** `measureCacheControlDirectory`: it stops at the first file that breaks a limit. */
  method MeasureControlDirectory(listing: seq<ControlFile>) returns (budget: Option<Budget>)
    ensures budget == if Capped(listing) && WithinBudget(Measured(listing)) then Some(Measured(listing)) else None
  {
    var current := EMPTY_BUDGET;
    for i := 0 to |listing|
      invariant Capped(listing[..i])
      invariant current == Measured(listing[..i]) && WithinBudget(current)
    {
      var file := listing[i];
      if file.bytes > Cap(file.kind) {
        return None;
      }
      assert listing[..i + 1][..i] == listing[..i];
      current := WithFile(current, file);
      if !WithinBudget(current) {
        MeasuredGrows(listing, i + 1);
        return None;
      }
    }
    assert listing[..|listing|] == listing;
    budget := Some(current);
  }

  ghost predicate AtMost(a: Budget, b: Budget) {
    && 0 <= a.bytes <= b.bytes && 0 <= a.files <= b.files
    && 0 <= a.retentionFinalBytes <= b.retentionFinalBytes && 0 <= a.retentionFinalFiles <= b.retentionFinalFiles
    && 0 <= a.writerFinalBytes <= b.writerFinalBytes && 0 <= a.writerFinalFiles <= b.writerFinalFiles
  }

  lemma {:induction false} MeasuredNonnegative(listing: seq<ControlFile>)
    ensures AtMost(EMPTY_BUDGET, Measured(listing))
  {
    if listing != [] {
      MeasuredNonnegative(listing[..|listing| - 1]);
    }
  }

  lemma {:induction false} MeasuredGrows(listing: seq<ControlFile>, n: nat)
    requires n <= |listing|
    ensures AtMost(Measured(listing[..n]), Measured(listing))
    decreases |listing| - n
  {
    if n < |listing| {
      MeasuredGrows(listing, n + 1);
      assert listing[..n + 1][..n] == listing[..n];
      MeasuredNonnegative(listing[..n]);
    } else {
      assert listing[..n] == listing;
      MeasuredNonnegative(listing);
    }
  }

  /** The budget once `assertCacheControlRecordReservation` has added one atomic replacement to it. */
  function Reserved(budget: Budget, kind: Kind, current: Option<nat>, nextBytes: nat): Budget {
    var total := budget.(files := budget.files + 1, bytes := budget.bytes + nextBytes);
    var files := if current.Some? then 0 else 1;
    var bytes := nextBytes - if current.Some? then current.value else 0;
    if kind.Retention? then
      total.(retentionFinalFiles := total.retentionFinalFiles + files,
             retentionFinalBytes := total.retentionFinalBytes + bytes)
    else
      total.(writerFinalFiles := total.writerFinalFiles + files,
             writerFinalBytes := total.writerFinalBytes + bytes)
  }

  // --- The physical limits follow from the final ones ------------------------------------------

  function FinalFiles(listing: seq<ControlFile>, kind: Kind): nat {
    if listing == [] then 0
    else
      var last := listing[|listing| - 1];
      FinalFiles(listing[..|listing| - 1], kind) + if last.final && last.kind == kind then 1 else 0
  }

  function Temporaries(listing: seq<ControlFile>): nat {
    if listing == [] then 0
    else Temporaries(listing[..|listing| - 1]) + if listing[|listing| - 1].final then 0 else 1
  }

  /** Counts bound bytes, since each file is individually capped. */
  lemma {:induction false} CountsBoundBytes(listing: seq<ControlFile>)
    requires Capped(listing)
    ensures var budget := Measured(listing);
            && budget.retentionFinalFiles == FinalFiles(listing, Retention)
            && budget.writerFinalFiles == FinalFiles(listing, Writer)
            && budget.files == FinalFiles(listing, Retention) + FinalFiles(listing, Writer) + Temporaries(listing)
            && 0 <= budget.retentionFinalBytes <= RETENTION_MAX_FILE_BYTES * FinalFiles(listing, Retention)
            && 0 <= budget.writerFinalBytes <= WRITER_MAX_FILE_BYTES * FinalFiles(listing, Writer)
            && 0 <= budget.bytes <= budget.retentionFinalBytes + budget.writerFinalBytes
                                    + RETENTION_MAX_FILE_BYTES * Temporaries(listing)
            && (Temporaries(listing) == 0 ==> budget.bytes == budget.retentionFinalBytes + budget.writerFinalBytes)
  {
    if listing != [] {
      CountsBoundBytes(listing[..|listing| - 1]);
    }
  }

  /**
   * A directory with at most one temporary, all of whose files are individually small enough, is
   * within every budget exactly when neither kind has more than 64 records.
   */
  lemma BudgetIsACount(listing: seq<ControlFile>)
    requires Capped(listing) && Temporaries(listing) <= 1
    ensures WithinBudget(Measured(listing)) <==>
              FinalFiles(listing, Writer) <= MAX_WRITER_FILES && FinalFiles(listing, Retention) <= MAX_RETENTION_FILES
  {
    CountsBoundBytes(listing);
    CountsDecide(Measured(listing), FinalFiles(listing, Retention), FinalFiles(listing, Writer), Temporaries(listing));
  }

  /** Within the counts, no limit on bytes or on physical files can be exceeded. */
  lemma CountsDecide(budget: Budget, retention: nat, writer: nat, temporaries: nat)
    requires budget.retentionFinalFiles == retention && budget.writerFinalFiles == writer && temporaries <= 1
    requires budget.files == retention + writer + temporaries
    requires 0 <= budget.retentionFinalBytes <= RETENTION_MAX_FILE_BYTES * retention
    requires 0 <= budget.writerFinalBytes <= WRITER_MAX_FILE_BYTES * writer
    requires 0 <= budget.bytes <= budget.retentionFinalBytes + budget.writerFinalBytes
                                  + RETENTION_MAX_FILE_BYTES * temporaries
    ensures WithinBudget(budget) <==> writer <= MAX_WRITER_FILES && retention <= MAX_RETENTION_FILES
  {
  }

  function FinalBytes(budget: Budget, kind: Kind): int {
    if kind.Retention? then budget.retentionFinalBytes else budget.writerFinalBytes
  }

  /** The record to be replaced is one of those counted; the others are bounded by their number. */
  lemma {:induction false} CurrentIsCounted(listing: seq<ControlFile>, i: nat)
    requires i < |listing| && listing[i].final && Capped(listing)
    ensures var kind := listing[i].kind;
            && FinalFiles(listing, kind) >= 1
            && listing[i].bytes <= FinalBytes(Measured(listing), kind)
            && FinalBytes(Measured(listing), kind) - listing[i].bytes <= Cap(kind) * (FinalFiles(listing, kind) - 1)
  {
    var init := listing[..|listing| - 1];
    if i < |listing| - 1 {
      assert init[i] == listing[i];
      CurrentIsCounted(init, i);
    } else {
      CountsBoundBytes(init);
    }
  }

  /**
   * In a directory without temporaries a reservation is refused only for a 65th record of its kind:
   * the limits on physical files and bytes, and on final bytes, never refuse one by themselves.
   * `current` is the index of the record to be replaced, if there is one.
   */
  lemma ReservationIsACount(listing: seq<ControlFile>, kind: Kind, current: Option<nat>, nextBytes: nat)
    requires Capped(listing) && Temporaries(listing) == 0 && WithinBudget(Measured(listing))
    requires nextBytes <= Cap(kind)
    requires current.Some? ==>
               current.value < |listing| && listing[current.value].final && listing[current.value].kind == kind
    ensures var replaced := if current.Some? then Some(listing[current.value].bytes) else None;
            WithinBudget(Reserved(Measured(listing), kind, replaced, nextBytes)) <==>
              current.Some? || FinalFiles(listing, kind) < MaxFiles(kind)
  {
    CountsBoundBytes(listing);
    var budget := Measured(listing);
    var retention, writer := FinalFiles(listing, Retention), FinalFiles(listing, Writer);
    if current.None? {
      NewRecordFits(budget, kind, nextBytes, retention, writer);
    } else {
      CurrentIsCounted(listing, current.value);
      ReplacementFits(budget, kind, listing[current.value].bytes, nextBytes, retention, writer);
    }
  }

  /** The facts about a budget that its counts give. */
  ghost predicate Counted(budget: Budget, retention: nat, writer: nat) {
    && WithinBudget(budget)
    && budget.retentionFinalFiles == retention && budget.writerFinalFiles == writer
    && budget.files == retention + writer
    && 0 <= budget.retentionFinalBytes <= RETENTION_MAX_FILE_BYTES * retention
    && 0 <= budget.writerFinalBytes <= WRITER_MAX_FILE_BYTES * writer
    && budget.bytes == budget.retentionFinalBytes + budget.writerFinalBytes
  }

  lemma NewRecordFits(budget: Budget, kind: Kind, nextBytes: nat, retention: nat, writer: nat)
    requires Counted(budget, retention, writer) && nextBytes <= Cap(kind)
    ensures WithinBudget(Reserved(budget, kind, None, nextBytes))
       <==> (if kind.Retention? then retention else writer) < MaxFiles(kind)
  {
  }

  lemma ReplacementFits(budget: Budget, kind: Kind, currentBytes: nat, nextBytes: nat, retention: nat, writer: nat)
    requires Counted(budget, retention, writer) && nextBytes <= Cap(kind)
    requires currentBytes <= FinalBytes(budget, kind)
    requires kind.Retention? ==>
               FinalBytes(budget, kind) - currentBytes <= RETENTION_MAX_FILE_BYTES * (retention - 1)
    requires kind.Writer? ==> FinalBytes(budget, kind) - currentBytes <= WRITER_MAX_FILE_BYTES * (writer - 1)
    ensures WithinBudget(Reserved(budget, kind, Some(currentBytes), nextBytes))
  {
  }
}
