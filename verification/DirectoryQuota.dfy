/** The quota on store artifacts in a cache directory, and which of them a quota pass evicts. */
module DirectoryQuota {
  import opened Ordering
  import opened Totals
  import opened CacheFiles

  const MAX_DIRECTORY_FILES: nat := 32
  const MAX_DIRECTORY_BYTES: nat := 256 * 1024 * 1024

  type Digest = string

  /** A store artifact by its place in the directory. */
  datatype Artifact =
    | Active(digest: Digest)
    | Quarantined(digest: Digest)
    | Temporary(digest: Digest, tag: nat)

  type Files = map<Artifact, Bytes>

  /** Room that an operation is about to need. */
  datatype Reservation = Reservation(bytes: nat, files: nat)

  const NO_RESERVATION := Reservation(0, 0)

  function Sizes(files: Files): map<Artifact, nat> {
    map artifact | artifact in files :: |files[artifact]|
  }

  ghost predicate Exceeds(files: Files, reservation: Reservation) {
    || |files| + reservation.files > MAX_DIRECTORY_FILES
    || Total(Sizes(files)) + reservation.bytes > MAX_DIRECTORY_BYTES
  }

  ghost predicate WithinQuota(files: Files) {
    !Exceeds(files, NO_RESERVATION)
  }

  /** The quota in numbers: 32 files and 256 MiB. */
  lemma QuotaInNumbers(files: Files)
    ensures WithinQuota(files) <==> |files| <= 32 && Total(Sizes(files)) <= 268_435_456
  {
  }

  function Group(files: Files, digest: Digest): set<Artifact> {
    set artifact | artifact in files && artifact.digest == digest
  }

  function StaleTemporaries(files: Files, kept: set<Artifact>): set<Artifact> {
    set artifact | artifact in files && artifact.Temporary? && artifact !in kept
  }

  function Only(files: Files, kept: set<Artifact>): Files {
    map artifact | artifact in files && artifact in kept :: files[artifact]
  }

  /** The digests none of whose artifacts is protected. */
  function FreeDigests(files: Files, kept: set<Artifact>): set<Digest> {
    set artifact | artifact in files && Group(files, artifact.digest) !! kept :: artifact.digest
  }

  function GroupOrder(files: Files, kept: set<Artifact>): seq<Digest> {
    LessIsStrictTotal();
    Ascending(FreeDigests(files, kept), Less)
  }

  lemma OrderMembers(files: Files, kept: set<Artifact>)
    ensures forall digest :: digest in GroupOrder(files, kept) <==> digest in FreeDigests(files, kept)
  {
    LessIsStrictTotal();
    AscendingMembers(FreeDigests(files, kept), Less);
  }

  /** The files once the first `n` digest groups are gone. */
  function AfterEvicting(files: Files, order: seq<Digest>, n: nat): Files
    requires n <= |order|
  {
    if n == 0 then files
    else
      var before := AfterEvicting(files, order, n - 1);
      before - Group(before, order[n - 1])
  }

  ghost predicate NoEvictionFits(files: Files, order: seq<Digest>, n: nat, reservation: Reservation)
    requires n <= |order|
  {
    forall m :: 0 <= m < n ==> Exceeds(AfterEvicting(files, order, m), reservation)
  }

  lemma OneMoreExceeds(files: Files, order: seq<Digest>, n: nat, reservation: Reservation)
    requires n < |order| && NoEvictionFits(files, order, n, reservation)
    requires Exceeds(AfterEvicting(files, order, n), reservation)
    ensures NoEvictionFits(files, order, n + 1, reservation)
  {
    forall m | 0 <= m < n + 1 ensures Exceeds(AfterEvicting(files, order, m), reservation) {
      assert m == n || m < n;
    }
  }

  datatype Convergence = Converged | ProtectedTooLarge | Exhausted

  /** What a quota pass does to the files it finds, said without its loops. */
  ghost predicate IsConvergence(files: Files, kept: set<Artifact>, reservation: Reservation,
                                after: Files, outcome: Convergence)
  {
    var clean := files - StaleTemporaries(files, kept);
    ConvergenceOver(clean, Only(clean, kept), GroupOrder(clean, kept), reservation, after, outcome)
  }

  /** The same, given the files without stale temporaries, the protected ones, and the eviction order. */
  ghost predicate ConvergenceOver(clean: Files, protected: Files, order: seq<Digest>, reservation: Reservation,
                                  after: Files, outcome: Convergence)
  {
    match outcome
    case ProtectedTooLarge => Exceeds(protected, reservation) && after == clean
    case Converged =>
      && !Exceeds(protected, reservation)
      && exists n :: IsShortestEviction(clean, order, n, reservation, after)
    case Exhausted =>
      && !Exceeds(protected, reservation)
      && after == AfterEvicting(clean, order, |order|)
      && Exceeds(after, reservation)
      && NoEvictionFits(clean, order, |order|, reservation)
  }

  ghost predicate IsShortestEviction(clean: Files, order: seq<Digest>, n: nat, reservation: Reservation, after: Files) {
    && n <= |order|
    && after == AfterEvicting(clean, order, n)
    && !Exceeds(after, reservation)
    && NoEvictionFits(clean, order, n, reservation)
  }

  lemma EvictionIsConvergence(clean: Files, protected: Files, order: seq<Digest>, reservation: Reservation, n: nat,
                              after: Files)
    requires n <= |order| && after == AfterEvicting(clean, order, n) && NoEvictionFits(clean, order, n, reservation)
    requires !Exceeds(protected, reservation)
    requires Exceeds(after, reservation) ==> n == |order|
    ensures ConvergenceOver(clean, protected, order, reservation, after,
                            if Exceeds(after, reservation) then Exhausted else Converged)
  {
    if !Exceeds(after, reservation) {
      assert IsShortestEviction(clean, order, n, reservation, after);
    }
  }

  // --- What eviction leaves --------------------------------------------------------------------

  lemma {:induction false} LeftAfterEvicting(files: Files, order: seq<Digest>, n: nat)
    requires n <= |order|
    ensures Submap(AfterEvicting(files, order, n), files)
    ensures forall artifact :: artifact in files ==>
              (artifact in AfterEvicting(files, order, n) <==> artifact.digest !in order[..n])
  {
    if n > 0 {
      LeftAfterEvicting(files, order, n - 1);
      assert order[..n] == order[..n - 1] + [order[n - 1]];
    }
  }

  /** Every caller protects the active and the corrupt path of a digest together. */
  ghost predicate Paired(kept: set<Artifact>) {
    && (forall artifact :: artifact in kept ==> !artifact.Temporary?)
    && (forall digest :: Active(digest) in kept <==> Quarantined(digest) in kept)
  }

  lemma FreeDigestsAreUnprotected(files: Files, kept: set<Artifact>, digest: Digest)
    requires digest in FreeDigests(files, kept)
    ensures Group(files, digest) !! kept && Group(files, digest) != {}
  {
    var artifact :| artifact in files && artifact.digest == digest && Group(files, artifact.digest) !! kept;
    assert artifact in Group(files, digest);
  }

  /** A pass removes nothing that is protected, changes no file it keeps, and drops whole groups. */
  lemma ConvergenceKeepsProtected(files: Files, kept: set<Artifact>, reservation: Reservation,
                                  after: Files, outcome: Convergence)
    requires IsConvergence(files, kept, reservation, after, outcome)
    ensures Submap(after, files)
    ensures Submap(Only(files, kept), after)
    ensures forall artifact :: artifact in after && artifact.Temporary? ==> artifact in kept
    ensures forall artifact :: artifact in files && artifact !in after && !artifact.Temporary?
              ==> artifact.digest in FreeDigests(files - StaleTemporaries(files, kept), kept)
  {
    var clean := files - StaleTemporaries(files, kept);
    var order := GroupOrder(clean, kept);
    var n := if outcome.ProtectedTooLarge? then 0
             else if outcome.Exhausted? then |order|
             else var m :| IsShortestEviction(clean, order, m, reservation, after); m;
    LeftAfterEvicting(clean, order, n);
    OrderMembers(clean, kept);
    assert after == AfterEvicting(clean, order, n);
    forall artifact | artifact in clean && artifact !in after
      ensures artifact.digest in FreeDigests(clean, kept) && artifact !in kept
    {
      FreeDigestsAreUnprotected(clean, kept, artifact.digest);
      assert artifact in Group(clean, artifact.digest);
    }
  }

  /** With every digest protected as a whole, what eviction cannot take is exactly what is protected. */
  lemma OnlyProtectedRemains(clean: Files, kept: set<Artifact>)
    requires Paired(kept) && forall artifact :: artifact in clean ==> !artifact.Temporary?
    ensures var order := GroupOrder(clean, kept);
            AfterEvicting(clean, order, |order|) == Only(clean, kept)
  {
    var order := GroupOrder(clean, kept);
    LeftAfterEvicting(clean, order, |order|);
    assert order[..|order|] == order;
    forall artifact | artifact in clean ensures artifact.digest in order <==> artifact !in kept {
      FreeExactlyIfUnprotected(clean, kept, artifact);
    }
  }

  lemma FreeExactlyIfUnprotected(clean: Files, kept: set<Artifact>, artifact: Artifact)
    requires Paired(kept) && artifact in clean
    requires forall artifact :: artifact in clean ==> !artifact.Temporary?
    ensures artifact.digest in GroupOrder(clean, kept) <==> artifact !in kept
  {
    OrderMembers(clean, kept);
    var group := Group(clean, artifact.digest);
    assert artifact in group;
    if artifact !in kept {
      assert group !! kept;
    } else if artifact.digest in FreeDigests(clean, kept) {
      FreeDigestsAreUnprotected(clean, kept, artifact.digest);
    }
  }

  /** Once the protected artifacts fit, the eviction loop never runs out of candidates. */
  lemma EvictionNeverRunsOut(files: Files, kept: set<Artifact>, reservation: Reservation,
                             after: Files, outcome: Convergence)
    requires Paired(kept) && IsConvergence(files, kept, reservation, after, outcome)
    ensures !outcome.Exhausted?
  {
    var clean := files - StaleTemporaries(files, kept);
    OnlyProtectedRemains(clean, kept);
  }

  lemma SweepKeepsProtected(files: Files, kept: set<Artifact>)
    ensures Only(files - StaleTemporaries(files, kept), kept) == Only(files, kept)
  {
  }

  /** So a pass succeeds if, and only if, the protected files by themselves leave the room that is asked for. */
  lemma ConvergesIffProtectedFit(files: Files, kept: set<Artifact>, reservation: Reservation, after: Files,
                                 outcome: Convergence)
    requires Paired(kept) && IsConvergence(files, kept, reservation, after, outcome)
    ensures outcome.Converged? <==> !Exceeds(Only(files, kept), reservation)
  {
    EvictionNeverRunsOut(files, kept, reservation, after, outcome);
    SweepKeepsProtected(files, kept);
  }

  /** Pairing matters: protecting one path of a digest shields the other from eviction, unbudgeted. */
  lemma UnpairedProtectionCanRunOut(digest: Digest, evidence: Bytes)
    requires |evidence| == MAX_DIRECTORY_BYTES + 1
    ensures var files: Files := map[Active(digest) := [], Quarantined(digest) := evidence];
            IsConvergence(files, {Active(digest)}, NO_RESERVATION, files, Exhausted)
  {
    var files: Files := map[Active(digest) := [], Quarantined(digest) := evidence];
    NothingIsFree(files, digest);
    TooLargeAlone(files, Quarantined(digest));
    EmptyFileFits(Active(digest));
    assert Only(files, {Active(digest)}) == map[Active(digest) := []];
  }

  lemma NothingIsFree(files: Files, digest: Digest)
    requires files.Keys == {Active(digest), Quarantined(digest)}
    ensures files - StaleTemporaries(files, {Active(digest)}) == files
    ensures GroupOrder(files, {Active(digest)}) == []
  {
    assert FreeDigests(files, {Active(digest)}) == {} by {
      assert Active(digest) in Group(files, digest);
    }
  }

  lemma EmptyFileFits(artifact: Artifact)
    ensures !Exceeds(map[artifact := []], NO_RESERVATION)
  {
    var sizes := Sizes(map[artifact := []]);
    assert sizes == map[artifact := 0];
    TotalWithout(sizes, artifact);
    assert sizes - {artifact} == map[];
  }

  lemma TooLargeAlone(files: Files, artifact: Artifact)
    requires artifact in files && |files[artifact]| > MAX_DIRECTORY_BYTES
    ensures Exceeds(files, NO_RESERVATION)
  {
    TotalWithout(Sizes(files), artifact);
  }

  lemma OrderSorted(files: Files, kept: set<Artifact>)
    ensures Ascends(GroupOrder(files, kept), Less)
  {
    LessIsStrictTotal();
    AscendingSorted(FreeDigests(files, kept), Less);
  }

  lemma OrderIsDistinct(files: Files, kept: set<Artifact>, i: nat, n: nat)
    requires i < |GroupOrder(files, kept)| && n <= |GroupOrder(files, kept)|
    ensures GroupOrder(files, kept)[i] in GroupOrder(files, kept)[..n] <==> i < n
  {
    LessIsStrictTotal();
    OrderSorted(files, kept);
    var order := GroupOrder(files, kept);
    if order[i] in order[..n] {
      var j :| 0 <= j < n && order[j] == order[i];
    }
  }

  /** Evicting more groups never makes files exceed what fewer evictions made fit. */
  lemma MoreEvictionsFit(files: Files, order: seq<Digest>, n: nat, more: nat, reservation: Reservation)
    requires n <= more <= |order| && !Exceeds(AfterEvicting(files, order, n), reservation)
    ensures !Exceeds(AfterEvicting(files, order, more), reservation)
  {
    LeftAfterEvicting(files, order, n);
    LeftAfterEvicting(files, order, more);
    var few, many := AfterEvicting(files, order, more), AfterEvicting(files, order, n);
    forall artifact | artifact in few ensures artifact in many && many[artifact] == few[artifact] {
      assert artifact.digest !in order[..n] by {
        assert order[..more][..n] == order[..n];
      }
    }
    SmallerFits(few, many, reservation);
  }

  /**
   * Which files a pass takes can be told beforehand: the one at a place in the order goes if, and only if,
   * the protected files fit while those left by the evictions before it do not.
   */
  lemma EvictedExactlyIf(files: Files, kept: set<Artifact>, reservation: Reservation, after: Files,
                         outcome: Convergence, i: nat, artifact: Artifact)
    requires IsConvergence(files, kept, reservation, after, outcome)
    requires var clean := files - StaleTemporaries(files, kept);
             i < |GroupOrder(clean, kept)| && artifact in clean && artifact.digest == GroupOrder(clean, kept)[i]
    ensures var clean := files - StaleTemporaries(files, kept);
            artifact !in after
            <==> !Exceeds(Only(clean, kept), reservation)
                 && Exceeds(AfterEvicting(clean, GroupOrder(clean, kept), i), reservation)
  {
    var clean := files - StaleTemporaries(files, kept);
    var order := GroupOrder(clean, kept);
    var n := if outcome.ProtectedTooLarge? then 0
             else if outcome.Exhausted? then |order|
             else var m :| IsShortestEviction(clean, order, m, reservation, after); m;
    LeftAfterEvicting(clean, order, n);
    OrderIsDistinct(clean, kept, i, n);
    assert after == AfterEvicting(clean, order, n);
    if outcome.Converged? && n <= i {
      MoreEvictionsFit(clean, order, n, i, reservation);
    }
  }

  /** Of two digests that are both open to eviction, the first in byte order goes first. */
  lemma EvictsInByteOrder(files: Files, kept: set<Artifact>, reservation: Reservation, after: Files,
                          outcome: Convergence, first: Artifact, second: Artifact, k: nat)
    requires IsConvergence(files, kept, reservation, after, outcome)
    requires first in files && second in files && !first.Temporary? && !second.Temporary?
    requires first.digest in FreeDigests(files - StaleTemporaries(files, kept), kept)
    requires PrecedesAt(first.digest, second.digest, k)
    requires second !in after
    ensures first !in after
  {
    var clean := files - StaleTemporaries(files, kept);
    var order := GroupOrder(clean, kept);
    var n := if outcome.ProtectedTooLarge? then 0
             else if outcome.Exhausted? then |order|
             else var m :| IsShortestEviction(clean, order, m, reservation, after); m;
    LeftAfterEvicting(clean, order, n);
    assert after == AfterEvicting(clean, order, n);
    OrderMembers(clean, kept);
    var i :| 0 <= i < |order| && order[i] == first.digest;
    var j :| 0 <= j < n && order[j] == second.digest;
    LessMeans(first.digest, second.digest);
    EarlierInOrder(clean, kept, i, j);
    assert order[..n][i] == first.digest;
  }

  lemma EarlierInOrder(clean: Files, kept: set<Artifact>, i: nat, j: nat)
    requires i < |GroupOrder(clean, kept)| && j < |GroupOrder(clean, kept)|
    requires Less(GroupOrder(clean, kept)[i], GroupOrder(clean, kept)[j])
    ensures i < j
  {
    OrderSorted(clean, kept);
    LessIsStrictTotal();
  }

  /** A digest is open to eviction, and it is its turn before everything fits. */
  ghost predicate Takes(clean: Files, kept: set<Artifact>, reservation: Reservation, digest: Digest) {
    && !Exceeds(Only(clean, kept), reservation)
    && exists i :: ExceedsUntil(clean, GroupOrder(clean, kept), reservation, i, digest)
  }

  ghost predicate ExceedsUntil(clean: Files, order: seq<Digest>, reservation: Reservation, i: nat, digest: Digest) {
    i < |order| && order[i] == digest && Exceeds(AfterEvicting(clean, order, i), reservation)
  }

  /** A pass takes a store file if, and only if, it takes its digest, which can be told beforehand. */
  lemma EvictedIff(files: Files, kept: set<Artifact>, reservation: Reservation, after: Files, outcome: Convergence,
                   artifact: Artifact)
    requires IsConvergence(files, kept, reservation, after, outcome)
    requires artifact in files && !artifact.Temporary?
    ensures artifact !in after
       <==> Takes(files - StaleTemporaries(files, kept), kept, reservation, artifact.digest)
  {
    var clean := files - StaleTemporaries(files, kept);
    var order := GroupOrder(clean, kept);
    if Takes(clean, kept, reservation, artifact.digest) {
      var i :| ExceedsUntil(clean, order, reservation, i, artifact.digest);
      EvictedExactlyIf(files, kept, reservation, after, outcome, i, artifact);
    }
    if artifact !in after {
      ConvergenceKeepsProtected(files, kept, reservation, after, outcome);
      OrderMembers(clean, kept);
      var i :| 0 <= i < |order| && order[i] == artifact.digest;
      EvictedExactlyIf(files, kept, reservation, after, outcome, i, artifact);
      assert ExceedsUntil(clean, order, reservation, i, artifact.digest);
    }
  }

  // --- Arithmetic on the quota -----------------------------------------------------------------

  lemma SmallerFits(less: Files, more: Files, reservation: Reservation)
    requires Submap(less, more) && !Exceeds(more, reservation)
    ensures !Exceeds(less, reservation)
  {
    SubmapCount(less, more);
    SubmapTotal(Sizes(less), Sizes(more));
  }

  /** Writing into reserved room stays within the quota. */
  lemma ReservedWriteFits(files: Files, reservation: Reservation, artifact: Artifact, content: Bytes)
    requires !Exceeds(files, reservation) && reservation.files >= 1 && |content| <= reservation.bytes
    ensures WithinQuota(files[artifact := content])
  {
    var after := files[artifact := content];
    assert Sizes(after) == Sizes(files)[artifact := |content|];
    TotalWith(Sizes(files), artifact, |content|);
    SubmapTotal(Sizes(files) - {artifact}, Sizes(files));
    assert after.Keys == files.Keys + {artifact};
  }

  /** A pass over files that already fit evicts nothing but stale temporaries, and succeeds. */
  lemma NothingToConverge(files: Files, kept: set<Artifact>, after: Files, outcome: Convergence)
    requires WithinQuota(files) && StaleTemporaries(files, kept) == {}
    requires IsConvergence(files, kept, NO_RESERVATION, after, outcome)
    ensures outcome.Converged? && after == files
  {
    assert files - {} == files;
    SmallerFits(Only(files, kept), files, NO_RESERVATION);
    var order := GroupOrder(files, kept);
    assert AfterEvicting(files, order, 0) == files;
    if outcome.Converged? {
      var n :| IsShortestEviction(files, order, n, NO_RESERVATION, after);
      assert n == 0;
    }
  }

  /** The result of a pass is determined by what it found. */
  lemma ConvergenceUnique(files: Files, kept: set<Artifact>, reservation: Reservation,
                          a: Files, outcomeA: Convergence, b: Files, outcomeB: Convergence)
    requires IsConvergence(files, kept, reservation, a, outcomeA)
    requires IsConvergence(files, kept, reservation, b, outcomeB)
    ensures a == b && outcomeA == outcomeB
  {
    var clean := files - StaleTemporaries(files, kept);
    var order := GroupOrder(clean, kept);
    ConvergesIffSomePrefixFits(clean, Only(clean, kept), order, reservation, a, outcomeA);
    ConvergesIffSomePrefixFits(clean, Only(clean, kept), order, reservation, b, outcomeB);
    if outcomeA.Converged? && outcomeB.Converged? {
      var n :| IsShortestEviction(clean, order, n, reservation, a);
      var m :| IsShortestEviction(clean, order, m, reservation, b);
      assert n == m;
    }
  }

  /** A pass succeeds exactly when the protected artifacts fit and so does what some evictions leave. */
  lemma ConvergesIffSomePrefixFits(clean: Files, protected: Files, order: seq<Digest>, reservation: Reservation,
                                   after: Files, outcome: Convergence)
    requires ConvergenceOver(clean, protected, order, reservation, after, outcome)
    ensures outcome.Converged? <==>
              !Exceeds(protected, reservation)
              && exists n :: 0 <= n <= |order| && !Exceeds(AfterEvicting(clean, order, n), reservation)
  {
    if outcome.Converged? {
      var n :| IsShortestEviction(clean, order, n, reservation, after);
      assert !Exceeds(AfterEvicting(clean, order, n), reservation);
    }
  }
}
