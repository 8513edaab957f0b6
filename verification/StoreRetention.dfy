/** Which stores one namespace file may keep: the eviction loops of `retainCacheFile`. */
module StoreRetention {
  import opened Wrappers
  import opened Ordering
  import opened Totals
  import opened CacheEntries
  import opened CacheFiles

  const MAX_STORES_PER_FILE: nat := 8
  const MAX_ACTIVE_FILE_BYTES: nat := 64 * 1024 * 1024

  datatype Candidate = Candidate(sequence: nat, key: string)

  /** Least recently mutated first, ties broken by key. */
  predicate Older(a: Candidate, b: Candidate) {
    a.sequence < b.sequence || (a.sequence == b.sequence && Less(a.key, b.key))
  }

  lemma OlderIsStrictTotal()
    ensures StrictTotal(Older)
  {
    LessIsStrictTotal();
  }

  datatype Retention = Kept(file: CacheFile) | StoreCountExceeded | BytesExceeded

  function Evictable(file: CacheFile, own: Option<string>, retained: set<string>): set<Candidate> {
    set key | key in file.stores && Some(key) != own && key !in retained
      :: Candidate(file.stores[key].lastMutationSequence, key)
  }

  function EvictionOrder(file: CacheFile, own: Option<string>, retained: set<string>): seq<Candidate> {
    OlderIsStrictTotal();
    Ascending(Evictable(file, own, retained), Older)
  }

  lemma OrderMembers(file: CacheFile, own: Option<string>, retained: set<string>)
    ensures forall candidate ::
              candidate in EvictionOrder(file, own, retained) <==> candidate in Evictable(file, own, retained)
  {
    OlderIsStrictTotal();
    AscendingMembers(Evictable(file, own, retained), Older);
  }

  lemma OrderSorted(file: CacheFile, own: Option<string>, retained: set<string>)
    ensures Ascends(EvictionOrder(file, own, retained), Older)
  {
    OlderIsStrictTotal();
    AscendingSorted(Evictable(file, own, retained), Older);
  }

  function WithoutStore(file: CacheFile, key: string): CacheFile {
    file.(stores := file.stores - {key})
  }

  /** The file once the first `n` candidates are gone. */
  function AfterDropping(file: CacheFile, order: seq<Candidate>, n: nat): CacheFile
    requires n <= |order|
  {
    if n == 0 then file else WithoutStore(AfterDropping(file, order, n - 1), order[n - 1].key)
  }

  ghost predicate Fits(codec: Codec, file: CacheFile) {
    |file.stores| <= MAX_STORES_PER_FILE && codec.Size(file) <= MAX_ACTIVE_FILE_BYTES
  }

  /** `n` is the least number of candidates whose removal makes the file fit. */
  ghost predicate IsShortestPrefix(codec: Codec, file: CacheFile, order: seq<Candidate>, n: nat) {
    && n <= |order|
    && Fits(codec, AfterDropping(file, order, n))
    && forall m :: 0 <= m < n ==> !Fits(codec, AfterDropping(file, order, m))
  }

  ghost predicate NoPrefixFits(codec: Codec, file: CacheFile, order: seq<Candidate>) {
    forall n :: 0 <= n <= |order| ==> !Fits(codec, AfterDropping(file, order, n))
  }

  /** The number of stores no eviction may touch. */
  function PinnedKeys(file: CacheFile, own: Option<string>, retained: set<string>): set<string> {
    set key | key in file.stores && (Some(key) == own || key in retained)
  }

  /** What `retainCacheFile` is to return, said without its loops. */
  ghost predicate IsRetention(codec: Codec, file: CacheFile, own: Option<string>, retained: set<string>,
                              result: Retention)
  {
    RetentionOver(codec, file, EvictionOrder(file, own, retained), |PinnedKeys(file, own, retained)|, result)
  }

  /** The same, given the eviction order and the number of stores that may not go. */
  ghost predicate RetentionOver(codec: Codec, file: CacheFile, order: seq<Candidate>, pinned: nat,
                                result: Retention)
  {
    match result
    case Kept(kept) =>
      exists n :: IsShortestPrefix(codec, file, order, n) && kept == AfterDropping(file, order, n)
    case StoreCountExceeded => pinned > MAX_STORES_PER_FILE
    case BytesExceeded => pinned <= MAX_STORES_PER_FILE && NoPrefixFits(codec, file, order)
  }

  method RetainCacheFile(codec: Codec, file: CacheFile, own: Option<string>, retained: set<string>)
    returns (result: Retention)
    ensures IsRetention(codec, file, own, retained, result)
  {
    var order := EvictionOrder(file, own, retained);
    OrderDistinct(file, own, retained);
    ghost var n;
    result, n := EvictUntilFits(codec, file, order);
    PinnedAreLeft(file, own, retained);
    EvictionIsRetention(codec, file, order, n, result);
  }

  /** The eviction loops stopped with `n` candidates gone and this result. */
  ghost predicate Evicted(codec: Codec, file: CacheFile, order: seq<Candidate>, n: nat, result: Retention) {
    && n <= |order|
    && NoneFitsBefore(codec, file, order, n)
    && match result
       case Kept(kept) => kept == AfterDropping(file, order, n) && Fits(codec, kept)
       case StoreCountExceeded => |file.stores| - |order| > MAX_STORES_PER_FILE
       case BytesExceeded =>
         n == |order| && |file.stores| - n <= MAX_STORES_PER_FILE && !Fits(codec, AfterDropping(file, order, n))
  }

  ghost predicate NoneFitsBefore(codec: Codec, file: CacheFile, order: seq<Candidate>, n: nat)
    requires n <= |order|
  {
    forall m :: 0 <= m < n ==> !Fits(codec, AfterDropping(file, order, m))
  }

  /** The first `n` candidates are gone from the file, none too many. */
  ghost predicate Dropped(codec: Codec, file: CacheFile, order: seq<Candidate>, n: nat, kept: CacheFile,
                          candidates: seq<Candidate>)
  {
    && n <= |order| && candidates == order[n..]
    && kept == AfterDropping(file, order, n)
    && |kept.stores| == |file.stores| - n
    && NoneFitsBefore(codec, file, order, n)
  }

  /** The two eviction loops, over candidates that are already in order. */
  method EvictUntilFits(codec: Codec, file: CacheFile, order: seq<Candidate>)
    returns (result: Retention, ghost n: nat)
    requires DistinctKeysOf(order, file)
    ensures Evicted(codec, file, order, n, result)
  {
    var candidates, kept, storeCount := order, file, |file.stores|;
    n := 0;
    while storeCount > MAX_STORES_PER_FILE
      invariant Dropped(codec, file, order, n, kept, candidates)
      invariant storeCount == |kept.stores|
      decreases |candidates|
    {
      if candidates == [] {
        return StoreCountExceeded, n;
      }
      DropOneMore(codec, file, order, n, kept, candidates);
      kept := WithoutStore(kept, candidates[0].key);
      candidates, storeCount, n := candidates[1..], storeCount - 1, n + 1;
    }
    result, n := EvictUntilSmall(codec, file, order, n, kept, candidates);
  }

  /** The second of them, which starts with few enough stores. */
  method EvictUntilSmall(codec: Codec, file: CacheFile, order: seq<Candidate>, ghost dropped: nat, few: CacheFile,
                         left: seq<Candidate>) returns (result: Retention, ghost n: nat)
    requires DistinctKeysOf(order, file) && Dropped(codec, file, order, dropped, few, left)
    requires |few.stores| <= MAX_STORES_PER_FILE
    ensures Evicted(codec, file, order, n, result)
  {
    var candidates, kept := left, few;
    n := dropped;
    while codec.Size(kept) > MAX_ACTIVE_FILE_BYTES
      invariant Dropped(codec, file, order, n, kept, candidates)
      invariant |kept.stores| <= MAX_STORES_PER_FILE
      decreases |candidates|
    {
      if candidates == [] {
        return BytesExceeded, n;
      }
      DropOneMore(codec, file, order, n, kept, candidates);
      kept := WithoutStore(kept, candidates[0].key);
      candidates, n := candidates[1..], n + 1;
    }
    result := Kept(kept);
  }

  // --- Counting --------------------------------------------------------------------------------

  ghost predicate DistinctKeysOf(order: seq<Candidate>, file: CacheFile) {
    && (forall i :: 0 <= i < |order| ==> order[i].key in file.stores)
    && (forall i, j :: 0 <= i < j < |order| ==> order[i].key != order[j].key)
  }

  lemma OrderDistinct(file: CacheFile, own: Option<string>, retained: set<string>)
    ensures DistinctKeysOf(EvictionOrder(file, own, retained), file)
  {
    var order := EvictionOrder(file, own, retained);
    OlderIsStrictTotal();
    OrderSorted(file, own, retained);
    OrderMembers(file, own, retained);
    forall i | 0 <= i < |order| ensures order[i] in Evictable(file, own, retained) {
    }
    forall i, j | 0 <= i < j < |order| ensures order[i].key != order[j].key {
      assert Older(order[i], order[j]);
    }
  }

  lemma OneFewer<V>(m: map<string, V>, key: string)
    requires key in m
    ensures |m - {key}| == |m| - 1
  {
    assert (m - {key}).Keys == m.Keys - {key};
  }

  lemma OneFewerStore(file: CacheFile, key: string)
    requires key in file.stores
    ensures |WithoutStore(file, key).stores| == |file.stores| - 1
  {
    OneFewer(file.stores, key);
  }

  /** Which stores are left. */
  lemma {:induction false} LeftAfterDropping(file: CacheFile, order: seq<Candidate>, n: nat)
    requires n <= |order|
    ensures var left := AfterDropping(file, order, n);
            && left.mutationSequence == file.mutationSequence
            && Submap(left.stores, file.stores)
            && forall key :: key in file.stores ==>
                 (key in left.stores <==> forall i :: 0 <= i < n ==> order[i].key != key)
  {
    if n > 0 {
      LeftAfterDropping(file, order, n - 1);
      var before := AfterDropping(file, order, n - 1);
      var gone := order[n - 1].key;
      forall key | key in file.stores
        ensures key in WithoutStore(before, gone).stores <==> forall i :: 0 <= i < n ==> order[i].key != key
      {
        assert key in WithoutStore(before, gone).stores <==> key in before.stores && key != gone;
      }
    }
  }

  lemma NextIsLeft(file: CacheFile, order: seq<Candidate>, n: nat)
    requires n < |order| && DistinctKeysOf(order, file)
    ensures order[n].key in AfterDropping(file, order, n).stores
  {
    LeftAfterDropping(file, order, n);
  }

  lemma OneMoreDropped(file: CacheFile, order: seq<Candidate>, n: nat)
    requires 0 < n <= |order| && DistinctKeysOf(order, file)
    ensures |AfterDropping(file, order, n).stores| == |AfterDropping(file, order, n - 1).stores| - 1
  {
    NextIsLeft(file, order, n - 1);
    OneFewerStore(AfterDropping(file, order, n - 1), order[n - 1].key);
  }

  /** How many stores are left. */
  lemma {:induction false} CountAfterDropping(file: CacheFile, order: seq<Candidate>, n: nat)
    requires n <= |order| && DistinctKeysOf(order, file)
    ensures |AfterDropping(file, order, n).stores| == |file.stores| - n
    decreases n
  {
    if n == 0 {
      assert AfterDropping(file, order, n) == file;
    } else {
      CountAfterDropping(file, order, n - 1);
      OneMoreDropped(file, order, n);
    }
  }

  lemma PinnedAreNotCandidates(file: CacheFile, own: Option<string>, retained: set<string>)
    ensures var order := EvictionOrder(file, own, retained);
            forall i :: 0 <= i < |order| ==> order[i].key !in PinnedKeys(file, own, retained)
  {
    var order := EvictionOrder(file, own, retained);
    OrderMembers(file, own, retained);
    forall i | 0 <= i < |order| ensures order[i].key !in PinnedKeys(file, own, retained) {
      assert order[i] in Evictable(file, own, retained);
    }
  }

  /** Dropping every candidate leaves exactly the pinned stores. */
  lemma PinnedAreLeft(file: CacheFile, own: Option<string>, retained: set<string>)
    ensures var order := EvictionOrder(file, own, retained);
            && |PinnedKeys(file, own, retained)| == |file.stores| - |order|
            && AfterDropping(file, order, |order|).stores.Keys == PinnedKeys(file, own, retained)
  {
    var order := EvictionOrder(file, own, retained);
    OrderDistinct(file, own, retained);
    OrderMembers(file, own, retained);
    LeftAfterDropping(file, order, |order|);
    CountAfterDropping(file, order, |order|);
    var left := AfterDropping(file, order, |order|).stores;
    var pinned := PinnedKeys(file, own, retained);
    PinnedAreNotCandidates(file, own, retained);
    forall key | key in file.stores && key !in pinned ensures key !in left {
      var candidate := Candidate(file.stores[key].lastMutationSequence, key);
      assert candidate in Evictable(file, own, retained);
      assert candidate in order;
    }
    assert left.Keys == PinnedKeys(file, own, retained);
  }

  lemma EvictionIsRetention(codec: Codec, file: CacheFile, order: seq<Candidate>, n: nat, result: Retention)
    requires Evicted(codec, file, order, n, result) && |order| <= |file.stores|
    ensures RetentionOver(codec, file, order, |file.stores| - |order|, result)
  {
    if result.Kept? {
      assert IsShortestPrefix(codec, file, order, n);
    } else if result.BytesExceeded? {
      NothingFits(codec, file, order);
    }
  }

  lemma NothingFits(codec: Codec, file: CacheFile, order: seq<Candidate>)
    requires NoneFitsBefore(codec, file, order, |order|) && !Fits(codec, AfterDropping(file, order, |order|))
    ensures NoPrefixFits(codec, file, order)
  {
    forall n | 0 <= n <= |order| ensures !Fits(codec, AfterDropping(file, order, n)) {
      assert n == |order| || !Fits(codec, AfterDropping(file, order, n));
    }
  }

  /** One more eviction is justified while the file does not fit. */
  lemma DropOneMore(codec: Codec, file: CacheFile, order: seq<Candidate>, n: nat, kept: CacheFile,
                    candidates: seq<Candidate>)
    requires DistinctKeysOf(order, file) && Dropped(codec, file, order, n, kept, candidates)
    requires candidates != [] && !Fits(codec, kept)
    ensures Dropped(codec, file, order, n + 1, WithoutStore(kept, candidates[0].key), candidates[1..])
    ensures |WithoutStore(kept, candidates[0].key).stores| == |kept.stores| - 1
  {
    OneMoreDropped(file, order, n + 1);
    OneMoreFails(codec, file, order, n);
  }

  lemma OneMoreFails(codec: Codec, file: CacheFile, order: seq<Candidate>, n: nat)
    requires n < |order| && NoneFitsBefore(codec, file, order, n) && !Fits(codec, AfterDropping(file, order, n))
    ensures NoneFitsBefore(codec, file, order, n + 1)
  {
    forall m | 0 <= m < n + 1 ensures !Fits(codec, AfterDropping(file, order, m)) {
      assert m == n || m < n;
    }
  }

  // --- What retention promises -----------------------------------------------------------------

  /** The outcome is determined, so the method computes a function of its arguments. */
  lemma RetentionUnique(codec: Codec, file: CacheFile, own: Option<string>, retained: set<string>,
                        a: Retention, b: Retention)
    requires IsRetention(codec, file, own, retained, a) && IsRetention(codec, file, own, retained, b)
    ensures a == b
  {
    var order := EvictionOrder(file, own, retained);
    if |PinnedKeys(file, own, retained)| > MAX_STORES_PER_FILE {
      NoRoomMeansNoPrefix(codec, file, own, retained);
    }
    if a.Kept? && b.Kept? {
      var n :| IsShortestPrefix(codec, file, order, n) && a.file == AfterDropping(file, order, n);
      var m :| IsShortestPrefix(codec, file, order, m) && b.file == AfterDropping(file, order, m);
      assert n == m;
    }
  }

  lemma NoRoomMeansNoPrefix(codec: Codec, file: CacheFile, own: Option<string>, retained: set<string>)
    requires |PinnedKeys(file, own, retained)| > MAX_STORES_PER_FILE
    ensures NoPrefixFits(codec, file, EvictionOrder(file, own, retained))
  {
    var order := EvictionOrder(file, own, retained);
    OrderDistinct(file, own, retained);
    PinnedAreLeft(file, own, retained);
    forall n | 0 <= n <= |order| ensures !Fits(codec, AfterDropping(file, order, n)) {
      CountAfterDropping(file, order, n);
    }
  }

  /** Retention fails exactly when no number of evictions would make the file fit. */
  lemma RetentionFailsIffNothingFits(codec: Codec, file: CacheFile, own: Option<string>,
                                     retained: set<string>, result: Retention)
    requires IsRetention(codec, file, own, retained, result)
    ensures !result.Kept? <==> NoPrefixFits(codec, file, EvictionOrder(file, own, retained))
  {
    if result.StoreCountExceeded? {
      NoRoomMeansNoPrefix(codec, file, own, retained);
    }
  }

  /** No pinned store is dropped, and what is kept is kept unchanged. */
  lemma RetentionKeepsPinned(codec: Codec, file: CacheFile, own: Option<string>, retained: set<string>,
                             result: Retention)
    requires IsRetention(codec, file, own, retained, result) && result.Kept?
    ensures Fits(codec, result.file)
    ensures result.file.mutationSequence == file.mutationSequence
    ensures forall key :: key in result.file.stores ==> key in file.stores && result.file.stores[key] == file.stores[key]
    ensures forall key :: key in file.stores && (Some(key) == own || key in retained) ==> key in result.file.stores
  {
    OrderDistinct(file, own, retained);
    var order := EvictionOrder(file, own, retained);
    var n :| IsShortestPrefix(codec, file, order, n) && result.file == AfterDropping(file, order, n);
    LeftAfterDropping(file, order, n);
    PinnedAreNotCandidates(file, own, retained);
    forall key | key in file.stores && (Some(key) == own || key in retained) ensures key in result.file.stores {
      assert key in PinnedKeys(file, own, retained);
    }
  }

  /**
   * Of the stores that are not pinned those mutated longest ago go first; of two that were mutated together the
   * one whose key comes first in byte order.
   */
  lemma RetentionDropsOldestFirst(codec: Codec, file: CacheFile, own: Option<string>, retained: set<string>,
                                  result: Retention, kept: string, dropped: string)
    requires IsRetention(codec, file, own, retained, result) && result.Kept?
    requires dropped in file.stores && dropped !in result.file.stores
    requires kept in result.file.stores && Some(kept) != own && kept !in retained
    ensures kept in file.stores
    ensures file.stores[dropped].lastMutationSequence <= file.stores[kept].lastMutationSequence
    ensures file.stores[dropped].lastMutationSequence == file.stores[kept].lastMutationSequence ==>
              exists i :: PrecedesAt(dropped, kept, i)
  {
    LessMeans(dropped, kept);
    OrderDistinct(file, own, retained);
    var order := EvictionOrder(file, own, retained);
    var n :| IsShortestPrefix(codec, file, order, n) && result.file == AfterDropping(file, order, n);
    LeftAfterDropping(file, order, n);
    OrderMembers(file, own, retained);
    OrderSorted(file, own, retained);
    var i :| 0 <= i < n && order[i].key == dropped;
    assert order[i] in Evictable(file, own, retained);
    var candidate := Candidate(file.stores[kept].lastMutationSequence, kept);
    assert candidate in Evictable(file, own, retained);
    assert candidate in order;
    var j :| 0 <= j < |order| && order[j] == candidate;
    assert j >= n;
  }

  /** A file that already fits is left alone, whatever is pinned. */
  lemma FittingFileUntouched(codec: Codec, file: CacheFile, own: Option<string>, retained: set<string>,
                             result: Retention)
    requires Fits(codec, file)
    requires IsRetention(codec, file, own, retained, result)
    ensures result == Kept(file)
  {
    var order := EvictionOrder(file, own, retained);
    assert IsShortestPrefix(codec, file, order, 0);
    assert IsRetention(codec, file, own, retained, Kept(file));
    RetentionUnique(codec, file, own, retained, result, Kept(file));
  }

  /** Retaining twice changes nothing more, even under another choice of pinned stores. */
  lemma RetentionIdempotent(codec: Codec, file: CacheFile, own: Option<string>, retained: set<string>,
                            again: Option<string>, retainedAgain: set<string>, first: Retention, second: Retention)
    requires IsRetention(codec, file, own, retained, first) && first.Kept?
    requires IsRetention(codec, first.file, again, retainedAgain, second)
    ensures second == first
  {
    RetentionKeepsPinned(codec, file, own, retained, first);
    FittingFileUntouched(codec, first.file, again, retainedAgain, second);
  }

  /**
   * With at most eight retained stores in the namespace, an update of a retained store, or a recovery
   * (which pins no store of its own), never fails for want of room among the stores.
   */
  lemma RetainedStoreAlwaysHasRoom(codec: Codec, file: CacheFile, own: Option<string>, retained: set<string>,
                                   result: Retention)
    requires |retained| <= MAX_STORES_PER_FILE
    requires own.None? || own.value in retained
    requires IsRetention(codec, file, own, retained, result)
    ensures !result.StoreCountExceeded?
  {
    var pinned := PinnedKeys(file, own, retained);
    SubsetCount(pinned, retained);
  }

  /**
   * For any store, the count loop fails exactly when the other retained stores already fill the file
   * and this one is not retained.
   */
  lemma UnretainedStoreMayLackRoom(codec: Codec, file: CacheFile, own: string, retained: set<string>,
                                   result: Retention)
    requires |retained| <= MAX_STORES_PER_FILE && own in file.stores
    requires IsRetention(codec, file, Some(own), retained, result)
    ensures result.StoreCountExceeded?
       <==> own !in retained && |retained * file.stores.Keys| == MAX_STORES_PER_FILE
  {
    var pinned := PinnedKeys(file, Some(own), retained);
    var present := retained * file.stores.Keys;
    assert pinned == present + {own};
    SubsetCount(present, retained);
    if own !in retained {
      assert |pinned| == |present| + 1;
    } else {
      assert pinned == present;
    }
    if |pinned| > MAX_STORES_PER_FILE {
      NoRoomMeansNoPrefix(codec, file, Some(own), retained);
      assert !result.Kept?;
    }
  }
}
