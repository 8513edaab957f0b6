/** The ordered entries of one cache store and the mutations a session queues against them. */
module CacheEntries {

  datatype Entry = Entry(key: string, data: string)

  datatype Mutation =
    | Clear
    | Update(removeKeys: seq<string>, upsertEntries: seq<Entry>)

  function Keys(entries: seq<Entry>): set<string> {
    set i | 0 <= i < |entries| :: entries[i].key
  }

  predicate UniqueKeys(entries: seq<Entry>) {
    forall i, j :: 0 <= i < j < |entries| ==> entries[i].key != entries[j].key
  }

  // A JavaScript Map is its entries in insertion order; `Put` keeps the position of a known key.

  function Delete(entries: seq<Entry>, key: string): seq<Entry> {
    if entries == [] then []
    else if entries[0].key == key then Delete(entries[1..], key)
    else [entries[0]] + Delete(entries[1..], key)
  }

  function Put(entries: seq<Entry>, entry: Entry): seq<Entry> {
    if entries == [] then [entry]
    else if entries[0].key == entry.key then [entry] + entries[1..]
    else [entries[0]] + Put(entries[1..], entry)
  }

  function PutAll(entries: seq<Entry>, more: seq<Entry>): seq<Entry> {
    if more == [] then entries else Put(PutAll(entries, more[..|more| - 1]), more[|more| - 1])
  }

  function DeleteAll(entries: seq<Entry>, keys: seq<string>): seq<Entry> {
    if keys == [] then entries else Delete(DeleteAll(entries, keys[..|keys| - 1]), keys[|keys| - 1])
  }

  function Upsert(entries: seq<Entry>, entry: Entry): seq<Entry> {
    Put(Delete(entries, entry.key), entry)
  }

  function UpsertAll(entries: seq<Entry>, more: seq<Entry>): seq<Entry> {
    if more == [] then entries else Upsert(UpsertAll(entries, more[..|more| - 1]), more[|more| - 1])
  }

  /** What `applyMutation` leaves: removals first, then each upsert moved to the end. */
  function Applied(current: seq<Entry>, mutation: Mutation): seq<Entry> {
    match mutation
    case Clear => []
    case Update(removeKeys, upsertEntries) =>
      UpsertAll(DeleteAll(PutAll([], current), removeKeys), upsertEntries)
  }

  method ApplyMutation(current: seq<Entry>, mutation: Mutation) returns (entries: seq<Entry>)
    ensures entries == Applied(current, mutation)
  {
    if mutation.Clear? {
      return [];
    }
    entries := [];
    for i := 0 to |current|
      invariant entries == PutAll([], current[..i])
    {
      entries := Put(entries, current[i]);
      assert current[..i + 1][..i] == current[..i];
    }
    assert current[..|current|] == current;
    var removeKeys, upsertEntries := mutation.removeKeys, mutation.upsertEntries;
    ghost var start := entries;
    for i := 0 to |removeKeys|
      invariant entries == DeleteAll(start, removeKeys[..i])
    {
      entries := Delete(entries, removeKeys[i]);
      assert removeKeys[..i + 1][..i] == removeKeys[..i];
    }
    assert removeKeys[..|removeKeys|] == removeKeys;
    ghost var kept := entries;
    for i := 0 to |upsertEntries|
      invariant entries == UpsertAll(kept, upsertEntries[..i])
    {
      entries := Delete(entries, upsertEntries[i].key);
      entries := Put(entries, upsertEntries[i]);
      assert upsertEntries[..i + 1][..i] == upsertEntries[..i];
    }
    assert upsertEntries[..|upsertEntries|] == upsertEntries;
  }

  // --- What a mutation means -----------------------------------------------------------------

  /** The entries whose key is not in `gone`, in their old order. */
  function Without(entries: seq<Entry>, gone: set<string>): seq<Entry> {
    if entries == [] then []
    else if entries[0].key in gone then Without(entries[1..], gone)
    else [entries[0]] + Without(entries[1..], gone)
  }

  /** The last entry of each key, in the order of those last occurrences. */
  function LastOfEach(entries: seq<Entry>): seq<Entry> {
    if entries == [] then []
    else if entries[0].key in Keys(entries[1..]) then LastOfEach(entries[1..])
    else [entries[0]] + LastOfEach(entries[1..])
  }

  lemma KeysCons(entries: seq<Entry>)
    requires entries != []
    ensures Keys(entries) == {entries[0].key} + Keys(entries[1..])
  {
    forall i | 0 <= i < |entries| ensures entries[i].key in {entries[0].key} + Keys(entries[1..]) {
      assert i > 0 ==> entries[i] == entries[1..][i - 1];
    }
    forall i | 0 <= i < |entries[1..]| ensures entries[1..][i].key in Keys(entries) {
      assert entries[1..][i] == entries[i + 1];
    }
  }

  lemma {:induction false} WithoutConcat(a: seq<Entry>, b: seq<Entry>, gone: set<string>)
    ensures Without(a + b, gone) == Without(a, gone) + Without(b, gone)
  {
    if a == [] {
      assert a + b == b;
    } else {
      assert (a + b)[1..] == a[1..] + b;
      WithoutConcat(a[1..], b, gone);
    }
  }

  lemma {:induction false} WithoutTwice(entries: seq<Entry>, gone: set<string>, more: set<string>)
    ensures Without(Without(entries, gone), more) == Without(entries, gone + more)
  {
    if entries != [] {
      WithoutTwice(entries[1..], gone, more);
      if entries[0].key !in gone {
        assert Without(entries, gone)[1..] == Without(entries[1..], gone);
      }
    }
  }

  lemma {:induction false} WithoutKeys(entries: seq<Entry>, gone: set<string>)
    ensures Keys(Without(entries, gone)) == Keys(entries) - gone
    ensures UniqueKeys(entries) ==> UniqueKeys(Without(entries, gone))
    ensures gone !! Keys(entries) ==> Without(entries, gone) == entries
  {
    if entries != [] {
      WithoutKeys(entries[1..], gone);
      KeysCons(entries);
      var rest := Without(entries[1..], gone);
      if entries[0].key !in gone {
        KeysCons([entries[0]] + rest);
        assert ([entries[0]] + rest)[1..] == rest;
        if UniqueKeys(entries) {
          UniqueCons(entries);
          UniqueCons([entries[0]] + rest);
        }
      } else if UniqueKeys(entries) {
        UniqueCons(entries);
      }
    }
  }

  lemma UniqueCons(entries: seq<Entry>)
    requires entries != []
    ensures UniqueKeys(entries) <==> entries[0].key !in Keys(entries[1..]) && UniqueKeys(entries[1..])
  {
    var rest := entries[1..];
    if entries[0].key !in Keys(rest) && UniqueKeys(rest) {
      forall i, j | 0 <= i < j < |entries| ensures entries[i].key != entries[j].key {
        assert entries[j] == rest[j - 1];
        if i > 0 {
          assert entries[i] == rest[i - 1];
        } else {
          assert rest[j - 1].key in Keys(rest);
        }
      }
    }
    if UniqueKeys(entries) {
      assert forall i :: 0 <= i < |rest| ==> rest[i] == entries[i + 1];
    }
  }

  lemma {:induction false} DeleteIsWithout(entries: seq<Entry>, key: string)
    ensures Delete(entries, key) == Without(entries, {key})
  {
    if entries != [] {
      DeleteIsWithout(entries[1..], key);
    }
  }

  lemma {:induction false} PutNew(entries: seq<Entry>, entry: Entry)
    requires entry.key !in Keys(entries)
    ensures Put(entries, entry) == entries + [entry]
  {
    if entries != [] {
      KeysCons(entries);
      PutNew(entries[1..], entry);
    }
  }

  /** An upsert takes the old entry out and puts the new one last. */
  lemma UpsertMovesToEnd(entries: seq<Entry>, entry: Entry)
    ensures Upsert(entries, entry) == Without(entries, {entry.key}) + [entry]
  {
    DeleteIsWithout(entries, entry.key);
    WithoutKeys(entries, {entry.key});
    PutNew(Without(entries, {entry.key}), entry);
  }

  lemma {:induction false} LastOfEachKeys(entries: seq<Entry>)
    ensures Keys(LastOfEach(entries)) == Keys(entries)
    ensures UniqueKeys(LastOfEach(entries))
  {
    if entries != [] {
      LastOfEachKeys(entries[1..]);
      KeysCons(entries);
      if entries[0].key !in Keys(entries[1..]) {
        KeysCons(LastOfEach(entries));
        UniqueCons(LastOfEach(entries));
        assert LastOfEach(entries)[1..] == LastOfEach(entries[1..]);
      }
    }
  }

  lemma {:induction false} LastOfEachSnoc(entries: seq<Entry>, entry: Entry)
    ensures LastOfEach(entries + [entry]) == Without(LastOfEach(entries), {entry.key}) + [entry]
  {
    var all := entries + [entry];
    if entries == [] {
      assert all == [entry];
      assert LastOfEach(all[1..]) == [];
    } else {
      assert all[1..] == entries[1..] + [entry];
      LastOfEachSnoc(entries[1..], entry);
      KeysCons(all);
      KeysSnoc(entries[1..], entry);
      if entries[0].key !in Keys(entries[1..]) {
        assert LastOfEach(entries)[1..] == LastOfEach(entries[1..]);
      }
    }
  }

  lemma KeysSnoc(entries: seq<Entry>, entry: Entry)
    ensures Keys(entries + [entry]) == Keys(entries) + {entry.key}
  {
    var all := entries + [entry];
    assert all[|entries|] == entry;
    forall i | 0 <= i < |entries| ensures entries[i].key in Keys(all) {
      assert all[i] == entries[i];
    }
  }

  lemma {:induction false} PutAllUnique(entries: seq<Entry>)
    requires UniqueKeys(entries)
    ensures PutAll([], entries) == entries
  {
    if entries != [] {
      var n := |entries| - 1;
      PutAllUnique(entries[..n]);
      assert forall i :: 0 <= i < n ==> entries[..n][i] == entries[i];
      PutNew(entries[..n], entries[n]);
      assert entries == entries[..n] + [entries[n]];
    }
  }

  lemma {:induction false} DeleteAllIsWithout(entries: seq<Entry>, keys: seq<string>)
    ensures DeleteAll(entries, keys) == Without(entries, set k | k in keys)
  {
    if keys == [] {
      WithoutKeys(entries, {});
      assert (set k | k in keys) == {};
    } else {
      var n := |keys| - 1;
      DeleteAllIsWithout(entries, keys[..n]);
      DeleteIsWithout(DeleteAll(entries, keys[..n]), keys[n]);
      WithoutTwice(entries, (set k | k in keys[..n]), {keys[n]});
      assert keys == keys[..n] + [keys[n]];
      assert (set k | k in keys) == (set k | k in keys[..n]) + {keys[n]};
    }
  }

  lemma {:induction false} UpsertAllMeaning(entries: seq<Entry>, more: seq<Entry>)
    ensures UpsertAll(entries, more) == Without(entries, Keys(more)) + LastOfEach(more)
  {
    if more == [] {
      WithoutKeys(entries, {});
      assert Keys(more) == {};
    } else {
      var n := |more| - 1;
      var init, last := more[..n], more[n];
      UpsertAllMeaning(entries, init);
      UpsertMovesToEnd(UpsertAll(entries, init), last);
      OneMoreUpsert(entries, init, last);
      assert more == init + [last];
    }
  }

  lemma OneMoreUpsert(entries: seq<Entry>, init: seq<Entry>, last: Entry)
    ensures Without(Without(entries, Keys(init)) + LastOfEach(init), {last.key}) + [last]
         == Without(entries, Keys(init + [last])) + LastOfEach(init + [last])
  {
    WithoutConcat(Without(entries, Keys(init)), LastOfEach(init), {last.key});
    WithoutTwice(entries, Keys(init), {last.key});
    KeysSnoc(init, last);
    LastOfEachSnoc(init, last);
  }

  /**
   * The meaning of one mutation on a store with unique keys: what survives keeps its order, and
   * the upserted keys come last, each once, in the order of their last upsert.
   */
  lemma MutationMeaning(current: seq<Entry>, removeKeys: seq<string>, upsertEntries: seq<Entry>)
    requires UniqueKeys(current)
    ensures Applied(current, Update(removeKeys, upsertEntries))
         == Without(current, (set k | k in removeKeys) + Keys(upsertEntries)) + LastOfEach(upsertEntries)
  {
    PutAllUnique(current);
    DeleteAllIsWithout(current, removeKeys);
    UpsertAllMeaning(DeleteAll(current, removeKeys), upsertEntries);
    WithoutTwice(current, (set k | k in removeKeys), Keys(upsertEntries));
  }

  /** Whatever the entries were, a mutation leaves unique keys. */
  lemma AppliedUnique(current: seq<Entry>, mutation: Mutation)
    ensures UniqueKeys(Applied(current, mutation))
  {
    if mutation.Update? {
      PutAllKeepsUnique([], current);
      var all := PutAll([], current);
      DeleteAllIsWithout(all, mutation.removeKeys);
      WithoutKeys(all, set k | k in mutation.removeKeys);
      var kept := DeleteAll(all, mutation.removeKeys);
      UpsertAllMeaning(kept, mutation.upsertEntries);
      WithoutKeys(kept, Keys(mutation.upsertEntries));
      LastOfEachKeys(mutation.upsertEntries);
      UniqueConcat(Without(kept, Keys(mutation.upsertEntries)), LastOfEach(mutation.upsertEntries));
    }
  }

  lemma UniqueConcat(a: seq<Entry>, b: seq<Entry>)
    requires UniqueKeys(a) && UniqueKeys(b) && Keys(a) !! Keys(b)
    ensures UniqueKeys(a + b)
  {
    forall i, j | 0 <= i < j < |a + b| ensures (a + b)[i].key != (a + b)[j].key {
      if i < |a| <= j {
        assert a[i].key in Keys(a) && b[j - |a|].key in Keys(b);
      }
    }
  }

  lemma {:induction false} PutKeepsUnique(entries: seq<Entry>, entry: Entry)
    requires UniqueKeys(entries)
    ensures UniqueKeys(Put(entries, entry)) && Keys(Put(entries, entry)) == Keys(entries) + {entry.key}
  {
    if entries == [] {
      KeysSnoc([], entry);
      assert [] + [entry] == [entry];
    } else {
      KeysCons(entries);
      UniqueCons(entries);
      var result := Put(entries, entry);
      KeysCons(result);
      UniqueCons(result);
      if entries[0].key == entry.key {
        assert result[1..] == entries[1..];
      } else {
        PutKeepsUnique(entries[1..], entry);
        assert result[1..] == Put(entries[1..], entry);
      }
    }
  }

  lemma {:induction false} PutAllKeepsUnique(entries: seq<Entry>, more: seq<Entry>)
    requires UniqueKeys(entries)
    ensures UniqueKeys(PutAll(entries, more))
  {
    if more != [] {
      PutAllKeepsUnique(entries, more[..|more| - 1]);
      PutKeepsUnique(PutAll(entries, more[..|more| - 1]), more[|more| - 1]);
    }
  }

  /** A store after a whole run of its own mutations, oldest first. */
  function Folded(mutations: seq<Mutation>): seq<Entry> {
    if mutations == [] then []
    else Applied(Folded(mutations[..|mutations| - 1]), mutations[|mutations| - 1])
  }

  // --- The plain map a store stands for ------------------------------------------------------

  /** Reading a key: the data of its entry, if any. */
  function AsMap(entries: seq<Entry>): map<string, string> {
    if entries == [] then map[] else AsMap(entries[1..])[entries[0].key := entries[0].data]
  }

  /** The map after one mutation on a plain map: removals, then upserts from left to right. */
  function MapAfter(m: map<string, string>, mutation: Mutation): map<string, string> {
    match mutation
    case Clear => map[]
    case Update(removeKeys, upsertEntries) => MapUpserts(m - (set k | k in removeKeys), upsertEntries)
  }

  function MapUpserts(m: map<string, string>, entries: seq<Entry>): map<string, string> {
    if entries == [] then m
    else MapUpserts(m, entries[..|entries| - 1])[entries[|entries| - 1].key := entries[|entries| - 1].data]
  }

  lemma {:induction false} AsMapWithout(entries: seq<Entry>, gone: set<string>)
    ensures AsMap(Without(entries, gone)) == AsMap(entries) - gone
  {
    if entries != [] {
      AsMapWithout(entries[1..], gone);
    }
  }

  lemma {:induction false} AsMapSnoc(entries: seq<Entry>, entry: Entry)
    requires entry.key !in Keys(entries)
    ensures AsMap(entries + [entry]) == AsMap(entries)[entry.key := entry.data]
  {
    if entries == [] {
      assert entries + [entry] == [entry];
    } else {
      KeysCons(entries);
      AsMapSnoc(entries[1..], entry);
      assert (entries + [entry])[1..] == entries[1..] + [entry];
    }
  }

  lemma {:induction false} UpsertAllAsMap(entries: seq<Entry>, more: seq<Entry>)
    ensures AsMap(UpsertAll(entries, more)) == MapUpserts(AsMap(entries), more)
  {
    if more != [] {
      var n := |more| - 1;
      UpsertAllAsMap(entries, more[..n]);
      var before := UpsertAll(entries, more[..n]);
      UpsertMovesToEnd(before, more[n]);
      WithoutKeys(before, {more[n].key});
      AsMapWithout(before, {more[n].key});
      AsMapSnoc(Without(before, {more[n].key}), more[n]);
    }
  }

  /** A store with unique keys agrees with a plain map that undergoes the same mutation. */
  lemma StoreRefinesMap(current: seq<Entry>, mutation: Mutation)
    requires UniqueKeys(current)
    ensures AsMap(Applied(current, mutation)) == MapAfter(AsMap(current), mutation)
  {
    if mutation.Update? {
      PutAllUnique(current);
      DeleteAllIsWithout(current, mutation.removeKeys);
      AsMapWithout(current, set k | k in mutation.removeKeys);
      UpsertAllAsMap(DeleteAll(current, mutation.removeKeys), mutation.upsertEntries);
    }
  }

  /** The plain map after a whole run of mutations. */
  function MapFolded(mutations: seq<Mutation>): map<string, string> {
    if mutations == [] then map[]
    else MapAfter(MapFolded(mutations[..|mutations| - 1]), mutations[|mutations| - 1])
  }

  /** After any list of mutations a store has unique keys, and reads as a plain map that underwent them. */
  lemma {:induction false} FoldedRefinesMap(mutations: seq<Mutation>)
    ensures UniqueKeys(Folded(mutations)) && AsMap(Folded(mutations)) == MapFolded(mutations)
  {
    if mutations != [] {
      var init, last := mutations[..|mutations| - 1], mutations[|mutations| - 1];
      FoldedRefinesMap(init);
      AppliedUnique(Folded(init), last);
      StoreRefinesMap(Folded(init), last);
    }
  }
}
