/** One namespace file of the cache: its JSON shape, its parser, and what recovery keeps. */
module CacheFiles {
  import opened Wrappers
  import opened Numbers
  import opened CacheEntries

  datatype Store = Store(entries: seq<Entry>, lastMutationSequence: nat)

  datatype CacheFile = CacheFile(mutationSequence: nat, stores: map<string, Store>)

  const EMPTY_CACHE_FILE := CacheFile(0, map[])

  ghost predicate ValidStore(store: Store, mutationSequence: nat) {
    store.lastMutationSequence <= mutationSequence && UniqueKeys(store.entries)
  }

  /** What every file the backend writes satisfies. */
  ghost predicate FileInvariant(file: CacheFile) {
    && file.mutationSequence <= MAX_SAFE_INTEGER
    && forall key :: key in file.stores ==> ValidStore(file.stores[key], file.mutationSequence)
  }

  /** A parsed JSON document. Numbers are integers, or anything else a JSON number can be. */
  datatype Json =
    | JNull
    | JBool(flag: bool)
    | JInt(value: int)
    | JOtherNumber(text: string)
    | JString(text: string)
    | JArray(items: seq<Json>)
    | JObject(fields: map<string, Json>)

  function Field(value: Json, name: string): Option<Json> {
    if value.JObject? && name in value.fields then Some(value.fields[name]) else None
  }

  // --- Writing ---------------------------------------------------------------------------------

  function EncodeEntry(entry: Entry): Json {
    JArray([JString(entry.key), JString(entry.data)])
  }

  function EncodeEntries(entries: seq<Entry>): Json {
    JArray(seq(|entries|, i requires 0 <= i < |entries| => EncodeEntry(entries[i])))
  }

  function EncodeStore(store: Store): Json {
    JObject(map["entries" := EncodeEntries(store.entries),
                "lastMutationSequence" := JInt(store.lastMutationSequence)])
  }

  /** The document `serializeCacheFile` prints. */
  function EncodeCacheFile(file: CacheFile): Json {
    JObject(map["mutationSequence" := JInt(file.mutationSequence),
                "stores" := JObject(map key | key in file.stores :: EncodeStore(file.stores[key])),
                "version" := JInt(1)])
  }

  // --- Reading ---------------------------------------------------------------------------------

  /** A clean parse, or a corrupt file together with the part that could be kept. */
  datatype Parsed = Clean(file: CacheFile) | Corrupt(file: CacheFile)

  predicate IsEntry(value: Json) {
    value.JArray? && |value.items| == 2 && value.items[0].JString? && value.items[1].JString?
  }

  function DecodeEntry(value: Json): Entry
    requires IsEntry(value)
  {
    Entry(value.items[0].text, value.items[1].text)
  }

  predicate AreEntries(value: Json) {
    value.JArray? && forall i :: 0 <= i < |value.items| ==> IsEntry(value.items[i])
  }

  function DecodeEntries(value: Json): seq<Entry>
    requires AreEntries(value)
  {
    seq(|value.items|, i requires 0 <= i < |value.items| => DecodeEntry(value.items[i]))
  }

  /** One stored value: in a legacy file the entries themselves, otherwise a record around them. */
  function DecodeStore(raw: Json, legacy: bool, mutationSequence: nat): Option<Store> {
    var entries := if legacy then Some(raw) else Field(raw, "entries");
    var last := if legacy then Some(JInt(0)) else Field(raw, "lastMutationSequence");
    if entries.None? || !AreEntries(entries.value) then None
    else if last.None? || !last.value.JInt? || last.value.value < 0
            || last.value.value > MAX_SAFE_INTEGER || last.value.value > mutationSequence then None
    else
      var decoded := DecodeEntries(entries.value);
      if |Keys(decoded)| != |decoded| then None else Some(Store(decoded, last.value.value))
  }

  predicate IsLegacy(document: Json) {
    Field(document, "version").None? && Field(document, "mutationSequence").None?
  }

  /** The sequence of a file whose header is acceptable. */
  function HeaderSequence(document: Json): Option<nat> {
    if Field(document, "stores").None? || !Field(document, "stores").value.JObject? then None
    else if IsLegacy(document) then Some(0)
    else
      var version, sequence := Field(document, "version"), Field(document, "mutationSequence");
      if version != Some(JInt(1)) || sequence.None? || !sequence.value.JInt? then None
      else if 0 <= sequence.value.value <= MAX_SAFE_INTEGER then Some(sequence.value.value as nat)
      else None
  }

  /** The stores of a document, among the given keys, that are individually valid. */
  function ValidStores(raw: map<string, Json>, among: set<string>, legacy: bool, sequence: nat): map<string, Store> {
    map key | key in among && key in raw && DecodeStore(raw[key], legacy, sequence).Some?
      :: DecodeStore(raw[key], legacy, sequence).value
  }

  /** What reading a document yields; `None` stands for text that is not JSON at all. */
  function ParsedFile(document: Option<Json>): Parsed {
    if document.None? || HeaderSequence(document.value).None? then Corrupt(EMPTY_CACHE_FILE)
    else
      var raw := Field(document.value, "stores").value.fields;
      var legacy, sequence := IsLegacy(document.value), HeaderSequence(document.value).value;
      var file := CacheFile(sequence, ValidStores(raw, raw.Keys, legacy, sequence));
      if file.stores.Keys == raw.Keys then Clean(file) else Corrupt(file)
  }

  method ParseCacheFile(document: Option<Json>) returns (parsed: Parsed)
    ensures parsed == ParsedFile(document)
  {
    if document.None? {
      return Corrupt(EMPTY_CACHE_FILE);
    }
    var header := HeaderSequence(document.value);
    if header.None? {
      return Corrupt(EMPTY_CACHE_FILE);
    }
    var raw := Field(document.value, "stores").value.fields;
    var stores, containsInvalidStore := CollectStores(raw, IsLegacy(document.value), header.value);
    parsed := if containsInvalidStore then Corrupt(CacheFile(header.value, stores))
              else Clean(CacheFile(header.value, stores));
  }

  /** The parser's loop: one store at a time, remembering whether any was dropped. */
  method CollectStores(raw: map<string, Json>, legacy: bool, sequence: nat)
    returns (stores: map<string, Store>, containsInvalidStore: bool)
    ensures stores == ValidStores(raw, raw.Keys, legacy, sequence)
    ensures containsInvalidStore <==> stores.Keys != raw.Keys
  {
    stores, containsInvalidStore := map[], false;
    var done := {};
    while done != raw.Keys
      invariant done <= raw.Keys
      invariant stores == ValidStores(raw, done, legacy, sequence)
      invariant containsInvalidStore <==> stores.Keys != done
      decreases |raw.Keys - done|
    {
      var key := NextKey(raw.Keys, done);
      OneMoreStore(raw, done, key, legacy, sequence);
      var store := DecodeStore(raw[key], legacy, sequence);
      if store.None? {
        containsInvalidStore := true;
      } else {
        stores := stores[key := store.value];
      }
      done := done + {key};
    }
  }

  method NextKey(all: set<string>, done: set<string>) returns (key: string)
    requires done <= all && done != all
    ensures key in all && key !in done
    ensures done + {key} <= all && |all - (done + {key})| < |all - done|
  {
    assert all == done + (all - done);
    key :| key in all - done;
    assert all - (done + {key}) == (all - done) - {key};
  }

  lemma OneMoreStore(raw: map<string, Json>, done: set<string>, key: string, legacy: bool, sequence: nat)
    requires key in raw && key !in done
    ensures var before, after := ValidStores(raw, done, legacy, sequence), ValidStores(raw, done + {key}, legacy, sequence);
            match DecodeStore(raw[key], legacy, sequence)
            case Some(store) => after == before[key := store] && (after.Keys == done + {key} <==> before.Keys == done)
            case None => after == before && after.Keys != done + {key}
  {
    var before, after := ValidStores(raw, done, legacy, sequence), ValidStores(raw, done + {key}, legacy, sequence);
    assert key !in before.Keys;
    if DecodeStore(raw[key], legacy, sequence).Some? {
      assert after.Keys == before.Keys + {key};
      assert after.Keys == done + {key} ==> before.Keys == after.Keys - {key} == done;
    }
  }

  type Bytes = seq<bv8>

  /** How files become bytes and back, and how many bytes they take. */
  datatype Codec = Codec(serialize: CacheFile -> Bytes, read: Bytes -> Parsed, measure: CacheFile -> nat) {
    function Serialize(file: CacheFile): Bytes {
      serialize(file)
    }

    function Read(bytes: Bytes): Parsed {
      read(bytes)
    }

    function Size(file: CacheFile): nat {
      measure(file)
    }

    /** All that the directory relies on; `JsonCodecIsLawful` derives it from the JSON round trip. */
    ghost predicate Lawful() {
      && (forall file :: FileInvariant(file) ==> Read(Serialize(file)) == Clean(file))
      && (forall bytes :: FileInvariant(Read(bytes).file))
      && (forall file :: Size(file) == |Serialize(file)|)
    }
  }

  /** The backend's codec, over any way of printing and parsing JSON text. */
  function JsonCodec(stringify: Json -> Bytes, parse: Bytes -> Option<Json>): Codec {
    Codec(file => stringify(EncodeCacheFile(file)),
          bytes => ParsedFile(parse(bytes)),
          file => |stringify(EncodeCacheFile(file))|)
  }

  /** The text of a valid cache file parses to the value it was printed from. */
  ghost predicate PrintsFiles(stringify: Json -> Bytes, parse: Bytes -> Option<Json>) {
    forall file :: FileInvariant(file) ==> parse(stringify(EncodeCacheFile(file))) == Some(EncodeCacheFile(file))
  }

  /** Provided the text of cache files round-trips, what the backend writes reads back, and what it reads is valid. */
  lemma JsonCodecIsLawful(stringify: Json -> Bytes, parse: Bytes -> Option<Json>)
    requires PrintsFiles(stringify, parse)
    ensures JsonCodec(stringify, parse).Lawful()
  {
    var codec := JsonCodec(stringify, parse);
    forall file | FileInvariant(file) ensures codec.Read(codec.Serialize(file)) == Clean(file) {
      WriteReadRoundTrip(file);
    }
    forall bytes ensures FileInvariant(codec.Read(bytes).file) {
      ParsedFileInvariant(parse(bytes));
    }
  }

  // --- Properties ------------------------------------------------------------------------------

  lemma {:induction false} KeyCountMeansUnique(entries: seq<Entry>)
    ensures |Keys(entries)| <= |entries|
    ensures |Keys(entries)| == |entries| <==> UniqueKeys(entries)
  {
    if entries == [] {
      assert Keys(entries) == {};
    } else {
      KeyCountMeansUnique(entries[1..]);
      KeysCons(entries);
      UniqueCons(entries);
    }
  }

  lemma EntriesRoundTrip(entries: seq<Entry>)
    ensures AreEntries(EncodeEntries(entries)) && DecodeEntries(EncodeEntries(entries)) == entries
  {
    var encoded := EncodeEntries(entries);
    forall i | 0 <= i < |entries| ensures IsEntry(encoded.items[i]) && DecodeEntry(encoded.items[i]) == entries[i] {
      assert encoded.items[i] == EncodeEntry(entries[i]);
    }
  }

  lemma StoreRoundTrip(store: Store, sequence: nat)
    requires ValidStore(store, sequence) && sequence <= MAX_SAFE_INTEGER
    ensures DecodeStore(EncodeStore(store), false, sequence) == Some(store)
  {
    EntriesRoundTrip(store.entries);
    KeyCountMeansUnique(store.entries);
  }

  /** A file that satisfies the invariant reads back as itself, with no corruption. */
  lemma WriteReadRoundTrip(file: CacheFile)
    requires FileInvariant(file)
    ensures ParsedFile(Some(EncodeCacheFile(file))) == Clean(file)
  {
    var document := EncodeCacheFile(file);
    var raw := Field(document, "stores").value.fields;
    forall key | key in file.stores
      ensures DecodeStore(raw[key], false, file.mutationSequence) == Some(file.stores[key])
    {
      StoreRoundTrip(file.stores[key], file.mutationSequence);
    }
    AllStoresAreValid(raw, file);
  }

  lemma AllStoresAreValid(raw: map<string, Json>, file: CacheFile)
    requires raw.Keys == file.stores.Keys
    requires forall key :: key in file.stores ==>
               DecodeStore(raw[key], false, file.mutationSequence) == Some(file.stores[key])
    ensures ValidStores(raw, raw.Keys, false, file.mutationSequence) == file.stores
  {
  }

  /** Whatever was on disk, what the parser hands back satisfies the invariant. */
  lemma ParsedFileInvariant(document: Option<Json>)
    ensures FileInvariant(ParsedFile(document).file)
  {
    if document.Some? && HeaderSequence(document.value).Some? {
      var raw := Field(document.value, "stores").value.fields;
      var legacy, sequence := IsLegacy(document.value), HeaderSequence(document.value).value;
      var file := ParsedFile(document).file;
      forall key | key in file.stores ensures ValidStore(file.stores[key], sequence) {
        KeyCountMeansUnique(file.stores[key].entries);
      }
    }
  }

  /** An array of pairs, the key first, in the order of the entries. */
  predicate ListsEntries(value: Json, entries: seq<Entry>) {
    && value.JArray? && |value.items| == |entries|
    && forall i :: 0 <= i < |entries| ==> value.items[i] == JArray([JString(entries[i].key), JString(entries[i].data)])
  }

  lemma ListsExactlyEncoded(value: Json, entries: seq<Entry>)
    ensures ListsEntries(value, entries) <==> value == EncodeEntries(entries)
  {
    var encoded := EncodeEntries(entries);
    if ListsEntries(value, entries) {
      assert value.items == encoded.items;
    }
  }

  /** What a raw value has to be to stand for a valid store. */
  ghost predicate StandsForStore(raw: Json, legacy: bool, sequence: nat, store: Store) {
    && ValidStore(store, sequence)
    && if legacy then ListsEntries(raw, store.entries) && store.lastMutationSequence == 0
       else Field(raw, "entries").Some? && ListsEntries(Field(raw, "entries").value, store.entries)
            && Field(raw, "lastMutationSequence") == Some(JInt(store.lastMutationSequence))
  }

  /** A header that is accepted: version 1 with its sequence, or a legacy file that has neither. */
  ghost predicate HasHeader(document: Json, legacy: bool, sequence: nat, raw: map<string, Json>) {
    && Field(document, "stores") == Some(JObject(raw)) && sequence <= MAX_SAFE_INTEGER
    && if legacy then Field(document, "version") == Field(document, "mutationSequence") == None && sequence == 0
       else Field(document, "version") == Some(JInt(1)) && Field(document, "mutationSequence") == Some(JInt(sequence))
  }

  lemma EncodedFromDecoded(value: Json)
    requires AreEntries(value)
    ensures EncodeEntries(DecodeEntries(value)) == value
  {
    var encoded := EncodeEntries(DecodeEntries(value));
    forall i | 0 <= i < |value.items| ensures encoded.items[i] == value.items[i] {
      EntryIsEncoded(value.items[i]);
    }
  }

  lemma EntryIsEncoded(value: Json)
    requires IsEntry(value)
    ensures EncodeEntry(DecodeEntry(value)) == value
  {
    assert value.items == [value.items[0], value.items[1]];
  }

  lemma DecodedIffStandsFor(raw: Json, legacy: bool, sequence: nat, store: Store)
    requires sequence <= MAX_SAFE_INTEGER
    ensures DecodeStore(raw, legacy, sequence) == Some(store) <==> StandsForStore(raw, legacy, sequence, store)
  {
    EntriesRoundTrip(store.entries);
    KeyCountMeansUnique(store.entries);
    if legacy || Field(raw, "entries").Some? {
      var entries := if legacy then raw else Field(raw, "entries").value;
      ListsExactlyEncoded(entries, store.entries);
      if DecodeStore(raw, legacy, sequence) == Some(store) {
        EncodedFromDecoded(entries);
      }
    }
  }

  lemma HeaderIff(document: Json, legacy: bool, sequence: nat, raw: map<string, Json>)
    ensures HasHeader(document, legacy, sequence, raw)
       <==> HeaderSequence(document) == Some(sequence) && IsLegacy(document) == legacy
            && Field(document, "stores") == Some(JObject(raw))
  {
  }

  /** These are exactly the stores that the values stand for, each by itself. */
  ghost predicate AreTheStores(raw: map<string, Json>, legacy: bool, sequence: nat, stores: map<string, Store>) {
    forall key, store ::
      key in stores && stores[key] == store <==> key in raw && StandsForStore(raw[key], legacy, sequence, store)
  }

  ghost predicate StandsForNone(raw: Json, legacy: bool, sequence: nat) {
    forall store :: !StandsForStore(raw, legacy, sequence, store)
  }

  /**
   * Before retention, a document with an accepted header parses to exactly the stores that its values stand for;
   * it is corrupt exactly if some value stands for none. What is kept reads back clean.
   */
  lemma ParsingKeepsValidStores(document: Json, legacy: bool, sequence: nat, raw: map<string, Json>)
    requires HasHeader(document, legacy, sequence, raw)
    ensures var parsed := ParsedFile(Some(document));
            && parsed.file.mutationSequence == sequence
            && AreTheStores(raw, legacy, sequence, parsed.file.stores)
            && (parsed.Corrupt? <==> exists key :: key in raw && StandsForNone(raw[key], legacy, sequence))
            && ParsedFile(Some(EncodeCacheFile(parsed.file))) == Clean(parsed.file)
  {
    HeaderIff(document, legacy, sequence, raw);
    ParsedFileInvariant(Some(document));
    WriteReadRoundTrip(ParsedFile(Some(document)).file);
    KeptAreTheStores(raw, legacy, sequence);
  }

  lemma KeptAreTheStores(raw: map<string, Json>, legacy: bool, sequence: nat)
    requires sequence <= MAX_SAFE_INTEGER
    ensures var kept := ValidStores(raw, raw.Keys, legacy, sequence);
            && AreTheStores(raw, legacy, sequence, kept)
            && (kept.Keys == raw.Keys <==> forall key :: key in raw ==> !StandsForNone(raw[key], legacy, sequence))
  {
    var kept := ValidStores(raw, raw.Keys, legacy, sequence);
    forall key, store
      ensures key in kept && kept[key] == store <==> key in raw && StandsForStore(raw[key], legacy, sequence, store)
    {
      KeptIff(raw, legacy, sequence, key, store);
    }
    forall key | key in raw ensures key in kept <==> !StandsForNone(raw[key], legacy, sequence) {
      if key in kept {
        assert StandsForStore(raw[key], legacy, sequence, kept[key]);
      }
    }
    assert kept.Keys <= raw.Keys;
  }

  lemma KeptIff(raw: map<string, Json>, legacy: bool, sequence: nat, key: string, store: Store)
    requires sequence <= MAX_SAFE_INTEGER
    ensures var kept := ValidStores(raw, raw.Keys, legacy, sequence);
            (key in kept && kept[key] == store) <==> (key in raw && StandsForStore(raw[key], legacy, sequence, store))
  {
    if key in raw {
      DecodedIffStandsFor(raw[key], legacy, sequence, store);
    }
  }

  /** Any other document, and text that is no JSON at all, is corrupt and nothing of it is kept. */
  lemma OtherDocumentsAreCorrupt(document: Option<Json>)
    requires document.Some? ==>
               forall legacy, sequence, raw :: !HasHeader(document.value, legacy, sequence, raw)
    ensures ParsedFile(document) == Corrupt(EMPTY_CACHE_FILE)
  {
    if document.Some? && HeaderSequence(document.value).Some? {
      HeaderIff(document.value, IsLegacy(document.value), HeaderSequence(document.value).value,
                Field(document.value, "stores").value.fields);
    }
  }
}
