/**
  * Turning message content of any shape into the blocks that can be shown. The content is a graph of
  * JavaScript objects; the result is a list of blocks in one canonical form.
  */
module MessageContents {
  import opened Wrappers
  import opened JsText
  import Base64

  // --- Values ----------------------------------------------------------------------------------

  /** The property names the normaliser knows, and all others. */
  datatype Key =
    | Type | SourceType | Kind | Reason | UnrenderableSource | Name | Detail | Signature
    | MimeType | MimeTypeSnake | MediaType
    | Source | Url | Data | FileId | FileIdSnake | Id | TextKey | Content
    | Reasoning | Thinking | ImageUrl | ToolUseId | ToolCallId
    | OtherKey(name: string)

  datatype Value =
    | Undefined
    | Null
    | Text(text: string)
    | Bytes(bytes: seq<Base64.Byte>)
    | Ref(address: nat)
    | Primitive

  type Fields = map<Key, Value>

  /** Plain records and dense arrays; `Guarded` stands for every object the safe readers refuse. */
  datatype Object = Record(fields: Fields) | Array(items: seq<Value>) | Guarded

  type Heap = map<nat, Object>

  /** The words the normaliser compares strings with. */
  datatype Word =
    | TextWord | ReasoningWord | ThinkingWord | ThinkingDeltaWord | ImageWord | ImageUrlWord | FileWord
    | ToolResultWord | ToolUseWord | UnrenderableWord | RedactedThinkingWord | SignatureDeltaWord
    | Base64Word | DataWord | UrlWord | IdWord | FileIdWord
    | AutoWord | HighWord | LowWord | MalformedWord | UnsupportedWord
    | UnknownWord

  /** How words are spelled, and which URLs are accepted. */
  datatype Host = Host(word: string -> Word, spelling: Word -> string, accepts: string -> bool) {
    function WordOf(s: string): Word {
      word(s)
    }

    function Spelled(w: Word): string {
      spelling(w)
    }

    predicate AcceptsUrl(url: string) {
      accepts(url)
    }

    ghost predicate Knows(w: Word) {
      WordOf(Spelled(w)) == w && IsTrimmed(Spelled(w)) && Spelled(w) != ""
    }

    ghost predicate Lawful() {
      forall w: Word :: w != UnknownWord ==> Knows(w)
    }
  }

  function JingleSpelling(w: Word): string {
    match w
    case TextWord => "text"
    case ReasoningWord => "reasoning"
    case ThinkingWord => "thinking"
    case ThinkingDeltaWord => "thinking_delta"
    case ImageWord => "image"
    case ImageUrlWord => "image_url"
    case FileWord => "file"
    case ToolResultWord => "tool_result"
    case ToolUseWord => "tool_use"
    case UnrenderableWord => "unrenderable"
    case RedactedThinkingWord => "redacted_thinking"
    case SignatureDeltaWord => "signature_delta"
    case Base64Word => "base64"
    case DataWord => "data"
    case UrlWord => "url"
    case IdWord => "id"
    case FileIdWord => "file-id"
    case AutoWord => "auto"
    case HighWord => "high"
    case LowWord => "low"
    case MalformedWord => "malformed"
    case UnsupportedWord => "unsupported"
    case UnknownWord => ""
  }

  const WORDS := [
    TextWord, ReasoningWord, ThinkingWord, ThinkingDeltaWord, ImageWord, ImageUrlWord, FileWord, ToolResultWord,
    ToolUseWord, UnrenderableWord, RedactedThinkingWord, SignatureDeltaWord, Base64Word, DataWord, UrlWord, IdWord,
    FileIdWord, AutoWord, HighWord, LowWord, MalformedWord, UnsupportedWord]

  /** The word that is spelled this way, among those listed. */
  function LookUp(s: string, words: seq<Word>): Word {
    if words == [] then UnknownWord else if JingleSpelling(words[0]) == s then words[0] else LookUp(s, words[1..])
  }

  function JingleHost(accepts: string -> bool): Host {
    Host(s => LookUp(s, WORDS), JingleSpelling, accepts)
  }

  lemma SpellingIsInjective(v: Word, w: Word)
    requires JingleSpelling(v) == JingleSpelling(w)
    ensures v == w
  {
  }

  lemma {:induction false} LookUpFinds(w: Word, words: seq<Word>)
    requires w in words
    ensures LookUp(JingleSpelling(w), words) == w
  {
    if words[0] != w {
      LookUpFinds(w, words[1..]);
      if JingleSpelling(words[0]) == JingleSpelling(w) {
        SpellingIsInjective(words[0], w);
      }
    }
  }

  lemma EveryWordIsListed(w: Word)
    requires w != UnknownWord
    ensures w in WORDS
  {
  }

  lemma SpellingIsClean(w: Word)
    requires w != UnknownWord
    ensures JingleSpelling(w) != "" && IsTrimmed(JingleSpelling(w))
  {
  }

  lemma JingleKnows(accepts: string -> bool, w: Word)
    requires w != UnknownWord
    ensures JingleHost(accepts).Knows(w)
  {
    EveryWordIsListed(w);
    SpellingIsClean(w);
    LookUpFinds(w, WORDS);
  }

  lemma JingleHostIsLawful(accepts: string -> bool)
    ensures JingleHost(accepts).Lawful()
  {
    forall w: Word | w != UnknownWord ensures JingleHost(accepts).Knows(w) {
      JingleKnows(accepts, w);
    }
  }

  datatype Role = AssistantRole | SystemRole | ToolRole | UserRole

  datatype Options = Options(role: Role, toolCallId: Option<string>)

  // --- Results ---------------------------------------------------------------------------------

  datatype Attachment =
    | DataSource(data: string, dataType: string)
    | UrlSource(url: string, mimeType: Option<string>)
    | FileIdSource(fileId: string, mimeType: Option<string>)
    | TextSource(text: string, mimeType: Option<string>)

  datatype Block =
    | TextBlock(text: string)
    | ReasoningBlock(reasoning: string, signature: Option<string>)
    | ImageBlock(name: Option<string>, source: Attachment)
    | ImageUrlBlock(detail: Option<Word>, name: Option<string>, source: Attachment)
    | FileBlock(fileName: string, source: Attachment)
    | Unrenderable(reason: Word, sourceType: Option<string>)

  datatype MessageContent = Whole(text: string) | Blocks(blocks: seq<Block>)

  function Malformed(host: Host, word: Word): Block {
    Unrenderable(MalformedWord, Some(host.Spelled(word)))
  }

  function OrMalformed(host: Host, block: Option<Block>, word: Word): Block {
    if block.Some? then block.value else Malformed(host, word)
  }

  // --- Reading safely --------------------------------------------------------------------------

  function RecordOf(heap: Heap, v: Value): Option<Fields> {
    if v.Ref? && v.address in heap && heap[v.address].Record? then Some(heap[v.address].fields) else None
  }

  function ArrayOf(heap: Heap, v: Value): Option<seq<Value>> {
    if v.Ref? && v.address in heap && heap[v.address].Array? then Some(heap[v.address].items) else None
  }

  function Get(fields: Fields, key: Key): Value {
    if key in fields then fields[key] else Undefined
  }

  /** What is read under several names for the same thing. */
  datatype Reading = Wrong | Absent | Found(text: string) {
    function Value(): Option<string> {
      if Found? then Some(text) else None
    }
  }

  /** A string as it is accepted: as it is, or trimmed if something is left of it. */
  function Accepted(v: Value, raw: bool): Option<string> {
    if !v.Text? then None
    else if raw then Some(v.text)
    else if Trim(v.text) == "" then None
    else Some(Trim(v.text))
  }

  function ReadFrom(fields: Fields, keys: seq<Key>, raw: bool, result: Option<string>): Reading {
    if keys == [] then if result.None? then Absent else Found(result.value)
    else if keys[0] !in fields then ReadFrom(fields, keys[1..], raw, result)
    else
      var accepted := Accepted(fields[keys[0]], raw);
      if accepted.None? || (result.Some? && result != accepted) then Wrong
      else ReadFrom(fields, keys[1..], raw, accepted)
  }

  /** `readOptionalString`. */
  function ReadString(fields: Fields, keys: seq<Key>): Reading {
    ReadFrom(fields, keys, false, None)
  }

  /** `readOptionalRawString`. */
  function ReadRaw(fields: Fields, keys: seq<Key>): Reading {
    ReadFrom(fields, keys, true, None)
  }

  method ReadOptional(fields: Fields, keys: seq<Key>, raw: bool) returns (reading: Reading)
    ensures reading == ReadFrom(fields, keys, raw, None)
  {
    var result: Option<string> := None;
    assert keys[0..] == keys;
    for k := 0 to |keys|
      invariant ReadFrom(fields, keys[k..], raw, result) == ReadFrom(fields, keys, raw, None)
    {
      assert keys[k..][0] == keys[k] && keys[k..][1..] == keys[k + 1..];
      if keys[k] in fields {
        var accepted := Accepted(fields[keys[k]], raw);
        if accepted.None? || (result.Some? && result != accepted) {
          return Wrong;
        }
        result := accepted;
      }
    }
    return if result.None? then Absent else Found(result.value);
  }

  /** All names that are present agree on the text; nothing is found if none is. */
  lemma {:induction false} ReadingMeans(fields: Fields, keys: seq<Key>, raw: bool, result: Option<string>)
    ensures ReadFrom(fields, keys, raw, result) == Absent <==> result.None? && forall k :: k in keys ==> k !in fields
    ensures forall t :: ReadFrom(fields, keys, raw, result) == Found(t) <==>
              (result == Some(t) || (result.None? && exists k :: k in keys && k in fields))
              && forall k :: k in keys && k in fields ==> Accepted(fields[k], raw) == Some(t)
    decreases |keys|
  {
    if keys != [] {
      assert forall k :: k in keys <==> k == keys[0] || k in keys[1..];
      if keys[0] !in fields {
        ReadingMeans(fields, keys[1..], raw, result);
      } else {
        var accepted := Accepted(fields[keys[0]], raw);
        if accepted.Some? && (result.None? || result == accepted) {
          ReadingMeans(fields, keys[1..], raw, accepted);
        }
      }
    }
  }

  lemma ReadNone(fields: Fields, keys: seq<Key>, raw: bool)
    requires forall k :: k in keys ==> k !in fields
    ensures ReadFrom(fields, keys, raw, None) == Absent
  {
    ReadingMeans(fields, keys, raw, None);
  }

  lemma ReadOne(fields: Fields, keys: seq<Key>, raw: bool, key: Key, text: string)
    requires key in keys && key in fields && fields[key] == Text(text)
    requires forall k :: k in keys && k in fields ==> k == key
    requires raw || (IsTrimmed(text) && text != "")
    ensures ReadFrom(fields, keys, raw, None) == Found(text)
  {
    TrimmedStays(text);
    assert Accepted(fields[key], raw) == Some(text) by {
      if !raw {
        TrimmedStays(text);
      }
    }
    ReadingMeans(fields, keys, raw, None);
  }

  lemma TrimmedStays(text: string)
    ensures IsTrimmed(text) ==> Trim(text) == text
  {
  }

  /** What is read and not raw is trimmed and not empty. */
  lemma ReadIsTrimmed(fields: Fields, keys: seq<Key>)
    ensures var reading := ReadString(fields, keys);
            reading.Found? ==> reading.text != "" && IsTrimmed(reading.text)
  {
    var reading := ReadString(fields, keys);
    if reading.Found? {
      ReadingMeans(fields, keys, false, None);
      var k :| k in keys && k in fields;
      assert Accepted(fields[k], false) == Some(reading.text);
      TrimFacts(fields[k].text);
    }
  }

  // --- Sources ---------------------------------------------------------------------------------

  const MIME_KEYS := [MimeType, MimeTypeSnake, MediaType]

  function UrlOf(host: Host, v: Value, mimeType: Option<string>): Option<Attachment> {
    if !v.Text? then None
    else
      var url := Trim(v.text);
      if url == "" || !host.AcceptsUrl(url) then None else Some(UrlSource(url, mimeType))
  }

  /** `readDataValue`: a text that is not empty, or bytes in Base64. */
  function DataOf(v: Value): Option<string> {
    if v.Text? then if v.text != "" then Some(v.text) else None
    else if v.Bytes? && v.bytes != [] then Some(Base64.Encoded(v.bytes))
    else None
  }

  function DataSourceOf(v: Value, mimeType: Option<string>): Option<Attachment> {
    var data := DataOf(v);
    if mimeType.None? || data.None? then None else Some(DataSource(data.value, mimeType.value))
  }

  function FileIdSourceOf(fields: Fields, keys: seq<Key>, mimeType: Option<string>): Option<Attachment> {
    var fileId := ReadString(fields, keys);
    if fileId.Found? then Some(FileIdSource(fileId.text, mimeType)) else None
  }

  function TextSourceOf(fields: Fields, mimeType: Option<string>, allowText: bool): Option<Attachment> {
    var text := ReadString(fields, [TextKey]);
    if allowText && text.Found? then Some(TextSource(text.text, mimeType)) else None
  }

  /** The source that a record of its own gives, once its kind and type are known. */
  function SourceOfKind(
      host: Host, fields: Fields, kind: Word, mimeType: Option<string>, allowText: bool): Option<Attachment> {
    match kind
    case Base64Word => DataSourceOf(Get(fields, Data), mimeType)
    case DataWord => DataSourceOf(Get(fields, Data), mimeType)
    case UrlWord => UrlOf(host, Get(fields, Url), mimeType)
    case IdWord => FileIdSourceOf(fields, [Id, FileId, FileIdSnake], mimeType)
    case FileIdWord => FileIdSourceOf(fields, [Id, FileId, FileIdSnake], mimeType)
    case TextWord => TextSourceOf(fields, mimeType, allowText)
    case _ => None
  }

  /** `normalizeAnthropicSource`. */
  function AnthropicSource(
      host: Host, heap: Heap, v: Value, inherited: Option<string>, allowText: bool): Option<Attachment> {
    var source := RecordOf(heap, v);
    if source.None? then None
    else
      var fields := source.value;
      var kind, mimeType := ReadString(fields, [Type, SourceType, Kind]), ReadString(fields, MIME_KEYS);
      if !kind.Found? || mimeType.Wrong? then None
      else
        var resolved := if mimeType.Found? then Some(mimeType.text) else inherited;
        SourceOfKind(host, fields, host.WordOf(kind.text), resolved, allowText)
  }

  function Present(fields: Fields, keys: seq<Key>): seq<Key> {
    if keys == [] then []
    else (if keys[0] in fields then [keys[0]] else []) + Present(fields, keys[1..])
  }

  /** A block that names the type of its source itself. */
  function TypedSource(
      host: Host, fields: Fields, sourceType: string, mimeType: Option<string>, allowText: bool): Option<Attachment> {
    if Source in fields || Content in fields || FileId in fields || FileIdSnake in fields then None
    else
      match host.WordOf(sourceType)
      case UrlWord =>
        if Url in fields && Data !in fields && Id !in fields && TextKey !in fields then UrlOf(host, fields[Url], mimeType)
        else None
      case Base64Word =>
        if Data in fields && Url !in fields && Id !in fields && TextKey !in fields then DataSourceOf(fields[Data], mimeType)
        else None
      case IdWord =>
        if Url !in fields && Data !in fields && TextKey !in fields then FileIdSourceOf(fields, [Id], mimeType) else None
      case TextWord =>
        if Url !in fields && Data !in fields && Id !in fields then TextSourceOf(fields, mimeType, allowText) else None
      case _ => None
  }

  function ContentSource(host: Host, fields: Fields, mimeType: Option<string>, allowText: bool): Option<Attachment> {
    var content := ReadString(fields, [Content]);
    if !content.Found? then None
    else
      var url := UrlOf(host, Text(content.text), mimeType);
      if url.Some? then url else if allowText then Some(TextSource(content.text, mimeType)) else None
  }

  /** A block that carries its source under exactly one name. */
  function CarriedSource(
      host: Host, heap: Heap, fields: Fields, carrier: Key, mimeType: Option<string>, allowText: bool): Option<Attachment> {
    match carrier
    case Source => AnthropicSource(host, heap, Get(fields, Source), mimeType, allowText)
    case Url => UrlOf(host, Get(fields, Url), mimeType)
    case Data => DataSourceOf(Get(fields, Data), mimeType)
    case FileId => FileIdSourceOf(fields, [FileId], mimeType)
    case FileIdSnake => FileIdSourceOf(fields, [FileIdSnake], mimeType)
    case Id => FileIdSourceOf(fields, [Id], mimeType)
    case TextKey => TextSourceOf(fields, mimeType, allowText)
    case Content => ContentSource(host, fields, mimeType, allowText)
    case _ => None
  }

  function Carriers(legacyContent: bool): seq<Key> {
    [Source, Url, Data, FileId, FileIdSnake] + (if legacyContent then [Content] else []) + [Id, TextKey]
  }

  /** `normalizeAttachmentSource`. */
  function AttachmentSource(
      host: Host, heap: Heap, fields: Fields, allowText: bool, legacyContent: bool): Option<Attachment> {
    var mimeType, sourceType := ReadString(fields, MIME_KEYS), ReadString(fields, [SourceType]);
    if mimeType.Wrong? || sourceType.Wrong? then None
    else if sourceType.Found? then TypedSource(host, fields, sourceType.text, mimeType.Value(), allowText)
    else
      var carriers := Present(fields, Carriers(legacyContent));
      if |carriers| != 1 then None
      else CarriedSource(host, heap, fields, carriers[0], mimeType.Value(), allowText)
  }

  // --- Blocks ----------------------------------------------------------------------------------

  function TextBlockOf(host: Host, fields: Fields): Option<Block> {
    var text := ReadRaw(fields, [TextKey, Content]);
    if text.Found? then Some(TextBlock(text.text)) else None
  }

  function ReasoningBlockOf(fields: Fields): Option<Block> {
    var reasoning, signature := ReadRaw(fields, [Reasoning, Thinking, TextKey, Content]), ReadString(fields, [Signature]);
    if reasoning.Found? && !signature.Wrong? then Some(ReasoningBlock(reasoning.text, signature.Value())) else None
  }

  function ImageBlockOf(host: Host, heap: Heap, fields: Fields): Option<Block> {
    if ImageUrl in fields then None
    else
      var name, source := ReadString(fields, [Name]), AttachmentSource(host, heap, fields, false, true);
      if name.Wrong? || source.None? || source.value.TextSource? then None
      else Some(ImageBlock(name.Value(), source.value))
  }

  /** A level of detail, if that is what the value is. */
  function DetailOf(host: Host, v: Value): Option<Word> {
    if v.Text? && host.WordOf(v.text) in {AutoWord, HighWord, LowWord} then Some(host.WordOf(v.text)) else None
  }

  /** The address and the level of detail of an image that is given by its address. */
  function ImageUrlParts(host: Host, heap: Heap, v: Value, detail: Option<Word>): Option<(Value, Option<Word>)> {
    if v.Text? then Some((v, detail))
    else
      var record := RecordOf(heap, v);
      if record.None? || Url !in record.value then None
      else
        var fields := record.value;
        if Detail !in fields then Some((fields[Url], detail))
        else if detail.Some? || DetailOf(host, fields[Detail]).None? then None
        else Some((fields[Url], DetailOf(host, fields[Detail])))
  }

  function ImageUrlBlockOf(host: Host, heap: Heap, fields: Fields): Option<Block> {
    var name, mimeType := ReadString(fields, [Name]), ReadString(fields, MIME_KEYS);
    var detail := if Detail in fields then DetailOf(host, fields[Detail]) else None;
    if Content in fields || Data in fields || FileId in fields || FileIdSnake in fields || SourceType in fields || Url in fields
       || (ImageUrl in fields) == (Source in fields)
       || name.Wrong? || mimeType.Wrong? || (Detail in fields && detail.None?)
    then None
    else if Source in fields then
      var source := AnthropicSource(host, heap, fields[Source], mimeType.Value(), false);
      if source.None? || !source.value.UrlSource? then None
      else Some(ImageUrlBlock(detail, name.Value(), source.value))
    else
      var parts := ImageUrlParts(host, heap, Get(fields, ImageUrl), detail);
      if parts.None? then None
      else
        var source := UrlOf(host, parts.value.0, mimeType.Value());
        if source.None? then None else Some(ImageUrlBlock(parts.value.1, name.Value(), source.value))
  }

  function FileBlockOf(host: Host, heap: Heap, fields: Fields): Option<Block> {
    var name, source := ReadString(fields, [Name]), AttachmentSource(host, heap, fields, true, true);
    if !name.Found? || source.None? then None else Some(FileBlock(name.text, source.value))
  }

  function UnrenderableBlockOf(host: Host, fields: Fields): Option<Block> {
    var reason, sourceType := Get(fields, Reason), Get(fields, UnrenderableSource);
    if reason.Text? && host.WordOf(reason.text) in {MalformedWord, UnsupportedWord} && (sourceType.Null? || sourceType.Text?)
    then Some(Unrenderable(host.WordOf(reason.text), if sourceType.Text? then Some(sourceType.text) else None))
    else None
  }

  /** What one entry amounts to: blocks of its own, or an array whose entries stand in its place. */
  datatype Shape = Plain(blocks: seq<Block>) | Nested(address: nat, items: seq<Value>)

  function ToolResultShape(host: Host, heap: Heap, fields: Fields, options: Options): (shape: Shape)
    ensures shape.Nested? ==> shape.address in heap && heap[shape.address] == Array(shape.items)
    ensures shape.Nested? ==> Content in fields && fields[Content] == Ref(shape.address)
  {
    var wrapperId := ReadString(fields, [ToolUseId, ToolCallId]);
    if !options.role.ToolRole? || Content !in fields then
      Plain([Unrenderable(UnsupportedWord, Some(host.Spelled(ToolResultWord)))])
    else if wrapperId.Wrong? || (wrapperId.Found? && wrapperId.Value() != options.toolCallId) then
      Plain([Malformed(host, ToolResultWord)])
    else
      var nested := fields[Content];
      if nested.Text? then Plain(if nested.text != "" then [TextBlock(nested.text)] else [])
      else
        var items := ArrayOf(heap, nested);
        if items.None? then Plain([Malformed(host, ToolResultWord)]) else Nested(nested.address, items.value)
  }

  function PlainBlocks(host: Host, heap: Heap, fields: Fields, typeName: string, options: Options): seq<Block> {
    match host.WordOf(typeName)
    case TextWord => [OrMalformed(host, TextBlockOf(host, fields), TextWord)]
    case ReasoningWord => [ReasoningOf(host, fields, options, ReasoningWord)]
    case ThinkingWord => [ReasoningOf(host, fields, options, ThinkingWord)]
    case ThinkingDeltaWord => [ReasoningOf(host, fields, options, ThinkingDeltaWord)]
    case ImageWord => [OrMalformed(host, ImageBlockOf(host, heap, fields), ImageWord)]
    case ImageUrlWord => [OrMalformed(host, ImageUrlBlockOf(host, heap, fields), ImageUrlWord)]
    case FileWord => [OrMalformed(host, FileBlockOf(host, heap, fields), FileWord)]
    case UnrenderableWord => [OrMalformed(host, UnrenderableBlockOf(host, fields), UnrenderableWord)]
    case ToolUseWord => []
    case RedactedThinkingWord => []
    case SignatureDeltaWord => []
    case _ => [Unrenderable(UnsupportedWord, Some(typeName))]
  }

  function ReasoningOf(host: Host, fields: Fields, options: Options, word: Word): Block {
    if !options.role.AssistantRole? then Unrenderable(UnsupportedWord, Some(host.Spelled(word)))
    else OrMalformed(host, ReasoningBlockOf(fields), word)
  }

  function ShapeOf(host: Host, heap: Heap, v: Value, options: Options): (shape: Shape)
    ensures shape.Nested? ==> shape.address in heap && heap[shape.address] == Array(shape.items)
    ensures shape.Nested? ==>
              RecordOf(heap, v).Some? && Content in RecordOf(heap, v).value
              && RecordOf(heap, v).value[Content] == Ref(shape.address)
  {
    var record := RecordOf(heap, v);
    if record.None? then Plain([Unrenderable(MalformedWord, None)])
    else
      var typeName := ReadString(record.value, [Type]);
      if !typeName.Found? then Plain([Unrenderable(MalformedWord, None)])
      else if host.WordOf(typeName.text) == ToolResultWord then ToolResultShape(host, heap, record.value, options)
      else Plain(PlainBlocks(host, heap, record.value, typeName.text, options))
  }

  /** `normalizeContentBlock`; an array inside itself is not entered again, so that cycles end. */
  function NormalizedBlock(host: Host, heap: Heap, v: Value, options: Options, ancestors: set<nat>): seq<Block>
    decreases |heap.Keys - ancestors|, 0
  {
    match ShapeOf(host, heap, v, options)
    case Plain(blocks) => blocks
    case Nested(address, items) =>
      if address in ancestors then [Malformed(host, ToolResultWord)]
      else
        FewerLeft(heap, ancestors, address);
        NormalizedAll(host, heap, items, options, ancestors + {address})
  }

  function NormalizedAll(host: Host, heap: Heap, items: seq<Value>, options: Options, ancestors: set<nat>): seq<Block>
    decreases |heap.Keys - ancestors|, 1 + |items|
  {
    if items == [] then []
    else NormalizedBlock(host, heap, items[0], options, ancestors) + NormalizedAll(host, heap, items[1..], options, ancestors)
  }

  lemma FewerLeft(heap: Heap, ancestors: set<nat>, address: nat)
    requires address in heap && address !in ancestors
    ensures |heap.Keys - (ancestors + {address})| < |heap.Keys - ancestors|
  {
    assert heap.Keys - (ancestors + {address}) == (heap.Keys - ancestors) - {address};
  }

  /** `toDisplayMessageContent`. */
  function Displayed(host: Host, heap: Heap, v: Value, options: Options): MessageContent {
    if v.Text? then Whole(v.text)
    else if v.Undefined? then Whole("")
    else
      var items := ArrayOf(heap, v);
      if items.None? then Blocks([Unrenderable(MalformedWord, None)])
      else Blocks(NormalizedAll(host, heap, items.value, options, {v.address}))
  }

  // --- The normaliser as it runs ---------------------------------------------------------------

  /** The set of arrays being normalised, which is added to and taken from on the way. */
  class Ancestors {
    var members: set<nat>

    constructor (first: nat)
      ensures members == {first}
    {
      members := {first};
    }
  }

  method NormalizeContentBlock(host: Host, heap: Heap, v: Value, options: Options, ancestors: Ancestors)
    returns (blocks: seq<Block>)
    modifies ancestors
    ensures ancestors.members == old(ancestors.members)
    ensures blocks == NormalizedBlock(host, heap, v, options, old(ancestors.members))
    decreases |heap.Keys - ancestors.members|, 0
  {
    var shape := ShapeOf(host, heap, v, options);
    match shape
    case Plain(own) => blocks := own;
    case Nested(address, items) =>
      if address in ancestors.members {
        return [Malformed(host, ToolResultWord)];
      }
      ghost var before := ancestors.members;
      FewerLeft(heap, ancestors.members, address);
      ancestors.members := ancestors.members + {address};
      blocks := NormalizeEntries(host, heap, items, options, ancestors);
      ancestors.members := ancestors.members - {address};
      assert ancestors.members == before;
  }

  /** `flatMap` over the entries of an array. */
  method NormalizeEntries(host: Host, heap: Heap, items: seq<Value>, options: Options, ancestors: Ancestors)
    returns (blocks: seq<Block>)
    modifies ancestors
    ensures ancestors.members == old(ancestors.members)
    ensures blocks == NormalizedAll(host, heap, items, options, old(ancestors.members))
    decreases |heap.Keys - ancestors.members|, 1 + |items|
  {
    blocks := [];
    ghost var members := ancestors.members;
    ghost var goal := NormalizedAll(host, heap, items, options, members);
    assert items[0..] == items && [] + goal == goal;
    for k := 0 to |items|
      invariant ancestors.members == members
      invariant blocks + NormalizedAll(host, heap, items[k..], options, members) == goal
    {
      EntryStep(host, heap, items, options, members, blocks, k);
      var more := NormalizeContentBlock(host, heap, items[k], options, ancestors);
      blocks := blocks + more;
    }
  }

  lemma EntryStep(
      host: Host, heap: Heap, items: seq<Value>, options: Options, ancestors: set<nat>, blocks: seq<Block>, k: nat)
    requires k < |items|
    ensures blocks + NormalizedAll(host, heap, items[k..], options, ancestors)
         == blocks + NormalizedBlock(host, heap, items[k], options, ancestors)
            + NormalizedAll(host, heap, items[k + 1..], options, ancestors)
  {
    assert items[k..][0] == items[k] && items[k..][1..] == items[k + 1..];
  }

  method ToDisplayMessageContent(host: Host, heap: Heap, v: Value, options: Options) returns (content: MessageContent)
    ensures content == Displayed(host, heap, v, options)
  {
    if v.Text? {
      return Whole(v.text);
    }
    if v.Undefined? {
      return Whole("");
    }
    var items := ArrayOf(heap, v);
    if items.None? {
      return Blocks([Unrenderable(MalformedWord, None)]);
    }
    var ancestors := new Ancestors(v.address);
    var blocks := NormalizeEntries(host, heap, items.value, options, ancestors);
    return Blocks(blocks);
  }
}
