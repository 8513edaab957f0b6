/** What normalised content looks like, and that normalising it again changes nothing. */
module CanonicalContents {
  import opened Wrappers
  import opened JsText
  import Base64
  import opened MessageContents

  // --- The canonical form ----------------------------------------------------------------------

  predicate Clean(text: string) {
    text != "" && IsTrimmed(text)
  }

  predicate CleanOption(text: Option<string>) {
    text.Some? ==> Clean(text.value)
  }

  predicate CanonicalSource(host: Host, source: Attachment) {
    match source
    case DataSource(data, dataType) => data != "" && Clean(dataType)
    case UrlSource(url, mimeType) => Clean(url) && host.AcceptsUrl(url) && CleanOption(mimeType)
    case FileIdSource(fileId, mimeType) => Clean(fileId) && CleanOption(mimeType)
    case TextSource(text, mimeType) => Clean(text) && CleanOption(mimeType)
  }

  predicate CanonicalDetail(detail: Option<Word>) {
    detail.Some? ==> detail.value in {AutoWord, HighWord, LowWord}
  }

  /** The blocks that the normaliser makes in a role. */
  predicate Canonical(host: Host, role: Role, block: Block) {
    match block
    case TextBlock(_) => true
    case ReasoningBlock(_, signature) => role.AssistantRole? && CleanOption(signature)
    case ImageBlock(name, source) => CleanOption(name) && CanonicalSource(host, source) && !source.TextSource?
    case ImageUrlBlock(detail, name, source) =>
      CanonicalDetail(detail) && CleanOption(name) && CanonicalSource(host, source) && source.UrlSource?
    case FileBlock(fileName, source) => Clean(fileName) && CanonicalSource(host, source)
    case Unrenderable(reason, _) => reason in {MalformedWord, UnsupportedWord}
  }

  ghost predicate CanonicalAll(host: Host, role: Role, blocks: seq<Block>) {
    forall block :: block in blocks ==> Canonical(host, role, block)
  }

  // --- Everything normalised is canonical ------------------------------------------------------

  lemma UrlIsCanonical(host: Host, v: Value, mimeType: Option<string>)
    requires CleanOption(mimeType) && UrlOf(host, v, mimeType).Some?
    ensures CanonicalSource(host, UrlOf(host, v, mimeType).value)
  {
    TrimFacts(v.text);
  }

  lemma ReadIsClean(fields: Fields, keys: seq<Key>)
    ensures CleanOption(ReadString(fields, keys).Value())
  {
    ReadIsTrimmed(fields, keys);
  }

  lemma AnthropicSourceIsCanonical(host: Host, heap: Heap, v: Value, inherited: Option<string>, allowText: bool)
    requires CleanOption(inherited) && AnthropicSource(host, heap, v, inherited, allowText).Some?
    ensures var source := AnthropicSource(host, heap, v, inherited, allowText).value;
            CanonicalSource(host, source) && (source.TextSource? ==> allowText)
  {
    var fields := RecordOf(heap, v).value;
    ReadIsClean(fields, MIME_KEYS);
    ReadIsClean(fields, [Id, FileId, FileIdSnake]);
    ReadIsClean(fields, [TextKey]);
    var mimeType := ReadString(fields, MIME_KEYS);
    var resolved := if mimeType.Found? then Some(mimeType.text) else inherited;
    if host.WordOf(ReadString(fields, [Type, SourceType, Kind]).text) == UrlWord {
      UrlIsCanonical(host, Get(fields, Url), resolved);
    }
  }

  lemma TypedSourceIsCanonical(
      host: Host, fields: Fields, sourceType: string, mimeType: Option<string>, allowText: bool)
    requires CleanOption(mimeType) && TypedSource(host, fields, sourceType, mimeType, allowText).Some?
    ensures var source := TypedSource(host, fields, sourceType, mimeType, allowText).value;
            CanonicalSource(host, source) && (source.TextSource? ==> allowText)
  {
    ReadIsClean(fields, [Id]);
    ReadIsClean(fields, [TextKey]);
    if host.WordOf(sourceType) == UrlWord {
      UrlIsCanonical(host, fields[Url], mimeType);
    }
  }

  lemma CarriedSourceIsCanonical(
    host: Host, heap: Heap, fields: Fields, carrier: Key, mimeType: Option<string>, allowText: bool)
    requires CleanOption(mimeType) && CarriedSource(host, heap, fields, carrier, mimeType, allowText).Some?
    ensures var source := CarriedSource(host, heap, fields, carrier, mimeType, allowText).value;
            CanonicalSource(host, source) && (source.TextSource? ==> allowText)
  {
    match carrier
    case Source => AnthropicSourceIsCanonical(host, heap, Get(fields, Source), mimeType, allowText);
    case Url => UrlIsCanonical(host, Get(fields, Url), mimeType);
    case FileId => ReadIsClean(fields, [FileId]);
    case FileIdSnake => ReadIsClean(fields, [FileIdSnake]);
    case Id => ReadIsClean(fields, [Id]);
    case TextKey => ReadIsClean(fields, [TextKey]);
    case Content =>
      ReadIsClean(fields, [Content]);
      var content := ReadString(fields, [Content]).text;
      if UrlOf(host, Text(content), mimeType).Some? {
        UrlIsCanonical(host, Text(content), mimeType);
      }
    case _ =>
  }

  lemma AttachmentIsCanonical(host: Host, heap: Heap, fields: Fields, allowText: bool, legacyContent: bool)
    requires AttachmentSource(host, heap, fields, allowText, legacyContent).Some?
    ensures var source := AttachmentSource(host, heap, fields, allowText, legacyContent).value;
            CanonicalSource(host, source) && (source.TextSource? ==> allowText)
  {
    ReadIsClean(fields, MIME_KEYS);
    var mimeType, sourceType := ReadString(fields, MIME_KEYS).Value(), ReadString(fields, [SourceType]);
    if sourceType.Found? {
      TypedSourceIsCanonical(host, fields, sourceType.text, mimeType, allowText);
    } else {
      CarriedSourceIsCanonical(host, heap, fields, Present(fields, Carriers(legacyContent))[0], mimeType, allowText);
    }
  }

  lemma ImageUrlIsCanonical(host: Host, heap: Heap, fields: Fields, role: Role)
    requires ImageUrlBlockOf(host, heap, fields).Some?
    ensures Canonical(host, role, ImageUrlBlockOf(host, heap, fields).value)
  {
    ReadIsClean(fields, [Name]);
    ReadIsClean(fields, MIME_KEYS);
    var mimeType := ReadString(fields, MIME_KEYS).Value();
    if Source in fields {
      AnthropicSourceIsCanonical(host, heap, fields[Source], mimeType, false);
    } else {
      var detail := if Detail in fields then DetailOf(host, fields[Detail]) else None;
      UrlIsCanonical(host, ImageUrlParts(host, heap, Get(fields, ImageUrl), detail).value.0, mimeType);
    }
  }

  lemma PlainIsCanonical(host: Host, heap: Heap, fields: Fields, typeName: string, options: Options)
    ensures CanonicalAll(host, options.role, PlainBlocks(host, heap, fields, typeName, options))
  {
    match host.WordOf(typeName)
    case ReasoningWord => ReadIsClean(fields, [Signature]);
    case ThinkingWord => ReadIsClean(fields, [Signature]);
    case ThinkingDeltaWord => ReadIsClean(fields, [Signature]);
    case ImageWord =>
      ReadIsClean(fields, [Name]);
      if AttachmentSource(host, heap, fields, false, true).Some? {
        AttachmentIsCanonical(host, heap, fields, false, true);
      }
    case ImageUrlWord =>
      if ImageUrlBlockOf(host, heap, fields).Some? {
        ImageUrlIsCanonical(host, heap, fields, options.role);
      }
    case FileWord =>
      ReadIsClean(fields, [Name]);
      if AttachmentSource(host, heap, fields, true, true).Some? {
        AttachmentIsCanonical(host, heap, fields, true, true);
      }
    case _ =>
  }

  lemma ShapeIsCanonical(host: Host, heap: Heap, v: Value, options: Options)
    ensures var shape := ShapeOf(host, heap, v, options);
            shape.Plain? ==> CanonicalAll(host, options.role, shape.blocks)
  {
    var record := RecordOf(heap, v);
    if record.Some? && ReadString(record.value, [Type]).Found? {
      PlainIsCanonical(host, heap, record.value, ReadString(record.value, [Type]).text, options);
    }
  }

  lemma {:induction false} BlockIsCanonical(host: Host, heap: Heap, v: Value, options: Options, ancestors: set<nat>)
    ensures CanonicalAll(host, options.role, NormalizedBlock(host, heap, v, options, ancestors))
    decreases |heap.Keys - ancestors|, 0
  {
    var shape := ShapeOf(host, heap, v, options);
    ShapeIsCanonical(host, heap, v, options);
    if shape.Nested? && shape.address !in ancestors {
      FewerLeft(heap, ancestors, shape.address);
      AllAreCanonical(host, heap, shape.items, options, ancestors + {shape.address});
    }
  }

  /** Whatever the values are, cycles included, the blocks made of them are canonical. */
  lemma {:induction false} AllAreCanonical(
      host: Host, heap: Heap, items: seq<Value>, options: Options, ancestors: set<nat>)
    ensures CanonicalAll(host, options.role, NormalizedAll(host, heap, items, options, ancestors))
    decreases |heap.Keys - ancestors|, 1 + |items|
  {
    if items != [] {
      BlockIsCanonical(host, heap, items[0], options, ancestors);
      AllAreCanonical(host, heap, items[1..], options, ancestors);
    }
  }

  // --- Blocks as values ------------------------------------------------------------------------

  function With(fields: Fields, key: Key, text: Option<string>): Fields {
    if text.None? then fields else fields[key := Text(text.value)]
  }

  function SourceFields(host: Host, source: Attachment): Fields {
    match source
    case DataSource(data, dataType) =>
      map[Kind := Text(host.Spelled(DataWord)), Data := Text(data), MimeType := Text(dataType)]
    case UrlSource(url, mimeType) => With(map[Kind := Text(host.Spelled(UrlWord)), Url := Text(url)], MimeType, mimeType)
    case FileIdSource(fileId, mimeType) =>
      With(map[Kind := Text(host.Spelled(FileIdWord)), FileId := Text(fileId)], MimeType, mimeType)
    case TextSource(text, mimeType) => With(map[Kind := Text(host.Spelled(TextWord)), TextKey := Text(text)], MimeType, mimeType)
  }

  predicate HasSource(block: Block) {
    block.ImageBlock? || block.ImageUrlBlock? || block.FileBlock?
  }

  function Spelling(host: Host, word: Option<Word>): Option<string> {
    if word.None? then None else Some(host.Spelled(word.value))
  }

  /** The properties of a block; `source` is where its source is, if it has one. */
  function BlockFields(host: Host, block: Block, source: Value): Fields {
    match block
    case TextBlock(text) => map[Type := Text(host.Spelled(TextWord)), TextKey := Text(text)]
    case ReasoningBlock(reasoning, signature) =>
      With(map[Type := Text(host.Spelled(ReasoningWord)), Reasoning := Text(reasoning)], Signature, signature)
    case ImageBlock(name, _) => With(map[Type := Text(host.Spelled(ImageWord)), Source := source], Name, name)
    case ImageUrlBlock(detail, name, _) =>
      With(With(map[Type := Text(host.Spelled(ImageUrlWord)), Source := source], Detail, Spelling(host, detail)), Name, name)
    case FileBlock(fileName, _) =>
      map[Type := Text(host.Spelled(FileWord)), Source := source, Name := Text(fileName)]
    case Unrenderable(reason, sourceType) =>
      map[Type := Text(host.Spelled(UnrenderableWord)), Reason := Text(host.Spelled(reason)),
          UnrenderableSource := if sourceType.Some? then Text(sourceType.value) else Null]
  }

  /** The value, with what it refers to, is the block as an object. */
  predicate Represents(host: Host, heap: Heap, v: Value, block: Block) {
    var record := RecordOf(heap, v);
    record.Some?
    && if HasSource(block) then
         && Source in record.value
         && record.value == BlockFields(host, block, record.value[Source])
         && RecordOf(heap, record.value[Source]) == Some(SourceFields(host, block.source))
       else record.value == BlockFields(host, block, Undefined)
  }

  predicate RepresentsAll(host: Host, heap: Heap, items: seq<Value>, blocks: seq<Block>) {
    |items| == |blocks| && forall k :: 0 <= k < |items| ==> Represents(host, heap, items[k], blocks[k])
  }

  predicate RepresentsContent(host: Host, heap: Heap, v: Value, content: MessageContent) {
    match content
    case Whole(text) => v == Text(text)
    case Blocks(blocks) => ArrayOf(heap, v).Some? && RepresentsAll(host, heap, ArrayOf(heap, v).value, blocks)
  }

  ghost predicate CanonicalContent(host: Host, role: Role, content: MessageContent) {
    content.Blocks? ==> CanonicalAll(host, role, content.blocks)
  }

  // --- Canonical blocks are fixed points -------------------------------------------------------

  lemma KindReads(host: Host, fields: Fields, w: Word)
    requires host.Lawful() && w != UnknownWord && Kind in fields && fields[Kind] == Text(host.Spelled(w))
    requires Type !in fields && SourceType !in fields
    ensures var kind := ReadString(fields, [Type, SourceType, Kind]); kind.Found? && host.WordOf(kind.text) == w
  {
    assert host.Knows(w);
    ReadOne(fields, [Type, SourceType, Kind], false, Kind, host.Spelled(w));
  }

  lemma MimeReads(fields: Fields, mimeType: Option<string>)
    requires CleanOption(mimeType) && MimeTypeSnake !in fields && MediaType !in fields
    requires if mimeType.None? then MimeType !in fields
             else MimeType in fields && fields[MimeType] == Text(mimeType.value)
    ensures ReadString(fields, MIME_KEYS) == if mimeType.None? then Absent else Found(mimeType.value)
  {
    if mimeType.None? {
      ReadNone(fields, MIME_KEYS, false);
    } else {
      ReadOne(fields, MIME_KEYS, false, MimeType, mimeType.value);
    }
  }

  lemma DataSourceStays(host: Host, heap: Heap, v: Value, source: Attachment, allowText: bool)
    requires host.Lawful() && source.DataSource? && CanonicalSource(host, source)
    requires RecordOf(heap, v) == Some(SourceFields(host, source))
    ensures AnthropicSource(host, heap, v, None, allowText) == Some(source)
  {
    var fields := SourceFields(host, source);
    KindReads(host, fields, DataWord);
    MimeReads(fields, Some(source.dataType));
  }

  lemma UrlSourceStays(host: Host, heap: Heap, v: Value, source: Attachment, allowText: bool)
    requires host.Lawful() && source.UrlSource? && CanonicalSource(host, source)
    requires RecordOf(heap, v) == Some(SourceFields(host, source))
    ensures AnthropicSource(host, heap, v, None, allowText) == Some(source)
  {
    var fields := SourceFields(host, source);
    KindReads(host, fields, UrlWord);
    MimeReads(fields, source.mimeType);
    TrimmedStays(source.url);
  }

  lemma FileIdReads(host: Host, source: Attachment)
    requires source.FileIdSource? && CanonicalSource(host, source)
    ensures FileIdSourceOf(SourceFields(host, source), [Id, FileId, FileIdSnake], source.mimeType) == Some(source)
  {
    ReadOne(SourceFields(host, source), [Id, FileId, FileIdSnake], false, FileId, source.fileId);
  }

  lemma FileIdSourceStays(host: Host, heap: Heap, v: Value, source: Attachment, allowText: bool)
    requires host.Lawful() && source.FileIdSource? && CanonicalSource(host, source)
    requires RecordOf(heap, v) == Some(SourceFields(host, source))
    ensures AnthropicSource(host, heap, v, None, allowText) == Some(source)
  {
    var fields := SourceFields(host, source);
    KindReads(host, fields, FileIdWord);
    MimeReads(fields, source.mimeType);
    FileIdReads(host, source);
  }

  lemma TextSourceStays(host: Host, heap: Heap, v: Value, source: Attachment)
    requires host.Lawful() && source.TextSource? && CanonicalSource(host, source)
    requires RecordOf(heap, v) == Some(SourceFields(host, source))
    ensures AnthropicSource(host, heap, v, None, true) == Some(source)
  {
    var fields := SourceFields(host, source);
    KindReads(host, fields, TextWord);
    MimeReads(fields, source.mimeType);
    ReadOne(fields, [TextKey], false, TextKey, source.text);
  }

  lemma SourceStays(host: Host, heap: Heap, v: Value, source: Attachment, allowText: bool)
    requires host.Lawful() && CanonicalSource(host, source) && (source.TextSource? ==> allowText)
    requires RecordOf(heap, v) == Some(SourceFields(host, source))
    ensures AnthropicSource(host, heap, v, None, allowText) == Some(source)
  {
    match source
    case DataSource(_, _) => DataSourceStays(host, heap, v, source, allowText);
    case UrlSource(_, _) => UrlSourceStays(host, heap, v, source, allowText);
    case FileIdSource(_, _) => FileIdSourceStays(host, heap, v, source, allowText);
    case TextSource(_, _) => TextSourceStays(host, heap, v, source);
  }

  lemma TypeReads(host: Host, fields: Fields, w: Word)
    requires host.Lawful() && w != UnknownWord && Type in fields && fields[Type] == Text(host.Spelled(w))
    ensures ReadString(fields, [Type]) == Found(host.Spelled(w)) && host.WordOf(host.Spelled(w)) == w
  {
    assert host.Knows(w);
    ReadOne(fields, [Type], false, Type, host.Spelled(w));
  }

  lemma OptionReads(fields: Fields, key: Key, text: Option<string>)
    requires CleanOption(text)
    requires if text.None? then key !in fields else key in fields && fields[key] == Text(text.value)
    ensures ReadString(fields, [key]) == if text.None? then Absent else Found(text.value)
  {
    if text.None? {
      ReadNone(fields, [key], false);
    } else {
      ReadOne(fields, [key], false, key, text.value);
    }
  }

  /** A block whose only carrier is its source. */
  lemma OnlySourceIsCarried(host: Host, heap: Heap, fields: Fields, source: Attachment, allowText: bool)
    requires host.Lawful() && CanonicalSource(host, source) && (source.TextSource? ==> allowText)
    requires Source in fields && RecordOf(heap, fields[Source]) == Some(SourceFields(host, source))
    requires fields.Keys <= {Type, Source, Name}
    ensures AttachmentSource(host, heap, fields, allowText, true) == Some(source)
  {
    ReadNone(fields, MIME_KEYS, false);
    ReadNone(fields, [SourceType], false);
    OnlyPresent(fields);
    SourceStays(host, heap, fields[Source], source, allowText);
  }

  lemma OnlyPresent(fields: Fields)
    requires Source in fields && fields.Keys <= {Type, Source, Name}
    ensures Present(fields, Carriers(true)) == [Source]
  {
    var carriers := Carriers(true);
    assert carriers[0] == Source && carriers[1..] == [Url, Data, FileId, FileIdSnake, Content, Id, TextKey];
    NonePresent(fields, carriers[1..]);
  }

  lemma {:induction false} NonePresent(fields: Fields, keys: seq<Key>)
    requires forall k :: k in keys ==> k !in fields
    ensures Present(fields, keys) == []
  {
    if keys != [] {
      NonePresent(fields, keys[1..]);
    }
  }

  lemma ImageStays(host: Host, heap: Heap, v: Value, block: Block, options: Options)
    requires host.Lawful() && block.ImageBlock? && Canonical(host, options.role, block)
             && Represents(host, heap, v, block)
    ensures ShapeOf(host, heap, v, options) == Plain([block])
  {
    var fields := RecordOf(heap, v).value;
    TypeReads(host, fields, ImageWord);
    OptionReads(fields, Name, block.name);
    OnlySourceIsCarried(host, heap, fields, block.source, false);
  }

  lemma FileStays(host: Host, heap: Heap, v: Value, block: Block, options: Options)
    requires host.Lawful() && block.FileBlock? && Canonical(host, options.role, block)
             && Represents(host, heap, v, block)
    ensures ShapeOf(host, heap, v, options) == Plain([block])
  {
    var fields := RecordOf(heap, v).value;
    TypeReads(host, fields, FileWord);
    OptionReads(fields, Name, Some(block.fileName));
    OnlySourceIsCarried(host, heap, fields, block.source, true);
  }

  lemma DetailReads(host: Host, fields: Fields, detail: Option<Word>)
    requires host.Lawful() && CanonicalDetail(detail)
    requires if detail.None? then Detail !in fields
             else Detail in fields && fields[Detail] == Text(host.Spelled(detail.value))
    ensures detail == if Detail in fields then DetailOf(host, fields[Detail]) else None
  {
    if detail.Some? {
      assert host.Knows(detail.value);
    }
  }

  lemma ImageUrlStays(host: Host, heap: Heap, v: Value, block: Block, options: Options)
    requires host.Lawful() && block.ImageUrlBlock? && Canonical(host, options.role, block)
             && Represents(host, heap, v, block)
    ensures ShapeOf(host, heap, v, options) == Plain([block])
  {
    var fields := RecordOf(heap, v).value;
    TypeReads(host, fields, ImageUrlWord);
    ImageUrlFieldsStay(host, heap, fields, block);
  }

  lemma ImageUrlFieldsStay(host: Host, heap: Heap, fields: Fields, block: Block)
    requires host.Lawful() && block.ImageUrlBlock? && CanonicalDetail(block.detail) && CleanOption(block.name)
    requires block.source.UrlSource? && CanonicalSource(host, block.source)
    requires Source in fields && fields == BlockFields(host, block, fields[Source])
    requires RecordOf(heap, fields[Source]) == Some(SourceFields(host, block.source))
    ensures ImageUrlBlockOf(host, heap, fields) == Some(block)
  {
    OptionReads(fields, Name, block.name);
    MimeReads(fields, None);
    DetailReads(host, fields, block.detail);
    SourceStays(host, heap, fields[Source], block.source, false);
  }

  lemma ReasoningStays(host: Host, heap: Heap, v: Value, block: Block, options: Options)
    requires host.Lawful() && block.ReasoningBlock? && Canonical(host, options.role, block)
             && Represents(host, heap, v, block)
    ensures ShapeOf(host, heap, v, options) == Plain([block])
  {
    var fields := RecordOf(heap, v).value;
    TypeReads(host, fields, ReasoningWord);
    ReasoningFieldsStay(host, fields, block);
  }

  lemma ReasoningFieldsStay(host: Host, fields: Fields, block: Block)
    requires block.ReasoningBlock? && CleanOption(block.signature) && fields == BlockFields(host, block, Undefined)
    ensures ReasoningBlockOf(fields) == Some(block)
  {
    OptionReads(fields, Signature, block.signature);
    ReadOne(fields, [Reasoning, Thinking, TextKey, Content], true, Reasoning, block.reasoning);
  }

  /** A canonical block, however it is laid out in memory, is normalised to itself. */
  lemma CanonicalStays(host: Host, heap: Heap, v: Value, block: Block, options: Options)
    requires host.Lawful() && Canonical(host, options.role, block) && Represents(host, heap, v, block)
    ensures ShapeOf(host, heap, v, options) == Plain([block])
  {
    var fields := RecordOf(heap, v).value;
    match block
    case ImageBlock(_, _) => ImageStays(host, heap, v, block, options);
    case ImageUrlBlock(_, _, _) => ImageUrlStays(host, heap, v, block, options);
    case FileBlock(_, _) => FileStays(host, heap, v, block, options);
    case ReasoningBlock(_, _) => ReasoningStays(host, heap, v, block, options);
    case TextBlock(text) =>
      TypeReads(host, fields, TextWord);
      ReadOne(fields, [TextKey, Content], true, TextKey, text);
    case Unrenderable(reason, _) =>
      TypeReads(host, fields, UnrenderableWord);
      assert host.Knows(reason);
  }

  lemma {:induction false} AllCanonicalStay(
    host: Host, heap: Heap, items: seq<Value>, blocks: seq<Block>, options: Options, ancestors: set<nat>)
    requires host.Lawful() && RepresentsAll(host, heap, items, blocks) && CanonicalAll(host, options.role, blocks)
    ensures NormalizedAll(host, heap, items, options, ancestors) == blocks
    decreases |items|
  {
    if items != [] {
      CanonicalStays(host, heap, items[0], blocks[0], options);
      AllCanonicalStay(host, heap, items[1..], blocks[1..], options, ancestors);
      assert blocks == [blocks[0]] + blocks[1..];
    }
  }

  lemma CanonicalContentStays(host: Host, heap: Heap, v: Value, content: MessageContent, options: Options)
    requires host.Lawful() && RepresentsContent(host, heap, v, content) && CanonicalContent(host, options.role, content)
    ensures Displayed(host, heap, v, options) == content
  {
    if content.Blocks? {
      AllCanonicalStay(host, heap, ArrayOf(heap, v).value, content.blocks, options, {v.address});
    }
  }

  lemma DisplayedIsCanonical(host: Host, heap: Heap, v: Value, options: Options)
    ensures CanonicalContent(host, options.role, Displayed(host, heap, v, options))
  {
    if ArrayOf(heap, v).Some? {
      AllAreCanonical(host, heap, ArrayOf(heap, v).value, options, {v.address});
    }
  }

  // --- The normaliser is a projection ----------------------------------------------------------

  /** Blocks laid out as fresh objects: the array first, then each block with its source behind it. */
  function Stored(host: Host, blocks: seq<Block>): Heap {
    map address: nat | 0 <= address <= 2 * |blocks| ::
      if address == 0 then Array(seq(|blocks|, k requires 0 <= k < |blocks| => Ref(2 * k + 1)))
      else if address % 2 == 1 then Record(BlockFields(host, blocks[address / 2], Ref(address + 1)))
      else if HasSource(blocks[address / 2 - 1]) then Record(SourceFields(host, blocks[address / 2 - 1].source))
      else Guarded
  }

  lemma StoredRepresents(host: Host, blocks: seq<Block>)
    ensures RepresentsContent(host, Stored(host, blocks), Ref(0), Blocks(blocks))
  {
    var heap := Stored(host, blocks);
    var items := ArrayOf(heap, Ref(0)).value;
    forall k | 0 <= k < |blocks| ensures Represents(host, heap, items[k], blocks[k]) {
      assert items[k] == Ref(2 * k + 1);
      StoredBlock(host, blocks, k);
    }
  }

  lemma StoredBlock(host: Host, blocks: seq<Block>, k: nat)
    requires k < |blocks|
    ensures Represents(host, Stored(host, blocks), Ref(2 * k + 1), blocks[k])
  {
    var heap := Stored(host, blocks);
    assert (2 * k + 1) % 2 == 1 && (2 * k + 1) / 2 == k;
    assert heap[2 * k + 1] == Record(BlockFields(host, blocks[k], Ref(2 * k + 2)));
    if HasSource(blocks[k]) {
      assert (2 * k + 2) % 2 == 0 && (2 * k + 2) / 2 - 1 == k;
      assert heap[2 * k + 2] == Record(SourceFields(host, blocks[k].source));
    }
  }

  /** Normalising what was normalised changes nothing, however it is stored in between. */
  lemma NormaliserIsProjection(host: Host, heap: Heap, v: Value, options: Options, later: Heap, w: Value)
    requires host.Lawful()
    requires RepresentsContent(host, later, w, Displayed(host, heap, v, options))
    ensures Displayed(host, later, w, options) == Displayed(host, heap, v, options)
  {
    DisplayedIsCanonical(host, heap, v, options);
    CanonicalContentStays(host, later, w, Displayed(host, heap, v, options), options);
  }

  /** And there always is a way to store it. */
  lemma NormalisedTwiceIsNormalisedOnce(host: Host, heap: Heap, v: Value, options: Options)
    requires host.Lawful()
    ensures match Displayed(host, heap, v, options)
            case Whole(text) => Displayed(host, map[], Text(text), options) == Whole(text)
            case Blocks(blocks) => Displayed(host, Stored(host, blocks), Ref(0), options) == Blocks(blocks)
  {
    match Displayed(host, heap, v, options)
    case Whole(_) =>
    case Blocks(blocks) =>
      StoredRepresents(host, blocks);
      NormaliserIsProjection(host, heap, v, options, Stored(host, blocks), Ref(0));
  }

  // --- Persisted content -----------------------------------------------------------------------

  datatype Graph = Graph(heap: Heap, root: Value)

  function InvalidPersisted(): MessageContent {
    Blocks([Unrenderable(MalformedWord, Some("persisted_message_content"))])
  }

  /** `parsePersistedMessageContent`, from the value that was parsed, if the text was JSON at all. */
  function ParsedPersisted(host: Host, parsed: Option<Graph>, options: Options): MessageContent {
    if parsed.None? then InvalidPersisted()
    else
      var heap, root := parsed.value.heap, parsed.value.root;
      if root.Text? then Whole(root.text)
      else if ArrayOf(heap, root).None? then InvalidPersisted()
      else
        var canonical := Displayed(host, heap, root, options);
        if RepresentsContent(host, heap, root, canonical) then canonical else InvalidPersisted()
  }

  /** Persisted content is returned unchanged if, and only if, it is canonical for its role. */
  lemma PersistedUnchangedIffCanonical(host: Host, graph: Graph, content: MessageContent, options: Options)
    requires host.Lawful() && RepresentsContent(host, graph.heap, graph.root, content)
    ensures ParsedPersisted(host, Some(graph), options) == content <==> CanonicalContent(host, options.role, content)
  {
    if CanonicalContent(host, options.role, content) {
      CanonicalContentStays(host, graph.heap, graph.root, content, options);
    } else {
      DisplayedIsCanonical(host, graph.heap, graph.root, options);
    }
  }

  /** Nothing but canonical content is ever returned: the content itself, or the note that it is invalid. */
  lemma PersistedIsCanonical(host: Host, parsed: Option<Graph>, options: Options)
    ensures var content := ParsedPersisted(host, parsed, options);
            CanonicalContent(host, options.role, content)
            && (content == InvalidPersisted()
                || (parsed.Some? && RepresentsContent(host, parsed.value.heap, parsed.value.root, content)))
  {
    if parsed.Some? {
      DisplayedIsCanonical(host, parsed.value.heap, parsed.value.root, options);
    }
  }

  // --- Values without cycles -------------------------------------------------------------------

  /** A value refers to something ranked below a limit, or to nothing. */
  predicate Descends(rank: map<nat, nat>, v: Value, limit: nat) {
    v.Ref? ==> v.address in rank && rank[v.address] < limit
  }

  /** The ranked objects only refer to objects of lower rank, so no object contains itself. */
  ghost predicate Acyclic(heap: Heap, rank: map<nat, nat>) {
    forall address :: address in rank && address in heap ==> ObjectDescends(heap[address], rank, rank[address])
  }

  ghost predicate ObjectDescends(target: Object, rank: map<nat, nat>, limit: nat) {
    match target
    case Record(fields) => forall k :: k in fields ==> Descends(rank, fields[k], limit)
    case Array(items) => forall k :: 0 <= k < |items| ==> Descends(rank, items[k], limit)
    case Guarded => true
  }

  /** Plain recursion over the values, which keeps no track of where it has been. */
  ghost function TreeBlock(
      host: Host, heap: Heap, rank: map<nat, nat>, v: Value, options: Options, limit: nat): seq<Block>
    requires Acyclic(heap, rank) && Descends(rank, v, limit)
    decreases limit, 0
  {
    match ShapeOf(host, heap, v, options)
    case Plain(blocks) => blocks
    case Nested(address, items) =>
      ShapeDescends(host, heap, rank, v, options, limit);
      TreeAll(host, heap, rank, items, options, rank[address])
  }

  ghost function TreeAll(
      host: Host, heap: Heap, rank: map<nat, nat>, items: seq<Value>, options: Options, limit: nat): seq<Block>
    requires Acyclic(heap, rank) && forall k :: 0 <= k < |items| ==> Descends(rank, items[k], limit)
    decreases limit, 1 + |items|
  {
    if items == [] then []
    else TreeBlock(host, heap, rank, items[0], options, limit) + TreeAll(host, heap, rank, items[1..], options, limit)
  }

  lemma ShapeDescends(host: Host, heap: Heap, rank: map<nat, nat>, v: Value, options: Options, limit: nat)
    requires Acyclic(heap, rank) && Descends(rank, v, limit)
    ensures var shape := ShapeOf(host, heap, v, options);
            shape.Nested? ==>
              shape.address in rank && rank[shape.address] < limit
              && forall k :: 0 <= k < |shape.items| ==> Descends(rank, shape.items[k], rank[shape.address])
  {
    var shape := ShapeOf(host, heap, v, options);
    if shape.Nested? {
      assert ObjectDescends(heap[v.address], rank, rank[v.address]);
      assert ObjectDescends(heap[shape.address], rank, rank[shape.address]);
    }
  }

  predicate AllAbove(rank: map<nat, nat>, ancestors: set<nat>, limit: nat) {
    forall a :: a in ancestors ==> a in rank && rank[a] >= limit
  }

  lemma {:induction false} BlockAgrees(
    host: Host, heap: Heap, rank: map<nat, nat>, v: Value, options: Options, limit: nat, ancestors: set<nat>)
    requires Acyclic(heap, rank) && Descends(rank, v, limit) && AllAbove(rank, ancestors, limit)
    ensures NormalizedBlock(host, heap, v, options, ancestors) == TreeBlock(host, heap, rank, v, options, limit)
    decreases limit, 0
  {
    var shape := ShapeOf(host, heap, v, options);
    if shape.Nested? {
      ShapeDescends(host, heap, rank, v, options, limit);
      AllAgree(host, heap, rank, shape.items, options, rank[shape.address], ancestors + {shape.address});
    }
  }

  lemma {:induction false} AllAgree(
    host: Host, heap: Heap, rank: map<nat, nat>, items: seq<Value>, options: Options, limit: nat, ancestors: set<nat>)
    requires Acyclic(heap, rank) && AllAbove(rank, ancestors, limit)
    requires forall k :: 0 <= k < |items| ==> Descends(rank, items[k], limit)
    ensures NormalizedAll(host, heap, items, options, ancestors) == TreeAll(host, heap, rank, items, options, limit)
    decreases limit, 1 + |items|
  {
    if items != [] {
      BlockAgrees(host, heap, rank, items[0], options, limit, ancestors);
      AllAgree(host, heap, rank, items[1..], options, limit, ancestors);
    }
  }

  /** Without cycles the guard never strikes: the normaliser is plain recursion over a tree. */
  lemma AcyclicContentIsATree(host: Host, heap: Heap, rank: map<nat, nat>, v: Value, options: Options)
    requires Acyclic(heap, rank) && v.Ref? && v.address in rank && ArrayOf(heap, v).Some?
    ensures ObjectDescends(heap[v.address], rank, rank[v.address])
    ensures Displayed(host, heap, v, options)
         == Blocks(TreeAll(host, heap, rank, ArrayOf(heap, v).value, options, rank[v.address]))
  {
    assert ObjectDescends(heap[v.address], rank, rank[v.address]);
    AllAgree(host, heap, rank, ArrayOf(heap, v).value, options, rank[v.address], {v.address});
  }

  /** A tool result that is its own content: the inner one is reported, and nothing is repeated. */
  lemma CycleIsCut(host: Host, options: Options)
    requires host.Lawful() && options.role.ToolRole?
    ensures var heap: Heap := map[0 := Array([Ref(1)]),
                                  1 := Record(map[Type := Text(host.Spelled(ToolResultWord)), Content := Ref(0)])];
            Displayed(host, heap, Ref(0), options) == Blocks([Malformed(host, ToolResultWord)])
  {
    var fields: Fields := map[Type := Text(host.Spelled(ToolResultWord)), Content := Ref(0)];
    var heap: Heap := map[0 := Array([Ref(1)]), 1 := Record(fields)];
    TypeReads(host, fields, ToolResultWord);
    ReadNone(fields, [ToolUseId, ToolCallId], false);
    assert ShapeOf(host, heap, Ref(1), options) == Nested(0, [Ref(1)]);
    assert NormalizedBlock(host, heap, Ref(1), options, {0}) == [Malformed(host, ToolResultWord)];
    assert NormalizedAll(host, heap, [Ref(1)][1..], options, {0}) == [];
  }
}
