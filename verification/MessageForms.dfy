/**
 * Which forms of content the normaliser accepts, said on the fields of a record alone, and what becomes of each.
 * A field is one of several names for the same thing; the names that are present have to agree.
 */
module MessageForms {
  import opened Wrappers
  import opened JsText
  import opened MessageContents
  import Base64

  // --- Fields ----------------------------------------------------------------------------------

  /** Under these names there is this text, trimmed and not empty; or there is none of them. */
  ghost predicate Says(fields: Fields, names: set<Key>, text: Option<string>) {
    match text
    case None => forall k :: k in names ==> k !in fields
    case Some(t) =>
      && t != "" && (exists k :: k in names && k in fields)
      && forall k :: k in names && k in fields ==> fields[k].Text? && Trim(fields[k].text) == t
  }

  /** Under these names there is this text as it is. */
  ghost predicate Holds(fields: Fields, names: set<Key>, text: string) {
    && (exists k :: k in names && k in fields)
    && forall k :: k in names && k in fields ==> fields[k] == Text(text)
  }

  ghost predicate Lists(keys: seq<Key>, names: set<Key>) {
    forall k :: k in keys <==> k in names
  }

  lemma SaysIsRead(fields: Fields, keys: seq<Key>, names: set<Key>, text: Option<string>)
    requires Lists(keys, names)
    ensures Says(fields, names, text)
       <==> ReadString(fields, keys) == if text.None? then Absent else Found(text.value)
  {
    ReadingMeans(fields, keys, false, None);
  }

  lemma HoldsIsRead(fields: Fields, keys: seq<Key>, names: set<Key>, text: string)
    requires Lists(keys, names)
    ensures Holds(fields, names, text) <==> ReadRaw(fields, keys) == Found(text)
  {
    ReadingMeans(fields, keys, true, None);
  }

  // --- Sources ---------------------------------------------------------------------------------

  ghost predicate IsUrl(host: Host, v: Value, mimeType: Option<string>, source: Attachment) {
    v.Text? && Trim(v.text) != "" && host.AcceptsUrl(Trim(v.text)) && source == UrlSource(Trim(v.text), mimeType)
  }

  /** Data needs a type; bytes become text in Base64. */
  ghost predicate IsData(v: Value, mimeType: Option<string>, source: Attachment) {
    && mimeType.Some? && source.DataSource? && source.dataType == mimeType.value && source.data != ""
    && match v
       case Text(text) => source.data == text
       case Bytes(bytes) => source.data == Base64.Encoded(bytes)
       case _ => false
  }

  ghost predicate IsFileId(fields: Fields, names: set<Key>, mimeType: Option<string>, source: Attachment) {
    source.FileIdSource? && source.mimeType == mimeType && Says(fields, names, Some(source.fileId))
  }

  ghost predicate IsTextSource(fields: Fields, names: set<Key>, mimeType: Option<string>, source: Attachment) {
    source.TextSource? && source.mimeType == mimeType && Says(fields, names, Some(source.text))
  }

  /** A record of its own for the source, which names its kind; what it does not say of its type is inherited. */
  ghost predicate IsNested(
      host: Host, heap: Heap, v: Value, inherited: Option<string>, allowText: bool, source: Attachment)
  {
    && RecordOf(heap, v).Some?
    && exists kind, own ::
         Says(RecordOf(heap, v).value, {Type, SourceType, Kind}, Some(kind))
         && Says(RecordOf(heap, v).value, {MimeType, MimeTypeSnake, MediaType}, own)
         && IsNestedOf(host, RecordOf(heap, v).value, host.WordOf(kind), if own.Some? then own else inherited,
                       allowText, source)
  }

  ghost predicate IsNestedOf(
      host: Host, fields: Fields, kind: Word, mimeType: Option<string>, allowText: bool, source: Attachment)
  {
    || (kind in {Base64Word, DataWord} && Data in fields && IsData(fields[Data], mimeType, source))
    || (kind == UrlWord && Url in fields && IsUrl(host, fields[Url], mimeType, source))
    || (kind in {IdWord, FileIdWord} && IsFileId(fields, {Id, FileId, FileIdSnake}, mimeType, source))
    || (kind == TextWord && allowText && IsTextSource(fields, {TextKey}, mimeType, source))
  }

  /** The fields that can carry a source. */
  function CarriersIn(fields: Fields): set<Key> {
    set k | k in {Source, Url, Data, FileId, FileIdSnake, Content, Id, TextKey} && k in fields
  }

  /** A block carries its source under exactly one name, and if it names the kind of it, the two agree. */
  ghost predicate IsCarried(host: Host, heap: Heap, fields: Fields, allowText: bool, source: Attachment) {
    exists carrier, kind, mimeType ::
      IsCarriedUnder(host, heap, fields, carrier, kind, mimeType, allowText, source)
  }

  ghost predicate IsCarriedUnder(host: Host, heap: Heap, fields: Fields, carrier: Key, kind: Option<string>,
                                 mimeType: Option<string>, allowText: bool, source: Attachment)
  {
    && Says(fields, {MimeType, MimeTypeSnake, MediaType}, mimeType)
    && Says(fields, {SourceType}, kind)
    && CarriersIn(fields) == {carrier} && carrier in fields
    && (kind.Some? ==> Agrees(host.WordOf(kind.value), carrier))
    && IsCarriedAs(host, heap, fields, carrier, mimeType, allowText, source)
  }

  predicate Agrees(kind: Word, carrier: Key) {
    (kind == UrlWord && carrier == Url) || (kind == Base64Word && carrier == Data)
    || (kind == IdWord && carrier == Id) || (kind == TextWord && carrier == TextKey)
  }

  ghost predicate IsCarriedAs(host: Host, heap: Heap, fields: Fields, carrier: Key, mimeType: Option<string>,
                              allowText: bool, source: Attachment)
    requires carrier in fields
  {
    match carrier
    case Source => IsNested(host, heap, fields[Source], mimeType, allowText, source)
    case Url => IsUrl(host, fields[Url], mimeType, source)
    case Data => IsData(fields[Data], mimeType, source)
    case FileId => IsFileId(fields, {FileId}, mimeType, source)
    case FileIdSnake => IsFileId(fields, {FileIdSnake}, mimeType, source)
    case Id => IsFileId(fields, {Id}, mimeType, source)
    case TextKey => allowText && IsTextSource(fields, {TextKey}, mimeType, source)
    // Content is an address if it can be one, and otherwise text.
    case Content =>
      || IsUrl(host, fields[Content], mimeType, source)
      || (allowText && IsTextSource(fields, {Content}, mimeType, source) && !host.AcceptsUrl(source.text))
    case _ => false
  }

  // --- Blocks ----------------------------------------------------------------------------------

  /** A level of detail, which is compared as it is. */
  ghost predicate IsDetail(host: Host, v: Value, detail: Word) {
    v.Text? && host.WordOf(v.text) == detail && detail in {AutoWord, HighWord, LowWord}
  }

  ghost predicate HasDetail(host: Host, fields: Fields, detail: Option<Word>) {
    if Detail in fields then detail.Some? && IsDetail(host, fields[Detail], detail.value) else detail.None?
  }

  ghost predicate IsImage(host: Host, heap: Heap, fields: Fields, block: Block) {
    && block.ImageBlock? && ImageUrl !in fields && Says(fields, {Name}, block.name)
    && !block.source.TextSource? && IsCarried(host, heap, fields, false, block.source)
  }

  /** An image by its address: in a source of its own, or as `image_url`, a text or a record around one. */
  ghost predicate IsImageUrl(host: Host, heap: Heap, fields: Fields, block: Block) {
    && block.ImageUrlBlock? && Says(fields, {Name}, block.name) && block.source.UrlSource?
    && (forall k :: k in {Content, Data, FileId, FileIdSnake, SourceType, Url} ==> k !in fields)
    && exists mimeType :: IsImageUrlOf(host, heap, fields, mimeType, block)
  }

  ghost predicate IsImageUrlOf(host: Host, heap: Heap, fields: Fields, mimeType: Option<string>, block: Block)
    requires block.ImageUrlBlock?
  {
    && Says(fields, {MimeType, MimeTypeSnake, MediaType}, mimeType)
    && if Source in fields then
         ImageUrl !in fields && HasDetail(host, fields, block.detail)
         && IsNested(host, heap, fields[Source], mimeType, false, block.source)
       else
         ImageUrl in fields && IsAddressed(host, heap, fields, mimeType, block)
  }

  ghost predicate IsAddressed(host: Host, heap: Heap, fields: Fields, mimeType: Option<string>, block: Block)
    requires ImageUrl in fields && block.ImageUrlBlock?
  {
    if fields[ImageUrl].Text? then
      HasDetail(host, fields, block.detail) && IsUrl(host, fields[ImageUrl], mimeType, block.source)
    else
      var record := RecordOf(heap, fields[ImageUrl]);
      && record.Some? && Url in record.value && IsUrl(host, record.value[Url], mimeType, block.source)
      && HasDetail(host, fields, if Detail in record.value then None else block.detail)
      && (Detail in record.value ==> HasDetail(host, record.value, block.detail))
  }

  /** The block that a record of this type stands for, if its fields are as they have to be. */
  ghost predicate StandsFor(host: Host, heap: Heap, fields: Fields, word: Word, role: Role, block: Block) {
    match word
    case TextWord => block.TextBlock? && Holds(fields, {TextKey, Content}, block.text)
    case ReasoningWord => IsReasoning(fields, role, block)
    case ThinkingWord => IsReasoning(fields, role, block)
    case ThinkingDeltaWord => IsReasoning(fields, role, block)
    case ImageWord => IsImage(host, heap, fields, block)
    case ImageUrlWord => IsImageUrl(host, heap, fields, block)
    case FileWord =>
      block.FileBlock? && Says(fields, {Name}, Some(block.fileName)) && IsCarried(host, heap, fields, true, block.source)
    case UnrenderableWord =>
      && block.Unrenderable? && Reason in fields && UnrenderableSource in fields
      && fields[Reason].Text? && host.WordOf(fields[Reason].text) == block.reason
      && block.reason in {MalformedWord, UnsupportedWord}
      && fields[UnrenderableSource] == (if block.sourceType.Some? then Text(block.sourceType.value) else Null)
    case _ => false
  }

  ghost predicate IsReasoning(fields: Fields, role: Role, block: Block) {
    && role.AssistantRole? && block.ReasoningBlock?
    && Holds(fields, {Reasoning, Thinking, TextKey, Content}, block.reasoning)
    && Says(fields, {Signature}, block.signature)
  }

  predicate IsBlockWord(word: Word) {
    word in {TextWord, ReasoningWord, ThinkingWord, ThinkingDeltaWord, ImageWord, ImageUrlWord, FileWord,
             UnrenderableWord}
  }

  // --- The normaliser accepts exactly these forms ----------------------------------------------

  lemma UrlIff(host: Host, v: Value, mimeType: Option<string>, source: Attachment)
    ensures UrlOf(host, v, mimeType) == Some(source) <==> IsUrl(host, v, mimeType, source)
  {
  }

  lemma DataIff(v: Value, mimeType: Option<string>, source: Attachment)
    ensures DataSourceOf(v, mimeType) == Some(source) <==> IsData(v, mimeType, source)
  {
    if v.Bytes? {
      EncodedIsEmptyIff(v.bytes);
    }
  }

  lemma EncodedIsEmptyIff(bytes: seq<Base64.Byte>)
    ensures Base64.Encoded(bytes) == "" <==> bytes == []
  {
  }

  lemma FileIdIff(fields: Fields, keys: seq<Key>, names: set<Key>, mimeType: Option<string>, source: Attachment)
    requires Lists(keys, names)
    ensures FileIdSourceOf(fields, keys, mimeType) == Some(source) <==> IsFileId(fields, names, mimeType, source)
  {
    if source.FileIdSource? {
      SaysIsRead(fields, keys, names, Some(source.fileId));
    }
  }

  lemma TextSourceIff(fields: Fields, mimeType: Option<string>, allowText: bool, source: Attachment)
    ensures TextSourceOf(fields, mimeType, allowText) == Some(source)
       <==> allowText && IsTextSource(fields, {TextKey}, mimeType, source)
  {
    if source.TextSource? {
      SaysIsRead(fields, [TextKey], {TextKey}, Some(source.text));
    }
  }

  lemma SourceOfKindIff(
      host: Host, fields: Fields, kind: Word, mimeType: Option<string>, allowText: bool, source: Attachment)
    ensures SourceOfKind(host, fields, kind, mimeType, allowText) == Some(source)
       <==> IsNestedOf(host, fields, kind, mimeType, allowText, source)
  {
    match kind
    case Base64Word => DataIff(Get(fields, Data), mimeType, source);
    case DataWord => DataIff(Get(fields, Data), mimeType, source);
    case UrlWord => UrlIff(host, Get(fields, Url), mimeType, source);
    case IdWord => FileIdIff(fields, [Id, FileId, FileIdSnake], {Id, FileId, FileIdSnake}, mimeType, source);
    case FileIdWord => FileIdIff(fields, [Id, FileId, FileIdSnake], {Id, FileId, FileIdSnake}, mimeType, source);
    case TextWord => TextSourceIff(fields, mimeType, allowText, source);
    case _ =>
  }

  /** What the names of a type say, as it is read. */
  lemma MimeIsRead(fields: Fields, mimeType: Option<string>)
    ensures Says(fields, {MimeType, MimeTypeSnake, MediaType}, mimeType)
       <==> !ReadString(fields, MIME_KEYS).Wrong? && ReadString(fields, MIME_KEYS).Value() == mimeType
  {
    SaysIsRead(fields, MIME_KEYS, {MimeType, MimeTypeSnake, MediaType}, mimeType);
  }

  lemma KindIsRead(fields: Fields, kind: string)
    ensures Says(fields, {Type, SourceType, Kind}, Some(kind))
       <==> ReadString(fields, [Type, SourceType, Kind]) == Found(kind)
  {
    SaysIsRead(fields, [Type, SourceType, Kind], {Type, SourceType, Kind}, Some(kind));
  }

  lemma NestedIsAccepted(host: Host, heap: Heap, v: Value, inherited: Option<string>, allowText: bool,
                         source: Attachment)
    requires IsNested(host, heap, v, inherited, allowText, source)
    ensures AnthropicSource(host, heap, v, inherited, allowText) == Some(source)
  {
    var fields := RecordOf(heap, v).value;
    var kind, own :|
      Says(fields, {Type, SourceType, Kind}, Some(kind)) && Says(fields, {MimeType, MimeTypeSnake, MediaType}, own)
      && IsNestedOf(host, fields, host.WordOf(kind), if own.Some? then own else inherited, allowText, source);
    KindIsRead(fields, kind);
    MimeIsRead(fields, own);
    SourceOfKindIff(host, fields, host.WordOf(kind), if own.Some? then own else inherited, allowText, source);
  }

  lemma AcceptedIsNested(host: Host, heap: Heap, v: Value, inherited: Option<string>, allowText: bool,
                         source: Attachment)
    requires AnthropicSource(host, heap, v, inherited, allowText) == Some(source)
    ensures IsNested(host, heap, v, inherited, allowText, source)
  {
    var fields := RecordOf(heap, v).value;
    var kind, own := ReadString(fields, [Type, SourceType, Kind]).text, ReadString(fields, MIME_KEYS).Value();
    KindIsRead(fields, kind);
    MimeIsRead(fields, own);
    SourceOfKindIff(host, fields, host.WordOf(kind), if own.Some? then own else inherited, allowText, source);
  }

  lemma ContentIff(host: Host, fields: Fields, mimeType: Option<string>, allowText: bool, source: Attachment)
    requires Content in fields
    ensures ContentSource(host, fields, mimeType, allowText) == Some(source)
       <==> || IsUrl(host, fields[Content], mimeType, source)
            || (allowText && IsTextSource(fields, {Content}, mimeType, source) && !host.AcceptsUrl(source.text))
  {
    var content := ReadString(fields, [Content]);
    if fields[Content].Text? {
      TrimFacts(fields[Content].text);
      SaysIsRead(fields, [Content], {Content}, Some(Trim(fields[Content].text)));
    }
    if source.TextSource? {
      SaysIsRead(fields, [Content], {Content}, Some(source.text));
    }
    if content.Found? {
      SaysIsRead(fields, [Content], {Content}, Some(content.text));
    }
  }

  lemma CarrierIff(host: Host, heap: Heap, fields: Fields, carrier: Key, mimeType: Option<string>, allowText: bool,
                   source: Attachment)
    requires carrier in fields
    ensures CarriedSource(host, heap, fields, carrier, mimeType, allowText) == Some(source)
       <==> IsCarriedAs(host, heap, fields, carrier, mimeType, allowText, source)
  {
    match carrier
    case Source =>
      if IsNested(host, heap, fields[Source], mimeType, allowText, source) {
        NestedIsAccepted(host, heap, fields[Source], mimeType, allowText, source);
      }
      if AnthropicSource(host, heap, fields[Source], mimeType, allowText) == Some(source) {
        AcceptedIsNested(host, heap, fields[Source], mimeType, allowText, source);
      }
    case Url => UrlIff(host, fields[Url], mimeType, source);
    case Data => DataIff(fields[Data], mimeType, source);
    case FileId => FileIdIff(fields, [FileId], {FileId}, mimeType, source);
    case FileIdSnake => FileIdIff(fields, [FileIdSnake], {FileIdSnake}, mimeType, source);
    case Id => FileIdIff(fields, [Id], {Id}, mimeType, source);
    case TextKey => TextSourceIff(fields, mimeType, allowText, source);
    case Content => ContentIff(host, fields, mimeType, allowText, source);
    case _ =>
  }

  lemma {:induction false} PresentMembers(fields: Fields, keys: seq<Key>)
    ensures forall k :: k in Present(fields, keys) <==> k in keys && k in fields
    ensures Present(fields, keys) == [] <==> forall k :: k in keys ==> k !in fields
  {
    if keys != [] {
      PresentMembers(fields, keys[1..]);
      assert forall k :: k in keys <==> k == keys[0] || k in keys[1..];
    }
  }

  lemma {:induction false} PresentIsOne(fields: Fields, keys: seq<Key>, carrier: Key)
    requires forall i, j :: 0 <= i < j < |keys| ==> keys[i] != keys[j]
    ensures Present(fields, keys) == [carrier]
       <==> carrier in keys && carrier in fields && forall k :: k in keys && k in fields ==> k == carrier
  {
    if keys != [] {
      PresentIsOne(fields, keys[1..], carrier);
      PresentMembers(fields, keys[1..]);
      assert forall k :: k in keys <==> k == keys[0] || k in keys[1..];
      assert keys[0] !in keys[1..];
      if keys[0] in fields {
        ConsIsOne(keys[0], Present(fields, keys[1..]), carrier);
      } else {
        assert Present(fields, keys) == Present(fields, keys[1..]);
      }
    }
  }

  lemma ConsIsOne(first: Key, rest: seq<Key>, carrier: Key)
    ensures [first] + rest == [carrier] <==> first == carrier && rest == []
  {
    if [first] + rest == [carrier] {
      assert ([first] + rest)[0] == first && |[first] + rest| == 1;
    }
  }

  lemma OneCarrierIff(fields: Fields, carrier: Key)
    ensures Present(fields, Carriers(true)) == [carrier] <==> CarriersIn(fields) == {carrier}
  {
    var carriers := Carriers(true);
    assert carriers == [Source, Url, Data, FileId, FileIdSnake, Content, Id, TextKey];
    PresentIsOne(fields, carriers, carrier);
    CarriersAreListed(fields, carriers);
    IsSingleton(CarriersIn(fields), carrier);
  }

  lemma IsSingleton(carriers: set<Key>, carrier: Key)
    ensures carriers == {carrier} <==> carrier in carriers && forall k :: k in carriers ==> k == carrier
  {
  }

  lemma CarriersAreListed(fields: Fields, carriers: seq<Key>)
    requires carriers == [Source, Url, Data, FileId, FileIdSnake, Content, Id, TextKey]
    ensures forall k :: k in CarriersIn(fields) <==> k in carriers && k in fields
  {
  }

  lemma TypedIff(host: Host, heap: Heap, fields: Fields, sourceType: string, carrier: Key, mimeType: Option<string>,
                 allowText: bool, source: Attachment)
    requires CarriersIn(fields) == {carrier}
    ensures TypedSource(host, fields, sourceType, mimeType, allowText) == Some(source)
       <==> Agrees(host.WordOf(sourceType), carrier)
            && IsCarriedAs(host, heap, fields, carrier, mimeType, allowText, source)
  {
    CarrierIsIn(fields, carrier);
    CarrierIff(host, heap, fields, carrier, mimeType, allowText, source);
    FileIdIff(fields, [Id], {Id}, mimeType, source);
    TextSourceIff(fields, mimeType, allowText, source);
  }

  lemma CarrierIsIn(fields: Fields, carrier: Key)
    requires CarriersIn(fields) == {carrier}
    ensures carrier in {Source, Url, Data, FileId, FileIdSnake, Content, Id, TextKey} && carrier in fields
    ensures forall k :: k in {Source, Url, Data, FileId, FileIdSnake, Content, Id, TextKey} && k in fields ==> k == carrier
  {
    assert carrier in CarriersIn(fields);
    forall k | k in {Source, Url, Data, FileId, FileIdSnake, Content, Id, TextKey} && k in fields ensures k == carrier {
      assert k in CarriersIn(fields);
    }
  }

  /** A typed source is carried under one name. */
  lemma TypedHasOneCarrier(host: Host, fields: Fields, sourceType: string, mimeType: Option<string>, allowText: bool)
    returns (carrier: Key)
    requires TypedSource(host, fields, sourceType, mimeType, allowText).Some?
    ensures CarriersIn(fields) == {carrier}
  {
    carrier := match host.WordOf(sourceType)
      case UrlWord => Url
      case Base64Word => Data
      case IdWord => Id
      case _ => TextKey;
    ReadingMeans(fields, [Id], false, None);
    ReadingMeans(fields, [TextKey], false, None);
    assert carrier in fields;
  }

  lemma SourceTypeIsRead(fields: Fields, kind: Option<string>)
    ensures Says(fields, {SourceType}, kind)
       <==> !ReadString(fields, [SourceType]).Wrong? && ReadString(fields, [SourceType]).Value() == kind
  {
    SaysIsRead(fields, [SourceType], {SourceType}, kind);
  }

  lemma CarriedIsAccepted(host: Host, heap: Heap, fields: Fields, allowText: bool, source: Attachment)
    requires IsCarried(host, heap, fields, allowText, source)
    ensures AttachmentSource(host, heap, fields, allowText, true) == Some(source)
  {
    var carrier, kind, mimeType :| IsCarriedUnder(host, heap, fields, carrier, kind, mimeType, allowText, source);
    MimeIsRead(fields, mimeType);
    SourceTypeIsRead(fields, kind);
    if kind.Some? {
      TypedIff(host, heap, fields, kind.value, carrier, mimeType, allowText, source);
    } else {
      OneCarrierIff(fields, carrier);
      CarrierIsIn(fields, carrier);
      CarrierIff(host, heap, fields, carrier, mimeType, allowText, source);
    }
  }

  lemma AcceptedIsCarried(host: Host, heap: Heap, fields: Fields, allowText: bool, source: Attachment)
    requires AttachmentSource(host, heap, fields, allowText, true) == Some(source)
    ensures IsCarried(host, heap, fields, allowText, source)
  {
    var mimeType, kind := ReadString(fields, MIME_KEYS).Value(), ReadString(fields, [SourceType]).Value();
    MimeIsRead(fields, mimeType);
    SourceTypeIsRead(fields, kind);
    var carrier: Key;
    if kind.Some? {
      carrier := TypedHasOneCarrier(host, fields, kind.value, mimeType, allowText);
      TypedIff(host, heap, fields, kind.value, carrier, mimeType, allowText, source);
    } else {
      carrier := Present(fields, Carriers(true))[0];
      OneCarrierIff(fields, carrier);
      CarrierIsIn(fields, carrier);
      CarrierIff(host, heap, fields, carrier, mimeType, allowText, source);
    }
    assert IsCarriedUnder(host, heap, fields, carrier, kind, mimeType, allowText, source);
  }

  lemma NameIsRead(fields: Fields, name: Option<string>)
    ensures Says(fields, {Name}, name)
       <==> !ReadString(fields, [Name]).Wrong? && ReadString(fields, [Name]).Value() == name
  {
    SaysIsRead(fields, [Name], {Name}, name);
  }

  lemma CarriedIff(host: Host, heap: Heap, fields: Fields, allowText: bool, source: Attachment)
    ensures AttachmentSource(host, heap, fields, allowText, true) == Some(source)
       <==> IsCarried(host, heap, fields, allowText, source)
  {
    if IsCarried(host, heap, fields, allowText, source) {
      CarriedIsAccepted(host, heap, fields, allowText, source);
    }
    if AttachmentSource(host, heap, fields, allowText, true) == Some(source) {
      AcceptedIsCarried(host, heap, fields, allowText, source);
    }
  }

  lemma NestedIff(host: Host, heap: Heap, v: Value, inherited: Option<string>, allowText: bool, source: Attachment)
    ensures AnthropicSource(host, heap, v, inherited, allowText) == Some(source)
       <==> IsNested(host, heap, v, inherited, allowText, source)
  {
    if IsNested(host, heap, v, inherited, allowText, source) {
      NestedIsAccepted(host, heap, v, inherited, allowText, source);
    }
    if AnthropicSource(host, heap, v, inherited, allowText) == Some(source) {
      AcceptedIsNested(host, heap, v, inherited, allowText, source);
    }
  }

  lemma TextIff(host: Host, fields: Fields, block: Block)
    ensures TextBlockOf(host, fields) == Some(block) <==> block.TextBlock? && Holds(fields, {TextKey, Content}, block.text)
  {
    if block.TextBlock? {
      HoldsIsRead(fields, [TextKey, Content], {TextKey, Content}, block.text);
    }
  }

  lemma ReasoningIff(fields: Fields, block: Block)
    ensures ReasoningBlockOf(fields) == Some(block) <==> IsReasoning(fields, AssistantRole, block)
  {
    if block.ReasoningBlock? {
      var keys := [Reasoning, Thinking, TextKey, Content];
      HoldsIsRead(fields, keys, {Reasoning, Thinking, TextKey, Content}, block.reasoning);
      SaysIsRead(fields, [Signature], {Signature}, block.signature);
    }
  }

  lemma ImageIff(host: Host, heap: Heap, fields: Fields, block: Block)
    ensures ImageBlockOf(host, heap, fields) == Some(block) <==> IsImage(host, heap, fields, block)
  {
    if block.ImageBlock? {
      NameIsRead(fields, block.name);
      CarriedIff(host, heap, fields, false, block.source);
    }
  }

  lemma FileIff(host: Host, heap: Heap, fields: Fields, block: Block)
    ensures FileBlockOf(host, heap, fields) == Some(block)
       <==> block.FileBlock? && Says(fields, {Name}, Some(block.fileName))
            && IsCarried(host, heap, fields, true, block.source)
  {
    if block.FileBlock? {
      NameIsRead(fields, Some(block.fileName));
      CarriedIff(host, heap, fields, true, block.source);
    }
  }

  lemma AddressedIff(host: Host, heap: Heap, fields: Fields, mimeType: Option<string>, detail: Option<Word>, block: Block)
    requires ImageUrl in fields && block.ImageUrlBlock? && HasDetail(host, fields, detail)
    ensures var parts := ImageUrlParts(host, heap, fields[ImageUrl], detail);
            (parts.Some? && parts.value.1 == block.detail && UrlOf(host, parts.value.0, mimeType) == Some(block.source))
            <==> IsAddressed(host, heap, fields, mimeType, block)
  {
    var record := RecordOf(heap, fields[ImageUrl]);
    if record.Some? && Url in record.value {
      UrlIff(host, record.value[Url], mimeType, block.source);
    }
    UrlIff(host, fields[ImageUrl], mimeType, block.source);
  }

  lemma ImageUrlIff(host: Host, heap: Heap, fields: Fields, block: Block)
    ensures ImageUrlBlockOf(host, heap, fields) == Some(block) <==> IsImageUrl(host, heap, fields, block)
  {
    var read := ReadString(fields, MIME_KEYS);
    forall mimeType ensures Says(fields, {MimeType, MimeTypeSnake, MediaType}, mimeType)
                       <==> !read.Wrong? && read.Value() == mimeType {
      MimeIsRead(fields, mimeType);
    }
    if block.ImageUrlBlock? {
      NameIsRead(fields, block.name);
      if && !read.Wrong? && Says(fields, {Name}, block.name)
         && forall k :: k in {Content, Data, FileId, FileIdSnake, SourceType, Url} ==> k !in fields
      {
        ImageUrlOfIff(host, heap, fields, read.Value(), block);
      }
    }
    if IsImageUrl(host, heap, fields, block) {
      var mimeType :| IsImageUrlOf(host, heap, fields, mimeType, block);
      assert mimeType == read.Value();
    }
  }

  lemma ImageUrlOfIff(host: Host, heap: Heap, fields: Fields, mimeType: Option<string>, block: Block)
    requires block.ImageUrlBlock? && Says(fields, {MimeType, MimeTypeSnake, MediaType}, mimeType)
    requires Says(fields, {Name}, block.name)
    requires forall k :: k in {Content, Data, FileId, FileIdSnake, SourceType, Url} ==> k !in fields
    ensures ImageUrlBlockOf(host, heap, fields) == Some(block)
       <==> block.source.UrlSource? && IsImageUrlOf(host, heap, fields, mimeType, block)
  {
    MimeIsRead(fields, mimeType);
    NameIsRead(fields, block.name);
    if Source in fields {
      NestedIff(host, heap, fields[Source], mimeType, false, block.source);
    } else if ImageUrl in fields {
      var detail := if Detail in fields then DetailOf(host, fields[Detail]) else None;
      if HasDetail(host, fields, detail) {
        AddressedIff(host, heap, fields, mimeType, detail, block);
      }
    }
  }

  lemma UnrenderableIff(host: Host, heap: Heap, fields: Fields, role: Role, block: Block)
    ensures UnrenderableBlockOf(host, fields) == Some(block)
       <==> StandsFor(host, heap, fields, UnrenderableWord, role, block)
  {
  }

  /** What becomes of a record of this type whose fields are not as they have to be. */
  function Refused(host: Host, word: Word, role: Role): Block {
    if word in {ReasoningWord, ThinkingWord, ThinkingDeltaWord} && !role.AssistantRole? then
      Unrenderable(UnsupportedWord, Some(host.Spelled(word)))
    else
      Unrenderable(MalformedWord, Some(host.Spelled(word)))
  }

  /** The one block that a record of this type becomes, as it is read. */
  function ReadBlock(host: Host, heap: Heap, fields: Fields, word: Word, role: Role): Option<Block> {
    match word
    case TextWord => TextBlockOf(host, fields)
    case ImageWord => ImageBlockOf(host, heap, fields)
    case ImageUrlWord => ImageUrlBlockOf(host, heap, fields)
    case FileWord => FileBlockOf(host, heap, fields)
    case UnrenderableWord => UnrenderableBlockOf(host, fields)
    case _ => if role.AssistantRole? then ReasoningBlockOf(fields) else None
  }

  lemma PlainIsRead(host: Host, heap: Heap, fields: Fields, typeName: string, options: Options)
    requires IsBlockWord(host.WordOf(typeName))
    ensures var word := host.WordOf(typeName);
            var read := ReadBlock(host, heap, fields, word, options.role);
            PlainBlocks(host, heap, fields, typeName, options)
            == [if read.Some? then read.value else Refused(host, word, options.role)]
  {
  }

  lemma ReadIff(host: Host, heap: Heap, fields: Fields, word: Word, role: Role, block: Block)
    requires IsBlockWord(word)
    ensures ReadBlock(host, heap, fields, word, role) == Some(block) <==> StandsFor(host, heap, fields, word, role, block)
  {
    match word
    case TextWord => TextIff(host, fields, block);
    case ImageWord => ImageIff(host, heap, fields, block);
    case ImageUrlWord => ImageUrlIff(host, heap, fields, block);
    case FileWord => FileIff(host, heap, fields, block);
    case UnrenderableWord => UnrenderableIff(host, heap, fields, role, block);
    case _ => ReasoningIff(fields, block);
  }

  // --- What an entry becomes -------------------------------------------------------------------

  /** A record that names its type. */
  ghost predicate IsTyped(heap: Heap, v: Value, fields: Fields, typeName: string) {
    RecordOf(heap, v) == Some(fields) && Says(fields, {Type}, Some(typeName))
  }

  lemma TypeIsRead(fields: Fields, typeName: string)
    ensures Says(fields, {Type}, Some(typeName)) <==> ReadString(fields, [Type]) == Found(typeName)
  {
    SaysIsRead(fields, [Type], {Type}, Some(typeName));
  }

  /** What is no record, or names no type, is malformed, of unknown type. */
  lemma UntypedIsMalformed(host: Host, heap: Heap, v: Value, options: Options, ancestors: set<nat>)
    requires forall fields, typeName :: !IsTyped(heap, v, fields, typeName)
    ensures NormalizedBlock(host, heap, v, options, ancestors) == [Unrenderable(MalformedWord, None)]
  {
    var record := RecordOf(heap, v);
    if record.Some? && ReadString(record.value, [Type]).Found? {
      TypeIsRead(record.value, ReadString(record.value, [Type]).text);
      assert IsTyped(heap, v, record.value, ReadString(record.value, [Type]).text);
    }
  }

  /**
   * A record of one of the types that stand for a block becomes the block that its fields say, and none other;
   * if they say none it is reported under its type.
   */
  lemma EntryBecomesItsBlock(host: Host, heap: Heap, v: Value, fields: Fields, typeName: string, options: Options,
                             ancestors: set<nat>, block: Block)
    requires IsTyped(heap, v, fields, typeName) && IsBlockWord(host.WordOf(typeName))
    ensures var blocks, word := NormalizedBlock(host, heap, v, options, ancestors), host.WordOf(typeName);
            && (StandsFor(host, heap, fields, word, options.role, block) ==> blocks == [block])
            && ((forall b :: !StandsFor(host, heap, fields, word, options.role, b)) ==>
                  blocks == [Refused(host, word, options.role)])
  {
    TypeIsRead(fields, typeName);
    PlainIsRead(host, heap, fields, typeName, options);
    var word := host.WordOf(typeName);
    var read := ReadBlock(host, heap, fields, word, options.role);
    ReadIff(host, heap, fields, word, options.role, block);
    if read.Some? {
      ReadIff(host, heap, fields, word, options.role, read.value);
    }
  }

  /** Calls of tools and what is kept from sight leave nothing; a type that is not known is reported. */
  lemma OtherTypes(host: Host, heap: Heap, v: Value, fields: Fields, typeName: string, options: Options,
                   ancestors: set<nat>)
    requires IsTyped(heap, v, fields, typeName)
    requires !IsBlockWord(host.WordOf(typeName)) && host.WordOf(typeName) != ToolResultWord
    ensures NormalizedBlock(host, heap, v, options, ancestors)
         == if host.WordOf(typeName) in {ToolUseWord, RedactedThinkingWord, SignatureDeltaWord} then []
            else [Unrenderable(UnsupportedWord, Some(typeName))]
  {
    TypeIsRead(fields, typeName);
  }

  /** The result is for the call the content is shown for, or does not say for which. */
  ghost predicate IsForCall(fields: Fields, options: Options) {
    exists id :: Says(fields, {ToolUseId, ToolCallId}, id) && (id.None? || id == options.toolCallId)
  }

  lemma ForCallIsRead(fields: Fields, options: Options)
    ensures var read := ReadString(fields, [ToolUseId, ToolCallId]);
            IsForCall(fields, options) <==> !read.Wrong? && (read.Absent? || read.Value() == options.toolCallId)
  {
    var read := ReadString(fields, [ToolUseId, ToolCallId]);
    forall id ensures Says(fields, {ToolUseId, ToolCallId}, id) <==> !read.Wrong? && read.Value() == id {
      SaysIsRead(fields, [ToolUseId, ToolCallId], {ToolUseId, ToolCallId}, id);
    }
    assert Says(fields, {ToolUseId, ToolCallId}, read.Value()) <==> !read.Wrong?;
  }

  /**
   * The result of a tool, in the message of a tool: a text is one text block, none if it is empty; an array stands
   * for what its entries become, unless it is one of those being entered. Anything else is reported.
   */
  lemma ToolResultShows(host: Host, heap: Heap, v: Value, fields: Fields, typeName: string, options: Options,
                        ancestors: set<nat>)
    requires IsTyped(heap, v, fields, typeName) && host.WordOf(typeName) == ToolResultWord
    ensures var blocks := NormalizedBlock(host, heap, v, options, ancestors);
            var malformed := [Unrenderable(MalformedWord, Some(host.Spelled(ToolResultWord)))];
            if !options.role.ToolRole? || Content !in fields then
              blocks == [Unrenderable(UnsupportedWord, Some(host.Spelled(ToolResultWord)))]
            else if !IsForCall(fields, options) then
              blocks == malformed
            else if fields[Content].Text? then
              blocks == if fields[Content].text == "" then [] else [TextBlock(fields[Content].text)]
            else if ArrayOf(heap, fields[Content]).None? || fields[Content].address in ancestors then
              blocks == malformed
            else
              blocks == NormalizedAll(host, heap, ArrayOf(heap, fields[Content]).value, options,
                                      ancestors + {fields[Content].address})
  {
    TypeIsRead(fields, typeName);
    ForCallIsRead(fields, options);
  }

  /** Entries become blocks one after the other. */
  lemma {:induction false} EntriesInOrder(host: Host, heap: Heap, a: seq<Value>, b: seq<Value>, options: Options,
                                          ancestors: set<nat>)
    ensures NormalizedAll(host, heap, a + b, options, ancestors)
         == NormalizedAll(host, heap, a, options, ancestors) + NormalizedAll(host, heap, b, options, ancestors)
    decreases |a|
  {
    if a == [] {
      assert a + b == b;
    } else {
      assert (a + b)[1..] == a[1..] + b;
      EntriesInOrder(host, heap, a[1..], b, options, ancestors);
    }
  }

  /** Content is text, nothing, or an array whose entries are shown; anything else is one malformed block. */
  lemma ContentShows(host: Host, heap: Heap, v: Value, options: Options)
    ensures var shown := Displayed(host, heap, v, options);
            match v
            case Text(text) => shown == Whole(text)
            case Undefined => shown == Whole("")
            case _ =>
              if ArrayOf(heap, v).None? then shown == Blocks([Unrenderable(MalformedWord, None)])
              else shown == Blocks(NormalizedAll(host, heap, ArrayOf(heap, v).value, options, {v.address}))
  {
  }

  // --- The words as they are written -----------------------------------------------------------

  lemma {:induction false} LookedUpIsSpelled(s: string, words: seq<Word>)
    ensures LookUp(s, words) != UnknownWord ==> JingleSpelling(LookUp(s, words)) == s
  {
    if words != [] {
      LookedUpIsSpelled(s, words[1..]);
    }
  }

  /** A string is read as a word exactly if it is how the word is spelled. */
  lemma WordIffSpelled(accepts: string -> bool, s: string, word: Word)
    requires word != UnknownWord
    ensures JingleHost(accepts).WordOf(s) == word <==> s == JingleSpelling(word)
  {
    JingleKnows(accepts, word);
    LookedUpIsSpelled(s, WORDS);
  }

  /** For instance what a tool answered with a text is shown as that text. */
  lemma ToolOutputIsShown(accepts: string -> bool, heap: Heap, list: nat, entry: nat, text: string)
    requires list in heap && heap[list] == Array([Ref(entry)])
    requires entry in heap && heap[entry] == Record(map[Type := Text("tool_result"), Content := Text(text)])
    requires text != ""
    ensures Displayed(JingleHost(accepts), heap, Ref(list), Options(ToolRole, None)) == Blocks([TextBlock(text)])
  {
    WordIffSpelled(accepts, "tool_result", ToolResultWord);
    assert IsTrimmed("tool_result");
    ToolTextIsShown(JingleHost(accepts), heap, list, entry, "tool_result", text);
  }

  lemma ToolTextIsShown(host: Host, heap: Heap, list: nat, entry: nat, typeName: string, text: string)
    requires host.WordOf(typeName) == ToolResultWord && typeName != "" && IsTrimmed(typeName) && text != ""
    requires list in heap && heap[list] == Array([Ref(entry)])
    requires entry in heap && heap[entry] == Record(map[Type := Text(typeName), Content := Text(text)])
    ensures Displayed(host, heap, Ref(list), Options(ToolRole, None)) == Blocks([TextBlock(text)])
  {
    var fields: Fields := map[Type := Text(typeName), Content := Text(text)];
    TrimmedStays(typeName);
    assert Type in {Type} && Type in fields;
    assert IsTyped(heap, Ref(entry), fields, typeName);
    assert Says(fields, {ToolUseId, ToolCallId}, None);
    ToolResultShows(host, heap, Ref(entry), fields, typeName, Options(ToolRole, None), {list});
    OneEntry(host, heap, Ref(entry), Options(ToolRole, None), {list});
  }

  lemma OneEntry(host: Host, heap: Heap, v: Value, options: Options, ancestors: set<nat>)
    ensures NormalizedAll(host, heap, [v], options, ancestors) == NormalizedBlock(host, heap, v, options, ancestors)
  {
    assert [v][1..] == [];
    assert NormalizedAll(host, heap, [v][1..], options, ancestors) == [];
  }
}
