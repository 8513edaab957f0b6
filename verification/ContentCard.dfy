/** Content card ids: a typed source identity printed as text, and read back. */
module ContentCard {
  import opened Wrappers
  import opened JsText
  import opened PercentEncoding

  datatype SourceType = Message | ToolCall | ArtifactSource

  datatype Kind = Narrative | Code | Diff | Table | Mermaid | Artifact | Tool

  datatype Source = Source(sourceType: SourceType, sourceId: string, kind: Kind, slot: string)

  function SourceTypeText(sourceType: SourceType): string {
    match sourceType
    case Message => "message"
    case ToolCall => "tool-call"
    case ArtifactSource => "artifact"
  }

  function ReadSourceType(text: string): Option<SourceType> {
    match text
    case "message" => Some(Message)
    case "tool-call" => Some(ToolCall)
    case "artifact" => Some(ArtifactSource)
    case _ => None
  }

  function KindText(kind: Kind): string {
    match kind
    case Narrative => "narrative"
    case Code => "code"
    case Diff => "diff"
    case Table => "table"
    case Mermaid => "mermaid"
    case Artifact => "artifact"
    case Tool => "tool"
  }

  function ReadKind(text: string): Option<Kind> {
    match text
    case "narrative" => Some(Narrative)
    case "code" => Some(Code)
    case "diff" => Some(Diff)
    case "table" => Some(Table)
    case "mermaid" => Some(Mermaid)
    case "artifact" => Some(Artifact)
    case "tool" => Some(Tool)
    case _ => None
  }

  /** `createContentCardId`. */
  function CreateId(source: Source): string {
    SourceTypeText(source.sourceType) + ":" + (EncodeComponent(source.sourceId) + ":"
      + (KindText(source.kind) + ":" + EncodeComponent(source.slot)))
  }

  /** `readContentCardIdSource`. */
  function ReadId(cardId: string): Option<Source> {
    var pieces := Split(cardId, ':');
    if |pieces| != 4 then None
    else
      var sourceType, kind := ReadSourceType(pieces[0]), ReadKind(pieces[2]);
      if sourceType.None? || kind.None? || pieces[1] == "" || pieces[3] == "" then None
      else
        var sourceId, slot := DecodeComponent(pieces[1]), DecodeComponent(pieces[3]);
        if sourceId.None? || slot.None? then None
        else Some(Source(sourceType.value, sourceId.value, kind.value, slot.value))
  }

  lemma NamesReadBack(sourceType: SourceType, kind: Kind)
    ensures Free(SourceTypeText(sourceType), ':') && ReadSourceType(SourceTypeText(sourceType)) == Some(sourceType)
    ensures Free(KindText(kind), ':') && ReadKind(KindText(kind)) == Some(kind)
  {
  }

  lemma FourPieces(a: string, b: string, c: string, d: string)
    requires Free(a, ':') && Free(b, ':') && Free(c, ':') && Free(d, ':')
    ensures Split(a + ":" + (b + ":" + (c + ":" + d)), ':') == [a, b, c, d]
  {
    SplitFree(d, ':');
    SplitPiece(c, ':', d);
    SplitPiece(b, ':', c + ":" + d);
    SplitPiece(a, ':', b + ":" + (c + ":" + d));
  }

  lemma FourFields(s: string)
    requires |Split(s, ':')| == 4
    ensures var pieces := Split(s, ':');
            && s == pieces[0] + ":" + (pieces[1] + ":" + (pieces[2] + ":" + pieces[3]))
            && Free(pieces[1], ':') && Free(pieces[3], ':')
  {
    var first := SplitFirst(s, ':');
    var second := SplitFirst(first, ':');
    var third := SplitFirst(second, ':');
    SplitHead(third, ':');
  }

  /** The printed id splits back into its four fields. */
  lemma IdPieces(source: Source)
    ensures Split(CreateId(source), ':') == [SourceTypeText(source.sourceType), EncodeComponent(source.sourceId),
                                             KindText(source.kind), EncodeComponent(source.slot)]
  {
    NamesReadBack(source.sourceType, source.kind);
    ComponentAlphabet(source.sourceId);
    ComponentAlphabet(source.slot);
    FourPieces(SourceTypeText(source.sourceType), EncodeComponent(source.sourceId),
               KindText(source.kind), EncodeComponent(source.slot));
  }

  /** A printed id reads back exactly when neither the source id nor the slot is empty. */
  lemma IdRoundTrip(source: Source)
    ensures ReadId(CreateId(source)) == if source.sourceId != "" && source.slot != "" then Some(source) else None
  {
    IdPieces(source);
    NamesReadBack(source.sourceType, source.kind);
    ComponentAlphabet(source.sourceId);
    ComponentAlphabet(source.slot);
    ComponentRoundTrip(source.sourceId);
    ComponentRoundTrip(source.slot);
  }

  /** These are the four fields of an id, still encoded. */
  ghost predicate IsIdOf(cardId: string, source: Source, sourceId: string, slot: string) {
    && cardId == SourceTypeText(source.sourceType) + ":" + (sourceId + ":" + (KindText(source.kind) + ":" + slot))
    && Free(sourceId, ':') && Free(slot, ':') && sourceId != "" && slot != ""
    && DecodeComponent(sourceId) == Some(source.sourceId) && DecodeComponent(slot) == Some(source.slot)
  }

  /** An id is read as a source exactly if it has four fields that say it; any other text is no id. */
  lemma ReadsIff(cardId: string, source: Source)
    ensures ReadId(cardId) == Some(source) <==> exists sourceId, slot :: IsIdOf(cardId, source, sourceId, slot)
  {
    forall sourceId, slot | IsIdOf(cardId, source, sourceId, slot) ensures ReadId(cardId) == Some(source) {
      NamesReadBack(source.sourceType, source.kind);
      FourPieces(SourceTypeText(source.sourceType), sourceId, KindText(source.kind), slot);
    }
    if ReadId(cardId) == Some(source) {
      var pieces := Split(cardId, ':');
      FourFields(cardId);
      assert IsIdOf(cardId, source, pieces[1], pieces[3]);
    }
  }

  /** Different sources, empty fields included, have different ids. */
  lemma IdInjective(a: Source, b: Source)
    requires CreateId(a) == CreateId(b)
    ensures a == b
  {
    IdPieces(a);
    IdPieces(b);
    ComponentRoundTrip(a.sourceId);
    ComponentRoundTrip(b.sourceId);
    ComponentRoundTrip(a.slot);
    ComponentRoundTrip(b.slot);
    NamesReadBack(a.sourceType, a.kind);
    NamesReadBack(b.sourceType, b.kind);
  }
}
