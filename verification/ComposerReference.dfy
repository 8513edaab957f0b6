/** References inside composer text: printed as Markdown links, and parsed back out of any text. */
module ComposerReference {
  import opened Wrappers
  import opened JsText
  import opened PercentEncoding

  datatype Scheme = ExtensionSourceScheme | WorkspaceFileScheme

  /** How the schemes are written. */
  datatype Schemes = Schemes(extensionSource: string, workspaceFile: string) {
    function Text(scheme: Scheme): string {
      if scheme.ExtensionSourceScheme? then extensionSource else workspaceFile
    }

    /** Neither is a prefix of the other. */
    ghost predicate Distinct() {
      exists i :: 0 <= i < |extensionSource| && i < |workspaceFile| && extensionSource[i] != workspaceFile[i]
    }
  }

  datatype Reference =
    | ExtensionSource(caption: string, extensionName: string, sourceId: string)
    | WorkspaceFile(caption: string, path: string)

  datatype Token = Text(text: string) | Mention(reference: Reference)

  // --- Printing --------------------------------------------------------------------------------

  function ExtensionPayload(extensionName: string, sourceId: string): string {
    EncodePayload(extensionName) + "/" + EncodePayload(sourceId)
  }

  function SchemeOf(reference: Reference): Scheme {
    if reference.ExtensionSource? then ExtensionSourceScheme else WorkspaceFileScheme
  }

  function PayloadOf(reference: Reference): string {
    match reference
    case ExtensionSource(_, extensionName, sourceId) => ExtensionPayload(extensionName, sourceId)
    case WorkspaceFile(_, path) => EncodePayload(path)
  }

  function UriOf(schemes: Schemes, scheme: Scheme, payload: string): string {
    schemes.Text(scheme) + "://" + payload
  }

  /** `createExtensionSourceReferenceUri` and `createWorkspaceFileReferenceUri`. */
  function Uri(schemes: Schemes, reference: Reference): string {
    UriOf(schemes, SchemeOf(reference), PayloadOf(reference))
  }

  /** The Markdown link that carries a reference. */
  function MarkdownLink(caption: string, uri: string): string {
    "[" + caption + "](" + uri + ")"
  }

  function Link(schemes: Schemes, caption: string, scheme: Scheme, payload: string): string {
    MarkdownLink(caption, UriOf(schemes, scheme, payload))
  }

  function Printed(schemes: Schemes, reference: Reference): string {
    MarkdownLink(reference.caption, Uri(schemes, reference))
  }

  predicate LegalLabel(caption: string) {
    |caption| >= 2 && caption[0] == '@' && forall i :: 1 <= i < |caption| ==> !EndsLabel(caption[i])
  }

  /** References that can be told apart from the text around them once printed. */
  predicate Legal(reference: Reference) {
    && LegalLabel(reference.caption)
    && match reference
       case ExtensionSource(_, extensionName, sourceId) => extensionName != "" && sourceId != ""
       case WorkspaceFile(_, path) => path != ""
  }

  // --- Matching --------------------------------------------------------------------------------

  predicate EndsLabel(c: char) {
    c == ']' || c == '\n'
  }

  predicate EndsPayload(c: char) {
    c == ')' || IsSpace(c)
  }

  /** How many characters come before the first that ends a label. */
  function LabelLength(s: string): nat {
    if s == "" || EndsLabel(s[0]) then 0 else 1 + LabelLength(s[1..])
  }

  function PayloadLength(s: string): nat {
    if s == "" || EndsPayload(s[0]) then 0 else 1 + PayloadLength(s[1..])
  }

  lemma {:induction false} LengthsFit(s: string)
    ensures LabelLength(s) <= |s| && PayloadLength(s) <= |s|
  {
    if s != "" {
      LengthsFit(s[1..]);
    }
  }

  datatype Target = Target(scheme: Scheme, payload: string, length: nat)

  datatype Match = Match(caption: string, target: Target)

  function MatchScheme(schemes: Schemes, s: string): Option<Scheme> {
    if schemes.Text(ExtensionSourceScheme) + "://" <= s then Some(ExtensionSourceScheme)
    else if schemes.Text(WorkspaceFileScheme) + "://" <= s then Some(WorkspaceFileScheme)
    else None
  }

  /** The part of the pattern from the scheme to the closing parenthesis, at the very start of the text. */
  function MatchTarget(schemes: Schemes, s: string): (found: Option<Target>)
    ensures found.Some? ==> found.value.length <= |s|
  {
    var scheme := MatchScheme(schemes, s);
    if scheme.None? then None
    else
      var skipped := |schemes.Text(scheme.value)| + 3;
      LengthsFit(s[skipped..]);
      var m := PayloadLength(s[skipped..]);
      if m == 0 || m == |s[skipped..]| || s[skipped..][m] != ')' then None
      else Some(Target(scheme.value, s[skipped..][..m], skipped + m + 1))
  }

  /** The pattern at the very start of the text; each of its runs can only end in one place. */
  function MatchHere(schemes: Schemes, s: string): (found: Option<Match>)
    ensures found.Some? ==> |found.value.caption| + found.value.target.length + 3 <= |s|
  {
    if !("[@" <= s) then None
    else
      LengthsFit(s[2..]);
      var n := LabelLength(s[2..]);
      if n == 0 || !("](" <= s[2 + n..]) then None
      else
        var target := MatchTarget(schemes, s[2 + n..][2..]);
        if target.None? then None else Some(Match(s[1..2 + n], target.value))
  }

  function ParseExtensionSource(caption: string, payload: string): Option<Reference> {
    var pieces := Split(payload, '/');
    if |pieces| < 2 || pieces[0] == "" || pieces[1] == "" then None
    else
      var extensionName, sourceId := DecodeComponent(pieces[0]), DecodeComponent(pieces[1]);
      if extensionName.None? || sourceId.None? || extensionName.value == "" || sourceId.value == "" then None
      else Some(ExtensionSource(caption, extensionName.value, sourceId.value))
  }

  function ParseWorkspaceFile(caption: string, payload: string): Option<Reference> {
    var path := DecodeComponent(payload);
    if path.None? || path.value == "" then None else Some(WorkspaceFile(caption, path.value))
  }

  function ParseReference(caption: string, scheme: Scheme, payload: string): Option<Reference> {
    match scheme
    case ExtensionSourceScheme => ParseExtensionSource(caption, payload)
    case WorkspaceFileScheme => ParseWorkspaceFile(caption, payload)
  }

  /** A match of the pattern: how long it is, and the reference in it if there is one. */
  datatype Found = Found(length: nat, reference: Option<Reference>)

  /** What the parser looks for at a position, and how the references it can find are printed. */
  datatype Grammar = Grammar(find: string -> Option<Found>, show: Reference -> string, legal: Reference -> bool) {
    function Find(s: string): Option<Found> {
      find(s)
    }

    function Print(token: Token): string {
      match token
      case Text(text) => text
      case Mention(reference) => show(reference)
    }

    function PrintAll(tokens: seq<Token>): string {
      if tokens == [] then "" else Print(tokens[0]) + PrintAll(tokens[1..])
    }

    predicate IsLegal(token: Token) {
      match token
      case Text(text) => text != ""
      case Mention(reference) => legal(reference)
    }

    ghost predicate Lawful() {
      forall s :: Find(s).Some? ==> 0 < Find(s).value.length <= |s|
    }
  }

  function FindReference(schemes: Schemes, s: string): Option<Found> {
    var found := MatchHere(schemes, s);
    if found.None? then None
    else
      var target := found.value.target;
      Some(Found(|found.value.caption| + 3 + target.length,
                 ParseReference(found.value.caption, target.scheme, target.payload)))
  }

  function GrammarOf(schemes: Schemes): (grammar: Grammar)
    ensures grammar.Lawful()
  {
    Grammar(s => FindReference(schemes, s), reference => Printed(schemes, reference), Legal)
  }

  function ComposerSchemes(): Schemes {
    Schemes("jingle-extension-source", "jingle-workspace-file")
  }

  function ComposerGrammar(): (grammar: Grammar)
    ensures grammar.Lawful()
  {
    GrammarOf(ComposerSchemes())
  }

  // --- Parsing ---------------------------------------------------------------------------------

  /** A token together with the stretch of text it stands for. */
  datatype Piece = Piece(token: Token, source: string)

  function Flushed(held: string): seq<Piece> {
    if held == "" then [] else [Piece(Text(held), held)]
  }

  /** The pieces of the text from `lastIndex` on, when everything before `position` has been looked at. */
  function Pieces(grammar: Grammar, text: string, lastIndex: nat, position: nat): seq<Piece>
    requires grammar.Lawful() && lastIndex <= position <= |text|
    decreases |text| - position
  {
    if position == |text| then Flushed(text[lastIndex..])
    else
      var found := grammar.Find(text[position..]);
      var end := if found.None? then position + 1 else position + found.value.length;
      if found.None? || found.value.reference.None? then Pieces(grammar, text, lastIndex, end)
      else
        Flushed(text[lastIndex..position]) + [Piece(Mention(found.value.reference.value), text[position..end])]
        + Pieces(grammar, text, end, end)
  }

  function Tokens(pieces: seq<Piece>): seq<Token> {
    seq(|pieces|, i requires 0 <= i < |pieces| => pieces[i].token)
  }

  predicate HasMention(pieces: seq<Piece>) {
    exists i :: 0 <= i < |pieces| && pieces[i].token.Mention?
  }

  /** What is parsed, for any way to write the schemes. */
  function ParsedWith(grammar: Grammar, text: string): Option<seq<Token>>
    requires grammar.Lawful()
  {
    var pieces := Pieces(grammar, text, 0, 0);
    if HasMention(pieces) then Some(Tokens(pieces)) else None
  }

  /** What `parseComposerReferenceText` returns; text without a reference parses to nothing. */
  function Parsed(text: string): Option<seq<Token>> {
    ParsedWith(ComposerGrammar(), text)
  }

  method ParseComposerReferenceText(text: string) returns (result: Option<seq<Token>>)
    ensures result == Parsed(text)
  {
    var tokens := ScanReferences(ComposerGrammar(), text);
    result := if exists i :: 0 <= i < |tokens| && tokens[i].Mention? then Some(tokens) else None;
    MentionsAgree(Pieces(ComposerGrammar(), text, 0, 0));
  }

  function TextToken(held: string): seq<Token> {
    if held == "" then [] else [Text(held)]
  }

  /** The loop's variables. */
  datatype Scan = Scan(tokens: seq<Token>, lastIndex: nat, position: nat) {
    predicate Within(text: string) {
      lastIndex <= position <= |text|
    }
  }

  /** One turn of the loop. */
  function Next(grammar: Grammar, text: string, scan: Scan): (next: Scan)
    requires grammar.Lawful() && scan.Within(text) && scan.position < |text|
    ensures next.Within(text) && scan.position < next.position
  {
    var found := grammar.Find(text[scan.position..]);
    var end := if found.None? then scan.position + 1 else scan.position + found.value.length;
    if found.None? || found.value.reference.None? then Scan(scan.tokens, scan.lastIndex, end)
    else
      var held := TextToken(text[scan.lastIndex..scan.position]);
      Scan(scan.tokens + held + [Mention(found.value.reference.value)], end, end)
  }

  /** How the loop ends, from where it stands. */
  ghost function Outcome(grammar: Grammar, text: string, scan: Scan): (end: Scan)
    requires grammar.Lawful() && scan.Within(text)
    ensures end.Within(text) && end.position == |text|
    decreases |text| - scan.position
  {
    if scan.position == |text| then scan else Outcome(grammar, text, Next(grammar, text, scan))
  }

  lemma MentionTokens(tokens: seq<Token>, held: string, mention: Piece, rest: seq<Piece>)
    ensures tokens + Tokens(Flushed(held) + [mention] + rest) == tokens + TextToken(held) + [mention.token] + Tokens(rest)
  {
  }

  lemma FlushedTokens(held: string)
    ensures Tokens(Flushed(held)) == TextToken(held)
  {
  }

  /** The tokens a scan has, and those it will still find. */
  ghost function TokensFrom(grammar: Grammar, text: string, scan: Scan): seq<Token>
    requires grammar.Lawful() && scan.Within(text)
  {
    scan.tokens + Tokens(Pieces(grammar, text, scan.lastIndex, scan.position))
  }

  lemma PiecesOfFound(grammar: Grammar, text: string, lastIndex: nat, position: nat, end: nat, reference: Reference)
    requires grammar.Lawful() && lastIndex <= position < end <= |text|
    requires grammar.Find(text[position..]) == Some(Found(end - position, Some(reference)))
    ensures Pieces(grammar, text, lastIndex, position)
         == Flushed(text[lastIndex..position]) + [Piece(Mention(reference), text[position..end])]
            + Pieces(grammar, text, end, end)
  {
  }

  /** The scan after a reference was found. */
  function Taken(text: string, scan: Scan, end: nat, reference: Reference): Scan
    requires scan.Within(text)
  {
    Scan(scan.tokens + TextToken(text[scan.lastIndex..scan.position]) + [Mention(reference)], end, end)
  }

  lemma NextTakes(grammar: Grammar, text: string, scan: Scan, end: nat, reference: Reference)
    requires grammar.Lawful() && scan.Within(text) && scan.position < end <= |text|
    requires grammar.Find(text[scan.position..]) == Some(Found(end - scan.position, Some(reference)))
    ensures Next(grammar, text, scan) == Taken(text, scan, end, reference)
  {
  }

  lemma TokensAround(tokens: seq<Token>, held: string, mention: Piece, rest: seq<Piece>, pieces: seq<Piece>)
    requires pieces == Flushed(held) + [mention] + rest
    ensures tokens + Tokens(pieces) == tokens + TextToken(held) + [mention.token] + Tokens(rest)
  {
    MentionTokens(tokens, held, mention, rest);
  }

  lemma TakenKeepsTokens(grammar: Grammar, text: string, scan: Scan, end: nat, reference: Reference)
    requires grammar.Lawful() && scan.Within(text) && scan.position < end <= |text|
    requires grammar.Find(text[scan.position..]) == Some(Found(end - scan.position, Some(reference)))
    ensures TokensFrom(grammar, text, Taken(text, scan, end, reference)) == TokensFrom(grammar, text, scan)
  {
    PiecesOfFound(grammar, text, scan.lastIndex, scan.position, end, reference);
    TokensAround(scan.tokens, text[scan.lastIndex..scan.position], Piece(Mention(reference), text[scan.position..end]),
                 Pieces(grammar, text, end, end), Pieces(grammar, text, scan.lastIndex, scan.position));
  }

  lemma NextKeepsTokens(grammar: Grammar, text: string, scan: Scan)
    requires grammar.Lawful() && scan.Within(text) && scan.position < |text|
    ensures TokensFrom(grammar, text, Next(grammar, text, scan)) == TokensFrom(grammar, text, scan)
  {
    var found := grammar.Find(text[scan.position..]);
    if found.Some? && found.value.reference.Some? {
      var end := scan.position + found.value.length;
      NextTakes(grammar, text, scan, end, found.value.reference.value);
      TakenKeepsTokens(grammar, text, scan, end, found.value.reference.value);
    }
  }

  lemma {:induction false} OutcomeIsPieces(grammar: Grammar, text: string, scan: Scan)
    requires grammar.Lawful() && scan.Within(text)
    ensures TokensFrom(grammar, text, Outcome(grammar, text, scan)) == TokensFrom(grammar, text, scan)
    decreases |text| - scan.position
  {
    if scan.position < |text| {
      NextKeepsTokens(grammar, text, scan);
      OutcomeIsPieces(grammar, text, Next(grammar, text, scan));
    }
  }

  /** `parseComposerReferenceText` up to its last lines: the tokens are those of the pieces. */
  method ScanReferences(grammar: Grammar, text: string) returns (tokens: seq<Token>)
    requires grammar.Lawful()
    ensures tokens == Tokens(Pieces(grammar, text, 0, 0))
  {
    var scan := ScanMatches(grammar, text);
    OutcomeIsPieces(grammar, text, Scan([], 0, 0));
    FlushedTokens(text[scan.lastIndex..]);
    assert TokensFrom(grammar, text, Scan([], 0, 0)) == Tokens(Pieces(grammar, text, 0, 0));
    tokens := PushText(scan.tokens, text[scan.lastIndex..]);
  }

  /** The loop over all matches, which keeps the end of the last reference in `lastIndex`. */
  method ScanMatches(grammar: Grammar, text: string) returns (scan: Scan)
    requires grammar.Lawful()
    ensures scan.Within(text) && scan.position == |text|
    ensures scan == Outcome(grammar, text, Scan([], 0, 0))
  {
    var tokens: seq<Token> := [];
    var lastIndex: nat, position: nat := 0, 0;
    ghost var goal := Outcome(grammar, text, Scan([], 0, 0));
    while position < |text|
      invariant lastIndex <= position <= |text|
      invariant Outcome(grammar, text, Scan(tokens, lastIndex, position)) == goal
      decreases |text| - position
    {
      ghost var next := Next(grammar, text, Scan(tokens, lastIndex, position));
      var found := grammar.Find(text[position..]);
      var end := if found.None? then position + 1 else position + found.value.length;
      if found.Some? && found.value.reference.Some? {
        tokens := PushMention(tokens, text[lastIndex..position], found.value.reference.value);
        lastIndex := end;
      }
      position := end;
      assert Scan(tokens, lastIndex, position) == next;
    }
    scan := Scan(tokens, lastIndex, position);
  }

  /** Plain text is only kept where there is some. */
  method PushText(tokens: seq<Token>, held: string) returns (result: seq<Token>)
    ensures result == tokens + TextToken(held)
  {
    result := if |held| > 0 then tokens + [Text(held)] else tokens;
  }

  method PushMention(tokens: seq<Token>, held: string, reference: Reference) returns (result: seq<Token>)
    ensures result == tokens + TextToken(held) + [Mention(reference)]
  {
    result := PushText(tokens, held);
    result := result + [Mention(reference)];
  }

  lemma MentionsAgree(pieces: seq<Piece>)
    ensures HasMention(pieces) <==> exists i :: 0 <= i < |Tokens(pieces)| && Tokens(pieces)[i].Mention?
  {
    assert forall i :: 0 <= i < |pieces| ==> Tokens(pieces)[i] == pieces[i].token;
    if HasMention(pieces) {
      var i :| 0 <= i < |pieces| && pieces[i].token.Mention?;
      assert Tokens(pieces)[i].Mention?;
    }
  }

  // --- Nothing is lost -------------------------------------------------------------------------

  function Sources(pieces: seq<Piece>): string {
    if pieces == [] then "" else pieces[0].source + Sources(pieces[1..])
  }

  lemma {:induction false} SourcesConcat(a: seq<Piece>, b: seq<Piece>)
    ensures Sources(a + b) == Sources(a) + Sources(b)
  {
    if a == [] {
      assert a + b == b;
    } else {
      assert (a + b)[1..] == a[1..] + b;
      SourcesConcat(a[1..], b);
    }
  }

  lemma FlushedSource(held: string)
    ensures Sources(Flushed(held)) == held
  {
    if held != "" {
      assert Sources(Flushed(held)[1..]) == "";
    }
  }

  lemma Consecutive(text: string, from: nat, middle: nat, to: nat)
    requires from <= middle <= to <= |text|
    ensures text[from..middle] + (text[middle..to] + text[to..]) == text[from..]
  {
  }

  /** The stretches of text behind the tokens, put together, are the text. */
  lemma {:induction false} ParsingLosesNothing(grammar: Grammar, text: string, lastIndex: nat, position: nat)
    requires grammar.Lawful() && lastIndex <= position <= |text|
    ensures Sources(Pieces(grammar, text, lastIndex, position)) == text[lastIndex..]
    decreases |text| - position
  {
    if position == |text| {
      FlushedSource(text[lastIndex..]);
      return;
    }
    var found := grammar.Find(text[position..]);
    var end := if found.None? then position + 1 else position + found.value.length;
    if found.None? || found.value.reference.None? {
      ParsingLosesNothing(grammar, text, lastIndex, end);
      PiecesSkip(grammar, text, lastIndex, position, end);
      return;
    }
    ParsingLosesNothing(grammar, text, end, end);
    PiecesOfFound(grammar, text, lastIndex, position, end, found.value.reference.value);
    FoundLosesNothing(text, lastIndex, position, end, found.value.reference.value, Pieces(grammar, text, end, end));
  }

  lemma FoundLosesNothing(text: string, lastIndex: nat, position: nat, end: nat, reference: Reference,
                          rest: seq<Piece>)
    requires lastIndex <= position <= end <= |text| && Sources(rest) == text[end..]
    ensures Sources(Flushed(text[lastIndex..position]) + [Piece(Mention(reference), text[position..end])] + rest)
         == text[lastIndex..]
  {
    MentionSource(text[lastIndex..position], Piece(Mention(reference), text[position..end]), rest);
    Consecutive(text, lastIndex, position, end);
  }

  lemma MentionSource(held: string, mention: Piece, rest: seq<Piece>)
    ensures Sources(Flushed(held) + [mention] + rest) == held + (mention.source + Sources(rest))
  {
    FlushedSource(held);
    SourcesConcat(Flushed(held) + [mention], rest);
    SourcesConcat(Flushed(held), [mention]);
    assert Sources([mention][1..]) == "";
    assert Sources([mention]) == mention.source + "";
  }

  // --- What the pieces are ---------------------------------------------------------------------

  /** Reading a stretch of a text, from match to match, meets no reference and ends where the stretch does. */
  ghost predicate Passes(grammar: Grammar, text: string, from: nat, end: nat)
    requires grammar.Lawful() && from <= end <= |text|
    decreases end - from
  {
    from == end
    || (var found := grammar.Find(text[from..]);
        var next := if found.None? then from + 1 else from + found.value.length;
        (found.None? || found.value.reference.None?) && next <= end && Passes(grammar, text, next, end))
  }

  /** A text token is its stretch of the text, without a reference; a mention is what is found there. */
  ghost predicate Stands(grammar: Grammar, text: string, from: nat, piece: Piece)
    requires grammar.Lawful() && from <= |text|
  {
    var end := from + |piece.source|;
    && from < end <= |text| && text[from..end] == piece.source
    && match piece.token
       case Text(held) => piece.source == held && Passes(grammar, text, from, end)
       case Mention(reference) => grammar.Find(text[from..]) == Some(Found(end - from, Some(reference)))
  }

  /** The pieces stand, one after the other, for all of the text from a position on; no text follows another. */
  ghost predicate StandFor(grammar: Grammar, text: string, from: nat, pieces: seq<Piece>)
    requires grammar.Lawful() && from <= |text|
    decreases |pieces|
  {
    if pieces == [] then from == |text|
    else
      && Stands(grammar, text, from, pieces[0])
      && (pieces[0].token.Text? && |pieces| > 1 ==> pieces[1].token.Mention?)
      && StandFor(grammar, text, from + |pieces[0].source|, pieces[1..])
  }

  /** At this position there is no reference; the parser goes on at `next`. */
  ghost predicate Skips(grammar: Grammar, text: string, position: nat, next: nat)
    requires grammar.Lawful()
  {
    && position < next <= |text|
    && var found := grammar.Find(text[position..]);
       if found.None? then next == position + 1
       else found.value.reference.None? && next == position + found.value.length
  }

  lemma PiecesSkip(grammar: Grammar, text: string, lastIndex: nat, position: nat, next: nat)
    requires grammar.Lawful() && lastIndex <= position && Skips(grammar, text, position, next)
    ensures Pieces(grammar, text, lastIndex, position) == Pieces(grammar, text, lastIndex, next)
  {
  }

  lemma {:induction false} PassesSnoc(grammar: Grammar, text: string, from: nat, position: nat, next: nat)
    requires grammar.Lawful() && from <= position && Skips(grammar, text, position, next)
    requires Passes(grammar, text, from, position)
    ensures Passes(grammar, text, from, next)
    decreases position - from
  {
    if from < position {
      var found := grammar.Find(text[from..]);
      PassesSnoc(grammar, text, if found.None? then from + 1 else from + found.value.length, position, next);
    } else {
      assert Passes(grammar, text, next, next);
    }
  }

  lemma HeldStands(grammar: Grammar, text: string, from: nat, end: nat, rest: seq<Piece>)
    requires grammar.Lawful() && from <= end <= |text| && Passes(grammar, text, from, end)
    requires StandFor(grammar, text, end, rest) && (rest != [] ==> rest[0].token.Mention?)
    ensures StandFor(grammar, text, from, Flushed(text[from..end]) + rest)
  {
    var pieces := Flushed(text[from..end]) + rest;
    if from == end {
      assert pieces == rest;
    } else {
      assert pieces[1..] == rest;
    }
  }

  lemma FoundStands(grammar: Grammar, text: string, position: nat, end: nat, reference: Reference, rest: seq<Piece>)
    requires grammar.Lawful() && position < end <= |text| && StandFor(grammar, text, end, rest)
    requires grammar.Find(text[position..]) == Some(Found(end - position, Some(reference)))
    ensures StandFor(grammar, text, position, [Piece(Mention(reference), text[position..end])] + rest)
  {
    var pieces := [Piece(Mention(reference), text[position..end])] + rest;
    assert pieces[1..] == rest;
  }

  lemma JoinedStand(grammar: Grammar, text: string, lastIndex: nat, position: nat, end: nat, reference: Reference,
                    rest: seq<Piece>, pieces: seq<Piece>)
    requires grammar.Lawful() && lastIndex <= position < end <= |text|
    requires Passes(grammar, text, lastIndex, position) && StandFor(grammar, text, end, rest)
    requires grammar.Find(text[position..]) == Some(Found(end - position, Some(reference)))
    requires pieces == Flushed(text[lastIndex..position]) + [Piece(Mention(reference), text[position..end])] + rest
    ensures StandFor(grammar, text, lastIndex, pieces)
  {
    var found := [Piece(Mention(reference), text[position..end])] + rest;
    FoundStands(grammar, text, position, end, reference, rest);
    HeldStands(grammar, text, lastIndex, position, found);
    Associates(Flushed(text[lastIndex..position]), Piece(Mention(reference), text[position..end]), rest);
  }

  lemma Associates(flushed: seq<Piece>, first: Piece, rest: seq<Piece>)
    ensures flushed + [first] + rest == flushed + ([first] + rest)
  {
  }

  /** The pieces the parser makes stand for the stretches of text behind them. */
  lemma {:induction false} PiecesStand(grammar: Grammar, text: string, lastIndex: nat, position: nat)
    requires grammar.Lawful() && lastIndex <= position <= |text| && Passes(grammar, text, lastIndex, position)
    ensures StandFor(grammar, text, lastIndex, Pieces(grammar, text, lastIndex, position))
    decreases |text| - position
  {
    if position == |text| {
      HeldStands(grammar, text, lastIndex, position, []);
      assert text[lastIndex..position] == text[lastIndex..];
      assert Flushed(text[lastIndex..]) + [] == Flushed(text[lastIndex..]);
      return;
    }
    var found := grammar.Find(text[position..]);
    var end := if found.None? then position + 1 else position + found.value.length;
    if found.None? || found.value.reference.None? {
      PassesSnoc(grammar, text, lastIndex, position, end);
      PiecesStand(grammar, text, lastIndex, end);
      PiecesSkip(grammar, text, lastIndex, position, end);
      return;
    }
    PiecesStand(grammar, text, end, end);
    PiecesOfFound(grammar, text, lastIndex, position, end, found.value.reference.value);
    JoinedStand(grammar, text, lastIndex, position, end, found.value.reference.value,
                Pieces(grammar, text, end, end), Pieces(grammar, text, lastIndex, position));
  }

  /** What is passed over is held as text. */
  lemma {:induction false} PassedIsHeld(grammar: Grammar, text: string, lastIndex: nat, position: nat, end: nat)
    requires grammar.Lawful() && lastIndex <= position <= end <= |text| && Passes(grammar, text, position, end)
    ensures Pieces(grammar, text, lastIndex, position) == Pieces(grammar, text, lastIndex, end)
    decreases end - position
  {
    if position < end {
      var found := grammar.Find(text[position..]);
      var next := if found.None? then position + 1 else position + found.value.length;
      PiecesSkip(grammar, text, lastIndex, position, next);
      PassedIsHeld(grammar, text, lastIndex, next, end);
    }
  }

  lemma TextFirst(grammar: Grammar, text: string, position: nat, pieces: seq<Piece>)
    requires grammar.Lawful() && position <= |text| && pieces != [] && pieces[0].token.Text?
    requires Stands(grammar, text, position, pieces[0])
    requires var end := position + |pieces[0].source|;
             Pieces(grammar, text, position, end) == Flushed(text[position..end]) + pieces[1..]
    ensures Pieces(grammar, text, position, position) == Flushed(text[position..position]) + pieces
  {
    NothingHeld(text, position, pieces);
    PassedIsHeld(grammar, text, position, position, position + |pieces[0].source|);
    assert Flushed(pieces[0].source) == [pieces[0]];
    assert [pieces[0]] + pieces[1..] == pieces;
  }

  lemma MentionStands(grammar: Grammar, text: string, lastIndex: nat, position: nat, piece: Piece)
    requires grammar.Lawful() && lastIndex <= position <= |text| && piece.token.Mention?
    requires Stands(grammar, text, position, piece)
    ensures var end := position + |piece.source|;
            end <= |text| && Pieces(grammar, text, lastIndex, position)
                             == Flushed(text[lastIndex..position]) + [piece] + Pieces(grammar, text, end, end)
  {
    PiecesOfFound(grammar, text, lastIndex, position, position + |piece.source|, piece.token.reference);
  }

  /** Nothing is held right after a reference. */
  lemma ReferenceFirst(flushed: seq<Piece>, text: string, end: nat, pieces: seq<Piece>, rest: seq<Piece>)
    requires pieces != [] && end <= |text| && rest == Flushed(text[end..end]) + pieces[1..]
    ensures flushed + [pieces[0]] + rest == flushed + pieces
  {
    NothingHeld(text, end, pieces[1..]);
  }

  lemma NothingHeld(text: string, position: nat, pieces: seq<Piece>)
    requires position <= |text|
    ensures Flushed(text[position..position]) + pieces == pieces
  {
  }

  lemma NoneStands(grammar: Grammar, text: string, lastIndex: nat)
    requires grammar.Lawful() && lastIndex <= |text|
    ensures Pieces(grammar, text, lastIndex, |text|) == Flushed(text[lastIndex..|text|]) + []
  {
    assert text[lastIndex..|text|] == text[lastIndex..];
    assert Flushed(text[lastIndex..]) + [] == Flushed(text[lastIndex..]);
  }

  /** Pieces that stand for a text are found in it, one by one; no text may follow text that is still held. */
  lemma {:induction false} StandingPiecesAreFound(
      grammar: Grammar, text: string, lastIndex: nat, position: nat, pieces: seq<Piece>)
    requires grammar.Lawful() && lastIndex <= position <= |text| && StandFor(grammar, text, position, pieces)
    requires lastIndex < position && pieces != [] ==> pieces[0].token.Mention?
    ensures Pieces(grammar, text, lastIndex, position) == Flushed(text[lastIndex..position]) + pieces
    decreases |pieces|
  {
    if pieces == [] {
      NoneStands(grammar, text, lastIndex);
      return;
    }
    var end := position + |pieces[0].source|;
    if pieces[0].token.Mention? {
      StandingPiecesAreFound(grammar, text, end, end, pieces[1..]);
      MentionStands(grammar, text, lastIndex, position, pieces[0]);
      ReferenceFirst(Flushed(text[lastIndex..position]), text, end, pieces, Pieces(grammar, text, end, end));
      return;
    }
    StandingPiecesAreFound(grammar, text, position, end, pieces[1..]);
    TextFirst(grammar, text, position, pieces);
  }

  /**
   * The pieces of a text are the one list whose tokens stand, in order, for all of it: texts as they are and
   * without a reference, mentions as what is found there.
   */
  lemma PiecesAreTheOnes(grammar: Grammar, text: string, pieces: seq<Piece>)
    requires grammar.Lawful()
    ensures Pieces(grammar, text, 0, 0) == pieces <==> StandFor(grammar, text, 0, pieces)
  {
    PiecesStand(grammar, text, 0, 0);
    if StandFor(grammar, text, 0, pieces) {
      StandingPiecesAreFound(grammar, text, 0, 0, pieces);
      NothingHeld(text, 0, pieces);
    }
  }

  /** So the tokens that are returned stand for all of the text, and the stretches behind them make it up. */
  lemma ParsingIsLossless(grammar: Grammar, text: string)
    requires grammar.Lawful() && ParsedWith(grammar, text).Some?
    ensures exists pieces ::
              Tokens(pieces) == ParsedWith(grammar, text).value
              && StandFor(grammar, text, 0, pieces) && Sources(pieces) == text
  {
    var pieces := Pieces(grammar, text, 0, 0);
    PiecesAreTheOnes(grammar, text, pieces);
    ParsingLosesNothing(grammar, text, 0, 0);
    assert Tokens(pieces) == ParsedWith(grammar, text).value;
    assert text[0..] == text;
  }

  // --- Round trip ------------------------------------------------------------------------------

  /**
   * Tokens as the parser makes them, printed into a text from a position on: texts are not empty, not
   * adjacent, and where they are they show no reference.
   */
  ghost predicate LegalIn(grammar: Grammar, text: string, from: nat, tokens: seq<Token>)
    requires grammar.Lawful()
    decreases |tokens|
  {
    tokens == []
    || (var end := from + |grammar.Print(tokens[0])|;
        && grammar.IsLegal(tokens[0])
        && (tokens[0].Text? && |tokens| > 1 ==> tokens[1].Mention?)
        && (tokens[0].Text? ==> end <= |text| && Passes(grammar, text, from, end))
        && LegalIn(grammar, text, end, tokens[1..]))
  }

  ghost predicate LegalAll(grammar: Grammar, tokens: seq<Token>)
    requires grammar.Lawful()
  {
    LegalIn(grammar, grammar.PrintAll(tokens), 0, tokens)
  }

  lemma {:induction false} LabelEnds(caption: string, rest: string)
    requires forall i :: 0 <= i < |caption| ==> !EndsLabel(caption[i])
    requires rest != "" && EndsLabel(rest[0])
    ensures LabelLength(caption + rest) == |caption|
  {
    if caption == "" {
      assert caption + rest == rest;
    } else {
      assert (caption + rest)[1..] == caption[1..] + rest;
      LabelEnds(caption[1..], rest);
    }
  }

  lemma {:induction false} PayloadEnds(payload: string, rest: string)
    requires forall i :: 0 <= i < |payload| ==> !EndsPayload(payload[i])
    requires rest != "" && EndsPayload(rest[0])
    ensures PayloadLength(payload + rest) == |payload|
  {
    if payload == "" {
      assert payload + rest == rest;
    } else {
      assert (payload + rest)[1..] == payload[1..] + rest;
      PayloadEnds(payload[1..], rest);
    }
  }

  lemma SchemeMatches(schemes: Schemes, scheme: Scheme, rest: string)
    requires schemes.Distinct()
    ensures MatchScheme(schemes, schemes.Text(scheme) + "://" + rest) == Some(scheme)
  {
    var s := schemes.Text(scheme) + "://" + rest;
    assert schemes.Text(scheme) + "://" <= s;
    if scheme.WorkspaceFileScheme? {
      var i :| 0 <= i < |schemes.extensionSource| && i < |schemes.workspaceFile|
               && schemes.extensionSource[i] != schemes.workspaceFile[i];
      assert s[i] == schemes.workspaceFile[i];
      assert (schemes.extensionSource + "://")[i] == schemes.extensionSource[i];
    }
  }

  predicate LegalPayload(payload: string) {
    payload != "" && forall i :: 0 <= i < |payload| ==> !EndsPayload(payload[i])
  }

  lemma TargetMatches(schemes: Schemes, scheme: Scheme, payload: string, rest: string)
    requires schemes.Distinct() && LegalPayload(payload)
    ensures MatchTarget(schemes, schemes.Text(scheme) + "://" + (payload + (")" + rest)))
         == Some(Target(scheme, payload, |schemes.Text(scheme)| + 3 + |payload| + 1))
  {
    var tail := ")" + rest;
    var s := schemes.Text(scheme) + "://" + (payload + tail);
    SchemeMatches(schemes, scheme, payload + tail);
    assert s[|schemes.Text(scheme)| + 3..] == payload + tail;
    PayloadEnds(payload, tail);
    assert (payload + tail)[..|payload|] == payload && (payload + tail)[|payload|] == ')';
  }

  /** A link opened up where the pattern looks. */
  lemma LinkShape(schemes: Schemes, caption: string, scheme: Scheme, payload: string, rest: string)
    requires |caption| >= 2 && caption[0] == '@'
    ensures var s := Link(schemes, caption, scheme, payload) + rest;
            var uri := schemes.Text(scheme) + "://" + (payload + (")" + rest));
            |s| >= 2 && s[..2] == "[@" && s[2..] == caption[1..] + ("](" + uri)
  {
    BracketShape(caption, schemes.Text(scheme) + "://", payload, rest);
  }

  lemma BracketShape(caption: string, scheme: string, payload: string, rest: string)
    requires |caption| >= 2 && caption[0] == '@'
    ensures var s := "[" + caption + "](" + (scheme + payload) + ")" + rest;
            |s| >= 2 && s[..2] == "[@" && s[2..] == caption[1..] + ("](" + (scheme + (payload + (")" + rest))))
  {
    var s := "[" + caption + "](" + (scheme + payload) + ")" + rest;
    assert s == "[@" + (caption[1..] + ("](" + (scheme + (payload + (")" + rest)))));
  }

  lemma MatchOpens(schemes: Schemes, s: string, inner: string, uri: string)
    requires |s| >= 2 && s[..2] == "[@" && s[2..] == inner + ("](" + uri)
    requires inner != "" && forall i :: 0 <= i < |inner| ==> !EndsLabel(inner[i])
    ensures MatchHere(schemes, s)
         == if MatchTarget(schemes, uri).None? then None else Some(Match("@" + inner, MatchTarget(schemes, uri).value))
  {
    LabelEnds(inner, "](" + uri);
    var n := |inner|;
    assert s[2 + n..] == s[2..][n..] == "](" + uri;
    assert s[2 + n..][2..] == uri;
    assert s[1..2 + n] == "@" + s[2..][..n];
  }

  /** A link with a legal label and payload is found where it starts, as it was printed. */
  lemma LinkMatches(schemes: Schemes, caption: string, scheme: Scheme, payload: string, rest: string)
    requires schemes.Distinct() && LegalLabel(caption) && LegalPayload(payload)
    ensures MatchHere(schemes, Link(schemes, caption, scheme, payload) + rest)
         == Some(Match(caption, Target(scheme, payload, |schemes.Text(scheme)| + 3 + |payload| + 1)))
  {
    LinkShape(schemes, caption, scheme, payload, rest);
    TargetMatches(schemes, scheme, payload, rest);
    MatchOpens(schemes, Link(schemes, caption, scheme, payload) + rest, caption[1..],
               schemes.Text(scheme) + "://" + (payload + (")" + rest)));
    assert "@" + caption[1..] == caption;
  }

  lemma PayloadCharsStay(s: string)
    requires forall i :: 0 <= i < |s| ==> IsPayloadChar(s[i])
    ensures forall i :: 0 <= i < |s| ==> !EndsPayload(s[i])
    ensures Free(s, '/')
  {
  }

  /** An encoded name is legal in a payload and decodes to the name. */
  lemma NameReadsBack(name: string)
    requires name != ""
    ensures LegalPayload(EncodePayload(name)) && Free(EncodePayload(name), '/')
    ensures DecodeComponent(EncodePayload(name)) == Some(name)
  {
    PayloadAlphabet(name);
    PayloadCharsStay(EncodePayload(name));
    PayloadRoundTrip(name);
  }

  lemma TwoPieces(first: string, second: string)
    requires Free(first, '/') && Free(second, '/')
    ensures Split(first + "/" + second, '/') == [first, second]
  {
    SplitPiece(first, '/', second);
    SplitFree(second, '/');
    assert first + ['/'] + second == first + "/" + second;
  }

  lemma ExtensionReadsBack(caption: string, extensionName: string, sourceId: string)
    requires extensionName != "" && sourceId != ""
    ensures LegalPayload(ExtensionPayload(extensionName, sourceId))
    ensures ParseExtensionSource(caption, ExtensionPayload(extensionName, sourceId))
         == Some(ExtensionSource(caption, extensionName, sourceId))
  {
    NameReadsBack(extensionName);
    NameReadsBack(sourceId);
    TwoPieces(EncodePayload(extensionName), EncodePayload(sourceId));
  }

  /** The payload of a reference with non-empty names is legal, and parses back to it. */
  lemma PayloadReadsBack(reference: Reference)
    requires Legal(reference)
    ensures var payload := PayloadOf(reference);
            LegalPayload(payload)
            && ParseReference(reference.caption, SchemeOf(reference), payload) == Some(reference)
  {
    match reference
    case WorkspaceFile(_, path) => NameReadsBack(path);
    case ExtensionSource(caption, extensionName, sourceId) => ExtensionReadsBack(caption, extensionName, sourceId);
  }

  /** A grammar that finds every printed legal reference, and nothing where no bracket opens. */
  ghost predicate ReadsLinks(grammar: Grammar) {
    && grammar.Lawful()
    && (forall s: string {:trigger grammar.Find(s)} :: s != "" && s[0] != '[' ==> grammar.Find(s).None?)
    && (forall reference, rest {:trigger FindsLink(grammar, reference, rest)} ::
          grammar.IsLegal(Mention(reference)) ==> FindsLink(grammar, reference, rest))
  }

  ghost predicate FindsLink(grammar: Grammar, reference: Reference, rest: string) {
    var link := grammar.Print(Mention(reference));
    grammar.Find(link + rest) == Some(Found(|link|, Some(reference)))
  }

  lemma LinkLength(schemes: Schemes, caption: string, scheme: Scheme, payload: string)
    ensures |Link(schemes, caption, scheme, payload)| == |caption| + 3 + (|schemes.Text(scheme)| + 3 + |payload| + 1)
  {
  }

  lemma LinkIsFound(schemes: Schemes, caption: string, scheme: Scheme, payload: string, rest: string)
    requires schemes.Distinct() && LegalLabel(caption) && LegalPayload(payload)
    ensures var link := Link(schemes, caption, scheme, payload);
            FindReference(schemes, link + rest) == Some(Found(|link|, ParseReference(caption, scheme, payload)))
  {
    LinkMatches(schemes, caption, scheme, payload, rest);
    LinkLength(schemes, caption, scheme, payload);
  }

  lemma ReferenceIsFound(schemes: Schemes, reference: Reference, rest: string)
    requires schemes.Distinct() && Legal(reference)
    ensures FindReference(schemes, Printed(schemes, reference) + rest)
         == Some(Found(|Printed(schemes, reference)|, Some(reference)))
  {
    PayloadReadsBack(reference);
    LinkIsFound(schemes, reference.caption, SchemeOf(reference), PayloadOf(reference), rest);
  }

  lemma NoBracketNoReference(schemes: Schemes, s: string)
    requires s != "" && s[0] != '['
    ensures FindReference(schemes, s).None?
  {
    assert !("[@" <= s);
  }

  lemma GrammarReadsLinks(schemes: Schemes)
    requires schemes.Distinct()
    ensures ReadsLinks(GrammarOf(schemes))
  {
    var grammar := GrammarOf(schemes);
    forall s: string | s != "" && s[0] != '[' ensures grammar.Find(s).None? {
      NoBracketNoReference(schemes, s);
    }
    forall reference, rest | grammar.IsLegal(Mention(reference)) ensures FindsLink(grammar, reference, rest) {
      ReferenceIsFound(schemes, reference, rest);
    }
  }

  lemma ComposerSchemesAreDistinct()
    ensures ComposerSchemes().Distinct()
  {
    assert ComposerSchemes().extensionSource[7] == 'e' && ComposerSchemes().workspaceFile[7] == 'w';
  }

  /** A stretch without an opening bracket shows no reference. */
  lemma {:induction false} PlainTextPasses(grammar: Grammar, text: string, from: nat, end: nat)
    requires ReadsLinks(grammar) && from <= end <= |text|
    requires forall i :: from <= i < end ==> text[i] != '['
    ensures Passes(grammar, text, from, end)
    decreases end - from
  {
    if from < end {
      assert text[from..][0] == text[from];
      PlainTextPasses(grammar, text, from + 1, end);
    }
  }

  lemma Splits(text: string, position: nat, first: string, rest: string)
    requires position <= |text| && text[position..] == first + rest
    ensures var end := position + |first|;
            end <= |text| && text[position..end] == first && text[end..] == rest
  {
    var end := position + |first|;
    assert end + |rest| == |text|;
    assert text[position..end] == text[position..][..|first|] == first;
    assert text[end..] == text[position..][|first|..] == rest;
  }

  lemma MentionIsFound(grammar: Grammar, reference: Reference, rest: string)
    requires ReadsLinks(grammar) && grammar.IsLegal(Mention(reference))
    ensures var link := grammar.Print(Mention(reference));
            grammar.Find(link + rest) == Some(Found(|link|, Some(reference)))
  {
    assert FindsLink(grammar, reference, rest);
  }

  function PiecesOf(grammar: Grammar, tokens: seq<Token>): seq<Piece> {
    if tokens == [] then [] else [Piece(tokens[0], grammar.Print(tokens[0]))] + PiecesOf(grammar, tokens[1..])
  }

  lemma TokensCons(first: Piece, rest: seq<Piece>)
    ensures Tokens([first] + rest) == [first.token] + Tokens(rest)
  {
  }

  lemma {:induction false} PiecesOfTokens(grammar: Grammar, tokens: seq<Token>)
    ensures Tokens(PiecesOf(grammar, tokens)) == tokens
  {
    if tokens != [] {
      PiecesOfTokens(grammar, tokens[1..]);
      TokensCons(Piece(tokens[0], grammar.Print(tokens[0])), PiecesOf(grammar, tokens[1..]));
    }
  }

  /** Legal tokens stand for what is printed for them. */
  lemma {:induction false} LegalTokensStand(grammar: Grammar, text: string, from: nat, tokens: seq<Token>)
    requires ReadsLinks(grammar) && LegalIn(grammar, text, from, tokens)
    requires from <= |text| && text[from..] == grammar.PrintAll(tokens)
    ensures StandFor(grammar, text, from, PiecesOf(grammar, tokens))
    decreases |tokens|
  {
    if tokens != [] {
      LegalFirstStands(grammar, text, from, tokens);
      LegalTokensStand(grammar, text, from + |grammar.Print(tokens[0])|, tokens[1..]);
      FirstStands(grammar, text, from, tokens);
    }
  }

  lemma LegalFirstStands(grammar: Grammar, text: string, from: nat, tokens: seq<Token>)
    requires ReadsLinks(grammar) && tokens != [] && LegalIn(grammar, text, from, tokens)
    requires from <= |text| && text[from..] == grammar.PrintAll(tokens)
    ensures Stands(grammar, text, from, Piece(tokens[0], grammar.Print(tokens[0])))
    ensures var end := from + |grammar.Print(tokens[0])|;
            end <= |text| && text[end..] == grammar.PrintAll(tokens[1..])
  {
    var token, rest := tokens[0], grammar.PrintAll(tokens[1..]);
    Splits(text, from, grammar.Print(token), rest);
    match token
    case Mention(reference) => LegalMentionStands(grammar, text, from, reference, rest);
    case Text(held) => LegalTextStands(grammar, text, from, held);
  }

  lemma LegalTextStands(grammar: Grammar, text: string, from: nat, held: string)
    requires grammar.Lawful() && held != "" && from + |held| <= |text| && text[from..from + |held|] == held
    requires Passes(grammar, text, from, from + |held|)
    ensures Stands(grammar, text, from, Piece(Text(held), held))
  {
  }

  lemma LegalMentionStands(grammar: Grammar, text: string, from: nat, reference: Reference, rest: string)
    requires ReadsLinks(grammar) && grammar.IsLegal(Mention(reference))
    requires from <= |text| && text[from..] == grammar.Print(Mention(reference)) + rest
    ensures Stands(grammar, text, from, Piece(Mention(reference), grammar.Print(Mention(reference))))
  {
    Splits(text, from, grammar.Print(Mention(reference)), rest);
    MentionIsFound(grammar, reference, rest);
  }

  lemma FirstStands(grammar: Grammar, text: string, from: nat, tokens: seq<Token>)
    requires grammar.Lawful() && tokens != [] && from <= |text|
    requires Stands(grammar, text, from, Piece(tokens[0], grammar.Print(tokens[0])))
    requires tokens[0].Text? && |tokens| > 1 ==> tokens[1].Mention?
    requires StandFor(grammar, text, from + |grammar.Print(tokens[0])|, PiecesOf(grammar, tokens[1..]))
    ensures StandFor(grammar, text, from, PiecesOf(grammar, tokens))
  {
    var pieces := PiecesOf(grammar, tokens);
    assert pieces[1..] == PiecesOf(grammar, tokens[1..]);
    if |tokens| > 1 {
      assert pieces[1].token == tokens[1];
    }
  }

  /** Tokens whose texts have no opening bracket are legal if they alternate as the parser's do. */
  ghost predicate Plain(grammar: Grammar, tokens: seq<Token>) {
    tokens == []
    || (grammar.IsLegal(tokens[0])
        && (tokens[0].Text? ==> Free(tokens[0].text, '['))
        && (tokens[0].Text? && |tokens| > 1 ==> tokens[1].Mention?)
        && Plain(grammar, tokens[1..]))
  }

  lemma {:induction false} PlainTokensAreLegal(grammar: Grammar, text: string, from: nat, tokens: seq<Token>)
    requires ReadsLinks(grammar) && Plain(grammar, tokens)
    requires from <= |text| && text[from..] == grammar.PrintAll(tokens)
    ensures LegalIn(grammar, text, from, tokens)
    decreases |tokens|
  {
    if tokens != [] {
      var end := from + |grammar.Print(tokens[0])|;
      Splits(text, from, grammar.Print(tokens[0]), grammar.PrintAll(tokens[1..]));
      if tokens[0].Text? {
        forall i | from <= i < end ensures text[i] != '[' {
          assert text[i] == text[from..end][i - from];
        }
        PlainTextPasses(grammar, text, from, end);
      }
      PlainTokensAreLegal(grammar, text, end, tokens[1..]);
    }
  }

  lemma PrintedTokensAreParsed(grammar: Grammar, tokens: seq<Token>)
    requires ReadsLinks(grammar) && LegalAll(grammar, tokens)
    ensures ParsedWith(grammar, grammar.PrintAll(tokens))
         == if exists i :: 0 <= i < |tokens| && tokens[i].Mention? then Some(tokens) else None
  {
    var text, pieces := grammar.PrintAll(tokens), PiecesOf(grammar, tokens);
    assert text[0..] == text;
    LegalTokensStand(grammar, text, 0, tokens);
    PiecesAreTheOnes(grammar, text, pieces);
    PiecesOfTokens(grammar, tokens);
    MentionsAgree(pieces);
  }

  lemma PrintedReferenceIsParsed(grammar: Grammar, reference: Reference)
    requires ReadsLinks(grammar) && grammar.IsLegal(Mention(reference))
    ensures ParsedWith(grammar, grammar.Print(Mention(reference))) == Some([Mention(reference)])
  {
    var tokens := [Mention(reference)];
    assert grammar.PrintAll(tokens[1..]) == "";
    assert grammar.PrintAll(tokens) == grammar.Print(tokens[0]);
    assert tokens[0].Mention?;
    assert LegalIn(grammar, grammar.PrintAll(tokens), |grammar.Print(tokens[0])|, tokens[1..]);
    PrintedTokensAreParsed(grammar, tokens);
  }

  // --- Only legal references are found ---------------------------------------------------------

  lemma {:induction false} LabelRun(s: string)
    ensures LabelLength(s) <= |s| && forall i :: 0 <= i < LabelLength(s) ==> !EndsLabel(s[i])
  {
    if s != "" && !EndsLabel(s[0]) {
      LabelRun(s[1..]);
      assert forall i :: 1 <= i < LabelLength(s) ==> s[i] == s[1..][i - 1];
    }
  }

  lemma MatchedLabelIsLegal(schemes: Schemes, s: string)
    requires MatchHere(schemes, s).Some?
    ensures LegalLabel(MatchHere(schemes, s).value.caption)
  {
    LabelRun(s[2..]);
    var caption := MatchHere(schemes, s).value.caption;
    assert s[..2] == "[@";
    assert caption[0] == s[1];
    assert forall i :: 1 <= i < |caption| ==> caption[i] == s[2..][i - 1];
  }

  lemma {:induction false} PayloadRun(s: string)
    ensures PayloadLength(s) <= |s| && forall i :: 0 <= i < PayloadLength(s) ==> !EndsPayload(s[i])
  {
    if s != "" && !EndsPayload(s[0]) {
      PayloadRun(s[1..]);
      assert forall i :: 1 <= i < PayloadLength(s) ==> s[i] == s[1..][i - 1];
    }
  }

  lemma TargetIsPrinted(schemes: Schemes, s: string)
    requires MatchTarget(schemes, s).Some?
    ensures var target := MatchTarget(schemes, s).value;
            && LegalPayload(target.payload)
            && UriOf(schemes, target.scheme, target.payload) + ")" == s[..target.length]
  {
    var target := MatchTarget(schemes, s).value;
    var skipped := |schemes.Text(target.scheme)| + 3;
    var tail := s[skipped..];
    LengthsFit(tail);
    PayloadRun(tail);
    var m := PayloadLength(tail);
    assert s == s[..skipped] + tail && s[..skipped] == schemes.Text(target.scheme) + "://";
    assert tail[..m + 1] == target.payload + ")";
    assert s[..skipped + m + 1] == s[..skipped] + tail[..m + 1];
  }

  /**
   * The pattern matches at the start of a text exactly if a link stands there: a legal label, one of the schemes, and
   * a payload without white space or closing parenthesis.
   */
  lemma MatchIffLink(schemes: Schemes, s: string, found: Match)
    requires schemes.Distinct()
    ensures MatchHere(schemes, s) == Some(found)
       <==> && (exists name :: found.caption == "@" + name && name != "" && ']' !in name && '\n' !in name)
            && found.target.payload != "" && ')' !in found.target.payload
            && (forall c :: c in found.target.payload ==> !IsSpace(c))
            && found.target.length == |schemes.Text(found.target.scheme)| + 3 + |found.target.payload| + 1
            && Link(schemes, found.caption, found.target.scheme, found.target.payload) <= s
  {
    LabelIsLegalIff(found.caption);
    if && LegalLabel(found.caption) && LegalPayload(found.target.payload)
       && Link(schemes, found.caption, found.target.scheme, found.target.payload) <= s
    {
      LinkIsMatched(schemes, s, found.caption, found.target.scheme, found.target.payload);
    }
    if MatchHere(schemes, s) == Some(found) {
      MatchedIsPrinted(schemes, s);
    }
  }

  lemma LabelIsLegalIff(caption: string)
    ensures LegalLabel(caption)
       <==> exists name :: caption == "@" + name && name != "" && ']' !in name && '\n' !in name
  {
    if LegalLabel(caption) {
      assert caption == "@" + caption[1..];
    }
    forall name | caption == "@" + name && name != "" && ']' !in name && '\n' !in name ensures LegalLabel(caption) {
      assert forall i :: 1 <= i < |caption| ==> caption[i] == name[i - 1];
    }
  }

  lemma LinkIsMatched(schemes: Schemes, s: string, caption: string, scheme: Scheme, payload: string)
    requires schemes.Distinct() && LegalLabel(caption) && LegalPayload(payload)
    requires Link(schemes, caption, scheme, payload) <= s
    ensures MatchHere(schemes, s)
         == Some(Match(caption, Target(scheme, payload, |schemes.Text(scheme)| + 3 + |payload| + 1)))
  {
    var link := Link(schemes, caption, scheme, payload);
    LinkMatches(schemes, caption, scheme, payload, s[|link|..]);
    assert link + s[|link|..] == s;
  }

  lemma MatchedIsPrinted(schemes: Schemes, s: string)
    requires MatchHere(schemes, s).Some?
    ensures var found := MatchHere(schemes, s).value;
            && LegalLabel(found.caption) && LegalPayload(found.target.payload)
            && found.target.length == |schemes.Text(found.target.scheme)| + 3 + |found.target.payload| + 1
            && Link(schemes, found.caption, found.target.scheme, found.target.payload) <= s
  {
    MatchedLabelIsLegal(schemes, s);
    LengthsFit(s[2..]);
    var found, n := MatchHere(schemes, s).value, LabelLength(s[2..]);
    var uri := s[2 + n..][2..];
    TargetIsPrinted(schemes, uri);
    LinkIsPrefix(s, found.caption, uri, UriOf(schemes, found.target.scheme, found.target.payload), n);
    TargetLength(schemes, uri);
  }

  lemma TargetLength(schemes: Schemes, s: string)
    requires MatchTarget(schemes, s).Some?
    ensures var target := MatchTarget(schemes, s).value;
            target.length == |schemes.Text(target.scheme)| + 3 + |target.payload| + 1
  {
    var target := MatchTarget(schemes, s).value;
    LengthsFit(s[|schemes.Text(target.scheme)| + 3..]);
  }

  lemma LinkIsPrefix(s: string, caption: string, rest: string, uri: string, n: nat)
    requires |s| >= n + 4 && "[@" <= s && "](" <= s[2 + n..] && rest == s[2 + n..][2..] && caption == s[1..2 + n]
    requires |uri| < |rest| && uri + ")" == rest[..|uri| + 1]
    ensures MarkdownLink(caption, uri) <= s
  {
    var link := MarkdownLink(caption, uri);
    assert |link| == n + 4 + |uri| + 1;
    forall i | 0 <= i < |link| ensures link[i] == s[i] {
      if n + 4 <= i {
        assert rest[i - n - 4] == s[i] && link[i] == (uri + ")")[i - n - 4];
      } else if n + 2 <= i {
        assert s[i] == s[2 + n..][i - n - 2] && link[i] == "]("[i - n - 2];
      }
    }
  }

  /** A link names a file exactly if its payload decodes to the path, which is not empty. */
  lemma WorkspaceFileIff(caption: string, payload: string, path: string)
    ensures ParseWorkspaceFile(caption, payload) == Some(WorkspaceFile(caption, path))
       <==> path != "" && DecodeComponent(payload) == Some(path)
  {
  }

  /**
   * The payload of an extension source is read up to its second slash: two parts that are not empty, each of which
   * decodes to a name that is not empty.
   */
  lemma ExtensionSourceIff(caption: string, payload: string, extensionName: string, sourceId: string)
    ensures ParseExtensionSource(caption, payload) == Some(ExtensionSource(caption, extensionName, sourceId))
       <==> extensionName != "" && sourceId != ""
            && exists first, second :: IsSplitInto(payload, first, second)
                 && DecodeComponent(first) == Some(extensionName) && DecodeComponent(second) == Some(sourceId)
  {
    var pieces := Split(payload, '/');
    SplitHead(payload, '/');
    if |pieces| > 1 {
      SplitsInto(payload);
    }
    forall first, second | IsSplitInto(payload, first, second)
      ensures |pieces| > 1 && pieces[0] == first && pieces[1] == second
    {
      SplitIntoPieces(payload, first, second);
    }
  }

  /** These are the parts of a text before its first slash, and from there to its second or its end. */
  predicate IsSplitInto(payload: string, first: string, second: string) {
    && Free(first, '/') && Free(second, '/')
    && first + "/" + second <= payload
    && (|first| + 1 + |second| == |payload| || payload[|first| + 1 + |second|] == '/')
  }

  lemma SplitsInto(payload: string)
    requires |Split(payload, '/')| > 1
    ensures IsSplitInto(payload, Split(payload, '/')[0], Split(payload, '/')[1])
  {
    var rest := SplitFirst(payload, '/');
    var more := UpToSlash(rest);
    TwoParts(payload, Split(payload, '/')[0], Split(rest, '/')[0], more);
  }

  lemma UpToSlash(s: string) returns (more: string)
    ensures Split(s, '/') != [] && Free(Split(s, '/')[0], '/')
    ensures s == Split(s, '/')[0] + more && (more == "" || more[0] == '/')
  {
    SplitHead(s, '/');
    more := "";
    if |Split(s, '/')| > 1 {
      var rest := SplitFirst(s, '/');
      more := ['/'] + rest;
    }
  }

  lemma TwoParts(payload: string, first: string, second: string, more: string)
    requires payload == first + ['/'] + (second + more)
    requires Free(first, '/') && Free(second, '/') && (more == "" || more[0] == '/')
    ensures IsSplitInto(payload, first, second)
  {
    assert payload == first + "/" + second + more;
  }

  lemma SplitIntoPieces(payload: string, first: string, second: string)
    requires IsSplitInto(payload, first, second)
    ensures |Split(payload, '/')| > 1 && Split(payload, '/')[0] == first && Split(payload, '/')[1] == second
  {
    var rest := payload[|first| + 1..];
    assert payload == first + ['/'] + rest;
    SplitPiece(first, '/', rest);
    if |first| + 1 + |second| == |payload| {
      assert rest == second;
      SplitFree(second, '/');
    } else {
      var more := payload[|first| + 1 + |second| + 1..];
      assert rest == second + ['/'] + more;
      SplitPiece(second, '/', more);
    }
  }

  lemma ParsedReferenceIsLegal(caption: string, scheme: Scheme, payload: string)
    requires LegalLabel(caption) && ParseReference(caption, scheme, payload).Some?
    ensures Legal(ParseReference(caption, scheme, payload).value)
  {
  }

  ghost predicate FindsLegal(grammar: Grammar) {
    grammar.Lawful() && forall s {:trigger grammar.Find(s)} :: FoundIsLegal(grammar, s)
  }

  ghost predicate FoundIsLegal(grammar: Grammar, s: string) {
    var found := grammar.Find(s);
    found.Some? && found.value.reference.Some? ==> grammar.IsLegal(Mention(found.value.reference.value))
  }

  lemma GrammarFindsLegal(schemes: Schemes)
    ensures FindsLegal(GrammarOf(schemes))
  {
    var grammar := GrammarOf(schemes);
    forall s ensures FoundIsLegal(grammar, s) {
      if MatchHere(schemes, s).Some? && FindReference(schemes, s).value.reference.Some? {
        var found := MatchHere(schemes, s).value;
        MatchedLabelIsLegal(schemes, s);
        ParsedReferenceIsLegal(found.caption, found.target.scheme, found.target.payload);
      }
    }
  }

  predicate LegalMentions(grammar: Grammar, pieces: seq<Piece>) {
    forall i :: 0 <= i < |pieces| && pieces[i].token.Mention? ==> grammar.IsLegal(pieces[i].token)
  }

  lemma LegalMentionsJoin(grammar: Grammar, held: string, mention: Piece, rest: seq<Piece>)
    requires grammar.IsLegal(mention.token) && LegalMentions(grammar, rest)
    ensures LegalMentions(grammar, Flushed(held) + [mention] + rest)
  {
  }

  lemma {:induction false} FoundMentionsAreLegal(grammar: Grammar, text: string, lastIndex: nat, position: nat)
    requires FindsLegal(grammar) && lastIndex <= position <= |text|
    ensures LegalMentions(grammar, Pieces(grammar, text, lastIndex, position))
    decreases |text| - position
  {
    if position < |text| {
      var found := grammar.Find(text[position..]);
      var end := if found.None? then position + 1 else position + found.value.length;
      assert FoundIsLegal(grammar, text[position..]);
      if found.None? || found.value.reference.None? {
        FoundMentionsAreLegal(grammar, text, lastIndex, end);
      } else {
        FoundMentionsAreLegal(grammar, text, end, end);
        LegalMentionsJoin(grammar, text[lastIndex..position],
                          Piece(Mention(found.value.reference.value), text[position..end]),
                          Pieces(grammar, text, end, end));
      }
    }
  }

  lemma ParsedMentionIsLegal(grammar: Grammar, text: string, reference: Reference)
    requires FindsLegal(grammar) && ParsedWith(grammar, text) == Some([Mention(reference)])
    ensures grammar.IsLegal(Mention(reference))
  {
    FoundMentionsAreLegal(grammar, text, 0, 0);
    var pieces := Pieces(grammar, text, 0, 0);
    assert Tokens(pieces)[0] == pieces[0].token;
  }

  lemma TailTokens(pieces: seq<Piece>)
    requires pieces != []
    ensures Tokens(pieces)[0] == pieces[0].token && Tokens(pieces)[1..] == Tokens(pieces[1..])
    ensures |pieces| > 1 ==> Tokens(pieces)[1] == pieces[1].token
  {
  }

  /** The first piece of a text that was printed is what was printed first. */
  lemma FirstPieceIsPrinted(grammar: Grammar, text: string, from: nat, token: Token, rest: string, piece: Piece)
    requires ReadsLinks(grammar) && FindsLegal(grammar) && from <= |text| && Stands(grammar, text, from, piece)
    requires piece.token == token && text[from..] == grammar.Print(token) + rest
    ensures grammar.IsLegal(token) && |piece.source| == |grammar.Print(token)|
  {
    if token.Mention? {
      assert FoundIsLegal(grammar, text[from..]);
      MentionIsFound(grammar, token.reference, rest);
    }
  }

  /** Tokens that are found in what is printed for them are legal. */
  lemma {:induction false} FoundTokensAreLegal(
      grammar: Grammar, text: string, from: nat, tokens: seq<Token>, pieces: seq<Piece>)
    requires ReadsLinks(grammar) && FindsLegal(grammar) && from <= |text| && StandFor(grammar, text, from, pieces)
    requires Tokens(pieces) == tokens && text[from..] == grammar.PrintAll(tokens)
    ensures LegalIn(grammar, text, from, tokens)
    decreases |tokens|
  {
    if tokens != [] {
      FirstFoundIsPrinted(grammar, text, from, tokens, pieces);
      FirstFoundIsLegal(grammar, text, from, tokens, pieces);
      FoundTokensAreLegal(grammar, text, from + |pieces[0].source|, tokens[1..], pieces[1..]);
    }
  }

  lemma FirstFoundIsPrinted(grammar: Grammar, text: string, from: nat, tokens: seq<Token>, pieces: seq<Piece>)
    requires ReadsLinks(grammar) && FindsLegal(grammar) && from <= |text| && StandFor(grammar, text, from, pieces)
    requires tokens != [] && Tokens(pieces) == tokens && text[from..] == grammar.PrintAll(tokens)
    ensures pieces != [] && pieces[0].token == tokens[0] && grammar.IsLegal(tokens[0])
    ensures |pieces[0].source| == |grammar.Print(tokens[0])|
    ensures var end := from + |pieces[0].source|;
            end <= |text| && text[end..] == grammar.PrintAll(tokens[1..])
  {
    TailTokens(pieces);
    FirstPieceIsPrinted(grammar, text, from, tokens[0], grammar.PrintAll(tokens[1..]), pieces[0]);
    Splits(text, from, grammar.Print(tokens[0]), grammar.PrintAll(tokens[1..]));
  }

  lemma FirstFoundIsLegal(grammar: Grammar, text: string, from: nat, tokens: seq<Token>, pieces: seq<Piece>)
    requires grammar.Lawful() && from <= |text| && StandFor(grammar, text, from, pieces)
    requires tokens != [] && pieces != [] && Tokens(pieces) == tokens
    ensures Tokens(pieces[1..]) == tokens[1..]
    ensures tokens[0].Text? && |tokens| > 1 ==> tokens[1].Mention?
    ensures var end := from + |pieces[0].source|;
            && end <= |text| && StandFor(grammar, text, end, pieces[1..])
            && (tokens[0].Text? ==> Passes(grammar, text, from, end))
  {
    TailTokens(pieces);
  }

  predicate AnyMention(tokens: seq<Token>) {
    exists i :: 0 <= i < |tokens| && tokens[i].Mention?
  }

  lemma ParsedTokensAreLegal(grammar: Grammar, tokens: seq<Token>)
    requires ReadsLinks(grammar) && FindsLegal(grammar)
    requires ParsedWith(grammar, grammar.PrintAll(tokens)) == Some(tokens)
    ensures LegalAll(grammar, tokens) && AnyMention(tokens)
  {
    var text := grammar.PrintAll(tokens);
    var pieces := Pieces(grammar, text, 0, 0);
    assert text[0..] == text;
    PiecesAreTheOnes(grammar, text, pieces);
    FoundTokensAreLegal(grammar, text, 0, tokens, pieces);
    MentionsAgree(pieces);
  }

  /**
   * Printed tokens, texts and references alike, parse back exactly if, and only if, they are as the parser
   * makes them and a reference is among them.
   */
  lemma TokensRoundTrip(tokens: seq<Token>)
    ensures LegalAll(ComposerGrammar(), tokens) && AnyMention(tokens)
       <==> Parsed(ComposerGrammar().PrintAll(tokens)) == Some(tokens)
  {
    ComposerSchemesAreDistinct();
    GrammarReadsLinks(ComposerSchemes());
    GrammarFindsLegal(ComposerSchemes());
    if LegalAll(ComposerGrammar(), tokens) && AnyMention(tokens) {
      PrintedTokensAreParsed(ComposerGrammar(), tokens);
    }
    if Parsed(ComposerGrammar().PrintAll(tokens)) == Some(tokens) {
      ParsedTokensAreLegal(ComposerGrammar(), tokens);
    }
  }

  /** In particular, tokens whose texts have no opening bracket do. */
  lemma PlainTokensRoundTrip(tokens: seq<Token>)
    requires Plain(ComposerGrammar(), tokens) && AnyMention(tokens)
    ensures Parsed(ComposerGrammar().PrintAll(tokens)) == Some(tokens)
  {
    var grammar := ComposerGrammar();
    ComposerSchemesAreDistinct();
    GrammarReadsLinks(ComposerSchemes());
    assert grammar.PrintAll(tokens)[0..] == grammar.PrintAll(tokens);
    PlainTokensAreLegal(grammar, grammar.PrintAll(tokens), 0, tokens);
    TokensRoundTrip(tokens);
  }

  /** A single printed reference parses back exactly if, and only if, its label and names are legal. */
  lemma ReferenceRoundTrip(reference: Reference)
    ensures Legal(reference) <==> Parsed(Printed(ComposerSchemes(), reference)) == Some([Mention(reference)])
  {
    if Legal(reference) {
      ComposerSchemesAreDistinct();
      GrammarReadsLinks(ComposerSchemes());
      PrintedReferenceIsParsed(ComposerGrammar(), reference);
    }
    if Parsed(Printed(ComposerSchemes(), reference)) == Some([Mention(reference)]) {
      GrammarFindsLegal(ComposerSchemes());
      ParsedMentionIsLegal(ComposerGrammar(), Printed(ComposerSchemes(), reference), reference);
    }
  }
}
