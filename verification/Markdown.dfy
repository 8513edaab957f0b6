/** Cutting assistant Markdown into narrative, code, diagram, diff and table spans. */
module MarkdownSpans {
  import opened Wrappers
  import opened JsText

  datatype Kind = Narrative | Code | Diff | Table | Mermaid

  datatype Span = Span(start: nat, end: nat, kind: Kind, language: Option<string>) {
    predicate Has(position: nat) {
      start <= position < end
    }
  }

  /** The regular expressions the projection asks of a line. */
  datatype LineTests = LineTests(fence: string -> Option<string>, closing: string -> bool, delimiter: string -> bool) {
    /** The language word of a line that opens a fence. */
    function Fence(line: string): Option<string> {
      fence(line)
    }

    predicate Closes(line: string) {
      closing(line)
    }

    predicate Delimits(line: string) {
      delimiter(line)
    }
  }

  // --- Lines -----------------------------------------------------------------------------------

  /** Where lines start in the first `n` characters. */
  function Offsets(text: string, n: nat): (offsets: seq<nat>)
    requires n <= |text|
    ensures offsets != []
  {
    if n == 0 then [0] else Offsets(text, n - 1) + if text[n - 1] == '\n' then [n] else []
  }

  predicate StartsLine(text: string, position: nat) {
    position == 0 || (position <= |text| && text[position - 1] == '\n')
  }

  predicate EndsLine(text: string, position: nat) {
    position == |text| || (0 < position < |text| && text[position - 1] == '\n')
  }

  ghost predicate AreOffsets(text: string, offsets: seq<nat>) {
    && offsets != [] && offsets[0] == 0
    && (forall k :: 0 <= k < |offsets| ==> StartsLine(text, offsets[k]) && offsets[k] <= |text|)
    && (forall j, k :: 0 <= j < k < |offsets| ==> offsets[j] < offsets[k])
  }

  lemma {:induction false} OffsetsStartLines(text: string, n: nat)
    requires n <= |text|
    ensures AreOffsets(text, Offsets(text, n))
    ensures forall k :: 0 <= k < |Offsets(text, n)| ==> Offsets(text, n)[k] <= n
  {
    if n > 0 {
      OffsetsStartLines(text, n - 1);
    }
  }

  /** Every start of a line is among the offsets. */
  lemma {:induction false} OffsetsFindLines(text: string, n: nat, position: nat)
    requires position <= n <= |text| && StartsLine(text, position)
    ensures position in Offsets(text, n)
  {
    if 0 < n && position < n {
      OffsetsFindLines(text, n - 1, position);
    }
  }

  function LineEnd(text: string, offsets: seq<nat>, line: nat): nat {
    if line + 1 < |offsets| then offsets[line + 1] else |text|
  }

  /** A line without the line break that ends it. */
  function Line(text: string, offsets: seq<nat>, line: nat): string
    requires AreOffsets(text, offsets) && line < |offsets|
  {
    WithoutBreak(text[offsets[line]..LineEnd(text, offsets, line)])
  }

  function WithoutBreak(s: string): string {
    if s != "" && s[|s| - 1] == '\n' then s[..|s| - 1] else s
  }

  function Lines(text: string, offsets: seq<nat>): (lines: seq<string>)
    requires AreOffsets(text, offsets)
    ensures |lines| == |offsets|
  {
    seq(|offsets|, k requires 0 <= k < |offsets| => Line(text, offsets, k))
  }

  function JoinLines(lines: seq<string>): string {
    if lines == [] then "" else if |lines| == 1 then lines[0] else lines[0] + "\n" + JoinLines(lines[1..])
  }

  /** The lines are the text: none has a line break, and joined by line breaks they are all of it. */
  lemma LinesMakeText(text: string)
    ensures var offsets := Offsets(text, |text|);
            AreOffsets(text, offsets)
            && (forall line :: line in Lines(text, offsets) ==> '\n' !in line)
            && JoinLines(Lines(text, offsets)) == text
  {
    OffsetsStartLines(text, |text|);
    var offsets := Offsets(text, |text|);
    forall k | 0 <= k < |offsets| ensures '\n' !in Line(text, offsets, k) {
      LineHasNoBreak(text, k);
    }
    JoinedFrom(text, 0);
    assert Lines(text, offsets)[0..] == Lines(text, offsets);
  }

  /** Up to the end of a line there is no break, and all but the last line end with one. */
  lemma LineHasNoBreak(text: string, k: nat)
    requires AreOffsets(text, Offsets(text, |text|)) && k < |Offsets(text, |text|)|
    ensures var offsets := Offsets(text, |text|);
            '\n' !in Line(text, offsets, k)
            && text[offsets[k]..LineEnd(text, offsets, k)]
               == Line(text, offsets, k) + if k + 1 < |offsets| then "\n" else ""
  {
    var offsets := Offsets(text, |text|);
    var start, end := offsets[k], LineEnd(text, offsets, k);
    var slice := text[start..end];
    forall i | 0 <= i < |slice| && slice[i] == '\n' ensures i == |slice| - 1 && k + 1 < |offsets| {
      OffsetsFindLines(text, |text|, start + i + 1);
      var j :| 0 <= j < |offsets| && offsets[j] == start + i + 1;
      assert k < j;
    }
    if k + 1 < |offsets| {
      assert slice[|slice| - 1] == '\n';
      assert slice == slice[..|slice| - 1] + "\n";
    }
  }

  lemma {:induction false} JoinedFrom(text: string, k: nat)
    requires AreOffsets(text, Offsets(text, |text|)) && k < |Offsets(text, |text|)|
    ensures var offsets := Offsets(text, |text|);
            JoinLines(Lines(text, offsets)[k..]) == text[offsets[k]..]
    decreases |Offsets(text, |text|)| - k
  {
    var offsets := Offsets(text, |text|);
    var lines, end := Lines(text, offsets), LineEnd(text, offsets, k);
    LineHasNoBreak(text, k);
    assert lines[k..][0] == Line(text, offsets, k) && lines[k..][1..] == lines[k + 1..];
    assert text[offsets[k]..] == text[offsets[k]..end] + text[end..];
    if k + 1 < |offsets| {
      JoinedFrom(text, k + 1);
    }
  }

  // --- Blocks of lines -------------------------------------------------------------------------

  /** Lines `first` to `last` of a fenced block, or of a table. */
  datatype Block = Block(first: nat, last: nat, fence: Option<string>) {
    predicate Has(line: nat) {
      first <= line <= last
    }
  }

  /** The first line at or after `line` that closes a fence; the number of lines if there is none. */
  function ClosingLine(tests: LineTests, lines: seq<string>, line: nat): (closing: nat)
    requires line <= |lines|
    ensures line <= closing <= |lines|
    ensures forall k :: line <= k < closing ==> !tests.Closes(lines[k])
    ensures closing < |lines| ==> tests.Closes(lines[closing])
    decreases |lines| - line
  {
    if line < |lines| && !tests.Closes(lines[line]) then ClosingLine(tests, lines, line + 1) else line
  }

  predicate IsRow(line: string) {
    '|' in Trim(line)
  }

  /** The first line at or after `line` that is not a row. */
  function RowsEnd(lines: seq<string>, line: nat): (end: nat)
    requires line <= |lines|
    ensures line <= end <= |lines|
    ensures forall k :: line <= k < end ==> IsRow(lines[k])
    ensures end < |lines| ==> !IsRow(lines[end])
    decreases |lines| - line
  {
    if line < |lines| && IsRow(lines[line]) then RowsEnd(lines, line + 1) else line
  }

  predicate HeadsTable(tests: LineTests, lines: seq<string>, line: nat) {
    line + 1 < |lines| && '|' in lines[line] && tests.Delimits(lines[line + 1])
  }

  predicate OpensFence(tests: LineTests, lines: seq<string>, line: nat) {
    line < |lines| && tests.Fence(lines[line]).Some?
  }

  predicate NeverCloses(tests: LineTests, lines: seq<string>, line: nat)
    requires line < |lines|
  {
    ClosingLine(tests, lines, line + 1) == |lines|
  }

  /** The block that starts at a line, if one does. */
  function BlockAt(tests: LineTests, lines: seq<string>, line: nat): (block: Option<Block>)
    requires line < |lines|
    ensures block.Some? ==> block.value.first == line < block.value.last < |lines|
  {
    if OpensFence(tests, lines, line) then
      if NeverCloses(tests, lines, line) then None
      else Some(Block(line, ClosingLine(tests, lines, line + 1), tests.Fence(lines[line])))
    else if HeadsTable(tests, lines, line) then Some(Block(line, RowsEnd(lines, line + 2) - 1, None))
    else None
  }

  /** The blocks from a line on; a fence that never closes ends the search. */
  function Blocks(tests: LineTests, lines: seq<string>, line: nat): seq<Block>
    decreases |lines| - line
  {
    if line >= |lines| then []
    else
      var block := BlockAt(tests, lines, line);
      if block.Some? then [block.value] + Blocks(tests, lines, block.value.last + 1)
      else if OpensFence(tests, lines, line) then []
      else Blocks(tests, lines, line + 1)
  }

  // --- What the blocks are ---------------------------------------------------------------------

  /** A closed fence up to the first line that closes it, or a table with all its rows. */
  ghost predicate IsBlock(tests: LineTests, lines: seq<string>, block: Block) {
    && block.first < block.last < |lines|
    && if block.fence.Some? then
         && tests.Fence(lines[block.first]) == block.fence
         && tests.Closes(lines[block.last])
         && forall k :: block.first < k < block.last ==> !tests.Closes(lines[k])
       else
         && !OpensFence(tests, lines, block.first)
         && HeadsTable(tests, lines, block.first)
         && (forall k :: block.first + 2 <= k <= block.last ==> IsRow(lines[k]))
         && (block.last + 1 < |lines| ==> !IsRow(lines[block.last + 1]))
  }

  /** Blocks one after the other, all of them between two lines. */
  ghost predicate AreBlocks(tests: LineTests, lines: seq<string>, from: nat, blocks: seq<Block>)
    decreases |blocks|
  {
    blocks == []
    || (from <= blocks[0].first && IsBlock(tests, lines, blocks[0])
        && AreBlocks(tests, lines, blocks[0].last + 1, blocks[1..]))
  }

  lemma {:induction false} AreBlocksFrom(
      tests: LineTests, lines: seq<string>, from: nat, later: nat, blocks: seq<Block>)
    requires from <= later && AreBlocks(tests, lines, later, blocks)
    ensures AreBlocks(tests, lines, from, blocks)
  {
  }

  lemma {:induction false} BlocksAreBlocks(tests: LineTests, lines: seq<string>, line: nat)
    ensures AreBlocks(tests, lines, line, Blocks(tests, lines, line))
    decreases |lines| - line
  {
    if line < |lines| {
      var block := BlockAt(tests, lines, line);
      if block.Some? {
        BlocksAreBlocks(tests, lines, block.value.last + 1);
        assert Blocks(tests, lines, line)[1..] == Blocks(tests, lines, block.value.last + 1);
      } else if !OpensFence(tests, lines, line) {
        BlocksAreBlocks(tests, lines, line + 1);
        AreBlocksFrom(tests, lines, line, line + 1, Blocks(tests, lines, line + 1));
      }
    }
  }

  predicate InBlock(blocks: seq<Block>, line: nat) {
    blocks != [] && (blocks[0].Has(line) || InBlock(blocks[1..], line))
  }

  /** Nothing is missed: outside the blocks a fence never closes, and a table head comes after such a fence. */
  lemma {:induction false} NothingMissed(tests: LineTests, lines: seq<string>, from: nat, line: nat)
    requires from <= line < |lines| && !InBlock(Blocks(tests, lines, from), line)
    ensures OpensFence(tests, lines, line) ==> NeverCloses(tests, lines, line)
    ensures HeadsTable(tests, lines, line) ==>
              exists k :: from <= k <= line && OpensFence(tests, lines, k) && NeverCloses(tests, lines, k)
    decreases |lines| - from
  {
    var blocks := Blocks(tests, lines, from);
    var block := BlockAt(tests, lines, from);
    if block.Some? {
      assert blocks[1..] == Blocks(tests, lines, block.value.last + 1);
      NothingMissed(tests, lines, block.value.last + 1, line);
    } else if OpensFence(tests, lines, from) {
      NeverClosesLater(tests, lines, from, line);
    } else if from < line {
      NothingMissed(tests, lines, from + 1, line);
    }
  }

  lemma NeverClosesLater(tests: LineTests, lines: seq<string>, from: nat, line: nat)
    requires from <= line < |lines| && NeverCloses(tests, lines, from)
    ensures NeverCloses(tests, lines, line)
  {
    var none := ClosingLine(tests, lines, from + 1);
    assert forall k :: from + 1 <= k < none ==> !tests.Closes(lines[k]);
  }

  // --- Spans -----------------------------------------------------------------------------------

  function FenceKind(language: Option<string>): Kind {
    if language == Some("mermaid") then Mermaid else if language == Some("diff") then Diff else Code
  }

  function Language(word: string): Option<string> {
    if word == "" then None else Some(word)
  }

  function SpanOf(text: string, offsets: seq<nat>, block: Block): Span
    requires block.first < |offsets|
  {
    var end := LineEnd(text, offsets, block.last);
    if block.fence.None? then Span(offsets[block.first], end, Table, None)
    else
      var language := Language(block.fence.value);
      Span(offsets[block.first], end, FenceKind(language), language)
  }

  function RichSpans(text: string, offsets: seq<nat>, blocks: seq<Block>): seq<Span> {
    if blocks == [] || blocks[0].first >= |offsets| then []
    else [SpanOf(text, offsets, blocks[0])] + RichSpans(text, offsets, blocks[1..])
  }

  function NarrativeSpan(text: string, start: nat, end: nat): seq<Span>
    requires start <= end <= |text|
  {
    if Trim(text[start..end]) != "" then [Span(start, end, Narrative, None)] else []
  }

  /** Spans one after the other, within a stretch of the text. */
  predicate InOrder(spans: seq<Span>, from: nat, to: nat) {
    from <= to
    && (spans == [] || (from <= spans[0].start < spans[0].end <= to && InOrder(spans[1..], spans[0].end, to)))
  }

  /** The spans of the text from `cursor` on, with narrative between those given. */
  function Assembled(text: string, rich: seq<Span>, cursor: nat): seq<Span>
    requires InOrder(rich, cursor, |text|)
  {
    if rich == [] then NarrativeSpan(text, cursor, |text|)
    else NarrativeSpan(text, cursor, rich[0].start) + [rich[0]] + Assembled(text, rich[1..], rich[0].end)
  }

  ghost predicate OnLines(text: string, span: Span) {
    StartsLine(text, span.start) && EndsLine(text, span.end)
  }

  lemma SpanOfIsOnLines(text: string, offsets: seq<nat>, block: Block)
    requires AreOffsets(text, offsets) && block.first < block.last < |offsets|
    ensures var span := SpanOf(text, offsets, block);
            OnLines(text, span) && span.start < span.end <= |text| && span.end == LineEnd(text, offsets, block.last)
  {
    assert offsets[block.first] < offsets[block.last];
    if block.last + 1 < |offsets| {
      assert offsets[block.last] < offsets[block.last + 1];
    }
  }

  lemma {:induction false} RichInOrder(
    tests: LineTests, text: string, offsets: seq<nat>, lines: seq<string>, blocks: seq<Block>, from: nat, cursor: nat)
    requires AreOffsets(text, offsets) && |lines| == |offsets| && AreBlocks(tests, lines, from, blocks)
    requires cursor <= |text| && (from < |offsets| ==> cursor <= offsets[from])
    ensures InOrder(RichSpans(text, offsets, blocks), cursor, |text|)
    ensures forall k :: 0 <= k < |RichSpans(text, offsets, blocks)| ==>
              OnLines(text, RichSpans(text, offsets, blocks)[k]) && RichSpans(text, offsets, blocks)[k].kind != Narrative
    decreases |blocks|
  {
    if blocks != [] {
      var block := blocks[0];
      var span := SpanOf(text, offsets, block);
      SpanOfIsOnLines(text, offsets, block);
      assert offsets[from] <= offsets[block.first];
      RichInOrder(tests, text, offsets, lines, blocks[1..], block.last + 1, span.end);
      assert RichSpans(text, offsets, blocks)[1..] == RichSpans(text, offsets, blocks[1..]);
    }
  }

  /** What `projectMarkdownSpans` returns. */
  function Projected(tests: LineTests, text: string): seq<Span> {
    if !HasInk(text) then []
    else
      OffsetsStartLines(text, |text|);
      var offsets := Offsets(text, |text|);
      var lines := Lines(text, offsets);
      var blocks := Blocks(tests, lines, 0);
      BlocksAreBlocks(tests, lines, 0);
      RichInOrder(tests, text, offsets, lines, blocks, 0, 0);
      Assembled(text, RichSpans(text, offsets, blocks), 0)
  }

  // --- Text is conserved -----------------------------------------------------------------------

  function Holders(spans: seq<Span>, position: nat): nat {
    if spans == [] then 0 else (if spans[0].Has(position) then 1 else 0) + Holders(spans[1..], position)
  }

  lemma {:induction false} HoldersConcat(a: seq<Span>, b: seq<Span>, position: nat)
    ensures Holders(a + b, position) == Holders(a, position) + Holders(b, position)
  {
    if a == [] {
      assert a + b == b;
    } else {
      assert (a + b)[1..] == a[1..] + b;
      HoldersConcat(a[1..], b, position);
    }
  }

  lemma {:induction false} NothingBefore(text: string, rich: seq<Span>, cursor: nat, position: nat)
    requires InOrder(rich, cursor, |text|) && position < cursor
    ensures Holders(Assembled(text, rich, cursor), position) == 0
    decreases |rich|
  {
    if rich != [] {
      NothingBefore(text, rich[1..], rich[0].end, position);
      HoldersJoin(text, rich, cursor, position);
    }
  }

  lemma HoldersJoin(text: string, rich: seq<Span>, cursor: nat, position: nat)
    requires rich != [] && InOrder(rich, cursor, |text|)
    ensures Holders(Assembled(text, rich, cursor), position)
         == Holders(NarrativeSpan(text, cursor, rich[0].start), position)
            + (if rich[0].Has(position) then 1 else 0)
            + Holders(Assembled(text, rich[1..], rich[0].end), position)
  {
    var before, rest := NarrativeSpan(text, cursor, rich[0].start), Assembled(text, rich[1..], rich[0].end);
    HoldersConcat(before + [rich[0]], rest, position);
    HoldersConcat(before, [rich[0]], position);
    assert Holders([rich[0]][1..], position) == 0;
  }

  lemma NarrativeHolds(text: string, start: nat, end: nat, position: nat)
    requires start <= end <= |text|
    ensures Holders(NarrativeSpan(text, start, end), position)
         == if start <= position < end && HasInk(text[start..end]) then 1 else 0
  {
    TrimFacts(text[start..end]);
    assert Holders(NarrativeSpan(text, start, end)[..0], position) == 0;
    if Trim(text[start..end]) != "" {
      var span := Span(start, end, Narrative, None);
      assert [span][1..] == [];
    }
  }

  /** No character is in two spans, and one with ink is in one. */
  lemma {:induction false} InkIsHeldOnce(text: string, rich: seq<Span>, cursor: nat, position: nat)
    requires InOrder(rich, cursor, |text|) && cursor <= position < |text|
    ensures Holders(Assembled(text, rich, cursor), position) <= 1
    ensures !IsSpace(text[position]) ==> Holders(Assembled(text, rich, cursor), position) == 1
    decreases |rich|
  {
    var end := if rich == [] then |text| else rich[0].start;
    NarrativeHolds(text, cursor, end, position);
    if position < end {
      assert text[cursor..end][position - cursor] == text[position];
    }
    if rich != [] {
      HoldersJoin(text, rich, cursor, position);
      if position < rich[0].end {
        NothingBefore(text, rich[1..], rich[0].end, position);
      } else {
        InkIsHeldOnce(text, rich[1..], rich[0].end, position);
      }
    }
  }

  ghost predicate WellCut(text: string, span: Span) {
    && OnLines(text, span) && span.start < span.end <= |text|
    && (span.kind == Narrative ==> HasInk(text[span.start..span.end]))
  }

  lemma NarrativeIsWellCut(text: string, start: nat, end: nat)
    requires start <= end <= |text|
    requires (StartsLine(text, start) || start == |text|) && (EndsLine(text, end) || StartsLine(text, end))
    ensures forall k :: 0 <= k < |NarrativeSpan(text, start, end)| ==> WellCut(text, NarrativeSpan(text, start, end)[k])
  {
    TrimFacts(text[start..end]);
  }

  /** Every span is on line boundaries, not empty, and narrative only where there is something to read. */
  lemma {:induction false} SpansAreWellCut(text: string, rich: seq<Span>, cursor: nat)
    requires InOrder(rich, cursor, |text|) && (StartsLine(text, cursor) || cursor == |text|)
    requires forall k :: 0 <= k < |rich| ==> OnLines(text, rich[k]) && rich[k].kind != Narrative
    ensures forall k :: 0 <= k < |Assembled(text, rich, cursor)| ==> WellCut(text, Assembled(text, rich, cursor)[k])
    decreases |rich|
  {
    var end := if rich == [] then |text| else rich[0].start;
    NarrativeIsWellCut(text, cursor, end);
    if rich != [] {
      SpansAreWellCut(text, rich[1..], rich[0].end);
    }
  }

  lemma {:induction false} SpansInOrder(text: string, rich: seq<Span>, cursor: nat)
    requires InOrder(rich, cursor, |text|)
    ensures InOrder(Assembled(text, rich, cursor), cursor, |text|)
    decreases |rich|
  {
    var end := if rich == [] then |text| else rich[0].start;
    var before := NarrativeSpan(text, cursor, end);
    TrimFacts(text[cursor..end]);
    if rich != [] {
      var rest := Assembled(text, rich[1..], rich[0].end);
      SpansInOrder(text, rich[1..], rich[0].end);
      assert ([rich[0]] + rest)[1..] == rest;
      if before == [] {
        assert before + [rich[0]] + rest == [rich[0]] + rest;
      } else {
        assert (before + [rich[0]] + rest)[1..] == [rich[0]] + rest;
      }
    }
  }

  /** The projection of a text, whatever the tests of its lines are: in bounds, in order, nothing lost or doubled. */
  lemma ProjectionConservesText(tests: LineTests, text: string)
    ensures InOrder(Projected(tests, text), 0, |text|)
    ensures forall k :: 0 <= k < |Projected(tests, text)| ==> WellCut(text, Projected(tests, text)[k])
    ensures forall position :: 0 <= position < |text| ==>
              Holders(Projected(tests, text), position) <= 1
              && (!IsSpace(text[position]) ==> Holders(Projected(tests, text), position) == 1)
  {
    if HasInk(text) {
      var offsets := Offsets(text, |text|);
      OffsetsStartLines(text, |text|);
      var lines := Lines(text, offsets);
      var blocks := Blocks(tests, lines, 0);
      BlocksAreBlocks(tests, lines, 0);
      RichInOrder(tests, text, offsets, lines, blocks, 0, 0);
      var rich := RichSpans(text, offsets, blocks);
      SpansInOrder(text, rich, 0);
      SpansAreWellCut(text, rich, 0);
      forall position | 0 <= position < |text|
        ensures Holders(Projected(tests, text), position) <= 1
                && (!IsSpace(text[position]) ==> Holders(Projected(tests, text), position) == 1)
      {
        InkIsHeldOnce(text, rich, 0, position);
      }
    }
  }

  // --- What the spans show ---------------------------------------------------------------------

  /**
   * A span is that of this block: from its first line to the end of its last, a table without a language, or what
   * is in a fence with the language it names, if any, which is a diagram or a diff if it is named so.
   */
  predicate Shows(text: string, offsets: seq<nat>, block: Block, span: Span) {
    && block.first < |offsets| && span.start == offsets[block.first] && span.end == LineEnd(text, offsets, block.last)
    && match block.fence
       case None => span.kind == Table && span.language == None
       case Some(word) =>
         && (span.kind == Mermaid <==> word == "mermaid")
         && (span.kind == Diff <==> word == "diff")
         && (span.kind == Code <==> word != "mermaid" && word != "diff")
         && (if word == "" then span.language == None else span.language == Some(word))
  }

  lemma {:induction false} RichSpansShow(tests: LineTests, text: string, offsets: seq<nat>, lines: seq<string>,
                                         blocks: seq<Block>, from: nat)
    requires |lines| == |offsets| && AreBlocks(tests, lines, from, blocks)
    ensures |RichSpans(text, offsets, blocks)| == |blocks|
    ensures forall k :: 0 <= k < |blocks| ==> Shows(text, offsets, blocks[k], RichSpans(text, offsets, blocks)[k])
    decreases |blocks|
  {
    if blocks != [] {
      var rich := RichSpans(text, offsets, blocks);
      RichSpansShow(tests, text, offsets, lines, blocks[1..], blocks[0].last + 1);
      forall k | 0 <= k < |blocks| ensures Shows(text, offsets, blocks[k], rich[k]) {
        if k > 0 {
          assert blocks[k] == blocks[1..][k - 1] && rich[k] == RichSpans(text, offsets, blocks[1..])[k - 1];
        }
      }
    }
  }

  /** What is assembled are the given spans, and narrative without a language. */
  lemma {:induction false} AssembledMembers(text: string, rich: seq<Span>, cursor: nat)
    requires InOrder(rich, cursor, |text|)
    ensures forall span :: span in rich ==> span in Assembled(text, rich, cursor)
    ensures forall span :: span in Assembled(text, rich, cursor) ==>
              span in rich || (span.kind == Narrative && span.language == None)
    decreases |rich|
  {
    if rich != [] {
      AssembledMembers(text, rich[1..], rich[0].end);
      assert rich == [rich[0]] + rich[1..];
    }
  }

  /** The spans of a text with ink are those of its blocks, one for each, and narrative. */
  lemma SpansShowBlocks(tests: LineTests, text: string)
    requires HasInk(text)
    ensures var offsets := Offsets(text, |text|);
            AreOffsets(text, offsets)
            && var blocks := Blocks(tests, Lines(text, offsets), 0);
               (forall block :: block in blocks ==>
                  exists span :: span in Projected(tests, text) && Shows(text, offsets, block, span))
               && (forall span :: span in Projected(tests, text) ==>
                     (span.kind == Narrative && span.language == None)
                     || exists block :: block in blocks && Shows(text, offsets, block, span))
  {
    OffsetsStartLines(text, |text|);
    var offsets := Offsets(text, |text|);
    var lines := Lines(text, offsets);
    var blocks := Blocks(tests, lines, 0);
    BlocksAreBlocks(tests, lines, 0);
    RichInOrder(tests, text, offsets, lines, blocks, 0, 0);
    var rich := RichSpans(text, offsets, blocks);
    RichSpansShow(tests, text, offsets, lines, blocks, 0);
    AssembledMembers(text, rich, 0);
    forall block | block in blocks
      ensures exists span :: span in Projected(tests, text) && Shows(text, offsets, block, span)
    {
      var k :| 0 <= k < |blocks| && blocks[k] == block;
      assert rich[k] in rich;
      assert Shows(text, offsets, block, rich[k]);
    }
    forall span | span in Projected(tests, text)
      ensures (span.kind == Narrative && span.language == None)
              || exists block :: block in blocks && Shows(text, offsets, block, span)
    {
      if span in rich {
        var k :| 0 <= k < |rich| && rich[k] == span;
        assert Shows(text, offsets, blocks[k], span) && blocks[k] in blocks;
      }
    }
  }

  // --- The loops -------------------------------------------------------------------------------

  method LineOffsets(text: string) returns (offsets: seq<nat>)
    ensures offsets == Offsets(text, |text|)
  {
    offsets := [0];
    for index := 0 to |text|
      invariant offsets == Offsets(text, index)
    {
      if text[index] == '\n' {
        offsets := offsets + [index + 1];
      }
    }
  }

  method FindClosingLine(tests: LineTests, lines: seq<string>, line: nat) returns (closingLine: nat)
    requires line < |lines|
    ensures closingLine == ClosingLine(tests, lines, line + 1)
  {
    closingLine := line + 1;
    while closingLine < |lines| && !tests.Closes(lines[closingLine])
      invariant line < closingLine <= |lines|
      invariant ClosingLine(tests, lines, closingLine) == ClosingLine(tests, lines, line + 1)
    {
      closingLine := closingLine + 1;
    }
  }

  method FindRowsEnd(lines: seq<string>, line: nat) returns (endLine: nat)
    requires line + 1 < |lines|
    ensures endLine == RowsEnd(lines, line + 2)
  {
    endLine := line + 2;
    while endLine < |lines| && '|' in Trim(lines[endLine])
      invariant line + 2 <= endLine <= |lines|
      invariant RowsEnd(lines, endLine) == RowsEnd(lines, line + 2)
    {
      endLine := endLine + 1;
    }
  }

  ghost function Remaining(
      tests: LineTests, text: string, offsets: seq<nat>, lines: seq<string>, line: nat): seq<Span> {
    RichSpans(text, offsets, Blocks(tests, lines, line))
  }

  lemma RichStep(tests: LineTests, text: string, offsets: seq<nat>, lines: seq<string>, line: nat, rich: seq<Span>)
    requires line < |lines| == |offsets| && BlockAt(tests, lines, line).Some?
    ensures var block := BlockAt(tests, lines, line).value;
            rich + Remaining(tests, text, offsets, lines, line)
            == rich + [SpanOf(text, offsets, block)] + Remaining(tests, text, offsets, lines, block.last + 1)
  {
    var block := BlockAt(tests, lines, line).value;
    assert Blocks(tests, lines, line)[1..] == Blocks(tests, lines, block.last + 1);
  }

  lemma RichSkip(tests: LineTests, text: string, offsets: seq<nat>, lines: seq<string>, line: nat)
    requires line < |lines| && BlockAt(tests, lines, line).None?
    ensures Remaining(tests, text, offsets, lines, line)
         == if OpensFence(tests, lines, line) then [] else Remaining(tests, text, offsets, lines, line + 1)
  {
  }

  /** The block on a line, found as the loop finds it, and where to go on; nothing if the search is over. */
  method FindSpan(tests: LineTests, text: string, offsets: seq<nat>, lines: seq<string>, line: nat)
    returns (span: Option<Span>, next: nat)
    requires line < |lines| == |offsets|
    ensures var block := BlockAt(tests, lines, line);
            if block.Some? then span == Some(SpanOf(text, offsets, block.value)) && next == block.value.last + 1
            else span == None && next == if OpensFence(tests, lines, line) then |lines| else line + 1
  {
    var fence := tests.Fence(lines[line]);
    if fence.Some? {
      var closingLine := FindClosingLine(tests, lines, line);
      if closingLine == |lines| {
        return None, |lines|;
      }
      var language := Language(fence.value);
      var kind := if language == Some("mermaid") then Mermaid else if language == Some("diff") then Diff else Code;
      return Some(Span(offsets[line], LineEnd(text, offsets, closingLine), kind, language)), closingLine + 1;
    }
    if line + 1 < |lines| && '|' in lines[line] && tests.Delimits(lines[line + 1]) {
      var endLine := FindRowsEnd(lines, line);
      return Some(Span(offsets[line], LineEnd(text, offsets, endLine - 1), Table, None)), endLine;
    }
    return None, line + 1;
  }

  method FindRichSpans(tests: LineTests, text: string, offsets: seq<nat>, lines: seq<string>) returns (rich: seq<Span>)
    requires |lines| == |offsets|
    ensures rich == RichSpans(text, offsets, Blocks(tests, lines, 0))
  {
    rich := [];
    var line: nat := 0;
    ghost var goal := Remaining(tests, text, offsets, lines, 0);
    while line < |lines|
      invariant line <= |lines|
      invariant rich + Remaining(tests, text, offsets, lines, line) == goal
      decreases |lines| - line
    {
      var span, next := FindSpan(tests, text, offsets, lines, line);
      if span.Some? {
        RichStep(tests, text, offsets, lines, line, rich);
        rich := rich + [span.value];
      } else {
        RichSkip(tests, text, offsets, lines, line);
      }
      line := next;
    }
  }

  method ProjectMarkdownSpans(tests: LineTests, text: string) returns (spans: seq<Span>)
    ensures spans == Projected(tests, text)
  {
    TrimFacts(text);
    if Trim(text) == "" {
      return [];
    }
    var offsets := LineOffsets(text);
    OffsetsStartLines(text, |text|);
    var lines := Lines(text, offsets);
    var rich := FindRichSpans(tests, text, offsets, lines);
    BlocksAreBlocks(tests, lines, 0);
    RichInOrder(tests, text, offsets, lines, Blocks(tests, lines, 0), 0, 0);
    spans := FillIn(text, rich);
  }

  lemma FillStep(text: string, spans: seq<Span>, rich: seq<Span>, k: nat, cursor: nat)
    requires k < |rich| && InOrder(rich[k..], cursor, |text|)
    ensures InOrder(rich[k + 1..], rich[k].end, |text|) && cursor <= rich[k].start
    ensures spans + Assembled(text, rich[k..], cursor)
         == spans + NarrativeSpan(text, cursor, rich[k].start) + [rich[k]] + Assembled(text, rich[k + 1..], rich[k].end)
  {
    assert rich[k..][0] == rich[k] && rich[k..][1..] == rich[k + 1..];
    Regroup(spans, NarrativeSpan(text, cursor, rich[k].start), [rich[k]], Assembled(text, rich[k + 1..], rich[k].end));
  }

  lemma Regroup(a: seq<Span>, b: seq<Span>, c: seq<Span>, d: seq<Span>)
    ensures a + (b + c + d) == a + b + c + d
  {
  }

  method FillIn(text: string, rich: seq<Span>) returns (spans: seq<Span>)
    requires InOrder(rich, 0, |text|)
    ensures spans == Assembled(text, rich, 0)
  {
    spans := [];
    var cursor: nat := 0;
    assert rich[0..] == rich;
    ghost var goal := Assembled(text, rich, 0);
    for k := 0 to |rich|
      invariant InOrder(rich[k..], cursor, |text|)
      invariant spans + Assembled(text, rich[k..], cursor) == goal
    {
      FillStep(text, spans, rich, k, cursor);
      spans := spans + NarrativeSpan(text, cursor, rich[k].start);
      spans := spans + [rich[k]];
      cursor := rich[k].end;
    }
    spans := spans + NarrativeSpan(text, cursor, |text|);
  }

  // --- The text inside a fence -----------------------------------------------------------------

  const FENCE := "```"

  /** `indexOf` for one character: the length of the text if it is not there. */
  function IndexOf(s: string, c: char): (index: nat)
    ensures index <= |s| && (index < |s| ==> s[index] == c) && forall k :: 0 <= k < index ==> s[k] != c
  {
    if s == "" || s[0] == c then 0 else 1 + IndexOf(s[1..], c)
  }

  /** `lastIndexOf` for the fence. */
  function LastFence(s: string): (index: Option<nat>)
    ensures index.Some? ==> index.value + 3 <= |s| && s[index.value..index.value + 3] == FENCE
  {
    if s == "" then None
    else
      var later := LastFence(s[1..]);
      assert later.Some? ==> s[1..][later.value..later.value + 3] == s[later.value + 1..later.value + 4];
      if later.Some? then Some(later.value + 1) else if FENCE <= s then Some(0) else None
  }

  function StripFence(value: string): string {
    var firstBreak, lastFence := IndexOf(value, '\n'), LastFence(value);
    if firstBreak == |value| || lastFence.None? || lastFence.value <= firstBreak then ""
    else WithoutBreak(value[firstBreak + 1..lastFence.value])
  }

  lemma {:induction false} FirstBreakAt(opening: string, rest: string)
    requires '\n' !in opening
    ensures IndexOf(opening + "\n" + rest, '\n') == |opening|
  {
    var s := opening + "\n" + rest;
    assert s[|opening|] == '\n';
    assert forall k :: 0 <= k < |opening| ==> s[k] == opening[k];
  }

  lemma {:induction false} NoFenceIn(tail: string)
    requires '`' !in tail
    ensures LastFence(tail).None?
  {
    if tail != "" {
      NoFenceIn(tail[1..]);
      assert FENCE[0] == '`' && tail[0] != '`';
    }
  }

  lemma ShortFence(ticks: string, tail: string)
    requires |ticks| < 3 && '`' !in tail
    ensures !(FENCE <= ticks + tail)
  {
    if |ticks + tail| >= 3 {
      assert (ticks + tail)[|ticks|] == tail[0] && FENCE[|ticks|] == '`';
    }
  }

  lemma LastFenceFirst(tail: string)
    requires '`' !in tail
    ensures LastFence(FENCE + tail) == Some(0)
  {
    var s := FENCE + tail;
    NoFenceIn(tail);
    ShortFence("`", tail);
    ShortFence("``", tail);
    assert s[1..] == "``" + tail && ("``" + tail)[1..] == "`" + tail && ("`" + tail)[1..] == tail;
  }

  lemma {:induction false} LastFenceAt(before: string, tail: string)
    requires '`' !in tail
    ensures LastFence(before + (FENCE + tail)) == Some(|before|)
  {
    var s := before + (FENCE + tail);
    if before == "" {
      assert s == FENCE + tail;
      LastFenceFirst(tail);
    } else {
      assert s[1..] == before[1..] + (FENCE + tail);
      LastFenceAt(before[1..], tail);
    }
  }

  /** From a fenced block, exactly the lines between the fences remain, with the indent of the closing one. */
  lemma StripFenceReadsBody(opening: string, body: string, indent: string, tail: string)
    requires '\n' !in opening && '`' !in tail
    ensures StripFence(opening + "\n" + (body + indent) + (FENCE + tail)) == WithoutBreak(body + indent)
  {
    var value := opening + "\n" + (body + indent) + (FENCE + tail);
    assert value == opening + "\n" + ((body + indent) + (FENCE + tail));
    FirstBreakAt(opening, (body + indent) + (FENCE + tail));
    LastFenceAt(opening + "\n" + (body + indent), tail);
    assert value[|opening| + 1..|opening| + 1 + |body + indent|] == body + indent;
  }
}
