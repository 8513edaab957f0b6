/** Strings as JavaScript treats them: white space, trimming, splitting. Characters are Unicode scalars. */
module JsText {

  /** The characters `trim` removes and `\s` matches. */
  predicate IsSpace(c: char) {
    || c == ' ' || '\t' <= c <= '\r' || c == '\U{00A0}' || c == '\U{FEFF}' || c == '\U{1680}'
    || '\U{2000}' <= c <= '\U{200A}' || c == '\U{2028}' || c == '\U{2029}' || c == '\U{202F}'
    || c == '\U{205F}' || c == '\U{3000}'
  }

  /** Some character is not white space; equivalently, trimming leaves something. */
  predicate HasInk(s: string) {
    exists i :: 0 <= i < |s| && !IsSpace(s[i])
  }

  function TrimStart(s: string): string {
    if s != "" && IsSpace(s[0]) then TrimStart(s[1..]) else s
  }

  function TrimEnd(s: string): string {
    if s != "" && IsSpace(s[|s| - 1]) then TrimEnd(s[..|s| - 1]) else s
  }

  function Trim(s: string): string {
    TrimEnd(TrimStart(s))
  }

  predicate IsTrimmed(s: string) {
    s == "" || (!IsSpace(s[0]) && !IsSpace(s[|s| - 1]))
  }

  lemma {:induction false} TrimEndFacts(s: string)
    ensures TrimEnd(s) <= s
    ensures TrimEnd(s) != "" ==> !IsSpace(TrimEnd(s)[|TrimEnd(s)| - 1])
  {
    if s != "" && IsSpace(s[|s| - 1]) {
      TrimEndFacts(s[..|s| - 1]);
    }
  }

  lemma {:induction false} TrimStartFacts(s: string)
    ensures TrimStart(s) != "" ==> !IsSpace(TrimStart(s)[0])
    ensures HasInk(s) <==> TrimStart(s) != ""
  {
    if s != "" && IsSpace(s[0]) {
      TrimStartFacts(s[1..]);
      assert HasInk(s) <==> HasInk(s[1..]) by {
        if i :| 0 <= i < |s| && !IsSpace(s[i]) {
          assert s[1..][i - 1] == s[i];
        }
        if i :| 0 <= i < |s[1..]| && !IsSpace(s[1..][i]) {
          assert s[i + 1] == s[1..][i];
        }
      }
    } else if s != "" {
      assert !IsSpace(s[0]);
    }
  }

  /** Trimming is a projection, and leaves something exactly when there is ink. */
  lemma TrimFacts(s: string)
    ensures IsTrimmed(Trim(s)) && Trim(Trim(s)) == Trim(s)
    ensures Trim(s) != "" <==> HasInk(s)
  {
    TrimStartFacts(s);
    var started := TrimStart(s);
    TrimEndFacts(started);
    var trimmed := Trim(s);
    if started != "" {
      FirstInkStays(started);
      assert trimmed[0] == started[0];
      assert TrimStart(trimmed) == trimmed;
    }
  }

  predicate AllSpace(s: string) {
    forall i :: 0 <= i < |s| ==> IsSpace(s[i])
  }

  /** Trimming takes nothing but white space, from both ends. */
  lemma TrimTakesSpace(s: string)
    ensures exists before, after :: s == before + Trim(s) + after && AllSpace(before) && AllSpace(after)
  {
    var before := TrimStartTakes(s);
    var after := TrimEndTakes(TrimStart(s));
    assert s == before + (Trim(s) + after) == before + Trim(s) + after;
  }

  lemma {:induction false} TrimStartTakes(s: string) returns (before: string)
    ensures s == before + TrimStart(s) && AllSpace(before)
  {
    if s != "" && IsSpace(s[0]) {
      var rest := TrimStartTakes(s[1..]);
      before := [s[0]] + rest;
      assert s == [s[0]] + s[1..];
    } else {
      before := "";
    }
  }

  lemma {:induction false} TrimEndTakes(s: string) returns (after: string)
    ensures s == TrimEnd(s) + after && AllSpace(after)
  {
    if s != "" && IsSpace(s[|s| - 1]) {
      var rest := TrimEndTakes(s[..|s| - 1]);
      after := rest + [s[|s| - 1]];
      assert s == s[..|s| - 1] + [s[|s| - 1]];
    } else {
      after := "";
    }
  }

  lemma {:induction false} FirstInkStays(s: string)
    requires s != "" && !IsSpace(s[0])
    ensures TrimEnd(s) != ""
  {
    if IsSpace(s[|s| - 1]) {
      FirstInkStays(s[..|s| - 1]);
    }
  }

  /** `split` on one character: always at least one piece. */
  function Split(s: string, separator: char): seq<string> {
    if s == "" then [""]
    else
      var rest := Split(s[1..], separator);
      if s[0] == separator then [""] + rest
      else if rest == [] then [[s[0]]]
      else [[s[0]] + rest[0]] + rest[1..]
  }

  /** The first piece goes up to the first separator, and the others are those of the rest. */
  lemma {:induction false} SplitHead(s: string, separator: char)
    ensures Split(s, separator) != [] && Free(Split(s, separator)[0], separator)
    ensures |Split(s, separator)| == 1 ==> s == Split(s, separator)[0]
    ensures |Split(s, separator)| > 1 ==>
              exists rest :: s == Split(s, separator)[0] + [separator] + rest
                             && Split(s, separator)[1..] == Split(rest, separator)
  {
    if s != "" {
      SplitHead(s[1..], separator);
      var pieces, after := Split(s, separator), Split(s[1..], separator);
      assert s == [s[0]] + s[1..];
      if s[0] == separator {
        assert pieces[1..] == after;
        assert s == pieces[0] + [separator] + s[1..];
      } else {
        assert pieces[0] == [s[0]] + after[0] && pieces[1..] == after[1..];
        if |after| > 1 {
          var rest :| s[1..] == after[0] + [separator] + rest && after[1..] == Split(rest, separator);
          assert s == pieces[0] + [separator] + rest;
        }
      }
    }
  }

  lemma SplitFirst(s: string, separator: char) returns (rest: string)
    requires |Split(s, separator)| > 1
    ensures s == Split(s, separator)[0] + [separator] + rest && Free(Split(s, separator)[0], separator)
    ensures Split(s, separator)[1..] == Split(rest, separator)
  {
    SplitHead(s, separator);
    rest :| s == Split(s, separator)[0] + [separator] + rest && Split(s, separator)[1..] == Split(rest, separator);
  }

  predicate Free(s: string, separator: char) {
    forall i :: 0 <= i < |s| ==> s[i] != separator
  }

  lemma {:induction false} SplitFree(s: string, separator: char)
    requires Free(s, separator)
    ensures Split(s, separator) == [s]
  {
    if s != "" {
      SplitFree(s[1..], separator);
      assert [s[0]] + s[1..] == s;
    }
  }

  /** A piece without separators is split off as it is. */
  lemma {:induction false} SplitPiece(piece: string, separator: char, rest: string)
    requires Free(piece, separator)
    ensures Split(piece + [separator] + rest, separator) == [piece] + Split(rest, separator)
  {
    var s := piece + [separator] + rest;
    if piece == "" {
      assert s[1..] == rest;
    } else {
      assert s[1..] == piece[1..] + [separator] + rest;
      SplitPiece(piece[1..], separator, rest);
      assert [piece[0]] + piece[1..] == piece;
    }
  }
}
