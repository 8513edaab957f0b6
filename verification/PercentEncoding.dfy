/** Percent-encoding of UTF-8, as `encodeURIComponent` and `decodeURIComponent` do it (section 2.1 of RFC 3986). */
module PercentEncoding {
  import opened Wrappers
  import opened JsText
  import opened Numbers

  // --- UTF-8 (section 3 of RFC 3629) -----------------------------------------------------------

  function Utf8(c: char): (octets: seq<nat>)
    ensures 1 <= |octets| <= 4 && forall i :: 0 <= i < |octets| ==> octets[i] < 256
  {
    var n := c as int;
    if n < 0x80 then [n]
    else if n < 0x800 then [0xC0 + n / 64, 0x80 + n % 64]
    else if n < 0x10000 then [0xE0 + n / 4096, 0x80 + n / 64 % 64, 0x80 + n % 64]
    else [0xF0 + n / 262144, 0x80 + n / 4096 % 64, 0x80 + n / 64 % 64, 0x80 + n % 64]
  }

  /** How many octets a sequence with this first octet has; none has an invalid first octet. */
  function SequenceLength(first: nat): Option<nat> {
    if first < 0x80 then Some(1)
    else if 0xC0 <= first < 0xE0 then Some(2)
    else if 0xE0 <= first < 0xF0 then Some(3)
    else if 0xF0 <= first < 0xF8 then Some(4)
    else None
  }

  predicate IsContinuation(octet: nat) {
    0x80 <= octet < 0xC0
  }

  predicate IsScalar(n: nat) {
    n < 0xD800 || 0xE000 <= n < 0x110000
  }

  /** The character encoded by exactly these octets: no overlong form, no surrogate. */
  function FromUtf8(octets: seq<nat>): Option<char> {
    if octets == [] || SequenceLength(octets[0]) != Some(|octets|)
       || (exists i :: 1 <= i < |octets| && !IsContinuation(octets[i])) then None
    else
      var n :=
        if |octets| == 1 then octets[0]
        else if |octets| == 2 then (octets[0] - 0xC0) * 64 + (octets[1] - 0x80)
        else if |octets| == 3 then (octets[0] - 0xE0) * 4096 + (octets[1] - 0x80) * 64 + (octets[2] - 0x80)
        else (octets[0] - 0xF0) * 262144 + (octets[1] - 0x80) * 4096 + (octets[2] - 0x80) * 64 + (octets[3] - 0x80);
      var shortest := if |octets| == 1 then 0 else if |octets| == 2 then 0x80 else if |octets| == 3 then 0x800 else 0x10000;
      if n < shortest || !IsScalar(n) then None else Some(n as char)
  }

  lemma Utf8RoundTrip(c: char)
    ensures SequenceLength(Utf8(c)[0]) == Some(|Utf8(c)|)
    ensures FromUtf8(Utf8(c)) == Some(c)
  {
    var n := c as int;
    var octets := Utf8(c);
    assert forall i :: 1 <= i < |octets| ==> IsContinuation(octets[i]);
    if 0x800 <= n < 0x10000 {
      assert n / 4096 == n / 64 / 64;
    } else if n >= 0x10000 {
      assert n / 4096 == n / 64 / 64 && n / 262144 == n / 4096 / 64;
    }
  }

  // --- Escapes ---------------------------------------------------------------------------------

  function Escape(octet: nat): string
    requires octet < 256
  {
    ['%', UpperHexDigit(octet / 16), UpperHexDigit(octet % 16)]
  }

  function Escapes(octets: seq<nat>): string
    requires forall i :: 0 <= i < |octets| ==> octets[i] < 256
  {
    if octets == [] then "" else Escape(octets[0]) + Escapes(octets[1..])
  }

  /** The octet of an escape at the start of the text. */
  function ReadEscape(s: string): Option<nat> {
    if |s| < 3 || s[0] != '%' || HexValue(s[1]).None? || HexValue(s[2]).None? then None
    else Some(HexValue(s[1]).value * 16 + HexValue(s[2]).value)
  }

  /** The octets of `count` escapes at the start of the text. */
  function ReadEscapes(s: string, count: nat): Option<seq<nat>> {
    if count == 0 then Some([])
    else if ReadEscape(s).None? then None
    else
      var rest := ReadEscapes(s[3..], count - 1);
      if rest.None? then None else Some([ReadEscape(s).value] + rest.value)
  }

  lemma EscapeReadsBack(octet: nat, rest: string)
    requires octet < 256
    ensures ReadEscape(Escape(octet) + rest) == Some(octet)
    ensures (Escape(octet) + rest)[3..] == rest
  {
    HexDigitReadsBack(octet / 16);
    HexDigitReadsBack(octet % 16);
  }

  lemma HexDigitIsPlain(digit: nat)
    requires digit < 16
    ensures IsPlain(UpperHexDigit(digit))
  {
  }

  lemma {:induction false} EscapesReadBack(octets: seq<nat>, rest: string)
    requires forall i :: 0 <= i < |octets| ==> octets[i] < 256
    ensures |Escapes(octets)| == 3 * |octets|
    ensures ReadEscapes(Escapes(octets) + rest, |octets|) == Some(octets)
  {
    if octets != [] {
      EscapesReadBack(octets[1..], rest);
      assert Escapes(octets) + rest == Escape(octets[0]) + (Escapes(octets[1..]) + rest);
      EscapeReadsBack(octets[0], Escapes(octets[1..]) + rest);
      assert [octets[0]] + octets[1..] == octets;
    }
  }

  // --- Components ------------------------------------------------------------------------------

  predicate IsUnescaped(c: char) {
    || 'A' <= c <= 'Z' || 'a' <= c <= 'z' || '0' <= c <= '9'
    || c == '-' || c == '_' || c == '.' || c == '~' || IsMark(c)
  }

  /** The marks that `encodeUriPayloadSegment` escapes on top of `encodeURIComponent`. */
  predicate IsMark(c: char) {
    c == '!' || c == '\'' || c == '(' || c == ')' || c == '*'
  }

  function EncodeChar(c: char): string {
    if IsUnescaped(c) then [c] else Escapes(Utf8(c))
  }

  /** `encodeURIComponent`. */
  function EncodeComponent(s: string): string {
    if s == "" then "" else EncodeChar(s[0]) + EncodeComponent(s[1..])
  }

  function EscapeMarks(s: string): string {
    if s == "" then ""
    else (if IsMark(s[0]) then Escape(s[0] as int) else [s[0]]) + EscapeMarks(s[1..])
  }

  /** `encodeUriPayloadSegment`. */
  function EncodePayload(s: string): string {
    EscapeMarks(EncodeComponent(s))
  }

  /** `decodeURIComponent`; `None` stands for its error. */
  function DecodeComponent(s: string): Option<string> {
    if s == "" then Some("")
    else if s[0] != '%' then
      var rest := DecodeComponent(s[1..]);
      if rest.None? then None else Some([s[0]] + rest.value)
    else if ReadEscape(s).None? then None
    else
      var count := SequenceLength(ReadEscape(s).value);
      if count.None? then None
      else
        var octets := ReadEscapes(s, count.value);
        if octets.None? || FromUtf8(octets.value).None? then None
        else
          ReadEscapesLength(s, count.value);
          var rest := DecodeComponent(s[3 * count.value..]);
          if rest.None? then None else Some([FromUtf8(octets.value).value] + rest.value)
  }

  lemma {:induction false} ReadEscapesLength(s: string, count: nat)
    requires ReadEscapes(s, count).Some?
    ensures 3 * count <= |s| && |ReadEscapes(s, count).value| == count
  {
    if count > 0 {
      ReadEscapesLength(s[3..], count - 1);
    }
  }

  function Prepended(c: char, rest: Option<string>): Option<string> {
    if rest.None? then None else Some([c] + rest.value)
  }

  lemma Regroup(a: string, b: string, c: string)
    ensures a + b + c == a + (b + c)
  {
  }

  lemma EscapesStart(octets: seq<nat>, rest: string)
    requires octets != [] && forall i :: 0 <= i < |octets| ==> octets[i] < 256
    ensures ReadEscape(Escapes(octets) + rest) == Some(octets[0])
  {
    EscapeReadsBack(octets[0], Escapes(octets[1..]) + rest);
    Regroup(Escape(octets[0]), Escapes(octets[1..]), rest);
  }

  lemma DropFirst(first: string, rest: string)
    ensures (first + rest)[|first|..] == rest
  {
  }

  /** Escaped octets of one character decode to it. */
  lemma DecodeEscapedChar(c: char, rest: string)
    ensures DecodeComponent(Escapes(Utf8(c)) + rest) == Prepended(c, DecodeComponent(rest))
  {
    var octets := Utf8(c);
    Utf8RoundTrip(c);
    EscapesReadBack(octets, rest);
    EscapesStart(octets, rest);
    DropFirst(Escapes(octets), rest);
  }

  lemma DecodeEncodedChar(c: char, rest: string)
    ensures DecodeComponent(EncodeChar(c) + rest) == Prepended(c, DecodeComponent(rest))
  {
    if IsUnescaped(c) {
      assert ([c] + rest)[1..] == rest;
    } else {
      DecodeEscapedChar(c, rest);
    }
  }

  /** Decoding undoes encoding, for every string. */
  lemma {:induction false} ComponentRoundTrip(s: string)
    ensures DecodeComponent(EncodeComponent(s)) == Some(s)
  {
    if s != "" {
      ComponentRoundTrip(s[1..]);
      DecodeEncodedChar(s[0], EncodeComponent(s[1..]));
      assert [s[0]] + s[1..] == s;
    }
  }

  lemma {:induction false} EscapeMarksConcat(a: string, b: string)
    ensures EscapeMarks(a + b) == EscapeMarks(a) + EscapeMarks(b)
  {
    if a == "" {
      assert a + b == b;
    } else {
      assert (a + b)[1..] == a[1..] + b;
      EscapeMarksConcat(a[1..], b);
    }
  }

  /** Characters that neither encoder produces bare. */
  predicate IsPlain(c: char) {
    c == '%' || '0' <= c <= '9' || 'A' <= c <= 'F'
  }

  lemma {:induction false} PlainHasNoMarks(s: string)
    requires forall i :: 0 <= i < |s| ==> IsPlain(s[i])
    ensures EscapeMarks(s) == s
  {
    if s != "" {
      PlainHasNoMarks(s[1..]);
      assert IsPlain(s[0]) && [s[0]] + s[1..] == s;
    }
  }

  lemma {:induction false} EscapesArePlain(octets: seq<nat>)
    requires forall i :: 0 <= i < |octets| ==> octets[i] < 256
    ensures forall i :: 0 <= i < |Escapes(octets)| ==> IsPlain(Escapes(octets)[i])
    ensures EscapeMarks(Escapes(octets)) == Escapes(octets)
  {
    if octets != [] {
      EscapesArePlain(octets[1..]);
      HexDigitIsPlain(octets[0] / 16);
      HexDigitIsPlain(octets[0] % 16);
    }
    PlainHasNoMarks(Escapes(octets));
  }

  /** One encoded character, with its marks escaped. */
  lemma EscapedMarksOfChar(c: char)
    ensures EscapeMarks(EncodeChar(c)) == if IsUnescaped(c) && !IsMark(c) then [c] else Escapes(Utf8(c))
  {
    if IsUnescaped(c) {
      assert EscapeMarks([c][1..]) == "";
      if IsMark(c) {
        assert Utf8(c) == [c as int] && Utf8(c)[1..] == [];
      }
    } else {
      EscapesArePlain(Utf8(c));
    }
  }

  /** Decoding undoes the stricter encoding as well. */
  lemma {:induction false} PayloadRoundTrip(s: string)
    ensures DecodeComponent(EncodePayload(s)) == Some(s)
  {
    if s != "" {
      PayloadRoundTrip(s[1..]);
      var rest := EncodePayload(s[1..]);
      EscapeMarksConcat(EncodeChar(s[0]), EncodeComponent(s[1..]));
      EscapedMarksOfChar(s[0]);
      if IsUnescaped(s[0]) && !IsMark(s[0]) {
        assert ([s[0]] + rest)[1..] == rest;
      } else {
        DecodeEscapedChar(s[0], rest);
      }
      assert [s[0]] + s[1..] == s;
    }
  }

  predicate IsPayloadChar(c: char) {
    IsPlain(c) || (IsUnescaped(c) && !IsMark(c))
  }

  /** An encoded component has only unreserved characters, marks and escapes, so no `:`; nor is it empty for nothing. */
  lemma {:induction false} ComponentAlphabet(s: string)
    ensures forall i :: 0 <= i < |EncodeComponent(s)| ==>
              IsPlain(EncodeComponent(s)[i]) || IsUnescaped(EncodeComponent(s)[i])
    ensures EncodeComponent(s) == "" <==> s == ""
  {
    if s != "" {
      ComponentAlphabet(s[1..]);
      if !IsUnescaped(s[0]) {
        EscapesArePlain(Utf8(s[0]));
        EscapesReadBack(Utf8(s[0]), "");
      }
    }
  }

  /** A payload segment has in addition no marks, so no parenthesis, slash or white space. */
  lemma {:induction false} PayloadAlphabet(s: string)
    ensures forall i :: 0 <= i < |EncodePayload(s)| ==> IsPayloadChar(EncodePayload(s)[i])
    ensures EncodePayload(s) == "" <==> s == ""
  {
    if s != "" {
      PayloadAlphabet(s[1..]);
      EscapeMarksConcat(EncodeChar(s[0]), EncodeComponent(s[1..]));
      EscapedMarksOfChar(s[0]);
      EscapesArePlain(Utf8(s[0]));
      EscapesReadBack(Utf8(s[0]), "");
    }
  }
}
