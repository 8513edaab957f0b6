/** What percent-encoded text decodes to, said of the text and the result without decoding it. */
module PercentLaws {
  import opened Wrappers
  import opened Numbers
  import opened PercentEncoding

  /** Octets are the UTF-8 of a character exactly if they are read as that character: no other form is accepted. */
  lemma Utf8Iff(octets: seq<nat>, c: char)
    ensures FromUtf8(octets) == Some(c) <==> octets == Utf8(c)
  {
    Utf8RoundTrip(c);
    if FromUtf8(octets) == Some(c) {
      assert forall i :: 1 <= i < |octets| ==> IsContinuation(octets[i]);
      match |octets|
      case 1 =>
      case 2 => TwoOctets(octets, c);
      case 3 => ThreeOctets(octets, c);
      case _ => FourOctets(octets, c);
    }
  }

  lemma Digits(high: nat, low: nat)
    requires low < 64
    ensures (high * 64 + low) / 64 == high && (high * 64 + low) % 64 == low
  {
  }

  lemma TwoOctets(octets: seq<nat>, c: char)
    requires |octets| == 2 && FromUtf8(octets) == Some(c) && IsContinuation(octets[1])
    ensures octets == Utf8(c)
  {
    Digits(octets[0] - 0xC0, octets[1] - 0x80);
  }

  lemma ThreeOctets(octets: seq<nat>, c: char)
    requires |octets| == 3 && FromUtf8(octets) == Some(c)
    requires IsContinuation(octets[1]) && IsContinuation(octets[2])
    ensures octets == Utf8(c)
  {
    var high, n := (octets[0] - 0xE0) * 64 + (octets[1] - 0x80), c as nat;
    assert n == high * 64 + (octets[2] - 0x80);
    Digits(high, octets[2] - 0x80);
    Digits(octets[0] - 0xE0, octets[1] - 0x80);
    assert n / 4096 == n / 64 / 64;
  }

  lemma FourOctets(octets: seq<nat>, c: char)
    requires |octets| == 4 && FromUtf8(octets) == Some(c)
    requires IsContinuation(octets[1]) && IsContinuation(octets[2]) && IsContinuation(octets[3])
    ensures octets == Utf8(c)
  {
    var high, n := (octets[0] - 0xF0) * 64 + (octets[1] - 0x80), c as nat;
    var middle := high * 64 + (octets[2] - 0x80);
    assert n == middle * 64 + (octets[3] - 0x80);
    Digits(middle, octets[3] - 0x80);
    Digits(high, octets[2] - 0x80);
    Digits(octets[0] - 0xF0, octets[1] - 0x80);
    assert n / 4096 == n / 64 / 64 && n / 262144 == n / 4096 / 64;
  }

  /** A percent sign and two hexadecimal digits, of either case, that make up the octet. */
  predicate IsEscape(s: string, octet: nat) {
    && |s| >= 3 && s[0] == '%' && HexValue(s[1]).Some? && HexValue(s[2]).Some?
    && octet == HexValue(s[1]).value * 16 + HexValue(s[2]).value
  }

  /** The text starts with one escape for each of these octets. */
  predicate StartsWithEscapes(s: string, octets: seq<nat>) {
    octets == [] || (IsEscape(s, octets[0]) && StartsWithEscapes(s[3..], octets[1..]))
  }

  lemma {:induction false} EscapesAreRead(s: string, octets: seq<nat>)
    ensures ReadEscapes(s, |octets|) == Some(octets) <==> StartsWithEscapes(s, octets)
  {
    if octets != [] && IsEscape(s, octets[0]) {
      EscapesAreRead(s[3..], octets[1..]);
      assert octets == [octets[0]] + octets[1..];
    }
  }

  /** Only the start of the text matters. */
  lemma {:induction false} EscapesAtStart(part: string, rest: string, octets: seq<nat>)
    requires |part| == 3 * |octets|
    ensures StartsWithEscapes(part + rest, octets) <==> StartsWithEscapes(part, octets)
  {
    if octets != [] {
      assert (part + rest)[3..] == part[3..] + rest;
      EscapesAtStart(part[3..], rest, octets[1..]);
    }
  }

  /** A character written out: as it is, if it is not a percent sign, or by one escape for each of its octets. */
  predicate IsWritten(part: string, c: char) {
    || (part == [c] && c != '%')
    || (|part| == 3 * |Utf8(c)| && StartsWithEscapes(part, Utf8(c)))
  }

  /** The text is that of these characters, written one after the other. */
  ghost predicate IsEncoding(s: string, t: string)
    decreases |t|
  {
    if t == "" then s == ""
    else exists part, rest :: s == part + rest && IsWritten(part, t[0]) && IsEncoding(rest, t[1..])
  }

  lemma WrittenDecodes(part: string, c: char, rest: string)
    requires IsWritten(part, c)
    ensures part != "" && DecodeComponent(part + rest) == Prepended(c, DecodeComponent(rest))
  {
    var s, octets := part + rest, Utf8(c);
    if part == [c] && c != '%' {
      assert s[1..] == rest;
    } else {
      EscapesAtStart(part, rest, octets);
      EscapesAreRead(s, octets);
      Utf8RoundTrip(c);
      DropFirst(part, rest);
    }
  }

  /** What decodes starts with a character written out. */
  lemma DecodesWritten(s: string, t: string) returns (part: string, rest: string)
    requires s != "" && DecodeComponent(s) == Some(t)
    ensures t != "" && s == part + rest && |rest| < |s|
    ensures IsWritten(part, t[0]) && DecodeComponent(rest) == Some(t[1..])
  {
    if s[0] != '%' {
      part, rest := [s[0]], s[1..];
    } else {
      var count := SequenceLength(ReadEscape(s).value).value;
      var octets := ReadEscapes(s, count).value;
      ReadEscapesLength(s, count);
      part, rest := s[..3 * count], s[3 * count..];
      Utf8Iff(octets, t[0]);
      EscapesAreRead(s, octets);
      EscapesAtStart(part, rest, octets);
    }
  }

  lemma {:induction false} DecodedIsEncoded(s: string, t: string)
    requires DecodeComponent(s) == Some(t)
    ensures IsEncoding(s, t)
    decreases |s|
  {
    if s != "" {
      var part, rest := DecodesWritten(s, t);
      DecodedIsEncoded(rest, t[1..]);
      assert s == part + rest && IsWritten(part, t[0]) && IsEncoding(rest, t[1..]);
    }
  }

  lemma {:induction false} EncodingDecodes(s: string, t: string)
    requires IsEncoding(s, t)
    ensures DecodeComponent(s) == Some(t)
    decreases |t|
  {
    if t != "" {
      var part, rest :| s == part + rest && IsWritten(part, t[0]) && IsEncoding(rest, t[1..]);
      EncodingDecodes(rest, t[1..]);
      WrittenDecodes(part, t[0], rest);
      assert t == [t[0]] + t[1..];
    }
  }

  /** A text decodes to exactly the characters it is an encoding of; a text that is none of any is an error. */
  lemma DecodesIff(s: string, t: string)
    ensures DecodeComponent(s) == Some(t) <==> IsEncoding(s, t)
    ensures DecodeComponent(s).None? <==> forall any :: !IsEncoding(s, any)
  {
    forall any ensures DecodeComponent(s) == Some(any) <==> IsEncoding(s, any) {
      if DecodeComponent(s) == Some(any) {
        DecodedIsEncoded(s, any);
      }
      if IsEncoding(s, any) {
        EncodingDecodes(s, any);
      }
    }
    if DecodeComponent(s).Some? {
      assert IsEncoding(s, DecodeComponent(s).value);
    }
  }
}
