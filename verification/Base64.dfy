/** Base64 as section 4 of RFC 4648 defines it, encoded the way attachments are. */
module Base64 {
  import opened Wrappers

  type Byte = n: int | 0 <= n < 256

  /** The alphabet: upper-case letters, lower-case letters, digits, plus and slash. */
  function Letter(sextet: nat): char
    requires sextet < 64
  {
    if sextet < 26 then 'A' + sextet as char
    else if sextet < 52 then 'a' + (sextet - 26) as char
    else if sextet < 62 then '0' + (sextet - 52) as char
    else if sextet == 62 then '+'
    else '/'
  }

  /** Three bytes, or the one or two that are left, as four characters. */
  function Quartet(bytes: seq<Byte>): (text: string)
    requires 1 <= |bytes| <= 3
    ensures |text| == 4
  {
    var first := bytes[0];
    if |bytes| == 1 then [Letter(first / 4), Letter(first % 4 * 16), '=', '=']
    else
      var second := bytes[1];
      if |bytes| == 2 then [Letter(first / 4), Letter(first % 4 * 16 + second / 16), Letter(second % 16 * 4), '=']
      else
        var third := bytes[2];
        [Letter(first / 4), Letter(first % 4 * 16 + second / 16), Letter(second % 16 * 4 + third / 64), Letter(third % 64)]
  }

  function Encoded(bytes: seq<Byte>): (text: string)
    ensures |text| % 4 == 0 && (text == "" <==> bytes == [])
  {
    if bytes == [] then ""
    else if |bytes| <= 3 then Quartet(bytes)
    else Quartet(bytes[..3]) + Encoded(bytes[3..])
  }

  /** The place of a character in the alphabet. */
  function Sextet(c: char): (sextet: Option<nat>)
    ensures sextet.Some? ==> sextet.value < 64
  {
    if 'A' <= c <= 'Z' then Some(c as nat - 'A' as nat)
    else if 'a' <= c <= 'z' then Some(c as nat - 'a' as nat + 26)
    else if '0' <= c <= '9' then Some(c as nat - '0' as nat + 52)
    else if c == '+' then Some(62)
    else if c == '/' then Some(63)
    else None
  }

  function ReadQuartet(text: string): Option<seq<Byte>>
    requires |text| == 4
  {
    var a, b, c, d := Sextet(text[0]), Sextet(text[1]), Sextet(text[2]), Sextet(text[3]);
    if a.None? || b.None? then None
    else if text[2] == '=' then
      if text[3] == '=' && b.value % 16 == 0 then Some([a.value * 4 + b.value / 16]) else None
    else if c.None? then None
    else if text[3] == '=' then
      if c.value % 4 == 0 then Some([a.value * 4 + b.value / 16, b.value % 16 * 16 + c.value / 4]) else None
    else if d.None? then None
    else Some([a.value * 4 + b.value / 16, b.value % 16 * 16 + c.value / 4, c.value % 4 * 64 + d.value])
  }

  /** The bytes behind a text, if it is Base64; padding only at the end. */
  function Decoded(text: string): Option<seq<Byte>> {
    if text == "" then Some([])
    else if |text| < 4 then None
    else
      var bytes := ReadQuartet(text[..4]);
      if bytes.None? || |text| == 4 then bytes
      else if |bytes.value| < 3 then None
      else
        var rest := Decoded(text[4..]);
        if rest.None? then None else Some(bytes.value + rest.value)
  }

  lemma LetterReadsBack(sextet: nat)
    requires sextet < 64
    ensures Sextet(Letter(sextet)) == Some(sextet) && Letter(sextet) != '='
  {
  }

  lemma QuartetReadsBack(bytes: seq<Byte>)
    requires 1 <= |bytes| <= 3
    ensures ReadQuartet(Quartet(bytes)) == Some(bytes)
  {
    if |bytes| == 1 {
      OneByte(bytes[0]);
      assert bytes == [bytes[0]];
    } else if |bytes| == 2 {
      TwoBytes(bytes[0], bytes[1]);
      assert bytes == [bytes[0], bytes[1]];
    } else {
      ThreeBytes(bytes[0], bytes[1], bytes[2]);
      assert bytes == [bytes[0], bytes[1], bytes[2]];
    }
  }

  lemma OneByte(first: Byte)
    ensures ReadQuartet(Quartet([first])) == Some([first])
  {
    LetterReadsBack(first / 4);
    LetterReadsBack(first % 4 * 16);
  }

  lemma TwoBytes(first: Byte, second: Byte)
    ensures ReadQuartet(Quartet([first, second])) == Some([first, second])
  {
    LetterReadsBack(first / 4);
    LetterReadsBack(first % 4 * 16 + second / 16);
    LetterReadsBack(second % 16 * 4);
  }

  lemma FourLetters(a: nat, b: nat, c: nat, d: nat)
    requires a < 64 && b < 64 && c < 64 && d < 64
    ensures ReadQuartet([Letter(a), Letter(b), Letter(c), Letter(d)])
         == Some([a * 4 + b / 16, b % 16 * 16 + c / 4, c % 4 * 64 + d])
  {
    LetterReadsBack(a);
    LetterReadsBack(b);
    LetterReadsBack(c);
    LetterReadsBack(d);
  }

  lemma SextetsMeet(first: Byte, second: Byte, third: Byte)
    ensures var b, c := first % 4 * 16 + second / 16, second % 16 * 4 + third / 64;
            b < 64 && c < 64
            && first / 4 * 4 + b / 16 == first && b % 16 * 16 + c / 4 == second && c % 4 * 64 + third % 64 == third
  {
  }

  lemma LettersOfThree(first: Byte, second: Byte, third: Byte)
    ensures first % 4 * 16 + second / 16 < 64 && second % 16 * 4 + third / 64 < 64
    ensures Quartet([first, second, third])
         == [Letter(first / 4), Letter(first % 4 * 16 + second / 16), Letter(second % 16 * 4 + third / 64),
             Letter(third % 64)]
  {
  }

  lemma ThreeBytes(first: Byte, second: Byte, third: Byte)
    ensures ReadQuartet(Quartet([first, second, third])) == Some([first, second, third])
  {
    SextetsMeet(first, second, third);
    LettersOfThree(first, second, third);
    FourLetters(first / 4, first % 4 * 16 + second / 16, second % 16 * 4 + third / 64, third % 64);
  }

  /** What is encoded decodes to the same bytes. */
  lemma {:induction false} Base64RoundTrip(bytes: seq<Byte>)
    ensures Decoded(Encoded(bytes)) == Some(bytes)
  {
    if bytes != [] {
      if |bytes| <= 3 {
        QuartetReadsBack(bytes);
        assert Quartet(bytes)[..4] == Quartet(bytes);
      } else {
        QuartetReadsBack(bytes[..3]);
        Base64RoundTrip(bytes[3..]);
        var text := Quartet(bytes[..3]) + Encoded(bytes[3..]);
        assert text[..4] == Quartet(bytes[..3]) && text[4..] == Encoded(bytes[3..]);
        assert bytes == bytes[..3] + bytes[3..];
      }
    }
  }

  function Least(m: nat, n: nat): nat {
    if m < n then m else n
  }

  /** The turn of the loop, where a missing byte counts as 0 and is padded. */
  method NextLetters(bytes: seq<Byte>, index: nat) returns (letters: string)
    requires index < |bytes|
    ensures letters == Quartet(bytes[index..Least(index + 3, |bytes|)])
  {
    var first := bytes[index];
    var second := if index + 1 < |bytes| then Some(bytes[index + 1]) else None;
    var third := if index + 2 < |bytes| then Some(bytes[index + 2]) else None;
    ghost var taken := bytes[index..Least(index + 3, |bytes|)];
    assert taken == [first] + (if second.Some? then [second.value] else []) + (if third.Some? then [third.value] else []);
    letters := [Letter(first / 4)];
    letters := letters + [Letter(first % 4 * 16 + (if second.None? then 0 else second.value / 16))];
    letters := letters + [if second.None? then '=' else Letter(second.value % 16 * 4 + (if third.None? then 0 else third.value / 64))];
    letters := letters + [if third.None? then '=' else Letter(third.value % 64)];
  }

  /** `encodeBase64`. */
  method EncodeBase64(bytes: seq<Byte>) returns (result: string)
    ensures result == Encoded(bytes)
  {
    result := "";
    var index := 0;
    ghost var goal := Encoded(bytes);
    assert bytes[0..] == bytes && "" + goal == goal;
    while index < |bytes|
      invariant result + Encoded(bytes[Least(index, |bytes|)..]) == goal
      decreases |bytes| - index
    {
      EncodedStep(result, bytes, index);
      var letters := NextLetters(bytes, index);
      result := result + letters;
      index := index + 3;
    }
  }

  lemma EncodedStep(result: string, bytes: seq<Byte>, index: nat)
    requires index < |bytes|
    ensures var next := Least(index + 3, |bytes|);
            result + Encoded(bytes[index..]) == result + Quartet(bytes[index..next]) + Encoded(bytes[next..])
  {
    var rest := bytes[index..];
    var next := Least(index + 3, |bytes|);
    if |rest| <= 3 {
      assert bytes[index..next] == rest && bytes[next..] == [];
    } else {
      assert rest[..3] == bytes[index..next] && rest[3..] == bytes[next..];
    }
  }
}
