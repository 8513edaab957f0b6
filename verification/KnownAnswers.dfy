/** Published examples of the encodings that the program shares with others, and its own formats on small inputs. */
module KnownAnswers {
  import opened Wrappers
  import Base64
  import AssistantFingerprint
  import PercentEncoding
  import StoreKeys
  import ContentCard
  import ComposerReference

  /** Examples of section 10 of RFC 4648: the codes of "f", "fo", "foo" and "foobar". */
  lemma Base64Examples()
    ensures Base64.Encoded([102]) == "Zg=="
    ensures Base64.Encoded([102, 111]) == "Zm8="
    ensures Base64.Encoded([102, 111, 111]) == "Zm9v"
    ensures Base64.Encoded([102, 111, 111, 98, 97, 114]) == "Zm9vYmFy"
  {
    var foobar: seq<Base64.Byte> := [102, 111, 111, 98, 97, 114];
    assert foobar[..3] == [102, 111, 111] && foobar[3..] == [98, 97, 114];
    assert Base64.Encoded([98, 97, 114]) == "YmFy";
  }

  /** The published 64-bit FNV-1a hash of "a". */
  lemma HashExample()
    ensures AssistantFingerprint.Step(AssistantFingerprint.OFFSET, 97) == 0xAF63DC4C8601EC8C
  {
    XorExample(AssistantFingerprint.OFFSET, 97);
    Multiplied(AssistantFingerprint.Xor(AssistantFingerprint.OFFSET, 97));
  }

  lemma Multiplied(mixed: nat)
    requires mixed == 14695981039346656068
    ensures mixed * AssistantFingerprint.PRIME % AssistantFingerprint.MODULUS == 0xAF63DC4C8601EC8C
  {
  }

  lemma XorExample(hash: nat, unit: nat)
    requires hash == 14695981039346656037 && unit == 97
    ensures AssistantFingerprint.Xor(hash, unit) == 14695981039346656068
  {
    XorWithNothing(114812351869895750);
    XorUnfolds(229624703739791500, 1, 114812351869895750);
    XorUnfolds(459249407479583001, 3, 229624703739791501);
    XorUnfolds(918498814959166002, 6, 459249407479583002);
    XorUnfolds(1836997629918332004, 12, 918498814959166004);
    XorUnfolds(3673995259836664009, 24, 1836997629918332008);
    XorUnfolds(7347990519673328018, 48, 3673995259836664017);
    XorUnfolds(14695981039346656037, 97, 7347990519673328034);
  }

  lemma {:induction false} XorWithNothing(n: nat)
    ensures AssistantFingerprint.Xor(n, 0) == n
  {
    if n > 0 {
      XorWithNothing(n / 2);
    }
  }

  lemma XorUnfolds(a: nat, b: nat, half: nat)
    requires a > 0 && AssistantFingerprint.Xor(a / 2, b / 2) == half
    ensures AssistantFingerprint.Xor(a, b) == (a % 2 + b % 2) % 2 + 2 * half
  {
  }

  /** The values that are hashed for one part, in their order, and how a value is framed: behind its length. */
  lemma StreamExample()
    ensures AssistantFingerprint.Fields(
              AssistantFingerprint.Projection(1, [114], [AssistantFingerprint.Part([97], AssistantFingerprint.Code, [98])]))
         == [[49], [114], [97], [99, 111, 100, 101], [98]]
    ensures AssistantFingerprint.Frame([97]) == [49, 58, 97]
  {
    DigitText(1);
    var part := AssistantFingerprint.Part([97], AssistantFingerprint.Code, [98]);
    assert [part][1..] == [];
    assert AssistantFingerprint.PartFields([part])
        == [part.id, AssistantFingerprint.KindText(part.kind), part.revision] + AssistantFingerprint.PartFields([]);
  }

  lemma DigitText(digit: nat)
    requires 0 < digit < 10
    ensures AssistantFingerprint.Decimal(digit) == [48 + digit]
  {
  }

  /** Examples of section 7 of RFC 3629. */
  lemma Utf8Examples()
    ensures PercentEncoding.Utf8('A') == [0x41]
    ensures PercentEncoding.Utf8('\U{0391}') == [0xCE, 0x91]
    ensures PercentEncoding.Utf8('\U{2262}') == [0xE2, 0x89, 0xA2]
    ensures PercentEncoding.Utf8('\U{233B4}') == [0xF0, 0xA3, 0x8E, 0xB4]
  {
  }

  lemma EscapeExamples()
    ensures PercentEncoding.EncodeChar(' ') == "%20"
    ensures PercentEncoding.EncodeChar('/') == "%2F"
    ensures PercentEncoding.EncodeChar('(') == "("
    ensures PercentEncoding.EncodePayload("(") == "%28"
    ensures PercentEncoding.EncodeChar('\U{0391}') == "%CE%91"
  {
    Utf8Examples();
    assert PercentEncoding.Utf8(' ') == [0x20] && PercentEncoding.Utf8('/') == [0x2F];
    assert PercentEncoding.EncodeComponent("(") == "(" + PercentEncoding.EncodeComponent("");
    assert PercentEncoding.Escapes([0xCE, 0x91]) == PercentEncoding.Escape(0xCE) + PercentEncoding.Escape(0x91);
  }

  /** A list of strings as JSON writes it. */
  lemma ListExample()
    ensures StoreKeys.JsonList(["a", "b"]) == "[\"a\",\"b\"]"
  {
    assert ["a", "b"][1..] == ["b"] && ["b"][1..] == [];
    assert StoreKeys.Quoted("a") == "\"a\"" && StoreKeys.Quoted("b") == "\"b\"";
    assert StoreKeys.Further(["b"]) == ",\"b\"";
  }

  /** A command is named with a colon, unless a colon is in a name already. */
  lemma PlainKeyExample()
    ensures StoreKeys.CommandPreferenceKey("a", "b") == Some("a:b")
  {
    assert "a" + [':'] + "b" == "a:b";
  }

  lemma MarkedKeyExample(commandName: string)
    requires '\0' !in commandName
    ensures StoreKeys.CommandPreferenceKey(":", commandName)
         == Some(['\0'] + StoreKeys.CommandRevisionKey(":", commandName))
  {
    assert ":"[0] == ':';
  }

  lemma CardExample()
    ensures ContentCard.CreateId(ContentCard.Source(ContentCard.Message, "m", ContentCard.Code, "s"))
         == "message:m:code:s"
  {
  }

  lemma LinkExamples(schemes: ComposerReference.Schemes)
    ensures ComposerReference.Printed(schemes, ComposerReference.ExtensionSource("@x", "m", "i"))
         == "[@x](" + schemes.extensionSource + "://m/i)"
    ensures ComposerReference.Printed(schemes, ComposerReference.WorkspaceFile("@x", "f"))
         == "[@x](" + schemes.workspaceFile + "://f)"
  {
  }
}
