/** The keys under which configuration is stored, and why no two owners share one. */
module StoreKeys {
  import opened Wrappers
  import opened Numbers

  // --- Strings as JSON writes them -------------------------------------------------------------

  function Escaped(c: char): (text: string)
    ensures text != "" && text[0] != '"'
  {
    if c == '"' then ['\\', '"']
    else if c == '\\' then ['\\', '\\']
    else if c == '\U{0008}' then ['\\', 'b']
    else if c == '\t' then ['\\', 't']
    else if c == '\n' then ['\\', 'n']
    else if c == '\U{000C}' then ['\\', 'f']
    else if c == '\r' then ['\\', 'r']
    else if c < ' ' then ['\\', 'u', '0', '0', HexDigit(c as nat / 16), HexDigit(c as nat % 16)]
    else [c]
  }

  function EscapedAll(s: string): string {
    if s == "" then "" else Escaped(s[0]) + EscapedAll(s[1..])
  }

  function Quoted(s: string): string {
    ['"'] + EscapedAll(s) + ['"']
  }

  /** The items of a list but the first, each behind a comma. */
  function Further(items: seq<string>): string {
    if items == [] then "" else [','] + (Quoted(items[0]) + Further(items[1..]))
  }

  function Joined(items: seq<string>): string {
    if items == [] then "" else Quoted(items[0]) + Further(items[1..])
  }

  /** `JSON.stringify` of a list of strings. */
  function JsonList(items: seq<string>): string {
    ['['] + Joined(items) + [']']
  }

  /** Escapes of different characters cannot be confused, whatever follows them. */
  lemma EscapedIsPrefixFree(c: char, x: string, d: char, y: string)
    requires Escaped(c) + x == Escaped(d) + y
    ensures c == d && x == y
  {
    var s := Escaped(c) + x;
    assert s[0] == Escaped(c)[0] && s[0] == Escaped(d)[0];
    if s[0] == '\\' {
      assert s[1] == Escaped(c)[1] && s[1] == Escaped(d)[1];
      if s[1] == 'u' {
        assert s[4] == Escaped(c)[4] && s[4] == Escaped(d)[4];
        assert s[5] == Escaped(c)[5] && s[5] == Escaped(d)[5];
        HexDigitReadsBack(c as nat / 16);
        HexDigitReadsBack(d as nat / 16);
        HexDigitReadsBack(c as nat % 16);
        HexDigitReadsBack(d as nat % 16);
      }
    }
    assert c == d;
    assert x == s[|Escaped(c)|..] && y == s[|Escaped(d)|..];
  }

  /** The rest of a quoted string and what comes after it. */
  function Rest(s: string, after: string): string {
    EscapedAll(s) + (['"'] + after)
  }

  lemma RestStarts(s: string, after: string)
    ensures Rest(s, after) != "" && (Rest(s, after)[0] == '"' <==> s == "")
    ensures s == "" ==> Rest(s, after)[1..] == after
    ensures s != "" ==> Rest(s, after) == Escaped(s[0]) + Rest(s[1..], after)
  {
  }

  /** The closing quote of a string can be found, so the string can be read back. */
  lemma {:induction false} EscapedAllReadsBack(a: string, x: string, b: string, y: string)
    requires Rest(a, x) == Rest(b, y)
    ensures a == b && x == y
    decreases |a|
  {
    RestStarts(a, x);
    RestStarts(b, y);
    if a != "" {
      EscapedIsPrefixFree(a[0], Rest(a[1..], x), b[0], Rest(b[1..], y));
      EscapedAllReadsBack(a[1..], x, b[1..], y);
      assert a == [a[0]] + a[1..] && b == [b[0]] + b[1..];
    }
  }

  lemma QuotedReadsBack(a: string, x: string, b: string, y: string)
    requires Quoted(a) + x == Quoted(b) + y
    ensures a == b && x == y
  {
    var s, t := Quoted(a) + x, Quoted(b) + y;
    assert s[1..] == Rest(a, x);
    assert t[1..] == Rest(b, y);
    EscapedAllReadsBack(a, x, b, y);
  }

  lemma ItemsReadBack(a: seq<string>, b: seq<string>)
    requires a != [] && b != []
    requires Quoted(a[0]) + Further(a[1..]) == Quoted(b[0]) + Further(b[1..])
    ensures a[0] == b[0] && Further(a[1..]) == Further(b[1..])
  {
    QuotedReadsBack(a[0], Further(a[1..]), b[0], Further(b[1..]));
  }

  lemma {:induction false} FurtherInjective(a: seq<string>, b: seq<string>)
    requires Further(a) == Further(b)
    ensures a == b
    decreases |a|
  {
    if a == [] || b == [] {
      assert a == b;
    } else {
      assert Quoted(a[0]) + Further(a[1..]) == Further(a)[1..];
      assert Quoted(b[0]) + Further(b[1..]) == Further(b)[1..];
      ItemsReadBack(a, b);
      FurtherInjective(a[1..], b[1..]);
      assert a == [a[0]] + a[1..] && b == [b[0]] + b[1..];
    }
  }

  lemma JoinedInjective(a: seq<string>, b: seq<string>)
    requires Joined(a) == Joined(b)
    ensures a == b
  {
    if a == [] || b == [] {
      assert a == b;
    } else {
      ItemsReadBack(a, b);
      FurtherInjective(a[1..], b[1..]);
      assert a == [a[0]] + a[1..] && b == [b[0]] + b[1..];
    }
  }

  lemma JsonListInjective(a: seq<string>, b: seq<string>)
    requires JsonList(a) == JsonList(b)
    ensures a == b
  {
    assert Joined(a) == JsonList(a)[1..|JsonList(a)| - 1];
    assert Joined(b) == JsonList(b)[1..|JsonList(b)| - 1];
    JoinedInjective(a, b);
  }

  // --- The keys --------------------------------------------------------------------------------

  /** `getNativeExtensionConnectionOwnerKey`. */
  function ConnectionOwnerKey(extensionName: string, provider: string, connectionId: string): string {
    JsonList(["connection", extensionName, provider, connectionId])
  }

  /** `getCommandRevisionStoreKey`. */
  function CommandRevisionKey(extensionName: string, commandName: string): string {
    JsonList(["command", extensionName, commandName])
  }

  /** `getCommandPreferenceStoreKey`, which refuses the null character. */
  function CommandPreferenceKey(extensionName: string, commandName: string): Option<string> {
    if '\0' in extensionName || '\0' in commandName then None
    else if ':' in extensionName || ':' in commandName then
      Some(['\0'] + JsonList(["command", extensionName, commandName]))
    else Some(extensionName + [':'] + commandName)
  }

  lemma ConnectionOwnerKeyInjective(e: string, p: string, c: string, e': string, p': string, c': string)
    requires ConnectionOwnerKey(e, p, c) == ConnectionOwnerKey(e', p', c')
    ensures e == e' && p == p' && c == c'
  {
    var a, b := ["connection", e, p, c], ["connection", e', p', c'];
    JsonListInjective(a, b);
    assert a[1] == b[1] && a[2] == b[2] && a[3] == b[3];
  }

  lemma CommandRevisionKeyInjective(e: string, c: string, e': string, c': string)
    requires CommandRevisionKey(e, c) == CommandRevisionKey(e', c')
    ensures e == e' && c == c'
  {
    var a, b := ["command", e, c], ["command", e', c'];
    JsonListInjective(a, b);
    assert a[1] == b[1] && a[2] == b[2];
  }

  lemma PlainKeyInjective(e: string, c: string, e': string, c': string)
    requires ':' !in e && ':' !in e' && e + [':'] + c == e' + [':'] + c'
    ensures e == e' && c == c'
  {
    var s := e + [':'] + c;
    assert s[|e|] == ':' && s[|e'|] == ':';
    assert forall i :: 0 <= i < |e| ==> s[i] == e[i];
    assert forall i :: 0 <= i < |e'| ==> s[i] == e'[i];
    assert e == s[..|e|] && e' == s[..|e'|];
    assert c == s[|e| + 1..] && c' == s[|e'| + 1..];
  }

  /** The two forms of a key start differently. */
  lemma KeyStart(e: string, c: string)
    requires CommandPreferenceKey(e, c).Some?
    ensures var key := CommandPreferenceKey(e, c).value;
            key != "" && (key[0] == '\0' <==> ':' in e || ':' in c)
  {
    if !(':' in e || ':' in c) {
      assert (e + [':'] + c)[0] == if e == "" then ':' else e[0];
    }
  }

  lemma ListedKeyInjective(e: string, c: string, e': string, c': string)
    requires ['\0'] + JsonList(["command", e, c]) == ['\0'] + JsonList(["command", e', c'])
    ensures e == e' && c == c'
  {
    var a, b := JsonList(["command", e, c]), JsonList(["command", e', c']);
    assert (['\0'] + a)[1..] == a && (['\0'] + b)[1..] == b;
    CommandRevisionKeyInjective(e, c, e', c');
  }

  /** Two commands share a key only if they are the same command of the same extension. */
  lemma CommandPreferenceKeyInjective(e: string, c: string, e': string, c': string)
    requires CommandPreferenceKey(e, c).Some? && CommandPreferenceKey(e, c) == CommandPreferenceKey(e', c')
    ensures e == e' && c == c'
  {
    KeyStart(e, c);
    KeyStart(e', c');
    if ':' in e || ':' in c {
      ListedKeyInjective(e, c, e', c');
    } else {
      PlainKeyInjective(e, c, e', c');
    }
  }
}
