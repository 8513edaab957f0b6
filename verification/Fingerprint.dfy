/** The fingerprint of a projection: a 64-bit hash over a length-framed stream of characters. */
module AssistantFingerprint {
  import opened Numbers

  type CodeUnit = n: int | 0 <= n < 0x1_0000

  type Characters = seq<CodeUnit>

  const MODULUS: nat := 0x1_0000_0000_0000_0000
  const PRIME: nat := 1099511628211
  /** Undoes a multiplication by `PRIME` modulo `MODULUS`. */
  const INVERSE: nat := 14886173955864302971
  const OFFSET: nat := 14695981039346656037
  const COLON: CodeUnit := 58

  datatype Kind = Narrative | Code | Diff | Table | Mermaid

  datatype Part = Part(id: Characters, kind: Kind, revision: Characters)

  datatype Projection = Projection(schemaVersion: nat, contentRevision: Characters, parts: seq<Part>)

  // --- One step of the hash --------------------------------------------------------------------

  function Xor(a: nat, b: nat): nat
    decreases a + b
  {
    if a == 0 && b == 0 then 0 else (a % 2 + b % 2) % 2 + 2 * Xor(a / 2, b / 2)
  }

  function Step(hash: nat, unit: CodeUnit): (r: nat)
    ensures r < MODULUS
  {
    Xor(hash, unit) * PRIME % MODULUS
  }

  lemma XorBits(a: nat, b: nat)
    ensures Xor(a, b) / 2 == Xor(a / 2, b / 2) && Xor(a, b) % 2 == (a % 2 + b % 2) % 2
  {
  }

  lemma BitCancels(p: nat, q: nat)
    requires p < 2 && q < 2
    ensures ((p + q) % 2 + q) % 2 == p
  {
  }

  lemma Halves(m: nat, n: nat)
    requires m / 2 == n / 2 && m % 2 == n % 2
    ensures m == n
  {
  }

  lemma {:induction false} XorCancels(a: nat, b: nat)
    ensures Xor(Xor(a, b), b) == a
    decreases a + b
  {
    if a != 0 || b != 0 {
      var once := Xor(a, b);
      XorBits(a, b);
      XorBits(once, b);
      XorCancels(a / 2, b / 2);
      BitCancels(a % 2, b % 2);
      Halves(Xor(once, b), a);
    }
  }

  lemma {:induction false} XorCommutes(a: nat, b: nat)
    ensures Xor(a, b) == Xor(b, a)
    decreases a + b
  {
    if a != 0 || b != 0 {
      XorCommutes(a / 2, b / 2);
    }
  }

  function Power(base: nat, exponent: nat): nat {
    if exponent == 0 then 1 else base * Power(base, exponent - 1)
  }

  lemma {:induction false} XorFits(a: nat, b: nat, bits: nat)
    requires a < Power(2, bits) && b < Power(2, bits)
    ensures Xor(a, b) < Power(2, bits)
    decreases bits
  {
    if bits > 0 {
      XorFits(a / 2, b / 2, bits - 1);
    }
  }

  lemma {:induction false} PowerAdds(base: nat, m: nat, n: nat)
    ensures Power(base, m + n) == Power(base, m) * Power(base, n)
  {
    if m > 0 {
      PowerAdds(base, m - 1, n);
      assert base * (Power(base, m - 1) * Power(base, n)) == base * Power(base, m - 1) * Power(base, n);
    }
  }

  lemma ModulusIsPower()
    ensures Power(2, 64) == MODULUS && Power(16, 16) == MODULUS
  {
    assert Power(2, 8) == 256 && Power(16, 4) == 65536;
    PowerAdds(2, 8, 8);
    PowerAdds(2, 16, 16);
    PowerAdds(2, 32, 32);
    PowerAdds(16, 4, 4);
    PowerAdds(16, 8, 8);
  }

  /** Multiplication by the odd prime loses nothing modulo 2 to the 64. */
  lemma ProductUndone(x: nat)
    requires x < MODULUS
    ensures (x * PRIME % MODULUS) * INVERSE % MODULUS == x
  {
    var wraps := x * PRIME / MODULUS;
    var turns := (PRIME * INVERSE - 1) / MODULUS;
    assert PRIME * INVERSE == turns * MODULUS + 1;
    assert (x * PRIME % MODULUS) * INVERSE == x + MODULUS * (x * turns - wraps * INVERSE);
    Remainder(x, x * turns - wraps * INVERSE);
  }

  lemma Remainder(x: nat, turns: int)
    requires x < MODULUS
    ensures (x + MODULUS * turns) % MODULUS == x
  {
  }

  /** Equal results come from equal hashes if the characters are equal, and the other way round. */
  lemma StepInjective(hash: nat, unit: CodeUnit, otherHash: nat, otherUnit: CodeUnit)
    requires hash < MODULUS && otherHash < MODULUS
    requires Step(hash, unit) == Step(otherHash, otherUnit)
    ensures hash == otherHash <==> unit == otherUnit
  {
    ModulusIsPower();
    XorFits(hash, unit, 64);
    XorFits(otherHash, otherUnit, 64);
    ProductUndone(Xor(hash, unit));
    ProductUndone(Xor(otherHash, otherUnit));
    XorCancels(hash, unit);
    XorCancels(otherHash, otherUnit);
    XorCommutes(hash, unit);
    XorCommutes(otherHash, otherUnit);
    XorCancels(unit, hash);
    XorCancels(otherUnit, otherHash);
  }

  function Hashed(hash: nat, units: Characters): nat
    decreases |units|
  {
    if units == [] then hash else Hashed(Step(hash, units[0]), units[1..])
  }

  lemma {:induction false} HashedConcat(hash: nat, a: Characters, b: Characters)
    ensures Hashed(hash, a + b) == Hashed(Hashed(hash, a), b)
    decreases |a|
  {
    if a == [] {
      assert a + b == b;
    } else {
      assert (a + b)[1..] == a[1..] + b;
      HashedConcat(Step(hash, a[0]), a[1..], b);
    }
  }

  lemma {:induction false} HashedFits(hash: nat, units: Characters)
    requires hash < MODULUS
    ensures Hashed(hash, units) < MODULUS
    decreases |units|
  {
    if units != [] {
      HashedFits(Step(hash, units[0]), units[1..]);
    }
  }

  lemma {:induction false} HashedInjective(hash: nat, other: nat, units: Characters)
    requires hash < MODULUS && other < MODULUS && Hashed(hash, units) == Hashed(other, units)
    ensures hash == other
    decreases |units|
  {
    if units != [] {
      HashedInjective(Step(hash, units[0]), Step(other, units[0]), units[1..]);
      StepInjective(hash, units[0], other, units[0]);
    }
  }

  /** Streams that differ in one character only have different hashes. */
  lemma OneUnitShows(hash: nat, before: Characters, unit: CodeUnit, other: CodeUnit, after: Characters)
    requires hash < MODULUS && unit != other
    ensures Hashed(hash, before + ([unit] + after)) != Hashed(hash, before + ([other] + after))
  {
    var middle := Hashed(hash, before);
    HashedFits(hash, before);
    HashedConcat(hash, before, [unit] + after);
    HashedConcat(hash, before, [other] + after);
    assert ([unit] + after)[1..] == after && ([other] + after)[1..] == after;
    if Hashed(Step(middle, unit), after) == Hashed(Step(middle, other), after) {
      HashedInjective(Step(middle, unit), Step(middle, other), after);
      StepInjective(middle, unit, middle, other);
    }
  }

  // --- Numerals --------------------------------------------------------------------------------

  datatype Base = Ten | Sixteen {
    function Size(): nat {
      if Ten? then 10 else 16
    }

    function Quotient(n: nat): nat {
      if Ten? then n / 10 else n / 16
    }

    function Rest(n: nat): (r: nat)
      ensures r < Size()
    {
      if Ten? then n % 10 else n % 16
    }

    function Times(n: nat): nat {
      if Ten? then n * 10 else n * 16
    }
  }

  /** The digits of a number, most significant first, as `toString` writes them. */
  function Digits(n: nat, base: Base): (digits: seq<nat>)
    ensures digits != [] && forall i :: 0 <= i < |digits| ==> digits[i] < base.Size()
  {
    if n < base.Size() then [n] else Digits(base.Quotient(n), base) + [base.Rest(n)]
  }

  function Value(digits: seq<nat>, base: Base): nat {
    if digits == [] then 0 else base.Times(Value(digits[..|digits| - 1], base)) + digits[|digits| - 1]
  }

  lemma ValueOfMore(digits: seq<nat>, digit: nat, base: Base)
    ensures Value(digits + [digit], base) == base.Times(Value(digits, base)) + digit
  {
    assert (digits + [digit])[..|digits|] == digits;
  }

  lemma {:induction false} DigitsReadBack(n: nat, base: Base)
    ensures Value(Digits(n, base), base) == n
  {
    if n < base.Size() {
      ValueOfMore([], n, base);
      assert [] + [n] == [n];
    } else {
      DigitsReadBack(base.Quotient(n), base);
      ValueOfMore(Digits(base.Quotient(n), base), base.Rest(n), base);
    }
  }

  lemma {:induction false} HexDigitsFit(n: nat, width: nat)
    requires width >= 1 && n < Power(16, width)
    ensures |Digits(n, Sixteen)| <= width
    decreases width
  {
    if n >= 16 {
      HexDigitsFit(n / 16, width - 1);
    }
  }

  // --- The stream ------------------------------------------------------------------------------

  function Decimal(n: nat): (text: Characters)
    ensures forall i :: 0 <= i < |text| ==> text[i] != COLON
  {
    var digits := Digits(n, Ten);
    seq(|digits|, i requires 0 <= i < |digits| => 48 + digits[i])
  }

  /** A value with its length in front, so that values cannot run into each other. */
  function Frame(value: Characters): Characters {
    Decimal(|value|) + [COLON] + value
  }

  function Stream(fields: seq<Characters>): (stream: Characters)
    ensures stream == [] <==> fields == []
  {
    if fields == [] then [] else Frame(fields[0]) + Stream(fields[1..])
  }

  function KindText(kind: Kind): Characters {
    match kind
    case Narrative => [110, 97, 114, 114, 97, 116, 105, 118, 101]
    case Code => [99, 111, 100, 101]
    case Diff => [100, 105, 102, 102]
    case Table => [116, 97, 98, 108, 101]
    case Mermaid => [109, 101, 114, 109, 97, 105, 100]
  }

  function PartFields(parts: seq<Part>): (fields: seq<Characters>)
    ensures |fields| == 3 * |parts|
  {
    if parts == [] then []
    else [parts[0].id, KindText(parts[0].kind), parts[0].revision] + PartFields(parts[1..])
  }

  /** The values that are hashed, in the order in which they are. */
  function Fields(projection: Projection): seq<Characters> {
    [Decimal(projection.schemaVersion), projection.contentRevision] + PartFields(projection.parts)
  }

  lemma DecimalInjective(m: nat, n: nat)
    requires Decimal(m) == Decimal(n)
    ensures m == n
  {
    var a, b := Digits(m, Ten), Digits(n, Ten);
    forall i | 0 <= i < |a| ensures a[i] == b[i] {
      assert Decimal(m)[i] == 48 + a[i] && Decimal(n)[i] == 48 + b[i];
    }
    assert a == b;
    DigitsReadBack(m, Ten);
    DigitsReadBack(n, Ten);
  }

  /** What comes before the first colon, and what comes after it. */
  lemma FirstColon(a: Characters, x: Characters, b: Characters, y: Characters)
    requires a + [COLON] + x == b + [COLON] + y
    requires forall i :: 0 <= i < |a| ==> a[i] != COLON
    requires forall i :: 0 <= i < |b| ==> b[i] != COLON
    ensures a == b && x == y
  {
    var s := a + [COLON] + x;
    assert s[|a|] == COLON && s[|b|] == COLON;
    assert forall i :: 0 <= i < |a| ==> s[i] == a[i];
    assert forall i :: 0 <= i < |b| ==> s[i] == b[i];
    assert a == s[..|a|] && b == s[..|b|];
    assert x == s[|a| + 1..] && y == s[|b| + 1..];
  }

  /** A framed value can be told from whatever follows it. */
  lemma FrameInjective(a: Characters, x: Characters, b: Characters, y: Characters)
    requires Frame(a) + x == Frame(b) + y
    ensures a == b && x == y
  {
    assert Frame(a) + x == Decimal(|a|) + [COLON] + (a + x);
    assert Frame(b) + y == Decimal(|b|) + [COLON] + (b + y);
    FirstColon(Decimal(|a|), a + x, Decimal(|b|), b + y);
    DecimalInjective(|a|, |b|);
    assert a == (a + x)[..|a|] && b == (b + y)[..|b|];
    assert x == (a + x)[|a|..] && y == (b + y)[|b|..];
  }

  lemma {:induction false} StreamInjective(a: seq<Characters>, b: seq<Characters>)
    requires Stream(a) == Stream(b)
    ensures a == b
    decreases |a|
  {
    if a != [] && b != [] {
      FrameInjective(a[0], Stream(a[1..]), b[0], Stream(b[1..]));
      StreamInjective(a[1..], b[1..]);
      assert a == [a[0]] + a[1..] && b == [b[0]] + b[1..];
    }
  }

  lemma {:induction false} PartFieldsInjective(a: seq<Part>, b: seq<Part>)
    requires PartFields(a) == PartFields(b)
    ensures a == b
    decreases |a|
  {
    if a != [] && b != [] {
      FirstPart(a);
      FirstPart(b);
      assert KindText(a[0].kind)[0] == KindText(b[0].kind)[0];
      PartFieldsInjective(a[1..], b[1..]);
      assert a == [a[0]] + a[1..] && b == [b[0]] + b[1..];
    }
  }

  lemma FirstPart(parts: seq<Part>)
    requires parts != []
    ensures var fields := PartFields(parts);
            |fields| >= 3 && fields[0] == parts[0].id && fields[1] == KindText(parts[0].kind)
            && fields[2] == parts[0].revision && fields[3..] == PartFields(parts[1..])
  {
  }

  /** Different projections are hashed from different streams. */
  lemma StreamTellsProjections(a: Projection, b: Projection)
    requires Stream(Fields(a)) == Stream(Fields(b))
    ensures a == b
  {
    StreamInjective(Fields(a), Fields(b));
    assert Fields(a)[0] == Fields(b)[0] && Fields(a)[1] == Fields(b)[1];
    DecimalInjective(a.schemaVersion, b.schemaVersion);
    assert PartFields(a.parts) == Fields(a)[2..] && PartFields(b.parts) == Fields(b)[2..];
    PartFieldsInjective(a.parts, b.parts);
  }

  // --- The fingerprint -------------------------------------------------------------------------

  function HexText(n: nat): string {
    var digits := Digits(n, Sixteen);
    seq(|digits|, i requires 0 <= i < |digits| => HexDigit(digits[i]))
  }

  /** `padStart` with zeros. */
  function PadStart(text: string, width: nat): string
    decreases width - |text|
  {
    if |text| >= width then text else PadStart("0" + text, width)
  }

  function Printed(hash: nat): string {
    "fnv1a64:" + PadStart(HexText(hash), 16)
  }

  function Fingerprint(projection: Projection): string {
    Printed(Hashed(OFFSET, Stream(Fields(projection))))
  }

  function ReadHex(text: string): nat {
    if text == "" then 0
    else
      var digit := HexValue(text[|text| - 1]);
      ReadHex(text[..|text| - 1]) * 16 + if digit.Some? then digit.value else 0
  }

  lemma {:induction false} ReadHexOfDigits(digits: seq<nat>, text: string)
    requires |text| == |digits| && forall i :: 0 <= i < |digits| ==> digits[i] < 16 && text[i] == HexDigit(digits[i])
    ensures ReadHex(text) == Value(digits, Sixteen)
  {
    if digits != [] {
      var last := |digits| - 1;
      ReadHexOfDigits(digits[..last], text[..last]);
      HexDigitReadsBack(digits[last]);
    }
  }

  lemma HexReadsBack(n: nat)
    ensures ReadHex(HexText(n)) == n
  {
    ReadHexOfDigits(Digits(n, Sixteen), HexText(n));
    DigitsReadBack(n, Sixteen);
  }

  lemma {:induction false} LeadingZero(text: string)
    ensures ReadHex("0" + text) == ReadHex(text)
  {
    var padded := "0" + text;
    if text == "" {
      assert padded[..0] == "";
    } else {
      assert padded[..|padded| - 1] == "0" + text[..|text| - 1];
      LeadingZero(text[..|text| - 1]);
    }
  }

  lemma {:induction false} PaddingKeepsValue(text: string, width: nat)
    ensures ReadHex(PadStart(text, width)) == ReadHex(text)
    ensures |text| <= width ==> |PadStart(text, width)| == width
    decreases width - |text|
  {
    if |text| < width {
      LeadingZero(text);
      PaddingKeepsValue("0" + text, width);
    }
  }

  /** Sixteen digits always suffice, and different hashes are printed differently. */
  lemma PrintedInjective(hash: nat, other: nat)
    requires hash < MODULUS && other < MODULUS
    ensures |Printed(hash)| == 24
    ensures Printed(hash) == Printed(other) ==> hash == other
  {
    ModulusIsPower();
    HexDigitsFit(hash, 16);
    PaddingKeepsValue(HexText(hash), 16);
    PaddingKeepsValue(HexText(other), 16);
    HexReadsBack(hash);
    HexReadsBack(other);
    if Printed(hash) == Printed(other) {
      assert Printed(hash)[8..] == PadStart(HexText(hash), 16);
      assert Printed(other)[8..] == PadStart(HexText(other), 16);
    }
  }

  lemma {:induction false} StreamConcat(a: seq<Characters>, b: seq<Characters>)
    ensures Stream(a + b) == Stream(a) + Stream(b)
  {
    if a == [] {
      assert a + b == b;
    } else {
      assert (a + b)[1..] == a[1..] + b;
      StreamConcat(a[1..], b);
    }
  }

  /** The stream around one character of one field. */
  lemma StreamAround(fields: seq<Characters>, i: nat, j: nat)
    requires i < |fields| && j < |fields[i]|
    ensures Stream(fields) == (Stream(fields[..i]) + (Decimal(|fields[i]|) + [COLON] + fields[i][..j]))
                              + ([fields[i][j]] + (fields[i][j + 1..] + Stream(fields[i + 1..])))
  {
    assert fields == fields[..i] + fields[i..];
    StreamConcat(fields[..i], fields[i..]);
    assert fields[i..][1..] == fields[i + 1..];
    assert fields[i] == fields[i][..j] + ([fields[i][j]] + fields[i][j + 1..]);
    Regrouped(Stream(fields[..i]), Decimal(|fields[i]|) + [COLON], fields[i][..j], [fields[i][j]],
              fields[i][j + 1..], Stream(fields[i + 1..]));
  }

  lemma Regrouped(a: Characters, b: Characters, c: Characters, d: Characters, e: Characters, f: Characters)
    ensures a + (b + (c + (d + e)) + f) == (a + (b + c)) + (d + (e + f))
  {
  }

  /** The field lists differ in exactly one character. */
  ghost predicate OneCharacterApart(a: seq<Characters>, b: seq<Characters>, i: nat, j: nat) {
    && |a| == |b| && i < |a| && a[..i] == b[..i] && a[i + 1..] == b[i + 1..]
    && |a[i]| == |b[i]| && j < |a[i]| && a[i][..j] == b[i][..j] && a[i][j + 1..] == b[i][j + 1..]
    && a[i][j] != b[i][j]
  }

  /** Changing one character of one hashed value always changes the fingerprint. */
  lemma OneCharacterShows(a: Projection, b: Projection, i: nat, j: nat)
    requires OneCharacterApart(Fields(a), Fields(b), i, j)
    ensures Fingerprint(a) != Fingerprint(b)
  {
    var f, g := Fields(a), Fields(b);
    var before := Stream(f[..i]) + (Decimal(|f[i]|) + [COLON] + f[i][..j]);
    var after := f[i][j + 1..] + Stream(f[i + 1..]);
    StreamAround(f, i, j);
    StreamAround(g, i, j);
    OneUnitShows(OFFSET, before, f[i][j], g[i][j], after);
    HashedFits(OFFSET, Stream(f));
    HashedFits(OFFSET, Stream(g));
    PrintedInjective(Hashed(OFFSET, Stream(f)), Hashed(OFFSET, Stream(g)));
  }

  // --- The loops -------------------------------------------------------------------------------

  /** The local function `update`. */
  method HashValue(start: nat, value: Characters) returns (hash: nat)
    ensures hash == Hashed(start, Frame(value))
  {
    hash := start;
    var framed := Decimal(|value|) + [COLON] + value;
    assert framed[0..] == framed;
    for index := 0 to |framed|
      invariant Hashed(hash, framed[index..]) == Hashed(start, framed)
    {
      hash := Xor(hash, framed[index]);
      hash := hash * PRIME % MODULUS;
      assert framed[index..][1..] == framed[index + 1..];
    }
  }

  method AssistantContentProjectionFingerprint(projection: Projection) returns (text: string)
    ensures text == Fingerprint(projection)
  {
    var hash := HashValue(OFFSET, Decimal(projection.schemaVersion));
    hash := HashValue(hash, projection.contentRevision);
    ghost var goal := Hashed(OFFSET, Stream(Fields(projection)));
    StreamHead(projection);
    assert projection.parts[0..] == projection.parts;
    for index := 0 to |projection.parts|
      invariant Hashed(hash, Stream(PartFields(projection.parts[index..]))) == goal
    {
      var part := projection.parts[index];
      PartHead(hash, projection.parts[index..]);
      assert projection.parts[index..][1..] == projection.parts[index + 1..];
      hash := HashValue(hash, part.id);
      hash := HashValue(hash, KindText(part.kind));
      hash := HashValue(hash, part.revision);
    }
    assert projection.parts[|projection.parts|..] == [];
    text := "fnv1a64:" + PadStart(HexText(hash), 16);
  }

  lemma StreamHead(projection: Projection)
    ensures Hashed(Hashed(Hashed(OFFSET, Frame(Decimal(projection.schemaVersion))), Frame(projection.contentRevision)),
                   Stream(PartFields(projection.parts)))
         == Hashed(OFFSET, Stream(Fields(projection)))
  {
    var version, revision := Decimal(projection.schemaVersion), projection.contentRevision;
    var rest := PartFields(projection.parts);
    TwoFields(OFFSET, version, revision, rest);
  }

  lemma TwoFields(hash: nat, first: Characters, second: Characters, rest: seq<Characters>)
    ensures Hashed(Hashed(Hashed(hash, Frame(first)), Frame(second)), Stream(rest))
         == Hashed(hash, Stream([first, second] + rest))
  {
    assert ([first, second] + rest)[1..] == [second] + rest;
    assert ([second] + rest)[1..] == rest;
    HashedConcat(hash, Frame(first), Stream([second] + rest));
    HashedConcat(Hashed(hash, Frame(first)), Frame(second), Stream(rest));
  }

  lemma PartHead(hash: nat, parts: seq<Part>)
    requires parts != []
    ensures Hashed(Hashed(Hashed(Hashed(hash, Frame(parts[0].id)), Frame(KindText(parts[0].kind))),
                          Frame(parts[0].revision)),
                   Stream(PartFields(parts[1..])))
         == Hashed(hash, Stream(PartFields(parts)))
  {
    var id, kind, revision := parts[0].id, KindText(parts[0].kind), parts[0].revision;
    var rest := PartFields(parts[1..]);
    assert PartFields(parts) == [id] + ([kind, revision] + rest);
    assert ([id] + ([kind, revision] + rest))[1..] == [kind, revision] + rest;
    HashedConcat(hash, Frame(id), Stream([kind, revision] + rest));
    TwoFields(Hashed(hash, Frame(id)), kind, revision, rest);
  }
}
