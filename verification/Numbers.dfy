/** Numbers as JavaScript has them: the safe integers, and the digits of base sixteen. */
module Numbers {
  import opened Wrappers

  /** `Number.MAX_SAFE_INTEGER`. */
  const MAX_SAFE_INTEGER: nat := 0x1F_FFFF_FFFF_FFFF

  function HexDigit(digit: nat): char
    requires digit < 16
  {
    if digit < 10 then '0' + digit as char else 'a' + (digit - 10) as char
  }

  function UpperHexDigit(digit: nat): char
    requires digit < 16
  {
    if digit < 10 then '0' + digit as char else 'A' + (digit - 10) as char
  }

  function HexValue(c: char): Option<nat> {
    if '0' <= c <= '9' then Some(c as nat - '0' as nat)
    else if 'A' <= c <= 'F' then Some(c as nat - 'A' as nat + 10)
    else if 'a' <= c <= 'f' then Some(c as nat - 'a' as nat + 10)
    else None
  }

  lemma HexDigitReadsBack(digit: nat)
    requires digit < 16
    ensures HexValue(HexDigit(digit)) == HexValue(UpperHexDigit(digit)) == Some(digit)
  {
  }
}
