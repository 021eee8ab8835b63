/** Lower-case hexadecimal rendering of an unsigned number, as Rust's `{:x}`
    format specifier writes it: digits `0-9a-f`, most significant first, no
    leading zeros, and `"0"` for zero. */
module Hex {

  predicate IsLowerHexDigit(c: char) {
    '0' <= c <= '9' || 'a' <= c <= 'f'
  }

  function HexDigit(d: nat): (c: char)
    requires d < 16
    ensures IsLowerHexDigit(c)
  {
    "0123456789abcdef"[d]
  }

  /** The value of one digit; the inverse of `HexDigit`. */
  function DigitValue(c: char): (d: nat)
    requires IsLowerHexDigit(c)
    ensures d < 16 && HexDigit(d) == c
  {
    if c <= '9' then c as int - '0' as int else c as int - 'a' as int + 10
  }

  lemma DigitValueHexDigit(d: nat)
    requires d < 16
    ensures DigitValue(HexDigit(d)) == d
  {}

  /** `format!("{:x}", n)`. */
  function LowerHex(n: nat): (s: string)
    ensures |s| >= 1
    ensures forall i :: 0 <= i < |s| ==> IsLowerHexDigit(s[i])
    ensures n == 0 <==> s == "0"
    ensures s[0] != '0' || |s| == 1
    decreases n
  {
    if n < 16 then [HexDigit(n)] else LowerHex(n / 16) + [HexDigit(n % 16)]
  }

  /** Reads a string of lower-case hexadecimal digits back as a number. */
  function ParseHex(s: string): nat
    requires forall i :: 0 <= i < |s| ==> IsLowerHexDigit(s[i])
  {
    if |s| == 0 then 0 else ParseHex(s[..|s| - 1]) * 16 + DigitValue(s[|s| - 1])
  }

  /** Parsing the rendering gives the number back. */
  lemma {:induction false} ParseLowerHex(n: nat)
    ensures ParseHex(LowerHex(n)) == n
    decreases n
  {
    var s := LowerHex(n);
    DigitValueHexDigit(n % 16);
    if n >= 16 {
      assert s[..|s| - 1] == LowerHex(n / 16);
      ParseLowerHex(n / 16);
    }
  }

  /** Different numbers render differently. */
  lemma LowerHexInjective(m: nat, n: nat)
    ensures LowerHex(m) == LowerHex(n) <==> m == n
  {
    if LowerHex(m) == LowerHex(n) {
      ParseLowerHex(m);
      ParseLowerHex(n);
    }
  }
}
