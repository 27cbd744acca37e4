/** Textual forms used by the trace file and the log messages: decimal
    integers (`Long.toString` / `toLong`), booleans (`toString` /
    `String.toBoolean`) and ASCII lower-casing (`toLowerCase`). */
module Text {
  import opened Wrappers

  predicate IsDigitChar(c: char) {
    '0' <= c <= '9'
  }

  function DigitChar(d: nat): (c: char)
    requires d < 10
    ensures IsDigitChar(c)
  {
    (48 + d) as char
  }

  function DigitValue(c: char): (d: nat)
    requires IsDigitChar(c)
    ensures d < 10 && DigitChar(d) == c
  {
    (c as int - 48) as nat
  }

  predicate AllDigits(s: string) {
    forall i :: 0 <= i < |s| ==> IsDigitChar(s[i])
  }

  /** Decimal form of a natural number, most significant digit first, no
      leading zeros. */
  function NatToString(n: nat): (s: string)
    ensures |s| > 0 && AllDigits(s)
    decreases n
  {
    if n < 10 then [DigitChar(n)] else NatToString(n / 10) + [DigitChar(n % 10)]
  }

  /** Value of a non-empty string of decimal digits. */
  function ParseDigits(s: string): nat
    requires |s| > 0 && AllDigits(s)
    decreases |s|
  {
    if |s| == 1 then DigitValue(s[0])
    else ParseDigits(s[..|s| - 1]) * 10 + DigitValue(s[|s| - 1])
  }

  lemma {:induction false} ParseNatToString(n: nat)
    ensures ParseDigits(NatToString(n)) == n
    decreases n
  {
    if n >= 10 {
      var s := NatToString(n);
      assert s[..|s| - 1] == NatToString(n / 10);
      ParseNatToString(n / 10);
    }
  }

  /** `Long.toString()`: optional minus sign, then the decimal digits. */
  function IntToString(n: int): (s: string)
    ensures |s| > 0
    ensures forall i :: 0 <= i < |s| ==> IsDigitChar(s[i]) || s[i] == '-'
  {
    if n < 0 then "-" + NatToString(-n) else NatToString(n)
  }

  /** `String.toLong()`, with `None` for text that is not a decimal integer. */
  function ParseInt(s: string): Option<int> {
    if |s| > 1 && s[0] == '-' && AllDigits(s[1..]) then Some(-(ParseDigits(s[1..]) as int))
    else if |s| > 0 && AllDigits(s) then Some(ParseDigits(s))
    else None
  }

  /** Parsing the printed form of any integer gives the integer back. */
  lemma IntRoundTrip(n: int)
    ensures ParseInt(IntToString(n)) == Some(n)
  {
    if n < 0 {
      var s := IntToString(n);
      assert s[1..] == NatToString(-n);
      ParseNatToString(-n);
    } else {
      ParseNatToString(n);
    }
  }

  /** ASCII lower-casing; other characters are kept. */
  function LowerChar(c: char): char {
    if 'A' <= c <= 'Z' then (c as int + 32) as char else c
  }

  function LowerAscii(s: string): (r: string)
    ensures |r| == |s|
    ensures forall i :: 0 <= i < |s| ==> r[i] == LowerChar(s[i])
  {
    seq(|s|, i requires 0 <= i < |s| => LowerChar(s[i]))
  }

  /** `Boolean.toString()`. */
  function BoolToString(b: bool): string {
    if b then "true" else "false"
  }

  /** `String.toBoolean()`: true exactly for "true" in any letter case. */
  function ParseBool(s: string): bool {
    LowerAscii(s) == "true"
  }

  lemma BoolRoundTrip(b: bool)
    ensures ParseBool(BoolToString(b)) == b
  {
    if !b {
      assert LowerAscii("false")[0] == 'f';
    }
  }
}
