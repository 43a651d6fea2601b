/** strconv.Unquote on a double-quoted string of octets. */
module Quoting {
  import opened Wrappers
  import opened Decimals

  function HexValue(c: char): Option<nat> {
    if IsDigit(c) then Some(DigitValue(c))
    else if 'a' <= c <= 'f' then Some(10 + (c - 'a') as int)
    else if 'A' <= c <= 'F' then Some(10 + (c - 'A') as int)
    else None
  }

  function HexNumber(s: string): Option<nat>
    decreases |s|
  {
    if s == "" then Some(0)
    else
      match (HexNumber(s[..|s| - 1]), HexValue(s[|s| - 1]))
      case (Some(n), Some(d)) => Some(16 * n + d)
      case _ => None
  }

  /** Stands for a character beyond ASCII, whatever its octets. */
  const BEYOND_ASCII: char := '\U{FF}'

  function RuneOf(n: nat): Option<char> {
    if n > 0x10FFFF || 0xD800 <= n <= 0xDFFF then None
    else if n < 0x80 then Some(n as char)
    else Some(BEYOND_ASCII)
  }

  /** `width` hexadecimal digits at the front. */
  function HexEscape(s: string, width: nat): Option<nat> {
    if |s| < width then None else HexNumber(s[..width])
  }

  predicate IsOctal(c: char) {
    '0' <= c <= '7'
  }

  /** What the octets after a backslash denote, and how many they are. */
  function Escape(s: string): Option<(char, nat)> {
    if s == "" then None
    else if s[0] == 'a' then Some(('\U{07}', 1))
    else if s[0] == 'b' then Some(('\U{08}', 1))
    else if s[0] == 'f' then Some(('\U{0C}', 1))
    else if s[0] == 'n' then Some(('\n', 1))
    else if s[0] == 'r' then Some(('\r', 1))
    else if s[0] == 't' then Some(('\t', 1))
    else if s[0] == 'v' then Some(('\U{0B}', 1))
    else if s[0] == '\\' || s[0] == '"' then Some((s[0], 1))
    else if s[0] == 'x' then
      match HexEscape(s[1..], 2)
      case Some(n) => Some((if n < 0x80 then n as char else BEYOND_ASCII, 3))
      case None => None
    else if s[0] == 'u' || s[0] == 'U' then
      var width := if s[0] == 'u' then 4 else 8;
      match HexEscape(s[1..], width)
      case Some(n) =>
        (match RuneOf(n)
         case Some(c) => Some((c, 1 + width))
         case None => None)
      case None => None
    else if |s| >= 3 && IsOctal(s[0]) && IsOctal(s[1]) && IsOctal(s[2]) then
      var n := 64 * DigitValue(s[0]) + 8 * DigitValue(s[1]) + DigitValue(s[2]);
      if n > 255 then None else Some((if n < 0x80 then n as char else BEYOND_ASCII, 3))
    else None
  }

  lemma EscapeConsumes(s: string)
    ensures Escape(s).Some? ==> 0 < Escape(s).value.1 <= |s|
  {
  }

  /** What follows the opening quote, up to a closing quote at the very end. */
  function UnquotedRest(s: string): Option<string>
    decreases |s|
  {
    if s == "" || s[0] == '\n' then None
    else if s[0] == '"' then (if |s| == 1 then Some("") else None)
    else
      var head := if s[0] == '\\' then Escape(s[1..]) else Some((s[0], 0));
      match head
      case None => None
      case Some((c, n)) =>
        EscapeConsumes(s[1..]);
        match UnquotedRest(s[1 + n..])
        case None => None
        case Some(rest) => Some([c] + rest)
  }

  function Unquoted(s: string): Option<string>
    requires |s| >= 2 && s[0] == '"'
  {
    UnquotedRest(s[1..])
  }

  /** Digits in quotes are those digits. */
  lemma {:induction false} QuotedDigits(s: string)
    requires Digits(s)
    ensures UnquotedRest(s + "\"") == Some(s)
    decreases |s|
  {
    if s == "" {
      assert s + "\"" == "\"";
    } else {
      assert IsDigit(s[0]);
      var rest := s[1..];
      assert forall i :: 0 <= i < |rest| ==> rest[i] == s[i + 1];
      QuotedDigits(rest);
      assert (s + "\"")[1..] == rest + "\"";
      assert s == [s[0]] + rest;
    }
  }

  function HexDigit(n: nat): char
    requires n < 16
  {
    if n < 10 then '0' + n as char else 'a' + (n - 10) as char
  }

  function HexText(n: nat, width: nat): (s: string)
    ensures |s| == width
    decreases width
  {
    if width == 0 then "" else HexText(n / 16, width - 1) + [HexDigit(n % 16)]
  }

  function Pow16(k: nat): nat {
    if k == 0 then 1 else 16 * Pow16(k - 1)
  }

  lemma {:induction false} HexReadsBack(n: nat, width: nat)
    requires n < Pow16(width)
    ensures HexNumber(HexText(n, width)) == Some(n)
    decreases width
  {
    if width > 0 {
      HexReadsBack(n / 16, width - 1);
      assert HexText(n, width)[..width - 1] == HexText(n / 16, width - 1);
    }
  }

  /** A character of ASCII may be written in two, four or eight hexadecimal digits. */
  lemma AsciiEscapes(c: char, width: nat, n: nat, rest: string)
    requires n < 0x80 && ((c == 'x' && width == 2) || (c == 'u' && width == 4) || (c == 'U' && width == 8))
    ensures Escape([c] + (HexText(n, width) + rest)) == Some((n as char, 1 + width))
  {
    HexEscapes(n, width, rest);
    EscapeByHex(c, width, HexText(n, width) + rest, n);
  }

  lemma EscapeByHex(c: char, width: nat, digits: string, n: nat)
    requires n < 0x80 && ((c == 'x' && width == 2) || (c == 'u' && width == 4) || (c == 'U' && width == 8))
    requires HexEscape(digits, width) == Some(n)
    ensures Escape([c] + digits) == Some((n as char, 1 + width))
  {
    assert ([c] + digits)[1..] == digits;
  }

  lemma HexEscapes(n: nat, width: nat, rest: string)
    requires n < 0x80 && width >= 2
    ensures HexEscape(HexText(n, width) + rest, width) == Some(n)
  {
    SmallHex(width);
    HexReadsBack(n, width);
    assert (HexText(n, width) + rest)[..width] == HexText(n, width);
  }

  lemma {:induction false} SmallHex(width: nat)
    requires width >= 2
    ensures Pow16(width) >= 256
  {
    if width > 2 {
      SmallHex(width - 1);
    }
  }
}
