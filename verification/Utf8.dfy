/** UTF-8 in strings of octets, and the replacement of what is not UTF-8 by encoding/json. */
module Utf8 {
  predicate Continues(c: char) {
    '\U{80}' <= c <= '\U{BF}'
  }

  /** The second octet that may follow the first of three or four. */
  predicate Follows(first: char, second: char) {
    if first == '\U{E0}' then '\U{A0}' <= second <= '\U{BF}'
    else if first == '\U{ED}' then '\U{80}' <= second <= '\U{9F}'
    else if first == '\U{F0}' then '\U{90}' <= second <= '\U{BF}'
    else if first == '\U{F4}' then '\U{80}' <= second <= '\U{8F}'
    else Continues(second)
  }

  /** The octets of the character at the front; zero when there is no valid one. */
  function Width(s: string): (n: nat)
    ensures n <= |s|
  {
    if s == "" then 0
    else if s[0] < '\U{80}' then 1
    else if |s| >= 2 && '\U{C2}' <= s[0] <= '\U{DF}' && Continues(s[1]) then 2
    else if |s| >= 3 && '\U{E0}' <= s[0] <= '\U{EF}' && Follows(s[0], s[1]) && Continues(s[2]) then 3
    else if |s| >= 4 && '\U{F0}' <= s[0] <= '\U{F4}' && Follows(s[0], s[1]) && Continues(s[2]) && Continues(s[3]) then 4
    else 0
  }

  predicate ValidText(s: string)
    decreases |s|
  {
    s == "" || (Width(s) > 0 && ValidText(s[Width(s)..]))
  }

  /** U+FFFD. */
  const REPLACEMENT := "\U{EF}\U{BF}\U{BD}"

  /** What json.Marshal writes: each octet that belongs to no character becomes U+FFFD. */
  function Mended(s: string): string
    decreases |s|
  {
    if s == "" then ""
    else if Width(s) > 0 then s[..Width(s)] + Mended(s[Width(s)..])
    else REPLACEMENT + Mended(s[1..])
  }

  lemma MendedIsEmpty(s: string)
    ensures Mended(s) == "" <==> s == ""
  {
  }

  lemma {:induction false} ValidIsMended(s: string)
    requires ValidText(s)
    ensures Mended(s) == s
    decreases |s|
  {
    if s != "" {
      ValidIsMended(s[Width(s)..]);
    }
  }

  /** Only valid text is written as it is. */
  lemma {:induction false} MendedIfInvalid(s: string)
    ensures Mended(s) == s <==> ValidText(s)
    decreases |s|
  {
    if ValidText(s) {
      ValidIsMended(s);
    } else if Width(s) > 0 {
      var rest := s[Width(s)..];
      MendedIfInvalid(rest);
      SameRest(s, Width(s), Mended(rest));
    } else {
      ReplacementIsText(Mended(s[1..]));
    }
  }

  lemma ReplacementIsText(rest: string)
    ensures Width(REPLACEMENT + rest) == 3
  {
  }

  lemma SameRest(s: string, n: nat, t: string)
    requires n <= |s|
    ensures s[..n] + t == s <==> t == s[n..]
  {
    assert (s[..n] + t)[n..] == t;
    assert s[..n] + s[n..] == s;
  }

  predicate Ascii(s: string) {
    forall i :: 0 <= i < |s| ==> s[i] < '\U{80}'
  }

  lemma {:induction false} AsciiIsValid(s: string)
    requires Ascii(s)
    ensures ValidText(s) && Mended(s) == s
  {
    if s != "" {
      assert forall i :: 0 <= i < |s[1..]| ==> s[1..][i] == s[i + 1];
      AsciiIsValid(s[1..]);
      ValidIsMended(s);
    }
  }
}
