/** The parts of Go's package strings that the framing code uses, over octets read as characters. */
module Strings {
  predicate Lacks(s: string, c: char) {
    forall i :: 0 <= i < |s| ==> s[i] != c
  }

  /** strings.IndexByte; |s| stands for -1. */
  function IndexOf(s: string, c: char): (i: nat)
    ensures i <= |s| && Lacks(s[..i], c) && (i < |s| ==> s[i] == c)
  {
    if s == "" then 0
    else if s[0] == c then 0
    else
      var i := 1 + IndexOf(s[1..], c);
      assert s[..i] == [s[0]] + s[1..][..i - 1];
      i
  }

  /** strings.Split with a one-octet separator. */
  function SplitOn(s: string, c: char): (parts: seq<string>)
    ensures parts != []
    decreases |s|
  {
    var i := IndexOf(s, c);
    if i == |s| then [s] else [s[..i]] + SplitOn(s[i + 1..], c)
  }

  /** strings.Join. */
  function JoinWith(parts: seq<string>, c: char): string
    requires parts != []
  {
    if |parts| == 1 then parts[0] else parts[0] + [c] + JoinWith(parts[1..], c)
  }

  lemma FirstPart(a: string, c: char, rest: string)
    requires Lacks(a, c)
    ensures IndexOf(a, c) == |a| && IndexOf(a + [c] + rest, c) == |a|
    ensures (a + [c] + rest)[..|a|] == a && (a + [c] + rest)[|a| + 1..] == rest
  {
    var s := a + [c] + rest;
    var i := IndexOf(s, c);
    assert s[|a|] == c && forall k :: 0 <= k < |a| ==> s[k] == a[k];
    assert forall k :: 0 <= k < i ==> s[..i][k] == s[k];
    var j := IndexOf(a, c);
  }

  lemma {:induction false} SplitOfJoin(parts: seq<string>, c: char)
    requires parts != [] && forall p :: p in parts ==> Lacks(p, c)
    ensures SplitOn(JoinWith(parts, c), c) == parts
  {
    if |parts| == 1 {
      FirstPart(parts[0], c, "");
    } else {
      FirstPart(parts[0], c, JoinWith(parts[1..], c));
      SplitOfJoin(parts[1..], c);
    }
  }

  lemma {:induction false} JoinOfSplit(s: string, c: char)
    ensures JoinWith(SplitOn(s, c), c) == s
    ensures forall p :: p in SplitOn(s, c) ==> Lacks(p, c)
    decreases |s|
  {
    var i := IndexOf(s, c);
    if i < |s| {
      JoinOfSplit(s[i + 1..], c);
      assert s == s[..i] + [c] + s[i + 1..];
      assert SplitOn(s, c)[1..] == SplitOn(s[i + 1..], c);
    } else {
      assert s[..i] == s;
    }
  }

  /** A text is cut in exactly one way at its separators. */
  lemma SplitIsExact(s: string, c: char, parts: seq<string>)
    ensures SplitOn(s, c) == parts <==> parts != [] && (forall p :: p in parts ==> Lacks(p, c)) && s == JoinWith(parts, c)
  {
    JoinOfSplit(s, c);
    if parts != [] && forall p :: p in parts ==> Lacks(p, c) {
      SplitOfJoin(parts, c);
    }
  }

  function TrimLeft(s: string, c: char): string {
    if s != "" && s[0] == c then TrimLeft(s[1..], c) else s
  }

  function TrimRight(s: string, c: char): string {
    if s != "" && s[|s| - 1] == c then TrimRight(s[..|s| - 1], c) else s
  }

  // ---- Case ------------------------------------------------------------------------

  /** The UTF-8 octets of U+017F and U+212A, the two characters beyond ASCII that fold into it. */
  const LONG_S := "\U{C5}\U{BF}"
  const KELVIN := "\U{E2}\U{84}\U{AA}"

  /** Unicode simple case folding as far as it meets ASCII; other octets stand for themselves. */
  function FoldCase(s: string): string {
    if s == "" then ""
    else if LONG_S <= s then "s" + FoldCase(s[2..])
    else if KELVIN <= s then "k" + FoldCase(s[3..])
    else [if 'A' <= s[0] <= 'Z' then s[0] - 'A' + 'a' else s[0]] + FoldCase(s[1..])
  }

  /** strings.EqualFold with a lower-case ASCII text. */
  predicate EqualFold(s: string, lower: string) {
    FoldCase(s) == lower
  }

  lemma FoldedFirst(s: string)
    requires s != "" && s[0] < '\U{80}'
    ensures FoldCase(s) != "" && FoldCase(s)[0] == if 'A' <= s[0] <= 'Z' then s[0] - 'A' + 'a' else s[0]
  {
    assert s[0] != LONG_S[0] && s[0] != KELVIN[0];
  }

  /** Where neither s nor k is met, folding keeps the length. */
  lemma {:induction false} FoldCaseKeepsLength(s: string)
    requires Lacks(FoldCase(s), 's') && Lacks(FoldCase(s), 'k')
    ensures |FoldCase(s)| == |s|
  {
    if s != "" {
      var f := FoldCase(s);
      assert f[0] != 's' && f[0] != 'k';
      assert f[1..] == FoldCase(s[1..]);
      assert forall i :: 0 <= i < |f[1..]| ==> f[1..][i] == f[i + 1];
      FoldCaseKeepsLength(s[1..]);
    }
  }

  lemma FoldedLength(s: string, lower: string)
    requires EqualFold(s, lower) && Lacks(lower, 's') && Lacks(lower, 'k')
    ensures |s| == |lower|
  {
    FoldCaseKeepsLength(s);
  }

  // ---- White space -----------------------------------------------------------------

  /** The UTF-8 octets of one character of unicode.IsSpace. */
  predicate IsSpace(t: string) {
    || (|t| == 1 && t[0] in " \t\n\r\U{0B}\U{0C}")
    || (|t| == 2 && t[0] == '\U{C2}' && t[1] in "\U{85}\U{A0}")
    || t == "\U{E1}\U{9A}\U{80}" || t == "\U{E2}\U{81}\U{9F}" || t == "\U{E3}\U{80}\U{80}"
    || (|t| == 3 && t[0] == '\U{E2}' && t[1] == '\U{80}' && ('\U{80}' <= t[2] <= '\U{8A}' || t[2] in "\U{A8}\U{A9}\U{AF}"))
  }

  predicate StartsInSpace(s: string, k: nat) {
    |s| >= k && IsSpace(s[..k])
  }

  predicate EndsInSpace(s: string, k: nat) {
    |s| >= k && IsSpace(s[|s| - k..])
  }

  /** The octets of the white-space character at the front; zero when there is none. */
  function LeadingSpace(s: string): (n: nat)
    ensures n <= |s|
  {
    if StartsInSpace(s, 1) then 1 else if StartsInSpace(s, 2) then 2 else if StartsInSpace(s, 3) then 3 else 0
  }

  function TrailingSpace(s: string): (n: nat)
    ensures n <= |s|
  {
    if EndsInSpace(s, 1) then 1 else if EndsInSpace(s, 2) then 2 else if EndsInSpace(s, 3) then 3 else 0
  }

  function TrimSpaceLeft(s: string): string {
    var n := LeadingSpace(s);
    if n > 0 then TrimSpaceLeft(s[n..]) else s
  }

  function TrimSpaceRight(s: string): string {
    var n := TrailingSpace(s);
    if n > 0 then TrimSpaceRight(s[..|s| - n]) else s
  }

  /** strings.TrimSpace. */
  function TrimSpace(s: string): string {
    TrimSpaceRight(TrimSpaceLeft(s))
  }

  /** A text with printing ASCII at both ends is not trimmed. */
  lemma NothingToTrim(s: string)
    requires s != "" && ' ' < s[0] < '\U{7F}' && ' ' < s[|s| - 1] < '\U{7F}'
    ensures TrimSpace(s) == s
  {
    NoLeadingSpace(s);
    NoTrailingSpace(s);
  }

  lemma PrintingIsNoSpace(t: string)
    requires t != "" && (' ' < t[0] < '\U{7F}' || ' ' < t[|t| - 1] < '\U{7F}')
    ensures !IsSpace(t)
  {
  }

  lemma NoLeadingSpace(s: string)
    requires s != "" && ' ' < s[0] < '\U{7F}'
    ensures LeadingSpace(s) == 0
  {
    StartsInPrinting(s, 1);
    StartsInPrinting(s, 2);
    StartsInPrinting(s, 3);
  }

  lemma StartsInPrinting(s: string, k: nat)
    requires k > 0 && s != "" && ' ' < s[0] < '\U{7F}'
    ensures !StartsInSpace(s, k)
  {
    if |s| >= k {
      PrintingIsNoSpace(s[..k]);
    }
  }

  lemma NoTrailingSpace(s: string)
    requires s != "" && ' ' < s[|s| - 1] < '\U{7F}'
    ensures TrailingSpace(s) == 0
  {
    EndsInPrinting(s, 1);
    EndsInPrinting(s, 2);
    EndsInPrinting(s, 3);
  }

  lemma EndsInPrinting(s: string, k: nat)
    requires k > 0 && s != "" && ' ' < s[|s| - 1] < '\U{7F}'
    ensures !EndsInSpace(s, k)
  {
    if |s| >= k {
      var t := s[|s| - k..];
      assert t[|t| - 1] == s[|s| - 1];
      PrintingIsNoSpace(t);
    }
  }
}
