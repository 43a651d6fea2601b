/**
 The octet tables behind text handling, tied to Unicode code points: UTF-8 as an encoding of scalar
 values, the white space of unicode.IsSpace, and case folding.
 */
module TextTables {
  import opened Strings
  import opened Utf8

  /** A code point that is no surrogate. */
  predicate IsScalar(n: nat) {
    n < 0xD800 || 0xE000 <= n <= 0x10FFFF
  }

  /** Section 3 of RFC 3629. */
  function Encoded(n: nat): string
    requires IsScalar(n)
  {
    if n < 0x80 then [n as char]
    else if n < 0x800 then [(0xC0 + n / 64) as char, (0x80 + n % 64) as char]
    else if n < 0x1_0000 then [(0xE0 + n / 4096) as char, (0x80 + n / 64 % 64) as char, (0x80 + n % 64) as char]
    else [(0xF0 + n / 262144) as char, (0x80 + n / 4096 % 64) as char, (0x80 + n / 64 % 64) as char, (0x80 + n % 64) as char]
  }

  lemma TwoOctets(n: nat)
    requires 0x80 <= n < 0x800
    ensures 0xC2 <= 0xC0 + n / 64 <= 0xDF
  {
  }

  lemma ThreeOctets(n: nat)
    requires 0x800 <= n < 0x1_0000 && IsScalar(n)
    ensures
      var a, b := 0xE0 + n / 4096, 0x80 + n / 64 % 64;
      0xE0 <= a <= 0xEF && 0x80 <= b <= 0xBF && (a == 0xE0 ==> b >= 0xA0) && (a == 0xED ==> b <= 0x9F)
  {
  }

  lemma FourOctets(n: nat)
    requires 0x1_0000 <= n <= 0x10FFFF
    ensures
      var a, b := 0xF0 + n / 262144, 0x80 + n / 4096 % 64;
      0xF0 <= a <= 0xF4 && 0x80 <= b <= 0xBF && (a == 0xF0 ==> b >= 0x90) && (a == 0xF4 ==> b <= 0x8F)
  {
  }

  /** The encoding of a scalar value is one character, whatever follows. */
  lemma EncodedIsOne(n: nat, rest: string)
    requires IsScalar(n)
    ensures Width(Encoded(n) + rest) == |Encoded(n)|
  {
    if 0x80 <= n < 0x800 {
      TwoOctets(n);
    } else if 0x800 <= n < 0x1_0000 {
      ThreeOctets(n);
    } else if n >= 0x1_0000 {
      FourOctets(n);
    }
  }

  function Low(c: char): nat {
    c as int % 64
  }

  /** The scalar value of the character at the front. */
  function ScalarAt(s: string): nat
    requires Width(s) > 0
  {
    if Width(s) == 1 then s[0] as int
    else if Width(s) == 2 then (s[0] as int - 0xC0) * 64 + Low(s[1])
    else if Width(s) == 3 then (s[0] as int - 0xE0) * 4096 + Low(s[1]) * 64 + Low(s[2])
    else (s[0] as int - 0xF0) * 262144 + Low(s[1]) * 4096 + Low(s[2]) * 64 + Low(s[3])
  }

  lemma OneOfTwo(a: nat, b: nat)
    requires 0xC2 <= a <= 0xDF && 0x80 <= b <= 0xBF
    ensures
      var n := (a - 0xC0) * 64 + b % 64;
      0x80 <= n < 0x800 && 0xC0 + n / 64 == a && 0x80 + n % 64 == b
  {
  }

  lemma Digits64(q: nat, r: nat)
    requires r < 64
    ensures (q * 64 + r) / 64 == q && (q * 64 + r) % 64 == r
  {
  }

  lemma Divide64(n: nat)
    ensures n / 4096 == n / 64 / 64 && n / 262144 == n / 64 / 64 / 64
  {
  }

  lemma OneOfThree(a: nat, b: nat, c: nat)
    requires 0xE0 <= a <= 0xEF && 0x80 <= b <= 0xBF && 0x80 <= c <= 0xBF && (a == 0xE0 ==> b >= 0xA0) && (a == 0xED ==> b <= 0x9F)
    ensures
      var n := (a - 0xE0) * 4096 + b % 64 * 64 + c % 64;
      0x800 <= n < 0x1_0000 && IsScalar(n) && 0xE0 + n / 4096 == a && 0x80 + n / 64 % 64 == b && 0x80 + n % 64 == c
  {
    var h, y, z := a - 0xE0, b - 0x80, c - 0x80;
    assert b % 64 == y && c % 64 == z;
    var top := h * 64 + y;
    var n := top * 64 + z;
    Digits64(h, y);
    Digits64(top, z);
    Divide64(n);
    assert n == h * 4096 + y * 64 + z;
  }

  /** A number of four digits to base 64, and its digits. */
  lemma FourDigits64(h: nat, y: nat, z: nat, w: nat)
    requires y < 64 && z < 64 && w < 64
    ensures
      var n := h * 262144 + y * 4096 + z * 64 + w;
      n / 262144 == h && n / 4096 % 64 == y && n / 64 % 64 == z && n % 64 == w
  {
    var top := h * 64 + y;
    var mid := top * 64 + z;
    var n := mid * 64 + w;
    Digits64(h, y);
    Digits64(top, z);
    Digits64(mid, w);
    Divide64(n);
    assert n == h * 262144 + y * 4096 + z * 64 + w;
  }

  lemma Remainder64(b: nat)
    requires 0x80 <= b <= 0xBF
    ensures b % 64 == b - 0x80
  {
  }

  lemma OneOfFour(a: nat, b: nat, c: nat, d: nat)
    requires 0xF0 <= a <= 0xF4 && 0x80 <= b <= 0xBF && 0x80 <= c <= 0xBF && 0x80 <= d <= 0xBF
    requires (a == 0xF0 ==> b >= 0x90) && (a == 0xF4 ==> b <= 0x8F)
    ensures
      var n := (a - 0xF0) * 262144 + b % 64 * 4096 + c % 64 * 64 + d % 64;
      && 0x1_0000 <= n <= 0x10FFFF && 0xF0 + n / 262144 == a && 0x80 + n / 4096 % 64 == b
      && 0x80 + n / 64 % 64 == c && 0x80 + n % 64 == d
  {
    Remainder64(b);
    Remainder64(c);
    Remainder64(d);
    FourDigits64(a - 0xF0, b - 0x80, c - 0x80, d - 0x80);
  }

  lemma TwoAreEncoded(s: string)
    requires Width(s) == 2
    ensures IsScalar(ScalarAt(s)) && s[..2] == Encoded(ScalarAt(s))
  {
    OneOfTwo(s[0] as int, s[1] as int);
    assert s[..2] == [s[0], s[1]];
  }

  lemma ThreeAreEncoded(s: string)
    requires Width(s) == 3
    ensures IsScalar(ScalarAt(s)) && s[..3] == Encoded(ScalarAt(s))
  {
    OneOfThree(s[0] as int, s[1] as int, s[2] as int);
    assert s[..3] == [s[0], s[1], s[2]];
  }

  lemma FourAreEncoded(s: string)
    requires Width(s) == 4
    ensures IsScalar(ScalarAt(s)) && s[..4] == Encoded(ScalarAt(s))
  {
    OneOfFour(s[0] as int, s[1] as int, s[2] as int, s[3] as int);
    assert s[..4] == [s[0], s[1], s[2], s[3]];
  }

  /** And nothing else is a character. */
  lemma OneIsEncoded(s: string)
    requires Width(s) > 0
    ensures IsScalar(ScalarAt(s)) && s[..Width(s)] == Encoded(ScalarAt(s))
  {
    if Width(s) == 2 {
      TwoAreEncoded(s);
    } else if Width(s) == 3 {
      ThreeAreEncoded(s);
    } else if Width(s) == 4 {
      FourAreEncoded(s);
    }
  }

  // ---- White space -----------------------------------------------------------------

  /** The property White_Space of Unicode. */
  predicate IsWhite(n: nat) {
    || 0x09 <= n <= 0x0D || n == 0x20 || n == 0x85 || n == 0xA0 || n == 0x1680 || 0x2000 <= n <= 0x200A
    || n == 0x2028 || n == 0x2029 || n == 0x202F || n == 0x205F || n == 0x3000
  }

  lemma WhiteIsSpace(n: nat)
    requires IsWhite(n)
    ensures IsSpace(Encoded(n))
  {
  }

  lemma SpaceIsWhite(t: string) returns (n: nat)
    requires IsSpace(t)
    ensures IsWhite(n) && t == Encoded(n)
  {
    if |t| == 1 {
      n := t[0] as int;
    } else if |t| == 2 {
      n := 0x80 + Low(t[1]);
      if t[1] == '\U{85}' {
        n := 0x85;
      } else {
        n := 0xA0;
      }
    } else {
      n := WideSpaceIsWhite(t);
    }
  }

  lemma WideSpaceIsWhite(t: string) returns (n: nat)
    requires IsSpace(t) && |t| == 3
    ensures IsWhite(n) && t == Encoded(n)
  {
    n := (t[0] as int - 0xE0) * 4096 + Low(t[1]) * 64 + Low(t[2]);
  }

  function Joined(pieces: seq<string>): string {
    if pieces == [] then "" else pieces[0] + Joined(pieces[1..])
  }

  lemma {:induction false} JoinedAppend(pieces: seq<string>, last: string)
    ensures Joined(pieces + [last]) == Joined(pieces) + last
  {
    if pieces == [] {
      assert (pieces + [last])[1..] == [];
    } else {
      assert (pieces + [last])[1..] == pieces[1..] + [last];
      JoinedAppend(pieces[1..], last);
    }
  }

  /** Characters of white space, one by one. */
  ghost predicate Blank(pieces: seq<string>) {
    forall i :: 0 <= i < |pieces| ==> IsSpace(pieces[i])
  }

  lemma LeadingIsSpace(s: string)
    ensures var n := LeadingSpace(s); n > 0 ==> IsSpace(s[..n])
    ensures LeadingSpace(s) == 0 ==> !StartsInSpace(s, 1) && !StartsInSpace(s, 2) && !StartsInSpace(s, 3)
  {
  }

  lemma TrailingIsSpace(s: string)
    ensures var n := TrailingSpace(s); n > 0 ==> IsSpace(s[|s| - n..])
    ensures TrailingSpace(s) == 0 ==> !EndsInSpace(s, 1) && !EndsInSpace(s, 2) && !EndsInSpace(s, 3)
  {
  }

  lemma {:induction false} LeftTrimmed(s: string) returns (before: seq<string>)
    ensures Blank(before) && s == Joined(before) + TrimSpaceLeft(s) && LeadingSpace(TrimSpaceLeft(s)) == 0
    decreases |s|
  {
    var n := LeadingSpace(s);
    before := [];
    if n > 0 {
      LeadingIsSpace(s);
      var more := LeftTrimmed(s[n..]);
      before := [s[..n]] + more;
      Rejoined(s, n, Joined(more), TrimSpaceLeft(s[n..]));
      assert before[1..] == more;
    }
  }

  lemma Rejoined(s: string, n: nat, a: string, b: string)
    requires n <= |s| && s[n..] == a + b
    ensures s == (s[..n] + a) + b
  {
  }

  /** `t` is `s` without the white space `after`. */
  ghost predicate CutsBlank(s: string, t: string, after: seq<string>) {
    Blank(after) && s == t + Joined(after)
  }

  lemma NothingCut(s: string)
    ensures CutsBlank(s, s, [])
  {
    assert s + "" == s;
  }

  lemma OneMoreCut(s: string, m: nat, t: string, after: seq<string>)
    requires m <= |s| && IsSpace(s[m..]) && CutsBlank(s[..m], t, after)
    ensures CutsBlank(s, t, after + [s[m..]])
  {
    JoinedAppend(after, s[m..]);
    BlankAppend(after, s[m..]);
    RejoinedRight(s, m, t, Joined(after));
  }

  lemma {:induction false} RightTrimmed(s: string) returns (after: seq<string>)
    ensures CutsBlank(s, TrimSpaceRight(s), after) && TrailingSpace(TrimSpaceRight(s)) == 0
    decreases |s|
  {
    var n := TrailingSpace(s);
    TrimRightStep(s);
    if n > 0 {
      TrailingIsSpace(s);
      var more := RightTrimmed(s[..|s| - n]);
      OneMoreCut(s, |s| - n, TrimSpaceRight(s[..|s| - n]), more);
      after := more + [s[|s| - n..]];
    } else {
      NothingCut(s);
      after := [];
    }
  }

  lemma TrimRightStep(s: string)
    ensures var n := TrailingSpace(s); TrimSpaceRight(s) == if n > 0 then TrimSpaceRight(s[..|s| - n]) else s
  {
  }

  lemma BlankAppend(pieces: seq<string>, last: string)
    requires Blank(pieces) && IsSpace(last)
    ensures Blank(pieces + [last])
  {
  }

  lemma RejoinedRight(s: string, m: nat, a: string, b: string)
    requires m <= |s| && s[..m] == a + b
    ensures s == a + (b + s[m..])
  {
  }

  lemma PrefixStartsAlike(s: string, p: string)
    requires p <= s && LeadingSpace(s) == 0
    ensures LeadingSpace(p) == 0
  {
    LeadingIsSpace(s);
    LeadingIsSpace(p);
    var n := LeadingSpace(p);
    assert n <= |p| ==> s[..n] == p[..n];
  }

  /** Trimming takes white space off both ends, all of it, and nothing else. */
  lemma TrimSpaceExactly(s: string) returns (before: seq<string>, after: seq<string>)
    ensures Blank(before) && Blank(after) && s == Joined(before) + (TrimSpace(s) + Joined(after))
    ensures LeadingSpace(TrimSpace(s)) == 0 && TrailingSpace(TrimSpace(s)) == 0
  {
    before := LeftTrimmed(s);
    var left := TrimSpaceLeft(s);
    after := RightTrimmed(left);
    PrefixStartsAlike(left, TrimSpaceRight(left));
  }

  // ---- Case ------------------------------------------------------------------------

  /** U+017F and U+212A are what folds into ASCII from beyond it. */
  lemma FoldedCharacters()
    ensures LONG_S == Encoded(0x17F) && KELVIN == Encoded(0x212A)
  {
  }

  function LowerAscii(c: char): char {
    if 'A' <= c <= 'Z' then c - 'A' + 'a' else c
  }

  /** Folding lower-cases ASCII letters one by one, and takes the two characters in. */
  lemma FoldFirst(s: string)
    ensures s != "" && s[0] < '\U{80}' ==> FoldCase(s) == [LowerAscii(s[0])] + FoldCase(s[1..])
    ensures FoldCase(LONG_S + s) == "s" + FoldCase(s)
    ensures FoldCase(KELVIN + s) == "k" + FoldCase(s)
  {
    assert (LONG_S + s)[2..] == s && (KELVIN + s)[3..] == s;
    assert LONG_S <= LONG_S + s && KELVIN <= KELVIN + s;
    assert (KELVIN + s)[0] != LONG_S[0];
  }

  /** `t` is `s` in lower case. */
  predicate IsLowered(s: string, t: string) {
    |s| == |t| && forall i :: 0 <= i < |s| ==> t[i] == LowerAscii(s[i])
  }

  lemma LoweredAfterFirst(s: string, t: string, c: char)
    requires s != "" && c == LowerAscii(s[0]) && IsLowered(s[1..], t)
    ensures IsLowered(s, [c] + t)
  {
    forall i | 0 <= i < |s|
      ensures ([c] + t)[i] == LowerAscii(s[i])
    {
      if i > 0 {
        assert s[1..][i - 1] == s[i];
      }
    }
  }

  lemma AsciiAfterFirst(s: string)
    requires s != "" && Ascii(s)
    ensures s[0] < '\U{80}' && Ascii(s[1..])
  {
    assert forall i :: 0 <= i < |s[1..]| ==> s[1..][i] == s[i + 1];
  }

  /** On ASCII texts folding is lower-casing. */
  lemma {:induction false} FoldAscii(s: string)
    requires Ascii(s)
    ensures IsLowered(s, FoldCase(s))
  {
    if s != "" {
      AsciiAfterFirst(s);
      FoldFirst(s);
      FoldAscii(s[1..]);
      LoweredAfterFirst(s, FoldCase(s[1..]), LowerAscii(s[0]));
    }
  }

  /** What json.Marshal puts in the place of an octet that belongs to no character. */
  lemma ReplacementCharacter()
    ensures REPLACEMENT == Encoded(0xFFFD)
  {
  }

  /** One for each such octet; characters stay. */
  lemma MendedExactly(s: string)
    ensures s != "" && Width(s) == 0 ==> Mended(s) == Encoded(0xFFFD) + Mended(s[1..])
    ensures Width(s) > 0 ==> IsScalar(ScalarAt(s)) && Mended(s) == Encoded(ScalarAt(s)) + Mended(s[Width(s)..])
  {
    ReplacementCharacter();
    if Width(s) > 0 {
      OneIsEncoded(s);
    }
  }
}
