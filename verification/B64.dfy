/** Unpadded base64url with canonical decoding: section 5 of RFC 4648, section 2 of RFC 7515. */
module B64 {
  import opened Wrappers
  import opened Bytes

  type Sextet = x: int | 0 <= x < 64

  function CharOf(v: Sextet): char {
    if v < 26 then 'A' + v as char
    else if v < 52 then 'a' + (v - 26) as char
    else if v < 62 then '0' + (v - 52) as char
    else if v == 62 then '-'
    else '_'
  }

  predicate InAlphabet(c: char) {
    'A' <= c <= 'Z' || 'a' <= c <= 'z' || '0' <= c <= '9' || c == '-' || c == '_'
  }

  function ValueOf(c: char): Sextet
    requires InAlphabet(c)
  {
    if 'A' <= c <= 'Z' then (c - 'A') as int
    else if 'a' <= c <= 'z' then (c - 'a') as int + 26
    else if '0' <= c <= '9' then (c - '0') as int + 52
    else if c == '-' then 62
    else 63
  }

  predicate AlphabetText(s: string) {
    forall i :: 0 <= i < |s| ==> InAlphabet(s[i])
  }

  lemma AlphabetIsBijective(v: Sextet, c: char)
    ensures InAlphabet(CharOf(v)) && ValueOf(CharOf(v)) == v
    ensures InAlphabet(c) ==> CharOf(ValueOf(c)) == c
  {
  }

  function Text(v: seq<Sextet>): string {
    seq(|v|, i requires 0 <= i < |v| => CharOf(v[i]))
  }

  function Values(s: string): seq<Sextet>
    requires AlphabetText(s)
  {
    seq(|s|, i requires 0 <= i < |s| => ValueOf(s[i]))
  }

  lemma TextAndValues(v: seq<Sextet>, s: string)
    ensures AlphabetText(Text(v)) && Values(Text(v)) == v
    ensures AlphabetText(s) ==> Text(Values(s)) == s
  {
    forall i | 0 <= i < |v|
      ensures InAlphabet(Text(v)[i]) && ValueOf(Text(v)[i]) == v[i]
    {
      AlphabetIsBijective(v[i], 'A');
    }
    if AlphabetText(s) {
      forall i | 0 <= i < |s|
        ensures Text(Values(s))[i] == s[i]
      {
        AlphabetIsBijective(0, s[i]);
      }
    }
  }

  /** Three octets are four sextets; a shorter tail is padded with zero bits. */
  function ToSextets(b: seq<byte>): seq<Sextet> {
    if |b| == 0 then []
    else if |b| == 1 then [b[0] / 4, b[0] % 4 * 16]
    else if |b| == 2 then [b[0] / 4, b[0] % 4 * 16 + b[1] / 16, b[1] % 16 * 4]
    else [b[0] / 4, b[0] % 4 * 16 + b[1] / 16, b[1] % 16 * 4 + b[2] / 64, b[2] % 64] + ToSextets(b[3..])
  }

  function First(x: Sextet, y: Sextet): byte {
    x * 4 + y / 16
  }

  function Second(y: Sextet, z: Sextet): byte {
    y % 16 * 16 + z / 4
  }

  function Third(z: Sextet, w: Sextet): byte {
    z % 4 * 64 + w
  }

  /** `strict` refuses tails whose padding bits are not zero. */
  function FromSextets(strict: bool, v: seq<Sextet>): Option<seq<byte>> {
    if |v| == 0 then Some([])
    else if |v| == 1 then None
    else if |v| == 2 then
      if strict && v[1] % 16 != 0 then None else Some([First(v[0], v[1])])
    else if |v| == 3 then
      if strict && v[2] % 4 != 0 then None else Some([First(v[0], v[1]), Second(v[1], v[2])])
    else
      match FromSextets(strict, v[4..])
      case None => None
      case Some(rest) => Some([First(v[0], v[1]), Second(v[1], v[2]), Third(v[2], v[3])] + rest)
  }

  function Encode(b: seq<byte>): string {
    Text(ToSextets(b))
  }

  /** The standard library's decoding of text without line breaks. */
  function DecodeText(strict: bool, s: string): Option<seq<byte>> {
    if AlphabetText(s) then FromSextets(strict, Values(s)) else None
  }

  predicate LineBreak(c: char) {
    c == '\r' || c == '\n'
  }

  /** encoding/base64 skips line breaks. */
  function WithoutLineBreaks(s: string): string {
    if s == "" then "" else if LineBreak(s[0]) then WithoutLineBreaks(s[1..]) else [s[0]] + WithoutLineBreaks(s[1..])
  }

  function StdDecode(strict: bool, s: string): Option<seq<byte>> {
    DecodeText(strict, WithoutLineBreaks(s))
  }

  predicate HasLineBreak(s: string) {
    exists i :: 0 <= i < |s| && LineBreak(s[i])
  }

  /** b64.Decode: line breaks are refused before the strict decoder sees the text. */
  function Decode(s: string): Option<seq<byte>> {
    if HasLineBreak(s) then None else StdDecode(true, s)
  }

  lemma {:induction false} SextetCount(b: seq<byte>)
    ensures |ToSextets(b)| == (|b| * 4 + 2) / 3
  {
    if |b| >= 3 {
      SextetCount(b[3..]);
    }
  }

  lemma {:induction false} NothingSkipped(s: string)
    requires !HasLineBreak(s)
    ensures WithoutLineBreaks(s) == s
  {
    if s != "" {
      assert !LineBreak(s[0]);
      assert forall i :: 0 <= i < |s| - 1 ==> s[1..][i] == s[i + 1];
      NothingSkipped(s[1..]);
    }
  }

  lemma OctetsFromSextets(b0: byte, b1: byte, b2: byte)
    ensures
      var x, y, z, w := b0 / 4, b0 % 4 * 16 + b1 / 16, b1 % 16 * 4 + b2 / 64, b2 % 64;
      First(x, y) == b0 && Second(y, z) == b1 && Third(z, w) == b2 && Second(y, b1 % 16 * 4) == b1
  {
  }

  lemma PaddingIsZero(x: nat)
    ensures x * 16 % 16 == 0 && x * 4 % 4 == 0
  {
  }

  lemma {:induction false} FromSextetsOfOctets(strict: bool, b: seq<byte>)
    ensures FromSextets(strict, ToSextets(b)) == Some(b)
  {
    if |b| < 3 {
      TailFromSextets(strict, b);
    } else {
      FromSextetsOfOctets(strict, b[3..]);
      OctetsFromSextets(b[0], b[1], b[2]);
      GroupFromSextets(strict, b[0] / 4, b[0] % 4 * 16 + b[1] / 16, b[1] % 16 * 4 + b[2] / 64, b[2] % 64, ToSextets(b[3..]));
      assert b == [b[0], b[1], b[2]] + b[3..];
    }
  }

  lemma TailFromSextets(strict: bool, b: seq<byte>)
    requires |b| < 3
    ensures FromSextets(strict, ToSextets(b)) == Some(b)
  {
    if |b| == 1 {
      OneOctetTail(strict, b[0]);
      assert b == [b[0]];
    } else if |b| == 2 {
      TwoOctetTail(strict, b[0], b[1]);
      assert b == [b[0], b[1]];
    }
  }

  lemma OneOctetTail(strict: bool, x: byte)
    ensures FromSextets(strict, ToSextets([x])) == Some([x])
  {
    OctetsFromSextets(x, 0, 0);
    PaddingIsZero(x % 4);
    TwoSextets(strict, x / 4, x % 4 * 16);
  }

  lemma TwoOctetTail(strict: bool, x: byte, y: byte)
    ensures FromSextets(strict, ToSextets([x, y])) == Some([x, y])
  {
    var v := ToSextets([x, y]);
    SextetsOfTwo(x, y, v);
    ThreeSextets(strict, v[0], v[1], v[2]);
    assert v == [v[0], v[1], v[2]];
  }

  lemma SextetsOfTwo(x: byte, y: byte, v: seq<Sextet>)
    requires v == ToSextets([x, y])
    ensures |v| == 3 && First(v[0], v[1]) == x && Second(v[1], v[2]) == y && v[2] % 4 == 0
  {
    OctetsFromSextets(x, y, 0);
    PaddingIsZero(y % 16);
  }

  lemma TwoSextets(strict: bool, x: Sextet, y: Sextet)
    requires y % 16 == 0
    ensures FromSextets(strict, [x, y]) == Some([First(x, y)])
  {
  }

  lemma ThreeSextets(strict: bool, x: Sextet, y: Sextet, z: Sextet)
    requires z % 4 == 0
    ensures FromSextets(strict, [x, y, z]) == Some([First(x, y), Second(y, z)])
  {
  }

  lemma GroupFromSextets(strict: bool, x: Sextet, y: Sextet, z: Sextet, w: Sextet, rest: seq<Sextet>)
    requires FromSextets(strict, rest).Some?
    ensures FromSextets(strict, [x, y, z, w] + rest)
      == Some([First(x, y), Second(y, z), Third(z, w)] + FromSextets(strict, rest).value)
  {
    var v := [x, y, z, w] + rest;
    assert v[4..] == rest;
  }

  lemma SextetsFromOctets(x: Sextet, y: Sextet, z: Sextet, w: Sextet)
    ensures First(x, y) / 4 == x && First(x, y) % 4 * 16 + Second(y, z) / 16 == y
    ensures Second(y, z) % 16 * 4 + Third(z, w) / 64 == z && Third(z, w) % 64 == w
    ensures y % 16 == 0 ==> First(x, y) % 4 * 16 == y
    ensures z % 4 == 0 ==> Second(y, z) % 16 * 4 == z
  {
  }

  lemma GroupToSextets(x: Sextet, y: Sextet, z: Sextet, w: Sextet, rest: seq<byte>)
    ensures ToSextets([First(x, y), Second(y, z), Third(z, w)] + rest) == [x, y, z, w] + ToSextets(rest)
  {
    SextetsFromOctets(x, y, z, w);
    var b := [First(x, y), Second(y, z), Third(z, w)] + rest;
    assert b[3..] == rest;
  }

  lemma TailToSextets(v: seq<Sextet>)
    requires |v| < 4 && FromSextets(true, v).Some?
    ensures ToSextets(FromSextets(true, v).value) == v
  {
    if |v| == 2 {
      OneOctet(v[0], v[1]);
      assert v == [v[0], v[1]];
    } else if |v| == 3 {
      TwoOctets(v[0], v[1], v[2]);
      assert v == [v[0], v[1], v[2]];
    }
  }

  lemma OneOctet(x: Sextet, y: Sextet)
    requires y % 16 == 0
    ensures ToSextets([First(x, y)]) == [x, y]
  {
    SextetsFromOctets(x, y, 0, 0);
  }

  lemma TwoOctets(x: Sextet, y: Sextet, z: Sextet)
    requires z % 4 == 0
    ensures ToSextets([First(x, y), Second(y, z)]) == [x, y, z]
  {
    SextetsFromOctets(x, y, z, 0);
  }

  lemma {:induction false} ToSextetsOfValues(v: seq<Sextet>)
    requires FromSextets(true, v).Some?
    ensures ToSextets(FromSextets(true, v).value) == v
  {
    if |v| >= 4 {
      ToSextetsOfValues(v[4..]);
      GroupToSextets(v[0], v[1], v[2], v[3], FromSextets(true, v[4..]).value);
      assert v == [v[0], v[1], v[2], v[3]] + v[4..];
    } else {
      TailToSextets(v);
    }
  }

  lemma DecodeTextOfEncode(strict: bool, b: seq<byte>)
    ensures AlphabetText(Encode(b)) && DecodeText(strict, Encode(b)) == Some(b)
  {
    TextAndValues(ToSextets(b), "");
    FromSextetsOfOctets(strict, b);
  }

  /** Decode accepts exactly the image of Encode, and inverts it: one text for each octet string. */
  lemma DecodeIsExactlyInverse(s: string, b: seq<byte>)
    ensures Decode(s) == Some(b) <==> s == Encode(b)
  {
    if s == Encode(b) {
      DecodeTextOfEncode(true, b);
      NothingSkipped(s);
    }
    if Decode(s) == Some(b) {
      NothingSkipped(s);
      ToSextetsOfValues(Values(s));
      TextAndValues([], s);
    }
  }

  lemma EncodeIsInjective(a: seq<byte>, b: seq<byte>)
    ensures Encode(a) == Encode(b) <==> a == b
  {
    if Encode(a) == Encode(b) {
      DecodeTextOfEncode(true, a);
      DecodeTextOfEncode(true, b);
    }
  }

  /**
   Both guards are needed: the library alone takes line breaks, and its lenient mode takes
   trailing bits, so one octet string would have several texts.
   */
  lemma LenientDecodingIsMalleable()
    ensures StdDecode(true, "A\nA") == StdDecode(true, "AA") == Some([0]) && Decode("A\nA") == None
    ensures StdDecode(false, "AB") == Some([0]) && Decode("AB") == None
  {
    BrokenA();
    PlainA();
    AlmostA();
  }

  lemma BrokenA()
    ensures WithoutLineBreaks("A\nA") == "AA" && HasLineBreak("A\nA")
  {
    var broken := "A\nA";
    assert LineBreak(broken[1]);
    assert broken[1..] == "\nA" && broken[1..][1..] == "A" && "A"[1..] == "";
  }

  lemma PlainA()
    ensures WithoutLineBreaks("AA") == "AA" && DecodeText(true, "AA") == Some([0])
  {
    NothingSkipped("AA");
    EncodedZero();
    DecodeTextOfEncode(true, [0]);
  }

  lemma EncodedZero()
    ensures Encode([0]) == "AA"
  {
    assert ToSextets([0]) == [0, 0];
  }

  lemma AlmostA()
    ensures StdDecode(false, "AB") == Some([0]) && Decode("AB") == None
  {
    NothingSkipped("AB");
    assert Values("AB") == [0, 1];
  }

  // ---- The alphabet ----------------------------------------------------------------

  /** Table 2 of RFC 4648: letters, digits, hyphen and underline. */
  lemma AlphabetTable(v: Sextet)
    ensures v <= 25 ==> CharOf(v) == 'A' + v as char
    ensures 26 <= v <= 51 ==> CharOf(v) == 'a' + (v - 26) as char
    ensures 52 <= v <= 61 ==> CharOf(v) == '0' + (v - 52) as char
    ensures CharOf(62) == '-' && CharOf(63) == '_'
  {
  }

  lemma TextOfThree(b: seq<byte>)
    requires |b| == 3
    ensures Encode(b) == [CharOf(b[0] / 4), CharOf(b[0] % 4 * 16 + b[1] / 16), CharOf(b[1] % 16 * 4 + b[2] / 64), CharOf(b[2] % 64)]
  {
    assert b[3..] == [];
    assert ToSextets(b) == [b[0] / 4, b[0] % 4 * 16 + b[1] / 16, b[1] % 16 * 4 + b[2] / 64, b[2] % 64];
  }

  /** Section 10 of RFC 4648, without padding, and the two characters of the URL-safe alphabet. */
  lemma KnownTexts()
    ensures Encode([102]) == "Zg" && Encode([102, 111]) == "Zm8" && Encode([102, 111, 111]) == "Zm9v"
    ensures Encode([251, 255]) == "-_8"
  {
    TextOfThree([102, 111, 111]);
  }
}
