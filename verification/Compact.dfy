/**
 Compact serialization (section 7.1 of RFC 7515) and the bearer header around it: three
 base64url segments joined by dots have one spelling and survive the trip through a header.
 */
module Compact {
  import opened Wrappers
  import opened Bytes
  import opened Strings
  import B64

  /** split3: three segments, cut at the only two dots. */
  function Split3(s: string): Option<(string, string, string)> {
    var i := IndexOf(s, '.');
    if i == |s| then None
    else
      var rest := s[i + 1..];
      var j := IndexOf(rest, '.');
      if j == |rest| then None
      else
        var last := rest[j + 1..];
        if IndexOf(last, '.') < |last| then None else Some((s[..i], rest[..j], last))
  }

  function Join3(a: string, b: string, c: string): string {
    a + "." + b + "." + c
  }

  /** split3 takes exactly the texts with two dots, and cuts them there. */
  lemma Split3IsExact(s: string, a: string, b: string, c: string)
    ensures Split3(s) == Some((a, b, c)) <==> s == Join3(a, b, c) && Lacks(a, '.') && Lacks(b, '.') && Lacks(c, '.')
  {
    if Lacks(a, '.') && Lacks(b, '.') && Lacks(c, '.') {
      Split3OfJoin(a, b, c);
    }
    if Split3(s) == Some((a, b, c)) {
      JoinOfSplit3(s);
    }
  }

  lemma Split3OfJoin(a: string, b: string, c: string)
    requires Lacks(a, '.') && Lacks(b, '.') && Lacks(c, '.')
    ensures Split3(Join3(a, b, c)) == Some((a, b, c))
  {
    assert Join3(a, b, c) == a + ['.'] + (b + ['.'] + c);
    FirstPart(a, '.', b + ['.'] + c);
    FirstPart(b, '.', c);
    FirstPart(c, '.', "");
  }

  lemma JoinOfSplit3(s: string)
    requires Split3(s).Some?
    ensures var (a, b, c) := Split3(s).value; s == Join3(a, b, c) && Lacks(a, '.') && Lacks(b, '.') && Lacks(c, '.')
  {
    var i := IndexOf(s, '.');
    var rest := s[i + 1..];
    var j := IndexOf(rest, '.');
    LacksAll(rest[j + 1..]);
    CutTwice(s, i, j);
  }

  lemma LacksAll(s: string)
    ensures IndexOf(s, '.') == |s| ==> Lacks(s, '.')
  {
    assert s[..|s|] == s;
  }

  lemma CutTwice(s: string, i: nat, j: nat)
    requires i < |s| && s[i] == '.' && j < |s[i + 1..]| && s[i + 1..][j] == '.'
    ensures s == Join3(s[..i], s[i + 1..][..j], s[i + 1..][j + 1..])
  {
  }

  /** The three decoded segments of a token. */
  function Decoded(token: string): Option<(seq<byte>, seq<byte>, seq<byte>)> {
    match Split3(token)
    case None => None
    case Some((h, p, s)) =>
      match (B64.Decode(h), B64.Decode(p), B64.Decode(s))
      case (Some(header), Some(payload), Some(signature)) => Some((header, payload, signature))
      case _ => None
  }

  /** The framing of Sign: `sign` is the signer's callback over the signing input. */
  function Signed(header: seq<byte>, payload: seq<byte>, sign: string -> seq<byte>): string {
    var input := B64.Encode(header) + "." + B64.Encode(payload);
    input + "." + B64.Encode(sign(input))
  }

  lemma EncodedLacksDot(b: seq<byte>)
    ensures Lacks(B64.Encode(b), '.')
  {
    B64.DecodeTextOfEncode(true, b);
  }

  /** No token is malleable: three octet strings are the content of exactly one token. */
  lemma OneTokenPerContent(token: string, h: seq<byte>, p: seq<byte>, s: seq<byte>)
    ensures Decoded(token) == Some((h, p, s)) <==> token == Join3(B64.Encode(h), B64.Encode(p), B64.Encode(s))
  {
    var a, b, c := B64.Encode(h), B64.Encode(p), B64.Encode(s);
    EncodedLacksDot(h);
    EncodedLacksDot(p);
    EncodedLacksDot(s);
    Split3IsExact(token, a, b, c);
    B64.DecodeIsExactlyInverse(a, h);
    B64.DecodeIsExactlyInverse(b, p);
    B64.DecodeIsExactlyInverse(c, s);
    if Decoded(token) == Some((h, p, s)) {
      var cut := Split3(token).value;
      B64.DecodeIsExactlyInverse(cut.0, h);
      B64.DecodeIsExactlyInverse(cut.1, p);
      B64.DecodeIsExactlyInverse(cut.2, s);
    }
  }

  predicate IsB64TokenChar(c: char) {
    'a' <= c <= 'z' || 'A' <= c <= 'Z' || '0' <= c <= '9' || c in "-._~+/"
  }

  /** Section 2.1 of RFC 6750: 1*b64char followed by any number of equals signs. */
  predicate IsB64Token(s: string) {
    var body := TrimRight(s, '=');
    body != "" && forall i :: 0 <= i < |body| ==> IsB64TokenChar(body[i])
  }

  const SCHEME := "bearer"

  /** BearerToken over the values of the Authorization header. */
  function BearerToken(values: seq<string>): Option<string> {
    if |values| != 1 then None
    else
      var h := values[0];
      if |h| <= |SCHEME| || !EqualFold(h[..|SCHEME|], SCHEME) || h[|SCHEME|] != ' ' then None
      else
        var token := TrimLeft(h[|SCHEME|..], ' ');
        if IsB64Token(token) then Some(token) else None
  }

  function Spaces(n: nat): string {
    if n == 0 then "" else " " + Spaces(n - 1)
  }

  lemma {:induction false} TrimmedSpaces(s: string) returns (n: nat)
    ensures s == Spaces(n) + TrimLeft(s, ' ')
    ensures s != "" && s[0] == ' ' ==> n > 0
  {
    n := 0;
    if s != "" && s[0] == ' ' {
      var m := TrimmedSpaces(s[1..]);
      n := m + 1;
      assert s == " " + s[1..];
      OneMoreSpace(m, TrimLeft(s[1..], ' '));
    }
  }

  lemma OneMoreSpace(n: nat, t: string)
    ensures Spaces(n + 1) + t == " " + (Spaces(n) + t)
  {
  }

  lemma {:induction false} TrimSpaces(n: nat, t: string)
    requires t != "" && t[0] != ' '
    ensures TrimLeft(Spaces(n) + t, ' ') == t
  {
    if n > 0 {
      TrimSpaces(n - 1, t);
      assert (Spaces(n) + t)[1..] == Spaces(n - 1) + t;
    } else {
      assert Spaces(0) + t == t;
    }
  }

  lemma {:induction false} TrimRightIsPrefix(s: string, c: char)
    ensures TrimRight(s, c) <= s
  {
    if s != "" && s[|s| - 1] == c {
      TrimRightIsPrefix(s[..|s| - 1], c);
    }
  }

  lemma SchemeLength(scheme: string)
    requires EqualFold(scheme, SCHEME)
    ensures |scheme| == |SCHEME|
  {
    FoldedLength(scheme, SCHEME);
  }

  /** The header yields `token` exactly when it is the scheme, one or more spaces, and that b64token. */
  lemma BearerIsExact(h: string, token: string)
    ensures BearerToken([h]) == Some(token) <==>
      IsB64Token(token) && exists scheme, n: nat :: n > 0 && EqualFold(scheme, "bearer") && h == scheme + Spaces(n) + token
  {
    if BearerToken([h]) == Some(token) {
      var n := BearerForm(h);
    }
    if scheme, n: nat :| IsB64Token(token) && n > 0 && EqualFold(scheme, SCHEME) && h == scheme + Spaces(n) + token {
      BearerYields(scheme, n, token);
    }
  }

  lemma BearerForm(h: string) returns (n: nat)
    requires BearerToken([h]).Some?
    ensures n > 0 && |h| > |SCHEME| && EqualFold(h[..|SCHEME|], SCHEME)
    ensures h == h[..|SCHEME|] + Spaces(n) + BearerToken([h]).value
  {
    var rest := h[|SCHEME|..];
    n := TrimmedSpaces(rest);
    assert h == h[..|SCHEME|] + rest;
  }

  lemma BearerYields(scheme: string, n: nat, token: string)
    requires IsB64Token(token) && n > 0 && EqualFold(scheme, SCHEME)
    ensures BearerToken([scheme + Spaces(n) + token]) == Some(token)
  {
    SchemeLength(scheme);
    var h := scheme + Spaces(n) + token;
    assert h[..|SCHEME|] == scheme && h[|SCHEME|..] == Spaces(n) + token && h[|SCHEME|] == ' ';
    TrimRightIsPrefix(token, '=');
    assert IsB64TokenChar(TrimRight(token, '=')[0]);
    TrimSpaces(n, token);
  }

  lemma NoTrailingEquals(s: string)
    requires s != "" && s[|s| - 1] != '='
    ensures TrimRight(s, '=') == s
  {
  }

  lemma JoinedIsB64Token(header: seq<byte>, payload: seq<byte>, signature: seq<byte>)
    ensures IsB64Token(Join3(B64.Encode(header), B64.Encode(payload), B64.Encode(signature)))
  {
    var h, p, s := B64.Encode(header), B64.Encode(payload), B64.Encode(signature);
    var token := Join3(h, p, s);
    B64.DecodeTextOfEncode(true, header);
    B64.DecodeTextOfEncode(true, payload);
    B64.DecodeTextOfEncode(true, signature);
    forall i | 0 <= i < |token|
      ensures IsB64TokenChar(token[i])
    {
      assert token[i] in h || token[i] in p || token[i] in s || token[i] == '.';
    }
    assert token[|token| - 1] != '=';
    NoTrailingEquals(token);
  }

  /** Whatever Sign builds goes through the bearer header unchanged and splits into what was signed. */
  lemma SignedTokenTravels(header: seq<byte>, payload: seq<byte>, sign: string -> seq<byte>, scheme: string, n: nat)
    requires EqualFold(scheme, SCHEME) && n > 0
    ensures
      var token := Signed(header, payload, sign);
      var input := B64.Encode(header) + "." + B64.Encode(payload);
      && BearerToken([scheme + Spaces(n) + token]) == Some(token)
      && Decoded(token) == Some((header, payload, sign(input)))
      && exists h, p, s :: Split3(token) == Some((h, p, s)) && h + "." + p == input
  {
    var h, p := B64.Encode(header), B64.Encode(payload);
    var signature := sign(h + "." + p);
    var s := B64.Encode(signature);
    var token := Signed(header, payload, sign);
    assert token == Join3(h, p, s);
    OneTokenPerContent(token, header, payload, signature);
    EncodedLacksDot(header);
    EncodedLacksDot(payload);
    EncodedLacksDot(signature);
    Split3IsExact(token, h, p, s);
    JoinedIsB64Token(header, payload, signature);
    BearerIsExact(scheme + Spaces(n) + token, token);
  }

  // ---- The grammar of a bearer token -----------------------------------------------

  predicate IsTokenLetter(c: char) {
    || 'A' <= c <= 'Z' || 'a' <= c <= 'z' || '0' <= c <= '9'
    || c == '-' || c == '.' || c == '_' || c == '~' || c == '+' || c == '/'
  }

  function Equals(n: nat): string {
    if n == 0 then "" else Equals(n - 1) + "="
  }

  lemma {:induction false} TrimmedEquals(s: string) returns (n: nat)
    ensures s == TrimRight(s, '=') + Equals(n)
  {
    n := 0;
    if s != "" && s[|s| - 1] == '=' {
      var m := TrimmedEquals(s[..|s| - 1]);
      n := m + 1;
      assert s == s[..|s| - 1] + "=";
    }
  }

  lemma {:induction false} TrimEquals(body: string, n: nat)
    requires body != "" && body[|body| - 1] != '='
    ensures TrimRight(body + Equals(n), '=') == body
  {
    if n > 0 {
      TrimEquals(body, n - 1);
      var s := body + Equals(n);
      assert s == body + Equals(n - 1) + "=";
      assert s[..|s| - 1] == body + Equals(n - 1);
    } else {
      assert body + "" == body;
    }
  }

  lemma LettersAgree(c: char)
    ensures IsB64TokenChar(c) <==> IsTokenLetter(c)
  {
  }

  /** A b64token, the equals signs aside. */
  predicate IsTokenBody(body: string) {
    body != "" && forall i :: 0 <= i < |body| ==> IsTokenLetter(body[i])
  }

  lemma BodiesAgree(body: string)
    ensures IsTokenBody(body) <==> body != "" && forall i :: 0 <= i < |body| ==> IsB64TokenChar(body[i])
  {
    forall c
      ensures IsB64TokenChar(c) <==> IsTokenLetter(c)
    {
      LettersAgree(c);
    }
  }

  lemma TrimmedBody(s: string)
    ensures IsB64Token(s) <==> IsTokenBody(TrimRight(s, '='))
  {
    BodiesAgree(TrimRight(s, '='));
  }

  lemma BodyTrimmed(body: string, n: nat)
    requires IsTokenBody(body)
    ensures TrimRight(body + Equals(n), '=') == body
  {
    assert IsTokenLetter(body[|body| - 1]);
    TrimEquals(body, n);
  }

  /** Section 2.1 of RFC 6750: at least one letter, digit or mark, then equals signs. */
  lemma B64TokenExactly(s: string)
    ensures IsB64Token(s) <==> exists body, n :: IsTokenBody(body) && s == body + Equals(n)
  {
    TrimmedBody(s);
    if IsB64Token(s) {
      var n := TrimmedEquals(s);
    }
    if body, n :| IsTokenBody(body) && s == body + Equals(n) {
      BodyTrimmed(body, n);
    }
  }

  /** A request with no such header, or with several, carries no token. */
  lemma OneHeaderOnly(values: seq<string>)
    ensures BearerToken(values).Some? ==> |values| == 1
  {
  }
}
