/**
 Parsing Cache-Control for the key cache: the answer depends only on which directives are
 present, and an all-digit max-age never overflows the 64-bit duration.
 */
module CacheControl {
  import opened Wrappers
  import opened Strings
  import opened Decimals
  import opened Quoting

  const MAX_DURATION: int := 0x7FFF_FFFF_FFFF_FFFF
  const MAX_UINT64: int := 0xFFFF_FFFF_FFFF_FFFF
  const SECOND: int := 1_000_000_000

  datatype Parsed = Parsed(maxAge: int, hasMaxAge: bool, noCache: bool, noStore: bool)

  // ---- Numbers ---------------------------------------------------------------------

  datatype NumberError = BadSyntax | OutOfRange

  /** The loop of strconv.ParseUint in base 10: the first problem met decides the error. */
  function ParseDigits(s: string, n: int): Result<int, NumberError>
    decreases |s|
  {
    if s == "" then Ok(n)
    else if !IsDigit(s[0]) then Err(BadSyntax)
    else if n >= MAX_UINT64 / 10 + 1 || 10 * n + DigitValue(s[0]) > MAX_UINT64 then Err(OutOfRange)
    else ParseDigits(s[1..], 10 * n + DigitValue(s[0]))
  }

  function ParseUint(s: string): Result<int, NumberError> {
    if s == "" then Err(BadSyntax) else ParseDigits(s, 0)
  }

  /** parseDeltaSeconds, in nanoseconds. */
  function DeltaSeconds(value: string): int {
    match Bare(TrimSpace(value))
    case None => 0
    case Some(digits) => DurationOf(digits)
  }

  /** Quotes around the whole are taken off. */
  function Bare(v: string): Option<string> {
    if |v| >= 2 && v[0] == '"' && v[|v| - 1] == '"' then Unquoted(v) else Some(v)
  }

  function DurationOf(digits: string): int {
    match ParseUint(digits)
    case Err(OutOfRange) => MAX_DURATION
    case Err(BadSyntax) => 0
    case Ok(secs) => if secs > MAX_DURATION / SECOND then MAX_DURATION else secs * SECOND
  }

  lemma Scaled(a: int, b: int, p: int)
    requires a >= b && p >= 1 && b >= 0
    ensures a * p >= b
  {
  }

  lemma OneDigitMore(n: int, d: int, p: int, rest: int)
    ensures n * (10 * p) + (d * p + rest) == (10 * n + d) * p + rest
  {
    assert n * (10 * p) == (10 * n) * p;
  }

  lemma {:induction false} ParseDigitsIsNumber(s: string, n: int)
    requires Digits(s) && 0 <= n <= MAX_UINT64
    ensures ParseDigits(s, n) ==
      if n * Pow10(|s|) + Number(s) <= MAX_UINT64 then Ok(n * Pow10(|s|) + Number(s)) else Err(OutOfRange)
    decreases |s|
  {
    if s != "" {
      var d, rest := s[0], s[1..];
      assert s == [d] + rest;
      NumberCons(d, rest);
      PowerPositive(|rest|);
      var m := 10 * n + DigitValue(d);
      OneDigitMore(n, DigitValue(d), Pow10(|rest|), Number(rest));
      if m <= MAX_UINT64 {
        ParseDigitsIsNumber(rest, m);
      } else {
        Scaled(m, m, Pow10(|rest|));
      }
    }
  }

  lemma DigitsAreNotTrimmed(s: string)
    requires s != "" && Digits(s)
    ensures TrimSpace(s) == s && s[0] != '"'
  {
    assert IsDigit(s[0]) && IsDigit(s[|s| - 1]);
    NothingToTrim(s);
  }

  /** An all-digit value of any length is min(v seconds, maxDuration), without overflow. */
  lemma MaxAgeSaturates(v: string)
    requires v != "" && Digits(v)
    ensures DeltaSeconds(v) == if Number(v) * SECOND <= MAX_DURATION then Number(v) * SECOND else MAX_DURATION
    ensures 0 <= DeltaSeconds(v) <= MAX_DURATION
  {
    DigitsAreNotTrimmed(v);
    ParseDigitsIsNumber(v, 0);
    assert 0 * Pow10(|v|) == 0;
  }

  /** Quotes around the digits make no difference. */
  lemma QuotedMaxAge(v: string)
    requires v != "" && Digits(v)
    ensures DeltaSeconds("\"" + v + "\"") == DeltaSeconds(v)
  {
    var quoted := "\"" + v + "\"";
    assert quoted[0] == '"' && quoted[|quoted| - 1] == '"';
    assert quoted[1..] == v + "\"";
    NothingToTrim(quoted);
    QuotedDigits(v);
    BareOfQuoted(quoted, v);
    DigitsAreNotTrimmed(v);
  }

  lemma BareOfQuoted(quoted: string, v: string)
    requires |quoted| >= 2 && quoted[0] == '"' && quoted[|quoted| - 1] == '"' && UnquotedRest(quoted[1..]) == Some(v)
    ensures Bare(quoted) == Some(v)
  {
  }

  // ---- Directives ------------------------------------------------------------------

  datatype Directive = NoCache | NoStore | MaxAge(value: Option<string>) | Ignored

  /** strings.Cut at the first equals sign, after trimming the part, and the trimmed name. */
  function CutPart(part: string): (string, Option<string>) {
    var p := TrimSpace(part);
    var i := IndexOf(p, '=');
    (TrimSpace(p[..i]), if i < |p| then Some(p[i + 1..]) else None)
  }

  function DirectiveNamed(name: string, value: Option<string>): Directive {
    if EqualFold(name, "no-cache") then NoCache
    else if EqualFold(name, "no-store") then NoStore
    else if EqualFold(name, "max-age") then MaxAge(value)
    else Ignored
  }

  function DirectiveOf(part: string): Directive {
    var (name, value) := CutPart(part);
    DirectiveNamed(name, value)
  }

  function DirectivesIn(parts: seq<string>): seq<Directive> {
    if parts == [] then [] else DirectivesIn(parts[..|parts| - 1]) + [DirectiveOf(parts[|parts| - 1])]
  }

  /** Every directive of every header line, in order. */
  function Directives(headers: seq<string>): seq<Directive> {
    if headers == [] then []
    else Directives(headers[..|headers| - 1]) + DirectivesIn(SplitOn(headers[|headers| - 1], ','))
  }

  function MaxAgeCount(ds: seq<Directive>): nat {
    if ds == [] then 0 else MaxAgeCount(ds[..|ds| - 1]) + if ds[|ds| - 1].MaxAge? then 1 else 0
  }

  /** One directive taken into account; only the first max-age can give a value. */
  function Applied(out: Parsed, first: bool, d: Directive): Parsed {
    match d
    case NoCache => out.(noCache := true)
    case NoStore => out.(noStore := true)
    case MaxAge(value) => out.(hasMaxAge := true, maxAge := if first && value.Some? then DeltaSeconds(value.value) else 0)
    case Ignored => out
  }

  /** The state of the parsing loop after these directives. */
  function Folded(ds: seq<Directive>): Parsed {
    if ds == [] then Parsed(0, false, false, false)
    else
      var before := ds[..|ds| - 1];
      Applied(Folded(before), MaxAgeCount(before) == 0, ds[|ds| - 1])
  }

  lemma FoldedStep(ds: seq<Directive>, d: Directive)
    ensures MaxAgeCount(ds + [d]) == MaxAgeCount(ds) + if d.MaxAge? then 1 else 0
    ensures Folded(ds + [d]) == Applied(Folded(ds), MaxAgeCount(ds) == 0, d)
  {
    assert (ds + [d])[..|ds|] == ds;
  }

  /** The loop's switch on the name of one part. */
  method ApplyPart(name: string, value: Option<string>, out0: Parsed, count0: nat) returns (out: Parsed, maxAgeCount: nat)
    ensures out == Applied(out0, count0 == 0, DirectiveNamed(name, value))
    ensures maxAgeCount == count0 + if DirectiveNamed(name, value).MaxAge? then 1 else 0
  {
    out, maxAgeCount := out0, count0;
    if EqualFold(name, "no-cache") {
      out := out.(noCache := true);
    } else if EqualFold(name, "no-store") {
      out := out.(noStore := true);
    } else if EqualFold(name, "max-age") {
      maxAgeCount := maxAgeCount + 1;
      out := out.(hasMaxAge := true);
      if maxAgeCount == 1 && value.Some? {
        out := out.(maxAge := DeltaSeconds(value.value));
      } else {
        out := out.(maxAge := 0);
      }
    }
  }

  lemma DirectivesInStep(parts: seq<string>, j: nat)
    requires j < |parts|
    ensures DirectivesIn(parts[..j + 1]) == DirectivesIn(parts[..j]) + [DirectiveOf(parts[j])]
  {
    assert parts[..j + 1][..j] == parts[..j];
  }

  /** The inner loop: the comma-separated parts of one line, after the directives in `done`. */
  method ParseLine(ghost done: seq<Directive>, header: string, out0: Parsed, count0: nat)
    returns (out: Parsed, maxAgeCount: nat)
    requires out0 == Folded(done) && count0 == MaxAgeCount(done)
    ensures out == Folded(done + DirectivesIn(SplitOn(header, ',')))
    ensures maxAgeCount == MaxAgeCount(done + DirectivesIn(SplitOn(header, ',')))
  {
    out, maxAgeCount := out0, count0;
    var parts := SplitOn(header, ',');
    ghost var ds := done;
    for j := 0 to |parts|
      invariant ds == done + DirectivesIn(parts[..j])
      invariant out == Folded(ds) && maxAgeCount == MaxAgeCount(ds)
    {
      FoldedStep(ds, DirectiveOf(parts[j]));
      DirectivesInStep(parts, j);
      var (name, value) := CutPart(parts[j]);
      out, maxAgeCount := ApplyPart(name, value, out, maxAgeCount);
      ds := ds + [DirectiveOf(parts[j])];
    }
    assert parts[..|parts|] == parts;
  }

  /** parseCacheControl: every header line in turn. */
  method ParseCacheControl(headers: seq<string>) returns (out: Parsed)
    ensures out == Folded(Directives(headers))
  {
    out := Parsed(0, false, false, false);
    var maxAgeCount: nat := 0;
    for i := 0 to |headers|
      invariant out == Folded(Directives(headers[..i]))
      invariant maxAgeCount == MaxAgeCount(Directives(headers[..i]))
    {
      out, maxAgeCount := ParseLine(Directives(headers[..i]), headers[i], out, maxAgeCount);
      assert headers[..i + 1][..i] == headers[..i];
    }
    assert headers[..|headers|] == headers;
  }

  /** The sole max-age, if there is exactly one: any repetition counts as zero. */
  ghost predicate OnlyMaxAge(m: multiset<Directive>, value: Option<string>) {
    m[MaxAge(value)] == 1 && forall v :: v != value ==> MaxAge(v) !in m
  }

  /** What the loop computes, told from the directives without their order. */
  ghost predicate Describes(m: multiset<Directive>, p: Parsed) {
    && (p.noCache <==> NoCache in m)
    && (p.noStore <==> NoStore in m)
    && (p.hasMaxAge <==> exists v :: MaxAge(v) in m)
    && (forall v :: OnlyMaxAge(m, Some(v)) ==> p.maxAge == DeltaSeconds(v))
    && ((forall v :: !OnlyMaxAge(m, Some(v))) ==> p.maxAge == 0)
  }

  lemma {:induction false} CountIsExact(ds: seq<Directive>)
    ensures MaxAgeCount(ds) == 0 <==> forall v :: MaxAge(v) !in multiset(ds)
    ensures MaxAgeCount(ds) == 1 <==> exists v :: OnlyMaxAge(multiset(ds), v)
  {
    if ds != [] {
      var before, d := ds[..|ds| - 1], ds[|ds| - 1];
      assert ds == before + [d];
      CountIsExact(before);
      var m, m' := multiset(before), multiset(ds);
      assert m' == m + multiset{d};
      if d.MaxAge? {
        if MaxAgeCount(before) == 0 {
          assert OnlyMaxAge(m', d.value);
        } else {
          var w :| MaxAge(w) in m;
          forall v
            ensures !OnlyMaxAge(m', v)
          {
            assert MaxAge(w) in m' && d in m' && (w == d.value ==> m'[d] >= 2);
          }
        }
      } else {
        assert forall v :: m'[MaxAge(v)] == m[MaxAge(v)];
        assert forall v :: OnlyMaxAge(m', v) <==> OnlyMaxAge(m, v);
      }
    }
  }

  lemma {:induction false} FlagsAreDescribed(ds: seq<Directive>)
    ensures var m, p := multiset(ds), Folded(ds);
      && (p.noCache <==> NoCache in m) && (p.noStore <==> NoStore in m)
      && (p.hasMaxAge <==> MaxAgeCount(ds) > 0)
  {
    if ds != [] {
      var before, d := ds[..|ds| - 1], ds[|ds| - 1];
      assert ds == before + [d];
      FlagsAreDescribed(before);
      assert multiset(ds) == multiset(before) + multiset{d};
    }
  }

  /** The value is that of the only max-age, and zero unless there is exactly one with a value. */
  lemma {:induction false} MaxAgeIsDescribed(ds: seq<Directive>)
    ensures
      var m, p := multiset(ds), Folded(ds);
      && (MaxAgeCount(ds) != 1 ==> p.maxAge == 0)
      && (forall v :: OnlyMaxAge(m, v) ==> p.maxAge == if v.Some? then DeltaSeconds(v.value) else 0)
  {
    if ds != [] {
      var before, d := ds[..|ds| - 1], ds[|ds| - 1];
      assert ds == before + [d];
      MaxAgeIsDescribed(before);
      var m, m' := multiset(before), multiset(ds);
      assert m' == m + multiset{d};
      if d.MaxAge? {
        CountIsExact(ds);
        assert d in m';
      } else {
        assert forall v :: m'[MaxAge(v)] == m[MaxAge(v)];
        assert forall v :: OnlyMaxAge(m', v) <==> OnlyMaxAge(m, v);
      }
    }
  }

  lemma FoldedIsDescribed(ds: seq<Directive>)
    ensures Describes(multiset(ds), Folded(ds))
  {
    FlagsAreDescribed(ds);
    MaxAgeIsDescribed(ds);
    CountIsExact(ds);
    var m := multiset(ds);
    if MaxAgeCount(ds) == 1 {
      var v :| OnlyMaxAge(m, v);
      assert MaxAge(v) in m;
    }
  }

  lemma DescribedOnce(m: multiset<Directive>, p: Parsed, q: Parsed)
    requires Describes(m, p) && Describes(m, q)
    ensures p == q
  {
    if v :| OnlyMaxAge(m, Some(v)) {
      assert p.maxAge == q.maxAge;
    }
  }

  /** Neither the order of directives nor their division into header lines matters. */
  lemma OnlyTheDirectivesMatter(xs: seq<string>, ys: seq<string>)
    requires multiset(Directives(xs)) == multiset(Directives(ys))
    ensures Folded(Directives(xs)) == Folded(Directives(ys))
  {
    FoldedIsDescribed(Directives(xs));
    FoldedIsDescribed(Directives(ys));
    DescribedOnce(multiset(Directives(xs)), Folded(Directives(xs)), Folded(Directives(ys)));
  }

  /** Joining two header lines with a comma keeps their directives. */
  lemma LinesJoin(a: string, b: string)
    ensures Directives([a + "," + b]) == Directives([a, b])
  {
    SplitOfJoined(a, b);
    DirectivesConcat(SplitOn(a, ','), SplitOn(b, ','));
    OneLine(a + [','] + b);
    TwoLines(a, b);
  }

  lemma OneLine(a: string)
    ensures Directives([a]) == DirectivesIn(SplitOn(a, ','))
  {
    assert [a][..0] == [];
    assert Directives([]) == [];
  }

  lemma TwoLines(a: string, b: string)
    ensures Directives([a, b]) == DirectivesIn(SplitOn(a, ',')) + DirectivesIn(SplitOn(b, ','))
  {
    OneLine(a);
    assert [a, b][..1] == [a];
  }

  lemma SplitOfFirst(a: string, rest: string)
    requires Lacks(a, ',')
    ensures SplitOn(a + [','] + rest, ',') == [a] + SplitOn(rest, ',')
  {
    FirstPart(a, ',', rest);
  }

  lemma {:induction false} SplitOfJoined(a: string, b: string)
    ensures SplitOn(a + [','] + b, ',') == SplitOn(a, ',') + SplitOn(b, ',')
    decreases |a|
  {
    var i := IndexOf(a, ',');
    var head := a[..i];
    if i == |a| {
      assert head == a;
      SplitOfFirst(a, b);
    } else {
      var tail := a[i + 1..];
      Reassociate(a, i, b);
      SplitOfFirst(head, tail + [','] + b);
      SplitOfJoined(tail, b);
      assert SplitOn(a, ',') == [head] + SplitOn(tail, ',');
      Associate([head], SplitOn(tail, ','), SplitOn(b, ','));
    }
  }

  lemma Associate(a: seq<string>, b: seq<string>, c: seq<string>)
    ensures a + (b + c) == (a + b) + c
  {
  }

  lemma Reassociate(a: string, i: nat, b: string)
    requires i < |a| && a[i] == ','
    ensures a + [','] + b == a[..i] + [','] + (a[i + 1..] + [','] + b)
  {
  }

  lemma {:induction false} DirectivesConcat(xs: seq<string>, ys: seq<string>)
    ensures DirectivesIn(xs + ys) == DirectivesIn(xs) + DirectivesIn(ys)
    decreases |ys|
  {
    if ys == [] {
      assert xs + ys == xs;
    } else {
      assert (xs + ys)[..|xs + ys| - 1] == xs + ys[..|ys| - 1];
      DirectivesConcat(xs, ys[..|ys| - 1]);
    }
  }

  // ---- Texts of directives ---------------------------------------------------------

  lemma DirectiveNamedExactly(name: string, value: Option<string>)
    ensures DirectiveNamed(name, value) == NoCache <==> FoldCase(name) == "no-cache"
    ensures DirectiveNamed(name, value) == NoStore <==> FoldCase(name) == "no-store"
    ensures DirectiveNamed(name, value) == MaxAge(value) <==> FoldCase(name) == "max-age"
  {
    assert "no-cache"[3] == 'c' && "no-store"[3] == 's' && |"max-age"| == 7;
  }

  /** Lower-case letters and hyphens. */
  predicate IsLowerName(s: string) {
    forall i :: 0 <= i < |s| ==> 'a' <= s[i] <= 'z' || s[i] == '-'
  }

  lemma {:induction false} FoldedLowerName(s: string)
    requires IsLowerName(s)
    ensures FoldCase(s) == s
  {
    if s != "" {
      assert s[0] != LONG_S[0] && s[0] != KELVIN[0];
      assert forall i :: 0 <= i < |s[1..]| ==> s[1..][i] == s[i + 1];
      FoldedLowerName(s[1..]);
    }
  }

  /** A name alone, and a name with a value after the first equals sign. */
  lemma CutExactly(name: string, value: string)
    requires name != "" && IsLowerName(name) && value != "" && ' ' < value[|value| - 1] < '\U{7F}'
    ensures CutPart(name) == (name, None) && CutPart(name + ['='] + value) == (name, Some(value))
  {
    NothingToTrim(name);
    FirstPart(name, '=', value);
    NothingToTrim(name + ['='] + value);
    assert name[..|name|] == name;
  }

  /** The three names that mean something; any other lower-case name is ignored. */
  lemma DirectivesAreRecognised(name: string, value: string)
    requires name != "" && IsLowerName(name) && value != "" && ' ' < value[|value| - 1] < '\U{7F}'
    ensures DirectiveOf(name) ==
      if name == "no-cache" then NoCache else if name == "no-store" then NoStore
      else if name == "max-age" then MaxAge(None) else Ignored
    ensures DirectiveOf(name + ['='] + value) ==
      if name == "no-cache" then NoCache else if name == "no-store" then NoStore
      else if name == "max-age" then MaxAge(Some(value)) else Ignored
  {
    FoldedLowerName(name);
    CutExactly(name, value);
  }

  lemma {:induction false} DigitsThenOther(d: string, c: char, rest: string, n: int)
    requires Digits(d) && !IsDigit(c) && 0 <= n && n * Pow10(|d|) + Number(d) <= MAX_UINT64
    ensures ParseDigits(d + [c] + rest, n) == Err(BadSyntax)
    decreases |d|
  {
    var s := d + [c] + rest;
    if d != "" {
      var first, more := d[0], d[1..];
      assert d == [first] + more && s[0] == first && s[1..] == more + [c] + rest;
      NumberCons(first, more);
      PowerPositive(|more|);
      var m := 10 * n + DigitValue(first);
      OneDigitMore(n, DigitValue(first), Pow10(|more|), Number(more));
      Scaled(m, m, Pow10(|more|));
      DigitsThenOther(more, c, rest, m);
    }
  }

  /** A value that goes on after a number in range, or starts with no digit, counts as zero. */
  lemma OtherValuesAreZero(d: string, c: char, rest: string)
    requires Digits(d) && !IsDigit(c) && Number(d) <= MAX_UINT64
    ensures DurationOf(d + [c] + rest) == 0 && DurationOf("") == 0
  {
    assert 0 * Pow10(|d|) == 0;
    DigitsThenOther(d, c, rest, 0);
  }
}
