/**
 Printing a NumericDate (section 2 of RFC 7519): the decimal text denotes the instant exactly,
 negative instants included.
 */
module NumericDates {
  import opened Wrappers
  import opened Strings
  import opened Decimals

  const BILLION: int := 1_000_000_000

  /** The digits of a count of nanoseconds. */
  const NANO_DIGITS: nat := 9

  // ---- Decimal digits --------------------------------------------------------------

  function DigitChar(d: nat): char
    requires d < 10
  {
    '0' + d as char
  }

  /** strconv.FormatInt of a number that is not negative. */
  function FormatNat(n: nat): string {
    if n < 10 then [DigitChar(n)] else FormatNat(n / 10) + [DigitChar(n % 10)]
  }

  function FormatInt(n: int): string {
    if n < 0 then "-" + FormatNat(-n) else FormatNat(n)
  }

  /** fmt's %09d for `width` nine, on a number of at most that many digits. */
  function Padded(n: nat, width: nat): string {
    if width == 0 then "" else Padded(n / 10, width - 1) + [DigitChar(n % 10)]
  }

  lemma {:induction false} FormatNatDenotes(n: nat)
    ensures FormatNat(n) != "" && Digits(FormatNat(n)) && Number(FormatNat(n)) == n
    ensures |FormatNat(n)| > 1 ==> FormatNat(n)[0] != '0'
    ensures n > 0 ==> FormatNat(n)[0] != '0'
  {
    if n < 10 {
      assert FormatNat(n)[..0] == "";
    } else {
      FormatNatDenotes(n / 10);
      assert FormatNat(n)[..|FormatNat(n)| - 1] == FormatNat(n / 10);
    }
  }

  lemma {:induction false} PaddedDenotes(n: nat, width: nat)
    requires n < Pow10(width)
    ensures |Padded(n, width)| == width && Digits(Padded(n, width)) && Number(Padded(n, width)) == n
  {
    if width > 0 {
      PaddedDenotes(n / 10, width - 1);
      assert Padded(n, width)[..width - 1] == Padded(n / 10, width - 1);
    }
  }

  // ---- The printer -----------------------------------------------------------------

  /** The fraction digits of a nanosecond count: nine digits, trailing zeros trimmed. */
  function Fraction(nanos: nat): string {
    TrimRight(Padded(nanos, NANO_DIGITS), '0')
  }

  function Decimal(whole: int, fraction: nat): string {
    FormatInt(whole) + "." + Fraction(fraction)
  }

  /**
   MarshalJSON of an instant given as time.Time gives it: floor seconds and 0 <= nsec < 10^9.
   -0.5 is sec = -1, nsec = 500000000.
   */
  function Printed(sec: int, nsec: nat): string
    requires nsec < BILLION
  {
    if nsec == 0 then FormatInt(sec)
    else if sec < 0 then "-" + Decimal(-(sec + 1), BILLION - nsec)
    else Decimal(sec, nsec)
  }

  // ---- What a JSON number denotes --------------------------------------------------

  /** Fraction digits as a count of billionths. */
  function Scaled(f: string): nat
    requires Digits(f) && |f| <= 9
  {
    Number(f) * Pow10(9 - |f|)
  }

  /** A whole part and, after a point, one to nine fraction digits, as a count of nanoseconds. */
  function UnsignedParts(whole: string, frac: Option<string>): Option<nat> {
    if whole == "" || !Digits(whole) || (|whole| > 1 && whole[0] == '0') then None
    else
      match frac
      case None => Some(Number(whole) * 1_000_000_000)
      case Some(f) =>
        if f == "" || |f| > 9 || !Digits(f) then None else Some(Number(whole) * 1_000_000_000 + Scaled(f))
  }

  /** An unsigned decimal, cut at its first point. */
  function Unsigned(s: string): Option<nat> {
    var dot := IndexOf(s, '.');
    UnsignedParts(s[..dot], if dot == |s| then None else Some(s[dot + 1..]))
  }

  /** The JSON number grammar without exponent; None when the text is not one. */
  function Denoted(s: string): Option<int> {
    var negative := s != "" && s[0] == '-';
    match Unsigned(if negative then s[1..] else s)
    case None => None
    case Some(n) =>
      var value: int := n;
      Some(if negative then -value else value)
  }

  lemma {:induction false} TrimmedZeros(s: string)
    requires Digits(s)
    ensures
      var t := TrimRight(s, '0');
      && t <= s && Digits(t) && Number(s) == Number(t) * Pow10(|s| - |t|)
      && (t != "" ==> t[|t| - 1] != '0') && (t == "" ==> Number(s) == 0)
  {
    var t := TrimRight(s, '0');
    if s != "" && s[|s| - 1] == '0' {
      TrimmedZeros(s[..|s| - 1]);
      TimesTen(Number(t), Pow10(|s| - 1 - |t|));
    } else {
      assert Pow10(0) == 1;
    }
  }

  lemma BillionIsNineZeros()
    ensures Pow10(9) == BILLION
  {
    assert Pow10(3) == 1000;
    assert Pow10(6) == 1_000_000;
  }

  lemma FractionDenotes(nanos: nat)
    requires 0 < nanos < BILLION
    ensures
      var f := Fraction(nanos);
      f != "" && |f| <= 9 && Digits(f) && f[|f| - 1] != '0' && Scaled(f) == nanos
  {
    BillionIsNineZeros();
    PaddedDenotes(nanos, NANO_DIGITS);
    TrimmedZeros(Padded(nanos, NANO_DIGITS));
  }

  lemma DigitsLack(s: string, c: char)
    requires Digits(s) && !IsDigit(c)
    ensures Lacks(s, c)
  {
  }

  lemma WholeDenoted(n: nat)
    ensures Unsigned(FormatNat(n)) == Some(n * 1_000_000_000) && FormatNat(n)[0] != '-'
  {
    FormatNatDenotes(n);
    DigitsLack(FormatNat(n), '.');
    FirstPart(FormatNat(n), '.', "");
    assert FormatNat(n)[..|FormatNat(n)|] == FormatNat(n);
    assert IsDigit(FormatNat(n)[0]);
  }

  lemma DecimalDenoted(n: nat, nanos: nat)
    requires 0 < nanos < BILLION
    ensures
      var s := Decimal(n, nanos);
      Unsigned(s) == Some(n * 1_000_000_000 + nanos) && s[0] != '-' && s[|s| - 1] != '0' && s[|s| - 1] != '.'
  {
    FormatNatDenotes(n);
    FractionDenotes(nanos);
    TwoPartsDenote(FormatNat(n), Fraction(nanos));
    var s := Decimal(n, nanos);
    assert s == FormatNat(n) + ['.'] + Fraction(nanos);
    assert IsDigit(s[0]);
    assert s[|s| - 1] == Fraction(nanos)[|Fraction(nanos)| - 1];
  }

  lemma TwoPartsDenote(whole: string, frac: string)
    requires whole != "" && Digits(whole) && (|whole| > 1 ==> whole[0] != '0')
    requires frac != "" && |frac| <= 9 && Digits(frac)
    ensures Unsigned(whole + ['.'] + frac) == Some(Number(whole) * 1_000_000_000 + Scaled(frac))
  {
    CutAtPoint(whole, frac);
    PartsDenote(whole, frac);
  }

  lemma PartsDenote(whole: string, frac: string)
    requires whole != "" && Digits(whole) && (|whole| > 1 ==> whole[0] != '0')
    requires frac != "" && |frac| <= 9 && Digits(frac)
    ensures UnsignedParts(whole, Some(frac)) == Some(Number(whole) * 1_000_000_000 + Scaled(frac))
  {
  }

  lemma CutAtPoint(whole: string, frac: string)
    requires Digits(whole)
    ensures Unsigned(whole + ['.'] + frac) == UnsignedParts(whole, Some(frac))
  {
    DigitsLack(whole, '.');
    FirstPart(whole, '.', frac);
  }

  lemma Negated(body: string)
    requires Unsigned(body).Some?
    ensures Denoted("-" + body) == Some(-(Unsigned(body).value as int))
  {
    assert ("-" + body)[1..] == body;
  }

  lemma NotNegated(body: string)
    requires Unsigned(body).Some? && body != "" && body[0] != '-'
    ensures Denoted(body) == Some(Unsigned(body).value as int)
  {
  }

  lemma WholeSeconds(sec: int)
    ensures Denoted(Printed(sec, 0)) == Some(sec * 1_000_000_000)
  {
    var n := if sec < 0 then -sec else sec;
    WholeDenoted(n);
    FormatNatDenotes(n);
    if sec < 0 {
      Negated(FormatNat(n));
    } else {
      NotNegated(FormatNat(n));
    }
  }

  /** `n` and `nanos` are what the printer negates: whole seconds and the fraction below. */
  lemma BeforeEpoch(sec: int, nsec: nat, n: nat, nanos: nat)
    requires sec < 0 < nsec < BILLION && n == -(sec + 1) && nanos == BILLION - nsec
    ensures Denoted(Printed(sec, nsec)) == Some(sec * 1_000_000_000 + nsec)
  {
    var v := sec * 1_000_000_000 + nsec;
    assert -v == n * 1_000_000_000 + nanos;
    PrintedBefore(sec, nsec, n, nanos);
    DecimalNegated(n, nanos, v);
  }

  lemma DecimalNegated(n: nat, nanos: nat, v: int)
    requires 0 < nanos < BILLION && -v == n * 1_000_000_000 + nanos
    ensures Denoted("-" + Decimal(n, nanos)) == Some(v)
  {
    DecimalDenoted(n, nanos);
    NegatedValue(Decimal(n, nanos), v);
  }

  lemma NegatedValue(body: string, v: int)
    requires Unsigned(body).Some? && Unsigned(body).value == -v
    ensures Denoted("-" + body) == Some(v)
  {
    Negated(body);
  }

  lemma PrintedBefore(sec: int, nsec: nat, n: nat, nanos: nat)
    requires sec < 0 < nsec < BILLION && n == -(sec + 1) && nanos == BILLION - nsec
    ensures Printed(sec, nsec) == "-" + Decimal(n, nanos)
  {
  }

  lemma AfterEpoch(sec: nat, nsec: nat)
    requires 0 < nsec < BILLION
    ensures Denoted(Printed(sec, nsec)) == Some(sec * 1_000_000_000 + nsec)
  {
    DecimalDenoted(sec, nsec);
    NotNegated(Decimal(sec, nsec));
  }

  /** The printed text is a JSON number that denotes sec + nsec / 10^9 exactly. */
  lemma PrintedDenotesInstant(sec: int, nsec: nat)
    requires nsec < BILLION
    ensures Denoted(Printed(sec, nsec)) == Some(sec * 1_000_000_000 + nsec)
  {
    if nsec == 0 {
      WholeSeconds(sec);
    } else if sec < 0 {
      BeforeEpoch(sec, nsec, -(sec + 1), BILLION - nsec);
    } else {
      AfterEpoch(sec, nsec);
    }
  }

  /** A printed fraction never ends in a zero or in its point. */
  lemma NoTrailingZero(sec: int, nsec: nat)
    requires 0 < nsec < BILLION
    ensures var s := Printed(sec, nsec); s[|s| - 1] != '0' && s[|s| - 1] != '.'
  {
    var nanos := if sec < 0 then BILLION - nsec else nsec;
    FractionDenotes(nanos);
    var s, f := Printed(sec, nsec), Fraction(nanos);
    assert s[|s| - 1] == f[|f| - 1];
  }

  lemma InstantsDiffer(sec: int, nsec: nat, sec': int, nsec': nat)
    requires nsec < BILLION && nsec' < BILLION && sec * 1_000_000_000 + nsec == sec' * 1_000_000_000 + nsec'
    ensures sec == sec' && nsec == nsec'
  {
  }

  /** Distinct instants print differently. */
  lemma PrintedIsInjective(sec: int, nsec: nat, sec': int, nsec': nat)
    requires nsec < BILLION && nsec' < BILLION && Printed(sec, nsec) == Printed(sec', nsec')
    ensures sec == sec' && nsec == nsec'
  {
    PrintedDenotesInstant(sec, nsec);
    PrintedDenotesInstant(sec', nsec');
    InstantsDiffer(sec, nsec, sec', nsec');
  }
}
