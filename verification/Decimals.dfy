/** Decimal digit strings and the numbers they denote. */
module Decimals {
  predicate IsDigit(c: char) {
    '0' <= c <= '9'
  }

  function DigitValue(c: char): nat
    requires IsDigit(c)
  {
    (c - '0') as int
  }

  predicate Digits(s: string) {
    forall i :: 0 <= i < |s| ==> IsDigit(s[i])
  }

  /** The number a digit string denotes, of any length. */
  function Number(s: string): nat
    requires Digits(s)
  {
    if s == "" then 0 else 10 * Number(s[..|s| - 1]) + DigitValue(s[|s| - 1])
  }

  function Pow10(k: nat): nat {
    if k == 0 then 1 else 10 * Pow10(k - 1)
  }

  lemma TimesTen(n: nat, p: nat)
    ensures 10 * (n * p) == n * (10 * p)
  {
  }

  lemma {:induction false} PowerPositive(k: nat)
    ensures Pow10(k) >= 1
  {
    if k > 0 {
      PowerPositive(k - 1);
    }
  }

  /** A leading digit counts for the power of its place. */
  lemma {:induction false} NumberCons(d: char, s: string)
    requires IsDigit(d) && Digits(s)
    ensures Digits([d] + s) && Number([d] + s) == DigitValue(d) * Pow10(|s|) + Number(s)
  {
    if s == "" {
      assert [d] + s == [d] && [d][..0] == "";
    } else {
      var t, c := s[..|s| - 1], s[|s| - 1];
      NumberCons(d, t);
      assert ([d] + s)[..|s|] == [d] + t && ([d] + s)[|s|] == c;
      TimesTen(DigitValue(d), Pow10(|t|));
    }
  }
}
