/**
 * Go's `strconv.Atoi` (base 10, 64-bit `int`) and `strconv.Itoa`.
 * Atoi accepts an optional `+` or `-` followed by one or more ASCII digits
 * (no underscores, no spaces) whose value fits in an int64; anything else is
 * a syntax or range error.
 */
module Strconv {
  import opened Wrappers
  import Int64

  predicate IsDigit(c: char) {
    '0' <= c <= '9'
  }

  predicate AllDigits(s: string) {
    forall k :: 0 <= k < |s| ==> IsDigit(s[k])
  }

  function DigitValue(c: char): (d: nat)
    requires IsDigit(c)
    ensures d < 10
  {
    c as int - '0' as int
  }

  function DigitChar(d: nat): (c: char)
    requires d < 10
    ensures IsDigit(c) && DigitValue(c) == d
  {
    (d + '0' as int) as char
  }

  /** The value of a string of decimal digits, most significant first. */
  function DigitsValue(s: string): nat
    requires AllDigits(s)
    decreases |s|
  {
    if s == [] then 0 else 10 * DigitsValue(s[..|s| - 1]) + DigitValue(s[|s| - 1])
  }

  /** The text after an optional leading sign. */
  function Unsigned(s: string): string {
    if |s| > 0 && (s[0] == '+' || s[0] == '-') then s[1..] else s
  }

  predicate IsDecimal(s: string) {
    |Unsigned(s)| > 0 && AllDigits(Unsigned(s))
  }

  function DecimalValue(s: string): int
    requires IsDecimal(s)
  {
    if s[0] == '-' then -(DigitsValue(Unsigned(s)) as int) else DigitsValue(Unsigned(s))
  }

  /** `strconv.Atoi`: None stands for a non-nil error. */
  function Atoi(s: string): Option<int> {
    if IsDecimal(s) && Int64.InRange(DecimalValue(s)) then Some(DecimalValue(s)) else None
  }

  /** Shortest decimal digits of a natural number. */
  function NatToDecimal(m: nat): (s: string)
    ensures |s| > 0 && AllDigits(s)
    decreases m
  {
    if m < 10 then [DigitChar(m)] else NatToDecimal(m / 10) + [DigitChar(m % 10)]
  }

  /** `strconv.Itoa`. */
  function Itoa(n: int): string {
    if n < 0 then "-" + NatToDecimal(-n) else NatToDecimal(n)
  }

  lemma {:induction false} NatToDecimalValue(m: nat)
    ensures DigitsValue(NatToDecimal(m)) == m
    decreases m
  {
    if m >= 10 {
      NatToDecimalValue(m / 10);
      var s := NatToDecimal(m);
      assert s[..|s| - 1] == NatToDecimal(m / 10);
    }
  }

  /** Atoi reads back every int64 that Itoa prints. */
  lemma AtoiItoa(n: int)
    requires Int64.InRange(n)
    ensures Atoi(Itoa(n)) == Some(n)
  {
    if n < 0 {
      NatToDecimalValue(-n);
      assert Unsigned(Itoa(n)) == NatToDecimal(-n);
    } else {
      NatToDecimalValue(n);
      assert Unsigned(Itoa(n)) == NatToDecimal(n);
    }
  }

  /** A character that is neither a digit nor a leading sign makes Atoi fail. */
  lemma AtoiRejectsNonDigit(s: string, k: nat)
    requires k < |s| && !IsDigit(s[k])
    requires k > 0 || (s[0] != '+' && s[0] != '-')
    ensures Atoi(s).None?
  {
    if |s| > 0 && (s[0] == '+' || s[0] == '-') {
      assert Unsigned(s)[k - 1] == s[k];
    } else {
      assert Unsigned(s)[k] == s[k];
    }
  }
}
