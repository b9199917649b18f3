/**
 * Decimal text of integers, as Go's strconv.Itoa and strconv.FormatInt(_, 10)
 * produce it: an optional '-' followed by the digits of the magnitude, most
 * significant first, without leading zeros. ParseInt reads such a text back;
 * the two are proved inverse to each other on their whole domains.
 */
module Decimal {

  predicate IsDigit(c: char) {
    '0' <= c <= '9'
  }

  predicate AllDigits(s: string) {
    forall i :: 0 <= i < |s| ==> IsDigit(s[i])
  }

  function DigitValue(c: char): (d: nat)
    requires IsDigit(c)
    ensures d < 10
  {
    c as int - '0' as int
  }

  function DigitChar(d: nat): (c: char)
    requires d < 10
    ensures IsDigit(c) && DigitValue(c) == d
  {
    ('0' as int + d) as char
  }

  /** The digits of a natural number, without leading zeros. */
  function NatDigits(n: nat): (s: string)
    decreases n
  {
    if n < 10 then [DigitChar(n)] else NatDigits(n / 10) + [DigitChar(n % 10)]
  }

  /** strconv.Itoa(n) (and strconv.FormatInt(n, 10)). */
  function Itoa(n: int): string {
    if n < 0 then "-" + NatDigits(-n) else NatDigits(n)
  }

  /** A nonempty digit string with no leading zero, unless it is "0" itself. */
  predicate IsCanonicalNat(s: string) {
    |s| > 0 && AllDigits(s) && (s[0] == '0' ==> |s| == 1)
  }

  /** The texts Itoa can produce: a canonical magnitude, with a '-' before any nonzero one. */
  predicate IsDecimalText(s: string) {
    if |s| > 0 && s[0] == '-' then IsCanonicalNat(s[1..]) && s[1..] != "0"
    else IsCanonicalNat(s)
  }

  /** The value of a digit string, read most significant digit first. */
  function DigitsValue(s: string): nat
    requires AllDigits(s)
  {
    if s == [] then 0 else DigitsValue(s[..|s| - 1]) * 10 + DigitValue(s[|s| - 1])
  }

  /** The integer a decimal text denotes. */
  function ParseInt(s: string): int
    requires IsDecimalText(s)
  {
    if s[0] == '-' then -(DigitsValue(s[1..]) as int) else DigitsValue(s)
  }

  lemma {:induction false} NatDigitsCanonical(n: nat)
    ensures IsCanonicalNat(NatDigits(n))
    ensures DigitsValue(NatDigits(n)) == n
    decreases n
  {
    var s := NatDigits(n);
    if n >= 10 {
      NatDigitsCanonical(n / 10);
      var p := NatDigits(n / 10);
      assert s == p + [DigitChar(n % 10)];
      assert s[..|s| - 1] == p;
      assert s[0] == p[0];
    }
  }

  /** Every text Itoa produces is a decimal text that reads back as the number. */
  lemma {:induction false} ParseItoa(n: int)
    ensures IsDecimalText(Itoa(n))
    ensures ParseInt(Itoa(n)) == n
  {
    if n < 0 {
      NatDigitsCanonical(-n);
      var s := Itoa(n);
      assert s[1..] == NatDigits(-n);
    } else {
      NatDigitsCanonical(n);
    }
  }

  /** A canonical digit string with a nonzero first digit has a nonzero value. */
  lemma {:induction false} LeadingDigitPositive(s: string)
    requires |s| > 0 && AllDigits(s) && s[0] != '0'
    ensures DigitsValue(s) >= 1
    decreases |s|
  {
    if |s| > 1 {
      LeadingDigitPositive(s[..|s| - 1]);
    }
  }

  lemma {:induction false} CanonicalNatDigits(s: string)
    requires IsCanonicalNat(s)
    ensures NatDigits(DigitsValue(s)) == s
    decreases |s|
  {
    var p := s[..|s| - 1];
    var c := s[|s| - 1];
    if |s| == 1 {
      assert DigitsValue(s) == DigitValue(c) by {
        assert p == [];
      }
      assert [DigitChar(DigitValue(c))] == [c];
    } else {
      assert IsCanonicalNat(p);
      LeadingDigitPositive(p);
      CanonicalNatDigits(p);
      var v := DigitsValue(s);
      assert v == DigitsValue(p) * 10 + DigitValue(c);
      assert v / 10 == DigitsValue(p) && v % 10 == DigitValue(c);
      assert DigitChar(DigitValue(c)) == c;
      assert s == p + [c];
    }
  }

  /** Every decimal text is the Itoa of the number it denotes: Itoa is onto the decimal texts. */
  lemma {:induction false} ItoaParse(s: string)
    requires IsDecimalText(s)
    ensures Itoa(ParseInt(s)) == s
  {
    if s[0] == '-' {
      var m := s[1..];
      CanonicalNatDigits(m);
      if m[0] != '0' {
        LeadingDigitPositive(m);
      }
      assert s == "-" + m;
    } else {
      CanonicalNatDigits(s);
    }
  }

  /** Distinct numbers have distinct decimal texts. */
  lemma ItoaInjective(a: int, b: int)
    requires Itoa(a) == Itoa(b)
    ensures a == b
  {
    ParseItoa(a);
    ParseItoa(b);
  }

}
