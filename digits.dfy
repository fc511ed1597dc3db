/**
 * Decimal text: which characters are digits and which are white space to
 * the C library, what a digit is worth, how printf's "%d" spells a number,
 * and how reading digits left to right (value * 10 + digit) rebuilds it.
 */
module Digits {

  predicate IsDigit(ch: char)
  {
    '0' <= ch <= '9'
  }

  /** The characters C's isspace accepts, which "%d" skips. */
  predicate IsSpace(ch: char)
  {
    ch == ' ' || ch == '\t' || ch == '\n' || ch == '\r' || ch == '\U{B}' || ch == '\U{C}'
  }

  /** The value of a digit character, i.e. ch - '0'. */
  function DigitValue(ch: char): (d: int)
    requires IsDigit(ch)
    ensures 0 <= d <= 9
  {
    ch as int - '0' as int
  }

  /** The character of a digit value, i.e. '0' + d. */
  function DigitChar(d: int): (ch: char)
    requires 0 <= d <= 9
    ensures IsDigit(ch) && DigitValue(ch) == d
  {
    (d + '0' as int) as char
  }

  /** The digit values of the digit characters of `s`, in order; other characters are passed over. */
  function DigitsOf(s: string): (ds: seq<int>)
    ensures |ds| <= |s|
    ensures forall k :: 0 <= k < |ds| ==> 0 <= ds[k] <= 9
  {
    if s == [] then []
    else DigitsOf(s[..|s| - 1]) + (if IsDigit(s[|s| - 1]) then [DigitValue(s[|s| - 1])] else [])
  }

  lemma {:induction false} DigitsOfAppend(s: string, t: string)
    ensures DigitsOf(s + t) == DigitsOf(s) + DigitsOf(t)
  {
    if t == [] {
      assert s + t == s;
    } else {
      DigitsOfAppend(s, t[..|t| - 1]);
      assert (s + t)[..|s + t| - 1] == s + t[..|t| - 1];
    }
  }

  /** A string of digits only keeps one digit value per character. */
  lemma {:induction false} DigitsOfAllDigits(s: string)
    requires forall k :: 0 <= k < |s| ==> IsDigit(s[k])
    ensures |DigitsOf(s)| == |s|
    ensures forall k :: 0 <= k < |s| ==> DigitsOf(s)[k] == DigitValue(s[k])
  {
    if s != [] {
      DigitsOfAllDigits(s[..|s| - 1]);
    }
  }

  /** Digits read left to right, each step multiplying by ten and adding the digit. */
  function Decimal(ds: seq<int>): (n: int)
    ensures (forall k :: 0 <= k < |ds| ==> 0 <= ds[k]) ==> n >= 0
  {
    if ds == [] then 0 else Decimal(ds[..|ds| - 1]) * 10 + ds[|ds| - 1]
  }

  /** printf("%d") of a non-negative number: its decimal digits, no leading zeros, "0" for zero. */
  function FormatNat(n: nat): (s: string)
    ensures |s| >= 1 && forall k :: 0 <= k < |s| ==> IsDigit(s[k])
    ensures n <= 9 ==> s == [DigitChar(n)]
  {
    if n <= 9 then [DigitChar(n)] else FormatNat(n / 10) + [DigitChar(n % 10)]
  }

  /** printf("%d") of any int: a minus sign before the digits of a negative number. */
  function FormatInt(n: int): (s: string)
    ensures |s| >= 1
    ensures n >= 0 ==> s == FormatNat(n)
    ensures n < 0 ==> s[0] == '-' && s[1..] == FormatNat(-n)
  {
    if n < 0 then "-" + FormatNat(-n) else FormatNat(n)
  }

  lemma DecimalAppend(ds: seq<int>, d: int)
    ensures Decimal(ds + [d]) == Decimal(ds) * 10 + d
  {
    assert (ds + [d])[..|ds|] == ds;
  }

  /** Reading one more digit of a prefix multiplies the value so far by ten and adds the digit. */
  lemma DecimalPrefixStep(t: string, i: int)
    requires 0 <= i < |t| && IsDigit(t[i])
    ensures Decimal(DigitsOf(t[..i + 1])) == Decimal(DigitsOf(t[..i])) * 10 + DigitValue(t[i])
  {
    assert t[..i + 1][..i] == t[..i];
    DecimalAppend(DigitsOf(t[..i]), DigitValue(t[i]));
  }

  /** Reading back what "%d" wrote gives the number again. */
  lemma {:induction false} DecimalOfFormatNat(n: nat)
    ensures Decimal(DigitsOf(FormatNat(n))) == n
  {
    if n > 9 {
      var prefix := FormatNat(n / 10);
      var last := DigitChar(n % 10);
      DecimalOfFormatNat(n / 10);
      DigitsOfAppend(prefix, [last]);
      assert DigitsOf([last]) == [n % 10] by {
        assert [last][..0] == [];
      }
      DecimalAppend(DigitsOf(prefix), n % 10);
    } else {
      assert FormatNat(n)[..0] == [];
    }
  }
}
