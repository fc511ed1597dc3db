/**
 * The converters behind the console prompts: a column letter to a column
 * index, and a typed number to an int. An input string is the character
 * array the prompt filled; the C string ends at its first NUL.
 */
module Input {
  import opened Digits

  /** strlen: the number of characters before the first NUL (all of them if there is none). */
  function CLength(s: string): (n: nat)
    ensures n <= |s|
    ensures forall k :: 0 <= k < n ==> s[k] != '\0'
    ensures n < |s| ==> s[n] == '\0'
  {
    if s == [] || s[0] == '\0' then 0 else 1 + CLength(s[1..])
  }

  /** The column letters a player may type for column k: upper case 'A' + k or lower case 'a' + k. */
  predicate IsColumnLetter(ch: char)
  {
    'A' <= ch <= 'I' || 'a' <= ch <= 'i'
  }

  /** charToInt: 'A'..'I' and 'a'..'i' give the column 0..8; every other character gives -1. */
  function CharToInt(ch: char): (r: int)
    ensures -1 <= r <= 8
    ensures r == -1 <==> !IsColumnLetter(ch)
    ensures r >= 0 ==> ch as int == 'A' as int + r || ch as int == 'a' as int + r
  {
    var result := 0;
    if ch as int >= 65 && ch as int <= 73 then ch as int - 65
    else if ch as int >= 97 && ch as int <= 105 then ch as int - 97
    else result - 1
  }

  /** Both spellings of column k's letter convert back to k. */
  lemma CharToIntOfLetter(k: int)
    requires 0 <= k < 9
    ensures CharToInt(('A' as int + k) as char) == k
    ensures CharToInt(('a' as int + k) as char) == k
  {
  }

  /**
   * checkAndConvertInputChar: a string longer than one character is
   * refused with -1; otherwise its first character (the terminating NUL for
   * an empty string) goes through charToInt.
   */
  function CheckAndConvertInputChar(s: string): (r: int)
    ensures -1 <= r <= 8
    ensures CLength(s) > 1 ==> r == -1
    ensures r >= 0 <==> CLength(s) == 1 && IsColumnLetter(s[0])
    ensures r >= 0 ==> r == CharToInt(s[0])
  {
    if CLength(s) > 1 then -1 else CharToInt(if s == [] then '\0' else s[0])
  }

  /** A typed column letter is converted to its column. */
  lemma ColumnLetterRoundTrip(k: int)
    requires 0 <= k < 9
    ensures CheckAndConvertInputChar([('A' as int + k) as char]) == k
    ensures CheckAndConvertInputChar([('a' as int + k) as char]) == k
  {
    CharToIntOfLetter(k);
    assert CLength([('A' as int + k) as char]) == 1;
    assert CLength([('a' as int + k) as char]) == 1;
  }

  /**
   * What checkAndConvertInputToInt computes: the decimal value of the C
   * string when every character is a digit (0 for the empty string), and 0
   * as soon as one is not.
   */
  function InputNumber(s: string): (n: int)
    ensures n >= 0
  {
    var t := s[..CLength(s)];
    if forall k :: 0 <= k < |t| ==> IsDigit(t[k]) then Decimal(DigitsOf(t)) else 0
  }

  /** checkAndConvertInputToInt: digit by digit, result * 10 + digit; 0 at the first non-digit. */
  method CheckAndConvertInputToInt(inputString: string) returns (result: int)
    ensures result == InputNumber(inputString)
  {
    result := 0;
    var strLen := CLength(inputString);
    assert inputString[..0] == [];
    for i := 0 to strLen
      invariant forall k :: 0 <= k < i ==> IsDigit(inputString[k])
      invariant result == Decimal(DigitsOf(inputString[..i]))
    {
      if !IsDigit(inputString[i]) {
        InputNumberRefusesNonDigits(inputString, i);
        return 0;
      }
      ReadDigitStep(inputString, i, result);
      result := result * 10;
      result := result + (inputString[i] as int - '0' as int);
    }
    InputNumberOfDigits(inputString);
  }

  /** The loop's update, result * 10 + (ch - '0'), is the value of one more digit of the prefix. */
  lemma ReadDigitStep(s: string, i: int, result: int)
    requires 0 <= i < |s| && IsDigit(s[i]) && result == Decimal(DigitsOf(s[..i]))
    ensures result * 10 + (s[i] as int - '0' as int) == Decimal(DigitsOf(s[..i + 1]))
  {
    DecimalPrefixStep(s, i);
  }

  /** A C string made of digits only is worth its decimal value. */
  lemma InputNumberOfDigits(s: string)
    requires forall k :: 0 <= k < CLength(s) ==> IsDigit(s[k])
    ensures InputNumber(s) == Decimal(DigitsOf(s[..CLength(s)]))
  {
    var t := s[..CLength(s)];
    assert forall k :: 0 <= k < |t| ==> t[k] == s[k];
  }

  /** A string with no NUL in it is a C string of its full length. */
  lemma {:induction false} CLengthWithoutNul(s: string)
    requires forall k :: 0 <= k < |s| ==> s[k] != '\0'
    ensures CLength(s) == |s|
  {
    if s != [] {
      CLengthWithoutNul(s[1..]);
    }
  }

  /** Typing the digits "%d" prints for a number gives that number back. */
  lemma InputNumberOfFormat(n: nat)
    ensures InputNumber(FormatNat(n)) == n
  {
    var s := FormatNat(n);
    CLengthWithoutNul(s);
    assert s[..|s|] == s;
    DecimalOfFormatNat(n);
  }

  /** Anything but digits is refused as 0, and so is the empty string. */
  lemma InputNumberRefusesNonDigits(s: string, k: int)
    requires 0 <= k < CLength(s) && !IsDigit(s[k])
    ensures InputNumber(s) == 0 && InputNumber("") == 0
  {
    assert s[..CLength(s)][k] == s[k];
  }
}
