/** Character-level helpers: decimal rendering and parsing of naturals, ASCII case folding. */
module Text {

  predicate IsDigit(c: char) {
    '0' <= c <= '9'
  }

  predicate AllDigits(s: string) {
    forall i :: 0 <= i < |s| ==> IsDigit(s[i])
  }

  function DigitChar(d: nat): (c: char)
    requires d < 10
    ensures IsDigit(c) && DigitValue(c) == d
  {
    ('0' as int + d) as char
  }

  function DigitValue(c: char): nat
    requires IsDigit(c)
  {
    c as int - '0' as int
  }

  /** Decimal rendering of `n` without leading zeros, as Rust's `{}` formats an unsigned integer. */
  function Digits(n: nat): (s: string)
    ensures |s| >= 1 && AllDigits(s)
    ensures |s| > 1 ==> s[0] != '0'
    decreases n
  {
    if n < 10 then [DigitChar(n)] else Digits(n / 10) + [DigitChar(n % 10)]
  }

  /** Value of a string of decimal digits (the empty string reads as 0). */
  function ParseDecimal(s: string): nat
    requires AllDigits(s)
  {
    if s == [] then 0 else ParseDecimal(s[..|s| - 1]) * 10 + DigitValue(s[|s| - 1])
  }

  /** Reading back what `Digits` rendered gives the original number. */
  lemma {:induction false} ParseDigits(n: nat)
    ensures ParseDecimal(Digits(n)) == n
    decreases n
  {
    if n >= 10 {
      ParseDigits(n / 10);
      var s := Digits(n);
      assert s[..|s| - 1] == Digits(n / 10);
    }
  }

  predicate AllZeros(s: string) {
    forall i :: 0 <= i < |s| ==> s[i] == '0'
  }

  /** A run of `0` digits in front of a numeral does not change its value. */
  lemma {:induction false} ParseDecimalLeadingZeros(zeros: string, s: string)
    requires AllZeros(zeros) && AllDigits(s)
    ensures AllDigits(zeros + s) && ParseDecimal(zeros + s) == ParseDecimal(s)
    decreases |s| + |zeros|
  {
    if s == [] {
      assert zeros + s == zeros;
      if zeros != [] {
        ParseDecimalLeadingZeros(zeros[..|zeros| - 1], []);
        assert zeros[..|zeros| - 1] + [] == zeros[..|zeros| - 1];
      }
    } else {
      var t := zeros + s;
      ParseDecimalLeadingZeros(zeros, s[..|s| - 1]);
      assert t[..|t| - 1] == zeros + s[..|s| - 1];
    }
  }

  /** `char::to_ascii_lowercase`. */
  function AsciiLower(c: char): (r: char)
    ensures 'A' <= c <= 'Z' ==> r as int == c as int - 'A' as int + 'a' as int
    ensures !('A' <= c <= 'Z') ==> r == c
  {
    if 'A' <= c <= 'Z' then (c as int - 'A' as int + 'a' as int) as char else c
  }

  function Lowercase(s: string): string {
    seq(|s|, i requires 0 <= i < |s| => AsciiLower(s[i]))
  }

  /** Equality of two strings once ASCII letters are folded to lower case. */
  predicate EqualsIgnoreCase(a: string, b: string) {
    Lowercase(a) == Lowercase(b)
  }

  /** Folded text has no upper-case ASCII letter left, and folding it again changes nothing. */
  lemma LowercaseIsFolded(s: string)
    ensures forall i :: 0 <= i < |Lowercase(s)| ==> !('A' <= Lowercase(s)[i] <= 'Z')
    ensures Lowercase(Lowercase(s)) == Lowercase(s)
  {
  }

  /**
   * Ignoring case is an equivalence that relates exactly the strings of equal
   * length whose characters agree up to ASCII case, position by position.
   */
  lemma EqualsIgnoreCaseCharwise(a: string, b: string)
    ensures EqualsIgnoreCase(a, b) <==> |a| == |b| && forall i :: 0 <= i < |a| ==> AsciiLower(a[i]) == AsciiLower(b[i])
  {
    if EqualsIgnoreCase(a, b) {
      assert |a| == |Lowercase(a)| == |Lowercase(b)| == |b|;
      forall i | 0 <= i < |a|
        ensures AsciiLower(a[i]) == AsciiLower(b[i])
      {
        assert Lowercase(a)[i] == Lowercase(b)[i];
      }
    }
    if |a| == |b| && forall i :: 0 <= i < |a| ==> AsciiLower(a[i]) == AsciiLower(b[i]) {
      assert Lowercase(a) == Lowercase(b);
    }
  }

  /** Two letters are equal ignoring case iff they are the same letter, possibly in the other case. */
  lemma LetterCaseFolding(c: char, d: char)
    requires 'A' <= c <= 'Z'
    ensures AsciiLower(c) == AsciiLower(d) <==> d == c || d as int == c as int + 32
  {
  }

  /** Ignoring case is reflexive, symmetric and transitive. */
  lemma EqualsIgnoreCaseIsEquivalence(a: string, b: string, c: string)
    ensures EqualsIgnoreCase(a, a)
    ensures EqualsIgnoreCase(a, b) ==> EqualsIgnoreCase(b, a)
    ensures EqualsIgnoreCase(a, b) && EqualsIgnoreCase(b, c) ==> EqualsIgnoreCase(a, c)
  {
  }
}
