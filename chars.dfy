/** Character classes used by Python's str and re machinery, as far as the script relies on them. */
module Chars {

  predicate IsDigit(c: char) { '0' <= c <= '9' }

  function DigitValue(c: char): (d: int)
    requires IsDigit(c)
    ensures 0 <= d < 10
  {
    (c as int) - ('0' as int)
  }

  function DigitChar(d: int): (c: char)
    requires 0 <= d < 10
    ensures IsDigit(c) && DigitValue(c) == d
  {
    (('0' as int) + d) as char
  }

  /** The characters Python's `\s` (and str.isspace) accepts. */
  predicate IsSpace(c: char) {
    c == ' ' || ('\t' <= c <= '\r') || ('\U{1C}' <= c <= '\U{1F}') || c == '\U{85}' || c == '\U{A0}'
    || c == '\U{1680}' || ('\U{2000}' <= c <= '\U{200A}') || c == '\U{2028}' || c == '\U{2029}'
    || c == '\U{202F}' || c == '\U{205F}' || c == '\U{3000}'
  }

  /** ASCII lower-casing, as re.IGNORECASE applies it to ASCII letters. */
  function Lower(c: char): (r: char)
    ensures 'A' <= c <= 'Z' ==> r as int == c as int + 32
    ensures !('A' <= c <= 'Z') ==> r == c
  {
    if 'A' <= c <= 'Z' then ((c as int) + 32) as char else c
  }

  /**
   * str.casefold on one character, restricted to the characters whose folding is a single
   * ASCII letter: A-Z, LATIN SMALL LETTER LONG S (to 's') and KELVIN SIGN (to 'k').
   * Every other character folds to something that cannot equal a registry name.
   */
  function Fold(c: char): (r: char)
    ensures 'A' <= c <= 'Z' ==> r as int == c as int + 32
    ensures c == '\U{17F}' ==> r == 's'
    ensures c == '\U{212A}' ==> r == 'k'
    ensures !('A' <= c <= 'Z') && c != '\U{17F}' && c != '\U{212A}' ==> r == c
  {
    if c == '\U{17F}' then 's' else if c == '\U{212A}' then 'k' else Lower(c)
  }

  /** str.casefold on a name: capitals become small letters, long s becomes 's', the Kelvin sign 'k', the rest stays. */
  function FoldString(s: string): (r: string)
    ensures |r| == |s|
    ensures forall i :: 0 <= i < |s| ==> r[i] == Fold(s[i])
    ensures forall i :: 0 <= i < |s| && 'A' <= s[i] <= 'Z' ==> r[i] as int == s[i] as int + 32
    ensures forall i :: 0 <= i < |s| && s[i] == '\U{17F}' ==> r[i] == 's'
    ensures forall i :: 0 <= i < |s| && s[i] == '\U{212A}' ==> r[i] == 'k'
    ensures forall i :: 0 <= i < |s| && !('A' <= s[i] <= 'Z') && s[i] != '\U{17F}' && s[i] != '\U{212A}' ==> r[i] == s[i]
  {
    seq(|s|, i requires 0 <= i < |s| => Fold(s[i]))
  }

  /** Two names that differ only in the case of ASCII letters casefold alike. */
  lemma FoldIgnoresCase(a: string, b: string)
    requires |a| == |b| && forall i :: 0 <= i < |a| ==> Lower(a[i]) == Lower(b[i])
    ensures FoldString(a) == FoldString(b)
  {
    forall i | 0 <= i < |a|
      ensures Fold(a[i]) == Fold(b[i])
    {
      assert Lower(a[i]) == Lower(b[i]);
    }
  }
}
