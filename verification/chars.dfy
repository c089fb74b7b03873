/** Character classes the extractor and the evaluator rely on.

    Python's `\s`, `\d`, `str.lower`, `str.isupper` and `str.istitle` work on
    the whole of Unicode; this model restricts them to ASCII and the Latin-1
    Supplement, which covers every letter the heuristics name explicitly
    (for instance the `á` of "página"). */
module Chars {

  /** Whitespace as `str.isspace` and `\s` see it, within Latin-1: tab to
      carriage return, the four C0 separators, space, NEL and no-break space. */
  predicate IsSpace(c: char) {
    ('\t' <= c <= '\r') || ('\U{1C}' <= c <= ' ') || c == '\U{85}' || c == '\U{A0}'
  }

  predicate IsDigit(c: char) {
    '0' <= c <= '9'
  }

  /** `[A-Z]` in a regular expression: ASCII capitals only. */
  predicate IsAsciiUpper(c: char) {
    'A' <= c <= 'Z'
  }

  /** `[a-z]` in a regular expression. */
  predicate IsAsciiLower(c: char) {
    'a' <= c <= 'z'
  }

  /** Upper-case letters as `str.isupper` and `str.lower` see them. */
  predicate IsUpperLetter(c: char) {
    IsAsciiUpper(c) || ('\U{C0}' <= c <= '\U{DE}' && c != '\U{D7}')
  }

  /** Lower-case letters as `str.islower` sees them; the feminine and
      masculine ordinals and the micro sign count as lower case too. */
  predicate IsLowerLetter(c: char) {
    IsAsciiLower(c) || ('\U{DF}' <= c <= '\U{FF}' && c != '\U{F7}')
    || c == '\U{AA}' || c == '\U{B5}' || c == '\U{BA}'
  }

  /** A letter that has case; everything else is "uncased" for `istitle`. */
  predicate IsCased(c: char) {
    IsUpperLetter(c) || IsLowerLetter(c)
  }

  function LowerChar(c: char): (d: char)
    ensures IsUpperLetter(c) ==> IsLowerLetter(d)
    ensures !IsUpperLetter(c) ==> d == c
  {
    if IsUpperLetter(c) then (c as int + 32) as char else c
  }

  /** `str.lower()`. */
  function Lower(s: string): (r: string)
    ensures |r| == |s|
    ensures forall i :: 0 <= i < |s| ==> r[i] == LowerChar(s[i])
  {
    seq(|s|, i requires 0 <= i < |s| => LowerChar(s[i]))
  }

  /** Lower-casing never touches whitespace, digits or punctuation, and never
      turns a letter into one of them. */
  lemma LowerCharKeepsClasses(c: char)
    ensures IsSpace(LowerChar(c)) <==> IsSpace(c)
    ensures IsDigit(LowerChar(c)) <==> IsDigit(c)
    ensures LowerChar(c) == ' ' <==> c == ' '
    ensures LowerChar(c) == ',' <==> c == ','
    ensures LowerChar(c) == '.' <==> c == '.'
    ensures LowerChar(c) == '-' <==> c == '-'
    ensures LowerChar(c) == '_' <==> c == '_'
    ensures LowerChar(c) == '\n' <==> c == '\n'
    ensures LowerChar(LowerChar(c)) == LowerChar(c)
  {
  }

  lemma LowerIdempotent(s: string)
    ensures Lower(Lower(s)) == Lower(s)
  {
    forall i | 0 <= i < |s|
      ensures Lower(Lower(s))[i] == Lower(s)[i]
    {
      LowerCharKeepsClasses(s[i]);
    }
  }

  lemma LowerAppend(a: string, b: string)
    ensures Lower(a + b) == Lower(a) + Lower(b)
  {
  }
}
