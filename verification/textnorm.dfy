/** The extractor's two text normalisers, `clean_text` and
    `clean_text_for_output` (improved_process_pdfs.py:68-92). */
module TextNorm {
  import opened Chars
  import opened Strings

  /** The steps both normalisers share: `strip`, `re.sub(r'\s+', ' ', ...)`,
      then `.replace('\n', ' ').replace('\r', ' ')`. */
  function Squeeze(t: string): string {
    Replace(Replace(Collapse(Strip(t)), "\n", " "), "\r", " ")
  }

  /** The two `replace` calls are no-ops: once whitespace is collapsed, no
      newline or carriage return is left. */
  lemma SqueezeFacts(t: string)
    ensures Squeeze(t) == Collapse(Strip(t))
    ensures Normalized(Squeeze(t))
    ensures Squeeze(t) == [] <==> AllSpace(t)
  {
    var c := Collapse(Strip(t));
    CollapseShape(Strip(t));
    assert Normalized(c);
    NormalizedFacts(c);
    ReplaceAbsentChar(c, '\n', " ");
    ReplaceAbsentChar(c, '\r', " ");
  }

  /** `clean_text`: the words of `t` separated by single spaces. */
  function CleanText(t: string): (r: string)
    ensures Normalized(r)
    ensures r == [] <==> AllSpace(t)
  {
    SqueezeFacts(t);
    if t == [] then [] else Strip(Squeeze(t))
  }

  /** `clean_text` yields the words of `t` (as `str.split` finds them)
      separated by single spaces. */
  lemma CleanTextIsJoinedWords(t: string)
    ensures CleanText(t) == Join(Words(t), " ")
  {
    SqueezeFacts(t);
    CollapseIsJoinOfWords(Strip(t));
    WordsOfStrip(t);
  }

  /** `clean_text_for_output`: the cleaned text with one trailing space, or
      the empty string when nothing but whitespace was given. */
  function CleanTextForOutput(t: string): (r: string)
    ensures r == (if CleanText(t) == [] then [] else CleanText(t) + " ")
  {
    SqueezeFacts(t);
    if t == [] then []
    else
      var x := Squeeze(t);
      if |x| > 0 && x[|x| - 1] != ' ' then x + " " else x
  }

  /** Cleaning leaves normalized text alone. */
  lemma CleanTextOfNormalized(s: string)
    requires Normalized(s)
    ensures CleanText(s) == s
  {
    if s != [] {
      SqueezeFacts(s);
      CollapseFixpoint(s);
      assert Strip(s) == s;
    }
  }

  /** Cleaning is idempotent. */
  lemma CleanTextIdempotent(t: string)
    ensures CleanText(CleanText(t)) == CleanText(t)
  {
    CleanTextOfNormalized(CleanText(t));
  }

  /** Output text is cleaned text plus exactly one space: its last character
      is a space and the one before it is not. */
  lemma OutputTextShape(t: string)
    requires !AllSpace(t)
    ensures var r := CleanTextForOutput(t);
      |r| >= 2 && r[|r| - 1] == ' ' && !IsSpace(r[|r| - 2])
      && r[..|r| - 1] == CleanText(t)
  {
    var c := CleanText(t);
    assert (c + " ")[..|c|] == c;
  }
}
