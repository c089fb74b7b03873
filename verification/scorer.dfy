/** The structural scorer `analyze_text_structure`
    (improved_process_pdfs.py:94-171): seven additive signals, each worth a
    fixed number of tenths, a candidate threshold and a numbering hint. */
module Scorer {
  import opened Chars
  import opened Strings
  import opened Outline

  // ---------------------------------------------------------------------
  // Character runs the patterns are built from

  /** Length of the leading run of ASCII digits (`\d+` matched greedily). */
  function DigitRun(s: string): (n: nat)
    ensures n <= |s|
    ensures forall i :: 0 <= i < n ==> IsDigit(s[i])
    ensures n < |s| ==> !IsDigit(s[n])
  {
    if |s| > 0 && IsDigit(s[0]) then 1 + DigitRun(s[1..]) else 0
  }

  /** Length of the leading run of `[a-z]`. */
  function LowerRun(s: string): (n: nat)
    ensures n <= |s|
    ensures forall i :: 0 <= i < n ==> IsAsciiLower(s[i])
    ensures n < |s| ==> !IsAsciiLower(s[n])
  {
    if |s| > 0 && IsAsciiLower(s[0]) then 1 + LowerRun(s[1..]) else 0
  }

  /** The remainder of `s` after a leading `\d+\.`, if there is one. */
  function AfterDottedNumber(s: string): (r: Option<string>)
    ensures r.Some? ==> |r.value| < |s| && r.value == s[|s| - |r.value|..]
  {
    var a := DigitRun(s);
    if a > 0 && a < |s| && s[a] == '.' then Some(s[a + 1..]) else None
  }

  /** `\s+[A-Z]` at the start of `r`. */
  predicate SpacesThenUpper(r: string) {
    var sp := SpaceRun(r);
    0 < sp < |r| && IsAsciiUpper(r[sp])
  }

  // ---------------------------------------------------------------------
  // The five heading patterns (improved_process_pdfs.py:29-35), as
  // `re.match` applies them. Each pattern is deterministic: a shorter run
  // than the greedy one is always followed by a character the next part of
  // the pattern rejects, so no backtracking is needed.

  /** `^\d+\.\s+[A-Z]`. */
  predicate NumberedSection(s: string) {
    var r := AfterDottedNumber(s);
    r.Some? && SpacesThenUpper(r.value)
  }

  /** `^\d+\.\d+\s+[A-Z]`. */
  predicate NumberedSubsection(s: string) {
    var r := AfterDottedNumber(s);
    r.Some? && DigitRun(r.value) > 0 && SpacesThenUpper(r.value[DigitRun(r.value)..])
  }

  /** `^\d+\.\d+\.\d+\s+[A-Z]`. */
  predicate NumberedSubsubsection(s: string) {
    var r := AfterDottedNumber(s);
    r.Some? &&
    var r2 := AfterDottedNumber(r.value);
    r2.Some? && DigitRun(r2.value) > 0 && SpacesThenUpper(r2.value[DigitRun(r2.value)..])
  }

  /** `^[A-Z][A-Z\s]+$`. Since `\s` covers the newline, the "before a final
      newline" reading of `$` adds nothing here. */
  predicate AllCapsLine(s: string) {
    |s| >= 2 && IsAsciiUpper(s[0])
    && forall i :: 1 <= i < |s| ==> IsAsciiUpper(s[i]) || IsSpace(s[i])
  }

  /** `^[A-Z][a-z]+(?:\s+[A-Z][a-z]+)*$`, where `$` matches at the end or
      in front of one final newline. */
  predicate TitleCaseWords(s: string)
    decreases |s|
  {
    |s| >= 2 && IsAsciiUpper(s[0]) && LowerRun(s[1..]) > 0 &&
    var r := s[1 + LowerRun(s[1..])..];
    r == [] || r == "\n" ||
    (var sp := SpaceRun(r); 0 < sp < |r| && TitleCaseWords(r[sp..]))
  }

  predicate MatchesHeadingPattern(s: string) {
    NumberedSection(s) || NumberedSubsection(s) || NumberedSubsubsection(s)
    || AllCapsLine(s) || TitleCaseWords(s)
  }

  // ---------------------------------------------------------------------
  // Numbering prefix (improved_process_pdfs.py:124-134)

  /** How many dotted groups open `s`: 3 for `^\d+\.\d+\.\d+`, 2 for
      `^\d+\.\d+`, 1 for `^\d+\.`, 0 otherwise. */
  function NumberingDepth(s: string): nat {
    var r := AfterDottedNumber(s);
    if r.None? then 0
    else if DigitRun(r.value) == 0 then 1
    else
      var r2 := AfterDottedNumber(r.value);
      if r2.Some? && DigitRun(r2.value) > 0 then 3 else 2
  }

  /** The regular-expression reading of the numbering prefixes: some way of
      cutting the start of `s` into digit groups and dots. */
  predicate DigitsBetween(s: string, i: int, j: int) {
    0 <= i < j <= |s| && forall k :: i <= k < j ==> IsDigit(s[k])
  }

  /** `re.match(r'^\d+\.', s)`. */
  ghost predicate MatchesOneGroup(s: string) {
    exists a :: DigitsBetween(s, 0, a) && a < |s| && s[a] == '.'
  }

  /** A dot at `a` followed by the digit group `a + 1 .. b`. */
  predicate DotThenDigits(s: string, a: int, b: int) {
    0 <= a < |s| && s[a] == '.' && DigitsBetween(s, a + 1, b)
  }

  /** `re.match(r'^\d+\.\d+', s)`. */
  ghost predicate MatchesTwoGroups(s: string) {
    exists a, b :: DigitsBetween(s, 0, a) && DotThenDigits(s, a, b)
  }

  /** `re.match(r'^\d+\.\d+\.\d+', s)`. */
  ghost predicate MatchesThreeGroups(s: string) {
    exists a, b, c :: DigitsBetween(s, 0, a) && DotThenDigits(s, a, b) && DotThenDigits(s, b, c)
  }

  // ---------------------------------------------------------------------
  // Word lists

  const HeadingKeywords: seq<string> := [
    "introduction", "overview", "background", "summary", "abstract",
    "chapter", "section", "part", "unit", "module",
    "table of contents", "index", "references", "bibliography", "appendix",
    "acknowledgements", "preface", "foreword", "conclusion"]

  const StopWords: set<string> := {
    "the", "a", "an", "and", "or", "but", "in", "on", "at", "to", "for", "of", "with", "by",
    "is", "are", "was", "were", "be", "been", "being", "have", "has", "had", "do", "does", "did",
    "will", "would", "could", "should", "may", "might", "can", "this", "that", "these", "those"}

  const SpecialWords: seq<string> := ["acknowledgements", "references", "contents", "introduction"]

  /** How many of `ws` are stop words once lower-cased. */
  function StopWordCount(ws: seq<string>): (n: nat)
    ensures n <= |ws|
    decreases |ws|
  {
    if |ws| == 0 then 0
    else (if Lower(ws[0]) in StopWords then 1 else 0) + StopWordCount(ws[1..])
  }

  // ---------------------------------------------------------------------
  // Case tests

  /** `str.isupper()`: at least one cased character and none in lower case. */
  predicate IsUpperText(s: string) {
    (exists i :: 0 <= i < |s| && IsCased(s[i]))
    && forall i :: 0 <= i < |s| ==> !IsLowerLetter(s[i])
  }

  /** The scan behind `str.istitle()`: an upper-case letter may only follow
      an uncased character, a lower-case letter only a cased one. */
  predicate TitleScan(s: string, previousCased: bool)
    decreases |s|
  {
    |s| == 0 ||
    (if IsUpperLetter(s[0]) then !previousCased && TitleScan(s[1..], true)
     else if IsLowerLetter(s[0]) then previousCased && TitleScan(s[1..], true)
     else TitleScan(s[1..], false))
  }

  /** `str.istitle()`. */
  predicate IsTitleText(s: string) {
    TitleScan(s, false) && exists i :: 0 <= i < |s| && IsCased(s[i])
  }

  // ---------------------------------------------------------------------
  // The analysis

  /** The seven signals, in tenths. */
  datatype Signals = Signals(
    pattern: nat, length: nat, casing: nat, numbering: nat,
    keyword: nat, stopWords: nat, special: nat)

  /** Every signal takes one of the values its rule can award. */
  predicate ValidSignals(g: Signals) {
    g.pattern in {0, 4} && g.length in {0, 2, 3} && g.casing in {0, 3, 4}
    && g.numbering in {0, 3, 4, 5} && g.keyword in {0, 3} && g.stopWords in {0, 2}
    && g.special in {0, 3}
  }

  function Total(g: Signals): nat {
    g.pattern + g.length + g.casing + g.numbering + g.keyword + g.stopWords + g.special
  }

  /** `confidence` is in tenths; `hint` is `level_hint`. */
  datatype Analysis = Analysis(isHeading: bool, confidence: nat, hint: Option<Level>, signals: Signals)

  function LengthSignal(wordCount: nat): nat {
    if 2 <= wordCount <= 12 then 3 else if wordCount <= 20 then 2 else 0
  }

  function CaseSignal(s: string): nat {
    if IsUpperText(s) && |s| > 3 then 4
    else if IsTitleText(s) && |s| > 3 then 3
    else 0
  }

  function NumberingSignal(s: string): nat {
    match NumberingDepth(s)
    case 3 => 5
    case 2 => 4
    case 1 => 3
    case _ => 0
  }

  function NumberingHint(s: string): Option<Level> {
    match NumberingDepth(s)
    case 3 => Some(H3)
    case 2 => Some(H2)
    case 1 => Some(H1)
    case _ => None
  }

  /** `stop_word_count / word_count < 0.4`, cleared of the division. */
  function StopWordSignal(ws: seq<string>): nat {
    if |ws| > 0 && 5 * StopWordCount(ws) < 2 * |ws| then 2 else 0
  }

  /** The signals of a stripped text. */
  function SignalsOf(s: string): (g: Signals)
    ensures ValidSignals(g)
  {
    var ws := Words(s);
    var lower := Lower(s);
    Signals(
      if MatchesHeadingPattern(s) then 4 else 0,
      LengthSignal(|ws|),
      CaseSignal(s),
      NumberingSignal(s),
      if ContainsAny(lower, HeadingKeywords) then 3 else 0,
      StopWordSignal(ws),
      if ContainsAny(lower, SpecialWords) then 3 else 0)
  }

  /** `analyze_text_structure`. Empty text is no candidate and carries no
      signal; otherwise the text is stripped and scored. */
  function Analyze(text: string): (a: Analysis)
    ensures ValidSignals(a.signals)
    ensures a.confidence <= 10
    ensures a.isHeading <==> a.confidence >= 3
    ensures text == [] ==> !a.isHeading && a.hint == None && Total(a.signals) == 0
  {
    if text == [] then Analysis(false, 0, None, Signals(0, 0, 0, 0, 0, 0, 0))
    else
      var s := Strip(text);
      var g := SignalsOf(s);
      var total := Total(g);
      Analysis(total >= 3, if total < 10 then total else 10, NumberingHint(s), g)
  }

  // ---------------------------------------------------------------------
  // Properties

  /** The confidence is the total capped at ten tenths, and the candidate
      threshold is three tenths of the total. */
  lemma AnalyzeScores(text: string)
    requires text != []
    ensures var a := Analyze(text);
      a.signals == SignalsOf(Strip(text))
      && (a.isHeading <==> Total(a.signals) >= 3)
      && (Total(a.signals) <= 10 ==> a.confidence == Total(a.signals))
      && (Total(a.signals) >= 10 ==> a.confidence == 10)
  {
  }

  /** The length signal is 2, not 0, for zero or one word and for 13 to 20
      words. */
  lemma LengthSignalValues(text: string)
    requires text != []
    ensures var n := |Words(text)|; var l := Analyze(text).signals.length;
      (n <= 1 ==> l == 2) && (2 <= n <= 12 ==> l == 3)
      && (13 <= n <= 20 ==> l == 2) && (n > 20 ==> l == 0)
  {
    WordsOfStrip(text);
  }

  /** Any text of 2 to 12 words is a heading candidate: its length signal
      alone reaches the threshold. */
  lemma ShortTextIsCandidate(text: string)
    requires 2 <= |Words(text)| <= 12
    ensures Analyze(text).isHeading
  {
    WordsOfStrip(text);
  }

  lemma DigitRunAt(s: string, a: int)
    requires DigitsBetween(s, 0, a) && (a == |s| || !IsDigit(s[a]))
    ensures DigitRun(s) == a
  {
  }

  /** Digit groups read the same in a suffix, shifted by the cut. */
  lemma DigitsInSuffix(s: string, k: int, i: int, j: int)
    requires 0 <= k <= |s| && 0 <= i
    ensures DigitsBetween(s[k..], i, j) <==> DigitsBetween(s, k + i, k + j)
  {
    if DigitsBetween(s, k + i, k + j) {
      forall m | i <= m < j ensures IsDigit(s[k..][m]) {
        assert s[k..][m] == s[k + m];
      }
    }
    if DigitsBetween(s[k..], i, j) {
      forall m | k + i <= m < k + j ensures IsDigit(s[m]) {
        assert s[m] == s[k..][m - k];
      }
    }
  }

  /** Where the dot sits when `AfterDottedNumber` succeeds. */
  lemma AfterDottedNumberFacts(s: string)
    requires AfterDottedNumber(s).Some?
    ensures var r := AfterDottedNumber(s).value; var a := |s| - |r| - 1;
      DigitsBetween(s, 0, a) && s[a] == '.' && r == s[a + 1..]
  {
  }

  /** `AfterDottedNumber` succeeds exactly when `^\d+\.` matches, and then
      yields what follows the dot. */
  lemma OneGroupIff(s: string)
    ensures AfterDottedNumber(s).Some? <==> MatchesOneGroup(s)
    ensures forall a :: DigitsBetween(s, 0, a) && a < |s| && s[a] == '.' ==>
      AfterDottedNumber(s) == Some(s[a + 1..])
  {
    forall a | DigitsBetween(s, 0, a) && a < |s| && s[a] == '.'
      ensures AfterDottedNumber(s) == Some(s[a + 1..])
    {
      DigitRunAt(s, a);
    }
    if AfterDottedNumber(s).Some? {
      AfterDottedNumberFacts(s);
    }
  }

  lemma TwoGroupsIff(s: string)
    ensures (NumberingDepth(s) >= 2) <==> MatchesTwoGroups(s)
  {
    if NumberingDepth(s) >= 2 {
      DepthTwoMatches(s);
    }
    if MatchesTwoGroups(s) {
      var a, b :| DigitsBetween(s, 0, a) && DotThenDigits(s, a, b);
      TwoGroupsDepth(s, a, b);
    }
  }

  lemma DepthTwoMatches(s: string)
    requires NumberingDepth(s) >= 2
    ensures MatchesTwoGroups(s)
  {
    AfterDottedNumberFacts(s);
    var r := AfterDottedNumber(s).value;
    var a := |s| - |r| - 1;
    DigitsInSuffix(s, a + 1, 0, DigitRun(r));
    assert DigitsBetween(s, 0, a) && DotThenDigits(s, a, a + 1 + DigitRun(r));
  }

  lemma TwoGroupsDepth(s: string, a: int, b: int)
    requires DigitsBetween(s, 0, a) && DotThenDigits(s, a, b)
    ensures NumberingDepth(s) >= 2
  {
    AfterDotAt(s, a);
    var r := s[a + 1..];
    DigitsInSuffix(s, a + 1, 0, b - a - 1);
    assert r[0] == s[a + 1];
  }

  lemma ThreeGroupsIff(s: string)
    ensures (NumberingDepth(s) == 3) <==> MatchesThreeGroups(s)
  {
    if NumberingDepth(s) == 3 {
      DepthThreeMatches(s);
    }
    if MatchesThreeGroups(s) {
      var a, b, c :| DigitsBetween(s, 0, a) && DotThenDigits(s, a, b) && DotThenDigits(s, b, c);
      ThreeGroupsDepth(s, a, b, c);
    }
  }

  lemma DepthThreeMatches(s: string)
    requires NumberingDepth(s) == 3
    ensures MatchesThreeGroups(s)
  {
    AfterDottedNumberFacts(s);
    var r := AfterDottedNumber(s).value;
    AfterDottedNumberFacts(r);
    var r2 := AfterDottedNumber(r).value;
    var a := |s| - |r| - 1;
    var b := |s| - |r2| - 1;
    var c := b + 1 + DigitRun(r2);
    assert r2 == s[b + 1..];
    assert s[b] == r[b - a - 1];
    DigitsInSuffix(s, a + 1, 0, b - a - 1);
    DigitsInSuffix(s, b + 1, 0, DigitRun(r2));
    assert DotThenDigits(s, a, b);
    assert DotThenDigits(s, b, c);
  }

  lemma ThreeGroupsDepth(s: string, a: int, b: int, c: int)
    requires DigitsBetween(s, 0, a) && DotThenDigits(s, a, b) && DotThenDigits(s, b, c)
    ensures NumberingDepth(s) == 3
  {
    AfterDotAt(s, a);
    var r := s[a + 1..];
    var b' := b - a - 1;
    DigitsInSuffix(s, a + 1, 0, b');
    assert r[b'] == s[b];
    AfterDotAt(r, b');
    var r2 := r[b' + 1..];
    assert r2 == s[b + 1..];
    assert r[0] == s[a + 1] && r2[0] == s[b + 1];
    assert DigitRun(r) > 0 && DigitRun(r2) > 0;
  }

  /** A leading `\d+\.` ending at `a` leaves what follows position `a`. */
  lemma AfterDotAt(s: string, a: int)
    requires DigitsBetween(s, 0, a) && a < |s| && s[a] == '.'
    ensures AfterDottedNumber(s) == Some(s[a + 1..])
  {
    DigitRunAt(s, a);
  }

  /** The numbering hint and score follow the regular expressions of
      improved_process_pdfs.py:126-134, most specific first: H3 and 0.5 for
      three dotted groups, H2 and 0.4 for two, H1 and 0.3 for one, and no
      hint and no score otherwise. */
  lemma NumberingFollowsPatterns(text: string)
    requires text != []
    ensures var s := Strip(text); var a := Analyze(text);
      (a.hint == Some(H3) <==> MatchesThreeGroups(s))
      && (a.hint == Some(H2) <==> MatchesTwoGroups(s) && !MatchesThreeGroups(s))
      && (a.hint == Some(H1) <==> MatchesOneGroup(s) && !MatchesTwoGroups(s))
      && (a.hint == None <==> !MatchesOneGroup(s))
      && (a.signals.numbering == 5 <==> a.hint == Some(H3))
      && (a.signals.numbering == 4 <==> a.hint == Some(H2))
      && (a.signals.numbering == 3 <==> a.hint == Some(H1))
      && (a.signals.numbering == 0 <==> a.hint == None)
  {
    var s := Strip(text);
    OneGroupIff(s);
    TwoGroupsIff(s);
    ThreeGroupsIff(s);
  }

  /** Every numbered text is a heading candidate: the numbering signal alone
      reaches the threshold. */
  lemma NumberedTextIsCandidate(text: string)
    requires text != [] && MatchesOneGroup(Strip(text))
    ensures Analyze(text).isHeading && Analyze(text).hint.Some?
  {
    OneGroupIff(Strip(text));
  }

  /** A numbered-heading pattern implies the matching numbering depth. */
  lemma NumberedPatternsHaveDepth(s: string)
    ensures NumberedSection(s) ==> NumberingDepth(s) == 1
    ensures NumberedSubsection(s) ==> NumberingDepth(s) == 2
    ensures NumberedSubsubsection(s) ==> NumberingDepth(s) == 3
  {
    var r := AfterDottedNumber(s);
    if NumberedSection(s) {
      assert !IsDigit(r.value[0]) by { assert IsSpace(r.value[0]); }
    }
    if NumberedSubsection(s) {
      var b := DigitRun(r.value);
      assert IsSpace(r.value[b]);
    }
  }
}
