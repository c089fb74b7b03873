/** The level classifier `detect_heading_level_improved`
    (improved_process_pdfs.py:212-243). */
module Classifier {
  import opened Outline
  import opened Scorer

  /** Font size relative to the body size; 1 when the baseline is not
      positive. */
  function SizeRatio(size: real, median: real): real {
    if median > 0.0 then size / median else 1.0
  }

  predicate H1Tier(size: real, ratio: real, bold: bool, confidence: nat) {
    (ratio >= 1.2 && bold && size >= 11.0) || (ratio >= 1.1 && confidence >= 6 && size >= 10.0)
  }

  predicate H2Tier(size: real, ratio: real, bold: bool, confidence: nat) {
    (ratio >= 1.0 && bold && size >= 9.0) || (ratio >= 0.9 && confidence >= 5 && size >= 8.0)
  }

  predicate H3Tier(size: real, ratio: real, bold: bool, confidence: nat) {
    (ratio >= 0.9 && (bold || confidence >= 4)) || (size >= 7.0 && confidence >= 6)
  }

  /** A level for a candidate text: none for text shorter than two
      characters or for a non-candidate; the numbering hint when there is
      one; otherwise the first size tier the span reaches. */
  function Classify(size: real, median: real, bold: bool, text: string, a: Analysis): Option<Level> {
    if |text| < 2 || !a.isHeading then None
    else if a.hint.Some? then a.hint
    else
      var ratio := SizeRatio(size, median);
      if H1Tier(size, ratio, bold, a.confidence) then Some(H1)
      else if H2Tier(size, ratio, bold, a.confidence) then Some(H2)
      else if H3Tier(size, ratio, bold, a.confidence) then Some(H3)
      else None
  }

  /** How prominent a classification is: H1 above H2 above H3 above none. */
  function Rank(l: Option<Level>): nat {
    match l
    case Some(H1) => 3
    case Some(H2) => 2
    case Some(H3) => 1
    case None => 0
  }

  /** Short texts and non-candidates never get a level. */
  lemma NonCandidatesGetNoLevel(size: real, median: real, bold: bool, text: string, a: Analysis)
    requires |text| < 2 || !a.isHeading
    ensures Classify(size, median, bold, text, a) == None
  {
  }

  /** The numbering hint is authoritative: a hinted candidate gets the hinted
      level whatever its size, the body size and its weight. */
  lemma HintIsAuthoritative(text: string, a: Analysis)
    requires |text| >= 2 && a.isHeading && a.hint.Some?
    ensures forall size: real, median: real, bold: bool ::
      Classify(size, median, bold, text, a) == a.hint
  {
  }

  /** A bold candidate at least nine tenths of the body size always gets a
      level. */
  lemma BoldCandidateGetsLevel(size: real, median: real, text: string, a: Analysis)
    requires |text| >= 2 && a.isHeading && SizeRatio(size, median) >= 0.9
    ensures Classify(size, median, true, text, a).Some?
  {
  }

  /** Without a hint, a span never ranks lower for being bold or for a
      higher confidence. */
  lemma RankMonotoneInBoldAndConfidence(size: real, median: real, text: string, a: Analysis, b: Analysis)
    requires a.hint.None? && b.hint.None? && a.isHeading
    requires b.isHeading && a.confidence <= b.confidence
    ensures Rank(Classify(size, median, false, text, a)) <= Rank(Classify(size, median, false, text, b))
    ensures Rank(Classify(size, median, false, text, a)) <= Rank(Classify(size, median, true, text, a))
  {
  }

  lemma RatioMonotone(s1: real, s2: real, median: real)
    requires s1 <= s2
    ensures SizeRatio(s1, median) <= SizeRatio(s2, median)
  {
    if median > 0.0 {
      assert s2 / median - s1 / median == (s2 - s1) / median;
    }
  }

  /** Without a hint, a larger font never ranks lower. */
  lemma RankMonotoneInSize(s1: real, s2: real, median: real, bold: bool, text: string, a: Analysis)
    requires s1 <= s2 && a.hint.None?
    ensures Rank(Classify(s1, median, bold, text, a)) <= Rank(Classify(s2, median, bold, text, a))
  {
    RatioMonotone(s1, s2, median);
  }
}
