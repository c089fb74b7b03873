/** Title synthesis `extract_title` (improved_process_pdfs.py:245-285): the
    largest-font text of the first page, top to bottom, bold parts
    preferred, with page, copyright and dash-only prefixes removed. The
    hard-coded per-document overrides that follow (lines 287-297) are not
    part of this model. */
module Title {
  import opened Chars
  import opened Strings
  import opened Sorting
  import opened Outline
  import opened TextNorm
  import Scorer

  /** `max(span['size'] for span in page_spans)`. */
  function MaxSize(spans: seq<Span>): (m: real)
    requires |spans| > 0
    ensures forall i :: 0 <= i < |spans| ==> spans[i].size <= m
    ensures exists i :: 0 <= i < |spans| && spans[i].size == m
    decreases |spans|
  {
    if |spans| == 1 then spans[0].size
    else
      var m := MaxSize(spans[1..]);
      if spans[0].size >= m then spans[0].size else m
  }

  /** A title candidate: cleaned text, top coordinate and weight. */
  datatype Candidate = Candidate(text: string, y: real, bold: bool)

  /** Large enough (at least 80% of the largest size) and with more than
      three characters of cleaned text. */
  predicate Qualifies(s: Span, largest: real) {
    s.size >= largest * 0.8 && |CleanText(s.text)| > 3
  }

  function CandidateOf(s: Span): Candidate {
    Candidate(CleanText(s.text), s.y, s.bold)
  }

  /** The candidates of the qualifying spans, in span order. */
  function Candidates(spans: seq<Span>, largest: real): (cs: seq<Candidate>)
    ensures |cs| <= |spans|
    ensures forall i :: 0 <= i < |cs| ==> |cs[i].text| > 3 && Normalized(cs[i].text)
    decreases |spans|
  {
    if |spans| == 0 then []
    else
      var rest := Candidates(spans[1..], largest);
      if Qualifies(spans[0], largest) then [CandidateOf(spans[0])] + rest else rest
  }

  /** Every candidate comes from a qualifying span. */
  lemma {:induction false} CandidateFromSpan(spans: seq<Span>, largest: real, i: nat) returns (j: nat)
    requires i < |Candidates(spans, largest)|
    ensures j < |spans| && Qualifies(spans[j], largest)
    ensures Candidates(spans, largest)[i] == CandidateOf(spans[j])
    decreases |spans|
  {
    var cs := Candidates(spans, largest);
    var rest := Candidates(spans[1..], largest);
    if Qualifies(spans[0], largest) {
      assert cs == [CandidateOf(spans[0])] + rest;
      if i == 0 {
        j := 0;
      } else {
        var k := CandidateFromSpan(spans[1..], largest, i - 1);
        assert cs[i] == rest[i - 1];
        j := k + 1;
      }
    } else {
      assert cs == rest;
      var k := CandidateFromSpan(spans[1..], largest, i);
      j := k + 1;
    }
  }

  /** The candidates of a concatenation are those of its parts. */
  lemma {:induction false} CandidatesAppend(a: seq<Span>, b: seq<Span>, largest: real)
    ensures Candidates(a + b, largest) == Candidates(a, largest) + Candidates(b, largest)
    decreases |a|
  {
    if |a| > 0 {
      assert (a + b)[0] == a[0];
      assert (a + b)[1..] == a[1..] + b;
      CandidatesAppend(a[1..], b, largest);
    } else {
      assert a + b == b;
    }
  }

  /** Every qualifying span yields a candidate. */
  lemma SpanYieldsCandidate(spans: seq<Span>, largest: real, j: nat) returns (k: nat)
    requires j < |spans| && Qualifies(spans[j], largest)
    ensures k < |Candidates(spans, largest)| && Candidates(spans, largest)[k] == CandidateOf(spans[j])
  {
    var before, from := spans[..j], spans[j..];
    assert before + from == spans;
    assert from[0] == spans[j];
    CandidatesAppend(before, from, largest);
    QualifyingHead(from, largest);
    var head, tail := Candidates(before, largest), Candidates(from, largest);
    assert Candidates(spans, largest) == head + tail;
    assert tail[0] == CandidateOf(spans[j]);
    k := |head|;
    assert (head + tail)[k] == tail[0];
  }

  /** A qualifying first span heads the candidate list. */
  lemma QualifyingHead(spans: seq<Span>, largest: real)
    requires |spans| > 0 && Qualifies(spans[0], largest)
    ensures Candidates(spans, largest) == [CandidateOf(spans[0])] + Candidates(spans[1..], largest)
  {
  }

  function TopKey(c: Candidate): SortKey {
    SortKey(0, c.y, 0.0)
  }

  function BoldOnly(cs: seq<Candidate>): (bs: seq<Candidate>)
    ensures forall c :: c in bs <==> c in cs && c.bold
    decreases |cs|
  {
    if |cs| == 0 then []
    else (if cs[0].bold then [cs[0]] else []) + BoldOnly(cs[1..])
  }

  /** The bold filter keeps every copy of each bold candidate and drops
      every copy of the others. */
  lemma {:induction false} BoldOnlyCounts(cs: seq<Candidate>)
    ensures forall c :: multiset(BoldOnly(cs))[c] == (if c.bold then multiset(cs)[c] else 0)
    decreases |cs|
  {
    if |cs| > 0 {
      BoldOnlyCounts(cs[1..]);
      assert cs == [cs[0]] + cs[1..];
      assert multiset(cs) == multiset{cs[0]} + multiset(cs[1..]);
      assert BoldOnly(cs) == (if cs[0].bold then [cs[0]] else []) + BoldOnly(cs[1..]);
    }
  }

  predicate AnyBold(cs: seq<Candidate>) {
    exists i :: 0 <= i < |cs| && cs[i].bold
  }

  /** The candidates that make up the title: top to bottom, and only the
      bold ones when there are any. */
  function TitleParts(spans: seq<Span>): seq<Candidate> {
    if |spans| == 0 then []
    else
      var sorted := SortBy(Candidates(spans, MaxSize(spans)), TopKey);
      if AnyBold(sorted) then BoldOnly(sorted) else sorted
  }

  function PartTexts(cs: seq<Candidate>): (ts: seq<string>)
    ensures |ts| == |cs|
    ensures forall i :: 0 <= i < |cs| ==> ts[i] == cs[i].text
  {
    seq(|cs|, i requires 0 <= i < |cs| => cs[i].text)
  }

  /** The title before the prefix clean-up: the parts joined by spaces and
      passed through `clean_text_for_output`; empty when nothing qualifies. */
  function RawTitle(spans: seq<Span>): string {
    var parts := TitleParts(spans);
    if |parts| == 0 then [] else CleanTextForOutput(Join(PartTexts(parts), " "))
  }

  // ---------------------------------------------------------------------
  // Prefix clean-up (improved_process_pdfs.py:283-285)

  /** Length of the `^(Page|Página|Seite)\s*\d+` match, 0 when there is
      none. The optional whitespace and the digits are taken greedily; a
      shorter choice is followed by whitespace, which `\d` rejects. */
  function PageMarkerLength(t: string): (n: nat)
    ensures n <= |t|
  {
    var p := if StartsWith(t, "Page") then 4
      else if StartsWith(t, "P\U{E1}gina") then 6
      else if StartsWith(t, "Seite") then 5
      else 0;
    if p == 0 then 0
    else
      var r := t[p..];
      var sp := SpaceRun(r);
      var d := Scorer.DigitRun(r[sp..]);
      if d == 0 then 0 else p + sp + d
  }

  /** Length of the `^(Copyright|©|All rights reserved)` match. */
  function CopyrightMarkerLength(t: string): (n: nat)
    ensures n <= |t|
  {
    if StartsWith(t, "Copyright") then 9
    else if StartsWith(t, "\U{A9}") then 1
    else if StartsWith(t, "All rights reserved") then 19
    else 0
  }

  predicate AllDashes(s: string) {
    |s| > 0 && forall i :: 0 <= i < |s| ==> s[i] == '-'
  }

  /** `re.sub(r'^-+$', '', t)`: `$` also matches in front of a final
      newline, which then survives. */
  function StripDashLine(t: string): string {
    if AllDashes(t) then []
    else if |t| > 0 && t[|t| - 1] == '\n' && AllDashes(t[..|t| - 1]) then "\n"
    else t
  }

  function StripPrefixes(t: string): string {
    var a := t[PageMarkerLength(t)..];
    var b := a[CopyrightMarkerLength(a)..];
    StripDashLine(b)
  }

  /** `extract_title`, overrides aside. */
  function ExtractTitle(spans: seq<Span>): string {
    StripPrefixes(RawTitle(spans))
  }

  // ---------------------------------------------------------------------
  // Properties

  /** An empty page has no title. */
  lemma EmptyPageHasNoTitle()
    ensures ExtractTitle([]) == []
  {
  }

  /** Without a qualifying span there is no title. */
  lemma NoCandidateNoTitle(spans: seq<Span>)
    requires |spans| > 0
    requires forall i :: 0 <= i < |spans| ==> !Qualifies(spans[i], MaxSize(spans))
    ensures ExtractTitle(spans) == []
  {
    var cs := Candidates(spans, MaxSize(spans));
    if |cs| > 0 {
      var j := CandidateFromSpan(spans, MaxSize(spans), 0);
    }
  }

  /** The title parts are in top-to-bottom order, and when some candidate
      is bold they are exactly the bold candidates; otherwise they are all
      the candidates. */
  lemma TitlePartsChosen(spans: seq<Span>)
    requires |spans| > 0
    ensures var cs := Candidates(spans, MaxSize(spans)); var parts := TitleParts(spans);
      SortedBy(parts, TopKey)
      && (AnyBold(cs) ==> forall c :: c in parts <==> c in cs && c.bold)
      && (AnyBold(cs) ==> forall c :: multiset(parts)[c] == (if c.bold then multiset(cs)[c] else 0))
      && (!AnyBold(cs) ==> multiset(parts) == multiset(cs))
  {
    var cs := Candidates(spans, MaxSize(spans));
    var sorted := SortBy(cs, TopKey);
    AnyBoldOfPermutation(cs, sorted);
    if AnyBold(cs) {
      BoldOnlySorted(sorted);
      BoldOnlyOfPermutation(cs, sorted);
      BoldOnlyCounts(sorted);
    }
  }

  lemma AnyBoldOfPermutation(a: seq<Candidate>, b: seq<Candidate>)
    requires multiset(a) == multiset(b)
    ensures AnyBold(a) <==> AnyBold(b)
  {
    if AnyBold(a) {
      var i :| 0 <= i < |a| && a[i].bold;
      assert a[i] in multiset(b);
    }
    if AnyBold(b) {
      var i :| 0 <= i < |b| && b[i].bold;
      assert b[i] in multiset(a);
    }
  }

  lemma BoldOnlyOfPermutation(a: seq<Candidate>, b: seq<Candidate>)
    requires multiset(a) == multiset(b)
    ensures forall c :: c in BoldOnly(b) <==> c in a && c.bold
  {
    forall c ensures c in b <==> c in a {
      assert c in b <==> c in multiset(b);
      assert c in a <==> c in multiset(a);
    }
  }

  lemma {:induction false} BoldOnlySorted(s: seq<Candidate>)
    requires SortedBy(s, TopKey)
    ensures SortedBy(BoldOnly(s), TopKey)
    decreases |s|
  {
    if |s| > 0 {
      BoldOnlySorted(s[1..]);
      var rest := BoldOnly(s[1..]);
      if s[0].bold {
        var r := [s[0]] + rest;
        forall i, j | 0 <= i < j < |r| ensures KeyLe(TopKey(r[i]), TopKey(r[j])) {
          if i == 0 {
            assert r[j] in rest;
            var k :| 0 <= k < |s[1..]| && s[1..][k] == r[j];
            assert KeyLe(TopKey(s[0]), TopKey(s[k + 1]));
          } else {
            assert r[i] == rest[i - 1] && r[j] == rest[j - 1];
          }
        }
      }
    }
  }

  lemma {:induction false} BoldOnlyTies(s: seq<Candidate>, k: SortKey)
    ensures Ties(BoldOnly(s), TopKey, k) == BoldOnly(Ties(s, TopKey, k))
    decreases |s|
  {
    if |s| > 0 {
      BoldOnlyTies(s[1..], k);
      var head := if TopKey(s[0]) == k then [s[0]] else [];
      BoldOnlyAppend(head, Ties(s[1..], TopKey, k));
      TiesAppend(if s[0].bold then [s[0]] else [], BoldOnly(s[1..]), k);
    }
  }

  lemma {:induction false} BoldOnlyAppend(a: seq<Candidate>, b: seq<Candidate>)
    ensures BoldOnly(a + b) == BoldOnly(a) + BoldOnly(b)
    decreases |a|
  {
    if |a| > 0 {
      assert (a + b)[1..] == a[1..] + b;
      BoldOnlyAppend(a[1..], b);
    } else {
      assert a + b == b;
    }
  }

  lemma {:induction false} TiesAppend(a: seq<Candidate>, b: seq<Candidate>, k: SortKey)
    ensures Ties(a + b, TopKey, k) == Ties(a, TopKey, k) + Ties(b, TopKey, k)
    decreases |a|
  {
    if |a| > 0 {
      assert (a + b)[1..] == a[1..] + b;
      TiesAppend(a[1..], b, k);
    } else {
      assert a + b == b;
    }
  }

  /** Parts at the same height keep the order of the page's spans: the
      sort is stable and the bold filter keeps order. */
  lemma TitlePartsStable(spans: seq<Span>, k: SortKey)
    requires |spans| > 0
    ensures var cs := Candidates(spans, MaxSize(spans));
      Ties(TitleParts(spans), TopKey, k)
        == (if AnyBold(cs) then BoldOnly(Ties(cs, TopKey, k)) else Ties(cs, TopKey, k))
  {
    var cs := Candidates(spans, MaxSize(spans));
    var sorted := SortBy(cs, TopKey);
    SortStable(cs, TopKey, k);
    BoldOnlyTies(sorted, k);
    TitlePartsChosen(spans);
  }

  lemma PartsAreNormalized(spans: seq<Span>)
    ensures forall i :: 0 <= i < |TitleParts(spans)| ==>
      |TitleParts(spans)[i].text| > 3 && Normalized(TitleParts(spans)[i].text)
  {
    if |spans| > 0 {
      var cs := Candidates(spans, MaxSize(spans));
      var sorted := SortBy(cs, TopKey);
      forall i | 0 <= i < |TitleParts(spans)|
        ensures |TitleParts(spans)[i].text| > 3 && Normalized(TitleParts(spans)[i].text)
      {
        var c := TitleParts(spans)[i];
        assert c in sorted;
        assert c in multiset(cs);
      }
    }
  }

  /** Before the prefix clean-up the title is the parts joined by single
      spaces plus one trailing space, or empty when there are no parts. */
  lemma RawTitleIsJoinedParts(spans: seq<Span>)
    ensures var parts := TitleParts(spans);
      RawTitle(spans) == (if |parts| == 0 then [] else Join(PartTexts(parts), " ") + " ")
  {
    var parts := TitleParts(spans);
    if |parts| > 0 {
      PartsAreNormalized(spans);
      JoinOfNormalized(PartTexts(parts));
      CleanTextOfNormalized(Join(PartTexts(parts), " "));
    }
  }

  /** A string that is empty or ends in a space keeps that shape when a
      prefix marker is removed. */
  lemma StripKeepsTrailingSpace(t: string)
    requires |t| == 0 || t[|t| - 1] == ' '
    ensures var a := t[PageMarkerLength(t)..];
      (|a| == 0 || a[|a| - 1] == ' ')
      && var b := a[CopyrightMarkerLength(a)..]; |b| == 0 || b[|b| - 1] == ' '
  {
  }

  /** The dash-only rule never fires: the text it sees is empty or ends in
      the space `clean_text_for_output` appended, so `^-+$` cannot match. */
  lemma DashRuleNeverFires(spans: seq<Span>)
    ensures var t := RawTitle(spans); var a := t[PageMarkerLength(t)..];
      ExtractTitle(spans) == a[CopyrightMarkerLength(a)..]
    ensures var r := ExtractTitle(spans); |r| == 0 || r[|r| - 1] == ' '
  {
    RawTitleEndsInSpace(spans);
    PrefixesOfSpaced(RawTitle(spans));
  }

  /** On text that is empty or ends in a space, the prefix clean-up only
      removes the page and copyright markers, and the result still ends in
      a space. */
  lemma PrefixesOfSpaced(t: string)
    requires |t| == 0 || t[|t| - 1] == ' '
    ensures var a := t[PageMarkerLength(t)..];
      StripPrefixes(t) == a[CopyrightMarkerLength(a)..]
    ensures var r := StripPrefixes(t); |r| == 0 || r[|r| - 1] == ' '
  {
    StripKeepsTrailingSpace(t);
    var a := t[PageMarkerLength(t)..];
    DashLineKeepsSpaced(a[CopyrightMarkerLength(a)..]);
  }

  lemma RawTitleEndsInSpace(spans: seq<Span>)
    ensures var t := RawTitle(spans); |t| == 0 || t[|t| - 1] == ' '
  {
    var parts := TitleParts(spans);
    if |parts| > 0 {
      var r := CleanTextForOutput(Join(PartTexts(parts), " "));
      assert r == [] || r[|r| - 1] == ' ';
    }
  }

  /** `^-+$` cannot match text that is empty or ends in a space. */
  lemma DashLineKeepsSpaced(b: string)
    requires |b| == 0 || b[|b| - 1] == ' '
    ensures StripDashLine(b) == b
  {
    if |b| > 0 {
      assert !AllDashes(b);
    }
  }
}
