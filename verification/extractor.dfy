/** `extract_document_info` (improved_process_pdfs.py:358-454): from the
    text spans of a document to `{"title": ..., "outline": [...]}`. Opening
    the file and walking PyMuPDF's block and line structure are replaced by
    the flat list of spans in extraction order. */
module Extractor {
  import opened Chars
  import opened Strings
  import opened Sorting
  import opened Outline
  import opened TextNorm
  import opened Fonts
  import opened Scorer
  import opened Classifier
  import opened Title
  import opened Merge
  import opened NoiseFilter
  import opened Hierarchy

  /** The spans the extractor keeps: those whose text is not blank, with
      the font and flags reduced to the bold verdict. */
  function Collect(raws: seq<RawSpan>): seq<Span>
    decreases |raws|
  {
    if |raws| == 0 then []
    else
      var r := raws[0];
      (if AllSpace(r.text) then [] else [Span(r.text, r.size, IsBold(r.font, r.flags), r.x, r.y, r.page)])
      + Collect(raws[1..])
  }

  function Sizes(spans: seq<Span>): (sizes: seq<real>)
    ensures |sizes| == |spans|
    ensures forall i :: 0 <= i < |spans| ==> sizes[i] == spans[i].size
  {
    seq(|spans|, i requires 0 <= i < |spans| => spans[i].size)
  }

  /** The spans of one (1-based) page, in extraction order. */
  function PageSpans(spans: seq<Span>, page: int): seq<Span>
    decreases |spans|
  {
    if |spans| == 0 then []
    else (if spans[0].page == page then [spans[0]] else []) + PageSpans(spans[1..], page)
  }

  /** Page by page, top to bottom, left to right. */
  function SpanKey(s: Span): SortKey {
    SortKey(s.page, s.y, s.x)
  }

  /** The level `detect_heading_level_improved` gives a span whose cleaned
      text is `t`, against the body size `median`. */
  function SpanLevel(s: Span, t: string, median: real): Option<Level> {
    Classify(s.size, median, s.bold, t, Analyze(t))
  }

  /** The heading a span yields under the level function `classify`, if
      any: its cleaned text must have at least two characters and get a
      level; the heading carries the output form of the text and the
      0-based page. */
  function HeadingOf(s: Span, classify: (Span, string) -> Option<Level>): Option<Heading> {
    var t := CleanText(s.text);
    if |t| < 2 then None
    else
      match classify(s, t)
      case None => None
      case Some(l) => Some(Heading(l, CleanTextForOutput(t), s.page - 1))
  }

  function AsSeq(o: Option<Heading>): (s: seq<Heading>)
    ensures |s| <= 1
    ensures o.Some? ==> s == [o.value]
  {
    match o case None => [] case Some(h) => [h]
  }

  function HeadingsOf(spans: seq<Span>, classify: (Span, string) -> Option<Level>): seq<Heading>
    decreases |spans|
  {
    if |spans| == 0 then []
    else
      AsSeq(HeadingOf(spans[0], classify)) + HeadingsOf(spans[1..], classify)
  }

  /** `extract_document_info`, with the title overrides left out. */
  function ExtractDocument(raws: seq<RawSpan>): Document {
    var spans := Collect(raws);
    if |spans| == 0 then Document("", [])
    else Document(ExtractTitle(PageSpans(spans, 1)), OutlineOf(spans, LevelsAgainst(BodySize(Sizes(spans)))))
  }

  /** The level function of a document whose body text has size `median`. */
  function LevelsAgainst(median: real): (Span, string) -> Option<Level> {
    (s: Span, t: string) => SpanLevel(s, t, median)
  }

  /** The outline of the collected spans under the level function
      `classify`: classify the spans in reading order, then merge, filter
      and nest the headings. */
  function OutlineOf(spans: seq<Span>, classify: (Span, string) -> Option<Level>): seq<Heading> {
    Nest(FilterNoise(MergeSplit(HeadingsOf(SortBy(spans, SpanKey), classify))))
  }

  // ---------------------------------------------------------------------
  // Properties

  /** Only blank spans are dropped, and they are all dropped. */
  lemma {:induction false} CollectFacts(raws: seq<RawSpan>)
    ensures |Collect(raws)| <= |raws|
    ensures forall i :: 0 <= i < |Collect(raws)| ==> !AllSpace(Collect(raws)[i].text)
    ensures Collect(raws) == [] <==> forall i :: 0 <= i < |raws| ==> AllSpace(raws[i].text)
    decreases |raws|
  {
    if |raws| > 0 {
      CollectFacts(raws[1..]);
      var tail := Collect(raws[1..]);
      var head: seq<Span> := if AllSpace(raws[0].text) then [] else [Span(raws[0].text, raws[0].size, IsBold(raws[0].font, raws[0].flags), raws[0].x, raws[0].y, raws[0].page)];
      assert Collect(raws) == head + tail;
      forall i | 0 <= i < |head + tail| ensures !AllSpace((head + tail)[i].text) {
        if i >= |head| { assert (head + tail)[i] == tail[i - |head|]; }
      }
      if forall i :: 0 <= i < |raws[1..]| ==> AllSpace(raws[1..][i].text) {
        if AllSpace(raws[0].text) {
          forall i | 0 <= i < |raws| ensures AllSpace(raws[i].text) {
            if i > 0 { assert raws[i] == raws[1..][i - 1]; }
          }
        }
      } else {
        var i :| 0 <= i < |raws[1..]| && !AllSpace(raws[1..][i].text);
        assert raws[i + 1] == raws[1..][i];
      }
    }
  }

  /** A document without any non-blank span gets an empty title and an
      empty outline. */
  lemma BlankDocument(raws: seq<RawSpan>)
    requires forall i :: 0 <= i < |raws| ==> AllSpace(raws[i].text)
    ensures ExtractDocument(raws) == Document("", [])
  {
    CollectFacts(raws);
  }

  /** Every heading a span yields carries the span's cleaned text plus one
      space, so at least three characters ending in a space, and the span's
      page made 0-based. */
  lemma HeadingOfFacts(s: Span, classify: (Span, string) -> Option<Level>)
    ensures HeadingOf(s, classify).Some? ==>
      var h := HeadingOf(s, classify).value;
      h.text == CleanText(s.text) + " " && |h.text| >= 3 && EndsInSpace(h.text) && h.page == s.page - 1
  {
    CleanTextIdempotent(s.text);
  }

  /** `HeadingOfFacts` in the shape the list walk uses. */
  lemma HeadingOfShape(s: Span, classify: (Span, string) -> Option<Level>)
    ensures var head := AsSeq(HeadingOf(s, classify));
      forall i :: 0 <= i < |head| ==> EndsInSpace(head[i].text) && |head[i].text| >= 3 && head[i].page == s.page - 1
  {
    var o := HeadingOf(s, classify);
    HeadingOfFacts(s, classify);
    if o.Some? {
      assert AsSeq(o) == [o.value];
    }
  }

  /** Putting at most one heading of page `lo` or later in front of
      headings of page `lo` or later keeps the invariants. */
  lemma PrependKeeps(head: seq<Heading>, tail: seq<Heading>, lo: int, lo': int)
    requires |head| <= 1 && lo <= lo'
    requires forall i :: 0 <= i < |head| ==> EndsInSpace(head[i].text) && |head[i].text| >= 3 && head[i].page == lo'
    requires TextsEndInSpace(tail, 3) && PagesAscending(tail) && forall i :: 0 <= i < |tail| ==> tail[i].page >= lo'
    ensures var hs := head + tail;
      TextsEndInSpace(hs, 3) && PagesAscending(hs) && forall i :: 0 <= i < |hs| ==> hs[i].page >= lo
  {
    var hs := head + tail;
    forall i | 0 <= i < |hs| ensures EndsInSpace(hs[i].text) && |hs[i].text| >= 3 && hs[i].page >= lo' {
      if i >= |head| { assert hs[i] == tail[i - |head|]; }
    }
    forall i, j | 0 <= i < j < |hs| ensures hs[i].page <= hs[j].page {
      assert hs[j] == tail[j - |head|];
      if i >= |head| { assert hs[i] == tail[i - |head|]; }
    }
  }

  /** The headings of spans in page order come in page order, with texts
      of at least three characters that end in a space. */
  lemma {:induction false} HeadingsOfFacts(spans: seq<Span>, classify: (Span, string) -> Option<Level>, lo: int)
    requires forall i :: 0 <= i < |spans| ==> spans[i].page - 1 >= lo
    requires forall i, j :: 0 <= i < j < |spans| ==> spans[i].page <= spans[j].page
    ensures var hs := HeadingsOf(spans, classify);
      TextsEndInSpace(hs, 3) && PagesAscending(hs) && forall i :: 0 <= i < |hs| ==> hs[i].page >= lo
    decreases |spans|
  {
    if |spans| > 0 {
      var s := spans[0];
      var rest := spans[1..];
      assert forall i :: 0 <= i < |rest| ==> rest[i].page - 1 >= s.page - 1 by {
        forall i | 0 <= i < |rest| ensures rest[i].page - 1 >= s.page - 1 {
          assert rest[i] == spans[i + 1];
        }
      }
      assert forall i, j :: 0 <= i < j < |rest| ==> rest[i].page <= rest[j].page by {
        forall i, j | 0 <= i < j < |rest| ensures rest[i].page <= rest[j].page {
          assert rest[i] == spans[i + 1] && rest[j] == spans[j + 1];
        }
      }
      HeadingsOfFacts(rest, classify, s.page - 1);
      var head := AsSeq(HeadingOf(s, classify));
      HeadingOfShape(s, classify);
      PrependKeeps(head, HeadingsOf(rest, classify), lo, s.page - 1);
    }
  }

  /** Sorting by `SpanKey` puts the spans in page order. */
  lemma OrderedByPage(spans: seq<Span>)
    ensures var o := SortBy(spans, SpanKey);
      forall i, j :: 0 <= i < j < |o| ==> o[i].page <= o[j].page
  {
    var o := SortBy(spans, SpanKey);
    forall i, j | 0 <= i < j < |o| ensures o[i].page <= o[j].page {
      assert KeyLe(SpanKey(o[i]), SpanKey(o[j]));
    }
  }

  /** In a page-ordered list no span lies before the first span's page. */
  lemma FirstPageIsLowest(spans: seq<Span>)
    requires |spans| > 0
    requires forall i, j :: 0 <= i < j < |spans| ==> spans[i].page <= spans[j].page
    ensures forall i :: 0 <= i < |spans| ==> spans[i].page - 1 >= spans[0].page - 1
  {
    forall i | 0 < i < |spans| ensures spans[0].page <= spans[i].page {
    }
  }

  /** Subsequences keep the outline invariants. */
  lemma SubsequenceKeeps(a: seq<Heading>, b: seq<Heading>)
    requires IsSubsequence(a, b)
    requires TextsEndInSpace(b, 3) && PagesAscending(b)
    ensures TextsEndInSpace(a, 3) && PagesAscending(a)
  {
    SubsequenceMembers(a, b);
    SubsequencePairwise(a, b, (x: Heading, y: Heading) => x.page <= y.page);
  }

  /** What the extractor promises about its outline: it is well nested,
      no two entries share a level and lower-cased text, no entry is noise,
      entries come in page order, and every text ends in a space. */
  lemma OutlineFacts(raws: seq<RawSpan>)
    ensures var o := ExtractDocument(raws).outline;
      WellNested(o)
      && (forall i, j :: 0 <= i < j < |o| ==> KeyOf(o[i]) != KeyOf(o[j]))
      && (forall i :: 0 <= i < |o| ==> !IsNoise(o[i].text))
      && PagesAscending(o)
      && TextsEndInSpace(o, 3)
  {
    var spans := Collect(raws);
    if |spans| > 0 {
      OutlineOfFacts(spans, LevelsAgainst(BodySize(Sizes(spans))));
    }
  }

  /** The outline invariants hold whatever the level function. */
  lemma OutlineOfFacts(spans: seq<Span>, classify: (Span, string) -> Option<Level>)
    requires |spans| > 0
    ensures var o := OutlineOf(spans, classify);
      WellNested(o)
      && (forall i, j :: 0 <= i < j < |o| ==> KeyOf(o[i]) != KeyOf(o[j]))
      && (forall i :: 0 <= i < |o| ==> !IsNoise(o[i].text))
      && PagesAscending(o)
      && TextsEndInSpace(o, 3)
  {
    var ordered := SortBy(spans, SpanKey);
    OrderedByPage(spans);
    FirstPageIsLowest(ordered);
    HeadingsOfFacts(ordered, classify, ordered[0].page - 1);
    PipelineFacts(HeadingsOf(ordered, classify));
  }

  /** Merging, filtering and nesting headings whose texts end in a space
      and whose pages ascend gives a well-nested outline with distinct
      keys, no noise, and the same two invariants. */
  lemma PipelineFacts(hs: seq<Heading>)
    requires TextsEndInSpace(hs, 3) && PagesAscending(hs)
    ensures var o := Nest(FilterNoise(MergeSplit(hs)));
      WellNested(o)
      && (forall i, j :: 0 <= i < j < |o| ==> KeyOf(o[i]) != KeyOf(o[j]))
      && (forall i :: 0 <= i < |o| ==> !IsNoise(o[i].text))
      && PagesAscending(o)
      && TextsEndInSpace(o, 3)
  {
    var m := MergeSplit(hs);
    MergeSplitKeeps(hs, 3);
    var f := FilterNoise(m);
    FilterNoiseFacts(m);
    SubsequenceKeeps(f, m);
    var o := Nest(f);
    NestKeepsH1s(f);
    NestIsWellNested(f);
    SubsequenceKeeps(o, f);
    SubsequenceMembers(o, f);
    SubsequencePairwise(o, f, (x: Heading, y: Heading) => KeyOf(x) != KeyOf(y));
  }

  /** In the extractor the digit-line, dash-line and length rules of the
      noise filter never fire: every heading text it filters ends in a space
      and has at least three characters, so only the header and footer words
      remove anything. */
  lemma OnlyWordRuleFires(hs: seq<Heading>)
    requires TextsEndInSpace(hs, 3)
    ensures forall i :: 0 <= i < |hs| ==> (IsNoise(hs[i].text) <==> ContainsAny(Lower(hs[i].text), NoiseWords))
  {
    forall i | 0 <= i < |hs| ensures IsNoise(hs[i].text) <==> ContainsAny(Lower(hs[i].text), NoiseWords) {
      TrailingSpaceNoise(hs[i].text);
    }
  }
}
