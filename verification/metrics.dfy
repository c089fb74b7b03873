/** The evaluator's scores: `evaluate_file` (evaluate_accuracy.py:110-168)
    for one pair of files and the totals of `evaluate_all_files`
    (evaluate_accuracy.py:203-272). Reading the JSON files is a parameter:
    a file pair arrives already loaded, or as the error loading it raised. */
module Metrics {
  import opened Outline
  import opened Comparison
  import opened Matcher

  /** The expected and the generated document, or the message of the
      exception raised while loading them. */
  datatype Loaded = Loaded(expected: Document, actual: Document) | LoadError(message: string)

  /** The per-file record; a failed file carries only its name and error. */
  datatype FileResult =
    | Evaluated(name: string, titleSimilarity: real, titleMatch: bool,
                expectedCount: nat, actualCount: nat, exact: nat, partial: nat,
                accuracy: real, overall: real, details: Report)
    | Failed(name: string, error: string)

  /** The score fields every per-file record reports: `title.match`,
      `title.similarity`, `headings.accuracy`, `headings.total_matches` and
      `overall_accuracy`. */
  datatype Scores = Scores(titleMatch: bool, similarity: real, accuracy: real, totalMatches: nat, overall: real)

  /** The scores a record reports; a failed file reports no match and
      zeros (evaluate_accuracy.py:162-168). */
  function Reported(r: FileResult): Scores {
    match r
    case Evaluated(_, sim, tm, _, _, ex, pa, acc, ov, _) => Scores(tm, sim, acc, ex + pa, ov)
    case Failed(_, _) => Scores(false, 0.0, 0.0, 0, 0.0)
  }

  /** A title matches when its similarity exceeds this. */
  const TitleThreshold: real := 0.8

  /** `total_matches / total_expected_headings`, or 0 without expected
      headings. */
  function Fraction(matched: nat, total: nat): (q: real)
    requires matched <= total
    ensures 0.0 <= q <= 1.0
    ensures q == 1.0 <==> total > 0 && matched == total
    ensures q == 0.0 <==> matched == 0
  {
    if total > 0 then
      FractionBounds(matched, total);
      matched as real / total as real
    else 0.0
  }

  lemma FractionBounds(matched: nat, total: nat)
    requires matched <= total && total > 0
    ensures var q := matched as real / total as real;
      0.0 <= q <= 1.0 && (q == 1.0 <==> matched == total) && (q == 0.0 <==> matched == 0)
  {
    var m, t := matched as real, total as real;
    var q := m / t;
    assert q * t == m;
    ScaleByPositive(q, t);
  }

  /** Multiplying by a positive number keeps comparisons with 1 and 0. */
  lemma ScaleByPositive(q: real, t: real)
    requires t > 0.0
    ensures q < 1.0 <==> q * t < t
    ensures q > 0.0 <==> q * t > 0.0
  {
  }

  /** `evaluate_file`. */
  function EvaluateFile(name: string, input: Loaded, ratio: (string, string) -> real): (r: FileResult)
    requires ValidRatio(ratio)
    ensures r.name == name
    ensures r.Failed? <==> input.LoadError?
    ensures r.Failed? ==> r.error == input.message
    ensures r.Evaluated? ==>
      r.expectedCount == |input.expected.outline| && r.actualCount == |input.actual.outline|
      && r.exact + r.partial <= r.expectedCount
      && 0.0 <= r.titleSimilarity <= 1.0
      && 0.0 <= r.accuracy <= 1.0 && 0.0 <= r.overall <= 1.0
      && (r.accuracy == 1.0 <==> r.expectedCount > 0 && |r.details.unmatchedExpected| == 0)
    ensures r.Evaluated? ==>
      r.titleSimilarity == Similarity(input.expected.title, input.actual.title, ratio)
      && (r.titleMatch <==> r.titleSimilarity > TitleThreshold)
      && r.exact == r.details.exact && r.partial == r.details.partial
      && r.accuracy == Fraction(r.exact + r.partial, r.expectedCount)
      && r.overall == (r.titleSimilarity + r.accuracy) / 2.0
  {
    match input
    case LoadError(msg) => Failed(name, msg)
    case Loaded(exp, act) =>
      var rep := CompareHeadings(exp.outline, act.outline, ratio);
      HeadingsAccounted(exp.outline, act.outline, ratio);
      Score(name, Similarity(exp.title, act.title, ratio), |exp.outline|, |act.outline|, rep)
  }

  /** The record of a loaded file, from its title similarity and its
      heading report: the title matches above the threshold, the accuracy
      is the matched fraction of the expected headings, and the overall
      score is the mean of the two. */
  function Score(name: string, sim: real, expectedCount: nat, actualCount: nat, rep: Report): (r: FileResult)
    requires 0.0 <= sim <= 1.0
    requires rep.exact + rep.partial + |rep.unmatchedExpected| == expectedCount
    ensures r.Evaluated? && r.name == name && r.details == rep
    ensures r.expectedCount == expectedCount && r.actualCount == actualCount
    ensures r.titleSimilarity == sim && (r.titleMatch <==> sim > TitleThreshold)
    ensures r.exact == rep.exact && r.partial == rep.partial
    ensures r.accuracy == Fraction(rep.exact + rep.partial, expectedCount)
    ensures r.overall == (sim + r.accuracy) / 2.0 && 0.0 <= r.overall <= 1.0
    ensures r.accuracy == 1.0 <==> expectedCount > 0 && |rep.unmatchedExpected| == 0
  {
    var acc := Fraction(rep.exact + rep.partial, expectedCount);
    Evaluated(name, sim, sim > TitleThreshold, expectedCount, actualCount,
              rep.exact, rep.partial, acc, (sim + acc) / 2.0, rep)
  }

  /** A loaded file's counts are those of `compare_headings`: exact matches
      are the expected headings with an exact counterpart, and every other
      expected heading is either partially matched or reported unmatched. */
  lemma EvaluateFileCounts(name: string, expected: Document, actual: Document, ratio: (string, string) -> real)
    requires ValidRatio(ratio)
    ensures var r := EvaluateFile(name, Loaded(expected, actual), ratio);
      r.Evaluated?
      && r.details == CompareHeadings(expected.outline, actual.outline, ratio)
      && r.exact == |Matchable(expected.outline, actual.outline)|
      && |r.details.unmatchedExpected| == r.expectedCount - r.exact - r.partial
  {
    CompareCounts(expected.outline, actual.outline, ratio);
  }

  /** Every expected heading is matched exactly, matched partially or
      reported unmatched, and only one of these. */
  lemma HeadingsAccounted(expected: seq<Heading>, actual: seq<Heading>, ratio: (string, string) -> real)
    requires ValidRatio(ratio)
    ensures var rep := CompareHeadings(expected, actual, ratio);
      rep.exact + rep.partial + |rep.unmatchedExpected| == |expected|
  {
    CompareCounts(expected, actual, ratio);
  }

  /** Whether loaded or failed, a file's reported scores lie in [0, 1], the
      title matches exactly when its similarity exceeds the threshold, and
      the overall score is the mean of similarity and accuracy; a failed
      file reports no match and zeros. */
  lemma ReportedScores(name: string, input: Loaded, ratio: (string, string) -> real)
    requires ValidRatio(ratio)
    ensures var s := Reported(EvaluateFile(name, input, ratio));
      (input.LoadError? ==> s == Scores(false, 0.0, 0.0, 0, 0.0))
      && (input.Loaded? ==> s.totalMatches <= |input.expected.outline|)
      && 0.0 <= s.similarity <= 1.0 && 0.0 <= s.accuracy <= 1.0 && 0.0 <= s.overall <= 1.0
      && (s.titleMatch <==> s.similarity > TitleThreshold)
      && s.overall == (s.similarity + s.accuracy) / 2.0
  {
  }

  /** A generated document identical to the expected one scores full marks,
      provided the similarity ratio scores identical strings 1. */
  lemma SelfComparisonIsPerfect(name: string, d: Document, ratio: (string, string) -> real)
    requires ValidRatio(ratio)
    requires forall s :: ratio(s, s) == 1.0
    ensures var r := EvaluateFile(name, Loaded(d, d), ratio);
      r.Evaluated? && r.titleMatch && r.titleSimilarity == 1.0
      && r.exact == |d.outline| && r.partial == 0
      && (|d.outline| > 0 ==> r.accuracy == 1.0 && r.overall == 1.0)
  {
    SimilarityOfSame(d.title, ratio);
    MatchableOfSelf(d.outline);
    CompareCounts(d.outline, d.outline, ratio);
  }

  /** Every heading has an exact counterpart in its own list. */
  lemma {:induction false} MatchableOfSelf(hs: seq<Heading>)
    ensures |Matchable(hs, hs)| == |hs|
  {
    MatchableOfSub(hs, hs);
  }

  lemma {:induction false} MatchableOfSub(es: seq<Heading>, acts: seq<Heading>)
    requires forall i :: 0 <= i < |es| ==> es[i] in acts
    ensures |Matchable(es, acts)| == |es|
    decreases |es|
  {
    if |es| > 0 {
      var j :| 0 <= j < |acts| && acts[j] == es[0];
      assert ExactMatch(es[0], acts[j]);
      MatchableCons(es, acts);
      MatchableOfSub(es[1..], acts);
    }
  }

  /** An empty generated outline matches nothing. */
  lemma EmptyOutlineMatchesNothing(name: string, exp: Document, title: string, ratio: (string, string) -> real)
    requires ValidRatio(ratio)
    ensures var r := EvaluateFile(name, Loaded(exp, Document(title, [])), ratio);
      r.Evaluated? && r.exact == 0 && r.partial == 0 && r.accuracy == 0.0
  {
    NothingMatchesEmpty(exp.outline);
    ComparePairs(exp.outline, [], ratio);
    CompareCounts(exp.outline, [], ratio);
    var rep := CompareHeadings(exp.outline, [], ratio);
    assert rep.exact < |rep.pairs| ==> PartialPair(rep.pairs[rep.exact], [], ratio);
  }

  lemma {:induction false} NothingMatchesEmpty(es: seq<Heading>)
    ensures |Matchable(es, [])| == 0
    decreases |es|
  {
    if |es| > 0 {
      MatchableCons(es, []);
      NothingMatchesEmpty(es[1..]);
    }
  }

  // ---------------------------------------------------------------------
  // Totals over all files

  /** The running totals of `evaluate_all_files`. */
  datatype Totals = Totals(files: nat, titleMatches: nat, expectedHeadings: nat, matchedHeadings: nat)

  function Add(a: Totals, b: Totals): Totals {
    Totals(a.files + b.files, a.titleMatches + b.titleMatches,
           a.expectedHeadings + b.expectedHeadings, a.matchedHeadings + b.matchedHeadings)
  }

  /** What one file contributes: a failed file counts as a file and
      nothing else. */
  function Contribution(r: FileResult): Totals {
    match r
    case Failed(_, _) => Totals(1, 0, 0, 0)
    case Evaluated(_, _, titleMatch, expectedCount, _, exact, partial, _, _, _) =>
      Totals(1, if titleMatch then 1 else 0, expectedCount, exact + partial)
  }

  function Accumulate(rs: seq<FileResult>): Totals
    decreases |rs|
  {
    if |rs| == 0 then Totals(0, 0, 0, 0) else Add(Contribution(rs[0]), Accumulate(rs[1..]))
  }

  /** The `summary` record. */
  datatype Summary = Summary(totals: Totals, titleAccuracy: real, headingAccuracy: real, combined: real)

  /** A per-file record as `evaluate_file` produces it. */
  predicate Consistent(r: FileResult) {
    r.Evaluated? ==> r.exact + r.partial <= r.expectedCount
  }

  /** Totals never claim more matches than there were chances. */
  lemma {:induction false} AccumulateBounds(rs: seq<FileResult>)
    requires forall i :: 0 <= i < |rs| ==> Consistent(rs[i])
    ensures var t := Accumulate(rs);
      t.files == |rs| && t.titleMatches <= t.files && t.matchedHeadings <= t.expectedHeadings
    decreases |rs|
  {
    if |rs| > 0 {
      assert Consistent(rs[0]);
      AccumulateBounds(rs[1..]);
    }
  }

  /** The overall figures: each rate is 0 when its denominator is. */
  function Summarize(rs: seq<FileResult>): (s: Summary)
    requires forall i :: 0 <= i < |rs| ==> Consistent(rs[i])
    ensures s.totals == Accumulate(rs)
    ensures 0.0 <= s.titleAccuracy <= 1.0 && 0.0 <= s.headingAccuracy <= 1.0 && 0.0 <= s.combined <= 1.0
    ensures s.totals.titleMatches <= s.totals.files && s.totals.matchedHeadings <= s.totals.expectedHeadings
    ensures s.titleAccuracy == Fraction(s.totals.titleMatches, s.totals.files)
    ensures s.headingAccuracy == Fraction(s.totals.matchedHeadings, s.totals.expectedHeadings)
    ensures s.combined == (s.titleAccuracy + s.headingAccuracy) / 2.0
    ensures s.totals.files == 0 ==> s.titleAccuracy == 0.0
    ensures s.totals.expectedHeadings == 0 ==> s.headingAccuracy == 0.0
  {
    var t := Accumulate(rs);
    AccumulateBounds(rs);
    var ta := Fraction(t.titleMatches, t.files);
    var ha := Fraction(t.matchedHeadings, t.expectedHeadings);
    Summary(t, ta, ha, (ta + ha) / 2.0)
  }

  /** The totals are sums: splitting the file list anywhere adds up. */
  lemma {:induction false} AccumulateAppend(a: seq<FileResult>, b: seq<FileResult>)
    ensures Accumulate(a + b) == Add(Accumulate(a), Accumulate(b))
    decreases |a|
  {
    if |a| > 0 {
      AccumulateCons(a[0], a[1..] + b);
      assert [a[0]] + (a[1..] + b) == a + b;
      AccumulateAppend(a[1..], b);
      AccumulateCons(a[0], a[1..]);
      assert [a[0]] + a[1..] == a;
    } else {
      assert a + b == b;
    }
  }

  lemma AccumulateCons(r: FileResult, rs: seq<FileResult>)
    ensures Accumulate([r] + rs) == Add(Contribution(r), Accumulate(rs))
  {
    assert ([r] + rs)[1..] == rs;
  }

  lemma AccumulateSingle(r: FileResult)
    ensures Accumulate([r]) == Contribution(r)
  {
    assert [r][1..] == [];
  }

  /** So the order in which files are visited does not matter. */
  lemma AccumulateSwap(a: seq<FileResult>, b: seq<FileResult>)
    ensures Accumulate(a + b) == Accumulate(b + a)
  {
    AccumulateAppend(a, b);
    AccumulateAppend(b, a);
  }

  /** A file that failed to load adds one to the file count and nothing
      to any other total. */
  lemma FailedFileCountsOnlyAsFile(rs: seq<FileResult>, name: string, error: string)
    ensures var t := Accumulate(rs);
      Accumulate(rs + [Failed(name, error)]) == Totals(t.files + 1, t.titleMatches, t.expectedHeadings, t.matchedHeadings)
  {
    AccumulateAppend(rs, [Failed(name, error)]);
    AccumulateSingle(Failed(name, error));
  }

  // ---------------------------------------------------------------------
  // The driver

  predicate IsJsonName(n: string) {
    |n| >= 5 && n[|n| - 5..] == ".json"
  }

  /** `[f for f in names if f.endswith('.json')]`. */
  function JsonNames(names: seq<string>): (r: seq<string>)
    decreases |names|
  {
    if |names| == 0 then []
    else (if IsJsonName(names[0]) then [names[0]] else []) + JsonNames(names[1..])
  }

  /** The file names of the expected directory that also occur among the
      generated ones, in the expected directory's order. */
  function Paired(orgs: seq<string>, actuals: seq<string>): seq<string>
    decreases |orgs|
  {
    if |orgs| == 0 then []
    else (if orgs[0] in actuals then [orgs[0]] else []) + Paired(orgs[1..], actuals)
  }

  /** The loop of `evaluate_all_files`: one result per paired name.
      `load` stands for opening and parsing the two files of that name. */
  function EvaluateAll(orgDir: Option<seq<string>>, actualDir: Option<seq<string>>,
                       load: string -> Loaded, ratio: (string, string) -> real): (r: Option<seq<FileResult>>)
    requires ValidRatio(ratio)
    ensures r.None? <==> orgDir.None? || actualDir.None?
  {
    match (orgDir, actualDir)
    case (Some(os), Some(as_)) =>
      var names := Paired(JsonNames(os), JsonNames(as_));
      Some(seq(|names|, i requires 0 <= i < |names| => EvaluateFile(names[i], load(names[i]), ratio)))
    case _ => None
  }

  lemma {:induction false} JsonNamesFacts(names: seq<string>)
    ensures forall i :: 0 <= i < |JsonNames(names)| ==> IsJsonName(JsonNames(names)[i]) && JsonNames(names)[i] in names
    ensures forall n :: n in names && IsJsonName(n) ==> n in JsonNames(names)
    decreases |names|
  {
    if |names| > 0 {
      JsonNamesFacts(names[1..]);
      assert names == [names[0]] + names[1..];
    }
  }

  lemma {:induction false} PairedFacts(orgs: seq<string>, actuals: seq<string>)
    ensures forall i :: 0 <= i < |Paired(orgs, actuals)| ==> Paired(orgs, actuals)[i] in orgs && Paired(orgs, actuals)[i] in actuals
    ensures forall n :: n in orgs && n in actuals ==> n in Paired(orgs, actuals)
    decreases |orgs|
  {
    if |orgs| > 0 {
      PairedFacts(orgs[1..], actuals);
      assert orgs == [orgs[0]] + orgs[1..];
    }
  }

  /** Exactly the JSON files present in both directories are evaluated, each
      under its own name, and the overall rates lie between 0 and 1. */
  lemma EvaluateAllFacts(os: seq<string>, as_: seq<string>, load: string -> Loaded, ratio: (string, string) -> real)
    requires ValidRatio(ratio)
    ensures var r := EvaluateAll(Some(os), Some(as_), load, ratio).value;
      (forall i :: 0 <= i < |r| ==> IsJsonName(r[i].name) && r[i].name in os && r[i].name in as_ && Consistent(r[i]))
      && (forall n :: n in os && n in as_ && IsJsonName(n) ==> exists i :: 0 <= i < |r| && r[i].name == n)
  {
    var jo, ja := JsonNames(os), JsonNames(as_);
    JsonNamesFacts(os);
    JsonNamesFacts(as_);
    PairedFacts(jo, ja);
    var names := Paired(jo, ja);
    var r := EvaluateAll(Some(os), Some(as_), load, ratio).value;
    forall n | n in os && n in as_ && IsJsonName(n) ensures exists i :: 0 <= i < |r| && r[i].name == n {
      assert n in jo && n in ja;
      var i :| 0 <= i < |names| && names[i] == n;
      assert r[i].name == n;
    }
  }
}
