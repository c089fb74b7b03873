# PDF outline extraction and outline scoring, in Dafny

This project models two Python programs. The first is the heading
extractor `improved_process_pdfs.py`: it turns the styled text spans of a PDF
into a document title and an H1/H2/H3 outline. The second is the evaluator
`evaluate_accuracy.py`: it scores a generated outline against an expected one.

Extractor, in the order the program runs:

- **Span collection.** Whitespace-only spans are dropped. Each span's bold
  verdict is taken from its font name or its flag word.
- **Body size.** The median of the positive font sizes, or 12 when there is
  none.
- **Title synthesis.** The largest text on page 1, in top-to-bottom order,
  with bold parts preferred and page and copyright prefixes removed.
- **Per-span classification.** Each span goes through the text normalisers,
  the seven-signal structural scorer and the tiered level classifier. The
  resulting headings carry 0-based page numbers.
- **Three outline passes.**
  - `merge_split_headings` fuses neighbours that share a level and a page.
  - `filter_duplicates_and_noise` drops noise and repeated (level,
    lower-cased text) keys.
  - The hierarchy loop keeps an H2 only under an H1, and an H3 only under an
    open H2.

Evaluator:

- **Comparison key** (`clean_text_for_comparison`) and the similarity wrapper.
- **Heading comparison** (`compare_headings`): an exact pass over the full
  list of actual headings, then a greedy partial pass over the headings still
  unmatched, with a 0.7 threshold.
- **Scores:** the per-file accuracy arithmetic and the totals over all files.

Characters are modelled as ASCII plus Latin-1. Python's `\s`, `\d`,
`lower`, `isupper` and `istitle` are hand-written predicates over that range.
Regular expressions become hand-written predicates in which `$` also accepts
one final newline. Scorer values are integer tenths. Font sizes, ratios and
similarities are `real`. `SequenceMatcher.ratio` is a function parameter
whose values lie in [0, 1].

Modules, one file each:

| Module | File | Contents |
|---|---|---|
| `Chars` | `chars.dfy` | Character classes |
| `Strings` | `strings.dfy` | strip, whitespace collapsing, replace, split/join |
| `TextNorm` | `textnorm.dfy` | `clean_text` and `clean_text_for_output` |
| `Sorting` | `sorting.dfy` | A stable insertion sort standing in for Python's `sort` |
| `Fonts` | `fonts.dfy` | Bold test and median |
| `Scorer` | `scorer.dfy` | `analyze_text_structure` |
| `Classifier` | `classifier.dfy` | `detect_heading_level_improved` |
| `Title` | `title.dfy` | `extract_title` |
| `Outline` | `outline.dfy` | Shared records and the subsequence relation |
| `Merge` | `merge.dfy` | Merging split headings |
| `NoiseFilter` | `noise.dfy` | Noise and duplicate filtering |
| `Hierarchy` | `hierarchy.dfy` | The nesting pass |
| `Extractor` | `extractor.dfy` | The driver `extract_document_info` |
| `Comparison` | `comparison.dfy` | Comparison key and similarity |
| `Matcher` | `matcher.dfy` | `compare_headings` |
| `Metrics` | `metrics.dfy` | `evaluate_file` and the totals |

Any text of 2 to 12 words reaches the 0.3 candidate threshold on its
length signal alone (improved_process_pdfs.py:111-112 and 156). So every
such text is a heading candidate, and only the classifier's size and weight
tiers keep body text out of the outline (`Scorer.ShortTextIsCandidate`).

## Model

| member | source | states |
|---|---|---|
| Chars.LowerChar | improved_process_pdfs.py:54 | Lower-casing turns an upper-case letter into a lower-case one and leaves every other character alone |
| Chars.Lower | improved_process_pdfs.py:54 | `str.lower` works character by character and keeps the length |
| Chars.LowerCharKeepsClasses | improved_process_pdfs.py:138 | Lower-casing keeps whitespace, digits, space, comma, period, dash, underscore and newline as they are, and is idempotent per character |
| Chars.LowerIdempotent | improved_process_pdfs.py:308 | Lower-casing twice is lower-casing once, so the lower-cased duplicate keys are stable |
| Chars.LowerAppend | improved_process_pdfs.py:319 | Lower-casing distributes over concatenation |
| Strings.Strip | improved_process_pdfs.py:74 | `strip` returns a contiguous slice of its input with only whitespace cut off before and after it; the result is trimmed, empty exactly for all-whitespace input, and equal to the input when that is already trimmed |
| Strings.CollapseShape | improved_process_pdfs.py:74 | `re.sub(r'\s+', ' ', …)` leaves only single plain spaces, never lengthens the text, is empty exactly for empty input and keeps whether each end is whitespace |
| Strings.CollapseFixpoint | improved_process_pdfs.py:74 | Collapsing whitespace changes nothing on text with only single plain spaces |
| Strings.CollapseIsJoinOfWords | improved_process_pdfs.py:74-77 | Collapsing the stripped text is joining its `split()` words with single spaces |
| Strings.ReplaceAbsentChar | improved_process_pdfs.py:75 | Replacing a character that does not occur changes nothing, which makes the newline and carriage-return replacements no-ops after collapsing |
| Strings.WordsOfStrip | improved_process_pdfs.py:99-100 | Stripping does not change the word list |
| Strings.JoinOfNormalized | improved_process_pdfs.py:279 | Joining normalised, non-empty parts with single spaces gives normalised text |
| Strings.ContainsTransitive | improved_process_pdfs.py:59 | A substring of a substring is a substring, which is why "demibold" and "semibold" add nothing to "bold" |
| TextNorm.SqueezeFacts | improved_process_pdfs.py:73-75 | Strip-then-collapse yields normalised text, empty exactly for all-whitespace input |
| TextNorm.CleanText | improved_process_pdfs.py:68-77 | `clean_text` output has no leading or trailing whitespace and no double spaces, and is empty exactly for whitespace-only input |
| TextNorm.CleanTextIsJoinedWords | improved_process_pdfs.py:68-77 | `clean_text` is the text's words joined by single spaces |
| TextNorm.CleanTextForOutput | improved_process_pdfs.py:79-92 | `clean_text_for_output(t)` is `clean_text(t)` plus one space, or empty when that is empty |
| TextNorm.CleanTextOfNormalized | improved_process_pdfs.py:68-77 | `clean_text` leaves already normalised text unchanged |
| TextNorm.CleanTextIdempotent | improved_process_pdfs.py:68-77 | Applying `clean_text` twice is applying it once |
| TextNorm.OutputTextShape | improved_process_pdfs.py:88-90 | Output text ends in exactly one space preceded by a non-space, and without that space is the `clean_text` form |
| Sorting.SortBy | improved_process_pdfs.py:269 | Sorting yields a sorted permutation of its input |
| Sorting.SortStable | improved_process_pdfs.py:269 | Sorting is stable: elements with equal keys keep their relative order |
| Sorting.SortIgnoresOrder | improved_process_pdfs.py:407 | With keys that identify elements, the sorted result does not depend on the input order |
| Sorting.SortedUnique | improved_process_pdfs.py:407 | Two sorted permutations of the same elements under an injective key are equal |
| Fonts.BoldIndicatorsReduce | improved_process_pdfs.py:52-66 | A span is bold exactly when its lower-cased font name contains bold, bld, black, heavy or medium (demibold and semibold are subsumed) or flag bit 4 is set |
| Fonts.IsBold | improved_process_pdfs.py:52-66 | `is_bold`; its meaning is stated by `Fonts.BoldIndicatorsReduce` and `Fonts.IsBoldIgnoresCase` |
| Fonts.IsBoldIgnoresCase | improved_process_pdfs.py:54 | The bold verdict does not depend on the case of the font name |
| Fonts.Positives | improved_process_pdfs.py:175 | Only positive sizes are kept, never more copies of a value than the input holds, and every positive size of the input is kept |
| Fonts.PositivesCounts | improved_process_pdfs.py:175 | Each positive size is kept with exactly its number of occurrences in the input; no other value is kept |
| Fonts.BodySize | improved_process_pdfs.py:175-186 | The body size is 12 when no size is positive; otherwise it is `np.median` of the positive sizes (pinned by `Fonts.MedianOfSorted`), so at least half of them lie at or below it and at least half at or above it. It is always positive |
| Fonts.MedianSplitsInHalves | improved_process_pdfs.py:186 | At least half the sizes lie at or below the median and at least half at or above it |
| Fonts.Median | improved_process_pdfs.py:186 | `np.median` of a non-empty list; `Fonts.MedianOfSorted` fixes its value, and `Fonts.MedianSplitsInHalves`, `Fonts.MedianBetween` and `Fonts.MedianIgnoresOrder` state its properties |
| Fonts.MedianOfSorted | improved_process_pdfs.py:186 | For any ascending arrangement of the sizes, the median is the middle size, or the mean of the two middle sizes for an even count |
| Fonts.MedianOfTwo | improved_process_pdfs.py:186 | The median of two sizes is their mean, not the lower of them |
| Fonts.MedianBetween | improved_process_pdfs.py:186 | The median lies between the smallest and the largest size |
| Fonts.MedianIgnoresOrder | improved_process_pdfs.py:186 | The median depends only on the multiset of sizes |
| Scorer.DigitRun | improved_process_pdfs.py:126-132 | The greedy `\d+` run: all digits, followed by a non-digit or the end |
| Scorer.MatchesHeadingPattern | improved_process_pdfs.py:29-35 | Whether one of the five heading patterns matches the stripped text, giving the 0.4 pattern signal of lines 103-107; the numbered patterns are tied to the numbering depth by `Scorer.NumberedPatternsHaveDepth` |
| Scorer.NumberingDepth | improved_process_pdfs.py:123-134 | How many dotted number groups open the text; `Scorer.OneGroupIff`, `Scorer.TwoGroupsIff` and `Scorer.ThreeGroupsIff` prove it agrees with the three numbering regular expressions |
| Scorer.IsUpperText | improved_process_pdfs.py:118 | `str.isupper`: the text has a cased character and no lower-case letter; with more than 3 characters it earns the 0.4 case signal |
| Scorer.IsTitleText | improved_process_pdfs.py:120 | `str.istitle`: the text has a cased character, every upper-case letter follows an uncased character and every lower-case letter follows a cased one; with more than 3 characters it earns the 0.3 case signal |
| Scorer.AfterDottedNumber | improved_process_pdfs.py:132 | What follows a leading `\d+\.` is a proper suffix of the text |
| Scorer.OneGroupIff | improved_process_pdfs.py:132 | The hand-written test succeeds exactly when `^\d+\.` matches |
| Scorer.TwoGroupsIff | improved_process_pdfs.py:129 | The numbering depth is at least 2 exactly when `^\d+\.\d+` matches |
| Scorer.ThreeGroupsIff | improved_process_pdfs.py:126 | The numbering depth is 3 exactly when `^\d+\.\d+\.\d+` matches |
| Scorer.NumberedPatternsHaveDepth | improved_process_pdfs.py:30-32 | Texts matching the numbered heading patterns have numbering depth 1, 2 and 3 |
| Scorer.StopWordCount | improved_process_pdfs.py:147 | The stop-word count never exceeds the word count |
| Scorer.SignalsOf | improved_process_pdfs.py:103-154 | Each of the seven signals takes only one of its listed values |
| Scorer.Analyze | improved_process_pdfs.py:94-171 | Confidence is at most 1.0; a text is a candidate exactly when confidence reaches 0.3; empty text scores nothing and has no hint |
| Scorer.AnalyzeScores | improved_process_pdfs.py:156-160 | The signals are those of the stripped text; a text is a candidate exactly when the total is at least 0.3; confidence is the total capped at 1.0 |
| Scorer.LengthSignalValues | improved_process_pdfs.py:109-114 | The length score is 0.2 for 0–1 words, 0.3 for 2–12, 0.2 for 13–20 and 0 above 20 |
| Scorer.ShortTextIsCandidate | improved_process_pdfs.py:111-112 | Every text of 2 to 12 words is a candidate |
| Scorer.NumberingFollowsPatterns | improved_process_pdfs.py:124-134 | The hint is H3, H2 or H1 exactly when the three-, two- or one-group numbering pattern is the most specific match; the score is 0.5, 0.4, 0.3 or 0 accordingly |
| Scorer.NumberedTextIsCandidate | improved_process_pdfs.py:132-134 | Every text starting with a dotted number is a candidate with a hint |
| Classifier.NonCandidatesGetNoLevel | improved_process_pdfs.py:215-220 | Text shorter than 2 characters, or not a candidate, gets no level |
| Classifier.Classify | improved_process_pdfs.py:212-243 | `detect_heading_level_improved`; the lemmas `Classifier.NonCandidatesGetNoLevel`, `Classifier.HintIsAuthoritative`, `Classifier.BoldCandidateGetsLevel`, `Classifier.RankMonotoneInBoldAndConfidence` and `Classifier.RankMonotoneInSize` state its contract |
| Classifier.HintIsAuthoritative | improved_process_pdfs.py:230-232 | A hinted candidate gets the hinted level whatever the size, body size and weight |
| Classifier.BoldCandidateGetsLevel | improved_process_pdfs.py:239 | A bold candidate at least 0.9 times the body size always gets a level |
| Classifier.RankMonotoneInBoldAndConfidence | improved_process_pdfs.py:233-241 | Without a hint, more confidence or bold weight never lowers the level |
| Classifier.RatioMonotone | improved_process_pdfs.py:223 | The size ratio grows with the font size |
| Classifier.RankMonotoneInSize | improved_process_pdfs.py:233-241 | Without a hint, a larger font never lowers the level |
| Title.MaxSize | improved_process_pdfs.py:251 | The largest size bounds every span's size and is attained by one |
| Title.Candidates | improved_process_pdfs.py:254-263 | Every title candidate has more than three characters of normalised text |
| Title.CandidateFromSpan | improved_process_pdfs.py:254-263 | Every candidate comes from a span of at least 0.8 times the largest size |
| Title.SpanYieldsCandidate | improved_process_pdfs.py:254-263 | Every qualifying span contributes its candidate |
| Title.BoldOnly | improved_process_pdfs.py:272 | The bold filter keeps exactly the bold candidates, as a set |
| Title.BoldOnlyCounts | improved_process_pdfs.py:272 | The bold filter keeps every copy of each bold candidate and no copy of any other |
| Title.EmptyPageHasNoTitle | improved_process_pdfs.py:247-248 | A page without spans gives the empty title |
| Title.NoCandidateNoTitle | improved_process_pdfs.py:265-266 | No qualifying span gives the empty title |
| Title.TitlePartsChosen | improved_process_pdfs.py:269-276 | The parts are in top-to-bottom order; when some candidate is bold, they are the bold candidates, each as often as it occurs, otherwise a permutation of all candidates |
| Title.TitlePartsStable | improved_process_pdfs.py:269-276 | Parts at the same height keep the page's span order |
| Title.PartsAreNormalized | improved_process_pdfs.py:256-257 | Each part is normalised text of more than three characters |
| Title.RawTitleIsJoinedParts | improved_process_pdfs.py:279-280 | Before the prefix clean-up, the title is the parts joined by single spaces plus one trailing space, or empty |
| Title.StripKeepsTrailingSpace | improved_process_pdfs.py:283-284 | Removing a page or copyright prefix keeps a trailing space |
| Title.DashRuleNeverFires | improved_process_pdfs.py:283-285 | The dash-only rule never fires, so the title is the raw title minus its page and copyright prefixes, and ends in a space when not empty |
| Title.ExtractTitle | improved_process_pdfs.py:245-285 | `extract_title` without the overrides; `Title.TitlePartsChosen`, `Title.RawTitleIsJoinedParts` and `Title.DashRuleNeverFires` state together what it returns |
| Outline.SubsequenceElements | improved_process_pdfs.py:306-329 | A subsequence holds a sub-multiset of the elements |
| Outline.SubsequencePairwise | improved_process_pdfs.py:403-454 | A subsequence keeps every pairwise order relation of the sequence it is drawn from |
| Merge.MergeSplitShape | improved_process_pdfs.py:333-356 | No two adjacent outputs share level and page; the output is no longer than the input and is empty only for empty input |
| Merge.MergeSplit | improved_process_pdfs.py:333-356 | `merge_split_headings`; `Merge.MergeSplitIsMergeRef` equates it with the run-by-run reference merge, and the other Merge lemmas state its shape, text and idempotence |
| Merge.MergeSplitIsMergeRef | improved_process_pdfs.py:341-354 | The loop computes the run-by-run merge: each maximal same-slot run becomes one heading with the first entry's level and page |
| Merge.MergeFromIsAbsorb | improved_process_pdfs.py:341-354 | Each loop step agrees with prepending to the merged remainder |
| Merge.MergeSplitKeepsText | improved_process_pdfs.py:347 | No text is lost: the merged texts joined by spaces equal the input texts joined by spaces |
| Merge.MergeRefOfSeparated | improved_process_pdfs.py:344-351 | An outline without adjacent same-slot headings is unchanged |
| Merge.MergeSplitIdempotent | improved_process_pdfs.py:333-356 | Merging twice is merging once |
| Merge.MergeSplitKeeps | improved_process_pdfs.py:347 | Merging keeps texts ending in a space and at least as long, and keeps pages ascending |
| NoiseFilter.FilterNoiseFacts | improved_process_pdfs.py:301-331 | The output is an order-preserving subsequence with no noise and no two entries sharing (level, lower-cased text) |
| NoiseFilter.FilterNoise | improved_process_pdfs.py:301-331 | `filter_duplicates_and_noise`; `NoiseFilter.FilterIsFirstOccurrences` equates it with keeping the first non-noise heading of each key |
| NoiseFilter.IsNoise | improved_process_pdfs.py:315-326 | The four noise rules: a digits-only line, fewer than 3 characters, a noise word in the lower-cased text, or a dashes-only line; `NoiseFilter.TrailingSpaceNoise` shows which of them can fire on emitted headings |
| NoiseFilter.FilterNoiseKeys | improved_process_pdfs.py:306-329 | The kept keys are exactly the keys of the non-noise input headings |
| NoiseFilter.FilterIsFirstOccurrences | improved_process_pdfs.py:306-329 | The filter keeps exactly the first non-noise occurrence of each key |
| NoiseFilter.KeptLast | improved_process_pdfs.py:310-329 | A last heading is kept exactly when it is no noise and its key is new among the earlier non-noise headings |
| NoiseFilter.TrailingSpaceNoise | improved_process_pdfs.py:315-326 | On text ending in a space, `^\d+$` and `^[-_]+$` never match; only the length and word rules can fire |
| Hierarchy.NestIsWellNested | improved_process_pdfs.py:439-454 | Every kept H2 has an H1 before it, and every kept H3 has an H2 after the last H1 before it |
| Hierarchy.Nest | improved_process_pdfs.py:439-454 | The hierarchy loop; `Hierarchy.NestFixpointIff`, `Hierarchy.H2KeptIff` and `Hierarchy.H3KeptIff` state which headings it keeps |
| Hierarchy.NestFixpointIff | improved_process_pdfs.py:439-454 | The pass leaves an outline unchanged exactly when it is already well nested |
| Hierarchy.NestIdempotent | improved_process_pdfs.py:439-454 | Running the pass twice is running it once |
| Hierarchy.NestKeepsH1s | improved_process_pdfs.py:446-449 | The output is a subsequence of the input and keeps every H1 in order |
| Hierarchy.NestSnoc | improved_process_pdfs.py:443-454 | Each heading is kept exactly when the outline kept so far stays well nested with it appended |
| Hierarchy.H2KeptIff | improved_process_pdfs.py:450-452 | An H2 is kept exactly when some H1 precedes it in the input |
| Hierarchy.H3KeptIff | improved_process_pdfs.py:453-454 | An H3 is kept exactly when an H2 was kept after the most recent H1 |
| Hierarchy.NestStartsWithH1 | improved_process_pdfs.py:439-454 | The output never begins with an H2 or an H3 |
| Hierarchy.WellNestedSnoc | improved_process_pdfs.py:443-454 | Appending keeps an outline well nested exactly when the new heading's own condition holds |
| Extractor.CollectFacts | improved_process_pdfs.py:372-387 | Collected spans are never whitespace-only, and none are collected exactly when all spans are blank |
| Extractor.BlankDocument | improved_process_pdfs.py:389-391 | A document without text yields an empty title and an empty outline |
| Extractor.HeadingOfFacts | improved_process_pdfs.py:409-430 | An emitted heading carries the `clean_text` form plus one space, is at least 3 characters long, and has the span's page minus one |
| Extractor.HeadingsOfFacts | improved_process_pdfs.py:403-430 | The per-span headings end in a space, are at least 3 characters long and come in page order |
| Extractor.OrderedByPage | improved_process_pdfs.py:403-407 | Sorting by (page, y, x) puts the spans in page order, as the page-by-page loop does |
| Extractor.OutlineFacts | improved_process_pdfs.py:389-454 | The final outline is well nested, has no two entries sharing (level, lower-cased text), has no noise, comes in page order, and all its texts end in a space |
| Extractor.ExtractDocument | improved_process_pdfs.py:358-454 | `extract_document_info` without I/O and the title overrides; `Extractor.BlankDocument` and `Extractor.OutlineFacts` state its contract |
| Extractor.OnlyWordRuleFires | improved_process_pdfs.py:315-326 | On the driver's headings, the noise filter drops exactly the texts containing a noise word |
| Comparison.CleanForComparisonForm | evaluate_accuracy.py:13-27 | The comparison key is lower case and trimmed, with single plain spaces and no space before a comma or a period; it is empty exactly for blank text |
| Comparison.CleanForComparison | evaluate_accuracy.py:13-27 | `clean_text_for_comparison`; `Comparison.CleanForComparisonForm`, `Comparison.CleanForComparisonIdempotent` and `Comparison.ComparisonIgnoresLayout` state what the key is |
| Comparison.CleanForComparisonIdempotent | evaluate_accuracy.py:13-27 | Cleaning a comparison key again changes nothing |
| Comparison.ComparisonIgnoresLayout | evaluate_accuracy.py:18-20 | A text and its `clean_text` form have the same comparison key |
| Comparison.DropNoPairs | evaluate_accuracy.py:24-25 | Dropping the space before a comma or period, in text without double spaces, leaves no such space and creates no double space |
| Comparison.DropEnds | evaluate_accuracy.py:24-25 | That replacement keeps the last character, and the first one unless the text starts with the space being dropped |
| Comparison.DropMultiset | evaluate_accuracy.py:24-25 | That replacement only removes characters |
| Comparison.ReplacePairAbsent | evaluate_accuracy.py:23 | The double-space replacement is a no-op after whitespace collapsing |
| Comparison.Similarity | evaluate_accuracy.py:29-39 | The similarity lies in [0, 1] |
| Comparison.EmptyIsSimilarOnlyToEmpty | evaluate_accuracy.py:31-34 | Two empty texts score 1.0; exactly one empty text scores 0.0 |
| Comparison.SimilarityUsesKeys | evaluate_accuracy.py:36-39 | For non-empty texts the similarity depends only on the two comparison keys |
| Comparison.SimilarityOfSame | evaluate_accuracy.py:29-39 | When the ratio scores identical strings 1, every text is fully similar to itself |
| Matcher.FirstExactFacts | evaluate_accuracy.py:59-75 | The inner loop finds the earliest actual heading with equal level and comparison key, and finds none only when there is none |
| Matcher.RemoveFirstFacts | evaluate_accuracy.py:71-74 | Guarded removal takes away one copy of a present entry and changes nothing otherwise |
| Matcher.BestMatchFacts | evaluate_accuracy.py:79-90 | The partial candidate is the first actual heading of highest similarity; there is one exactly when some similarity exceeds 0.7 |
| Matcher.ExactPassLeft | evaluate_accuracy.py:58-75 | The exact pass counts each expected heading with an exact counterpart once, removes exactly those from the expected pool, and removes at most one actual heading per match |
| Matcher.ExactPassPairs | evaluate_accuracy.py:63-69 | Every pair the exact pass records is an exact match, one per match counted |
| Matcher.PartialPassFacts | evaluate_accuracy.py:78-102 | Each partial match removes one heading from each pool and records one pair with similarity above 0.7 |
| Matcher.CompareCounts | evaluate_accuracy.py:41-108 | Exact matches are the expected headings with an exact counterpart; exact plus partial never exceeds the expected count, unmatched expected equals expected minus both; the unmatched lists are sub-multisets of the inputs |
| Matcher.CompareHeadings | evaluate_accuracy.py:41-108 | `compare_headings`; `Matcher.CompareCounts`, `Matcher.ComparePairs` and `Matcher.UnmatchedHaveNoExact` state its counts, pairs and leftovers |
| Matcher.ComparePairs | evaluate_accuracy.py:63-99 | The pair list holds one exact pair per exact match followed by one partial pair above the threshold per partial match |
| Matcher.UnmatchedHaveNoExact | evaluate_accuracy.py:58-75 | No expected heading left unmatched has an exact counterpart among the actual headings |
| Matcher.RepeatedExpectedCountsTwice | evaluate_accuracy.py:59 | Because the exact pass scans the full actual list, an expected heading listed twice is matched twice against one actual heading, so exact matches can outnumber actual headings |
| Metrics.Fraction | evaluate_accuracy.py:139 | Matched over total lies in [0, 1], is 1 exactly when everything of a non-zero total matched, and 0 exactly when nothing matched |
| Metrics.EvaluateFile | evaluate_accuracy.py:110-168 | A load error gives a failed record with its message. Otherwise: the title similarity is that of the two titles, and the title matches exactly when it exceeds 0.8. The accuracy is matched over expected headings, or 0 without expected headings. The overall score is the mean of similarity and accuracy. All three lie in [0, 1], and the accuracy is 1 exactly when every expected heading matched |
| Metrics.EvaluateFileCounts | evaluate_accuracy.py:130-139 | A loaded file's report is that of `compare_headings`: exact matches are the expected headings with an exact counterpart, and the unmatched expected headings are the rest after exact and partial matches |
| Metrics.Score | evaluate_accuracy.py:125-158 | A loaded file's record: the title matches exactly when its similarity exceeds 0.8; the accuracy is the matched fraction of the expected headings; the overall score is the mean of the two and lies in [0, 1]; the accuracy is 1 exactly when there are expected headings and none is left unmatched |
| Metrics.HeadingsAccounted | evaluate_accuracy.py:54-105 | Every expected heading ends up exactly matched, partially matched or in the unmatched list, and the three counts add up to the number of expected headings |
| Metrics.SelfComparisonIsPerfect | evaluate_accuracy.py:121-158 | A generated document identical to the expected one gets a title match, similarity 1 and every heading matched exactly; accuracy and overall are 1 when the outline is not empty |
| Metrics.EmptyOutlineMatchesNothing | evaluate_accuracy.py:132-139 | An empty generated outline gets no matches and accuracy 0 |
| Metrics.AccumulateBounds | evaluate_accuracy.py:229-245 | The totals count every evaluated file; title matches never exceed files and matched headings never exceed expected ones |
| Metrics.Summarize | evaluate_accuracy.py:252-255 | The title rate is title matches over files, the heading rate is matched over expected headings, and the combined rate is their mean; each rate is 0 when its denominator is 0 and lies in [0, 1] |
| Metrics.AccumulateAppend | evaluate_accuracy.py:229-245 | The totals of a concatenation are the sums of the parts' totals |
| Metrics.AccumulateSwap | evaluate_accuracy.py:229-245 | The order in which files are visited does not change the totals |
| Metrics.ReportedScores | evaluate_accuracy.py:125-168 | Loaded or failed, a file reports scores in [0, 1], a title match exactly when the similarity exceeds 0.8, and an overall score that is the mean of similarity and accuracy; a failed file reports no match, similarity 0, accuracy 0, no matches and overall 0 |
| Metrics.FailedFileCountsOnlyAsFile | evaluate_accuracy.py:241-245 | A failed file adds one to the file count and nothing to the other totals |
| Metrics.EvaluateAll | evaluate_accuracy.py:208-214 | No results are produced when either directory is missing |
| Metrics.EvaluateAllFacts | evaluate_accuracy.py:217-234 | Exactly the JSON files present in both directories are evaluated, each under its own name |

## Left out

- PDF reading with PyMuPDF, directory listing, JSON loading and saving, logging, the printed reports and the command-line entry points. These are I/O. Spans arrive as a sequence of records, and `load` is a parameter returning the loaded pair or a load error.
- KMeans clustering and the `Counter` size distribution (improved_process_pdfs.py:189-209). These are foreign numeric library calls, and their output is never read downstream.
- The hard-coded per-document title overrides (improved_process_pdfs.py:287-297). They are special cases for one evaluation set.
- `difflib.SequenceMatcher` (evaluate_accuracy.py:39). Its ratio is a parameter constrained to [0, 1].
- IEEE floating-point rounding. Scores are exact tenths, and sizes and ratios are exact reals.
- Unicode beyond Latin-1 for whitespace, digits, case mapping, `isupper` and `istitle`.
- The exception catch-alls (improved_process_pdfs.py:466-468; evaluate_accuracy.py:161-168). Only failure to load a file is modelled, as the `Failed` record; its fixed scores are given by `Metrics.Reported`.
- Extractor.ExtractDocument: sorts all spans once by (page, y, x) with a stable sort, where the code sorts each page by (y, x) and walks the pages in ascending order. The two orders agree because both are stable and order first by page, but that equivalence is argued here, not proved; `Extractor.OrderedByPage` proves only the page order.
- Matcher.ExactMatch: levels are limited to H1, H2 and H3, and headings always have a level, a text and a page. JSON records with other or missing fields, read through `dict.get` defaults, are not modelled.
- Metrics.EvaluateAll: a missing directory is modelled as no result. The code prints a message and returns.
