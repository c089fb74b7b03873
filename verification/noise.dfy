/** `filter_duplicates_and_noise` (improved_process_pdfs.py:301-331): drop
    page numbers, very short texts, header and footer boilerplate and
    dash-only lines, and keep only the first heading of each
    (level, lower-cased text) key. */
module NoiseFilter {
  import opened Chars
  import opened Strings
  import opened Outline
  import opened Merge

  /** The text without one final newline, which `$` lets a pattern skip. */
  function LineBody(t: string): string {
    if |t| > 0 && t[|t| - 1] == '\n' then t[..|t| - 1] else t
  }

  /** `^\d+$`: the text is a run of digits. */
  predicate DigitLine(t: string) {
    var b := LineBody(t);
    |b| > 0 && forall i :: 0 <= i < |b| ==> IsDigit(b[i])
  }

  predicate IsDash(c: char) {
    c == '-' || c == '_'
  }

  /** `^[-_]+$`: the text is a run of dashes and underscores. */
  predicate DashLine(t: string) {
    var b := LineBody(t);
    |b| > 0 && forall i :: 0 <= i < |b| ==> IsDash(b[i])
  }

  /** Header and footer words, searched for in the lower-cased text. */
  const NoiseWords: seq<string> := ["page", "p\U{E1}gina", "seite", "copyright", "confidential", "draft"]

  /** The four noise rules, in the order the filter tries them. */
  predicate IsNoise(t: string) {
    DigitLine(t) || |t| < 3 || ContainsAny(Lower(t), NoiseWords) || DashLine(t)
  }

  /** The deduplication key: level and lower-cased text. */
  datatype Key = Key(level: Level, folded: string)

  function KeyOf(h: Heading): Key {
    Key(h.level, Lower(h.text))
  }

  /** The filter loop with the keys already in `seen`; a key is recorded
      only for a heading that is kept. */
  function FilterFrom(hs: seq<Heading>, seen: set<Key>): seq<Heading>
    decreases |hs|
  {
    if |hs| == 0 then []
    else if KeyOf(hs[0]) in seen || IsNoise(hs[0].text) then FilterFrom(hs[1..], seen)
    else [hs[0]] + FilterFrom(hs[1..], seen + {KeyOf(hs[0])})
  }

  function FilterNoise(hs: seq<Heading>): seq<Heading> {
    FilterFrom(hs, {})
  }

  function KeysOf(hs: seq<Heading>): set<Key> {
    set j | 0 <= j < |hs| :: KeyOf(hs[j])
  }

  /** The keys of the headings that are not noise. */
  function NonNoiseKeys(hs: seq<Heading>): set<Key> {
    set j | 0 <= j < |hs| && !IsNoise(hs[j].text) :: KeyOf(hs[j])
  }

  lemma {:induction false} FilterFromFacts(hs: seq<Heading>, seen: set<Key>)
    ensures var r := FilterFrom(hs, seen);
      IsSubsequence(r, hs)
      && (forall i :: 0 <= i < |r| ==> !IsNoise(r[i].text) && KeyOf(r[i]) !in seen)
      && (forall i, j :: 0 <= i < j < |r| ==> KeyOf(r[i]) != KeyOf(r[j]))
    decreases |hs|
  {
    if |hs| > 0 {
      assert [hs[0]] + hs[1..] == hs;
      var k := KeyOf(hs[0]);
      if k in seen || IsNoise(hs[0].text) {
        FilterFromFacts(hs[1..], seen);
        SubsequenceCons(hs[0], FilterFrom(hs[1..], seen), hs[1..]);
      } else {
        var tail := FilterFrom(hs[1..], seen + {k});
        FilterFromFacts(hs[1..], seen + {k});
        SubsequenceCons(hs[0], tail, hs[1..]);
        var r := [hs[0]] + tail;
        forall i | 0 <= i < |r| ensures !IsNoise(r[i].text) && KeyOf(r[i]) !in seen {
          if i > 0 { assert r[i] == tail[i - 1]; }
        }
        forall i, j | 0 <= i < j < |r| ensures KeyOf(r[i]) != KeyOf(r[j]) {
          assert r[j] == tail[j - 1];
          if i > 0 { assert r[i] == tail[i - 1]; }
        }
      }
    } else {
      SubsequenceOfSelf(hs);
    }
  }

  /** The filter keeps an order-preserving selection of its input with no
      noise in it and no two headings sharing a key. */
  lemma FilterNoiseFacts(hs: seq<Heading>)
    ensures var r := FilterNoise(hs);
      IsSubsequence(r, hs)
      && (forall i :: 0 <= i < |r| ==> !IsNoise(r[i].text))
      && (forall i, j :: 0 <= i < j < |r| ==> KeyOf(r[i]) != KeyOf(r[j]))
  {
    FilterFromFacts(hs, {});
  }

  lemma NonNoiseKeysCons(x: Heading, hs: seq<Heading>)
    ensures NonNoiseKeys([x] + hs) == NonNoiseKeys(hs) + (if IsNoise(x.text) then {} else {KeyOf(x)})
  {
    var s := [x] + hs;
    forall key | key in NonNoiseKeys(s) ensures key in NonNoiseKeys(hs) + (if IsNoise(x.text) then {} else {KeyOf(x)}) {
      var j :| 0 <= j < |s| && !IsNoise(s[j].text) && KeyOf(s[j]) == key;
      if j > 0 { assert s[j] == hs[j - 1]; }
    }
    forall key | key in NonNoiseKeys(hs) ensures key in NonNoiseKeys(s) {
      var j :| 0 <= j < |hs| && !IsNoise(hs[j].text) && KeyOf(hs[j]) == key;
      assert s[j + 1] == hs[j];
    }
    assert s[0] == x;
  }

  lemma KeysOfCons(x: Heading, hs: seq<Heading>)
    ensures KeysOf([x] + hs) == {KeyOf(x)} + KeysOf(hs)
  {
    var s := [x] + hs;
    forall key | key in KeysOf(s) ensures key in {KeyOf(x)} + KeysOf(hs) {
      var j :| 0 <= j < |s| && KeyOf(s[j]) == key;
      if j > 0 { assert s[j] == hs[j - 1]; }
    }
    forall key | key in KeysOf(hs) ensures key in KeysOf(s) {
      var j :| 0 <= j < |hs| && KeyOf(hs[j]) == key;
      assert s[j + 1] == hs[j];
    }
    assert s[0] == x;
  }

  lemma {:induction false} FilterFromKeys(hs: seq<Heading>, seen: set<Key>)
    ensures seen + KeysOf(FilterFrom(hs, seen)) == seen + NonNoiseKeys(hs)
    decreases |hs|
  {
    if |hs| > 0 {
      var k := KeyOf(hs[0]);
      assert [hs[0]] + hs[1..] == hs;
      NonNoiseKeysCons(hs[0], hs[1..]);
      if k in seen || IsNoise(hs[0].text) {
        FilterFromKeys(hs[1..], seen);
      } else {
        FilterFromKeys(hs[1..], seen + {k});
        KeysOfCons(hs[0], FilterFrom(hs[1..], seen + {k}));
      }
    }
  }

  /** Every key of a heading that is not noise survives the filter, and
      nothing else does: the output has exactly one heading per such key. */
  lemma FilterNoiseKeys(hs: seq<Heading>)
    ensures KeysOf(FilterNoise(hs)) == NonNoiseKeys(hs)
  {
    FilterFromKeys(hs, {});
  }

  // ---------------------------------------------------------------------
  // Reference: the first occurrence of each key

  /** Heading `i` is the first heading of its key that is not noise. */
  predicate KeptAt(hs: seq<Heading>, i: nat)
    requires i < |hs|
  {
    !IsNoise(hs[i].text) && forall j :: 0 <= j < i ==> IsNoise(hs[j].text) || KeyOf(hs[j]) != KeyOf(hs[i])
  }

  /** The headings `KeptAt` selects, in input order. */
  function FirstOccurrences(hs: seq<Heading>): seq<Heading>
    decreases |hs|
  {
    if |hs| == 0 then []
    else FirstOccurrences(hs[..|hs| - 1]) + (if KeptAt(hs, |hs| - 1) then [hs[|hs| - 1]] else [])
  }

  lemma KeptLast(p: seq<Heading>, x: Heading)
    ensures KeptAt(p + [x], |p|) <==> !IsNoise(x.text) && KeyOf(x) !in NonNoiseKeys(p)
  {
    var s := p + [x];
    assert s[|p|] == x;
    if !IsNoise(x.text) && KeyOf(x) in NonNoiseKeys(p) {
      var j :| 0 <= j < |p| && !IsNoise(p[j].text) && KeyOf(p[j]) == KeyOf(x);
      assert s[j] == p[j];
    }
    if !KeptAt(s, |p|) && !IsNoise(x.text) {
      var j :| 0 <= j < |p| && !IsNoise(s[j].text) && KeyOf(s[j]) == KeyOf(x);
      assert s[j] == p[j];
    }
  }

  lemma NonNoiseKeysSnoc(p: seq<Heading>, x: Heading)
    ensures NonNoiseKeys(p + [x]) == NonNoiseKeys(p) + (if IsNoise(x.text) then {} else {KeyOf(x)})
    ensures IsNoise(x.text) || KeyOf(x) in NonNoiseKeys(p) ==> NonNoiseKeys(p + [x]) == NonNoiseKeys(p)
  {
    var s := p + [x];
    forall key | key in NonNoiseKeys(s) ensures key in NonNoiseKeys(p) + (if IsNoise(x.text) then {} else {KeyOf(x)}) {
      var j :| 0 <= j < |s| && !IsNoise(s[j].text) && KeyOf(s[j]) == key;
      if j < |p| { assert s[j] == p[j]; }
    }
    forall key | key in NonNoiseKeys(p) ensures key in NonNoiseKeys(s) {
      var j :| 0 <= j < |p| && !IsNoise(p[j].text) && KeyOf(p[j]) == key;
      assert s[j] == p[j];
    }
    assert s[|p|] == x;
  }

  lemma FilterFromCons(x: Heading, rest: seq<Heading>, seen: set<Key>)
    ensures FilterFrom([x] + rest, seen)
      == if KeyOf(x) in seen || IsNoise(x.text) then FilterFrom(rest, seen)
         else [x] + FilterFrom(rest, seen + {KeyOf(x)})
  {
    assert ([x] + rest)[1..] == rest;
  }

  lemma FirstOccurrencesSnoc(p: seq<Heading>, x: Heading)
    ensures KeptAt(p + [x], |p|) ==> FirstOccurrences(p + [x]) == FirstOccurrences(p) + [x]
    ensures !KeptAt(p + [x], |p|) ==> FirstOccurrences(p + [x]) == FirstOccurrences(p)
  {
    assert (p + [x])[..|p|] == p;
    assert FirstOccurrences(p) + [] == FirstOccurrences(p);
  }

  /** One step of the split: handing `x` from the unvisited part `s` to the
      visited prefix `p`. */
  lemma FilterSplitStep(p: seq<Heading>, x: Heading, rest: seq<Heading>, s: seq<Heading>, whole: seq<Heading>)
    requires s == [x] + rest && whole == p + s
    requires FirstOccurrences(whole) == FirstOccurrences(p + [x]) + FilterFrom(rest, NonNoiseKeys(p + [x]))
    ensures FirstOccurrences(whole) == FirstOccurrences(p) + FilterFrom(s, NonNoiseKeys(p))
  {
    var seen, k := NonNoiseKeys(p), KeyOf(x);
    var a, b := FirstOccurrences(p), FilterFrom(rest, NonNoiseKeys(p + [x]));
    FirstOccurrencesSnoc(p, x);
    KeptLast(p, x);
    NonNoiseKeysSnoc(p, x);
    FilterFromCons(x, rest, seen);
    if !IsNoise(x.text) && k !in seen {
      ConcatAssoc(a, [x], b);
    }
  }

  lemma {:induction false} FilterSplit(p: seq<Heading>, s: seq<Heading>)
    ensures FirstOccurrences(p + s) == FirstOccurrences(p) + FilterFrom(s, NonNoiseKeys(p))
    decreases |s|
  {
    if |s| == 0 {
      assert p + s == p;
    } else {
      var x, rest := s[0], s[1..];
      assert s == [x] + rest;
      ConcatAssoc(p, [x], rest);
      FilterSplit(p + [x], rest);
      FilterSplitStep(p, x, rest, s, p + s);
    }
  }

  /** The filter loop keeps exactly the first heading of each key among the
      headings that are not noise. */
  lemma FilterIsFirstOccurrences(hs: seq<Heading>)
    ensures FilterNoise(hs) == FirstOccurrences(hs)
  {
    FilterSplit([], hs);
    assert [] + hs == hs;
    assert NonNoiseKeys([]) == {};
  }

  /** A text ending in a space can never be a digit line or a dash line, so
      for such texts only the length and word rules can fire. */
  lemma TrailingSpaceNoise(t: string)
    requires EndsInSpace(t)
    ensures IsNoise(t) <==> |t| < 3 || ContainsAny(Lower(t), NoiseWords)
  {
    assert LineBody(t) == t;
    assert !IsDigit(t[|t| - 1]) && !IsDash(t[|t| - 1]);
  }
}
