/** Typographic signals: bold detection (`is_bold`,
    improved_process_pdfs.py:52-66) and the body-text size baseline, the
    median part of `extract_font_statistics` (improved_process_pdfs.py:173-186). */
module Fonts {
  import opened Chars
  import opened Strings
  import opened Sorting

  /** Font-name fragments that mark a bold face. */
  const BoldIndicators: seq<string> := ["bold", "bld", "black", "heavy", "demibold", "semibold", "medium"]

  /** PyMuPDF's span flag word, bit 4 (`flags & 2**4`). Dafny's `/` floors
      for a positive divisor, like Python's `>>`, so this also agrees with
      Python on negative flag words. */
  predicate BoldFlag(flags: int) {
    (flags / 16) % 2 == 1
  }

  /** `is_bold`: a bold indicator inside the lower-cased font name, or the
      bold flag. */
  predicate IsBold(font: string, flags: int) {
    ContainsAny(Lower(font), BoldIndicators) || BoldFlag(flags)
  }

  /** "demibold" and "semibold" both contain "bold", so five indicators
      decide the same thing as the seven. */
  lemma BoldIndicatorsReduce(font: string, flags: int)
    ensures IsBold(font, flags) <==>
      (|| Contains(Lower(font), "bold") || Contains(Lower(font), "bld")
       || Contains(Lower(font), "black") || Contains(Lower(font), "heavy")
       || Contains(Lower(font), "medium") || BoldFlag(flags))
  {
    IndicatorsReduce(Lower(font));
  }

  lemma IndicatorsReduce(l: string)
    ensures ContainsAny(l, BoldIndicators) <==>
      (|| Contains(l, "bold") || Contains(l, "bld") || Contains(l, "black")
       || Contains(l, "heavy") || Contains(l, "medium"))
  {
    DemiAndSemiBold(l);
    if Contains(l, "bold") { assert Contains(l, BoldIndicators[0]); }
    if Contains(l, "bld") { assert Contains(l, BoldIndicators[1]); }
    if Contains(l, "black") { assert Contains(l, BoldIndicators[2]); }
    if Contains(l, "heavy") { assert Contains(l, BoldIndicators[3]); }
    if Contains(l, "medium") { assert Contains(l, BoldIndicators[6]); }
  }

  /** Text containing "demibold" or "semibold" contains "bold". */
  lemma DemiAndSemiBold(l: string)
    ensures Contains(l, "demibold") || Contains(l, "semibold") ==> Contains(l, "bold")
  {
    if Contains(l, "demibold") {
      assert "demibold"[4..8] == "bold";
      ContainsAt("demibold", "bold", 4);
      ContainsTransitive(l, "demibold", "bold");
    }
    if Contains(l, "semibold") {
      assert "semibold"[4..8] == "bold";
      ContainsAt("semibold", "bold", 4);
      ContainsTransitive(l, "semibold", "bold");
    }
  }

  /** Bold detection ignores the case of the font name. */
  lemma IsBoldIgnoresCase(font: string, flags: int)
    ensures IsBold(Lower(font), flags) == IsBold(font, flags)
  {
    LowerIdempotent(font);
  }

  // ---------------------------------------------------------------------
  // Median body size

  function RealKey(x: real): SortKey {
    SortKey(0, x, 0.0)
  }

  /** `np.median`: the middle element of the sorted values, or the mean of
      the two middle elements when there is an even number of them. */
  function Median(xs: seq<real>): real
    requires |xs| > 0
  {
    var s := SortBy(xs, RealKey);
    var n := |s|;
    if n % 2 == 1 then s[n / 2] else (s[n / 2 - 1] + s[n / 2]) / 2.0
  }

  /** `[size for size in sizes if size > 0]`. */
  function Positives(xs: seq<real>): (ps: seq<real>)
    ensures forall i :: 0 <= i < |ps| ==> ps[i] > 0.0
    ensures multiset(ps) <= multiset(xs)
    ensures forall x :: x in xs && x > 0.0 ==> x in ps
    decreases |xs|
  {
    if |xs| == 0 then []
    else
      var rest := Positives(xs[1..]);
      assert multiset(xs) == multiset{xs[0]} + multiset(xs[1..]) by {
        assert xs == [xs[0]] + xs[1..];
      }
      if xs[0] > 0.0 then
        assert multiset([xs[0]] + rest) == multiset{xs[0]} + multiset(rest);
        [xs[0]] + rest
      else rest
  }

  /** The filter keeps every copy of each positive size and no copy of
      anything else. */
  lemma {:induction false} PositivesCounts(xs: seq<real>)
    ensures forall x :: multiset(Positives(xs))[x] == (if x > 0.0 then multiset(xs)[x] else 0)
    decreases |xs|
  {
    if |xs| > 0 {
      PositivesCounts(xs[1..]);
      assert xs == [xs[0]] + xs[1..];
      assert multiset(xs) == multiset{xs[0]} + multiset(xs[1..]);
      assert Positives(xs) == (if xs[0] > 0.0 then [xs[0]] else []) + Positives(xs[1..]);
    }
  }

  /** The body-text size baseline `median_body_size`: the median of the
      positive sizes, 12 when there is none. */
  function BodySize(sizes: seq<real>): (m: real)
    ensures m > 0.0
    ensures |Positives(sizes)| == 0 ==> m == 12.0
    ensures var ps := Positives(sizes);
      |ps| > 0 ==> 2 * CountAtMost(ps, m) >= |ps| && 2 * CountAtLeast(ps, m) >= |ps|
    ensures |Positives(sizes)| > 0 ==> m == Median(Positives(sizes))
  {
    var ps := Positives(sizes);
    if |ps| == 0 then 12.0
    else
      MedianBetween(ps);
      MedianSplitsInHalves(ps);
      Median(ps)
  }

  function CountAtMost(xs: seq<real>, m: real): nat
    decreases |xs|
  {
    if |xs| == 0 then 0 else (if xs[0] <= m then 1 else 0) + CountAtMost(xs[1..], m)
  }

  function CountAtLeast(xs: seq<real>, m: real): nat
    decreases |xs|
  {
    if |xs| == 0 then 0 else (if xs[0] >= m then 1 else 0) + CountAtLeast(xs[1..], m)
  }

  lemma {:induction false} InsertCounts(x: real, s: seq<real>, m: real)
    ensures CountAtMost(Insert(x, s, RealKey), m) == CountAtMost(s, m) + (if x <= m then 1 else 0)
    ensures CountAtLeast(Insert(x, s, RealKey), m) == CountAtLeast(s, m) + (if x >= m then 1 else 0)
    decreases |s|
  {
    if |s| > 0 {
      if KeyLe(RealKey(x), RealKey(s[0])) {
        assert ([x] + s)[1..] == s;
      } else {
        InsertCounts(x, s[1..], m);
        assert ([s[0]] + Insert(x, s[1..], RealKey))[1..] == Insert(x, s[1..], RealKey);
      }
    }
  }

  lemma {:induction false} SortKeepsCounts(xs: seq<real>, m: real)
    ensures CountAtMost(SortBy(xs, RealKey), m) == CountAtMost(xs, m)
    ensures CountAtLeast(SortBy(xs, RealKey), m) == CountAtLeast(xs, m)
    decreases |xs|
  {
    if |xs| > 0 {
      SortKeepsCounts(xs[1..], m);
      InsertCounts(xs[0], SortBy(xs[1..], RealKey), m);
    }
  }

  /** In a sorted sequence, if the first `k` values are at most `m`, at least
      `k` values are; if the values from `k` on are at least `m`, at least
      `|s| - k` values are. */
  lemma {:induction false} PrefixCount(s: seq<real>, k: nat, m: real)
    requires k <= |s|
    requires forall i :: 0 <= i < k ==> s[i] <= m
    ensures CountAtMost(s, m) >= k
    decreases k
  {
    if k > 0 {
      PrefixCount(s[1..], k - 1, m);
    }
  }

  lemma {:induction false} SuffixCount(s: seq<real>, k: nat, m: real)
    requires k <= |s|
    requires forall i :: k <= i < |s| ==> s[i] >= m
    ensures CountAtLeast(s, m) >= |s| - k
    decreases |s|
  {
    if |s| > 0 {
      if k > 0 {
        SuffixCount(s[1..], k - 1, m);
      } else {
        SuffixCount(s[1..], 0, m);
      }
    }
  }

  lemma SortedAscending(s: seq<real>)
    requires SortedBy(s, RealKey)
    ensures forall i, j :: 0 <= i < j < |s| ==> s[i] <= s[j]
  {
    forall i, j | 0 <= i < j < |s| ensures s[i] <= s[j] {
      assert KeyLe(RealKey(s[i]), RealKey(s[j]));
    }
  }

  /** The defining property of a median: at least half of the values are
      at most it, and at least half are at least it. */
  lemma MedianSplitsInHalves(xs: seq<real>)
    requires |xs| > 0
    ensures 2 * CountAtMost(xs, Median(xs)) >= |xs|
    ensures 2 * CountAtLeast(xs, Median(xs)) >= |xs|
  {
    var s := SortBy(xs, RealKey);
    var m := Median(xs);
    SortKeepsCounts(xs, m);
    SortedAscending(s);
    SortedSplits(s, m);
  }

  /** On ascending values, a point between the two middle elements has
      half of the values on each side. */
  lemma SortedSplits(s: seq<real>, m: real)
    requires |s| > 0
    requires forall i, j :: 0 <= i < j < |s| ==> s[i] <= s[j]
    requires var n := |s|; var lo := if n % 2 == 1 then n / 2 else n / 2 - 1;
      s[lo] <= m <= s[n / 2]
    ensures 2 * CountAtMost(s, m) >= |s|
    ensures 2 * CountAtLeast(s, m) >= |s|
  {
    var n := |s|;
    var lo := if n % 2 == 1 then n / 2 else n / 2 - 1;
    var hi := n / 2;
    forall i | 0 <= i <= lo ensures s[i] <= m {
      if i < lo { assert s[i] <= s[lo]; }
    }
    forall i | hi <= i < n ensures s[i] >= m {
      if i > hi { assert s[hi] <= s[i]; }
    }
    PrefixCount(s, lo + 1, m);
    SuffixCount(s, hi, m);
  }

  /** The median lies between two of the values. */
  lemma MedianBetween(xs: seq<real>)
    requires |xs| > 0
    ensures exists i :: 0 <= i < |xs| && xs[i] <= Median(xs)
    ensures exists j :: 0 <= j < |xs| && Median(xs) <= xs[j]
  {
    var s := SortBy(xs, RealKey);
    var n := |s|;
    var lo := if n % 2 == 1 then n / 2 else n / 2 - 1;
    assert KeyLe(RealKey(s[lo]), RealKey(s[n / 2]));
    assert s[lo] in multiset(xs) && s[n / 2] in multiset(xs);
    var i :| 0 <= i < |xs| && xs[i] == s[lo];
    var j :| 0 <= j < |xs| && xs[j] == s[n / 2];
  }

  /** `np.median` pinned down: for any ascending arrangement `s` of the
      values, the median is its middle element, or the mean of its two
      middle elements when there is an even number of them. */
  lemma MedianOfSorted(xs: seq<real>, s: seq<real>)
    requires |xs| > 0
    requires forall i, j :: 0 <= i < j < |s| ==> s[i] <= s[j]
    requires multiset(s) == multiset(xs)
    ensures |s| == |xs|
    ensures Median(xs) == (if |s| % 2 == 1 then s[|s| / 2] else (s[|s| / 2 - 1] + s[|s| / 2]) / 2.0)
  {
    assert |s| == |multiset(s)| == |multiset(xs)| == |xs|;
    assert SortedBy(s, RealKey) by {
      forall i, j | 0 <= i < j < |s| ensures KeyLe(RealKey(s[i]), RealKey(s[j])) {
        assert s[i] <= s[j];
      }
    }
    SortedUnique(SortBy(xs, RealKey), s, RealKey);
  }

  /** With two sizes the median is their mean, not the lower one. */
  lemma MedianOfTwo(a: real, b: real)
    requires a <= b
    ensures Median([a, b]) == (a + b) / 2.0
  {
    MedianOfSorted([a, b], [a, b]);
  }

  /** The median does not depend on the order of the values. */
  lemma MedianIgnoresOrder(xs: seq<real>, ys: seq<real>)
    requires |xs| > 0 && multiset(xs) == multiset(ys)
    ensures |ys| > 0 && Median(xs) == Median(ys)
  {
    assert |xs| == |multiset(xs)| == |multiset(ys)| == |ys|;
    SortIgnoresOrder(xs, ys, RealKey);
  }
}
