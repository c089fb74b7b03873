/** The evaluator's text comparison: `clean_text_for_comparison` and
    `calculate_text_similarity` (evaluate_accuracy.py:13-39). The
    similarity measure itself, `SequenceMatcher(...).ratio()`, is a
    parameter. */
module Comparison {
  import opened Chars
  import opened Strings
  import opened TextNorm

  /** `.replace(' ' + c, c)`: drop the space in front of every `c`. */
  function DropSpaceBefore(s: string, c: char): string {
    Replace(s, [' ', c], [c])
  }

  /** `clean_text_for_comparison`. */
  function CleanForComparison(t: string): string {
    if t == [] then []
    else Lower(DropSpaceBefore(DropSpaceBefore(Replace(Squeeze(t), "  ", " "), ','), '.'))
  }

  /** The shape of a comparison key: trimmed, single plain spaces, no space
      in front of a comma or a period, and no upper-case letter. */
  predicate ComparisonForm(r: string) {
    Normalized(r) && NoPair(r, ' ', ',') && NoPair(r, ' ', '.')
    && forall i :: 0 <= i < |r| ==> !IsUpperLetter(r[i])
  }

  // ---------------------------------------------------------------------
  // Lemmas about the steps

  /** Replacing a two-character pattern that does not occur changes
      nothing. */
  lemma {:induction false} ReplacePairAbsent(s: string, a: char, b: char, repl: string)
    requires NoPair(s, a, b)
    ensures Replace(s, [a, b], repl) == s
    decreases |s|
  {
    if |s| >= 2 {
      assert s[..2] != [a, b] by {
        assert s[..2][0] == s[0] && s[..2][1] == s[1];
      }
      ReplacePairAbsent(s[1..], a, b, repl);
      assert [s[0]] + s[1..] == s;
    }
  }

  lemma DropCons(s: string, c: char)
    ensures |s| < 2 ==> DropSpaceBefore(s, c) == s
    ensures |s| >= 2 && s[0] == ' ' && s[1] == c ==> DropSpaceBefore(s, c) == [c] + DropSpaceBefore(s[2..], c)
    ensures |s| >= 2 && !(s[0] == ' ' && s[1] == c) ==> DropSpaceBefore(s, c) == [s[0]] + DropSpaceBefore(s[1..], c)
  {
    if |s| >= 2 {
      assert s[..2][0] == s[0] && s[..2][1] == s[1];
      assert s[..2] == [' ', c] <==> s[0] == ' ' && s[1] == c;
    }
  }

  lemma NoPairCons(x: char, t: string, a: char, b: char)
    ensures NoPair([x] + t, a, b) <==> (|t| == 0 || !(x == a && t[0] == b)) && NoPair(t, a, b)
  {
    assert ([x] + t)[1..] == t;
  }

  /** Dropping spaces keeps the last character, and the first one unless
      the text starts with the space being dropped. */
  lemma {:induction false} DropEnds(s: string, c: char)
    ensures var r := DropSpaceBefore(s, c);
      |r| <= |s| && (|r| == 0 <==> |s| == 0)
      && (|s| > 0 ==> r[0] == (if |s| >= 2 && s[0] == ' ' && s[1] == c then c else s[0]))
      && (|s| > 0 ==> r[|r| - 1] == s[|s| - 1])
    decreases |s|
  {
    DropCons(s, c);
    if |s| >= 2 {
      if s[0] == ' ' && s[1] == c {
        DropEnds(s[2..], c);
      } else {
        DropEnds(s[1..], c);
      }
    }
  }

  /** Dropping only ever removes characters. */
  lemma {:induction false} DropMultiset(s: string, c: char)
    ensures multiset(DropSpaceBefore(s, c)) <= multiset(s)
    decreases |s|
  {
    if |s| >= 2 {
      if s[0] == ' ' && s[1] == c {
        DropMultiset(s[2..], c);
      } else {
        DropMultiset(s[1..], c);
      }
    }
    DropStepMultiset(s, c);
  }

  /** One step of the replacement removes at most the space it drops. */
  lemma DropStepMultiset(s: string, c: char)
    requires |s| >= 2 && s[0] == ' ' && s[1] == c ==>
      multiset(DropSpaceBefore(s[2..], c)) <= multiset(s[2..])
    requires |s| >= 2 && !(s[0] == ' ' && s[1] == c) ==>
      multiset(DropSpaceBefore(s[1..], c)) <= multiset(s[1..])
    ensures multiset(DropSpaceBefore(s, c)) <= multiset(s)
  {
    DropCons(s, c);
    if |s| >= 2 {
      if s[0] == ' ' && s[1] == c {
        assert s == s[..2] + s[2..];
        assert s[..2][1] == c;
        ConcatSubMultiset([c], s[..2], DropSpaceBefore(s[2..], c), s[2..]);
      } else {
        assert s == s[..1] + s[1..];
        ConcatSubMultiset([s[0]], s[..1], DropSpaceBefore(s[1..], c), s[1..]);
      }
    }
  }

  lemma ConcatSubMultiset(p: string, q: string, r: string, t: string)
    requires multiset(p) <= multiset(q) && multiset(r) <= multiset(t)
    ensures multiset(p + r) <= multiset(q + t)
  {
  }

  /** In text without double spaces, dropping the spaces in front of `c`
      leaves no space before `c`, creates no double space, and creates no
      space before any other character `d` either. */
  lemma {:induction false} DropNoPairs(s: string, c: char, d: char)
    requires c != ' ' && d != ' ' && NoPair(s, ' ', ' ')
    ensures var r := DropSpaceBefore(s, c);
      NoPair(r, ' ', c) && NoPair(r, ' ', ' ') && (NoPair(s, ' ', d) ==> NoPair(r, ' ', d))
    decreases |s|
  {
    DropCons(s, c);
    if |s| >= 2 {
      if s[0] == ' ' && s[1] == c {
        var t := s[2..];
        NoPairCons(s[0], s[1..], ' ', ' ');
        NoPairCons(s[1], t, ' ', ' ');
        assert s[1..] == [s[1]] + t;
        assert s == [s[0]] + s[1..];
        DropNoPairs(t, c, d);
        if NoPair(s, ' ', d) {
          NoPairCons(s[0], s[1..], ' ', d);
          NoPairCons(s[1], t, ' ', d);
        }
        var rt := DropSpaceBefore(t, c);
        NoPairCons(c, rt, ' ', c);
        NoPairCons(c, rt, ' ', ' ');
        NoPairCons(c, rt, ' ', d);
      } else {
        var t := s[1..];
        assert s == [s[0]] + t;
        NoPairCons(s[0], t, ' ', ' ');
        DropNoPairs(t, c, d);
        DropEnds(t, c);
        var rt := DropSpaceBefore(t, c);
        if NoPair(s, ' ', d) {
          NoPairCons(s[0], t, ' ', d);
        }
        NoPairCons(s[0], rt, ' ', c);
        NoPairCons(s[0], rt, ' ', ' ');
        NoPairCons(s[0], rt, ' ', d);
      }
    }
  }

  /** Lower-casing keeps "no `a` before `b`" for characters lower-casing
      leaves alone. */
  lemma {:induction false} NoPairLower(s: string, a: char, b: char)
    requires forall x: char :: LowerChar(x) == a <==> x == a
    requires forall x: char :: LowerChar(x) == b <==> x == b
    requires NoPair(s, a, b)
    ensures NoPair(Lower(s), a, b)
    decreases |s|
  {
    if |s| >= 2 {
      NoPairLower(s[1..], a, b);
      assert Lower(s)[1..] == Lower(s[1..]);
    }
  }

  lemma SpaceCommaDotFixed()
    ensures forall x: char :: LowerChar(x) == ' ' <==> x == ' '
    ensures forall x: char :: LowerChar(x) == ',' <==> x == ','
    ensures forall x: char :: LowerChar(x) == '.' <==> x == '.'
  {
    forall x: char ensures (LowerChar(x) == ' ' <==> x == ' ') && (LowerChar(x) == ',' <==> x == ',') && (LowerChar(x) == '.' <==> x == '.') {
      LowerCharKeepsClasses(x);
    }
  }

  /** The two punctuation steps keep normalized text normalized and leave
      no space before a comma or a period. */
  lemma DropPunctuationSpaces(q: string)
    requires Normalized(q)
    ensures var v := DropSpaceBefore(DropSpaceBefore(q, ','), '.');
      Normalized(v) && NoPair(v, ' ', ',') && NoPair(v, ' ', '.') && (|v| == 0 <==> |q| == 0)
  {
    NormalizedFacts(q);
    var u := DropSpaceBefore(q, ',');
    DropEnds(q, ',');
    DropMultiset(q, ',');
    DropNoPairs(q, ',', '.');
    var v := DropSpaceBefore(u, '.');
    DropEnds(u, '.');
    DropMultiset(u, '.');
    DropNoPairs(u, '.', ',');
    assert Trimmed(v) by {
      if |v| > 0 {
        assert u[0] == q[0];
        assert v[0] == u[0];
      }
    }
    assert OnlyPlainSpaces(v) by {
      forall i | 0 <= i < |v| && IsSpace(v[i]) ensures v[i] == ' ' {
        assert v[i] in multiset(v);
        assert v[i] in multiset(q);
      }
    }
  }

  /** Lower-casing text of that shape gives a comparison key. */
  lemma LowerKeepsForm(v: string)
    requires Normalized(v) && NoPair(v, ' ', ',') && NoPair(v, ' ', '.')
    ensures ComparisonForm(Lower(v))
  {
    var r := Lower(v);
    SpaceCommaDotFixed();
    NoPairLower(v, ' ', ' ');
    NoPairLower(v, ' ', ',');
    NoPairLower(v, ' ', '.');
    forall i | 0 <= i < |v| ensures IsSpace(r[i]) <==> IsSpace(v[i]) {
      LowerCharKeepsClasses(v[i]);
    }
  }

  /** The comparison key is in comparison form, and it is empty exactly for
      blank text. */
  lemma CleanForComparisonForm(t: string)
    ensures ComparisonForm(CleanForComparison(t))
    ensures CleanForComparison(t) == [] <==> AllSpace(t)
  {
    if t != [] {
      var q := Squeeze(t);
      SqueezeFacts(t);
      ReplacePairAbsent(q, ' ', ' ', " ");
      assert Replace(q, "  ", " ") == q;
      DropPunctuationSpaces(q);
      LowerKeepsForm(DropSpaceBefore(DropSpaceBefore(q, ','), '.'));
    }
  }

  lemma LowerOfLower(s: string)
    requires forall i :: 0 <= i < |s| ==> !IsUpperLetter(s[i])
    ensures Lower(s) == s
  {
  }

  /** Cleaning a comparison key again changes nothing. */
  lemma CleanForComparisonIdempotent(t: string)
    ensures CleanForComparison(CleanForComparison(t)) == CleanForComparison(t)
  {
    var c := CleanForComparison(t);
    CleanForComparisonForm(t);
    if c != [] {
      SqueezeFacts(c);
      CollapseFixpoint(c);
      assert Squeeze(c) == c;
      ReplacePairAbsent(c, ' ', ' ', " ");
      assert Replace(c, "  ", " ") == c;
      ReplacePairAbsent(c, ' ', ',', ",");
      ReplacePairAbsent(c, ' ', '.', ".");
      LowerOfLower(c);
    }
  }

  /** Whitespace layout does not matter: a text and its `clean_text` form
      compare the same. */
  lemma ComparisonIgnoresLayout(t: string)
    ensures CleanForComparison(CleanText(t)) == CleanForComparison(t)
  {
    if t != [] && !AllSpace(t) {
      var q := Squeeze(t);
      SqueezeFacts(t);
      assert CleanText(t) == q;
      SqueezeFacts(q);
      CollapseFixpoint(q);
    }
  }

  // ---------------------------------------------------------------------
  // Similarity

  /** `SequenceMatcher(None, a, b).ratio()` always lies between 0 and 1. */
  ghost predicate ValidRatio(ratio: (string, string) -> real) {
    forall a, b :: 0.0 <= ratio(a, b) <= 1.0
  }

  /** `calculate_text_similarity`: 1 for two empty texts, 0 when exactly
      one is empty, otherwise the ratio of the comparison keys. */
  function Similarity(t1: string, t2: string, ratio: (string, string) -> real): (r: real)
    requires ValidRatio(ratio)
    ensures 0.0 <= r <= 1.0
  {
    if t1 == [] && t2 == [] then 1.0
    else if t1 == [] || t2 == [] then 0.0
    else ratio(CleanForComparison(t1), CleanForComparison(t2))
  }

  /** Similarity only sees the comparison keys of non-empty texts. */
  lemma SimilarityUsesKeys(t1: string, t2: string, u1: string, u2: string, ratio: (string, string) -> real)
    requires ValidRatio(ratio)
    requires t1 != [] && t2 != [] && u1 != [] && u2 != []
    requires CleanForComparison(t1) == CleanForComparison(u1)
    requires CleanForComparison(t2) == CleanForComparison(u2)
    ensures Similarity(t1, t2, ratio) == Similarity(u1, u2, ratio)
  {
  }

  /** When the ratio scores identical strings 1, every text is fully similar
      to itself. */
  lemma SimilarityOfSame(t: string, ratio: (string, string) -> real)
    requires ValidRatio(ratio)
    requires forall s :: ratio(s, s) == 1.0
    ensures Similarity(t, t, ratio) == 1.0
  {
  }

  /** An empty text is similar only to the empty text. */
  lemma EmptyIsSimilarOnlyToEmpty(t: string, ratio: (string, string) -> real)
    requires ValidRatio(ratio)
    ensures Similarity([], t, ratio) == (if t == [] then 1.0 else 0.0)
    ensures Similarity(t, [], ratio) == (if t == [] then 1.0 else 0.0)
  {
  }
}
