/** `compare_headings` (evaluate_accuracy.py:41-108): an exact pass pairs
    every expected heading with the first actual heading of the same level
    and the same comparison key; a partial pass then pairs each expected
    heading still unmatched with the most similar actual heading still
    unmatched, when that similarity exceeds 0.7. */
module Matcher {
  import opened Outline
  import opened Comparison

  /** Same level and the same comparison key. */
  predicate ExactMatch(e: Heading, a: Heading) {
    e.level == a.level && CleanForComparison(e.text) == CleanForComparison(a.text)
  }

  predicate HasExact(e: Heading, acts: seq<Heading>) {
    exists i :: 0 <= i < |acts| && ExactMatch(e, acts[i])
  }

  /** The first heading of `acts` that matches `e` exactly (the inner loop
      of the exact pass, which stops at the first hit). */
  function FirstExact(e: Heading, acts: seq<Heading>): Option<Heading>
    decreases |acts|
  {
    if |acts| == 0 then None
    else if ExactMatch(e, acts[0]) then Some(acts[0])
    else FirstExact(e, acts[1..])
  }

  /** `if x in s: s.remove(x)`: drop the first entry equal to `x`, if any. */
  function RemoveFirst(s: seq<Heading>, x: Heading): seq<Heading>
    decreases |s|
  {
    if |s| == 0 then []
    else if s[0] == x then s[1..]
    else [s[0]] + RemoveFirst(s[1..], x)
  }

  datatype MatchKind = Exact | Partial
  datatype MatchedPair = MatchedPair(expected: Heading, actual: Heading, kind: MatchKind, similarity: real)

  /** The running state of either pass: the matches counted so far, the
      headings left on each side, and the pairs recorded. */
  datatype Tally = Tally(matches: nat, expectedLeft: seq<Heading>, actualLeft: seq<Heading>, pairs: seq<MatchedPair>)

  /** The exact pass's handling of one expected heading. */
  function ExactStep(e: Heading, acts: seq<Heading>, t: Tally): Tally {
    match FirstExact(e, acts)
    case None => t
    case Some(a) =>
      Tally(t.matches + 1, RemoveFirst(t.expectedLeft, e), RemoveFirst(t.actualLeft, a),
            t.pairs + [MatchedPair(e, a, Exact, 1.0)])
  }

  /** The first pass: every expected heading is checked against the whole
      actual list, matched or not. */
  function ExactPass(todo: seq<Heading>, acts: seq<Heading>, t: Tally): Tally
    decreases |todo|
  {
    if |todo| == 0 then t else ExactPass(todo[1..], acts, ExactStep(todo[0], acts, t))
  }

  /** The best candidate found so far and its similarity. */
  datatype Best = Best(heading: Option<Heading>, similarity: real)

  function Sim(e: Heading, a: Heading, ratio: (string, string) -> real): real
    requires ValidRatio(ratio)
  {
    Similarity(e.text, a.text, ratio)
  }

  /** The inner loop of the partial pass: a candidate replaces the running
      best only when its similarity exceeds both 0.7 and the best so far. */
  function BestFrom(e: Heading, acts: seq<Heading>, b: Best, ratio: (string, string) -> real): Best
    requires ValidRatio(ratio)
    decreases |acts|
  {
    if |acts| == 0 then b
    else
      var s := Sim(e, acts[0], ratio);
      BestFrom(e, acts[1..], if s > 0.7 && s > b.similarity then Best(Some(acts[0]), s) else b, ratio)
  }

  function BestMatch(e: Heading, acts: seq<Heading>, ratio: (string, string) -> real): Best
    requires ValidRatio(ratio)
  {
    BestFrom(e, acts, Best(None, 0.0), ratio)
  }

  /** The partial pass's handling of one expected heading. */
  function PartialStep(e: Heading, t: Tally, ratio: (string, string) -> real): Tally
    requires ValidRatio(ratio)
  {
    var b := BestMatch(e, t.actualLeft, ratio);
    match b.heading
    case None => t
    case Some(a) =>
      Tally(t.matches + 1, RemoveFirst(t.expectedLeft, e), RemoveFirst(t.actualLeft, a),
            t.pairs + [MatchedPair(e, a, Partial, b.similarity)])
  }

  function PartialPass(todo: seq<Heading>, t: Tally, ratio: (string, string) -> real): Tally
    requires ValidRatio(ratio)
    decreases |todo|
  {
    if |todo| == 0 then t else PartialPass(todo[1..], PartialStep(todo[0], t, ratio), ratio)
  }

  /** The dictionary `compare_headings` returns. */
  datatype Report = Report(
    totalExpected: nat, totalActual: nat, exact: nat, partial: nat,
    unmatchedExpected: seq<Heading>, unmatchedActual: seq<Heading>, pairs: seq<MatchedPair>)

  /** `compare_headings`; the partial pass walks a snapshot of the headings
      the exact pass left over. */
  function CompareHeadings(expected: seq<Heading>, actual: seq<Heading>, ratio: (string, string) -> real): Report
    requires ValidRatio(ratio)
  {
    var ex := ExactPass(expected, actual, Tally(0, expected, actual, []));
    var pa := PartialPass(ex.expectedLeft, Tally(0, ex.expectedLeft, ex.actualLeft, ex.pairs), ratio);
    Report(|expected|, |actual|, ex.matches, pa.matches, pa.expectedLeft, pa.actualLeft, pa.pairs)
  }

  // ---------------------------------------------------------------------
  // The building blocks

  /** `FirstExact` finds the earliest exact match and finds none only when
      there is none. */
  lemma FirstExactFacts(e: Heading, acts: seq<Heading>) returns (k: int)
    ensures FirstExact(e, acts).None? <==> !HasExact(e, acts)
    ensures FirstExact(e, acts).Some? ==>
      0 <= k < |acts| && acts[k] == FirstExact(e, acts).value && ExactMatch(e, acts[k])
      && forall i :: 0 <= i < k ==> !ExactMatch(e, acts[i])
  {
    FirstExactNone(e, acts);
    k := 0;
    if FirstExact(e, acts).Some? {
      k := FirstExactIndex(e, acts);
    }
  }

  lemma {:induction false} FirstExactNone(e: Heading, acts: seq<Heading>)
    ensures FirstExact(e, acts).None? <==> !HasExact(e, acts)
    decreases |acts|
  {
    if |acts| > 0 {
      HasExactCons(e, acts);
      FirstExactNone(e, acts[1..]);
    }
  }

  lemma {:induction false} FirstExactIndex(e: Heading, acts: seq<Heading>) returns (k: nat)
    requires FirstExact(e, acts).Some?
    ensures k < |acts| && acts[k] == FirstExact(e, acts).value && ExactMatch(e, acts[k])
    ensures forall i :: 0 <= i < k ==> !ExactMatch(e, acts[i])
    decreases |acts|
  {
    if ExactMatch(e, acts[0]) {
      k := 0;
    } else {
      var k' := FirstExactIndex(e, acts[1..]);
      k := k' + 1;
      NoExactBeforeCons(e, acts, k');
    }
  }

  /** A miss at the head extends a run of misses in the tail by one. */
  lemma NoExactBeforeCons(e: Heading, acts: seq<Heading>, n: nat)
    requires n < |acts| - 1 && !ExactMatch(e, acts[0])
    requires forall i :: 0 <= i < n ==> !ExactMatch(e, acts[1..][i])
    ensures forall i :: 0 <= i < n + 1 ==> !ExactMatch(e, acts[i])
  {
    forall i | 0 < i < n + 1 ensures !ExactMatch(e, acts[i]) {
      assert acts[i] == acts[1..][i - 1];
    }
  }

  /** A list has an exact match exactly when its head or its tail has one. */
  lemma HasExactCons(e: Heading, acts: seq<Heading>)
    requires |acts| > 0
    ensures HasExact(e, acts) <==> ExactMatch(e, acts[0]) || HasExact(e, acts[1..])
  {
    var rest := acts[1..];
    if HasExact(e, acts) && !ExactMatch(e, acts[0]) {
      var j :| 0 <= j < |acts| && ExactMatch(e, acts[j]);
      assert acts[j] == rest[j - 1];
    }
    if HasExact(e, rest) {
      var j :| 0 <= j < |rest| && ExactMatch(e, rest[j]);
      assert rest[j] == acts[j + 1];
    }
  }

  /** Removing an entry that is present takes away exactly one copy of it;
      removing one that is absent changes nothing. */
  lemma {:induction false} RemoveFirstFacts(s: seq<Heading>, x: Heading)
    ensures x in s ==> multiset(RemoveFirst(s, x)) == multiset(s) - multiset{x} && |RemoveFirst(s, x)| == |s| - 1
    ensures x !in s ==> RemoveFirst(s, x) == s
    decreases |s|
  {
    if |s| > 0 {
      assert s == [s[0]] + s[1..];
      if s[0] != x {
        RemoveFirstFacts(s[1..], x);
      }
    }
  }

  lemma RemoveFirstShrinks(s: seq<Heading>, x: Heading)
    ensures multiset(RemoveFirst(s, x)) <= multiset(s)
    ensures |s| <= |RemoveFirst(s, x)| + 1
  {
    RemoveFirstFacts(s, x);
  }

  function Max07(x: real): real {
    if x > 0.7 then x else 0.7
  }

  lemma {:induction false} BestFromFacts(e: Heading, acts: seq<Heading>, b: Best, ratio: (string, string) -> real) returns (k: int)
    requires ValidRatio(ratio)
    ensures -1 <= k < |acts|
    ensures k == -1 ==> (BestFrom(e, acts, b, ratio) == b
      && forall i :: 0 <= i < |acts| ==> Sim(e, acts[i], ratio) <= Max07(b.similarity))
    ensures k >= 0 ==> (BestFrom(e, acts, b, ratio) == Best(Some(acts[k]), Sim(e, acts[k], ratio))
      && Sim(e, acts[k], ratio) > Max07(b.similarity)
      && (forall i :: 0 <= i < |acts| ==> Sim(e, acts[i], ratio) <= Sim(e, acts[k], ratio))
      && (forall i :: 0 <= i < k ==> Sim(e, acts[i], ratio) < Sim(e, acts[k], ratio)))
    decreases |acts|
  {
    if |acts| == 0 {
      k := -1;
    } else {
      var s := Sim(e, acts[0], ratio);
      var rest := acts[1..];
      if s > 0.7 && s > b.similarity {
        var b' := Best(Some(acts[0]), s);
        var k' := BestFromFacts(e, rest, b', ratio);
        if k' == -1 {
          k := 0;
          SimsAtMost(e, acts, ratio, s);
        } else {
          k := k' + 1;
          assert acts[k] == rest[k'];
          SimsAtMost(e, acts, ratio, Sim(e, acts[k], ratio));
          SimsBelow(e, acts, ratio, Sim(e, acts[k], ratio), k);
        }
      } else {
        var k' := BestFromFacts(e, rest, b, ratio);
        if k' == -1 {
          k := -1;
          SimsAtMost(e, acts, ratio, Max07(b.similarity));
        } else {
          k := k' + 1;
          assert acts[k] == rest[k'];
          SimsAtMost(e, acts, ratio, Sim(e, acts[k], ratio));
          SimsBelow(e, acts, ratio, Sim(e, acts[k], ratio), k);
        }
      }
    }
  }

  /** A bound on the head's similarity and on the tail's is one on all. */
  lemma SimsAtMost(e: Heading, acts: seq<Heading>, ratio: (string, string) -> real, bound: real)
    requires ValidRatio(ratio) && |acts| > 0 && Sim(e, acts[0], ratio) <= bound
    requires forall i :: 0 <= i < |acts[1..]| ==> Sim(e, acts[1..][i], ratio) <= bound
    ensures forall i :: 0 <= i < |acts| ==> Sim(e, acts[i], ratio) <= bound
  {
    forall i | 0 < i < |acts| ensures Sim(e, acts[i], ratio) <= bound {
      assert acts[i] == acts[1..][i - 1];
    }
  }

  /** The same for a strict bound on the first `n` entries. */
  lemma SimsBelow(e: Heading, acts: seq<Heading>, ratio: (string, string) -> real, bound: real, n: nat)
    requires ValidRatio(ratio) && 0 < n <= |acts| && Sim(e, acts[0], ratio) < bound
    requires forall i :: 0 <= i < n - 1 ==> Sim(e, acts[1..][i], ratio) < bound
    ensures forall i :: 0 <= i < n ==> Sim(e, acts[i], ratio) < bound
  {
    forall i | 0 < i < n ensures Sim(e, acts[i], ratio) < bound {
      assert acts[i] == acts[1..][i - 1];
    }
  }

  /** The partial candidate is the first actual heading of highest
      similarity, and there is one exactly when some similarity exceeds
      0.7. */
  lemma BestMatchFacts(e: Heading, acts: seq<Heading>, ratio: (string, string) -> real) returns (k: int)
    requires ValidRatio(ratio)
    ensures BestMatch(e, acts, ratio).heading.None? <==>
      forall i :: 0 <= i < |acts| ==> Sim(e, acts[i], ratio) <= 0.7
    ensures BestMatch(e, acts, ratio).heading.Some? ==>
      var sim := BestMatch(e, acts, ratio).similarity;
      0 <= k < |acts| && acts[k] == BestMatch(e, acts, ratio).heading.value
      && sim == Sim(e, acts[k], ratio) && sim > 0.7
      && (forall i :: 0 <= i < |acts| ==> Sim(e, acts[i], ratio) <= sim)
      && (forall i :: 0 <= i < k ==> Sim(e, acts[i], ratio) < sim)
  {
    k := BestFromFacts(e, acts, Best(None, 0.0), ratio);
  }

  // ---------------------------------------------------------------------
  // The exact pass

  /** The expected headings that have an exact counterpart, in order and
      with repetitions. */
  function Matchable(es: seq<Heading>, acts: seq<Heading>): seq<Heading>
    decreases |es|
  {
    if |es| == 0 then [] else (if HasExact(es[0], acts) then [es[0]] else []) + Matchable(es[1..], acts)
  }

  predicate ExactPair(p: MatchedPair, acts: seq<Heading>) {
    p.kind == Exact && p.similarity == 1.0 && p.actual in acts && ExactMatch(p.expected, p.actual)
  }

  lemma ExactStepLeft(e: Heading, acts: seq<Heading>, t: Tally)
    requires e in multiset(t.expectedLeft)
    ensures var t' := ExactStep(e, acts, t);
      var m := if HasExact(e, acts) then 1 else 0;
      t'.matches == t.matches + m
      && multiset(t'.expectedLeft) == multiset(t.expectedLeft) - (if m == 1 then multiset{e} else multiset{})
      && multiset(t'.actualLeft) <= multiset(t.actualLeft)
      && |t.actualLeft| <= |t'.actualLeft| + m
  {
    var k := FirstExactFacts(e, acts);
    match FirstExact(e, acts)
    case None =>
    case Some(a) =>
      RemoveFirstFacts(t.expectedLeft, e);
      RemoveFirstShrinks(t.actualLeft, a);
  }

  lemma ExactStepPairs(e: Heading, acts: seq<Heading>, t: Tally)
    ensures var t' := ExactStep(e, acts, t);
      var m := t'.matches - t.matches;
      (m == 0 || m == 1)
      && |t'.pairs| == |t.pairs| + m && t'.pairs[..|t.pairs|] == t.pairs
      && (m == 1 ==> ExactPair(t'.pairs[|t.pairs|], acts))
  {
    var k := FirstExactFacts(e, acts);
  }

  lemma MultisetPeel(todo: seq<Heading>, m: multiset<Heading>)
    requires |todo| > 0 && multiset(todo) <= m
    ensures todo[0] in m
    ensures multiset(todo[1..]) <= m - multiset{todo[0]}
    ensures multiset(todo[1..]) <= m
  {
    assert todo == [todo[0]] + todo[1..];
  }

  lemma MinusMinus(m: multiset<Heading>, a: multiset<Heading>, b: multiset<Heading>)
    ensures m - a - b == m - (a + b)
  {
  }

  lemma MatchableCons(es: seq<Heading>, acts: seq<Heading>)
    requires |es| > 0
    ensures multiset(Matchable(es, acts)) ==
      (if HasExact(es[0], acts) then multiset{es[0]} else multiset{}) + multiset(Matchable(es[1..], acts))
    ensures |Matchable(es, acts)| == (if HasExact(es[0], acts) then 1 else 0) + |Matchable(es[1..], acts)|
  {
  }

  /** What the exact pass does to the counts and the headings left, for
      any remaining list whose entries are all still waiting on the
      expected side. */
  lemma {:induction false} ExactPassLeft(todo: seq<Heading>, acts: seq<Heading>, t: Tally)
    requires multiset(todo) <= multiset(t.expectedLeft)
    ensures var r := ExactPass(todo, acts, t);
      var n := |Matchable(todo, acts)|;
      r.matches == t.matches + n
      && multiset(r.expectedLeft) == multiset(t.expectedLeft) - multiset(Matchable(todo, acts))
      && multiset(r.actualLeft) <= multiset(t.actualLeft)
      && |t.actualLeft| <= |r.actualLeft| + n
    decreases |todo|
  {
    if |todo| > 0 {
      var e := todo[0];
      MultisetPeel(todo, multiset(t.expectedLeft));
      ExactStepLeft(e, acts, t);
      var t' := ExactStep(e, acts, t);
      ExactPassLeft(todo[1..], acts, t');
      MatchableCons(todo, acts);
      MinusMinus(multiset(t.expectedLeft), if HasExact(e, acts) then multiset{e} else multiset{},
                 multiset(Matchable(todo[1..], acts)));
    }
  }

  /** Every pair the exact pass records is an exact match, one per match
      counted, appended after the pairs already there. */
  lemma {:induction false} ExactPassPairs(todo: seq<Heading>, acts: seq<Heading>, t: Tally)
    ensures var r := ExactPass(todo, acts, t);
      r.matches >= t.matches
      && |r.pairs| == |t.pairs| + (r.matches - t.matches) && r.pairs[..|t.pairs|] == t.pairs
      && forall i :: |t.pairs| <= i < |r.pairs| ==> ExactPair(r.pairs[i], acts)
    decreases |todo|
  {
    if |todo| > 0 {
      ExactStepPairs(todo[0], acts, t);
      var t' := ExactStep(todo[0], acts, t);
      ExactPassPairs(todo[1..], acts, t');
      var r := ExactPass(todo, acts, t);
      assert r == ExactPass(todo[1..], acts, t');
      assert r.pairs[..|t.pairs|] == t.pairs by {
        assert r.pairs[..|t.pairs|] == r.pairs[..|t'.pairs|][..|t.pairs|];
      }
      forall i | |t.pairs| <= i < |r.pairs| ensures ExactPair(r.pairs[i], acts) {
        if i < |t'.pairs| {
          assert r.pairs[i] == t'.pairs[i];
        }
      }
    }
  }

  // ---------------------------------------------------------------------
  // The partial pass

  ghost predicate PartialPair(p: MatchedPair, acts: seq<Heading>, ratio: (string, string) -> real)
    requires ValidRatio(ratio)
  {
    p.kind == Partial && p.actual in acts
    && p.similarity == Sim(p.expected, p.actual, ratio) && p.similarity > 0.7
  }

  lemma PartialStepFacts(e: Heading, t: Tally, ratio: (string, string) -> real)
    requires ValidRatio(ratio)
    requires e in multiset(t.expectedLeft)
    ensures var t' := PartialStep(e, t, ratio);
      var m := t'.matches - t.matches;
      (m == 0 || m == 1)
      && multiset(t'.expectedLeft) == multiset(t.expectedLeft) - (if m == 1 then multiset{e} else multiset{})
      && |t'.expectedLeft| == |t.expectedLeft| - m
      && multiset(t'.actualLeft) <= multiset(t.actualLeft)
      && |t'.actualLeft| == |t.actualLeft| - m
      && |t'.pairs| == |t.pairs| + m && t'.pairs[..|t.pairs|] == t.pairs
      && (m == 1 ==> PartialPair(t'.pairs[|t.pairs|], t.actualLeft, ratio))
  {
    var k := BestMatchFacts(e, t.actualLeft, ratio);
    var b := BestMatch(e, t.actualLeft, ratio);
    match b.heading
    case None =>
    case Some(a) =>
      RemoveFirstFacts(t.expectedLeft, e);
      RemoveFirstFacts(t.actualLeft, a);
  }

  lemma MultisetMember(x: Heading, s: seq<Heading>, u: seq<Heading>)
    requires x in s && multiset(s) <= multiset(u)
    ensures x in u
  {
    assert x in multiset(s);
  }

  /** What the partial pass does to the running state: each match takes one
      heading off each side and records one pair above the threshold. */
  lemma PartialPassFacts(todo: seq<Heading>, t: Tally, ratio: (string, string) -> real)
    requires ValidRatio(ratio)
    requires multiset(todo) <= multiset(t.expectedLeft)
    ensures var r := PartialPass(todo, t, ratio);
      var n := r.matches - t.matches;
      0 <= n <= |todo|
      && multiset(r.expectedLeft) <= multiset(t.expectedLeft)
      && |r.expectedLeft| == |t.expectedLeft| - n
      && multiset(r.actualLeft) <= multiset(t.actualLeft)
      && |r.actualLeft| == |t.actualLeft| - n
      && |r.pairs| == |t.pairs| + n && r.pairs[..|t.pairs|] == t.pairs
      && forall i :: |t.pairs| <= i < |r.pairs| ==> PartialPair(r.pairs[i], t.actualLeft, ratio)
  {
    PartialPassCounts(todo, t, ratio);
    PartialPassPairs(todo, t, ratio);
  }

  lemma {:induction false} PartialPassCounts(todo: seq<Heading>, t: Tally, ratio: (string, string) -> real)
    requires ValidRatio(ratio)
    requires multiset(todo) <= multiset(t.expectedLeft)
    ensures var r := PartialPass(todo, t, ratio);
      var n := r.matches - t.matches;
      0 <= n <= |todo|
      && multiset(r.expectedLeft) <= multiset(t.expectedLeft)
      && |r.expectedLeft| == |t.expectedLeft| - n
      && multiset(r.actualLeft) <= multiset(t.actualLeft)
      && |r.actualLeft| == |t.actualLeft| - n
      && |r.pairs| == |t.pairs| + n
    decreases |todo|
  {
    if |todo| > 0 {
      MultisetPeel(todo, multiset(t.expectedLeft));
      PartialStepFacts(todo[0], t, ratio);
      var t' := PartialStep(todo[0], t, ratio);
      assert multiset(todo[1..]) <= multiset(t'.expectedLeft);
      PartialPassCounts(todo[1..], t', ratio);
      assert PartialPass(todo, t, ratio) == PartialPass(todo[1..], t', ratio);
    }
  }

  lemma {:induction false} PartialPassPairs(todo: seq<Heading>, t: Tally, ratio: (string, string) -> real)
    requires ValidRatio(ratio)
    requires multiset(todo) <= multiset(t.expectedLeft)
    ensures var r := PartialPass(todo, t, ratio);
      |r.pairs| >= |t.pairs| && r.pairs[..|t.pairs|] == t.pairs
      && forall i :: |t.pairs| <= i < |r.pairs| ==> PartialPair(r.pairs[i], t.actualLeft, ratio)
    decreases |todo|
  {
    if |todo| > 0 {
      MultisetPeel(todo, multiset(t.expectedLeft));
      PartialStepFacts(todo[0], t, ratio);
      var t' := PartialStep(todo[0], t, ratio);
      assert multiset(todo[1..]) <= multiset(t'.expectedLeft);
      PartialPassPairs(todo[1..], t', ratio);
      var r := PartialPass(todo, t, ratio);
      assert r == PartialPass(todo[1..], t', ratio);
      assert r.pairs[..|t.pairs|] == t.pairs by {
        assert r.pairs[..|t.pairs|] == r.pairs[..|t'.pairs|][..|t.pairs|];
      }
      forall i | |t.pairs| <= i < |r.pairs| ensures PartialPair(r.pairs[i], t.actualLeft, ratio) {
        if i < |t'.pairs| {
          assert r.pairs[i] == t'.pairs[i];
        } else {
          MultisetMember(r.pairs[i].actual, t'.actualLeft, t.actualLeft);
        }
      }
    }
  }

  // ---------------------------------------------------------------------
  // The whole comparison

  /** Every copy of a heading that has an exact counterpart is counted. */
  lemma {:induction false} MatchableKeepsCopies(es: seq<Heading>, acts: seq<Heading>, x: Heading)
    requires HasExact(x, acts)
    ensures multiset(Matchable(es, acts))[x] == multiset(es)[x]
    decreases |es|
  {
    if |es| > 0 {
      MatchableKeepsCopies(es[1..], acts, x);
      MatchableCons(es, acts);
      assert es == [es[0]] + es[1..];
    }
  }

  lemma {:induction false} MatchableBound(es: seq<Heading>, acts: seq<Heading>)
    ensures multiset(Matchable(es, acts)) <= multiset(es)
    decreases |es|
  {
    if |es| > 0 {
      MatchableBound(es[1..], acts);
      MatchableCons(es, acts);
      assert es == [es[0]] + es[1..];
    }
  }

  lemma ExactPhase(expected: seq<Heading>, actual: seq<Heading>)
    ensures var ex := ExactPass(expected, actual, Tally(0, expected, actual, []));
      ex.matches == |Matchable(expected, actual)|
      && multiset(ex.expectedLeft) == multiset(expected) - multiset(Matchable(expected, actual))
      && |ex.expectedLeft| == |expected| - ex.matches
      && multiset(ex.actualLeft) <= multiset(actual)
      && |actual| <= |ex.actualLeft| + ex.matches
      && |ex.pairs| == ex.matches
      && forall i :: 0 <= i < |ex.pairs| ==> ExactPair(ex.pairs[i], actual)
  {
    ExactPassLeft(expected, actual, Tally(0, expected, actual, []));
    ExactPassPairs(expected, actual, Tally(0, expected, actual, []));
    MatchableBound(expected, actual);
    var ex := ExactPass(expected, actual, Tally(0, expected, actual, []));
    var mm := multiset(Matchable(expected, actual));
    assert |multiset(ex.expectedLeft)| == |multiset(expected)| - |mm| by {
      assert multiset(ex.expectedLeft) + mm == multiset(expected);
    }
  }

  /** The counts: exact matches are the expected headings with an exact
      counterpart (repetitions included); exact and partial matches
      together never exceed the expected headings, and the unmatched
      expected headings are exactly the rest. */
  lemma CompareCounts(expected: seq<Heading>, actual: seq<Heading>, ratio: (string, string) -> real)
    requires ValidRatio(ratio)
    ensures var r := CompareHeadings(expected, actual, ratio);
      r.totalExpected == |expected| && r.totalActual == |actual|
      && r.exact == |Matchable(expected, actual)|
      && r.exact + r.partial <= |expected|
      && |r.unmatchedExpected| == |expected| - r.exact - r.partial
      && |actual| <= |r.unmatchedActual| + r.exact + r.partial
      && multiset(r.unmatchedExpected) <= multiset(expected)
      && multiset(r.unmatchedActual) <= multiset(actual)
  {
    ExactPhase(expected, actual);
    var ex := ExactPass(expected, actual, Tally(0, expected, actual, []));
    PartialPassFacts(ex.expectedLeft, Tally(0, ex.expectedLeft, ex.actualLeft, ex.pairs), ratio);
  }

  /** The recorded pairs: first one exact pair per exact match, then one
      partial pair, above the threshold, per partial match. */
  lemma ComparePairs(expected: seq<Heading>, actual: seq<Heading>, ratio: (string, string) -> real)
    requires ValidRatio(ratio)
    ensures var r := CompareHeadings(expected, actual, ratio);
      |r.pairs| == r.exact + r.partial
      && (forall i :: 0 <= i < r.exact ==> ExactPair(r.pairs[i], actual))
      && (forall i :: r.exact <= i < |r.pairs| ==> PartialPair(r.pairs[i], actual, ratio))
  {
    ExactPhase(expected, actual);
    var ex := ExactPass(expected, actual, Tally(0, expected, actual, []));
    var t := Tally(0, ex.expectedLeft, ex.actualLeft, ex.pairs);
    PartialPassFacts(ex.expectedLeft, t, ratio);
    var r := CompareHeadings(expected, actual, ratio);
    forall i | 0 <= i < r.exact ensures ExactPair(r.pairs[i], actual) {
      assert r.pairs[i] == r.pairs[..|ex.pairs|][i];
    }
    forall i | r.exact <= i < |r.pairs| ensures PartialPair(r.pairs[i], actual, ratio) {
      MultisetMember(r.pairs[i].actual, ex.actualLeft, actual);
    }
  }

  /** No expected heading is left unmatched while it has an exact
      counterpart. */
  lemma UnmatchedHaveNoExact(expected: seq<Heading>, actual: seq<Heading>, ratio: (string, string) -> real)
    requires ValidRatio(ratio)
    ensures var r := CompareHeadings(expected, actual, ratio);
      forall i :: 0 <= i < |r.unmatchedExpected| ==> !HasExact(r.unmatchedExpected[i], actual)
  {
    ExactPhase(expected, actual);
    var ex := ExactPass(expected, actual, Tally(0, expected, actual, []));
    PartialPassFacts(ex.expectedLeft, Tally(0, ex.expectedLeft, ex.actualLeft, ex.pairs), ratio);
    var r := CompareHeadings(expected, actual, ratio);
    forall i | 0 <= i < |r.unmatchedExpected| ensures !HasExact(r.unmatchedExpected[i], actual) {
      var x := r.unmatchedExpected[i];
      if HasExact(x, actual) {
        MatchableKeepsCopies(expected, actual, x);
      }
    }
  }

  /** Exact matching never consumes actual headings: an expected heading
      listed twice is counted twice against a single actual heading, so
      the exact count can exceed the number of actual headings. */
  lemma RepeatedExpectedCountsTwice(h: Heading, ratio: (string, string) -> real)
    requires ValidRatio(ratio)
    ensures CompareHeadings([h, h], [h], ratio).exact == 2
    ensures CompareHeadings([h, h], [h], ratio).exact > CompareHeadings([h, h], [h], ratio).totalActual
  {
    assert ExactMatch(h, [h][0]);
    assert HasExact(h, [h]);
    assert Matchable([h, h], [h]) == [h, h] by {
      assert [h, h][1..] == [h];
      assert Matchable([h], [h]) == [h] by {
        assert [h][1..] == [];
      }
    }
    CompareCounts([h, h], [h], ratio);
  }
}
