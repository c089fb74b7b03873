/** The hierarchy pass at the end of `extract_document_info`
    (improved_process_pdfs.py:439-454): an H2 survives only after some H1,
    an H3 only while an H2 that followed the last H1 is open. */
module Hierarchy {
  import opened Outline

  /** The pass with `hasH1` standing for `current_h1` being set and `hasH2`
      for `current_h2` being set. */
  function NestFrom(hs: seq<Heading>, hasH1: bool, hasH2: bool): seq<Heading>
    decreases |hs|
  {
    if |hs| == 0 then []
    else match hs[0].level
      case H1 => [hs[0]] + NestFrom(hs[1..], true, false)
      case H2 =>
        if hasH1 then [hs[0]] + NestFrom(hs[1..], true, true)
        else NestFrom(hs[1..], hasH1, hasH2)
      case H3 =>
        if hasH2 then [hs[0]] + NestFrom(hs[1..], hasH1, hasH2)
        else NestFrom(hs[1..], hasH1, hasH2)
  }

  function Nest(hs: seq<Heading>): seq<Heading> {
    NestFrom(hs, false, false)
  }

  // ---------------------------------------------------------------------
  // Well-nestedness

  /** Some H1 occurs. */
  predicate HasH1(o: seq<Heading>) {
    exists j :: 0 <= j < |o| && o[j].level == H1
  }

  /** Some H2 occurs with no H1 after it. */
  predicate OpenH2(o: seq<Heading>) {
    exists j :: 0 <= j < |o| && o[j].level == H2 && forall k :: j < k < |o| ==> o[k].level != H1
  }

  /** Every H2 has an H1 somewhere before it, and every H3 has an H2 before
      it with no H1 in between. */
  predicate WellNested(o: seq<Heading>) {
    forall i :: 0 <= i < |o| ==>
      (o[i].level == H2 ==> HasH1(o[..i])) && (o[i].level == H3 ==> OpenH2(o[..i]))
  }

  lemma HasH1Snoc(o: seq<Heading>, x: Heading)
    ensures HasH1(o + [x]) <==> HasH1(o) || x.level == H1
  {
    var s := o + [x];
    assert s[|o|] == x;
    if HasH1(o) {
      var j :| 0 <= j < |o| && o[j].level == H1;
      assert s[j] == o[j];
    }
    if HasH1(s) {
      var j :| 0 <= j < |s| && s[j].level == H1;
      if j < |o| { assert s[j] == o[j]; }
    }
  }

  lemma OpenH2Snoc(o: seq<Heading>, x: Heading)
    ensures OpenH2(o + [x]) <==> x.level == H2 || (x.level != H1 && OpenH2(o))
  {
    var s := o + [x];
    assert s[|o|] == x;
    if x.level != H1 && OpenH2(o) {
      var j :| 0 <= j < |o| && o[j].level == H2 && forall k :: j < k < |o| ==> o[k].level != H1;
      assert s[j] == o[j];
      forall k | j < k < |s| ensures s[k].level != H1 {
        if k < |o| { assert s[k] == o[k]; }
      }
    }
    if OpenH2(s) && x.level != H2 {
      var j :| 0 <= j < |s| && s[j].level == H2 && forall k :: j < k < |s| ==> s[k].level != H1;
      assert j < |o| && s[j] == o[j];
      forall k | j < k < |o| ensures o[k].level != H1 {
        assert s[k] == o[k];
      }
    }
  }

  /** Appending keeps an outline well nested exactly when the new heading's
      own condition holds. */
  lemma WellNestedSnoc(o: seq<Heading>, x: Heading)
    ensures WellNested(o + [x]) <==>
      WellNested(o) && (x.level == H2 ==> HasH1(o)) && (x.level == H3 ==> OpenH2(o))
  {
    var s := o + [x];
    assert s[..|o|] == o;
    assert s[|o|] == x;
    forall i | 0 <= i < |o| ensures s[i] == o[i] && s[..i] == o[..i] {
    }
  }

  /** A prefix of a well-nested outline is well nested. */
  lemma WellNestedPrefix(o: seq<Heading>, n: nat)
    requires WellNested(o) && n <= |o|
    ensures WellNested(o[..n])
  {
    forall i | 0 <= i < n ensures o[..n][..i] == o[..i] {
    }
  }

  // ---------------------------------------------------------------------
  // What the pass computes

  lemma {:induction false} NestFromNested(o: seq<Heading>, s: seq<Heading>, a: bool, b: bool)
    requires WellNested(o) && (a ==> HasH1(o)) && (b ==> OpenH2(o))
    ensures WellNested(o + NestFrom(s, a, b))
    decreases |s|
  {
    if |s| == 0 {
      assert o + [] == o;
    } else {
      var x, rest := s[0], s[1..];
      var o' := o + [x];
      HasH1Snoc(o, x);
      OpenH2Snoc(o, x);
      match x.level
      case H1 =>
        WellNestedSnoc(o, x);
        NestFromNested(o', rest, true, false);
        ConcatAssoc(o, [x], NestFrom(rest, true, false));
      case H2 =>
        if a {
          WellNestedSnoc(o, x);
          NestFromNested(o', rest, true, true);
          ConcatAssoc(o, [x], NestFrom(rest, true, true));
        } else {
          NestFromNested(o, rest, a, b);
        }
      case H3 =>
        if b {
          WellNestedSnoc(o, x);
          NestFromNested(o', rest, a, b);
          ConcatAssoc(o, [x], NestFrom(rest, a, b));
        } else {
          NestFromNested(o, rest, a, b);
        }
    }
  }

  /** The pass always produces a well-nested outline. */
  lemma NestIsWellNested(hs: seq<Heading>)
    ensures WellNested(Nest(hs))
  {
    NestFromNested([], hs, false, false);
    assert [] + Nest(hs) == Nest(hs);
  }

  lemma {:induction false} NestFromOfNested(o: seq<Heading>, s: seq<Heading>, a: bool, b: bool)
    requires WellNested(o + s) && a == HasH1(o) && b == OpenH2(o)
    ensures NestFrom(s, a, b) == s
    decreases |s|
  {
    if |s| > 0 {
      var x, rest := s[0], s[1..];
      var o' := o + [x];
      assert s == [x] + rest;
      ConcatAssoc(o, [x], rest);
      WellNestedPrefix(o + s, |o| + 1);
      assert (o + s)[..|o| + 1] == o';
      WellNestedSnoc(o, x);
      HasH1Snoc(o, x);
      OpenH2Snoc(o, x);
      NestFromOfNested(o', rest, HasH1(o'), OpenH2(o'));
    }
  }

  /** The pass changes an outline exactly when the outline is not well
      nested. */
  lemma NestFixpointIff(hs: seq<Heading>)
    ensures Nest(hs) == hs <==> WellNested(hs)
  {
    if WellNested(hs) {
      assert [] + hs == hs;
      assert !HasH1([]) && !OpenH2([]);
      NestFromOfNested([], hs, false, false);
    } else {
      NestIsWellNested(hs);
    }
  }

  /** Running the pass twice is running it once. */
  lemma NestIdempotent(hs: seq<Heading>)
    ensures Nest(Nest(hs)) == Nest(hs)
  {
    NestIsWellNested(hs);
    NestFixpointIff(Nest(hs));
  }

  /** The H1 entries, in order. */
  function H1s(hs: seq<Heading>): seq<Heading>
    decreases |hs|
  {
    if |hs| == 0 then [] else (if hs[0].level == H1 then [hs[0]] else []) + H1s(hs[1..])
  }

  lemma H1sCons(x: Heading, hs: seq<Heading>)
    ensures H1s([x] + hs) == (if x.level == H1 then [x] else []) + H1s(hs)
  {
    assert ([x] + hs)[1..] == hs;
  }

  lemma {:induction false} NestFromFacts(s: seq<Heading>, a: bool, b: bool)
    ensures H1s(NestFrom(s, a, b)) == H1s(s)
    ensures IsSubsequence(NestFrom(s, a, b), s)
    decreases |s|
  {
    if |s| == 0 {
      SubsequenceOfSelf(s);
    } else {
      var x, rest := s[0], s[1..];
      assert s == [x] + rest;
      var a', b' := if x.level == H1 then true else a,
                    if x.level == H1 then false else if x.level == H2 && a then true else b;
      NestFromFacts(rest, a', b');
      var tail := NestFrom(rest, a', b');
      SubsequenceCons(x, tail, rest);
      H1sCons(x, rest);
      var kept := x.level == H1 || (x.level == H2 && a) || (x.level == H3 && b);
      if kept {
        assert NestFrom(s, a, b) == [x] + tail;
        H1sCons(x, tail);
      } else {
        assert NestFrom(s, a, b) == tail;
      }
    }
  }

  /** The pass keeps every H1, in order, and otherwise only drops entries. */
  lemma NestKeepsH1s(hs: seq<Heading>)
    ensures H1s(Nest(hs)) == H1s(hs)
    ensures IsSubsequence(Nest(hs), hs)
  {
    NestFromFacts(hs, false, false);
  }

  lemma NestFromCons(x: Heading, rest: seq<Heading>, a: bool, b: bool)
    ensures NestFrom([x] + rest, a, b) ==
      match x.level
      case H1 => [x] + NestFrom(rest, true, false)
      case H2 => if a then [x] + NestFrom(rest, true, true) else NestFrom(rest, a, b)
      case H3 => if b then [x] + NestFrom(rest, a, b) else NestFrom(rest, a, b)
  {
    assert ([x] + rest)[1..] == rest;
  }

  lemma {:induction false} NestFromSnoc(o: seq<Heading>, s: seq<Heading>, x: Heading, a: bool, b: bool)
    requires WellNested(o) && a == HasH1(o) && b == OpenH2(o)
    ensures NestFrom(s + [x], a, b) ==
      NestFrom(s, a, b) + (if WellNested(o + NestFrom(s, a, b) + [x]) then [x] else [])
    decreases |s|
  {
    if |s| == 0 {
      assert [] + [x] == [x];
      assert o + [] == o;
      WellNestedSnoc(o, x);
      NestFromCons(x, [], a, b);
      assert NestFrom([], true, false) == [];
      assert [x] + [] == [x];
    } else {
      var y, rest := s[0], s[1..];
      assert s == [y] + rest;
      assert s + [x] == [y] + (rest + [x]);
      NestFromCons(y, rest + [x], a, b);
      NestFromCons(y, rest, a, b);
      HasH1Snoc(o, y);
      OpenH2Snoc(o, y);
      WellNestedSnoc(o, y);
      var kept := y.level == H1 || (y.level == H2 && a) || (y.level == H3 && b);
      if kept {
        var o' := o + [y];
        var a', b' := HasH1(o'), OpenH2(o');
        assert NestFrom(s, a, b) == [y] + NestFrom(rest, a', b');
        assert NestFrom(s + [x], a, b) == [y] + NestFrom(rest + [x], a', b');
        NestFromSnoc(o', rest, x, a', b');
        ConcatAssoc(o, [y], NestFrom(rest, a', b'));
      } else {
        assert NestFrom(s, a, b) == NestFrom(rest, a, b);
        assert NestFrom(s + [x], a, b) == NestFrom(rest + [x], a, b);
        NestFromSnoc(o, rest, x, a, b);
      }
    }
  }

  /** Each heading is kept exactly when the outline kept so far stays well
      nested with it appended. */
  lemma NestSnoc(hs: seq<Heading>, x: Heading)
    ensures Nest(hs + [x]) == Nest(hs) + (if WellNested(Nest(hs) + [x]) then [x] else [])
  {
    assert !HasH1([]) && !OpenH2([]);
    NestFromSnoc([], hs, x, false, false);
    assert [] + Nest(hs) == Nest(hs);
  }

  lemma {:induction false} HasH1IffH1s(o: seq<Heading>)
    ensures HasH1(o) <==> |H1s(o)| > 0
    decreases |o|
  {
    if |o| > 0 {
      HasH1IffH1s(o[1..]);
      assert o == [o[0]] + o[1..];
      if HasH1(o) && o[0].level != H1 {
        var j :| 0 <= j < |o| && o[j].level == H1;
        assert o[1..][j - 1] == o[j];
      }
      if HasH1(o[1..]) {
        var j :| 0 <= j < |o[1..]| && o[1..][j].level == H1;
        assert o[j + 1] == o[1..][j];
      }
    }
  }

  /** An H2 survives exactly when some H1 comes before it in the input. */
  lemma H2KeptIff(hs: seq<Heading>, x: Heading)
    requires x.level == H2
    ensures Nest(hs + [x]) == Nest(hs) + [x] <==> HasH1(hs)
  {
    NestSnoc(hs, x);
    NestIsWellNested(hs);
    WellNestedSnoc(Nest(hs), x);
    NestKeepsH1s(hs);
    HasH1IffH1s(hs);
    HasH1IffH1s(Nest(hs));
    if !HasH1(hs) {
      assert |Nest(hs) + [x]| != |Nest(hs)|;
    }
  }

  /** An H3 survives exactly when the outline kept so far has an H2 after
      its last H1. */
  lemma H3KeptIff(hs: seq<Heading>, x: Heading)
    requires x.level == H3
    ensures Nest(hs + [x]) == Nest(hs) + [x] <==> OpenH2(Nest(hs))
  {
    NestSnoc(hs, x);
    NestIsWellNested(hs);
    WellNestedSnoc(Nest(hs), x);
    if !OpenH2(Nest(hs)) {
      assert |Nest(hs) + [x]| != |Nest(hs)|;
    }
  }

  /** The pass's output, when not empty, starts with an H1. */
  lemma NestStartsWithH1(hs: seq<Heading>)
    ensures |Nest(hs)| > 0 ==> Nest(hs)[0].level == H1
  {
    NestIsWellNested(hs);
    var o := Nest(hs);
    if |o| > 0 {
      assert o[..0] == [];
      assert !HasH1(o[..0]) && !OpenH2(o[..0]);
    }
  }
}
