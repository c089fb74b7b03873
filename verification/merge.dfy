/** `merge_split_headings` (improved_process_pdfs.py:333-356): consecutive
    headings with the same level on the same page are fused into one, their
    texts joined by a space. */
module Merge {
  import opened Strings
  import opened Outline

  /** Same level and same page: the condition under which two consecutive
      headings are merged. */
  predicate SameSlot(a: Heading, b: Heading) {
    a.level == b.level && a.page == b.page
  }

  /** No two neighbours share a slot. */
  predicate NoAdjacentSlots(hs: seq<Heading>) {
    forall i :: 0 <= i < |hs| - 1 ==> !SameSlot(hs[i], hs[i + 1])
  }

  /** The loop body of `merge_split_headings` with `current_heading` = `cur`
      and the headings still to visit in `rest`. */
  function MergeFrom(cur: Heading, rest: seq<Heading>): (r: seq<Heading>)
    decreases |rest|
  {
    if |rest| == 0 then [cur]
    else if SameSlot(rest[0], cur) then
      MergeFrom(Heading(cur.level, cur.text + " " + rest[0].text, cur.page), rest[1..])
    else [cur] + MergeFrom(rest[0], rest[1..])
  }

  /** `merge_split_headings`. */
  function MergeSplit(hs: seq<Heading>): seq<Heading> {
    if |hs| == 0 then [] else MergeFrom(hs[0], hs[1..])
  }

  lemma {:induction false} MergeFromShape(cur: Heading, rest: seq<Heading>)
    ensures var r := MergeFrom(cur, rest);
      1 <= |r| <= |rest| + 1 && SameSlot(r[0], cur) && NoAdjacentSlots(r)
    decreases |rest|
  {
    if |rest| > 0 {
      if SameSlot(rest[0], cur) {
        MergeFromShape(Heading(cur.level, cur.text + " " + rest[0].text, cur.page), rest[1..]);
      } else {
        MergeFromShape(rest[0], rest[1..]);
        var tail := MergeFrom(rest[0], rest[1..]);
        var r := [cur] + tail;
        forall i | 0 <= i < |r| - 1 ensures !SameSlot(r[i], r[i + 1]) {
          if i > 0 {
            assert r[i] == tail[i - 1] && r[i + 1] == tail[i];
          }
        }
      }
    }
  }

  /** No two adjacent outputs share (level, page), and merging never makes
      the outline longer; it is empty only when the input is. */
  lemma MergeSplitShape(hs: seq<Heading>)
    ensures var r := MergeSplit(hs);
      NoAdjacentSlots(r) && |r| <= |hs| && (|r| == 0 <==> |hs| == 0)
  {
    if |hs| > 0 {
      MergeFromShape(hs[0], hs[1..]);
    }
  }

  // ---------------------------------------------------------------------
  // An independent reference: merging from the right

  /** Put `h` in front of an already merged outline, fusing it with the
      first entry when the two share a slot. */
  function Absorb(h: Heading, m: seq<Heading>): seq<Heading> {
    if |m| > 0 && SameSlot(h, m[0]) then [Heading(h.level, h.text + " " + m[0].text, h.page)] + m[1..]
    else [h] + m
  }

  /** Each maximal run of same-slot headings becomes one heading with the
      run's level and page and the run's texts joined by spaces. */
  function MergeRef(hs: seq<Heading>): seq<Heading>
    decreases |hs|
  {
    if |hs| == 0 then [] else Absorb(hs[0], MergeRef(hs[1..]))
  }

  lemma {:induction false} MergeRefHead(hs: seq<Heading>)
    requires |hs| > 0
    ensures |MergeRef(hs)| > 0 && SameSlot(MergeRef(hs)[0], hs[0])
    decreases |hs|
  {
  }

  lemma {:induction false} MergeFromIsAbsorb(cur: Heading, rest: seq<Heading>)
    ensures MergeFrom(cur, rest) == Absorb(cur, MergeRef(rest))
    decreases |rest|
  {
    if |rest| > 0 {
      var m := MergeRef(rest[1..]);
      if SameSlot(rest[0], cur) {
        var cur' := Heading(cur.level, cur.text + " " + rest[0].text, cur.page);
        MergeFromIsAbsorb(cur', rest[1..]);
        if |m| > 0 && SameSlot(rest[0], m[0]) {
          assert cur.text + " " + (rest[0].text + " " + m[0].text) == cur'.text + " " + m[0].text;
        }
      } else {
        MergeFromIsAbsorb(rest[0], rest[1..]);
        if |m| > 0 {
          MergeRefHead(rest[1..]);
        }
      }
    }
  }

  /** The loop of `merge_split_headings` computes the run-by-run merge. */
  lemma MergeSplitIsMergeRef(hs: seq<Heading>)
    ensures MergeSplit(hs) == MergeRef(hs)
  {
    if |hs| > 0 {
      MergeFromIsAbsorb(hs[0], hs[1..]);
    }
  }

  lemma TextsCons(h: Heading, hs: seq<Heading>)
    ensures Texts([h] + hs) == [h.text] + Texts(hs)
  {
    assert |Texts([h] + hs)| == |[h.text] + Texts(hs)|;
    forall i | 0 <= i < 1 + |hs| ensures Texts([h] + hs)[i] == ([h.text] + Texts(hs))[i] {
      if i > 0 { assert ([h] + hs)[i] == hs[i - 1]; }
    }
  }

  /** Putting `h` in front of a merged outline puts its text in front of
      the joined texts. */
  lemma JoinAbsorb(h: Heading, m: seq<Heading>)
    ensures Join(Texts(Absorb(h, m)), " ") == if |m| == 0 then h.text else h.text + " " + Join(Texts(m), " ")
  {
    if |m| > 0 {
      TextsCons(m[0], m[1..]);
      assert [m[0]] + m[1..] == m;
      if SameSlot(h, m[0]) {
        var h' := Heading(h.level, h.text + " " + m[0].text, h.page);
        TextsCons(h', m[1..]);
        if |m| > 1 {
          JoinCons(h'.text, Texts(m[1..]), " ");
          JoinCons(m[0].text, Texts(m[1..]), " ");
        }
      } else {
        TextsCons(h, m);
        JoinCons(h.text, Texts(m), " ");
      }
    } else {
      TextsCons(h, m);
    }
  }

  /** Merging loses no text: joining the merged texts with spaces gives the
      same string as joining the original ones. */
  lemma {:induction false} MergeRefKeepsText(hs: seq<Heading>)
    ensures Join(Texts(MergeRef(hs)), " ") == Join(Texts(hs), " ")
    decreases |hs|
  {
    if |hs| > 0 {
      MergeRefKeepsText(hs[1..]);
      var m := MergeRef(hs[1..]);
      JoinAbsorb(hs[0], m);
      TextsCons(hs[0], hs[1..]);
      assert [hs[0]] + hs[1..] == hs;
      if |hs| > 1 {
        MergeRefHead(hs[1..]);
        JoinCons(hs[0].text, Texts(hs[1..]), " ");
      }
    }
  }

  lemma MergeSplitKeepsText(hs: seq<Heading>)
    ensures Join(Texts(MergeSplit(hs)), " ") == Join(Texts(hs), " ")
  {
    MergeSplitIsMergeRef(hs);
    MergeRefKeepsText(hs);
  }

  /** An outline without adjacent same-slot headings is left unchanged. */
  lemma {:induction false} MergeRefOfSeparated(hs: seq<Heading>)
    requires NoAdjacentSlots(hs)
    ensures MergeRef(hs) == hs
    decreases |hs|
  {
    if |hs| > 0 {
      assert NoAdjacentSlots(hs[1..]) by {
        forall i | 0 <= i < |hs[1..]| - 1 ensures !SameSlot(hs[1..][i], hs[1..][i + 1]) {
          assert hs[1..][i] == hs[i + 1] && hs[1..][i + 1] == hs[i + 2];
        }
      }
      MergeRefOfSeparated(hs[1..]);
      if |hs| > 1 {
        assert !SameSlot(hs[0], hs[1]);
      }
      assert hs == [hs[0]] + hs[1..];
    }
  }

  /** Merging twice is merging once. */
  lemma MergeSplitIdempotent(hs: seq<Heading>)
    ensures MergeSplit(MergeSplit(hs)) == MergeSplit(hs)
  {
    var m := MergeSplit(hs);
    MergeSplitShape(hs);
    MergeSplitIsMergeRef(m);
    MergeRefOfSeparated(m);
  }

  // ---------------------------------------------------------------------
  // Facts the extractor relies on

  predicate EndsInSpace(t: string) {
    |t| > 0 && t[|t| - 1] == ' '
  }

  /** Every text ends in a space and has at least `n` characters. */
  predicate TextsEndInSpace(hs: seq<Heading>, n: nat) {
    forall i :: 0 <= i < |hs| ==> EndsInSpace(hs[i].text) && |hs[i].text| >= n
  }

  /** Pages never decrease along the outline. */
  predicate PagesAscending(hs: seq<Heading>) {
    forall i, j :: 0 <= i < j < |hs| ==> hs[i].page <= hs[j].page
  }

  lemma {:induction false} MergeFromKeeps(cur: Heading, rest: seq<Heading>, n: nat)
    requires EndsInSpace(cur.text) && |cur.text| >= n && TextsEndInSpace(rest, n)
    requires PagesAscending([cur] + rest)
    ensures TextsEndInSpace(MergeFrom(cur, rest), n)
    ensures PagesAscending(MergeFrom(cur, rest))
    ensures forall i :: 0 <= i < |MergeFrom(cur, rest)| ==> cur.page <= MergeFrom(cur, rest)[i].page
    decreases |rest|
  {
    if |rest| > 0 {
      ConsParts(cur, rest, n);
      if SameSlot(rest[0], cur) {
        var cur' := Heading(cur.level, cur.text + " " + rest[0].text, cur.page);
        assert cur'.text[|cur'.text| - 1] == rest[0].text[|rest[0].text| - 1];
        ConsKeeps(cur', rest[1..], n);
        MergeFromKeeps(cur', rest[1..], n);
      } else {
        MergeFromKeeps(rest[0], rest[1..], n);
        ConsKeeps(cur, MergeFrom(rest[0], rest[1..]), n);
      }
    }
  }

  /** The facts about `[cur] + rest` that the merge loop hands on. */
  lemma ConsParts(cur: Heading, rest: seq<Heading>, n: nat)
    requires |rest| > 0 && TextsEndInSpace(rest, n) && PagesAscending([cur] + rest)
    ensures cur.page <= rest[0].page
    ensures EndsInSpace(rest[0].text) && |rest[0].text| >= n
    ensures TextsEndInSpace(rest[1..], n) && PagesAscending(rest)
    ensures forall i :: 0 <= i < |rest[1..]| ==> cur.page <= rest[1..][i].page
  {
    var s := [cur] + rest;
    assert s[0] == cur && s[1] == rest[0];
    assert s[0].page <= s[1].page;
    forall i, j | 0 <= i < j < |rest| ensures rest[i].page <= rest[j].page {
      assert s[i + 1] == rest[i] && s[j + 1] == rest[j];
    }
    forall i | 0 <= i < |rest[1..]| ensures cur.page <= rest[1..][i].page {
      assert s[i + 2] == rest[1..][i];
      assert s[0].page <= s[i + 2].page;
    }
    forall i | 0 <= i < |rest[1..]| ensures EndsInSpace(rest[1..][i].text) && |rest[1..][i].text| >= n {
      assert rest[1..][i] == rest[i + 1];
    }
  }

  /** Prepending a heading that ends in a space and whose page comes first
      keeps both outline facts. */
  lemma ConsKeeps(cur: Heading, r: seq<Heading>, n: nat)
    requires EndsInSpace(cur.text) && |cur.text| >= n && TextsEndInSpace(r, n) && PagesAscending(r)
    requires forall i :: 0 <= i < |r| ==> cur.page <= r[i].page
    ensures TextsEndInSpace([cur] + r, n) && PagesAscending([cur] + r)
    ensures forall i :: 0 <= i < |[cur] + r| ==> cur.page <= ([cur] + r)[i].page
  {
    var s := [cur] + r;
    forall i | 0 < i < |s| ensures s[i] == r[i - 1] {
    }
  }

  /** Merging keeps texts ending in a space (and never shortens them) and
      keeps pages in ascending order. */
  lemma MergeSplitKeeps(hs: seq<Heading>, n: nat)
    requires TextsEndInSpace(hs, n) && PagesAscending(hs)
    ensures TextsEndInSpace(MergeSplit(hs), n) && PagesAscending(MergeSplit(hs))
  {
    if |hs| > 0 {
      assert hs == [hs[0]] + hs[1..];
      MergeFromKeeps(hs[0], hs[1..], n);
    }
  }
}
