/** The extractor's output vocabulary: heading levels, outline entries and
    the document record `{"title": ..., "outline": [...]}`. */
module Outline {

  datatype Option<T> = None | Some(value: T)

  datatype Level = H1 | H2 | H3

  /** One outline entry; `page` is the 0-based page number the extractor
      writes out. */
  datatype Heading = Heading(level: Level, text: string, page: int)

  datatype Document = Document(title: string, outline: seq<Heading>)

  /** A text span as PyMuPDF reports it: its raw text, font size, font
      name, flag word, the left and top of its bounding box, and its 1-based
      page number. */
  datatype RawSpan = RawSpan(text: string, size: real, font: string, flags: int, x: real, y: real, page: int)

  /** The extractor's `span_info` record: the font name and flags are
      reduced to the bold verdict. */
  datatype Span = Span(text: string, size: real, bold: bool, x: real, y: real, page: int)

  /** The heading texts, in order. */
  function Texts(hs: seq<Heading>): (ts: seq<string>)
    ensures |ts| == |hs|
    ensures forall i :: 0 <= i < |hs| ==> ts[i] == hs[i].text
  {
    seq(|hs|, i requires 0 <= i < |hs| => hs[i].text)
  }

  /** `a` is an order-preserving subsequence of `b`. */
  predicate IsSubsequence<T(==)>(a: seq<T>, b: seq<T>)
    decreases |b|
  {
    |a| == 0 || (|b| > 0 && (if a[0] == b[0] then IsSubsequence(a[1..], b[1..]) else IsSubsequence(a, b[1..])))
  }

  lemma {:induction false} SubsequenceOfSelf<T>(a: seq<T>)
    ensures IsSubsequence(a, a)
    decreases |a|
  {
    if |a| > 0 {
      SubsequenceOfSelf(a[1..]);
    }
  }

  lemma {:induction false} SubsequenceCons<T>(x: T, a: seq<T>, b: seq<T>)
    requires IsSubsequence(a, b)
    ensures IsSubsequence([x] + a, [x] + b)
    ensures IsSubsequence(a, [x] + b)
    decreases |b|
  {
    assert ([x] + a)[1..] == a;
    assert ([x] + b)[1..] == b;
    if |a| > 0 && a[0] == x {
      SubsequenceDropFirst(a, b);
    }
  }

  lemma {:induction false} SubsequenceDropFirst<T>(a: seq<T>, b: seq<T>)
    requires |a| > 0 && IsSubsequence(a, b)
    ensures IsSubsequence(a[1..], b)
    decreases |b|, 1
  {
    assert |b| > 0;
    if a[0] == b[0] {
      if |a| > 1 {
        assert IsSubsequence(a[1..], b[1..]);
        SubsequenceTailExtend(a[1..], b);
      }
    } else {
      SubsequenceDropFirst(a, b[1..]);
      SubsequenceTailExtend(a[1..], b);
    }
  }

  /** A subsequence of `b[1..]` is a subsequence of `b`. */
  lemma {:induction false} SubsequenceTailExtend<T>(a: seq<T>, b: seq<T>)
    requires |b| > 0 && IsSubsequence(a, b[1..])
    ensures IsSubsequence(a, b)
    decreases |b|, 0
  {
    if |a| > 0 && a[0] == b[0] {
      SubsequenceDropFirst(a, b[1..]);
    }
  }

  /** Every element of a subsequence occurs in the larger sequence. */
  lemma {:induction false} SubsequenceElements<T>(a: seq<T>, b: seq<T>)
    requires IsSubsequence(a, b)
    ensures multiset(a) <= multiset(b)
    ensures |a| <= |b|
    decreases |b|
  {
    if |a| > 0 {
      assert b == [b[0]] + b[1..];
      if a[0] == b[0] {
        SubsequenceElements(a[1..], b[1..]);
        assert a == [a[0]] + a[1..];
      } else {
        SubsequenceElements(a, b[1..]);
      }
    }
  }

  /** Every element of a subsequence is an element of the larger sequence. */
  lemma SubsequenceMembers<T>(a: seq<T>, b: seq<T>)
    requires IsSubsequence(a, b)
    ensures forall i :: 0 <= i < |a| ==> a[i] in b
  {
    SubsequenceElements(a, b);
    forall i | 0 <= i < |a| ensures a[i] in b {
      assert a[i] in multiset(a);
    }
  }

  /** A relation that holds between every element of `b` and each later
      element still holds that way in a subsequence of `b`. */
  lemma {:induction false} SubsequencePairwise<T>(a: seq<T>, b: seq<T>, rel: (T, T) -> bool)
    requires IsSubsequence(a, b)
    requires forall i, j :: 0 <= i < j < |b| ==> rel(b[i], b[j])
    ensures forall i, j :: 0 <= i < j < |a| ==> rel(a[i], a[j])
    decreases |b|
  {
    if |a| > 0 {
      if a[0] == b[0] {
        SubsequencePairwise(a[1..], b[1..], rel);
        SubsequenceMembers(a[1..], b[1..]);
        forall i, j | 0 <= i < j < |a| ensures rel(a[i], a[j]) {
          assert a[j] == a[1..][j - 1];
          var k :| 0 <= k < |b[1..]| && b[1..][k] == a[j];
          assert b[k + 1] == a[j];
          if i > 0 {
            assert a[i] == a[1..][i - 1];
          }
        }
      } else {
        SubsequencePairwise(a, b[1..], rel);
      }
    }
  }

  lemma ConcatAssoc<T>(a: seq<T>, b: seq<T>, c: seq<T>)
    ensures a + (b + c) == a + b + c
  {
  }
}
