/** Python's `list.sort(key=...)`: a stable sort. Modelled as a stable
    insertion sort on a three-part key compared lexicographically, which is
    enough for every sort the extractor performs: spans by
    `(page, top, left)`, title candidates by top coordinate, and font sizes
    for the median. */
module Sorting {

  /** A sort key, compared lexicographically. */
  datatype SortKey = SortKey(major: int, middle: real, minor: real)

  predicate KeyLe(a: SortKey, b: SortKey) {
    a.major < b.major
    || (a.major == b.major && (a.middle < b.middle || (a.middle == b.middle && a.minor <= b.minor)))
  }

  predicate SortedBy<T>(s: seq<T>, key: T -> SortKey) {
    forall i, j :: 0 <= i < j < |s| ==> KeyLe(key(s[i]), key(s[j]))
  }

  /** The elements of `s` whose key is `k`, in order. */
  function Ties<T>(s: seq<T>, key: T -> SortKey, k: SortKey): seq<T>
    decreases |s|
  {
    if |s| == 0 then []
    else (if key(s[0]) == k then [s[0]] else []) + Ties(s[1..], key, k)
  }

  /** Insert `x` in front of the first element whose key is not smaller. */
  function Insert<T>(x: T, s: seq<T>, key: T -> SortKey): seq<T>
    decreases |s|
  {
    if |s| == 0 then [x]
    else if KeyLe(key(x), key(s[0])) then [x] + s
    else [s[0]] + Insert(x, s[1..], key)
  }

  lemma {:induction false} InsertKeepsElements<T>(x: T, s: seq<T>, key: T -> SortKey)
    ensures multiset(Insert(x, s, key)) == multiset(s) + multiset{x}
    ensures |Insert(x, s, key)| == |s| + 1
    decreases |s|
  {
    if |s| > 0 && !KeyLe(key(x), key(s[0])) {
      InsertKeepsElements(x, s[1..], key);
      assert s == [s[0]] + s[1..];
    }
  }

  lemma {:induction false} InsertSorted<T>(x: T, s: seq<T>, key: T -> SortKey)
    requires SortedBy(s, key)
    ensures SortedBy(Insert(x, s, key), key)
    decreases |s|
  {
    if |s| > 0 {
      if KeyLe(key(x), key(s[0])) {
        InsertFrontSorted(x, s, key);
      } else {
        InsertSorted(x, s[1..], key);
        InsertKeepsElements(x, s[1..], key);
        InsertBehindSorted(x, s, Insert(x, s[1..], key), key);
      }
    }
  }

  lemma InsertFrontSorted<T>(x: T, s: seq<T>, key: T -> SortKey)
    requires SortedBy(s, key) && |s| > 0 && KeyLe(key(x), key(s[0]))
    ensures SortedBy([x] + s, key)
  {
    var r := [x] + s;
    forall i, j | 0 <= i < j < |r| ensures KeyLe(key(r[i]), key(r[j])) {
      if i == 0 && j > 1 {
        assert KeyLe(key(s[0]), key(s[j - 1]));
      }
    }
  }

  lemma InsertBehindSorted<T>(x: T, s: seq<T>, t: seq<T>, key: T -> SortKey)
    requires SortedBy(s, key) && |s| > 0 && !KeyLe(key(x), key(s[0]))
    requires SortedBy(t, key) && multiset(t) == multiset(s[1..]) + multiset{x}
    ensures SortedBy([s[0]] + t, key)
  {
    var r := [s[0]] + t;
    forall j | 0 < j < |r| ensures KeyLe(key(s[0]), key(r[j])) {
      assert r[j] == t[j - 1];
      assert r[j] in multiset(t);
      if r[j] != x {
        assert r[j] in multiset(s[1..]);
        var k :| 0 <= k < |s[1..]| && s[1..][k] == r[j];
        assert KeyLe(key(s[0]), key(s[k + 1]));
      }
    }
    forall i, j | 0 <= i < j < |r| ensures KeyLe(key(r[i]), key(r[j])) {
      if i > 0 {
        assert r[i] == t[i - 1] && r[j] == t[j - 1];
      }
    }
  }

  /** The stable sort: ascending by key, elements with equal keys in their
      input order (see `SortStable`). */
  function SortBy<T>(s: seq<T>, key: T -> SortKey): (r: seq<T>)
    ensures SortedBy(r, key)
    ensures multiset(r) == multiset(s)
    ensures |r| == |s|
    decreases |s|
  {
    if |s| == 0 then []
    else
      var t := SortBy(s[1..], key);
      InsertSorted(s[0], t, key);
      InsertKeepsElements(s[0], t, key);
      assert s == [s[0]] + s[1..];
      assert multiset(s) == multiset{s[0]} + multiset(s[1..]);
      Insert(s[0], t, key)
  }

  lemma {:induction false} InsertTies<T>(x: T, s: seq<T>, key: T -> SortKey, k: SortKey)
    requires SortedBy(s, key)
    ensures Ties(Insert(x, s, key), key, k) == (if key(x) == k then [x] else []) + Ties(s, key, k)
    decreases |s|
  {
    if |s| > 0 {
      if KeyLe(key(x), key(s[0])) {
        assert ([x] + s)[1..] == s;
      } else {
        InsertTies(x, s[1..], key, k);
        assert ([s[0]] + Insert(x, s[1..], key))[1..] == Insert(x, s[1..], key);
      }
    }
  }

  /** The sort is stable: for every key, the elements carrying that key come
      out in the order they went in. */
  lemma {:induction false} SortStable<T>(s: seq<T>, key: T -> SortKey, k: SortKey)
    ensures Ties(SortBy(s, key), key, k) == Ties(s, key, k)
    decreases |s|
  {
    if |s| > 0 {
      SortStable(s[1..], key, k);
      InsertTies(s[0], SortBy(s[1..], key), key, k);
    }
  }

  /** When distinct elements have distinct keys, a sorted arrangement of a
      multiset is unique. */
  lemma {:induction false} SortedUnique<T>(a: seq<T>, b: seq<T>, key: T -> SortKey)
    requires forall x, y :: key(x) == key(y) ==> x == y
    requires SortedBy(a, key) && SortedBy(b, key)
    requires multiset(a) == multiset(b)
    ensures a == b
    decreases |a|
  {
    assert |a| == |multiset(a)| == |multiset(b)| == |b|;
    if |a| > 0 {
      SortedHeadIsLeast(a, b, key);
      SortedHeadIsLeast(b, a, key);
      assert a[0] == b[0];
      assert a == [a[0]] + a[1..];
      assert b == [b[0]] + b[1..];
      assert multiset(a[1..]) == multiset(a) - multiset{a[0]};
      assert multiset(b[1..]) == multiset(b) - multiset{b[0]};
      SortedUnique(a[1..], b[1..], key);
    }
  }

  lemma SortedHeadIsLeast<T>(a: seq<T>, b: seq<T>, key: T -> SortKey)
    requires SortedBy(b, key) && |a| > 0 && |b| > 0 && multiset(a) == multiset(b)
    ensures KeyLe(key(b[0]), key(a[0]))
  {
    assert a[0] in multiset(b);
    var j :| 0 <= j < |b| && b[j] == a[0];
    if j > 0 {
      assert KeyLe(key(b[0]), key(b[j]));
    }
  }

  /** When distinct elements have distinct keys, sorting does not depend on
      the input order. */
  lemma SortIgnoresOrder<T>(s: seq<T>, t: seq<T>, key: T -> SortKey)
    requires forall x, y :: key(x) == key(y) ==> x == y
    requires multiset(s) == multiset(t)
    ensures SortBy(s, key) == SortBy(t, key)
  {
    SortedUnique(SortBy(s, key), SortBy(t, key), key);
  }
}
