/** String primitives shared by the extractor and the evaluator: `strip`,
    the `\s+` -> " " substitution, `str.replace`, `str.split()`, `" ".join`
    and substring search. */
module Strings {
  import opened Chars

  /** No character of `s` is whitespace. */
  predicate NoSpace(s: string) {
    forall i :: 0 <= i < |s| ==> !IsSpace(s[i])
  }

  predicate AllSpace(s: string) {
    forall i :: 0 <= i < |s| ==> IsSpace(s[i])
  }

  /** The only whitespace character in `s` is the plain space. */
  predicate OnlyPlainSpaces(s: string) {
    forall i :: 0 <= i < |s| && IsSpace(s[i]) ==> s[i] == ' '
  }

  /** `s` neither starts nor ends with whitespace. */
  predicate Trimmed(s: string) {
    |s| == 0 || (!IsSpace(s[0]) && !IsSpace(s[|s| - 1]))
  }

  /** No `a` is immediately followed by `b` anywhere in `s`. */
  predicate NoPair(s: string, a: char, b: char)
    decreases |s|
  {
    |s| < 2 || (!(s[0] == a && s[1] == b) && NoPair(s[1..], a, b))
  }

  /** What `str.strip`, `re.sub(r'\s+', ' ', ...)` and friends leave behind:
      trimmed, with single plain spaces between non-space runs. */
  predicate Normalized(s: string) {
    Trimmed(s) && OnlyPlainSpaces(s) && NoPair(s, ' ', ' ')
  }

  /** Length of the leading whitespace run. */
  function SpaceRun(s: string): (n: nat)
    ensures n <= |s|
    ensures forall i :: 0 <= i < n ==> IsSpace(s[i])
    ensures n < |s| ==> !IsSpace(s[n])
  {
    if |s| > 0 && IsSpace(s[0]) then 1 + SpaceRun(s[1..]) else 0
  }

  /** Length of the leading non-whitespace run. */
  function WordRun(s: string): (n: nat)
    ensures n <= |s|
    ensures forall i :: 0 <= i < n ==> !IsSpace(s[i])
    ensures n < |s| ==> IsSpace(s[n])
  {
    if |s| > 0 && !IsSpace(s[0]) then 1 + WordRun(s[1..]) else 0
  }

  /** Length of the trailing whitespace run. */
  function TrailingSpaceRun(s: string): (n: nat)
    ensures n <= |s|
    ensures forall i :: |s| - n <= i < |s| ==> IsSpace(s[i])
    ensures n < |s| ==> !IsSpace(s[|s| - n - 1])
  {
    if |s| > 0 && IsSpace(s[|s| - 1]) then 1 + TrailingSpaceRun(s[..|s| - 1]) else 0
  }

  /** `str.strip()`. */
  function Strip(s: string): (r: string)
    ensures Trimmed(r)
    ensures r == [] <==> AllSpace(s)
    ensures Trimmed(s) ==> r == s
    ensures exists i, j :: 0 <= i <= j <= |s| && r == s[i..j] && AllSpace(s[..i]) && AllSpace(s[j..])
  {
    var i := SpaceRun(s);
    var j := if i == |s| then i else |s| - TrailingSpaceRun(s);
    assert i < |s| ==> i < j by {
      if i < |s| {
        assert !IsSpace(s[i]);
      }
    }
    StripCuts(s, i, j);
    s[i..j]
  }

  /** The cut points of `Strip`: `i` ends the leading whitespace run; when
      something follows it, `j` starts the trailing run, which stops at the
      last non-space character and so never reaches `i`. */
  lemma StripCuts(s: string, i: nat, j: int)
    requires i <= |s| && (forall k :: 0 <= k < i ==> IsSpace(s[k])) && (i < |s| ==> !IsSpace(s[i]))
    requires i == |s| ==> j == i
    requires i < |s| ==> i < j <= |s| && (forall k :: j <= k < |s| ==> IsSpace(s[k])) && !IsSpace(s[j - 1])
    ensures i <= j <= |s|
    ensures AllSpace(s[..i]) && AllSpace(s[j..])
    ensures Trimmed(s[i..j])
    ensures i == j <==> AllSpace(s)
    ensures Trimmed(s) ==> i == 0 && j == |s|
  {
    SliceSpaces(s, 0, i);
    SliceSpaces(s, j, |s|);
    if i < |s| {
      TrimmedSlice(s, i, j);
    } else {
      assert s[..i] == s;
    }
  }

  /** A slice whose characters are all whitespace in `s` is all whitespace. */
  lemma SliceSpaces(s: string, i: nat, j: nat)
    requires i <= j <= |s|
    requires forall k :: i <= k < j ==> IsSpace(s[k])
    ensures AllSpace(s[i..j])
  {
    forall k | 0 <= k < j - i ensures IsSpace(s[i..j][k]) {
      assert s[i..j][k] == s[i + k];
    }
  }

  /** A slice that starts and ends on a non-space character is trimmed. */
  lemma TrimmedSlice(s: string, i: nat, j: nat)
    requires 0 < j <= |s| && i < j && !IsSpace(s[i]) && !IsSpace(s[j - 1])
    ensures Trimmed(s[i..j])
  {
    var r := s[i..j];
    assert r[0] == s[i] && r[|r| - 1] == s[j - 1];
  }

  /** `re.sub(r'\s+', ' ', s)`: every maximal whitespace run becomes one space. */
  function Collapse(s: string): string
    decreases |s|
  {
    if |s| == 0 then []
    else if IsSpace(s[0]) then [' '] + Collapse(s[SpaceRun(s)..])
    else [s[0]] + Collapse(s[1..])
  }

  /** `s.replace(pat, repl)`: left-to-right, non-overlapping. */
  function Replace(s: string, pat: string, repl: string): string
    requires |pat| > 0
    decreases |s|
  {
    if |s| < |pat| then s
    else if s[..|pat|] == pat then repl + Replace(s[|pat|..], pat, repl)
    else [s[0]] + Replace(s[1..], pat, repl)
  }

  /** `s.startswith(p)`. */
  predicate StartsWith(s: string, p: string) {
    |p| <= |s| && s[..|p|] == p
  }

  /** `p in s` for strings. */
  predicate Contains(s: string, p: string)
    decreases |s|
  {
    StartsWith(s, p) || (|s| > 0 && Contains(s[1..], p))
  }

  /** `any(p in s for p in ps)`. */
  predicate ContainsAny(s: string, ps: seq<string>) {
    exists i :: 0 <= i < |ps| && Contains(s, ps[i])
  }

  /** `s.split()`: the maximal non-whitespace runs, in order. */
  function Words(s: string): seq<string>
    decreases |s|
  {
    var t := s[SpaceRun(s)..];
    if |t| == 0 then []
    else
      var n := WordRun(t);
      [t[..n]] + Words(t[n..])
  }

  /** `sep.join(ws)`. */
  function Join(ws: seq<string>, sep: string): string
    decreases |ws|
  {
    if |ws| == 0 then []
    else if |ws| == 1 then ws[0]
    else ws[0] + sep + Join(ws[1..], sep)
  }

  // ---------------------------------------------------------------------
  // Lemmas

  /** The shape `re.sub(r'\s+', ' ', s)` leaves: no whitespace but single
      plain spaces, and a first and last character that are whitespace
      exactly when those of `s` are. */
  lemma {:induction false} CollapseShape(s: string)
    ensures |Collapse(s)| <= |s|
    ensures |Collapse(s)| == 0 <==> |s| == 0
    ensures |s| > 0 ==> (IsSpace(Collapse(s)[0]) <==> IsSpace(s[0]))
    ensures |s| > 0 ==> (IsSpace(Collapse(s)[|Collapse(s)| - 1]) <==> IsSpace(s[|s| - 1]))
    ensures OnlyPlainSpaces(Collapse(s))
    ensures NoPair(Collapse(s), ' ', ' ')
    decreases |s|
  {
    if |s| > 0 {
      var rest := if IsSpace(s[0]) then s[SpaceRun(s)..] else s[1..];
      CollapseShape(rest);
      var r := Collapse(s);
      assert r == [if IsSpace(s[0]) then ' ' else s[0]] + Collapse(rest);
      assert r[1..] == Collapse(rest);
      if |rest| > 0 {
        assert rest[|rest| - 1] == s[|s| - 1];
      }
    }
  }

  /** Every word is non-empty and free of whitespace. */
  lemma {:induction false} WordsShape(s: string)
    ensures forall i :: 0 <= i < |Words(s)| ==> |Words(s)[i]| > 0 && NoSpace(Words(s)[i])
    decreases |s|
  {
    var t := s[SpaceRun(s)..];
    if |t| > 0 {
      var n := WordRun(t);
      WordsShape(t[n..]);
      var ws := Words(s);
      assert ws == [t[..n]] + Words(t[n..]);
      forall i | 0 <= i < |ws| ensures |ws[i]| > 0 && NoSpace(ws[i]) {
        if i > 0 {
          assert ws[i] == Words(t[n..])[i - 1];
        }
      }
    }
  }

  lemma NormalizedFacts(s: string)
    requires Normalized(s)
    ensures |s| > 0 ==> s[|s| - 1] != ' ' && s[0] != ' '
    ensures forall i :: 0 <= i < |s| ==> s[i] != '\n' && s[i] != '\r'
  {
  }

  /** Replacing a character that does not occur changes nothing. */
  lemma {:induction false} ReplaceAbsentChar(s: string, c: char, repl: string)
    requires forall i :: 0 <= i < |s| ==> s[i] != c
    ensures Replace(s, [c], repl) == s
    decreases |s|
  {
    if |s| >= 1 {
      assert s[..1] != [c] by { assert s[..1][0] == s[0]; }
      ReplaceAbsentChar(s[1..], c, repl);
      assert [s[0]] + s[1..] == s;
    }
  }

  /** Collapsing a string that is already collapsed changes nothing. */
  lemma {:induction false} CollapseFixpoint(s: string)
    requires OnlyPlainSpaces(s) && NoPair(s, ' ', ' ')
    ensures Collapse(s) == s
    decreases |s|
  {
    if |s| > 0 {
      if IsSpace(s[0]) {
        assert s[0] == ' ';
        if |s| > 1 {
          assert s[1] != ' ';
          assert !IsSpace(s[1]);
        }
        assert SpaceRun(s) == 1;
        CollapseFixpoint(s[1..]);
      } else {
        CollapseFixpoint(s[1..]);
      }
      assert [s[0]] + s[1..] == s;
    }
  }

  /** A whitespace-free prefix passes through `Collapse` untouched. */
  lemma {:induction false} CollapseWordPrefix(a: string, b: string)
    requires NoSpace(a)
    ensures Collapse(a + b) == a + Collapse(b)
    decreases |a|
  {
    if |a| == 0 {
      assert a + b == b;
    } else {
      var s := a + b;
      assert s[0] == a[0];
      assert s[1..] == a[1..] + b;
      CollapseWordPrefix(a[1..], b);
      assert [a[0]] + (a[1..] + Collapse(b)) == a + Collapse(b);
    }
  }

  /** The leading whitespace run of `a + b` is that of `a`, when `a` has a
      non-space character. */
  lemma {:induction false} SpaceRunOfConcat(a: string, b: string)
    requires SpaceRun(a) < |a|
    ensures SpaceRun(a + b) == SpaceRun(a)
    decreases |a|
  {
    if IsSpace(a[0]) {
      assert (a + b)[1..] == a[1..] + b;
      SpaceRunOfConcat(a[1..], b);
    }
  }

  /** A word run stops at a following space. */
  lemma {:induction false} WordRunOfConcat(a: string, b: string)
    requires |b| == 0 || IsSpace(b[0])
    ensures WordRun(a + b) == WordRun(a)
    decreases |a|
  {
    if |a| == 0 {
      assert a + b == b;
    } else if !IsSpace(a[0]) {
      assert (a + b)[1..] == a[1..] + b;
      WordRunOfConcat(a[1..], b);
    }
  }

  /** Trailing whitespace does not change the words. */
  lemma {:induction false} WordsIgnoreTrailingSpace(a: string, w: string)
    requires AllSpace(w)
    ensures Words(a + w) == Words(a)
    decreases |a|
  {
    var s := a + w;
    var k := SpaceRun(a);
    if k == |a| {
      ConcatAllSpace(a, w);
      assert SpaceRun(s) == |s|;
      assert Words(s) == [];
    } else {
      SpaceRunOfConcat(a, w);
      var t := a[k..];
      var ts := s[k..];
      ConcatSlices(a, w, k);
      assert |w| == 0 || IsSpace(w[0]);
      WordRunOfConcat(t, w);
      var n := WordRun(t);
      ConcatSlices(t, w, n);
      WordsIgnoreTrailingSpace(t[n..], w);
      assert Words(s) == [ts[..n]] + Words(ts[n..]);
      assert Words(a) == [t[..n]] + Words(t[n..]);
    }
  }

  lemma ConcatAllSpace(a: string, b: string)
    requires AllSpace(a) && AllSpace(b)
    ensures AllSpace(a + b)
  {
    forall i | 0 <= i < |a + b| ensures IsSpace((a + b)[i]) {
      if i < |a| { assert (a + b)[i] == a[i]; } else { assert (a + b)[i] == b[i - |a|]; }
    }
  }

  /** Cutting a concatenation inside its first part. */
  lemma ConcatSlices(a: string, b: string, k: nat)
    requires k <= |a|
    ensures (a + b)[k..] == a[k..] + b && (a + b)[..k] == a[..k]
  {
  }

  /** Leading whitespace does not change the words. */
  lemma WordsIgnoreLeadingSpace(s: string)
    ensures Words(s[SpaceRun(s)..]) == Words(s)
  {
    var t := s[SpaceRun(s)..];
    assert SpaceRun(t) == 0;
    assert t[0..] == t;
  }

  lemma WordsOfStrip(s: string)
    ensures Words(Strip(s)) == Words(s)
  {
    var r := Strip(s);
    var i, j :| 0 <= i <= j <= |s| && r == s[i..j] && AllSpace(s[..i]) && AllSpace(s[j..]);
    SliceSplit(s, i, j);
    WordsIgnoreTrailingSpace(r, s[j..]);
    WordsAfterSpaces(s, i);
  }

  lemma SliceSplit(s: string, i: nat, j: nat)
    requires i <= j <= |s|
    ensures s[i..] == s[i..j] + s[j..]
  {
  }

  /** An all-whitespace prefix does not change the words. */
  lemma WordsAfterSpaces(s: string, i: nat)
    requires i <= |s| && AllSpace(s[..i])
    ensures Words(s[i..]) == Words(s)
  {
    SpaceRunSkip(s, i);
    assert s[i..][SpaceRun(s[i..])..] == s[SpaceRun(s)..];
  }

  /** The leading whitespace run goes through an all-whitespace prefix. */
  lemma {:induction false} SpaceRunSkip(s: string, i: nat)
    requires i <= |s| && AllSpace(s[..i])
    ensures SpaceRun(s) == i + SpaceRun(s[i..])
    decreases i
  {
    if i == 0 {
      assert s[0..] == s;
    } else {
      assert IsSpace(s[..i][0]);
      assert s[1..][..i - 1] == s[..i][1..];
      SpaceRunSkip(s[1..], i - 1);
      assert s[1..][i - 1..] == s[i..];
    }
  }

  /** On trimmed text, collapsing whitespace is joining the words with one
      space: the `re.sub` formulation and the `split`/`join` formulation of
      whitespace normalisation agree. */
  lemma {:induction false} CollapseIsJoinOfWords(s: string)
    requires Trimmed(s)
    ensures Collapse(s) == Join(Words(s), " ")
    decreases |s|
  {
    if |s| > 0 {
      var n := WordRun(s);
      WordsOfWordThenRest(s);
      if n == |s| {
        SingleWord(s);
      } else {
        var rest := s[n..];
        var k := SpaceRun(rest);
        assert k < |rest| by {
          assert rest[|rest| - 1] == s[|s| - 1];
        }
        var r2 := rest[k..];
        assert Trimmed(r2) by {
          assert r2[|r2| - 1] == s[|s| - 1];
        }
        CollapseIsJoinOfWords(r2);
        SeveralWords(s, r2);
      }
    }
  }

  lemma SingleWord(s: string)
    requires Trimmed(s) && |s| > 0 && WordRun(s) == |s|
    ensures Collapse(s) == Join(Words(s), " ")
  {
    WordsOfWordThenRest(s);
    assert s[..|s|] == s;
    assert s[|s|..] == [];
    CollapseWordPrefix(s, []);
    assert s + [] == s;
  }

  lemma SeveralWords(s: string, r2: string)
    requires Trimmed(s) && |s| > 0 && WordRun(s) < |s|
    requires r2 == s[WordRun(s)..][SpaceRun(s[WordRun(s)..])..]
    requires |r2| > 0 && !IsSpace(r2[0])
    requires Collapse(r2) == Join(Words(r2), " ")
    ensures Collapse(s) == Join(Words(s), " ")
  {
    CollapseSplit(s, r2);
    WordsSplit(s, r2);
  }

  lemma CollapseSplit(s: string, r2: string)
    requires |s| > 0 && WordRun(s) < |s|
    requires r2 == s[WordRun(s)..][SpaceRun(s[WordRun(s)..])..]
    ensures Collapse(s) == s[..WordRun(s)] + " " + Collapse(r2)
  {
    var n := WordRun(s);
    var w := s[..n];
    var rest := s[n..];
    assert w + rest == s;
    CollapseWordPrefix(w, rest);
    CollapseOfSpaceThenRest(rest);
    assert w + ([' '] + Collapse(r2)) == w + " " + Collapse(r2);
  }

  lemma WordsSplit(s: string, r2: string)
    requires Trimmed(s) && |s| > 0 && WordRun(s) < |s|
    requires r2 == s[WordRun(s)..][SpaceRun(s[WordRun(s)..])..]
    requires |r2| > 0 && !IsSpace(r2[0])
    ensures Join(Words(s), " ") == s[..WordRun(s)] + " " + Join(Words(r2), " ")
  {
    var n := WordRun(s);
    var rest := s[n..];
    WordsOfWordThenRest(s);
    WordsIgnoreLeadingSpace(rest);
    WordsNonEmpty(r2);
    JoinCons(s[..n], Words(r2), " ");
  }

  lemma JoinCons(w: string, ws: seq<string>, sep: string)
    requires |ws| > 0
    ensures Join([w] + ws, sep) == w + sep + Join(ws, sep)
  {
    assert ([w] + ws)[1..] == ws;
  }

  /** A trimmed non-empty string splits into its first word and the rest. */
  lemma WordsOfWordThenRest(s: string)
    requires Trimmed(s) && |s| > 0
    ensures WordRun(s) > 0
    ensures Words(s) == [s[..WordRun(s)]] + Words(s[WordRun(s)..])
    ensures WordRun(s) < |s| ==> IsSpace(s[WordRun(s)])
  {
    assert SpaceRun(s) == 0;
    assert s[0..] == s;
  }

  lemma WordsNonEmpty(s: string)
    requires |s| > 0 && !IsSpace(s[0])
    ensures |Words(s)| > 0
  {
    assert SpaceRun(s) == 0;
    assert s[0..] == s;
  }

  lemma CollapseOfSpaceThenRest(s: string)
    requires |s| > 0 && IsSpace(s[0])
    ensures Collapse(s) == [' '] + Collapse(s[SpaceRun(s)..])
  {
  }

  lemma {:induction false} NoSpaceNoPair(s: string)
    requires NoSpace(s)
    ensures NoPair(s, ' ', ' ')
    decreases |s|
  {
    if |s| >= 2 {
      NoSpaceNoPair(s[1..]);
    }
  }

  /** Words joined by single spaces form a normalized string. */
  lemma {:induction false} JoinOfWordsIsNormalized(ws: seq<string>)
    requires forall i :: 0 <= i < |ws| ==> |ws[i]| > 0 && NoSpace(ws[i])
    ensures Normalized(Join(ws, " "))
    ensures |ws| > 0 ==> |Join(ws, " ")| > 0
    decreases |ws|
  {
    if |ws| == 1 {
      NoSpaceNoPair(ws[0]);
    } else if |ws| > 1 {
      JoinOfWordsIsNormalized(ws[1..]);
      var tail := Join(ws[1..], " ");
      var j := ws[0] + " " + tail;
      assert j == Join(ws, " ");
      NoPairOfWordThenTail(ws[0], tail);
      assert j[0] == ws[0][0];
      assert j[|j| - 1] == tail[|tail| - 1];
      forall i | 0 <= i < |j| && IsSpace(j[i]) ensures j[i] == ' ' {
        if i > |ws[0]| {
          assert j[i] == tail[i - |ws[0]| - 1];
        }
      }
    }
  }

  /** A space-free word, a space and a normalized non-empty tail contain no
      double space. */
  lemma {:induction false} NoPairOfWordThenTail(w: string, tail: string)
    requires NoSpace(w) && |tail| > 0 && tail[0] != ' ' && NoPair(tail, ' ', ' ')
    ensures NoPair(w + " " + tail, ' ', ' ')
    decreases |w|
  {
    var s := w + " " + tail;
    if |w| == 0 {
      assert s == [' '] + tail;
      assert s[1..] == tail;
    } else {
      assert s[1..] == w[1..] + " " + tail;
      NoPairOfWordThenTail(w[1..], tail);
    }
  }

  /** Concatenation creates no new `a`-`b` pair unless one straddles the
      seam. */
  lemma {:induction false} NoPairConcat(x: string, y: string, a: char, b: char)
    requires NoPair(x, a, b) && NoPair(y, a, b)
    requires |x| > 0 && |y| > 0 ==> !(x[|x| - 1] == a && y[0] == b)
    ensures NoPair(x + y, a, b)
    decreases |x|
  {
    if |x| == 0 {
      assert x + y == y;
    } else if |x| == 1 {
      assert (x + y)[1..] == y;
    } else {
      assert (x + y)[1..] == x[1..] + y;
      NoPairConcat(x[1..], y, a, b);
    }
  }

  /** Two normalized non-empty strings joined by one space form a
      normalized string. */
  lemma JoinTwoNormalized(x: string, y: string)
    requires Normalized(x) && Normalized(y) && |x| > 0 && |y| > 0
    ensures Normalized(x + " " + y)
  {
    var j := x + " " + y;
    NormalizedFacts(x);
    NormalizedFacts(y);
    NoPairConcat(x, " ", ' ', ' ');
    NoPairConcat(x + " ", y, ' ', ' ');
    assert j[0] == x[0];
    assert j[|j| - 1] == y[|y| - 1];
    forall i | 0 <= i < |j| && IsSpace(j[i]) ensures j[i] == ' ' {
      if i > |x| {
        assert j[i] == y[i - |x| - 1];
      }
    }
  }

  /** Normalized non-empty strings joined by single spaces form a normalized
      non-empty string. */
  lemma {:induction false} JoinOfNormalized(ws: seq<string>)
    requires forall i :: 0 <= i < |ws| ==> |ws[i]| > 0 && Normalized(ws[i])
    ensures Normalized(Join(ws, " "))
    ensures |ws| > 0 ==> |Join(ws, " ")| > 0
    decreases |ws|
  {
    if |ws| > 1 {
      JoinOfNormalized(ws[1..]);
      JoinTwoNormalized(ws[0], Join(ws[1..], " "));
    }
  }

  /** `Contains` as a search for a starting position. */
  lemma {:induction false} ContainsAt(s: string, p: string, i: nat)
    requires i + |p| <= |s| && s[i..i + |p|] == p
    ensures Contains(s, p)
    decreases i
  {
    if i > 0 {
      assert s[1..][i - 1..i - 1 + |p|] == s[i..i + |p|];
      ContainsAt(s[1..], p, i - 1);
    } else {
      assert s[..|p|] == s[0..0 + |p|];
    }
  }

  lemma {:induction false} ContainsWitness(s: string, p: string) returns (i: nat)
    requires Contains(s, p)
    ensures i + |p| <= |s| && s[i..i + |p|] == p
    decreases |s|
  {
    if StartsWith(s, p) {
      i := 0;
    } else {
      var j := ContainsWitness(s[1..], p);
      assert s[1..][j..j + |p|] == s[j + 1..j + 1 + |p|];
      i := j + 1;
    }
  }

  /** Substrings are transitive: a string containing `q`, which contains `p`,
      contains `p`. */
  lemma ContainsTransitive(s: string, q: string, p: string)
    requires Contains(s, q) && Contains(q, p)
    ensures Contains(s, p)
  {
    var i := ContainsWitness(s, q);
    var j := ContainsWitness(q, p);
    forall k | 0 <= k < |p| ensures s[i + j + k] == p[k] {
      assert s[i..i + |q|][j + k] == q[j + k];
      assert q[j..j + |p|][k] == q[j + k];
    }
    assert s[i + j..i + j + |p|] == p;
    ContainsAt(s, p, i + j);
  }
}
