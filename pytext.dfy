/** The Python `str` operations the server applies to request and completion
    text: `strip()`, `in`, `split(sep)`, `split(sep, 1)` and `split()`.
    Strings are sequences of Unicode scalar values, as Python strings are once
    lone surrogates are excluded. */
module PyText {
  import opened Results

  /** `c.isspace()`: the characters CPython's `str.split()` and `str.strip()`
      treat as whitespace (bidirectional class WS, B or S, or category Zs). */
  predicate IsSpace(c: char) {
    || ('\t' <= c <= '\r')
    || ('\U{1c}' <= c <= ' ')
    || c == '\U{85}' || c == '\U{a0}' || c == '\U{1680}'
    || ('\U{2000}' <= c <= '\U{200a}')
    || c == '\U{2028}' || c == '\U{2029}' || c == '\U{202f}' || c == '\U{205f}'
    || c == '\U{3000}'
  }

  predicate AllSpace(s: string) {
    forall i :: 0 <= i < |s| ==> IsSpace(s[i])
  }

  predicate NoSpace(s: string) {
    forall i :: 0 <= i < |s| ==> !IsSpace(s[i])
  }

  /** The number of whitespace characters that start `s`. */
  function LeadingSpace(s: string): (n: nat)
    ensures n <= |s| && AllSpace(s[..n])
    ensures n == |s| || !IsSpace(s[n])
  {
    if s != [] && IsSpace(s[0]) then
      var n := 1 + LeadingSpace(s[1..]);
      assert s[..n] == [s[0]] + s[1..][..n - 1];
      n
    else 0
  }

  /** The number of whitespace characters that end `s`. */
  function TrailingSpace(s: string): (n: nat)
    ensures n <= |s| && AllSpace(s[|s| - n..])
    ensures n == |s| || !IsSpace(s[|s| - 1 - n])
  {
    if s != [] && IsSpace(s[|s| - 1]) then
      var p := s[..|s| - 1];
      var m := TrailingSpace(p);
      assert forall i :: |p| - m <= i < |p| ==> IsSpace(p[i]) by {
        forall i | |p| - m <= i < |p| ensures IsSpace(p[i]) {
          assert p[|p| - m..][i - (|p| - m)] == p[i];
        }
      }
      assert AllSpace(s[|s| - 1 - m..]) by {
        forall i | |s| - 1 - m <= i < |s| ensures IsSpace(s[i]) {
          if i < |s| - 1 {
            assert s[i] == p[i];
          }
        }
      }
      assert m < |p| ==> s[|s| - 2 - m] == p[|p| - 1 - m];
      1 + m
    else 0
  }

  /** A prefix of the slice `s[i..]` is a slice of `s`, and its ends are
      characters of `s[i..]`. */
  lemma SliceOfSlice(s: string, i: nat, k: nat)
    requires i + k <= |s|
    ensures s[i..][..k] == s[i..i + k]
    ensures k > 0 ==> s[i..][..k][0] == s[i] && s[i..][..k][k - 1] == s[i..][k - 1]
  {
  }

  /** Whitespace that ends the slice `s[i..]` ends `s` too. */
  lemma SpaceSuffixOfSlice(s: string, i: nat, k: nat)
    requires i + k <= |s|
    requires AllSpace(s[i..][k..])
    ensures AllSpace(s[i + k..])
  {
    forall j | i + k <= j < |s| ensures IsSpace(s[j]) {
      assert s[j] == s[i..][k..][j - i - k];
    }
  }

  /** `s.strip()`: the text between the leading and the trailing whitespace.
      Everything before and after it in `s` is whitespace, and it neither
      starts nor ends with whitespace. */
  function Strip(s: string): (r: string)
    ensures LeadingSpace(s) + |r| <= |s|
    ensures var i := LeadingSpace(s);
      && r == s[i..i + |r|]
      && AllSpace(s[..i])
      && AllSpace(s[i + |r|..])
    ensures r == [] || (!IsSpace(r[0]) && !IsSpace(r[|r| - 1]))
  {
    var i := LeadingSpace(s);
    var t := s[i..];
    var m := TrailingSpace(t);
    var r := t[..|t| - m];
    SliceOfSlice(s, i, |t| - m);
    SpaceSuffixOfSlice(s, i, |t| - m);
    r
  }

  /** The whitespace count of a whitespace run followed by a text that does
      not start with whitespace is the length of the run. */
  lemma {:induction false} LeadingSpaceOfPadded(w: string, x: string)
    requires AllSpace(w)
    requires x == [] || !IsSpace(x[0])
    ensures LeadingSpace(w + x) == |w|
    decreases |w|
  {
    if w != [] {
      assert (w + x)[1..] == w[1..] + x;
      LeadingSpaceOfPadded(w[1..], x);
    } else {
      assert w + x == x;
    }
  }

  /** The mirror image of `LeadingSpaceOfPadded`. */
  lemma {:induction false} TrailingSpaceOfPadded(x: string, w: string)
    requires AllSpace(w)
    requires x == [] || !IsSpace(x[|x| - 1])
    ensures TrailingSpace(x + w) == |w|
    decreases |w|
  {
    if w != [] {
      var s := x + w;
      assert s[..|s| - 1] == x + w[..|w| - 1];
      TrailingSpaceOfPadded(x, w[..|w| - 1]);
    } else {
      assert x + w == x;
    }
  }

  /** `p` occurs in `s` starting at index `i`. */
  predicate OccursAt(s: string, p: string, i: int) {
    0 <= i && i + |p| <= |s| && s[i..i + |p|] == p
  }

  /** The first occurrence of `p` in `s` at or after index `i`. */
  function FindFrom(s: string, p: string, i: nat): (r: Option<nat>)
    ensures r.Some? ==>
      && i <= r.value
      && OccursAt(s, p, r.value)
      && forall j :: i <= j < r.value ==> !OccursAt(s, p, j)
    ensures r.None? ==> forall j :: i <= j ==> !OccursAt(s, p, j)
    decreases |s| - i
  {
    if i + |p| > |s| then None
    else if s[i..i + |p|] == p then Some(i)
    else FindFrom(s, p, i + 1)
  }

  /** `s.find(p)`, with `None` for Python's -1. */
  function Find(s: string, p: string): (r: Option<nat>)
    ensures r.Some? ==>
      && OccursAt(s, p, r.value)
      && forall j :: 0 <= j < r.value ==> !OccursAt(s, p, j)
    ensures r.None? ==> forall j :: !OccursAt(s, p, j)
  {
    FindFrom(s, p, 0)
  }

  /** `p in s`. */
  predicate Contains(s: string, p: string) {
    Find(s, p).Some?
  }

  /** `s.split(p)[0]`: the text before the first occurrence of `p`, or all
      of `s` when `p` does not occur. */
  function Before(s: string, p: string): (r: string)
    requires p != []
    ensures |r| <= |s| && r == s[..|r|]
    ensures forall j :: 0 <= j < |r| ==> !OccursAt(s, p, j)
    ensures r == s || OccursAt(s, p, |r|)
  {
    match Find(s, p)
    case Some(i) => s[..i]
    case None => s
  }

  /** `s.split(p, 1)` when `p in s`: the text before and after the first
      occurrence of `p`; `None` when `p` does not occur. */
  function SplitOnce(s: string, p: string): (r: Option<(string, string)>)
    requires p != []
    ensures r.Some? <==> Contains(s, p)
    ensures r.Some? ==>
      && s == r.value.0 + p + r.value.1
      && forall j :: 0 <= j < |r.value.0| ==> !OccursAt(s, p, j)
  {
    match Find(s, p)
    case Some(i) =>
      assert s == s[..i] + p + s[i + |p|..] by {
        assert s[i..i + |p|] == p;
      }
      Some((s[..i], s[i + |p|..]))
    case None => None
  }

  /** Length of the run of non-whitespace characters that starts `s`. */
  function WordEnd(s: string): (k: nat)
    ensures k <= |s| && NoSpace(s[..k])
    ensures k == |s| || IsSpace(s[k])
  {
    if s == [] || IsSpace(s[0]) then 0
    else
      var k := 1 + WordEnd(s[1..]);
      assert s[..k] == [s[0]] + s[1..][..k - 1];
      k
  }

  /** `s.split()`: the maximal runs of non-whitespace characters, in order. */
  function SplitWhitespace(s: string): (r: seq<string>)
    ensures forall t :: t in r ==> t != [] && NoSpace(t)
    decreases |s|
  {
    if s == [] then []
    else if IsSpace(s[0]) then SplitWhitespace(s[1..])
    else
      var k := WordEnd(s);
      [s[..k]] + SplitWhitespace(s[k..])
  }

  /** `strip()` is determined by its result: whatever neither starts nor
      ends with whitespace is what `strip()` returns once whitespace is put
      around it. */
  lemma StripOfPadded(w1: string, t: string, w2: string)
    requires AllSpace(w1) && AllSpace(w2)
    requires t == [] || (!IsSpace(t[0]) && !IsSpace(t[|t| - 1]))
    ensures Strip(w1 + t + w2) == t
  {
    var s := w1 + t + w2;
    if t == [] {
      assert AllSpace(s) && s == s + [];
      LeadingSpaceOfPadded(s, []);
    } else {
      assert s == w1 + (t + w2);
      LeadingSpaceOfPadded(w1, t + w2);
      assert s[|w1|..] == t + w2;
      TrailingSpaceOfPadded(t, w2);
    }
  }

  /** A text that neither starts nor ends with whitespace is its own
      `strip()`. */
  lemma StripOfSolid(t: string)
    requires t == [] || (!IsSpace(t[0]) && !IsSpace(t[|t| - 1]))
    ensures Strip(t) == t
  {
    StripOfPadded([], t, []);
    assert [] + t + [] == t;
  }

  /** `s.strip().strip() == s.strip()`. */
  lemma StripIdempotent(s: string)
    ensures Strip(Strip(s)) == Strip(s)
  {
    StripOfSolid(Strip(s));
  }

  /** Splitting whitespace alone yields no words. */
  lemma {:induction false} SplitWhitespaceOfSpaces(w: string)
    requires AllSpace(w)
    ensures SplitWhitespace(w) == []
    decreases |w|
  {
    if w != [] {
      SplitWhitespaceOfSpaces(w[1..]);
    }
  }

  /** A non-empty run without whitespace is one word. */
  lemma SplitWhitespaceOfWord(t: string)
    requires t != [] && NoSpace(t)
    ensures SplitWhitespace(t) == [t]
  {
    WordEndUnique(t, |t|);
    assert t[..|t|] == t;
    assert t[|t|..] == [];
  }

  /** Any whitespace character separates: the words of `a + [c] + b` are the
      words of `a` followed by the words of `b`. */
  lemma {:induction false} SplitWhitespaceAtSpace(a: string, c: char, b: string)
    requires IsSpace(c)
    ensures SplitWhitespace(a + [c] + b) == SplitWhitespace(a) + SplitWhitespace(b)
    decreases |a|, 1
  {
    if a == [] {
      assert (a + [c] + b)[1..] == b;
    } else if IsSpace(a[0]) {
      SpaceFirstThenSpace(a, c, b);
    } else if WordEnd(a) < |a| {
      WordFirstThenSpace(a, c, b);
    } else {
      WholeWordThenSpace(a, c, b);
    }
  }

  /** `SplitWhitespaceAtSpace` when `a` starts with whitespace. */
  lemma {:induction false} SpaceFirstThenSpace(a: string, c: char, b: string)
    requires IsSpace(c) && a != [] && IsSpace(a[0])
    ensures SplitWhitespace(a + [c] + b) == SplitWhitespace(a) + SplitWhitespace(b)
    decreases |a|, 0
  {
    assert (a + [c] + b)[1..] == a[1..] + [c] + b;
    SplitWhitespaceAtSpace(a[1..], c, b);
  }

  /** `SplitWhitespaceAtSpace` when the first word of `a` ends inside `a`. */
  lemma {:induction false} WordFirstThenSpace(a: string, c: char, b: string)
    requires IsSpace(c) && a != [] && !IsSpace(a[0]) && WordEnd(a) < |a|
    ensures SplitWhitespace(a + [c] + b) == SplitWhitespace(a) + SplitWhitespace(b)
    decreases |a|, 0
  {
    var ka := WordEnd(a);
    var w := a[..ka];
    WordInsidePrefix(a, c, b);
    SplitWhitespaceAtSpace(a[ka..], c, b);
    assert [w] + (SplitWhitespace(a[ka..]) + SplitWhitespace(b))
      == ([w] + SplitWhitespace(a[ka..])) + SplitWhitespace(b);
  }

  /** When the first word of `a` ends inside `a`, it is also the first word
      of `a + [c] + b`, and the rest of the text follows it. */
  lemma WordInsidePrefix(a: string, c: char, b: string)
    requires a != [] && !IsSpace(a[0]) && IsSpace(c) && WordEnd(a) < |a|
    ensures var ka := WordEnd(a);
      && SplitWhitespace(a) == [a[..ka]] + SplitWhitespace(a[ka..])
      && SplitWhitespace(a + [c] + b) == [a[..ka]] + SplitWhitespace(a[ka..] + [c] + b)
  {
    var s := a + [c] + b;
    var ka := WordEnd(a);
    assert a[..ka] == s[..ka];
    assert s[ka] == a[ka];
    WordEndUnique(s, ka);
    assert s[ka..] == a[ka..] + [c] + b;
  }

  /** A text without whitespace, then whitespace: the text is the first
      word and the words after it are those of `b`. */
  lemma WholeWordThenSpace(a: string, c: char, b: string)
    requires a != [] && !IsSpace(a[0]) && IsSpace(c) && WordEnd(a) == |a|
    ensures SplitWhitespace(a) == [a]
    ensures SplitWhitespace(a + [c] + b) == [a] + SplitWhitespace(b)
  {
    var s := a + [c] + b;
    assert a == s[..|a|];
    assert s[|a|] == c;
    WordEndUnique(s, |a|);
    assert s[|a|..] == [c] + b;
    assert SplitWhitespace([c] + b) == SplitWhitespace(b) by {
      assert ([c] + b)[1..] == b;
    }
    assert a[..|a|] == a && a[|a|..] == [];
  }

  /** `WordEnd` is the only split point where a non-whitespace run meets
      whitespace or the end. */
  lemma {:induction false} WordEndUnique(s: string, k: nat)
    requires k <= |s| && NoSpace(s[..k])
    requires k == |s| || IsSpace(s[k])
    ensures WordEnd(s) == k
    decreases k
  {
    if k > 0 {
      assert s[..k][0] == s[0];
      assert s[1..][..k - 1] == s[..k][1..];
      WordEndUnique(s[1..], k - 1);
    }
  }

  /** Leading or trailing whitespace never changes the words: `s.strip().split()
      == s.split()`. */
  lemma SplitWhitespaceOfStrip(s: string)
    ensures SplitWhitespace(Strip(s)) == SplitWhitespace(s)
  {
    var r := Strip(s);
    var i := LeadingSpace(s);
    var w1, w2 := s[..i], s[i + |r|..];
    assert s == w1 + r + w2;
    SplitWhitespacePadded(w1, r, w2);
  }

  /** Whitespace around a text adds no words. */
  lemma {:induction false} SplitWhitespacePadded(w1: string, t: string, w2: string)
    requires AllSpace(w1) && AllSpace(w2)
    ensures SplitWhitespace(w1 + t + w2) == SplitWhitespace(t)
    decreases |w1| + |w2|
  {
    if w1 != [] {
      assert w1 + t + w2 == [] + [w1[0]] + (w1[1..] + t + w2);
      SplitWhitespaceAtSpace([], w1[0], w1[1..] + t + w2);
      SplitWhitespacePadded(w1[1..], t, w2);
    } else if w2 != [] {
      assert w1 + t + w2 == t + [w2[0]] + w2[1..];
      SplitWhitespaceAtSpace(t, w2[0], w2[1..]);
      SplitWhitespaceOfSpaces(w2[1..]);
    } else {
      assert w1 + t + w2 == t;
    }
  }

  /** An occurrence of `p` in `a + m + b`, where no character of `m` occurs
      in `p`, lies wholly inside `a` or wholly inside `b`. */
  lemma OccursAtAround(a: string, m: string, b: string, p: string, j: int)
    requires OccursAt(a + m + b, p, j)
    requires p != [] && m != []
    requires forall i :: 0 <= i < |m| ==> m[i] !in p
    ensures || (j + |p| <= |a| && OccursAt(a, p, j))
            || (j >= |a| + |m| && OccursAt(b, p, j - |a| - |m|))
  {
    var s := a + m + b;
    assert forall k :: j <= k < j + |p| ==> s[k] == p[k - j] && s[k] in p;
    assert forall k :: |a| <= k < |a| + |m| ==> s[k] == m[k - |a|] && s[k] !in p;
    // the first position of `m` or of the occurrence, whichever is later
    var k := if j < |a| then |a| else j;
    assert j <= k && |a| <= k && k < |s|;
    var c := s[k];
    if j + |p| <= |a| {
      assert s[j..j + |p|] == a[j..j + |p|];
    } else if j >= |a| + |m| {
      assert s[j..j + |p|] == b[j - |a| - |m|..j - |a| - |m| + |p|];
    } else {
      assert false;
    }
  }

  /** A text without some character of `p` does not contain `p`. */
  lemma NotContainsWithout(s: string, p: string, k: nat)
    requires k < |p|
    requires p[k] !in s
    ensures !Contains(s, p)
  {
    forall j | 0 <= j && j + |p| <= |s| ensures !OccursAt(s, p, j) {
      assert s[j..j + |p|][k] == s[j + k];
    }
  }

  /** `Find` returns the first occurrence. */
  lemma FindFirst(s: string, p: string, i: nat)
    requires OccursAt(s, p, i)
    requires forall j :: 0 <= j < i ==> !OccursAt(s, p, j)
    ensures Find(s, p) == Some(i)
  {
  }

  /** The text before the first `'\n'` of `x + y`, when `x` has none, runs on
      into `y`. */
  lemma BeforeLineBreakConcat(x: string, y: string)
    requires '\n' !in x
    ensures Before(x + y, "\n") == x + Before(y, "\n")
  {
    var s := x + y;
    var r := Before(y, "\n");
    forall j | 0 <= j < |x| ensures !OccursAt(s, "\n", j) {
      assert s[j..j + 1] == [x[j]];
    }
    forall j | |x| <= j < |x| + |r| ensures !OccursAt(s, "\n", j) {
      assert s[j..j + 1] == y[j - |x|..j - |x| + 1];
      assert !OccursAt(y, "\n", j - |x|);
    }
    if r == y {
      assert s == x + r;
      assert Find(s, "\n").None?;
    } else {
      assert s[|x| + |r|..|x| + |r| + 1] == y[|r|..|r| + 1];
      FindFirst(s, "\n", |x| + |r|);
      assert s[..|x| + |r|] == x + r;
    }
  }

  /** An occurrence stays put when text is appended. */
  lemma OccursAtExtend(a: string, y: string, p: string, j: int)
    requires OccursAt(a, p, j)
    ensures OccursAt(a + y, p, j)
  {
    assert (a + y)[j..j + |p|] == a[j..j + |p|];
  }

  /** An occurrence moves right by the length of text prepended. */
  lemma OccursAtShift(x: string, b: string, p: string, j: int)
    requires OccursAt(b, p, j)
    ensures OccursAt(x + b, p, j + |x|)
  {
    assert (x + b)[j + |x|..j + |x| + |p|] == b[j..j + |p|];
  }
}
