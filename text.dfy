/**
 * The handful of Python `str` operations the command sender relies on:
 * whitespace tests and `strip`, case mapping, substring tests, `replace`
 * with an empty replacement and `title`. Case mapping covers ASCII letters;
 * every other character is left as it is.
 */
module PyText {
  import opened Common

  /** `c.isspace()`: Python's Unicode whitespace set (also what `\s` matches in a `str` regex). */
  predicate IsSpace(c: char) {
    || c == ' '
    || ('\t' <= c <= '\r')
    || ('\U{1C}' <= c <= '\U{1F}')
    || c == '\U{85}' || c == '\U{A0}' || c == '\U{1680}'
    || ('\U{2000}' <= c <= '\U{200A}')
    || c == '\U{2028}' || c == '\U{2029}' || c == '\U{202F}' || c == '\U{205F}' || c == '\U{3000}'
  }

  predicate AllSpace(s: string) {
    forall i :: 0 <= i < |s| ==> IsSpace(s[i])
  }

  /** Length of the longest prefix of `s` whose characters all satisfy `p` (a greedy `[...]*` in a regex). */
  function Span(s: string, p: char -> bool): (k: nat)
    ensures k <= |s|
    ensures forall i :: 0 <= i < k ==> p(s[i])
    ensures k < |s| ==> !p(s[k])
  {
    if s != [] && p(s[0]) then 1 + Span(s[1..], p) else 0
  }

  /** A greedy span stops exactly where its run of matching characters ends. */
  lemma {:induction false} SpanConcat(a: string, b: string, p: char -> bool)
    requires forall i :: 0 <= i < |a| ==> p(a[i])
    requires b != [] ==> !p(b[0])
    ensures Span(a + b, p) == |a|
  {
    if a != [] {
      assert (a + b)[1..] == a[1..] + b;
      SpanConcat(a[1..], b, p);
    }
  }

  /** Length of the longest whitespace prefix of `s`. */
  function SpaceRun(s: string): (k: nat)
    ensures k <= |s| && forall i :: 0 <= i < k ==> IsSpace(s[i])
    ensures k < |s| ==> !IsSpace(s[k])
  {
    Span(s, IsSpace)
  }

  /** Length of the longest suffix of `s` made of whitespace. */
  function TrailingSpaceRun(s: string): (k: nat)
    ensures k <= |s| && forall i :: |s| - k <= i < |s| ==> IsSpace(s[i])
    ensures k < |s| ==> !IsSpace(s[|s| - k - 1])
  {
    if s != [] && IsSpace(s[|s| - 1]) then
      var init := s[..|s| - 1];
      var k := 1 + TrailingSpaceRun(init);
      assert forall i :: |s| - k <= i < |s| - 1 ==> s[i] == init[i];
      k
    else 0
  }

  /**
   * `s.strip()` with no argument: whitespace removed at both ends. When `s`
   * holds a non-space character the two runs cannot meet.
   */
  function Strip(s: string): (r: string)
    ensures r != [] ==> !IsSpace(r[0]) && !IsSpace(r[|r| - 1])
  {
    var i := SpaceRun(s);
    var t := TrailingSpaceRun(s);
    if i == |s| then [] else s[i..|s| - t]
  }

  /** `strip` keeps a slice of `s` and drops only whitespace on either side of it. */
  lemma StripKeepsSlice(s: string)
    ensures exists i, j :: 0 <= i <= j <= |s| && Strip(s) == s[i..j] && AllSpace(s[..i]) && AllSpace(s[j..])
  {
    var i := SpaceRun(s);
    var j := if i == |s| then |s| else |s| - TrailingSpaceRun(s);
    assert Strip(s) == s[i..j];
    assert AllSpace(s[..i]) by {
      assert forall k :: 0 <= k < i ==> s[..i][k] == s[k];
    }
    assert AllSpace(s[j..]) by {
      assert forall k :: 0 <= k < |s| - j ==> s[j..][k] == s[j + k];
    }
  }

  /** A line is blank, in the sense of `not line.strip()`, exactly when it is all whitespace. */
  lemma StripEmptyIffBlank(s: string)
    ensures Strip(s) == [] <==> AllSpace(s)
  {
    var i := SpaceRun(s);
    if !AllSpace(s) {
      var k :| 0 <= k < |s| && !IsSpace(s[k]);
      assert i <= k;
      assert !IsSpace(s[i]);
      assert i < |s| - TrailingSpaceRun(s);
    }
  }

  predicate IsUpperAscii(c: char) { 'A' <= c <= 'Z' }
  predicate IsLowerAscii(c: char) { 'a' <= c <= 'z' }

  /** Python's notion of a cased character, on the ASCII range. */
  predicate IsCased(c: char) { IsUpperAscii(c) || IsLowerAscii(c) }

  function LowerChar(c: char): (r: char)
    ensures !IsUpperAscii(r)
    ensures IsCased(r) <==> IsCased(c)
    ensures IsUpperAscii(c) || r == c
  {
    if IsUpperAscii(c) then (c as int + 32) as char else c
  }

  function UpperChar(c: char): (r: char)
    ensures !IsLowerAscii(r)
    ensures IsCased(r) <==> IsCased(c)
    ensures IsLowerAscii(c) || r == c
  {
    if IsLowerAscii(c) then (c as int - 32) as char else c
  }

  /** `s.lower()`. */
  function Lower(s: string): (r: string)
    ensures |r| == |s|
    ensures forall i :: 0 <= i < |s| ==> r[i] == LowerChar(s[i])
  {
    seq(|s|, i requires 0 <= i < |s| => LowerChar(s[i]))
  }

  /** `s.upper()`. */
  function Upper(s: string): (r: string)
    ensures |r| == |s|
    ensures forall i :: 0 <= i < |s| ==> r[i] == UpperChar(s[i])
  {
    seq(|s|, i requires 0 <= i < |s| => UpperChar(s[i]))
  }

  /** `s.title()`: a cased character is upper-cased when the character before it is not cased, lower-cased otherwise. */
  function Title(s: string): (r: string)
    ensures |r| == |s|
    ensures forall i :: 0 <= i < |s| ==> (IsCased(r[i]) <==> IsCased(s[i])) && (IsCased(s[i]) || r[i] == s[i])
  {
    TitleAfterChanges(s, false);
    TitleAfter(s, false)
  }

  /** Every character is lower-cased or upper-cased, nothing else. */
  lemma TitleAfterChanges(s: string, previousIsCased: bool)
    ensures forall i :: 0 <= i < |s| ==>
      TitleAfter(s, previousIsCased)[i] == LowerChar(s[i]) || TitleAfter(s, previousIsCased)[i] == UpperChar(s[i])
  {
    var r := TitleAfter(s, previousIsCased);
    forall i | 0 <= i < |s|
      ensures r[i] == LowerChar(s[i]) || r[i] == UpperChar(s[i])
    {
      if i > 0 {
        assert r[i] == if IsCased(s[i - 1]) then LowerChar(s[i]) else UpperChar(s[i]);
      }
    }
  }

  function TitleAfter(s: string, previousIsCased: bool): (r: string)
    ensures |r| == |s|
    ensures s != [] ==> r[0] == if previousIsCased then LowerChar(s[0]) else UpperChar(s[0])
    ensures forall i :: 0 < i < |s| ==> r[i] == if IsCased(s[i - 1]) then LowerChar(s[i]) else UpperChar(s[i])
  {
    if s == [] then []
    else
      [if previousIsCased then LowerChar(s[0]) else UpperChar(s[0])] + TitleAfter(s[1..], IsCased(s[0]))
  }

  /** `s.startswith(p)`. */
  predicate StartsWith(s: string, p: string) {
    |p| <= |s| && s[..|p|] == p
  }

  /** `p in s` on strings: `p` occurs in `s` at some position. */
  predicate Contains(s: string, p: string)
    decreases |s|
  {
    StartsWith(s, p) || (s != [] && Contains(s[1..], p))
  }

  /** `s.replace(p, "")`: the non-overlapping occurrences of `p`, found left to right, are removed. */
  function RemoveAll(s: string, p: string): (r: string)
    requires p != []
    ensures |r| <= |s|
    decreases |s|
  {
    if |s| < |p| then s
    else if s[..|p|] == p then RemoveAll(s[|p|..], p)
    else [s[0]] + RemoveAll(s[1..], p)
  }

  /** `s.replace(c, rep)` for a single-character pattern: every `c` becomes `rep`. */
  function ReplaceChar(s: string, c: char, rep: string): (r: string)
    ensures c !in rep ==> c !in r
    ensures forall d :: d in r ==> d in s || d in rep
    ensures c !in s ==> r == s
    ensures |s| == 1 ==> r == if s[0] == c then rep else s
  {
    if s == [] then []
    else (if s[0] == c then rep else [s[0]]) + ReplaceChar(s[1..], c, rep)
  }

  // ---------------------------------------------------------------------
  // Facts about concatenations, used to evaluate the operations above on
  // concrete lines one piece at a time.
  // ---------------------------------------------------------------------

  lemma NotStartsWithAt(s: string, p: string, j: nat)
    requires j < |p| && j < |s| && s[j] != p[j]
    ensures !StartsWith(s, p)
  {
    if |p| <= |s| {
      assert s[..|p|][j] != p[j];
    }
  }

  /** A string contains every string placed inside it. */
  lemma {:induction false} ContainsMiddle(a: string, p: string, b: string)
    ensures Contains(a + p + b, p)
    decreases |a|
  {
    if a == [] {
      assert a + p + b == p + b;
      assert (p + b)[..|p|] == p;
    } else {
      assert (a + p + b)[1..] == a[1..] + p + b;
      ContainsMiddle(a[1..], p, b);
    }
  }

  /** A string lacking one of the characters of `p` does not contain `p`. */
  lemma {:induction false} MissingCharNotContained(s: string, p: string, c: char)
    requires c in p && c !in s
    ensures !Contains(s, p)
    decreases |s|
  {
    if |p| <= |s| {
      var j :| 0 <= j < |p| && p[j] == c;
      assert s[..|p|][j] != p[j];
    }
    if s != [] {
      assert c !in s[1..];
      MissingCharNotContained(s[1..], p, c);
    }
  }

  lemma RemoveAllHead(p: string, b: string)
    requires p != []
    ensures RemoveAll(p + b, p) == RemoveAll(b, p)
  {
    assert (p + b)[..|p|] == p;
    assert (p + b)[|p|..] == b;
  }

  /**
   * `replace` leaves a prefix `a` alone when no occurrence of `p` can start in
   * it: one character of `p` appears neither in `a` nor in the first |p| - 1
   * characters that follow it.
   */
  lemma {:induction false} RemoveAllKeepsPrefix(a: string, b: string, p: string, c: char)
    requires c in p && c !in a
    requires forall i :: 0 <= i < |b| && i < |p| - 1 ==> b[i] != c
    ensures RemoveAll(a + b, p) == a + RemoveAll(b, p)
    decreases |a|
  {
    if a == [] {
      EmptyPrefix(b);
    } else {
      var s := a + b;
      assert s[0] == a[0] && s[1..] == a[1..] + b;
      RemoveAllKeepsPrefix(a[1..], b, p, c);
      if |p| <= |s| {
        NoMatchBeforeChar(a, b, p, c);
        RemoveAllSkipsHead(s, p);
        HeadTail(a, RemoveAll(b, p));
      } else {
        assert RemoveAll(s, p) == s;
        assert RemoveAll(b, p) == b;
      }
    }
  }

  lemma RemoveAllSkipsHead(s: string, p: string)
    requires p != [] && |p| <= |s| && s[..|p|] != p
    ensures RemoveAll(s, p) == [s[0]] + RemoveAll(s[1..], p)
  {
  }

  lemma NoMatchBeforeChar(a: string, b: string, p: string, c: char)
    requires c in p && c !in a && a != []
    requires forall i :: 0 <= i < |b| && i < |p| - 1 ==> b[i] != c
    requires |p| <= |a + b|
    ensures (a + b)[..|p|] != p
  {
    var s := a + b;
    var j :| 0 <= j < |p| && p[j] == c;
    if j < |a| {
      assert s[..|p|][j] == a[j];
    } else {
      assert s[..|p|][j] == b[j - |a|];
    }
  }

  /** `replace` of a pattern that does not occur changes nothing. */
  lemma {:induction false} RemoveAllAbsent(s: string, p: string)
    requires p != [] && !Contains(s, p)
    ensures RemoveAll(s, p) == s
    decreases |s|
  {
    if |p| <= |s| {
      RemoveAllAbsent(s[1..], p);
      assert s == [s[0]] + s[1..];
    }
  }

  /** No occurrence of `p` can start inside `a` when `a` lacks the first character of `p`. */
  lemma {:induction false} RemoveAllFirstAbsent(a: string, b: string, p: string)
    requires p != [] && p[0] !in a
    ensures RemoveAll(a + b, p) == a + RemoveAll(b, p)
    decreases |a|
  {
    if a == [] {
      assert a + b == b;
    } else {
      var s := a + b;
      assert s[0] == a[0] && a[0] != p[0];
      if |p| <= |s| {
        assert s[..|p|] != p by {
          assert s[..|p|][0] == s[0];
        }
        assert RemoveAll(s, p) == [s[0]] + RemoveAll(s[1..], p);
        assert s[1..] == a[1..] + b;
        assert p[0] !in a[1..];
        RemoveAllFirstAbsent(a[1..], b, p);
        assert a == [a[0]] + a[1..];
      } else {
        assert RemoveAll(b, p) == b;
      }
    }
  }

  lemma LowerConcat(a: string, b: string)
    ensures Lower(a + b) == Lower(a) + Lower(b)
  {
  }

  /** Text without upper-case letters is its own lower-case form. */
  lemma LowerIdentity(s: string)
    requires forall i :: 0 <= i < |s| ==> !IsUpperAscii(s[i])
    ensures Lower(s) == s
  {
  }

  /** Lower-casing leaves no upper-case letter behind, so doing it twice is doing it once. */
  lemma LowerIdempotent(s: string)
    ensures forall i :: 0 <= i < |s| ==> !IsUpperAscii(Lower(s)[i])
    ensures Lower(Lower(s)) == Lower(s)
  {
    LowerIdentity(Lower(s));
  }

  lemma UpperConcat(a: string, b: string)
    ensures Upper(a + b) == Upper(a) + Upper(b)
  {
  }

  /** `replace` works character by character: replacing in a concatenation replaces in each part. */
  lemma {:induction false} ReplaceCharConcat(a: string, b: string, c: char, rep: string)
    ensures ReplaceChar(a + b, c, rep) == ReplaceChar(a, c, rep) + ReplaceChar(b, c, rep)
  {
    if a != [] {
      var head := if a[0] == c then rep else [a[0]];
      assert (a + b)[0] == a[0] && (a + b)[1..] == a[1..] + b;
      calc {
        ReplaceChar(a + b, c, rep);
        head + ReplaceChar(a[1..] + b, c, rep);
        { ReplaceCharConcat(a[1..], b, c, rep); }
        head + (ReplaceChar(a[1..], c, rep) + ReplaceChar(b, c, rep));
        { Associative(head, ReplaceChar(a[1..], c, rep), ReplaceChar(b, c, rep)); }
        (head + ReplaceChar(a[1..], c, rep)) + ReplaceChar(b, c, rep);
      }
    } else {
      EmptyPrefix(b);
    }
  }

  /** A run of lower-case letters. */
  predicate LowerWord(w: string) {
    w != [] && forall i :: 0 <= i < |w| ==> IsLowerAscii(w[i])
  }

  /** `w.title()` on a lower-case word upper-cases its first letter only. */
  lemma TitleLowerWord(w: string)
    requires LowerWord(w)
    ensures Title(w) == [UpperChar(w[0])] + w[1..]
    ensures Lower(Title(w)) == w
  {
    var r := Title(w);
    forall i | 0 < i < |w| ensures r[i] == w[i] {
      assert IsCased(w[i - 1]);
    }
    assert r == [UpperChar(w[0])] + w[1..];
  }

  lemma {:induction false} TrailingSpaceRunConcat(a: string, b: string)
    requires AllSpace(b)
    requires a != [] ==> !IsSpace(a[|a| - 1])
    ensures TrailingSpaceRun(a + b) == |b|
    decreases |b|
  {
    if b == [] {
      assert a + b == a;
    } else {
      var s := a + b;
      assert s[..|s| - 1] == a + b[..|b| - 1];
      TrailingSpaceRunConcat(a, b[..|b| - 1]);
    }
  }

  /** `strip` removes exactly the whitespace around a text that neither starts nor ends with whitespace. */
  lemma StripSurrounded(pre: string, core: string, post: string)
    requires AllSpace(pre) && AllSpace(post)
    requires core != [] && !IsSpace(core[0]) && !IsSpace(core[|core| - 1])
    ensures Strip(pre + core + post) == core
  {
    var s := pre + core + post;
    assert s == pre + (core + post);
    SpanConcat(pre, core + post, IsSpace);
    TrailingSpaceRunConcat(pre + core, post);
    assert s[|pre|..|s| - |post|] == core;
  }
}
