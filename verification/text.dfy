/**
 * The few Python `str` operations the bot applies to user input and to
 * scraped links: `in` (through a leftmost search), `split(sep)[0]`, `split(sep)[-1]`,
 * `replace(old, "")` and `strip(chars)`.
 */
module Text {

  import opened Dicts

  /** `p` occurs in `s` starting at position `j`. */
  ghost predicate OccursAt(s: string, p: string, j: int) {
    0 <= j && j + |p| <= |s| && s[j..j + |p|] == p
  }

  /** Python's `p in s` for strings. */
  ghost predicate Contains(s: string, p: string) {
    exists j :: OccursAt(s, p, j)
  }

  /**
   * The leftmost occurrence of `p` in `s`. It decides `p in s`, and it is the
   * scan with which `split` and `replace` look for their separator.
   */
  function Find(s: string, p: string): (r: Option<nat>)
    ensures r.Some? ==> OccursAt(s, p, r.value)
    ensures r.Some? ==> forall j :: 0 <= j < r.value ==> !OccursAt(s, p, j)
    ensures r.None? <==> !Contains(s, p)
    decreases |s|
  {
    if |s| < |p| then None
    else if s[..|p|] == p then Some(0)
    else
      assert !OccursAt(s, p, 0) by { assert s[0..|p|] == s[..|p|]; }
      match Find(s[1..], p)
      case None =>
        assert !Contains(s, p) by {
          forall j | 0 < j ensures !OccursAt(s, p, j) {
            TailOccurrence(s, p, j);
          }
        }
        None
      case Some(k) =>
        TailOccurrence(s, p, k + 1);
        assert forall j :: 0 < j <= k ==> !OccursAt(s, p, j) by {
          forall j | 0 < j <= k ensures !OccursAt(s, p, j) {
            TailOccurrence(s, p, j);
          }
        }
        Some(k + 1)
  }

  /**
   * `s.split(sep)[-1]`: the field after the last separator that a
   * left-to-right scan for non-overlapping occurrences finds.
   */
  function LastField(s: string, sep: string): (r: string)
    requires |sep| > 0
    ensures EndsWith(s, r)
    ensures !Contains(r, sep)
    ensures !Contains(s, sep) ==> r == s
    ensures Contains(s, sep) ==> FollowsSeparator(s, sep, r)
    decreases |s|
  {
    match Find(s, sep)
    case None =>
      assert !Contains(s, sep);
      assert s[|s| - |s|..] == s;
      s
    case Some(k) =>
      var field := LastField(s[k + |sep|..], sep);
      LastFieldStep(s, sep, k, field);
      field
  }

  /** `r` is a suffix of `s`. */
  ghost predicate EndsWith(s: string, r: string) {
    |r| <= |s| && r == s[|s| - |r|..]
  }

  /** `r` ends `s`, right after an occurrence of `sep`. */
  ghost predicate FollowsSeparator(s: string, sep: string, r: string) {
    |r| + |sep| <= |s| && OccursAt(s, sep, |s| - |r| - |sep|)
  }

  /** What the field after the occurrence at `k` says about `s` itself. */
  lemma LastFieldStep(s: string, sep: string, k: nat, r: string)
    requires |sep| > 0 && OccursAt(s, sep, k)
    requires EndsWith(s[k + |sep|..], r)
    requires Contains(s[k + |sep|..], sep) ==> FollowsSeparator(s[k + |sep|..], sep, r)
    requires !Contains(s[k + |sep|..], sep) ==> r == s[k + |sep|..]
    ensures EndsWith(s, r)
    ensures FollowsSeparator(s, sep, r)
  {
    var t := s[k + |sep|..];
    SuffixOfSuffix(s, k + |sep|, r);
    assert |t| == |s| - k - |sep|;
    if Contains(t, sep) {
      OccursInSuffix(s, sep, k + |sep|, |t| - |r| - |sep|);
      assert k + |sep| + (|t| - |r| - |sep|) == |s| - |r| - |sep|;
    } else {
      assert |s| - |r| - |sep| == k;
    }
  }

  /** A suffix of a suffix of `s` is a suffix of `s`. */
  lemma SuffixOfSuffix(s: string, a: nat, r: string)
    requires a <= |s| && EndsWith(s[a..], r)
    ensures EndsWith(s, r)
  {
    var t := s[a..];
    assert t[|t| - |r|..] == s[|s| - |r|..];
  }

  /** An occurrence in a suffix of `s` is an occurrence in `s`, shifted. */
  lemma OccursInSuffix(s: string, p: string, a: nat, j: int)
    requires a <= |s| && OccursAt(s[a..], p, j)
    ensures OccursAt(s, p, a + j)
  {
    SuffixOccurrence(s, p, a, j);
  }

  /** Occurrences in the suffix of `s` from `a` are the occurrences in `s` from `a` on. */
  lemma SuffixOccurrence(s: string, p: string, a: nat, j: int)
    requires a <= |s| && 0 <= j
    ensures OccursAt(s[a..], p, j) <==> OccursAt(s, p, a + j)
  {
    if j + |p| <= |s| - a {
      var x, y := s[a..][j..j + |p|], s[a + j..a + j + |p|];
      forall i | 0 <= i < |p| ensures x[i] == y[i] {
        assert x[i] == s[a + j + i] && y[i] == s[a + j + i];
      }
      assert x == y;
    }
  }

  /**
   * When no two separators in `s` overlap, `split(sep)[-1]` is the text after
   * the last separator. Without that premise it need not be: see
   * `SplitTakesWrongField`.
   */
  lemma LastFieldAfterLast(s: string, sep: string, k: nat)
    requires |sep| > 0 && OccursAt(s, sep, k)
    requires forall j :: k < j ==> !OccursAt(s, sep, j)
    requires forall i, j :: OccursAt(s, sep, i) && OccursAt(s, sep, j) && i < j ==> i + |sep| <= j
    ensures LastField(s, sep) == s[k + |sep|..]
  {
    var r := LastField(s, sep);
    assert Contains(s, sep);
    SeparatorInsideField(s, sep, k, r);
  }

  /**
   * A separator that follows the one right before the suffix `r`, without
   * overlapping it, lies inside `r`.
   */
  lemma SeparatorInsideField(s: string, sep: string, k: nat, r: string)
    requires OccursAt(s, sep, k) && EndsWith(s, r) && FollowsSeparator(s, sep, r)
    requires forall i, j :: OccursAt(s, sep, i) && OccursAt(s, sep, j) && i < j ==> i + |sep| <= j
    ensures |s| - |r| - |sep| < k ==> Contains(r, sep)
  {
    var a := |s| - |r|;
    if a - |sep| < k {
      assert a <= k;
      SuffixOccurrence(s, sep, a, k - a);
      assert r == s[a..];
      assert OccursAt(r, sep, k - a);
    }
  }

  /** `s.split(c)[0]` for a one-character separator `c`: the text before the first `c`. */
  function BeforeFirst(s: string, c: char): (r: string)
    ensures |r| <= |s| && r == s[..|r|]
    ensures c !in r
    ensures |r| < |s| ==> s[|r|] == c
  {
    if s == [] || s[0] == c then []
    else [s[0]] + BeforeFirst(s[1..], c)
  }

  /** Without `c`, `split(c)[0]` is the whole string. */
  lemma {:induction false} BeforeFirstAbsent(s: string, c: char)
    requires c !in s
    ensures BeforeFirst(s, c) == s
  {
    if s != [] {
      assert s[0] != c && c !in s[1..];
      BeforeFirstAbsent(s[1..], c);
      assert s == [s[0]] + s[1..];
    }
  }

  /** `s.lstrip(cs)`: drops the leading characters that are in `cs`. */
  function StripLeading(s: string, cs: set<char>): (r: string)
    ensures EndsWith(s, r)
    ensures forall i :: 0 <= i < |s| - |r| ==> s[i] in cs
    ensures r == [] || r[0] !in cs
  {
    if s != [] && s[0] in cs then
      var r := StripLeading(s[1..], cs);
      StripLeadingStep(s, cs, r);
      r
    else
      assert s[|s| - |s|..] == s;
      s
  }

  /** Dropping one more leading character of `cs` keeps what `lstrip` promises. */
  lemma StripLeadingStep(s: string, cs: set<char>, r: string)
    requires s != [] && s[0] in cs && EndsWith(s[1..], r)
    requires forall i :: 0 <= i < |s[1..]| - |r| ==> s[1..][i] in cs
    ensures EndsWith(s, r)
    ensures forall i :: 0 <= i < |s| - |r| ==> s[i] in cs
  {
    SuffixOfSuffix(s, 1, r);
    forall i | 0 < i < |s| - |r| ensures s[i] in cs {
      assert s[i] == s[1..][i - 1];
    }
  }

  /** `s.rstrip(cs)`: drops the trailing characters that are in `cs`. */
  function StripTrailing(s: string, cs: set<char>): (r: string)
    ensures |r| <= |s| && r == s[..|r|]
    ensures forall i :: |r| <= i < |s| ==> s[i] in cs
    ensures r == [] || r[|r| - 1] !in cs
  {
    if s != [] && s[|s| - 1] in cs then StripTrailing(s[..|s| - 1], cs) else s
  }

  /**
   * `s.strip(cs)`: the unique infix of `s` that neither starts nor ends with
   * a character of `cs`, and outside of which every character is in `cs`.
   */
  function Strip(s: string, cs: set<char>): (r: string)
    ensures exists a :: TrimmedAt(s, cs, r, a)
    ensures r == [] || (r[0] !in cs && r[|r| - 1] !in cs)
    ensures forall c :: c in r ==> c in s
  {
    var left := StripLeading(s, cs);
    var r := StripTrailing(left, cs);
    TrimmedByBoth(s, cs, left, r);
    r
  }

  /** `r` sits at position `a` of `s`, and everything around it is in `cs`. */
  ghost predicate TrimmedAt(s: string, cs: set<char>, r: string, a: int) {
    && 0 <= a && a + |r| <= |s| && r == s[a..a + |r|]
    && (forall i :: 0 <= i < a ==> s[i] in cs)
    && (forall i :: a + |r| <= i < |s| ==> s[i] in cs)
  }

  lemma TrimmedByBoth(s: string, cs: set<char>, left: string, r: string)
    requires |left| <= |s| && left == s[|s| - |left|..]
    requires forall i :: 0 <= i < |s| - |left| ==> s[i] in cs
    requires |r| <= |left| && r == left[..|r|]
    requires forall i :: |r| <= i < |left| ==> left[i] in cs
    requires left == [] || left[0] !in cs
    requires r == [] || r[|r| - 1] !in cs
    ensures TrimmedAt(s, cs, r, |s| - |left|)
    ensures r == [] || (r[0] !in cs && r[|r| - 1] !in cs)
    ensures forall c :: c in r ==> c in s
  {
    var a := |s| - |left|;
    assert r == s[a..a + |r|];
    forall i | a + |r| <= i < |s| ensures s[i] in cs {
      assert s[i] == left[i - a];
    }
    if r != [] {
      assert r[0] == left[0];
    }
    forall c | c in r ensures c in s {
      var i :| 0 <= i < |r| && r[i] == c;
      assert s[a + i] == c;
    }
  }

  /** Leading characters of `cs` in front of `rest` are what `lstrip` drops. */
  lemma {:induction false} StripLeadingPadded(pre: string, rest: string, cs: set<char>)
    requires forall i :: 0 <= i < |pre| ==> pre[i] in cs
    requires rest == [] || rest[0] !in cs
    ensures StripLeading(pre + rest, cs) == rest
    decreases |pre|
  {
    if pre == [] {
      assert pre + rest == rest;
    } else {
      assert (pre + rest)[1..] == pre[1..] + rest;
      StripLeadingPadded(pre[1..], rest, cs);
    }
  }

  /** Trailing characters of `cs` after `rest` are what `rstrip` drops. */
  lemma {:induction false} StripTrailingPadded(rest: string, post: string, cs: set<char>)
    requires forall i :: 0 <= i < |post| ==> post[i] in cs
    requires rest == [] || rest[|rest| - 1] !in cs
    ensures StripTrailing(rest + post, cs) == rest
    decreases |post|
  {
    if post == [] {
      assert rest + post == rest;
    } else {
      var n := |post| - 1;
      assert (rest + post)[..|rest + post| - 1] == rest + post[..n];
      StripTrailingPadded(rest, post[..n], cs);
    }
  }

  /** A string that neither starts nor ends with a character of `cs` is its own strip. */
  lemma StripUntouched(s: string, cs: set<char>)
    requires s == [] || (s[0] !in cs && s[|s| - 1] !in cs)
    ensures Strip(s, cs) == s
  {
    assert StripLeading(s, cs) == s;
    assert StripTrailing(s, cs) == s;
  }

  /** `strip` gives back what it finds between two runs of characters of `cs`. */
  lemma StripPadded(pre: string, x: string, post: string, cs: set<char>)
    requires forall i :: 0 <= i < |pre| ==> pre[i] in cs
    requires forall i :: 0 <= i < |post| ==> post[i] in cs
    requires x == [] || (x[0] !in cs && x[|x| - 1] !in cs)
    ensures Strip(pre + x + post, cs) == x
  {
    if x == [] {
      var pad := pre + post;
      assert pre + x + post == pad + [];
      StripLeadingPadded(pad, [], cs);
      assert StripTrailing([], cs) == [];
    } else {
      assert pre + x + post == pre + (x + post);
      StripLeadingPadded(pre, x + post, cs);
      StripTrailingPadded(x, post, cs);
    }
  }

  /** `split(c)[0]` stops at the first `c`, which starts `b`. */
  lemma {:induction false} BeforeFirstStops(a: string, b: string, c: char)
    requires c !in a && (b == [] || b[0] == c)
    ensures BeforeFirst(a + b, c) == a
    decreases |a|
  {
    if a != [] {
      assert (a + b)[0] == a[0] && (a + b)[1..] == a[1..] + b;
      BeforeFirstStops(a[1..], b, c);
      assert a == [a[0]] + a[1..];
    } else {
      assert a + b == b;
    }
  }

  /** The characters Python's `str.strip()` removes when given no argument. */
  const Whitespace: set<char> :=
    {' ', '\t', '\n', '\r', '\U{B}', '\U{C}', '\U{1C}', '\U{1D}',
     '\U{1E}', '\U{1F}', '\U{85}', '\U{A0}', '\U{1680}', '\U{2000}', '\U{2001}', '\U{2002}',
     '\U{2003}', '\U{2004}', '\U{2005}', '\U{2006}', '\U{2007}', '\U{2008}', '\U{2009}', '\U{200A}',
     '\U{2028}', '\U{2029}', '\U{202F}', '\U{205F}', '\U{3000}'}

  /**
   * `s.replace(p, "")`: scans left to right and drops every non-overlapping
   * occurrence of `p`; what the removals bring together is not scanned again.
   */
  function RemoveAll(s: string, p: string): (r: string)
    requires |p| > 0
    ensures |r| <= |s|
    ensures !Contains(s, p) ==> r == s
    ensures |p| == 1 ==> multiset(r) == multiset(s)[p[0] := 0]
    ensures |p| == 1 ==> p[0] !in r
    ensures |p| == 1 ==> forall c :: c != p[0] ==> (c in r <==> c in s)
    decreases |s|
  {
    if |s| < |p| then
      assert forall j :: !OccursAt(s, p, j);
      assert |p| == 1 ==> s == [];
      s
    else if s[..|p|] == p then
      var r := RemoveAll(s[|p|..], p);
      RemoveAllDropStep(s, p, r);
      r
    else
      var rest := RemoveAll(s[1..], p);
      RemoveAllKeepStep(s, p, rest);
      [s[0]] + rest
  }

  /** Dropping an occurrence of `p` at the front keeps what `replace` promises. */
  lemma RemoveAllDropStep(s: string, p: string, r: string)
    requires 0 < |p| <= |s| && s[..|p|] == p
    requires |r| <= |s[|p|..]|
    requires |p| == 1 ==> multiset(r) == multiset(s[|p|..])[p[0] := 0]
    requires |p| == 1 ==> p[0] !in r
    requires |p| == 1 ==> forall c :: c != p[0] ==> (c in r <==> c in s[|p|..])
    ensures |r| <= |s|
    ensures !Contains(s, p) ==> r == s
    ensures |p| == 1 ==> multiset(r) == multiset(s)[p[0] := 0]
    ensures |p| == 1 ==> forall c :: c != p[0] ==> (c in r <==> c in s)
  {
    assert OccursAt(s, p, 0);
    if |p| == 1 {
      assert s == [p[0]] + s[1..];
      assert multiset(s)[p[0] := 0] == multiset(s[1..])[p[0] := 0];
    }
  }

  /** Keeping a first character that starts no occurrence keeps what `replace` promises. */
  lemma RemoveAllKeepStep(s: string, p: string, rest: string)
    requires 0 < |p| <= |s| && s[..|p|] != p
    requires |rest| <= |s[1..]|
    requires !Contains(s[1..], p) ==> rest == s[1..]
    requires |p| == 1 ==> multiset(rest) == multiset(s[1..])[p[0] := 0]
    requires |p| == 1 ==> p[0] !in rest
    requires |p| == 1 ==> forall c :: c != p[0] ==> (c in rest <==> c in s[1..])
    ensures |[s[0]] + rest| <= |s|
    ensures !Contains(s, p) ==> [s[0]] + rest == s
    ensures |p| == 1 ==> multiset([s[0]] + rest) == multiset(s)[p[0] := 0]
    ensures |p| == 1 ==> p[0] !in [s[0]] + rest
    ensures |p| == 1 ==> forall c :: c != p[0] ==> (c in [s[0]] + rest <==> c in s)
  {
    assert Contains(s[1..], p) ==> Contains(s, p) by {
      if Contains(s[1..], p) {
        var j :| OccursAt(s[1..], p, j);
        TailOccurrence(s, p, j + 1);
      }
    }
    assert s == [s[0]] + s[1..];
    if |p| == 1 {
      assert s[0] != p[0] by { assert s[..1] == [s[0]]; }
    }
  }

  /**
   * `replace` keeps everything before the leftmost occurrence, drops that
   * occurrence, and goes on after it.
   */
  lemma RemoveAllSplits(s: string, p: string, k: nat)
    requires |p| > 0 && Find(s, p) == Some(k)
    ensures RemoveAll(s, p) == s[..k] + RemoveAll(s[k + |p|..], p)
  {
    RemoveAllKeepsClean(s, p, k);
    RemoveAllMatch(s[k..], p);
    assert s[k..][|p|..] == s[k + |p|..];
  }

  /** A stretch at the front where `p` does not start passes through `replace` unchanged. */
  lemma {:induction false} RemoveAllKeepsClean(s: string, p: string, k: nat)
    requires |p| > 0 && k <= |s|
    requires forall j :: 0 <= j < k ==> !OccursAt(s, p, j)
    ensures RemoveAll(s, p) == s[..k] + RemoveAll(s[k..], p)
    decreases k
  {
    if k == 0 {
      assert s[..0] + RemoveAll(s[0..], p) == RemoveAll(s, p) by { assert s[0..] == s; }
    } else {
      RemoveAllMismatch(s, p);
      forall j | 0 <= j < k - 1 ensures !OccursAt(s[1..], p, j) {
        TailOccurrence(s, p, j + 1);
      }
      RemoveAllKeepsClean(s[1..], p, k - 1);
      assert s[1..][k - 1..] == s[k..];
      ConsPrefix(s, k, RemoveAll(s, p), RemoveAll(s[1..], p), RemoveAll(s[k..], p));
    }
  }

  /** Away from the front, an occurrence in `s` is one in its tail, a position earlier. */
  lemma TailOccurrence(s: string, p: string, j: int)
    requires 0 < j
    ensures OccursAt(s, p, j) <==> s != [] && OccursAt(s[1..], p, j - 1)
  {
    if s != [] && j + |p| <= |s| {
      var a, b := s[j..j + |p|], s[1..][j - 1..j - 1 + |p|];
      forall i | 0 <= i < |a| ensures a[i] == b[i] {
        assert a[i] == s[j + i] && b[i] == s[1..][j - 1 + i];
      }
      assert a == b;
    }
  }

  /** An occurrence at the front is dropped, and the scan goes on after it. */
  lemma RemoveAllMatch(s: string, p: string)
    requires |p| > 0 && OccursAt(s, p, 0)
    ensures RemoveAll(s, p) == RemoveAll(s[|p|..], p)
  {
    assert s[..|p|] == p by { assert s[0..|p|] == s[..|p|]; }
  }

  /** With no occurrence at the front, `replace` keeps the first character. */
  lemma RemoveAllMismatch(s: string, p: string)
    requires |p| > 0 && s != [] && !OccursAt(s, p, 0)
    ensures RemoveAll(s, p) == [s[0]] + RemoveAll(s[1..], p)
  {
    assert s == [s[0]] + s[1..];
    if |s| >= |p| {
      assert s[0..|p|] == s[..|p|];
    }
  }

  lemma ConsPrefix(s: string, k: nat, whole: string, tail: string, after: string)
    requires 0 < k <= |s|
    requires whole == [s[0]] + tail && tail == s[1..][..k - 1] + after
    ensures whole == s[..k] + after
  {
    assert s[..k] == [s[0]] + s[1..][..k - 1];
  }

  /** A character that is not in `s` does not occur in it as a string. */
  lemma CharAbsent(s: string, c: char)
    requires c !in s
    ensures !Contains(s, [c])
  {
    forall j ensures !OccursAt(s, [c], j) {
      if 0 <= j < |s| {
        assert s[j..j + 1][0] == s[j];
      }
    }
  }

  /** A leading occurrence is dropped, and the scan goes on after it. */
  lemma RemoveAllLeading(p: string, s: string)
    requires |p| > 0
    ensures RemoveAll(p + s, p) == RemoveAll(s, p)
  {
    assert (p + s)[..|p|] == p;
    assert (p + s)[|p|..] == s;
  }

  /** Dropping characters from both ends cannot create an occurrence. */
  lemma {:induction false} InfixAvoids(s: string, p: string, a: nat, b: nat)
    requires a <= b <= |s| && !Contains(s, p)
    ensures !Contains(s[a..b], p)
  {
    forall j | OccursAt(s[a..b], p, j) ensures OccursAt(s, p, a + j) {
      forall i | 0 <= i < |p| ensures s[a + j + i] == p[i] {
        assert s[a..b][j..j + |p|][i] == s[a..b][j + i] == s[a + j + i];
      }
    }
  }
}
