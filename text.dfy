/** The .NET string operations the chat server relies on: Trim, ordinal StartsWith and
    EndsWith, and Replace with its left-to-right, non-overlapping scan. */
module Text {

  /** The characters that char.IsWhiteSpace accepts: the control characters U+0009 to U+000D,
      U+0085, and the space, line and paragraph separators of Unicode. */
  predicate IsWhiteSpace(c: char) {
    c == ' ' || ('\t' <= c <= '\r') || c == '\U{85}' || c == '\U{A0}' || c == '\U{1680}'
    || ('\U{2000}' <= c <= '\U{200A}') || c == '\U{2028}' || c == '\U{2029}'
    || c == '\U{202F}' || c == '\U{205F}' || c == '\U{3000}'
  }

  /** Every character of s between positions lo and hi is white space. */
  predicate WhiteBetween(s: string, lo: int, hi: int)
    requires 0 <= lo && hi <= |s|
  {
    forall i | lo <= i < hi :: IsWhiteSpace(s[i])
  }

  /** A string that Trim leaves alone: empty, or with no white space at either end. */
  predicate Trimmed(s: string) {
    s == [] || (!IsWhiteSpace(s[0]) && !IsWhiteSpace(s[|s| - 1]))
  }

  /** The first position at or after i that does not hold white space: the scan from the
      left that string.Trim performs. */
  function SkipWhite(s: string, i: nat): (k: nat)
    requires i <= |s|
    ensures i <= k <= |s| && WhiteBetween(s, i, k)
    ensures k == |s| || !IsWhiteSpace(s[k])
    decreases |s| - i
  {
    if i < |s| && IsWhiteSpace(s[i]) then SkipWhite(s, i + 1) else i
  }

  /** The scan from the right: the least position k, no lower than lo, such that only white
      space lies between k and j. */
  function BackWhite(s: string, lo: nat, j: nat): (k: nat)
    requires lo <= j <= |s|
    ensures lo <= k <= j && WhiteBetween(s, k, j)
    ensures k == lo || !IsWhiteSpace(s[k - 1])
    decreases j
  {
    if lo < j && IsWhiteSpace(s[j - 1]) then BackWhite(s, lo, j - 1) else j
  }

  /** Number of leading white-space characters of s. */
  function Lead(s: string): nat
  {
    SkipWhite(s, 0)
  }

  /** string.Trim(): the result is the slice of s between its leading and its trailing
      white space, and it starts and ends with a non-white character. */
  function Trim(s: string): (r: string)
    ensures Lead(s) + |r| <= |s| && r == s[Lead(s)..Lead(s) + |r|]
    ensures WhiteBetween(s, 0, Lead(s)) && WhiteBetween(s, Lead(s) + |r|, |s|)
    ensures Trimmed(r)
  {
    var a := SkipWhite(s, 0);
    s[a..BackWhite(s, a, |s|)]
  }

  /** Trim is determined by its contract: whatever slice s[a..b] has only white space
      around it and no white space at its ends is what Trim returns. */
  lemma TrimOf(s: string, a: nat, b: nat)
    requires a <= b <= |s|
    requires WhiteBetween(s, 0, a) && WhiteBetween(s, b, |s|) && Trimmed(s[a..b])
    ensures Trim(s) == s[a..b]
  {
    var k := Lead(s);
    if a == b {
      assert WhiteBetween(s, 0, |s|);
      assert k == |s|;
    } else {
      assert !IsWhiteSpace(s[a]) && !IsWhiteSpace(s[b - 1]);
      assert k <= a;
      assert k == a;
      var e := BackWhite(s, a, |s|);
      assert e <= b;
      assert e == b;
    }
  }

  /** Trim leaves a trimmed string alone. */
  lemma TrimTrimmed(s: string)
    requires Trimmed(s)
    ensures Trim(s) == s
  {
    TrimOf(s, 0, |s|);
  }

  /** Trimming twice is trimming once. */
  lemma TrimIdempotent(s: string)
    ensures Trim(Trim(s)) == Trim(s)
  {
    TrimTrimmed(Trim(s));
  }

  /** Trailing white space does not change the result of Trim. */
  lemma TrimIgnoresTrailingSpace(s: string, w: string)
    requires WhiteBetween(w, 0, |w|)
    ensures Trim(s + w) == Trim(s)
  {
    var k, r := Lead(s), Trim(s);
    var sw := s + w;
    assert k + |r| <= |s|;
    assert WhiteBetween(sw, 0, k) by {
      forall i | 0 <= i < k ensures IsWhiteSpace(sw[i]) {
        assert sw[i] == s[i];
      }
    }
    assert sw[k..k + |r|] == r by {
      assert sw[..|s|] == s;
    }
    assert WhiteBetween(sw, k + |r|, |sw|) by {
      forall i | k + |r| <= i < |sw| ensures IsWhiteSpace(sw[i]) {
        if i >= |s| { assert sw[i] == w[i - |s|]; } else { assert sw[i] == s[i]; }
      }
    }
    TrimOf(sw, k, k + |r|);
  }

  /** Appending text that begins and ends with a non-white character keeps it at the
      end of the trimmed result. */
  lemma TrimKeepsSuffix(s: string, t: string)
    requires t != [] && !IsWhiteSpace(t[0]) && !IsWhiteSpace(t[|t| - 1])
    ensures Trim(s + t) == s[Lead(s)..] + t
  {
    var k := Lead(s);
    var st, u := s + t, s[Lead(s)..] + t;
    assert WhiteBetween(st, 0, k) by {
      forall i | 0 <= i < k ensures IsWhiteSpace(st[i]) {
        assert st[i] == s[i];
      }
    }
    assert st[k..|st|] == u;
    assert Trimmed(u) by {
      assert u[|u| - 1] == t[|t| - 1];
      assert u[0] == if k == |s| then t[0] else s[k];
    }
    TrimOf(st, k, |st|);
  }

  /** Removing the leading white space first does not change the result of Trim. */
  lemma TrimAfterLead(s: string)
    ensures Trim(s[Lead(s)..]) == Trim(s)
  {
    var k, r := Lead(s), Trim(s);
    var u := s[k..];
    assert u[..|r|] == r;
    assert WhiteBetween(u, |r|, |u|) by {
      forall i | |r| <= i < |u| ensures IsWhiteSpace(u[i]) {
        assert u[i] == s[k + i];
      }
    }
    TrimOf(u, 0, |r|);
  }

  /** Ordinal string.StartsWith. */
  predicate StartsWith(s: string, prefix: string) {
    |prefix| <= |s| && s[..|prefix|] == prefix
  }

  /** Ordinal string.EndsWith. */
  predicate EndsWith(s: string, suffix: string) {
    |suffix| <= |s| && s[|s| - |suffix|..] == suffix
  }

  /** pattern occurs somewhere in s. */
  predicate Occurs(s: string, pattern: string)
    requires pattern != []
    decreases |s|
  {
    |pattern| <= |s| && (s[..|pattern|] == pattern || Occurs(s[1..], pattern))
  }

  /** No proper prefix of pattern is also a suffix of it, so two occurrences of
      pattern can never overlap. */
  predicate BorderFree(pattern: string) {
    forall k | 0 < k < |pattern| :: pattern[k..] != pattern[..|pattern| - k]
  }

  /** string.Replace(pattern, replacement): scans s from the left and replaces each
      occurrence of pattern that does not overlap an earlier replaced one. */
  function Replace(s: string, pattern: string, replacement: string): string
    requires pattern != []
    decreases |s|
  {
    if |s| < |pattern| then s
    else if s[..|pattern|] == pattern then replacement + Replace(s[|pattern|..], pattern, replacement)
    else [s[0]] + Replace(s[1..], pattern, replacement)
  }

  /** Replace leaves alone a string in which the pattern does not occur. */
  lemma {:induction false} ReplaceAbsent(s: string, pattern: string, replacement: string)
    requires pattern != [] && !Occurs(s, pattern)
    ensures Replace(s, pattern, replacement) == s
    decreases |s|
  {
    if |s| >= |pattern| {
      ReplaceAbsent(s[1..], pattern, replacement);
    }
  }

  /** Replace changes s exactly when pattern occurs in it (for a replacement that is
      shorter than the pattern, as the removal used by the server is). */
  lemma {:induction false} ReplaceChangesIffOccurs(s: string, pattern: string, replacement: string)
    requires pattern != [] && |replacement| < |pattern|
    ensures Replace(s, pattern, replacement) != s <==> Occurs(s, pattern)
    ensures Occurs(s, pattern) ==> |Replace(s, pattern, replacement)| < |s|
    decreases |s|
  {
    if |s| < |pattern| {
    } else if s[..|pattern|] == pattern {
      ReplaceNoLonger(s[|pattern|..], pattern, replacement);
    } else {
      ReplaceChangesIffOccurs(s[1..], pattern, replacement);
    }
  }

  /** A string that ends with a pattern contains it. */
  lemma {:induction false} SuffixOccurs(s: string, pattern: string)
    requires pattern != [] && EndsWith(s, pattern)
    ensures Occurs(s, pattern)
    decreases |s|
  {
    if |s| == |pattern| {
      assert s[..|pattern|] == s[|s| - |pattern|..];
    } else if s[..|pattern|] != pattern {
      assert s[1..][|s| - 1 - |pattern|..] == s[|s| - |pattern|..];
      SuffixOccurs(s[1..], pattern);
    }
  }

  lemma {:induction false} ReplaceNoLonger(s: string, pattern: string, replacement: string)
    requires pattern != [] && |replacement| <= |pattern|
    ensures |Replace(s, pattern, replacement)| <= |s|
    decreases |s|
  {
    if |s| < |pattern| {
    } else if s[..|pattern|] == pattern {
      ReplaceNoLonger(s[|pattern|..], pattern, replacement);
    } else {
      ReplaceNoLonger(s[1..], pattern, replacement);
    }
  }

  /** For a pattern whose occurrences cannot overlap, an occurrence at the very end is
      replaced and the scan of what comes before it is not disturbed. */
  lemma {:induction false} ReplaceTrailingOccurrence(p: string, pattern: string, replacement: string)
    requires pattern != [] && BorderFree(pattern)
    ensures Replace(p + pattern, pattern, replacement) == Replace(p, pattern, replacement) + replacement
    decreases |p|
  {
    var n := |pattern|;
    if p == [] {
      var s := p + pattern;
      assert s[..n] == pattern && s[n..] == [];
    } else if |p| >= n && p[..n] == pattern {
      ReplaceTrailingOccurrence(p[n..], pattern, replacement);
      ReplaceTrailingMatch(p, pattern, replacement);
    } else {
      if |p| < n {
        NoEarlyOccurrence(p, pattern);
      }
      ReplaceTrailingOccurrence(p[1..], pattern, replacement);
      ReplaceTrailingSkip(p, pattern, replacement);
    }
  }

  /** One step of ReplaceTrailingOccurrence where p starts with the pattern. */
  lemma ReplaceTrailingMatch(p: string, pattern: string, replacement: string)
    requires pattern != [] && |pattern| <= |p| && p[..|pattern|] == pattern
    requires Replace(p[|pattern|..] + pattern, pattern, replacement)
          == Replace(p[|pattern|..], pattern, replacement) + replacement
    ensures Replace(p + pattern, pattern, replacement) == Replace(p, pattern, replacement) + replacement
  {
    var s, n := p + pattern, |pattern|;
    assert s[..n] == pattern && s[n..] == p[n..] + pattern;
    ReplaceAtMatch(s, pattern, replacement);
    ReplaceAtMatch(p, pattern, replacement);
    ConcatAssoc(replacement, Replace(p[n..], pattern, replacement), replacement);
  }

  /** One step of ReplaceTrailingOccurrence where no occurrence starts at the front. */
  lemma ReplaceTrailingSkip(p: string, pattern: string, replacement: string)
    requires pattern != [] && p != [] && (p + pattern)[..|pattern|] != pattern
    requires Replace(p[1..] + pattern, pattern, replacement)
          == Replace(p[1..], pattern, replacement) + replacement
    ensures Replace(p + pattern, pattern, replacement) == Replace(p, pattern, replacement) + replacement
  {
    var s, n := p + pattern, |pattern|;
    assert s[0] == p[0] && s[1..] == p[1..] + pattern;
    ReplaceKeepsFirst(s, pattern, replacement);
    assert !(|p| >= n && p[..n] == pattern) by {
      if |p| >= n {
        assert p[..n] == s[..n];
      }
    }
    ReplaceKeepsFirst(p, pattern, replacement);
    ConcatAssoc([p[0]], Replace(p[1..], pattern, replacement), replacement);
  }

  lemma ConcatAssoc(a: string, b: string, c: string)
    ensures a + (b + c) == (a + b) + c
  {
  }

  /** Replace at an occurrence of the pattern. */
  lemma ReplaceAtMatch(s: string, pattern: string, replacement: string)
    requires pattern != [] && |pattern| <= |s| && s[..|pattern|] == pattern
    ensures Replace(s, pattern, replacement) == replacement + Replace(s[|pattern|..], pattern, replacement)
  {
  }

  /** Replace on a non-empty string that does not start with the pattern keeps its first
      character. */
  lemma ReplaceKeepsFirst(s: string, pattern: string, replacement: string)
    requires pattern != [] && s != [] && !(|pattern| <= |s| && s[..|pattern|] == pattern)
    ensures Replace(s, pattern, replacement) == [s[0]] + Replace(s[1..], pattern, replacement)
  {
    if |s| < |pattern| {
      assert Replace(s[1..], pattern, replacement) == s[1..];
      assert s == [s[0]] + s[1..];
    }
  }

  /** With a border-free pattern, an occurrence cannot start inside a shorter prefix
      and run into an occurrence that follows it. */
  lemma NoEarlyOccurrence(p: string, pattern: string)
    requires BorderFree(pattern) && 0 < |p| < |pattern|
    ensures (p + pattern)[..|pattern|] != pattern
  {
    var n, k := |pattern|, |p|;
    assert (p + pattern)[k..n] == pattern[..n - k];
    assert pattern[k..] != pattern[..n - k];
  }

  /** A character outside the pattern cannot complete an occurrence. */
  lemma {:induction false} NoOccurrenceAppend(s: string, c: char, pattern: string)
    requires pattern != [] && c !in pattern && !Occurs(s, pattern)
    ensures !Occurs(s + [c], pattern)
    decreases |s|
  {
    var n := |pattern|;
    var sc := s + [c];
    if |s| >= n {
      assert s[..n] == sc[..n];
    } else if |s| + 1 == n {
      assert sc[..n][n - 1] == c && pattern[n - 1] in pattern;
    }
    if s != [] {
      assert sc[1..] == s[1..] + [c];
      NoOccurrenceSuffix(s, pattern);
      NoOccurrenceAppend(s[1..], c, pattern);
    }
  }

  lemma NoOccurrenceSuffix(s: string, pattern: string)
    requires pattern != [] && s != [] && !Occurs(s, pattern)
    ensures !Occurs(s[1..], pattern)
  {
  }

  /** No suffix of s contains what s does not. */
  lemma {:induction false} NoOccurrenceInSuffix(s: string, k: nat, pattern: string)
    requires pattern != [] && k <= |s| && !Occurs(s, pattern)
    ensures !Occurs(s[k..], pattern)
    decreases k
  {
    if k > 0 {
      NoOccurrenceSuffix(s, pattern);
      assert s[1..][k - 1..] == s[k..];
      NoOccurrenceInSuffix(s[1..], k - 1, pattern);
    }
  }
}
