/**
 * The Python `str` builtins the coaching core calls: `sub in s`,
 * `s.replace(old, new)`, `s.strip()` and `str(n)` for an integer, each
 * written out as a function with its properties proved. `EndsWith`, for
 * `s.endswith(x)`, only serves to state those properties.
 */
module PyStr {

  /** Python's `str.isspace()` for one character, which is also what the
      `\s` class of a `str` regular expression matches. */
  predicate IsSpace(c: char)
    ensures c == ' ' || c == '\t' || c == '\n' || c == '\r' || c == '\U{A0}' ==> IsSpace(c)
    ensures IsSpace(c) ==> !('0' <= c <= '9') && !('A' <= c <= 'Z') && c != ':' && c != '*'
  {
    || ('\t' <= c <= '\r')
    || ('\U{1C}' <= c <= '\U{1F}')
    || c == ' '
    || c == '\U{85}'
    || c == '\U{A0}'
    || c == '\U{1680}'
    || ('\U{2000}' <= c <= '\U{200A}')
    || c == '\U{2028}'
    || c == '\U{2029}'
    || c == '\U{202F}'
    || c == '\U{205F}'
    || c == '\U{3000}'
  }

  /** An ASCII decimal digit. */
  predicate IsDigit(c: char)
  {
    '0' <= c <= '9'
  }

  /** `sub` occurs in `s` starting at index `k`. */
  predicate OccursAt(s: string, sub: string, k: nat)
  {
    k + |sub| <= |s| && s[k..k + |sub|] == sub
  }

  /** Python's `sub in s`. */
  predicate Contains(s: string, sub: string)
    ensures Contains(s, sub) ==> |sub| <= |s|
  {
    exists k: nat :: k <= |s| && OccursAt(s, sub, k)
  }

  /** Python's `s.endswith(suffix)`. */
  predicate EndsWith(s: string, suffix: string)
  {
    |suffix| <= |s| && s[|s| - |suffix|..] == suffix
  }

  /** No character of `s` is `c`. */
  predicate Lacks(s: string, c: char)
  {
    forall k :: 0 <= k < |s| ==> s[k] != c
  }

  // ---------------------------------------------------------------------------
  // s.replace(pat, rep)
  // ---------------------------------------------------------------------------

  /** Python's `s.replace(pat, rep)` for a non-empty `pat`: scanning from the
      left, every non-overlapping occurrence of `pat` is replaced by `rep`. */
  function Replace(s: string, pat: string, rep: string): (r: string)
    requires pat != ""
    ensures rep == "" ==> |r| <= |s|
    decreases |s|
  {
    if |s| < |pat| then s
    else if s[..|pat|] == pat then rep + Replace(s[|pat|..], pat, rep)
    else [s[0]] + Replace(s[1..], pat, rep)
  }

  /** When `pat` does not start at index 0, it occurs in `s` exactly when it
      occurs in the rest of `s`. */
  lemma ContainsPastHead(s: string, pat: string)
    requires 0 < |s| && !OccursAt(s, pat, 0)
    ensures Contains(s, pat) <==> Contains(s[1..], pat)
  {
    if Contains(s, pat) {
      var k: nat :| k <= |s| && OccursAt(s, pat, k);
      assert k > 0;
      assert s[1..][k - 1..k - 1 + |pat|] == s[k..k + |pat|];
      assert OccursAt(s[1..], pat, k - 1);
    }
    if Contains(s[1..], pat) {
      var k: nat :| k <= |s[1..]| && OccursAt(s[1..], pat, k);
      OccursInTail(s, pat, k);
    }
  }

  lemma OccursInTail(s: string, sub: string, k: nat)
    requires 0 < |s| && OccursAt(s[1..], sub, k)
    ensures OccursAt(s, sub, k + 1)
  {
    assert s[k + 1..k + 1 + |sub|] == s[1..][k..k + |sub|];
  }

  /** An occurrence in a suffix is an occurrence in the whole text. */
  lemma OccursInSuffix(s: string, sub: string, n: nat, k: nat)
    requires n <= |s| && OccursAt(s[n..], sub, k)
    ensures OccursAt(s, sub, n + k)
  {
    assert s[n + k..n + k + |sub|] == s[n..][k..k + |sub|];
  }

  /** A text set between two others occurs right after the first. */
  lemma OccursBetween(a: string, b: string, c: string)
    ensures OccursAt(a + b + c, b, |a|)
  {
    assert (a + b + c)[|a|..|a| + |b|] == b;
  }

  /** An occurrence stays where it is when text is appended. */
  lemma OccursInLonger(s: string, sub: string, k: nat, rest: string)
    requires OccursAt(s, sub, k)
    ensures OccursAt(s + rest, sub, k)
  {
    assert (s + rest)[k..k + |sub|] == s[k..k + |sub|];
  }

  /** Two occurrences side by side are one occurrence of the joined text. */
  lemma OccursJoined(s: string, a: string, b: string, k: nat)
    requires OccursAt(s, a, k) && OccursAt(s, b, k + |a|)
    ensures OccursAt(s, a + b, k)
  {
    assert s[k..k + |a| + |b|] == s[k..k + |a|] + s[k + |a|..k + |a| + |b|];
  }

  /** A string in which `pat` does not occur is left as it is. */
  lemma {:induction false} ReplaceAbsent(s: string, pat: string, rep: string)
    requires pat != "" && !Contains(s, pat)
    ensures Replace(s, pat, rep) == s
    decreases |s|
  {
    if |s| >= |pat| {
      assert s[..|pat|] != pat by { assert !OccursAt(s, pat, 0); }
      if Contains(s[1..], pat) {
        var k: nat :| k <= |s[1..]| && OccursAt(s[1..], pat, k);
        OccursInTail(s, pat, k);
        assert false;
      }
      ReplaceAbsent(s[1..], pat, rep);
      assert [s[0]] + s[1..] == s;
    }
  }

  /** Removing a pattern that occurs makes the text shorter; with
      `ReplaceAbsent`, removal changes the text exactly when the pattern
      occurs. */
  lemma {:induction false} ReplaceShortens(s: string, pat: string)
    requires pat != "" && Contains(s, pat)
    ensures |Replace(s, pat, "")| < |s|
    decreases |s|
  {
    var k: nat :| k <= |s| && OccursAt(s, pat, k);
    if s[..|pat|] != pat {
      assert k > 0 by { assert s[0..|pat|] == s[..|pat|]; }
      ContainsPastHead(s, pat);
      ReplaceShortens(s[1..], pat);
    }
  }

  /** A prefix at none of whose positions `pat` starts is copied through unchanged. */
  lemma {:induction false} ReplaceKeepsPrefix(w: string, rest: string, pat: string, rep: string)
    requires pat != ""
    requires forall k: nat | k < |w| :: !OccursAt(w + rest, pat, k)
    ensures Replace(w + rest, pat, rep) == w + Replace(rest, pat, rep)
    decreases |w|
  {
    if w != [] {
      var s := w + rest;
      assert [w[0]] + w[1..] == w;
      assert !OccursAt(s, pat, 0);
      forall k: nat | k < |w[1..]| ensures !OccursAt(w[1..] + rest, pat, k) {
        assert s[1..] == w[1..] + rest;
        if OccursAt(s[1..], pat, k) {
          OccursInTail(s, pat, k);
        }
      }
      ReplaceKeepsPrefix(w[1..], rest, pat, rep);
      assert s[1..] == w[1..] + rest;
      if |s| >= |pat| {
        assert s[..|pat|] != pat;
        assert Replace(s, pat, rep) == [s[0]] + Replace(s[1..], pat, rep);
        assert [w[0]] + (w[1..] + Replace(rest, pat, rep)) == ([w[0]] + w[1..]) + Replace(rest, pat, rep);
      } else {
        assert Replace(rest, pat, rep) == rest;
      }
    } else {
      assert w + rest == rest;
    }
  }

  /** `replace` at an occurrence of `pat`: the replacement, then the rest. */
  lemma ReplaceAtMatch(s: string, pat: string, rep: string)
    requires pat != "" && OccursAt(s, pat, 0)
    ensures Replace(s, pat, rep) == rep + Replace(s[|pat|..], pat, rep)
  {
    assert s[..|pat|] == s[0..|pat|];
  }

  /** `replace` where `pat` does not start: the first character, then the rest. */
  lemma ReplaceAtOther(s: string, pat: string, rep: string)
    requires pat != "" && 0 < |s| && !OccursAt(s, pat, 0)
    ensures Replace(s, pat, rep) == [s[0]] + Replace(s[1..], pat, rep)
  {
    if |s| < |pat| {
      assert Replace(s[1..], pat, rep) == s[1..];
      assert [s[0]] + s[1..] == s;
    } else {
      assert s[..|pat|] == s[0..|pat|];
    }
  }

  /** A piece of the text that no occurrence of `pat` overlaps, or straddles
      the start of, survives the replacement. */
  lemma {:induction false} ReplaceKeepsPiece(s: string, m: string, p: nat, pat: string, rep: string)
    requires pat != "" && OccursAt(s, m, p)
    requires forall k: nat :: k < p + |m| && p < k + |pat| ==> !OccursAt(s, pat, k)
    ensures Contains(Replace(s, pat, rep), m)
    decreases p
  {
    if p == 0 {
      var rest := s[|m|..];
      assert s == m + rest;
      ReplaceKeepsPrefix(m, rest, pat, rep);
      assert OccursAt(Replace(s, pat, rep), m, 0);
    } else if OccursAt(s, pat, 0) {
      var n := |pat|;
      PieceInSuffix(s, m, p, pat, n);
      ReplaceKeepsPiece(s[n..], m, p - n, pat, rep);
      ReplaceAtMatch(s, pat, rep);
      ContainsAfterPrefix(rep, Replace(s[n..], pat, rep), m);
    } else {
      PieceInSuffix(s, m, p, pat, 1);
      ReplaceKeepsPiece(s[1..], m, p - 1, pat, rep);
      ReplaceAtOther(s, pat, rep);
      ContainsAfterPrefix([s[0]], Replace(s[1..], pat, rep), m);
    }
  }

  /** Dropping `n` characters before a piece keeps it, now at `p - n`, and
      keeps every occurrence of `pat` off it. */
  lemma PieceInSuffix(s: string, m: string, p: nat, pat: string, n: nat)
    requires n <= p && OccursAt(s, m, p)
    requires forall k: nat :: k < p + |m| && p < k + |pat| ==> !OccursAt(s, pat, k)
    ensures OccursAt(s[n..], m, p - n)
    ensures forall k: nat :: k < p - n + |m| && p - n < k + |pat| ==> !OccursAt(s[n..], pat, k)
  {
    assert s[n..][p - n..p - n + |m|] == s[p..p + |m|];
    forall k: nat | k < p - n + |m| && p - n < k + |pat| ensures !OccursAt(s[n..], pat, k) {
      if OccursAt(s[n..], pat, k) {
        OccursInSuffix(s, pat, n, k);
      }
    }
  }

  /** Text put in front keeps every piece of what follows. */
  lemma ContainsAfterPrefix(w: string, x: string, m: string)
    requires Contains(x, m)
    ensures Contains(w + x, m)
  {
    var k: nat :| k <= |x| && OccursAt(x, m, k);
    assert (w + x)[|w| + k..|w| + k + |m|] == x[k..k + |m|];
    assert OccursAt(w + x, m, |w| + k);
  }

  /** Replacing brings in no character that neither the text nor the
      replacement holds. */
  lemma {:induction false} ReplaceLacks(s: string, pat: string, rep: string, c: char)
    requires pat != "" && Lacks(s, c) && Lacks(rep, c)
    ensures Lacks(Replace(s, pat, rep), c)
    decreases |s|
  {
    if |s| >= |pat| {
      if s[..|pat|] == pat {
        ReplaceLacks(s[|pat|..], pat, rep, c);
      } else {
        ReplaceLacks(s[1..], pat, rep, c);
      }
    }
  }

  /** A piece of a text lacking `c` lacks it too. */
  lemma LacksInPart(s: string, r: string, c: char)
    requires Contains(s, r) && Lacks(s, c)
    ensures Lacks(r, c)
  {
    var k: nat :| k <= |s| && OccursAt(s, r, k);
    forall j | 0 <= j < |r| ensures r[j] != c {
      assert r[j] == s[k + j];
    }
  }

  /** One differing character rules out an occurrence. */
  lemma DiffersAt(s: string, w: string, k: nat, j: nat)
    requires j < |w| && (k + j < |s| ==> s[k + j] != w[j])
    ensures !OccursAt(s, w, k)
  {
    assert k + |w| <= |s| ==> s[k..k + |w|][j] == s[k + j];
  }

  /** A text lacking `c` contains no string that holds `c`. */
  lemma LacksBlocks(s: string, w: string, j: nat, c: char)
    requires Lacks(s, c) && j < |w| && w[j] == c
    ensures !Contains(s, w)
  {
    forall k: nat | k <= |s| ensures !OccursAt(s, w, k) {
      DiffersAt(s, w, k, j);
    }
  }

  /** Python's `s.replace("**", "")`: drops every `**`, pairing stars from the left. */
  function StripBold(s: string): (r: string)
    ensures |r| <= |s|
  {
    Replace(s, "**", "")
  }

  /** The one-step unfolding of `StripBold`. */
  lemma StripBoldUnfold(s: string)
    ensures |s| < 2 ==> StripBold(s) == s
    ensures |s| >= 2 && s[0] == '*' && s[1] == '*' ==> StripBold(s) == StripBold(s[2..])
    ensures |s| >= 2 && !(s[0] == '*' && s[1] == '*') ==> StripBold(s) == [s[0]] + StripBold(s[1..])
  {
    if |s| >= 2 {
      assert s[..2] == "**" <==> s[0] == '*' && s[1] == '*';
    }
  }

  /** Two adjacent stars somewhere in `s`. */
  predicate HasStarPair(s: string)
  {
    exists k: nat :: k + 1 < |s| && s[k] == '*' && s[k + 1] == '*'
  }

  lemma StarPairIsContains(s: string)
    ensures HasStarPair(s) <==> Contains(s, "**")
  {
    if HasStarPair(s) {
      var k: nat :| k + 1 < |s| && s[k] == '*' && s[k + 1] == '*';
      assert OccursAt(s, "**", k);
    }
    if Contains(s, "**") {
      var k: nat :| k <= |s| && OccursAt(s, "**", k);
      assert s[k..k + 2][0] == s[k] && s[k..k + 2][1] == s[k + 1];
    }
  }

  /** A string that does not start with a star keeps its first character. */
  lemma {:induction false} StripBoldHead(s: string)
    requires 0 < |s| && s[0] != '*'
    ensures 0 < |StripBold(s)| && StripBold(s)[0] == s[0]
  {
    StripBoldUnfold(s);
  }

  lemma {:induction false} StripBoldNoPair(s: string)
    ensures !HasStarPair(StripBold(s))
    decreases |s|
  {
    StripBoldUnfold(s);
    if |s| < 2 {
    } else if s[0] == '*' && s[1] == '*' {
      StripBoldNoPair(s[2..]);
    } else {
      var t := StripBold(s[1..]);
      StripBoldNoPair(s[1..]);
      if s[0] == '*' {
        StripBoldHead(s[1..]);
      }
      var r := [s[0]] + t;
      forall k: nat | k + 1 < |r|
        ensures !(r[k] == '*' && r[k + 1] == '*')
      {
        if k > 0 {
          assert r[k] == t[k - 1] && r[k + 1] == t[k];
        }
      }
    }
  }

  /** No `**` survives `StripBold`. */
  lemma StripBoldRemovesAll(s: string)
    ensures !Contains(StripBold(s), "**")
  {
    StripBoldNoPair(s);
    StarPairIsContains(StripBold(s));
  }

  /** Stripping `**` twice is the same as stripping it once. */
  lemma StripBoldIdempotent(s: string)
    ensures StripBold(StripBold(s)) == StripBold(s)
  {
    StripBoldRemovesAll(s);
    ReplaceAbsent(StripBold(s), "**", "");
  }

  /** A leading `**` is dropped, with or without text after it. */
  lemma StripBoldPairStep(a: string, c: string)
    requires 2 <= |a| && a[0] == '*' && a[1] == '*'
    ensures StripBold(a) == StripBold(a[2..])
    ensures StripBold(a + c) == StripBold(a[2..] + c)
  {
    StripBoldUnfold(a);
    StripBoldUnfold(a + c);
    assert (a + c)[0] == '*' && (a + c)[1] == '*';
    assert (a + c)[2..] == a[2..] + c;
  }

  /** A first character that does not start `**` is kept, with or without
      text after it, as long as that text does not start with a star. */
  lemma StripBoldKeepStep(a: string, c: string)
    requires 1 <= |a| && !(2 <= |a| && a[0] == '*' && a[1] == '*')
    requires 0 < |c| && c[0] != '*'
    ensures StripBold(a) == [a[0]] + StripBold(a[1..])
    ensures StripBold(a + c) == [a[0]] + StripBold(a[1..] + c)
  {
    StripBoldUnfold(a);
    StripBoldUnfold(a + c);
    assert (a + c)[0] == a[0] && (a + c)[1] == (a[1..] + c)[0];
    assert (a + c)[1..] == a[1..] + c;
    if |a| == 1 {
      assert a[1..] == [];
      StripBoldUnfold(a[1..]);
    }
  }

  /** `StripBold` works separately on either side of a cut placed before a
      character that is not a star. */
  lemma {:induction false} StripBoldSplit(a: string, c: string)
    requires 0 < |c| && c[0] != '*'
    ensures StripBold(a + c) == StripBold(a) + StripBold(c)
    decreases |a|
  {
    if a == [] {
      assert a + c == c;
    } else if 2 <= |a| && a[0] == '*' && a[1] == '*' {
      StripBoldPairStep(a, c);
      StripBoldSplit(a[2..], c);
    } else {
      StripBoldKeepStep(a, c);
      StripBoldSplit(a[1..], c);
    }
  }

  /** A star-free tail passes through `StripBold` untouched. */
  lemma StripBoldAppend(a: string, b: string)
    requires Lacks(b, '*')
    ensures StripBold(a + b) == StripBold(a) + b
  {
    assert !HasStarPair(b);
    StarPairIsContains(b);
    ReplaceAbsent(b, "**", "");
    if b == [] {
      assert a + b == a && StripBold(a) + b == StripBold(a);
    } else {
      StripBoldSplit(a, b);
    }
  }

  /** A star-free head passes through `StripBold` untouched. */
  lemma {:induction false} StripBoldPrefix(w: string, b: string)
    requires Lacks(w, '*')
    ensures StripBold(w + b) == w + StripBold(b)
    decreases |w|
  {
    if w == [] {
      assert w + b == b;
    } else {
      StripBoldUnfold(w + b);
      assert (w + b)[0] == w[0];
      if |w + b| < 2 {
        assert b == [] && w + b == w;
        StripBoldUnfold(b);
      } else {
        assert (w + b)[1..] == w[1..] + b;
        StripBoldPrefix(w[1..], b);
        assert w == [w[0]] + w[1..];
      }
    }
  }

  /** A star-free, non-empty piece of text survives `StripBold`. */
  lemma StripBoldKeeps(s: string, w: string, k: nat)
    requires 0 < |w| && Lacks(w, '*') && OccursAt(s, w, k)
    ensures Contains(StripBold(s), w)
  {
    var a, b := s[..k], s[k + |w|..];
    assert s == a + (w + b);
    StripBoldSplit(a, w + b);
    StripBoldPrefix(w, b);
    assert StripBold(s) == StripBold(a) + w + StripBold(b);
    assert OccursAt(StripBold(s), w, |StripBold(a)|);
  }

  // ---------------------------------------------------------------------------
  // s.strip()
  // ---------------------------------------------------------------------------

  /** Every character of `s` is whitespace. */
  predicate AllSpace(s: string)
  {
    forall k :: 0 <= k < |s| ==> IsSpace(s[k])
  }

  /** The number of whitespace characters `s` starts with. */
  function LeadingSpaces(s: string): (n: nat)
    ensures n <= |s|
    ensures AllSpace(s[..n])
    ensures n < |s| ==> !IsSpace(s[n])
  {
    if s == [] || !IsSpace(s[0]) then 0
    else
      var n := 1 + LeadingSpaces(s[1..]);
      assert s[..n] == [s[0]] + s[1..][..n - 1];
      n
  }

  /** The length of `s` once its trailing whitespace is cut off. */
  function TrailingCut(s: string): (n: nat)
    ensures n <= |s|
    ensures AllSpace(s[n..])
    ensures 0 < n ==> !IsSpace(s[n - 1])
  {
    if s == [] || !IsSpace(s[|s| - 1]) then |s|
    else
      var n := TrailingCut(s[..|s| - 1]);
      assert s[n..] == s[..|s| - 1][n..] + [s[|s| - 1]];
      n
  }

  /** Python's `s.strip()`: the leading and the trailing whitespace removed. */
  function Strip(s: string): (r: string)
    ensures r == "" || (!IsSpace(r[0]) && !IsSpace(r[|r| - 1]))
    ensures r == "" <==> AllSpace(s)
    ensures Contains(s, r)
    ensures var i := LeadingSpaces(s);
      && AllSpace(s[..i])
      && i + |r| <= |s| && r == s[i..i + |r|]
      && AllSpace(s[i + |r|..])
  {
    var i := LeadingSpaces(s);
    var n := TrailingCut(s[i..]);
    StripKeeps(s, i, n);
    s[i..i + n]
  }

  /** The facts `Strip` promises, for the cut it makes. */
  lemma StripKeeps(s: string, i: nat, n: nat)
    requires i == LeadingSpaces(s) && n == TrailingCut(s[i..])
    ensures i + n <= |s|
    ensures var r := s[i..i + n];
      && (r == "" || (!IsSpace(r[0]) && !IsSpace(r[|r| - 1])))
      && (r == "" <==> AllSpace(s))
      && Contains(s, r)
      && AllSpace(s[..i])
      && |r| == n && r == s[i..i + |r|]
      && AllSpace(s[i + |r|..])
  {
    StripCutTail(s, i, n);
    StripCutEnds(s, i, n);
    StripEmpty(s, i, n);
    var r := s[i..i + n];
    assert OccursAt(s, r, i);
    assert 0 < n ==> r[0] == s[i] && r[n - 1] == s[i + n - 1];
  }

  /** What follows the part `strip()` keeps is whitespace. */
  lemma StripCutTail(s: string, i: nat, n: nat)
    requires i == LeadingSpaces(s) && n == TrailingCut(s[i..])
    ensures i + n <= |s| && AllSpace(s[i + n..])
  {
    assert s[i..][n..] == s[i + n..];
  }

  /** The part `strip()` keeps starts and ends with a non-whitespace character. */
  lemma StripCutEnds(s: string, i: nat, n: nat)
    requires i == LeadingSpaces(s) && n == TrailingCut(s[i..])
    ensures 0 < n ==> i + n <= |s| && !IsSpace(s[i]) && !IsSpace(s[i + n - 1])
  {
    if 0 < n {
      assert s[i..][n - 1] == s[i + n - 1];
    }
  }

  /** `strip()` leaves nothing exactly when the text is all whitespace. */
  lemma StripEmpty(s: string, i: nat, n: nat)
    requires i == LeadingSpaces(s) && n == TrailingCut(s[i..])
    ensures n == 0 <==> AllSpace(s)
  {
    if n == 0 {
      assert s == s[..i] + s[i..][n..];
    }
  }

  /** A string with no whitespace at either end is its own `strip()`. */
  lemma StripTrimmed(s: string)
    requires s == "" || (!IsSpace(s[0]) && !IsSpace(s[|s| - 1]))
    ensures Strip(s) == s
  {
    assert s[0..] == s;
  }

  /** `strip()` twice is `strip()` once. */
  lemma StripIdempotent(s: string)
    ensures Strip(Strip(s)) == Strip(s)
  {
    StripTrimmed(Strip(s));
  }

  /** A piece of the text that starts and ends with a non-whitespace
      character survives `strip()`. */
  lemma StripKeepsPiece(s: string, m: string, p: nat)
    requires OccursAt(s, m, p) && 0 < |m| && !IsSpace(m[0]) && !IsSpace(m[|m| - 1])
    ensures Contains(Strip(s), m)
  {
    var r := Strip(s);
    PieceInsideTrim(s, m, p, LeadingSpaces(s), r);
  }

  /** A piece that starts and ends with non-whitespace lies inside the part
      of the text between a whitespace head and a whitespace tail. */
  lemma PieceInsideTrim(s: string, m: string, p: nat, i: nat, r: string)
    requires OccursAt(s, m, p) && 0 < |m| && !IsSpace(m[0]) && !IsSpace(m[|m| - 1])
    requires i + |r| <= |s| && r == s[i..i + |r|]
    requires AllSpace(s[..i]) && AllSpace(s[i + |r|..])
    ensures i <= p && OccursAt(r, m, p - i)
  {
    var q := p + |m| - 1;
    assert !IsSpace(s[p]) && !IsSpace(s[q]) by {
      assert s[p..p + |m|][0] == s[p] && s[p..p + |m|][|m| - 1] == s[q];
    }
    assert i <= p;
    assert q < i + |r|;
    forall j | 0 <= j < |m| ensures r[p - i + j] == m[j] {
      assert r[p - i + j] == s[p + j] == s[p..p + |m|][j];
    }
    assert r[p - i..p - i + |m|] == m;
  }

  // ---------------------------------------------------------------------------
  // str(n) for an integer, and its inverse
  // ---------------------------------------------------------------------------

  function DigitValue(c: char): nat
    requires IsDigit(c)
  {
    c as int - '0' as int
  }

  /** The digit for a value below ten; reading it back gives the value. */
  function DigitChar(d: nat): (c: char)
    requires d < 10
    ensures IsDigit(c) && DigitValue(c) == d
  {
    "0123456789"[d]
  }

  /** Python's `str(n)` for `n >= 0`: decimal digits, no leading zero. */
  function NatToString(n: nat): (r: string)
    ensures 0 < |r|
    ensures forall k :: 0 <= k < |r| ==> IsDigit(r[k])
    ensures |r| == 1 <==> n < 10
    ensures 1 < |r| ==> r[0] != '0'
  {
    if n < 10 then [DigitChar(n)] else NatToString(n / 10) + [DigitChar(n % 10)]
  }

  /** Python's `str(n)` for any integer: a `-` before the digits of a negative one. */
  function IntToString(n: int): (r: string)
    ensures 0 < |r|
    ensures r[0] == '-' <==> n < 0
    ensures var digits := if n < 0 then r[1..] else r;
      && 0 < |digits|
      && (forall k :: 0 <= k < |digits| ==> IsDigit(digits[k]))
      && (1 < |digits| ==> digits[0] != '0')
      && ParseDigits(digits) == if n < 0 then -n else n
  {
    var digits := NatToString(if n < 0 then -n else n);
    NatToStringRoundTrip(if n < 0 then -n else n);
    assert IsDigit(digits[0]);
    if n < 0 then
      assert ("-" + digits)[1..] == digits;
      "-" + digits
    else digits
  }

  /** Reads a string of decimal digits back as a number (`int(s)` on digits). */
  function ParseDigits(s: string): nat
    requires forall k :: 0 <= k < |s| ==> IsDigit(s[k])
  {
    if s == [] then 0 else 10 * ParseDigits(s[..|s| - 1]) + DigitValue(s[|s| - 1])
  }

  /** Reading back the digits of `str(n)` gives `n`. */
  lemma {:induction false} NatToStringRoundTrip(n: nat)
    ensures ParseDigits(NatToString(n)) == n
  {
    var r := NatToString(n);
    if n >= 10 {
      NatToStringRoundTrip(n / 10);
      assert r[..|r| - 1] == NatToString(n / 10);
    }
  }

  /** Distinct integers have distinct `str` forms, so `str(chat_id)` never
      lets two chat ids share a key. */
  lemma IntToStringInjective(a: int, b: int)
    requires IntToString(a) == IntToString(b)
    ensures a == b
  {
    var sa, sb := NatToString(if a < 0 then -a else a), NatToString(if b < 0 then -b else b);
    assert IntToString(a)[0] == '-' <==> a < 0 by { assert IsDigit(sa[0]); }
    assert IntToString(b)[0] == '-' <==> b < 0 by { assert IsDigit(sb[0]); }
    if a < 0 {
      assert sa == IntToString(a)[1..] == IntToString(b)[1..] == sb;
    }
    NatToStringRoundTrip(if a < 0 then -a else a);
    NatToStringRoundTrip(if b < 0 then -b else b);
  }
}
