/**
 * The search `re.search(r"ALARM:\s*(\d{2}:\d{2})", output)` that the coach
 * runs over generated text, written as a hand matcher, together with the
 * regular expression's own meaning and the proof that the two agree.
 */
module Marker {
  import opened Wrappers
  import opened PyStr

  /** The literal the pattern starts with. */
  const Tag: string := "ALARM:"

  /** `\d{2}:\d{2}` matches at index `j` of `s`. */
  predicate ClockAt(s: string, j: nat)
    ensures ClockAt(s, j) ==> j + 5 <= |s| && !IsSpace(s[j]) && !IsSpace(s[j + 4])
  {
    && j + 5 <= |s|
    && IsDigit(s[j]) && IsDigit(s[j + 1])
    && s[j + 2] == ':'
    && IsDigit(s[j + 3]) && IsDigit(s[j + 4])
  }

  /** Exactly five characters: digit, digit, `:`, digit, digit. */
  predicate IsClockText(t: string)
  {
    |t| == 5 && ClockAt(t, 0)
  }

  /** The pattern matches at `i` with `\s*` consuming exactly `w` characters. */
  predicate MatchesWith(s: string, i: nat, w: nat)
  {
    && OccursAt(s, Tag, i)
    && i + |Tag| + w <= |s|
    && (forall k :: i + |Tag| <= k < i + |Tag| + w ==> IsSpace(s[k]))
    && ClockAt(s, i + |Tag| + w)
  }

  /** The regular expression's meaning: the pattern matches at `i` for some
      length of the whitespace run. */
  ghost predicate PatternMatches(s: string, i: nat)
    ensures PatternMatches(s, i) ==> OccursAt(s, Tag, i) && i + |Tag| + 5 <= |s|
  {
    exists w: nat :: MatchesWith(s, i, w)
  }

  /** The first index at or after `j` that is not whitespace. */
  function SkipSpaces(s: string, j: nat): (e: nat)
    requires j <= |s|
    ensures j <= e <= |s|
    ensures forall k :: j <= k < e ==> IsSpace(s[k])
    ensures e < |s| ==> !IsSpace(s[e])
    decreases |s| - j
  {
    if j == |s| || !IsSpace(s[j]) then j else SkipSpaces(s, j + 1)
  }

  /** Where the captured time starts when the tag sits at `i`: greedy `\s*`. */
  function TimeStart(s: string, i: nat): nat
    requires OccursAt(s, Tag, i)
  {
    SkipSpaces(s, i + |Tag|)
  }

  /** The matcher's test at one index: the tag, all the whitespace after it,
      then a time. */
  predicate MatchAt(s: string, i: nat)
    ensures MatchAt(s, i) ==> OccursAt(s, Tag, i) && i + |Tag| + 5 <= |s|
  {
    OccursAt(s, Tag, i) && ClockAt(s, TimeStart(s, i))
  }

  /** A digit is never whitespace, so `\s*` can only match the whole run of
      whitespace: any match consumes exactly the run the matcher skips. */
  lemma MatchConsumesWholeRun(s: string, i: nat, w: nat)
    requires MatchesWith(s, i, w)
    ensures i + |Tag| + w == TimeStart(s, i)
  {
    var e := TimeStart(s, i);
    var j := i + |Tag| + w;
    assert !IsSpace(s[j]) by { assert IsDigit(s[j]); }
    assert j <= e;
  }

  /** The matcher agrees with the regular expression at every index. */
  lemma MatchAtIffPattern(s: string, i: nat)
    ensures MatchAt(s, i) <==> PatternMatches(s, i)
  {
    if MatchAt(s, i) {
      assert MatchesWith(s, i, TimeStart(s, i) - i - |Tag|);
    }
    if PatternMatches(s, i) {
      var w: nat :| MatchesWith(s, i, w);
      MatchConsumesWholeRun(s, i, w);
    }
  }

  /** A found marker: the index of `ALARM:` and the captured `group(1)`. */
  datatype Alarm = Alarm(at: nat, time: string)

  /** The first index at or after `i` where the pattern matches. */
  function SearchFrom(s: string, i: nat): (r: Option<nat>)
    requires i <= |s|
    ensures r.Some? ==> i <= r.value && MatchAt(s, r.value)
    ensures r.Some? ==> forall k :: i <= k < r.value ==> !MatchAt(s, k)
    ensures r.None? ==> forall k :: i <= k ==> !MatchAt(s, k)
    decreases |s| - i
  {
    if MatchAt(s, i) then Some(i)
    else if i == |s| then None
    else SearchFrom(s, i + 1)
  }

  /** `re.search`: the leftmost match and its captured time, or `None`. */
  function Search(s: string): (r: Option<Alarm>)
    ensures r.Some? ==> MatchAt(s, r.value.at) && forall k :: 0 <= k < r.value.at ==> !MatchAt(s, k)
    ensures r.Some? ==> r.value.time == s[TimeStart(s, r.value.at)..TimeStart(s, r.value.at) + 5]
    ensures r.Some? ==> IsClockText(r.value.time)
    ensures r.None? <==> forall k: nat :: !MatchAt(s, k)
  {
    match SearchFrom(s, 0)
    case None => None
    case Some(i) =>
      var j := TimeStart(s, i);
      Some(Alarm(i, s[j..j + 5]))
  }

  /** Scanning from `j` stops at the first index where the matcher succeeds. */
  lemma {:induction false} SearchFromFirst(s: string, j: nat, i: nat)
    requires j <= i && MatchAt(s, i)
    requires forall k :: j <= k < i ==> !MatchAt(s, k)
    ensures SearchFrom(s, j) == Some(i)
    decreases i - j
  {
    if j < i {
      assert !MatchAt(s, j);
      SearchFromFirst(s, j + 1, i);
    }
  }

  /** The first index where the matcher succeeds is what `Search` reports. */
  lemma SearchFindsFirst(s: string, i: nat)
    requires MatchAt(s, i)
    requires forall k :: 0 <= k < i ==> !MatchAt(s, k)
    ensures Search(s).Some? && Search(s).value.at == i
  {
    SearchFromFirst(s, 0, i);
  }

  /** `Search` finds a marker exactly when the regular expression matches
      somewhere, and then at its leftmost match. */
  lemma SearchIsRegexSearch(s: string)
    ensures Search(s).Some? <==> exists i: nat :: PatternMatches(s, i)
    ensures Search(s).Some? ==> PatternMatches(s, Search(s).value.at)
    ensures Search(s).Some? ==> forall k: nat :: k < Search(s).value.at ==> !PatternMatches(s, k)
  {
    forall i: nat
      ensures MatchAt(s, i) <==> PatternMatches(s, i)
    {
      MatchAtIffPattern(s, i);
    }
  }

  /** Text without `ALARM:` has no marker, so the `in` test before the
      search never hides a match. */
  lemma NoTagNoMatch(s: string)
    requires !Contains(s, Tag)
    ensures Search(s).None?
  {
    forall k: nat
      ensures !MatchAt(s, k)
    {
      assert MatchAt(s, k) ==> k <= |s|;
    }
  }
}
