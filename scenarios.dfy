/**
 * Worked cases of the model on particular replies and records: a marker with
 * a one-digit hour, a reply in which removing the marker leaves another
 * marker behind, a reply ending in a marker, the planning reply with its
 * `PLAN_LOCKED:` sentinel, a marker written with a tab, and a reminder set
 * for nine in the evening.
 */
module Scenarios {
  import opened Wrappers
  import opened PyStr
  import opened Marker
  import opened Storage
  import opened Brain
  import opened Tick

  /** `ALARM: 9:00` has a one-digit hour, so the pattern does not match it
      and nothing is locked. */
  lemma OneDigitHourIsNoLock()
    ensures Search("ALARM: 9:00").None?
    ensures ScanReply("ALARM: 9:00").locked.None?
  {
    var s := "ALARM: 9:00";
    assert TimeStart(s, 0) == 7 by { assert SkipSpaces(s, 6) == SkipSpaces(s, 7); }
    forall k: nat | OccursAt(s, Tag, k) ensures k == 0 {
      assert s[k] == 'A' && s[k + 1] == 'L';
    }
  }

  /** In `ALARM: ALARM: HH:MMHH:MM` the leftmost match is the inner marker. */
  lemma DoubledMarkerSearch(t: string)
    requires IsClockText(t)
    ensures Search("ALARM: " + "ALARM: " + t + t) == Some(Alarm(7, t))
  {
    var s := "ALARM: " + "ALARM: " + t + t;
    DoubledInnerMatch(t);
    DoubledOuterNoMatch(t);
    SearchFindsFirst(s, 7);
  }

  /** The inner marker matches, with its time right after the space. */
  lemma DoubledInnerMatch(t: string)
    requires IsClockText(t)
    ensures var s := "ALARM: " + "ALARM: " + t + t;
      && MatchAt(s, 7) && TimeStart(s, 7) == 14 && s[14..19] == t
  {
    var s := "ALARM: " + "ALARM: " + t + t;
    assert OccursAt(s, Tag, 7) by { assert s[7..13] == Tag; }
    assert TimeStart(s, 7) == 14 by { assert SkipSpaces(s, 13) == SkipSpaces(s, 14); }
    assert s[14..19] == t;
  }

  /** No match starts in the outer `ALARM: `: at its tag the whitespace is
      followed by the letter `A`, and elsewhere the tag does not start. */
  lemma DoubledOuterNoMatch(t: string)
    requires IsClockText(t)
    ensures var s := "ALARM: " + "ALARM: " + t + t;
      forall k :: 0 <= k < 7 ==> !MatchAt(s, k)
  {
    var p := "ALARM: ";
    var s := p + p + t + t;
    assert s[..7] == p && s[7] == 'A';
    assert OccursAt(s, Tag, 0) by { assert s[0..6] == Tag; }
    assert TimeStart(s, 0) == 7 by { assert SkipSpaces(s, 6) == SkipSpaces(s, 7); }
    forall k | 0 < k < 7 ensures !MatchAt(s, k) {
      assert s[k] == p[k] && s[3] == 'R';
      if k == 2 {
        DiffersAt(s, Tag, k, 1);
      } else {
        DiffersAt(s, Tag, k, 0);
      }
    }
  }

  /** Removing the inner marker joins the outer `ALARM: ` to the second copy
      of the time, which forms the marker anew. */
  lemma DoubledMarkerRemoval(t: string)
    requires IsClockText(t)
    ensures Replace("ALARM: " + "ALARM: " + t + t, "ALARM: " + t, "") == "ALARM: " + t
  {
    var p := "ALARM: ";
    var pat := p + t;
    var rest := p + t + t;
    assert p + p + t + t == p + rest;
    assert Replace(p + rest, pat, "") == p + Replace(rest, pat, "") by {
      assert (p + rest)[..8] == "ALARM: A";
      assert pat[..2] == "AL" && pat[7] == t[0] && IsDigit(t[0]);
      OuterPrefixHoldsNoMarker(p + rest, pat);
      ReplaceKeepsPrefix(p, rest, pat, "");
    }
    assert Replace(rest, pat, "") == t by {
      assert rest[..|pat|] == pat;
      assert rest[|pat|..] == t;
      assert !Contains(t, pat);
      ReplaceAbsent(t, pat, "");
    }
  }

  /** A marker that starts `AL` and has no `A` after its space does not
      start anywhere in a leading `ALARM: ` that is followed by an `A`. */
  lemma OuterPrefixHoldsNoMarker(s: string, pat: string)
    requires 8 <= |s| && s[..8] == "ALARM: A"
    requires 8 <= |pat| && pat[..2] == "AL" && pat[7] != 'A'
    ensures forall k: nat | k < 7 :: !OccursAt(s, pat, k)
  {
    forall k: nat | k < 7 ensures !OccursAt(s, pat, k) {
      assert s[k] == "ALARM: A"[k] && s[k + 1] == "ALARM: A"[k + 1];
      if k == 0 {
        assert s[7] == 'A';
        DiffersAt(s, pat, 0, 7);
      } else if k == 2 {
        DiffersAt(s, pat, k, 1);
      } else {
        DiffersAt(s, pat, k, 0);
      }
    }
  }

  /** `PLAN_LOCKED:` does not occur in a twelve-character text that starts
      with `A`. */
  lemma NoSentinelIn(left: string)
    requires |left| == 12 && left[0] == 'A'
    ensures !Contains(left, "PLAN_LOCKED:")
  {
    forall k: nat | k <= |left| ensures !OccursAt(left, "PLAN_LOCKED:", k) {
      assert k > 0 || left[0] != "PLAN_LOCKED:"[0];
    }
  }

  /** The visible text made from the doubled marker. */
  lemma DoubledMarkerText(t: string)
    requires IsClockText(t)
    ensures LockedText("ALARM: " + "ALARM: " + t + t, t) == "ALARM: " + t + Confirmation(t)
  {
    var left := "ALARM: " + t;
    DoubledMarkerRemoval(t);
    assert !IsSpace(left[0]) && !IsSpace(left[|left| - 1]) by {
      assert left[|left| - 1] == t[4];
    }
    StripTrimmed(left);
    NoSentinelIn(left);
    assert Lacks(left, '*');
    LockedTextAfterRemoval("ALARM: " + "ALARM: " + t + t, t, left);
  }

  /** The marker can survive the cleanup: the reply locks the time, and the
      user still sees `ALARM: HH:MM` in front of the confirmation. */
  lemma MarkerCanReappear(t: string)
    requires IsClockText(t)
    ensures var r := ScanReply("ALARM: " + "ALARM: " + t + t);
      && r == Reply("ALARM: " + t + Confirmation(t), Some(t))
      && Contains(r.visible, "ALARM: " + t)
  {
    var text := "ALARM: " + "ALARM: " + t + t;
    var left := "ALARM: " + t;
    DoubledMarkerSearch(t);
    DoubledMarkerText(t);
    assert Contains(text, Tag) by { assert OccursAt(text, Tag, 7); }
    assert OccursAt(left + Confirmation(t), left, 0);
  }

  /** A reply that ends in a well-formed marker and has no capital `A`
      before it: the marker is found right after the body. */
  lemma TrailingMarkerSearch(body: string, t: string)
    requires IsClockText(t) && Lacks(body, 'A')
    ensures Search(body + "ALARM: " + t) == Some(Alarm(|body|, t))
  {
    var s := body + ("ALARM: " + t);
    assert s == body + "ALARM: " + t;
    assert MatchAt(s, |body|) && TimeStart(s, |body|) == |body| + 7 && s[|body| + 7..|body| + 12] == t by {
      TrailingMarkerMatches(body, t);
    }
    assert forall k :: 0 <= k < |body| ==> !MatchAt(s, k) by {
      NoMatchInBody(body, "ALARM: " + t);
    }
    SearchFindsFirst(s, |body|);
  }

  /** The marker after the body is a match, its time right after the space. */
  lemma TrailingMarkerMatches(body: string, t: string)
    requires IsClockText(t)
    ensures var s := body + ("ALARM: " + t);
      && OccursAt(s, Tag, |body|) && TimeStart(s, |body|) == |body| + 7 && MatchAt(s, |body|)
  {
    var pat := "ALARM: " + t;
    var s := body + pat;
    var i := |body|;
    assert s[i..] == pat;
    assert OccursAt(s, Tag, i) by { assert s[i..i + 6] == pat[..6]; }
    assert TimeStart(s, i) == i + 7 by {
      assert s[i + 6] == ' ';
      assert SkipSpaces(s, i + 6) == SkipSpaces(s, i + 7);
    }
    assert ClockAt(s, i + 7) by { assert s[i + 7..] == t; }
  }

  /** No match starts inside a body with no capital `A`. */
  lemma NoMatchInBody(body: string, rest: string)
    requires Lacks(body, 'A')
    ensures forall k :: 0 <= k < |body| ==> !MatchAt(body + rest, k)
  {
    forall k | 0 <= k < |body| ensures !MatchAt(body + rest, k) {
      assert (body + rest)[k] == body[k];
    }
  }

  /** Removing the marker from such a reply leaves the body. */
  lemma TrailingMarkerRemoval(body: string, t: string)
    requires IsClockText(t) && Lacks(body, 'A')
    ensures Replace(body + "ALARM: " + t, "ALARM: " + t, "") == body
  {
    var pat := "ALARM: " + t;
    assert body + "ALARM: " + t == body + pat;
    forall k: nat | k < |body| ensures !OccursAt(body + pat, pat, k) {
      assert (body + pat)[k] == body[k];
    }
    ReplaceKeepsPrefix(body, pat, pat, "");
    assert pat[..|pat|] == pat && pat[|pat|..] == "";
    assert body + "" == body;
  }

  /** The confirmation holds no capital `A`. */
  lemma ConfirmationLacksA(t: string)
    requires IsClockText(t)
    ensures Lacks(Confirmation(t), 'A')
  {
  }

  /** `PLAN_LOCKED:` does not occur in a text with no capital `A`. */
  lemma NoSentinelWithoutA(b: string)
    requires Lacks(b, 'A')
    ensures !Contains(b, "PLAN_LOCKED:")
  {
    var w := "PLAN_LOCKED:";
    assert w[2] == 'A';
    LacksBlocks(b, w, 2, 'A');
  }

  /** The visible text made from such a reply: the trimmed body, then the
      confirmation, with every `**` dropped. */
  lemma TrailingMarkerText(body: string, t: string)
    requires IsClockText(t) && Lacks(body, 'A')
    ensures LockedText(body + "ALARM: " + t, t) == StripBold(Strip(body) + Confirmation(t))
  {
    var b := Strip(body);
    TrailingMarkerRemoval(body, t);
    LacksInPart(body, b, 'A');
    NoSentinelWithoutA(b);
    LockedTextTrimmed(body + "ALARM: " + t, t, body);
  }

  /** After a lock on `t`, a body with no capital `A` gives visible text
      that holds the time and neither a capital `A` nor `ALARM:`. */
  lemma ConfirmedTextShowsTime(b: string, t: string)
    requires IsClockText(t) && Lacks(b, 'A')
    ensures var v := StripBold(b + Confirmation(t)); Lacks(v, 'A') && !Contains(v, Tag) && Contains(v, t)
  {
    var c := Confirmation(t);
    var v := StripBold(b + c);
    ConfirmationLacksA(t);
    assert Lacks(b + c, 'A');
    ReplaceLacks(b + c, "**", "", 'A');
    LacksBlocks(v, Tag, 0, 'A');
    ConfirmationStarFree(t);
    StripBoldAppend(b, c);
    assert OccursAt(c, t, |c| - 6);
    assert OccursAt(StripBold(b) + c, t, |StripBold(b)| + |c| - 6);
  }

  /** The intended path, as in the conversation that locks `21:00` for a new
      user: a reply ending in `ALARM: HH:MM`, with no capital `A` in the text
      before it, locks that time; the user sees no `ALARM:` and does see the
      time. */
  lemma TrailingMarkerIsConsumed(body: string, t: string)
    requires IsClockText(t) && Lacks(body, 'A')
    ensures var r := ScanReply(body + "ALARM: " + t);
      && r.locked == Some(t)
      && !Contains(r.visible, Tag)
      && Contains(r.visible, t)
  {
    var text := body + "ALARM: " + t;
    TrailingMarkerSearch(body, t);
    assert Contains(text, Tag) by { assert OccursAt(text, Tag, |body|); }
    TrailingMarkerText(body, t);
    LacksInPart(body, Strip(body), 'A');
    ConfirmedTextShowsTime(Strip(body), t);
  }

  /** The reply the planning prompt asks for: the `PLAN_LOCKED:` sentinel,
      a body with no capital `A`, and the marker at the end. It locks the
      time; the user sees neither the sentinel nor the marker, and does see
      the time. */
  lemma PlanReplyIsConsumed(body: string, t: string)
    requires IsClockText(t) && Lacks(body, 'A')
    ensures var r := ScanReply("PLAN_LOCKED:" + body + "ALARM: " + t);
      && r.locked == Some(t)
      && !Contains(r.visible, "PLAN_LOCKED:")
      && !Contains(r.visible, Tag)
      && Contains(r.visible, t)
  {
    var pre := "PLAN_LOCKED:" + body;
    var text := pre + ("ALARM: " + t);
    assert text == "PLAN_LOCKED:" + body + "ALARM: " + t;
    PlanReplySearch(body, t);
    assert Contains(text, Tag) by { assert OccursAt(text, Tag, |pre|); }
    var c := PlanReplyText(body, t);
    LacksInPart(c, Strip(c), 'A');
    ConfirmedTextShowsTime(Strip(c), t);
    NoSentinelWithoutA(StripBold(Strip(c) + Confirmation(t)));
  }

  /** Neither the tag nor the marker starts before the end of a sentinel and
      a body with no capital `A`: every text that starts `AL` needs an `A`
      followed by an `L`. */
  lemma SentinelHoldsNoMarker(body: string, rest: string, w: string)
    requires Lacks(body, 'A') && 2 <= |w| && w[0] == 'A' && w[1] == 'L'
    ensures forall k: nat :: k < 12 + |body| ==> !OccursAt("PLAN_LOCKED:" + body + rest, w, k)
  {
    var p := "PLAN_LOCKED:";
    var s := p + body + rest;
    forall k: nat | k < 12 + |body| ensures !OccursAt(s, w, k) {
      if k < 12 {
        assert s[k] == p[k];
        if k == 2 {
          assert s[3] == p[3] == 'N';
          DiffersAt(s, w, k, 1);
        } else {
          DiffersAt(s, w, k, 0);
        }
      } else {
        assert s[k] == body[k - 12];
        DiffersAt(s, w, k, 0);
      }
    }
  }

  /** The marker after the sentinel and the body is the leftmost match. */
  lemma PlanReplySearch(body: string, t: string)
    requires IsClockText(t) && Lacks(body, 'A')
    ensures var pre := "PLAN_LOCKED:" + body;
      Search(pre + ("ALARM: " + t)) == Some(Alarm(|pre|, t))
  {
    var pre := "PLAN_LOCKED:" + body;
    var s := pre + ("ALARM: " + t);
    assert MatchAt(s, |pre|) && TimeStart(s, |pre|) == |pre| + 7 && s[|pre| + 7..|pre| + 12] == t by {
      TrailingMarkerMatches(pre, t);
    }
    assert forall k :: 0 <= k < |pre| ==> !MatchAt(s, k) by {
      assert s == "PLAN_LOCKED:" + body + ("ALARM: " + t);
      SentinelHoldsNoMarker(body, "ALARM: " + t, Tag);
    }
    SearchFindsFirst(s, |pre|);
  }

  /** `strip()` keeps the sentinel at the front and cuts only the end of
      the body. */
  lemma StripKeepsSentinel(body: string)
    ensures var r := Strip("PLAN_LOCKED:" + body);
      12 <= |r| && r == "PLAN_LOCKED:" + body[..|r| - 12]
  {
    var s := "PLAN_LOCKED:" + body;
    var r := Strip(s);
    assert !IsSpace(s[0]) && LeadingSpaces(s) == 0;
    assert !IsSpace(s[11]);
    assert r == s[..|r|];
  }

  /** The visible text of the planning reply: the body with the marker and
      the sentinel removed and trimmed, then the confirmation, with every
      `**` dropped; the kept body has no capital `A`. */
  lemma PlanReplyText(body: string, t: string) returns (c: string)
    requires IsClockText(t) && Lacks(body, 'A')
    ensures Lacks(c, 'A')
    ensures LockedText("PLAN_LOCKED:" + body + ("ALARM: " + t), t) == StripBold(Strip(c) + Confirmation(t))
  {
    var p := "PLAN_LOCKED:";
    var pre := p + body;
    var pat := "ALARM: " + t;
    SentinelHoldsNoMarker(body, pat, pat);
    assert p + body + pat == pre + pat;
    ReplaceKeepsPrefix(pre, pat, pat, "");
    assert pat[..|pat|] == pat && pat[|pat|..] == "";
    assert Replace(pre + pat, pat, "") == pre;
    StripKeepsSentinel(body);
    var r := Strip(pre);
    c := r[12..];
    assert r == p + c;
    forall j | 0 <= j < |c| ensures c[j] != 'A' {
      assert c[j] == body[j];
    }
    NoSentinelWithoutA(c);
    ReplaceAbsent(c, p, "");
    assert (p + c)[..|p|] == p && (p + c)[|p|..] == c;
    assert Replace(r, p, "") == c;
  }

  /** `ALARM:` then a tab then the time: `\s*` takes the tab, so the time
      is locked, but the one-space marker the cleanup removes is not there,
      and the user still sees the whole marker. */
  lemma TabbedMarkerStaysVisible(t: string)
    requires IsClockText(t)
    ensures var r := ScanReply("ALARM:\t" + t);
      r.locked == Some(t) && Contains(r.visible, "ALARM:\t" + t)
  {
    var s := "ALARM:\t" + t;
    TabbedMarkerSearch(t);
    assert s[0..12] == s;
    assert s != "ALARM: " + t by { assert s[6] != ("ALARM: " + t)[6]; }
    MatchedMarkerStaysVisible(s);
  }

  /** The tabbed marker is the leftmost match, its time after the tab. */
  lemma TabbedMarkerSearch(t: string)
    requires IsClockText(t)
    ensures var s := "ALARM:\t" + t;
      Search(s) == Some(Alarm(0, t)) && TimeStart(s, 0) == 7
  {
    var s := "ALARM:\t" + t;
    assert OccursAt(s, Tag, 0) by { assert s[0..6] == Tag; }
    assert TimeStart(s, 0) == 7 by { assert SkipSpaces(s, 6) == SkipSpaces(s, 7); }
    assert s[7..12] == t;
    SearchFindsFirst(s, 0);
  }

  /** A user who locked `21:00` is due at nine in the evening and not a
      minute later. */
  lemma NineInTheEvening(u: UserRecord)
    requires u.phase == "active" && u.reminderTime == Some("21:00")
    ensures IsDue(u, Clock(21, 0))
    ensures !IsDue(u, Clock(21, 1))
  {
    assert Clock(21, 0) == "21:00";
    assert Clock(21, 1)[4] == '1';
  }
}
