/**
 * The coach node: it picks one of three prompts from the proactive flag and
 * the phase stored for the user, hands it to the text generator, and, outside
 * the proactive path, scans the reply for an `ALARM: HH:MM` marker, locks the
 * schedule in the store when it finds one, and cleans up the visible text.
 */
module Brain {
  import opened Wrappers
  import opened PyStr
  import opened Marker
  import opened Storage

  /** The external text generator: a prompt in, the generated text out, or
      the message of the exception it raised. */
  type Generator = string -> Result<string, string>

  /** What makes the coach node raise instead of returning a response. */
  datatype CoachError =
    | UnknownUser                     // no record under `str(chat_id)`
    | GenerationFailed(message: string)

  /** The three prompt templates. */
  datatype Template = Nudge | Planning | Advice

  /** The proactive flag wins; otherwise the stored phase decides, and only
      the exact phase `intake` selects the planning prompt. */
  function TemplateFor(isProactive: bool, storedPhase: string): (t: Template)
    ensures t == Nudge <==> isProactive
    ensures t == Planning <==> !isProactive && storedPhase == "intake"
    ensures t == Advice <==> !isProactive && storedPhase != "intake"
  {
    if isProactive then Nudge
    else if storedPhase == "intake" then Planning
    else Advice
  }

  /** The fixed text of the nudge prompt, after the resolution. */
  const NudgeRules: string :=
    "'. It is strictly time to work.\n"
    + "Draft a 1-sentence high-energy command to start working.\n"
    + "Rules: No hello. No questions. Just action.\n"
    + "Formatting: PLAIN TEXT ONLY. Do NOT use asterisks (**) or bolding."

  /** The fixed text of the planning prompt, after the user's input; it asks
      for the `ALARM: HH:MM` marker and the `PLAN_LOCKED:` sentinel. */
  const PlanningRules: string :=
    RulesBeforeMarker + "ALARM: HH:MM" + RulesBeforeSentinel + "PLAN_LOCKED:" + RulesAfterSentinel

  const RulesBeforeMarker: string :=
    "'.\n"
    + "Goal: Lock a specific schedule.\n"
    + "CRITICAL RULES:\n"
    + "1. If the user agrees to a plan, you MUST output a hidden tag at the end: '"

  const RulesBeforeSentinel: string :=
    "' (24-hour format).\n"
    + "2. Example: If user says '12am', output 'ALARM: 00:00'. If '2pm', output 'ALARM: 14:00'.\n"
    + "3. Start the final confirmation message with '"

  const RulesAfterSentinel: string :=
    "'\n"
    + "4. FORMATTING: Use clean, plain text only. Do NOT use asterisks (**) or markdown bolding."

  /** The fixed text of the advice prompt, after the user's input. */
  const AdviceRules: string :=
    "'.\n"
    + "Provide technical advice in clean plain text.\n"
    + "Do NOT use asterisks (**) or bolding. Use simple numbering (1. 2. 3.) if needed."

  /** The proactive nudge: it quotes the goal; the user's input is not a
      parameter, so it cannot appear. */
  function NudgePrompt(resolution: string): (p: string)
    ensures Contains(p, resolution)
  {
    var head := "User's Goal: '";
    assert OccursAt(head + resolution + NudgeRules, resolution, |head|);
    head + resolution + NudgeRules
  }

  /** The intake prompt: it quotes the goal and the user's input, and asks
      for the `ALARM: HH:MM` marker and the `PLAN_LOCKED:` sentinel the scan
      looks for. */
  function PlanningPrompt(resolution: string, userInput: string): (p: string)
    ensures Contains(p, resolution) && Contains(p, userInput)
    ensures Contains(p, "ALARM: HH:MM") && Contains(p, "PLAN_LOCKED:")
  {
    var head := "You are a Habit Strategist. User Goal: '";
    var middle := "'.\n" + "History: '";
    var p := head + resolution + middle + userInput + PlanningRules;
    assert OccursAt(p, resolution, |head|);
    assert OccursAt(p, userInput, |head| + |resolution| + |middle|);
    RulesAskForMarker(head + resolution + middle + userInput);
    p
  }

  /** The planning rules name the marker and the sentinel. */
  lemma RulesAskForMarker(before: string)
    ensures Contains(before + PlanningRules, "ALARM: HH:MM")
    ensures Contains(before + PlanningRules, "PLAN_LOCKED:")
  {
    BothBetween(before, RulesBeforeMarker, "ALARM: HH:MM", RulesBeforeSentinel, "PLAN_LOCKED:", RulesAfterSentinel);
  }

  /** Two pieces set into a text both occur in it. */
  lemma BothBetween(before: string, a: string, v: string, b: string, w: string, c: string)
    ensures var s := before + (a + v + b + w + c); Contains(s, v) && Contains(s, w)
  {
    var s := before + (a + v + b + w + c);
    assert s[|before| + |a|..|before| + |a| + |v|] == v;
    assert OccursAt(s, v, |before| + |a|);
    assert s[|before| + |a| + |v| + |b|..|before| + |a| + |v| + |b| + |w|] == w;
    assert OccursAt(s, w, |before| + |a| + |v| + |b|);
  }

  /** The active-phase advice prompt: it quotes the goal and the user's input. */
  function AdvicePrompt(resolution: string, userInput: string): (p: string)
    ensures Contains(p, resolution) && Contains(p, userInput)
  {
    var head := "User Goal: ";
    var middle := ". User Input: '";
    var p := head + resolution + middle + userInput + AdviceRules;
    assert OccursAt(p, resolution, |head|);
    assert OccursAt(p, userInput, |head| + |resolution| + |middle|);
    p
  }

  /** The prompt for a template: every prompt quotes the goal, and every
      prompt but the nudge quotes the user's input. */
  function Prompt(t: Template, resolution: string, userInput: string): (p: string)
    ensures Contains(p, resolution)
    ensures t != Nudge ==> Contains(p, userInput)
  {
    match t
    case Nudge => NudgePrompt(resolution)
    case Planning => PlanningPrompt(resolution, userInput)
    case Advice => AdvicePrompt(resolution, userInput)
  }

  /** The text appended once a time is locked. */
  function Confirmation(time: string): (r: string)
    ensures |r| == |time| + 40
    ensures r[3] == '\U{23F0}' && r[|r| - 1] == ')'
    ensures OccursAt(r, time, |r| - |time| - 1)
  {
    var head := "\n\n(\U{23F0} System set to remind you daily at ";
    OccursBetween(head, time, ")");
    head + time + ")"
  }

  lemma ConfirmationStarFree(time: string)
    requires IsClockText(time)
    ensures Lacks(Confirmation(time), '*')
  {
  }

  /** The visible text once a marker with time `time` was found: the
      one-space marker and every `PLAN_LOCKED:` removed, trimmed, the
      confirmation appended, and then every `**` dropped. */
  function LockedText(text: string, time: string): (r: string)
    ensures !Contains(r, "**")
    ensures IsClockText(time) ==> EndsWith(r, Confirmation(time))
  {
    var withoutMarker := Strip(Replace(text, "ALARM: " + time, ""));
    var withoutSentinel := Strip(Replace(withoutMarker, "PLAN_LOCKED:", ""));
    StripBoldRemovesAll(withoutSentinel + Confirmation(time));
    assert IsClockText(time) ==> StripBold(withoutSentinel + Confirmation(time))
                                 == StripBold(withoutSentinel) + Confirmation(time) by {
      if IsClockText(time) {
        ConfirmationStarFree(time);
        StripBoldAppend(withoutSentinel, Confirmation(time));
      }
    }
    StripBold(withoutSentinel + Confirmation(time))
  }

  /** The outcome of scanning one reply. */
  datatype Reply = Reply(visible: string, locked: Option<string>)

  /** The scan of a non-proactive reply. A time is locked exactly when the
      marker pattern matches somewhere, and it is the time of the leftmost
      match; the visible text never holds `**`, ends with the confirmation
      after a lock, and is only stripped of `**` otherwise. */
  function ScanReply(text: string): (r: Reply)
    ensures !Contains(r.visible, "**")
    ensures r.locked.Some? <==> exists i: nat :: PatternMatches(text, i)
    ensures r.locked.Some? ==> Search(text).Some? && r.locked.value == Search(text).value.time
    ensures r.locked.Some? ==> IsClockText(r.locked.value)
    ensures r.locked.Some? ==> EndsWith(r.visible, Confirmation(r.locked.value))
    ensures r.locked.None? ==> r.visible == StripBold(text)
  {
    SearchIsRegexSearch(text);
    if !Contains(text, Tag) then
      NoTagNoMatch(text);
      StripBoldRemovesAll(text);
      Reply(StripBold(text), None)
    else match Search(text)
      case None =>
        StripBoldRemovesAll(text);
        Reply(StripBold(text), None)
      case Some(alarm) =>
        var t := alarm.time;
        Reply(LockedText(text, t), Some(t))
  }

  /** An `ALARM:` that is not followed by a well-formed time stays visible. */
  lemma UnmatchedTagStaysVisible(text: string)
    requires Contains(text, Tag) && Search(text).None?
    ensures ScanReply(text).locked.None?
    ensures Contains(ScanReply(text).visible, Tag)
  {
    SearchIsRegexSearch(text);
    var k: nat :| k <= |text| && OccursAt(text, Tag, k);
    StripBoldKeeps(text, Tag, k);
  }

  /** The visible text after a lock, when the trimmed text left once the
      marker is removed holds no sentinel: that text and the confirmation,
      with every `**` dropped. */
  lemma LockedTextTrimmed(text: string, t: string, left: string)
    requires Replace(text, "ALARM: " + t, "") == left
    requires !Contains(Strip(left), "PLAN_LOCKED:")
    ensures LockedText(text, t) == StripBold(Strip(left) + Confirmation(t))
  {
    ReplaceAbsent(Strip(left), "PLAN_LOCKED:", "");
    StripIdempotent(left);
  }

  /** The visible text after a lock, when what is left once the marker is
      removed has nothing to trim, no sentinel and no `*`: that text, then
      the confirmation. */
  lemma LockedTextAfterRemoval(text: string, t: string, left: string)
    requires IsClockText(t) && Replace(text, "ALARM: " + t, "") == left
    requires !Contains(left, "PLAN_LOCKED:") && Strip(left) == left && Lacks(left, '*')
    ensures LockedText(text, t) == left + Confirmation(t)
  {
    ReplaceAbsent(left, "PLAN_LOCKED:", "");
    ConfirmationStarFree(t);
    StripBoldAppend(left, Confirmation(t));
    StripBoldPrefix(left, "");
    assert left + "" == left;
    assert StripBold("") == "";
  }

  /** The same when the reply holds neither the one-space marker nor the
      sentinel: the reply itself, then the confirmation. */
  lemma LockedTextUntouched(text: string, t: string)
    requires IsClockText(t)
    requires !Contains(text, "ALARM: " + t) && !Contains(text, "PLAN_LOCKED:")
    requires Strip(text) == text && Lacks(text, '*')
    ensures LockedText(text, t) == text + Confirmation(t)
  {
    ReplaceAbsent(text, "ALARM: " + t, "");
    LockedTextAfterRemoval(text, t, text);
  }

  /** Only the marker written with exactly one space is removed: a reply
      whose marker has no space after `ALARM:` locks the time and still
      shows the marker, with the confirmation after it. */
  lemma UnspacedMarkerStaysVisible(text: string)
    requires Search(text).Some?
    requires var a := Search(text).value; TimeStart(text, a.at) == a.at + |Tag|
    requires !Contains(text, "ALARM: " + Search(text).value.time)
    requires !Contains(text, "PLAN_LOCKED:")
    requires Strip(text) == text && Lacks(text, '*')
    ensures var t := Search(text).value.time;
      && ScanReply(text) == Reply(text + Confirmation(t), Some(t))
      && Contains(ScanReply(text).visible, Tag + t)
  {
    var a := Search(text).value;
    var t := a.time;
    UnspacedMarkerInText(text);
    assert Contains(text, Tag) by { assert OccursAt(text, Tag, a.at); }
    LockedTextUntouched(text, t);
    OccursInLonger(text, Tag + t, a.at, Confirmation(t));
  }

  /** A marker with two or more whitespace characters after `ALARM:` is
      locked too, and it is not the one-space text the removal looks for:
      when no one-space marker for that time occurs elsewhere, the reply is
      shown unchanged with the confirmation after it, and the matched
      marker, its whitespace included, is still visible. */
  lemma WideMarkerStaysVisible(text: string)
    requires Search(text).Some?
    requires var a := Search(text).value; TimeStart(text, a.at) >= a.at + |Tag| + 2
    requires var a := Search(text).value;
      forall k: nat :: k != a.at ==> !OccursAt(text, "ALARM: " + a.time, k)
    requires !Contains(text, "PLAN_LOCKED:")
    requires Strip(text) == text && Lacks(text, '*')
    ensures var a := Search(text).value;
      var marker := text[a.at..TimeStart(text, a.at) + 5];
      && ScanReply(text) == Reply(text + Confirmation(a.time), Some(a.time))
      && Contains(ScanReply(text).visible, marker)
  {
    var a := Search(text).value;
    var t := a.time;
    var e := TimeStart(text, a.at);
    WideMarkerIsNotRemoved(text);
    assert !Contains(text, "ALARM: " + t);
    assert Contains(text, Tag) by { assert OccursAt(text, Tag, a.at); }
    LockedTextUntouched(text, t);
    assert OccursAt(text, text[a.at..e + 5], a.at);
    OccursInLonger(text, text[a.at..e + 5], a.at, Confirmation(t));
  }

  /** Where the whitespace after `ALARM:` is longer than one character, the
      one-space marker for the captured time does not start at the match. */
  lemma WideMarkerIsNotRemoved(text: string)
    requires Search(text).Some?
    requires var a := Search(text).value; TimeStart(text, a.at) >= a.at + |Tag| + 2
    ensures var a := Search(text).value; !OccursAt(text, "ALARM: " + a.time, a.at)
  {
    var a := Search(text).value;
    var w := "ALARM: " + a.time;
    assert IsSpace(text[a.at + 7]);
    assert w[7] == a.time[0] && IsDigit(w[7]);
    DiffersAt(text, w, a.at, 7);
  }

  /** Whatever the whitespace after `ALARM:`, unless it is exactly one
      space, the text the leftmost match covers (the tag, the whitespace and
      the time) is still in the visible reply: no occurrence of the
      one-space marker, of `PLAN_LOCKED:` or of `**` overlaps it, and it
      starts and ends with non-whitespace, so `strip()` keeps it. */
  lemma MatchedMarkerStaysVisible(text: string)
    requires Search(text).Some?
    requires var a := Search(text).value;
      text[a.at..TimeStart(text, a.at) + 5] != "ALARM: " + a.time
    ensures var a := Search(text).value;
      && ScanReply(text).locked == Some(a.time)
      && Contains(ScanReply(text).visible, text[a.at..TimeStart(text, a.at) + 5])
  {
    LockedReply(text);
    var p, e, t := MatchShape(text);
    MatchStaysInLockedText(text, p, e, t);
  }

  /** What the leftmost match is made of: the tag at `p`, a whitespace run
      up to `e`, where the captured time `t` starts. */
  lemma MatchShape(text: string) returns (p: nat, e: nat, t: string)
    requires Search(text).Some?
    ensures p == Search(text).value.at && e == TimeStart(text, p) && t == Search(text).value.time
    ensures OccursAt(text, Tag, p) && p + |Tag| <= e && ClockAt(text, e)
    ensures forall j :: p + |Tag| <= j < e ==> IsSpace(text[j])
    ensures t == text[e..e + 5]
  {
    p := Search(text).value.at;
    e := TimeStart(text, p);
    t := Search(text).value.time;
  }

  /** The text of a match (the tag at `p`, whitespace up to `e`, the time
      `t` at `e`) that is not the one-space marker is still in the locked
      text. */
  lemma MatchStaysInLockedText(text: string, p: nat, e: nat, t: string)
    requires OccursAt(text, Tag, p) && p + |Tag| <= e && ClockAt(text, e)
    requires forall j :: p + |Tag| <= j < e ==> IsSpace(text[j])
    requires t == text[e..e + 5] && text[p..e + 5] != "ALARM: " + t
    ensures Contains(LockedText(text, t), text[p..e + 5])
  {
    var k2 := MatchSurvivesMarkerRemoval(text, p, e, t);
    MatchSurvivesSentinelRemoval(Strip(Replace(text, "ALARM: " + t, "")), text[p..e + 5], k2, t);
    LockedTextSteps(text, t);
  }

  /** A reply in which the pattern matches is scanned into the locked text
      for the leftmost match's time. */
  lemma LockedReply(text: string)
    requires Search(text).Some?
    ensures var t := Search(text).value.time;
      ScanReply(text) == Reply(LockedText(text, t), Some(t))
  {
    assert OccursAt(text, Tag, Search(text).value.at);
  }

  /** The steps of `LockedText`, one after the other. */
  lemma LockedTextSteps(text: string, t: string)
    ensures LockedText(text, t)
      == StripBold(Strip(Replace(Strip(Replace(text, "ALARM: " + t, "")), "PLAN_LOCKED:", "")) + Confirmation(t))
  {
  }

  /** The first half of the cleanup, the one-space marker removed and the
      text trimmed, keeps the text of a match (the tag at `p`, whitespace up
      to `e`, the time `t` at `e`) that is not that marker. */
  lemma MatchSurvivesMarkerRemoval(text: string, p: nat, e: nat, t: string) returns (k: nat)
    requires OccursAt(text, Tag, p) && p + |Tag| <= e && ClockAt(text, e)
    requires forall j :: p + |Tag| <= j < e ==> IsSpace(text[j])
    requires t == text[e..e + 5] && text[p..e + 5] != "ALARM: " + t
    ensures var m := text[p..e + 5];
      && 2 <= |m| && m[0] == 'A' && m[1] == 'L' && Lacks(m, 'P') && Lacks(m, '*')
      && !IsSpace(m[|m| - 1])
      && OccursAt(Strip(Replace(text, "ALARM: " + t, "")), m, k)
  {
    var m := text[p..e + 5];
    MatchedTextChars(text, p, e);
    MarkerMissesMatch(text, p, e, t);
    ReplaceKeepsPiece(text, m, p, "ALARM: " + t, "");
    var x1 := Replace(text, "ALARM: " + t, "");
    var k1: nat :| k1 <= |x1| && OccursAt(x1, m, k1);
    StripKeepsPiece(x1, m, k1);
    var x2 := Strip(x1);
    k :| k <= |x2| && OccursAt(x2, m, k);
  }

  /** The second half of the cleanup, `PLAN_LOCKED:` removed, the text
      trimmed, the confirmation appended and `**` dropped, keeps a piece
      that starts `AL`, ends with non-whitespace and holds no `P` and no `*`. */
  lemma MatchSurvivesSentinelRemoval(x2: string, m: string, k2: nat, t: string)
    requires OccursAt(x2, m, k2) && 2 <= |m| && m[0] == 'A' && m[1] == 'L'
    requires !IsSpace(m[|m| - 1]) && Lacks(m, 'P') && Lacks(m, '*')
    ensures Contains(StripBold(Strip(Replace(x2, "PLAN_LOCKED:", "")) + Confirmation(t)), m)
  {
    SentinelMissesPiece(x2, m, k2);
    ReplaceKeepsPiece(x2, m, k2, "PLAN_LOCKED:", "");
    var x3 := Replace(x2, "PLAN_LOCKED:", "");
    var k3: nat :| k3 <= |x3| && OccursAt(x3, m, k3);
    StripKeepsPiece(x3, m, k3);
    var x4 := Strip(x3);
    var k4: nat :| k4 <= |x4| && OccursAt(x4, m, k4);
    OccursInLonger(x4, m, k4, Confirmation(t));
    StripBoldKeeps(x4 + Confirmation(t), m, k4);
  }

  /** The characters of the text a match covers (the tag at `p`, whitespace
      up to `e`, and a time at `e`): `A` only at the two places the tag has
      it, no `P`, no `*`, and a digit at the end. */
  lemma MatchedTextChars(text: string, p: nat, e: nat)
    requires OccursAt(text, Tag, p) && p + |Tag| <= e && ClockAt(text, e)
    requires forall k :: p + |Tag| <= k < e ==> IsSpace(text[k])
    ensures var m := text[p..e + 5];
      && 11 <= |m| && m[0] == 'A' && m[1] == 'L' && m[2] == 'A' && m[3] == 'R'
      && (forall j :: 0 <= j < |m| && j != 0 && j != 2 ==> m[j] != 'A')
      && Lacks(m, 'P') && Lacks(m, '*') && IsDigit(m[|m| - 1])
  {
    var m := text[p..e + 5];
    assert m[..6] == Tag by { assert text[p..p + 6] == Tag; }
    forall j | 0 <= j < |m|
      ensures (j != 0 && j != 2 ==> m[j] != 'A') && m[j] != 'P' && m[j] != '*'
    {
      if j < 6 {
        assert m[j] == Tag[j];
      } else if p + j < e {
        assert m[j] == text[p + j];
        SpaceIsNoMarkChar(m[j]);
      } else {
        assert m[j] == text[p + j];
      }
    }
  }

  /** A whitespace character is none of the characters the markers are
      told apart by. */
  lemma SpaceIsNoMarkChar(c: char)
    requires IsSpace(c)
    ensures c != 'A' && c != 'P' && c != '*'
  {
  }

  /** No occurrence of the one-space marker for `t` overlaps a match (the
      tag at `p`, whitespace up to `e`, the time `t` at `e`) whose text is
      not that marker. */
  lemma MarkerMissesMatch(text: string, p: nat, e: nat, t: string)
    requires OccursAt(text, Tag, p) && p + |Tag| <= e && ClockAt(text, e)
    requires forall k :: p + |Tag| <= k < e ==> IsSpace(text[k])
    requires t == text[e..e + 5] && text[p..e + 5] != "ALARM: " + t
    ensures forall k: nat :: k < e + 5 && p < k + 12 ==> !OccursAt(text, "ALARM: " + t, k)
  {
    var m := text[p..e + 5];
    var w := "ALARM: " + t;
    MatchedTextChars(text, p, e);
    assert w[1] == 'L' && w[2] == 'A' && w[3] == 'R';
    assert text[p] == m[0] && text[p + 1] == m[1];
    forall k: nat | k < e + 5 && p < k + 12 ensures !OccursAt(text, w, k) {
      if k < p {
        var j := p - k;
        if j == 2 {
          DiffersAt(text, w, k, 3);
        } else {
          assert w[j] != 'A' by { if 7 <= j { assert w[j] == t[j - 7]; } }
          DiffersAt(text, w, k, j);
        }
      } else if k == p {
        MarkerMissesAtMatch(text, p, e, t);
      } else {
        assert text[k] == m[k - p];
        if k - p == 2 {
          assert text[k + 1] == m[3];
          DiffersAt(text, w, k, 1);
        } else {
          DiffersAt(text, w, k, 0);
        }
      }
    }
  }

  /** The one-space marker does not start where such a match starts. */
  lemma MarkerMissesAtMatch(text: string, p: nat, e: nat, t: string)
    requires OccursAt(text, Tag, p) && p + |Tag| <= e && ClockAt(text, e)
    requires forall k :: p + |Tag| <= k < e ==> IsSpace(text[k])
    requires t == text[e..e + 5] && text[p..e + 5] != "ALARM: " + t
    ensures !OccursAt(text, "ALARM: " + t, p)
  {
    var w := "ALARM: " + t;
    if e == p + |Tag| {
      assert IsDigit(text[e]);
      DiffersAt(text, w, p, 6);
    } else if e == p + |Tag| + 1 {
      assert e + 5 == p + |w|;
    } else {
      assert IsSpace(text[p + 7]);
      assert w[7] == t[0] && IsDigit(t[0]);
      DiffersAt(text, w, p, 7);
    }
  }

  /** No `PLAN_LOCKED:` overlaps a piece that starts `AL` and holds no `P`. */
  lemma SentinelMissesPiece(s: string, m: string, p: nat)
    requires OccursAt(s, m, p) && 2 <= |m| && m[0] == 'A' && m[1] == 'L' && Lacks(m, 'P')
    ensures forall k: nat :: k < p + |m| && p < k + 12 ==> !OccursAt(s, "PLAN_LOCKED:", k)
  {
    var w := "PLAN_LOCKED:";
    assert s[p] == m[0] && s[p + 1] == m[1];
    forall k: nat | k < p + |m| && p < k + 12 ensures !OccursAt(s, w, k) {
      if k < p {
        if p - k == 2 {
          DiffersAt(s, w, k, 3);
        } else {
          DiffersAt(s, w, k, p - k);
        }
      } else {
        assert s[k] == m[k - p];
        DiffersAt(s, w, k, 0);
      }
    }
  }

  /** With no whitespace after the tag, the tag and the captured time sit
      side by side in the reply. */
  lemma UnspacedMarkerInText(text: string)
    requires Search(text).Some?
    requires var a := Search(text).value; TimeStart(text, a.at) == a.at + |Tag|
    ensures var a := Search(text).value; OccursAt(text, Tag + a.time, a.at)
  {
    var a := Search(text).value;
    assert OccursAt(text, a.time, a.at + |Tag|);
    OccursJoined(text, Tag, a.time, a.at);
  }

  /** The record written when a time is locked: it keeps the name and
      resolution, and sets plan `Locked`, phase `active` and the captured
      time (a matched time is never empty, so it always replaces the old
      one). */
  function LockedRecord(u: UserRecord, time: string): (r: UserRecord)
    ensures r.name == u.name && r.resolution == u.resolution
    ensures r.plan == Some("Locked") && r.phase == "active"
    ensures r.reminderTime == if time != "" then Some(time) else u.reminderTime
  {
    Merge(Some(u), u.name, u.resolution, Some("Locked"), "active", Some(time))
  }

  /** Every record in phase `active` has a reminder time shaped `DD:DD`. */
  ghost predicate ActiveHaveTimes(db: map<string, UserRecord>)
  {
    forall k :: k in db && db[k].phase == "active" ==>
      db[k].reminderTime.Some? && IsClockText(db[k].reminderTime.value)
  }

  /** Locking a time keeps every active record's time well formed. */
  lemma LockKeepsTimes(db: map<string, UserRecord>, key: string, u: UserRecord, time: string)
    requires ActiveHaveTimes(db) && IsClockText(time)
    ensures ActiveHaveTimes(db[key := LockedRecord(u, time)])
  {
  }

  /** The proactive path: the nudge prompt, and the generated text as it is. */
  function ProactiveReply(db: map<string, UserRecord>, id: ChatId, generate: Generator): (r: Result<string, CoachError>)
    ensures Key(id) !in db ==> r == Failure(UnknownUser)
    ensures Key(id) in db ==> match generate(NudgePrompt(db[Key(id)].resolution))
      case Success(text) => r == Success(text)
      case Failure(e) => r == Failure(GenerationFailed(e))
  {
    match Lookup(db, Key(id))
    case None => Failure(UnknownUser)
    case Some(u) =>
      match generate(Prompt(TemplateFor(true, u.phase), u.resolution, ""))
      case Failure(e) => Failure(GenerationFailed(e))
      case Success(text) => Success(text)
  }

  /** The reply path: an unknown user is an error; otherwise the planning
      prompt in phase `intake` and the advice prompt in any other phase, and
      the scan of the generated text. */
  function Respond(db: map<string, UserRecord>, id: ChatId, userInput: string, generate: Generator): (r: Result<Reply, CoachError>)
    ensures Key(id) !in db ==> r == Failure(UnknownUser)
    ensures Key(id) in db ==>
      var u := db[Key(id)];
      var prompt := if u.phase == "intake" then PlanningPrompt(u.resolution, userInput)
                    else AdvicePrompt(u.resolution, userInput);
      match generate(prompt)
      case Success(text) => r == Success(ScanReply(text))
      case Failure(e) => r == Failure(GenerationFailed(e))
  {
    match Lookup(db, Key(id))
    case None => Failure(UnknownUser)
    case Some(u) =>
      match generate(Prompt(TemplateFor(false, u.phase), u.resolution, userInput))
      case Failure(e) => Failure(GenerationFailed(e))
      case Success(text) => Success(ScanReply(text))
  }

  /** `coach_node`. On the proactive path nothing is written and the generated
      text is returned unchanged. Otherwise the response is the scanned text,
      and the store changes only when the scan locked a time, in which case
      exactly the user's entry becomes the locked record; a lock in either
      phase does this. A store whose active users all have times keeps that
      property. */
  method CoachNode(store: UserStore, id: ChatId, userInput: string, isProactive: bool, generate: Generator)
    returns (result: Result<string, CoachError>)
    requires store.Valid()
    modifies store
    ensures store.Valid()
    ensures store.order == old(store.order)
    ensures isProactive ==> result == ProactiveReply(old(store.db), id, generate) && store.db == old(store.db)
    ensures !isProactive ==>
      var r := Respond(old(store.db), id, userInput, generate);
      && result == (if r.Success? then Success(r.value.visible) else Failure(r.error))
      && store.db == (if r.Success? && r.value.locked.Some?
                      then old(store.db)[Key(id) := LockedRecord(old(store.db)[Key(id)], r.value.locked.value)]
                      else old(store.db))
    ensures ActiveHaveTimes(old(store.db)) ==> ActiveHaveTimes(store.db)
  {
    var user := store.GetUser(id);
    if user.None? {
      // indexing `None` raises before any prompt is built
      return Failure(UnknownUser);
    }
    var u := user.value;

    if isProactive {
      var response := generate(Prompt(TemplateFor(true, u.phase), u.resolution, userInput));
      if response.Failure? {
        return Failure(GenerationFailed(response.error));
      }
      return Success(response.value);
    }

    var response := generate(Prompt(TemplateFor(false, u.phase), u.resolution, userInput));
    if response.Failure? {
      assert Respond(old(store.db), id, userInput, generate) == Failure(GenerationFailed(response.error));
      return Failure(GenerationFailed(response.error));
    }
    var output := response.value;
    ghost var scan := ScanReply(output);
    assert Respond(old(store.db), id, userInput, generate) == Success(scan);

    if Contains(output, Tag) {
      var timeMatch := Search(output);
      if timeMatch.Some? {
        var finalTime := timeMatch.value.time;
        assert scan.locked == Some(finalTime);
        store.SaveUser(id, u.name, u.resolution, plan := Some("Locked"), phase := "active",
                       reminderTime := Some(finalTime));
        assert store.db == old(store.db)[Key(id) := LockedRecord(u, finalTime)];
        if ActiveHaveTimes(old(store.db)) {
          LockKeepsTimes(old(store.db), Key(id), u, finalTime);
        }
        output := Strip(Replace(output, "ALARM: " + finalTime, ""));
        output := Strip(Replace(output, "PLAN_LOCKED:", ""));
        output := output + Confirmation(finalTime);
      } else {
        assert scan.locked.None?;
      }
    } else {
      assert scan.locked.None?;
    }

    output := StripBold(output);
    assert output == scan.visible;
    return Success(output);
  }
}
