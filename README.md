# ResolveAI coach core in Dafny

ResolveAI is a chat bot that coaches a user towards a New Year's resolution.
Three parts of it are modelled and proved here:

- **The user store** (`app/storage.py`). This is the in-memory table
  `USER_DB`, keyed by `str(chat_id)`. Each record has five fields: name,
  resolution, plan, phase and reminder time. `save_user` merges a new record
  with the stored one: the plan and the reminder time are kept unless truthy
  new ones are given. `get_user` and `get_all_users` read the table. The
  model is the class `Storage.UserStore`. It holds the table as a `map` and
  the dictionary's insertion order as a `seq`, because the reminder tick
  visits users in that order.
- **The coach node** (`coach_node` in `app/brain.py`).
  - It picks one of three prompts: the proactive nudge, the intake planning
    prompt, or the active-phase advice prompt. The choice depends on the
    proactive flag and the phase stored for the user.
  - It calls the text generator with that prompt.
  - Outside the proactive path, it searches the reply with
    `ALARM:\s*(\d{2}:\d{2})`. On a match it saves the plan as `Locked`,
    moves the user to phase `active` and stores the captured time. It then
    removes `ALARM: <time>` and `PLAN_LOCKED:`, trims the text and appends a
    confirmation.
  - Finally it drops every `**`.

  The regular-expression search is a hand matcher, `Marker.Search`. It is
  proved to agree with the expression's meaning and to return the leftmost
  match. Python's `in`, `str.replace`, `str.strip` and `str(int)` are
  defined in `PyStr`, with the properties the coach relies on. The node
  itself is the method `Brain.CoachNode`. It is proved against the pure
  functions `Brain.ProactiveReply` and `Brain.Respond`, and
  `Brain.ScanReply` carries what the parsing promises.
- **The reminder tick** (`proactive_cycle` in `main.py`). It takes the
  table as it stands when the tick starts, and the current `HH:MM`. For
  every user in phase `active` whose stored time equals it, in insertion
  order, it invokes the coach on the proactive path and sends the non-empty
  response prefixed with `⚡ `. A failure for one user is logged and the tick
  moves on. `Tick.ProactiveCycle` is proved to produce exactly the attempts
  `AttemptsFor(db, DueKeys(order, db, Clock(hour, minute)))`. Lemmas state
  which users `DueKeys` selects, that none is selected twice, and that a
  user fires at one minute of the day at most.

Whitespace, for both `\s` in the pattern and `strip()`, is the set of
characters for which Python's `str.isspace()` holds (`PyStr.IsSpace`). It
covers the ASCII tab, line feed, vertical tab, form feed, carriage return,
the separators U+001C to U+001F, the space, the next-line character U+0085,
and the Unicode spaces and line and paragraph separators. A `str`
pattern's `\s` matches that same set.

The text generator is a parameter of type `string -> Result<string, string>`.
A `Failure` stands for the exception the client raises. The wall clock is
the parameter pair `hour`, `minute`.

`Scenarios` works through particular replies and records:

- a marker with a one-digit hour;
- a reply ending in a well-formed marker, whose time is locked and whose
  marker is hidden;
- the reply the planning prompt asks for, `PLAN_LOCKED:`, a body and a
  trailing marker, in which both the sentinel and the marker are hidden;
- a reply in which removing the marker brings it back;
- a marker written with a tab instead of the space, locked and still shown;
- a user reminded at 21:00.

### Where the code and the system's written description differ

The model follows the code in each case.

- **Two hour digits are required.** The description accepts a one-digit
  hour such as `ALARM: 9:00` and pads it to `09:00`. The pattern in the
  code requires two hour digits, so `ALARM: 9:00` locks nothing
  (`Scenarios.OneDigitHourIsNoLock`). Nothing is normalised.
- **Out-of-range times are stored.** The description promises that every
  active record's time matches `[0-2][0-9]:[0-5][0-9]`. The code accepts
  any `DD:DD`, e.g. `99:99`, and such a time never fires
  (`Tick.OutOfRangeTimeNeverMatches`). The model proves the `DD:DD` shape
  for active records (`Brain.LockKeepsTimes`, `Brain.CoachNode`).
- **The marker is not always hidden.** The description says the visible
  reply never shows the marker. The code removes only the exact text
  `ALARM: <time>`, with one space.
  - The marker the search finds (the leftmost match) is locked. When it is
    written other than with exactly one space, it stays visible in every
    reply: with no whitespace, with one tab, newline or other non-space
    whitespace character, or with several. No removal step can overlap
    it, and `strip()` keeps it (`Brain.MatchedMarkerStaysVisible`;
    `Scenarios.TabbedMarkerStaysVisible` works through
    `ALARM:<tab>HH:MM`).
  - Take a reply that is already trimmed and holds no `*`, no
    `PLAN_LOCKED:`, and no one-space `ALARM: <time>` anywhere else. If it
    has no whitespace, or two or more whitespace characters, after
    `ALARM:`, its visible text is exactly the reply plus the confirmation
    (`Brain.UnspacedMarkerStaysVisible`, `Brain.WideMarkerStaysVisible`).
    A later one-space marker for the same time would still be removed.
  - The removal itself can join text into a new marker
    (`Scenarios.MarkerCanReappear`).
- **`PLAN_LOCKED:` is removed everywhere.** Every occurrence is removed,
  not only a leading one. `**` is dropped after the confirmation has been
  appended.
- **A lock happens in any phase.** The scan runs in phase `active` as well
  as in `intake`, so a marker in an advice reply also writes the store.
- **The phase can go back.** Saving a user again with the default arguments
  puts an active user back into `intake` (`Storage.ResaveResetsPhase`), so
  the phase is not monotonic.
- **There is no fallback model and no retry.** A generation failure
  propagates out of the coach, and the tick catches it per user.

## Model

| member | source | states |
|---|---|---|
| PyStr.IsSpace | app/brain.py:59-70 | the whitespace `\s` and `strip()` both use, Python's `str.isspace()`: it holds for space, tab, line feed, carriage return and U+00A0, and never for a digit, a capital letter, `:` or `*` |
| PyStr.Contains | app/brain.py:56 | Python's `sub in s`: `sub` occurs at some index; a text contains only pieces no longer than itself |
| PyStr.Replace | app/brain.py:68-77 | removing a pattern (empty replacement) never lengthens the text |
| PyStr.ReplaceAbsent | app/brain.py:68-70 | `replace` leaves a text in which the pattern does not occur unchanged |
| PyStr.ReplaceKeepsPiece | app/brain.py:68-70 | a piece of the text that no occurrence of the pattern overlaps is still in the result |
| PyStr.ReplaceShortens | app/brain.py:68-70 | removing a pattern that occurs makes the text strictly shorter, so a removal changes every text holding the pattern |
| PyStr.ReplaceKeepsPrefix | app/brain.py:68 | `replace` copies through a prefix at none of whose positions the pattern starts |
| PyStr.ReplaceLacks | app/brain.py:77 | `replace` introduces no character that is in neither the text nor the replacement |
| PyStr.StripBold | app/brain.py:77 | dropping `**` never lengthens the text |
| PyStr.StripBoldRemovesAll | app/brain.py:76-77 | after `replace("**", "")` the text contains no `**` |
| PyStr.StripBoldIdempotent | app/brain.py:77 | dropping `**` a second time changes nothing |
| PyStr.StripBoldAppend | app/brain.py:72-77 | appending star-free text commutes with dropping `**`, so the confirmation survives the final cleanup |
| PyStr.StripBoldKeeps | app/brain.py:77 | a star-free piece of the reply is still in it after `**` is dropped |
| PyStr.Strip | app/brain.py:68-70 | `strip()` has no whitespace at either end; it is empty iff the input is all whitespace; it is the input with exactly its leading whitespace run and a trailing all-whitespace run cut off |
| PyStr.StripKeepsPiece | app/brain.py:68-70 | a piece of the text that starts and ends with non-whitespace is still in the stripped text |
| PyStr.StripIdempotent | app/brain.py:68-70 | stripping twice is stripping once |
| PyStr.NatToString | app/storage.py:15 | the decimal text of a natural number is non-empty and all digits, a single digit iff the number is below ten, with no leading zero when longer |
| PyStr.NatToStringRoundTrip | app/storage.py:15 | reading the decimal text back gives the number |
| PyStr.IntToString | app/storage.py:15 | `str(n)` starts with `-` iff `n` is negative; the rest is a non-empty run of digits with no leading zero whose value is `abs(n)` |
| PyStr.DigitChar | main.py:24 | a digit character that reads back as the given value |
| PyStr.IntToStringInjective | app/storage.py:15-20 | different integers have different `str()` texts |
| Marker.ClockAt | app/brain.py:59 | `\d{2}:\d{2}` matches at an index; such a match fits in the text and neither starts nor ends with whitespace |
| Marker.PatternMatches | app/brain.py:59 | the meaning of `ALARM:\s*(\d{2}:\d{2})` at an index: the tag, some run of whitespace, then a time; the reference the hand matcher is proved against; a match starts with the tag and fits the text |
| Marker.TimeStart | app/brain.py:59-61 | where the captured group starts for a tag at an index: the end of the whole whitespace run after the tag (the body is `SkipSpaces` from the end of the tag, whose contract states it) |
| Marker.MatchAt | app/brain.py:59 | the hand matcher's test at one index: the tag, all the whitespace after it, then a time; a success starts with the tag and fits the text |
| Marker.SkipSpaces | app/brain.py:59 | greedy `\s*`: everything skipped is whitespace and the next character is not |
| Marker.MatchConsumesWholeRun | app/brain.py:59 | any match of the pattern uses the whole whitespace run after `ALARM:`, because a digit is not whitespace |
| Marker.MatchAtIffPattern | app/brain.py:59 | the matcher succeeds at an index iff the regular expression matches there |
| Marker.SearchFrom | app/brain.py:59 | the first matching index at or after the start, or none at all |
| Marker.Search | app/brain.py:59-61 | the leftmost match; the captured group is the five characters after the whitespace and has the shape `DD:DD`; none iff nothing matches |
| Marker.SearchFromFirst | app/brain.py:59 | the scan from an index stops at the first index where the matcher succeeds |
| Marker.SearchFindsFirst | app/brain.py:59-61 | when the matcher succeeds at an index and at no earlier one, a match is reported and it starts at that index |
| Marker.SearchIsRegexSearch | app/brain.py:59-60 | `Search` finds a marker iff the regular expression matches somewhere, and reports the leftmost match |
| Marker.NoTagNoMatch | app/brain.py:56 | the `"ALARM:" in output` test before the search never hides a match |
| Storage.AppendKeepsDistinct | app/storage.py:20 | adding a key that is not yet listed keeps every key listed once |
| Storage.Key | app/storage.py:15 | the key of an integer id is the decimal text of no other integer, so two ids never share a key (the body is `str(chat_id)`, `IntToString`) |
| Storage.Truthy | app/storage.py:18 | Python truthiness of an optional string: `None` and the empty string are false, and a true value is a non-empty string |
| Storage.OrElse | app/storage.py:18-23 | `v or fallback` (and `v if v else fallback`): one of the two; truthy iff either is; `v` itself when `v` is truthy |
| Storage.Lookup | app/storage.py:15 | `dict.get(key)`, as at app/storage.py:15 and 35: present iff the key is in the table, and then the stored record |
| Storage.Merge | app/storage.py:15-26 | a save writes name, resolution and phase; it writes a truthy new plan or time; otherwise it keeps the old one, and writes `None` when nothing was stored |
| Storage.ResaveResetsPhase | app/storage.py:12-26 | re-saving an active user with the defaults sets phase `intake` and keeps plan and time |
| Storage.MergeIdempotent | app/storage.py:12-26 | saving the same values twice gives the record one save gives |
| Storage.SaveLeavesOthers | app/storage.py:15-20 | saving under one integer chat id leaves every other id's record unchanged |
| Storage.UserStore.constructor | app/storage.py:9-10 | an empty table when no file exists |
| Storage.UserStore.GetUser | app/storage.py:34-35 | the record under `str(chat_id)` if there is one, else `None` |
| Storage.UserStore.GetAllUsers | app/storage.py:37-38 | its keys are exactly the keys in iteration order (the body returns the table itself) |
| Storage.UserStore.SaveUser | app/storage.py:12-26 | the entry under `str(chat_id)` becomes the merged record and no other entry changes; a new key goes to the end of the iteration order; every key is listed once |
| Brain.TemplateFor | app/brain.py:26-50 | nudge iff proactive; planning iff not proactive and the stored phase is exactly `intake`; advice otherwise |
| Brain.NudgePrompt | app/brain.py:27-30 | the proactive prompt holds the user's resolution |
| Brain.PlanningPrompt | app/brain.py:36-45 | the planning prompt holds the resolution and the user's input, and asks for the `ALARM: HH:MM` marker and the `PLAN_LOCKED:` sentinel |
| Brain.RulesAskForMarker | app/brain.py:41-43 | the planning rules, after any head, hold both `ALARM: HH:MM` and `PLAN_LOCKED:` |
| Brain.AdvicePrompt | app/brain.py:48-50 | the advice prompt holds the resolution and the user's input |
| Brain.Prompt | app/brain.py:26-50 | every prompt holds the resolution; the planning and advice prompts also hold the user's input |
| Brain.ConfirmationStarFree | app/brain.py:72 | the confirmation has no `*`, so the final cleanup cannot change it |
| Brain.Confirmation | app/brain.py:72 | the text appended after a lock: 40 characters plus the time, with the U+23F0 alarm clock at index 3, the time just before the closing `)` at its end |
| Brain.LockedText | app/brain.py:68-77 | after a lock the visible text has no `**`, and for a `DD:DD` time it ends with the confirmation |
| Brain.ScanReply | app/brain.py:55-77 | a time is locked iff the pattern matches, and it is the leftmost match's `DD:DD`; the visible text has no `**`; after a lock it ends with the confirmation; otherwise it is the reply with `**` dropped |
| Brain.LockedTextTrimmed | app/brain.py:68-77 | when the trimmed text left after removing the marker holds no sentinel, the visible text is that trimmed text plus the confirmation, with `**` dropped |
| Brain.LockedTextAfterRemoval | app/brain.py:68-77 | when the text left after removing the marker has no sentinel, nothing to trim and no `*`, the visible text is that text plus the confirmation |
| Brain.LockedTextUntouched | app/brain.py:68-77 | a reply holding neither the one-space marker nor the sentinel, already trimmed and star-free, is shown as it is plus the confirmation |
| Brain.UnspacedMarkerInText | app/brain.py:59-68 | when the reported time starts right after `ALARM:`, the reply holds `ALARM:` followed directly by that time, not the one-space marker the removal looks for |
| Brain.UnmatchedTagStaysVisible | app/brain.py:56-77 | an `ALARM:` with no well-formed time locks nothing and stays visible |
| Brain.MatchedMarkerStaysVisible | app/brain.py:56-77 | for every reply whose leftmost match is not written `ALARM: HH:MM` with one space (no whitespace, one non-space whitespace character, or several), the time is locked and the matched text, tag, whitespace and time, is still in the visible reply |
| Brain.MatchStaysInLockedText | app/brain.py:68-77 | such a matched text survives the whole cleanup: marker removal, trim, sentinel removal, trim, confirmation, `**` removal |
| Brain.MatchSurvivesMarkerRemoval | app/brain.py:68 | removing the one-space marker and trimming keeps such a matched text |
| Brain.MatchSurvivesSentinelRemoval | app/brain.py:70-77 | removing `PLAN_LOCKED:`, trimming, appending the confirmation and dropping `**` keep any piece that starts `AL`, ends with non-whitespace and holds no `P` and no `*` |
| Brain.MarkerMissesMatch | app/brain.py:59-68 | no occurrence of the one-space marker overlaps such a matched text |
| Brain.SentinelMissesPiece | app/brain.py:70 | no occurrence of `PLAN_LOCKED:` overlaps a piece that starts `AL` and holds no `P` |
| Brain.UnspacedMarkerStaysVisible | app/brain.py:59-72 | for a reply that is already trimmed and holds no `*`, no `PLAN_LOCKED:` and no one-space marker for the time: a marker with no space after `ALARM:` is locked, and the reply is shown exactly as it is with the confirmation after it |
| Brain.WideMarkerIsNotRemoved | app/brain.py:59-68 | when two or more whitespace characters follow `ALARM:`, the one-space marker for the captured time does not start at the match |
| Brain.WideMarkerStaysVisible | app/brain.py:59-72 | for a reply that is already trimmed and holds no `*`, no `PLAN_LOCKED:` and no one-space marker for the time elsewhere: a marker with two or more whitespace characters after `ALARM:` is locked, and the reply is shown exactly as it is with the confirmation after it |
| Brain.LockedRecord | app/brain.py:64-65 | a lock keeps the name and resolution and writes plan `Locked` and phase `active`; it writes the captured time, or keeps the stored one if the time is empty |
| Brain.LockKeepsTimes | app/brain.py:59-65 | a lock keeps every active record's time present and shaped `DD:DD` |
| Brain.ProactiveReply | app/brain.py:23-32 | unknown user is an error; otherwise the nudge prompt's generated text is returned unchanged, and the user's input plays no part |
| Brain.Respond | app/brain.py:23-77 | unknown user is an error; otherwise the planning prompt for a stored phase `intake` and the advice prompt otherwise is generated from, a generation failure is passed on, and a generated text is scanned by `ScanReply` |
| Brain.CoachNode | app/brain.py:22-79 | the proactive path returns `ProactiveReply` and writes nothing; otherwise the result is `Respond`'s visible text, and the store changes only when a time is locked, in which case exactly that user's entry becomes the locked record; key order is kept and active users keep well-formed times |
| Tick.Clock | main.py:24 | `%H:%M` is five characters `DD:DD` with hour tens `0`-`2` and minute tens `0`-`5` |
| Tick.ClockRoundTrip | main.py:24 | reading the clock text back gives the hour and minute |
| Tick.ClockInjective | main.py:24 | different minutes of the day have different clock texts |
| Tick.OutOfRangeTimeNeverMatches | main.py:33-37 | a stored time such as `24:00` or `07:60` equals no clock text, so it never fires |
| Tick.IsDue | main.py:29-37 | a user not in phase `active`, or with no stored time, is never due; a due user's stored time is the clock text |
| Tick.DueKeys | main.py:27-37 | the selected keys are no more than the scanned ones |
| Tick.DueKeysMembers | main.py:27-37 | a key is selected iff it is scanned, stored, in phase `active`, and its time equals the clock text |
| Tick.DueKeysStep | main.py:27-37 | loop-step helper: unfolds `DueKeys` for one more scanned key (that key is appended exactly when it is due) |
| Tick.DueKeysEmptyStore | main.py:20-21 | an empty table selects nobody |
| Tick.DueKeysDistinct | main.py:27 | no user is invoked twice in one tick |
| Tick.DueAtOneMinute | main.py:32-37 | a user fires at one minute of the day at most |
| Tick.AttemptFor | main.py:42-53 | a message goes out iff the coach returns a non-empty text, and it is that text after `⚡ `; a failure is recorded for that user only |
| Tick.AttemptsFor | main.py:27-53 | one attempt per due key |
| Tick.AttemptsForEach | main.py:27-53 | the attempt at each position is the one for the key at that position, so the attempts follow the key order |
| Tick.AttemptsForSnoc | main.py:27-53 | loop-step helper: unfolds `AttemptsFor` for one more key (its attempt goes at the end) |
| Tick.CycleStep | main.py:27-53 | loop-step helper for `ProactiveCycle`: combines the two unfoldings above for one more visited key |
| Tick.ProactiveCycle | main.py:19-53 | the attempts are exactly those for the due users in insertion order, computed from the table and the clock text; the store is not changed |
| Scenarios.OneDigitHourIsNoLock | app/brain.py:59-60 | `ALARM: 9:00` is not matched, so nothing is locked |
| Scenarios.DoubledMarkerSearch | app/brain.py:59-61 | in `ALARM: ALARM: HH:MMHH:MM` the match is the inner marker |
| Scenarios.DoubledInnerMatch | app/brain.py:59 | the inner marker matches, its time right after the space |
| Scenarios.DoubledOuterNoMatch | app/brain.py:59 | no match starts in the outer `ALARM: `, whose whitespace is followed by a letter |
| Scenarios.DoubledMarkerRemoval | app/brain.py:68 | removing that marker leaves `ALARM: HH:MM` |
| Scenarios.DoubledMarkerText | app/brain.py:68-77 | the visible text of `ALARM: ALARM: HH:MMHH:MM` is `ALARM: HH:MM` plus the confirmation |
| Scenarios.MarkerCanReappear | app/brain.py:56-77 | such a reply locks the time and still shows `ALARM: HH:MM` |
| Scenarios.TrailingMarkerSearch | app/brain.py:59-61 | a well-formed marker after a body with no capital `A` is found right after the body |
| Scenarios.TrailingMarkerMatches | app/brain.py:59 | a marker after any body is a match, its time right after the space |
| Scenarios.NoMatchInBody | app/brain.py:59 | no match starts inside a body with no capital `A` |
| Scenarios.TrailingMarkerRemoval | app/brain.py:68 | removing the marker from such a reply leaves the body |
| Scenarios.TrailingMarkerText | app/brain.py:68-77 | the visible text is the trimmed body plus the confirmation, with `**` dropped |
| Scenarios.ConfirmedTextShowsTime | app/brain.py:72-77 | that visible text holds the time and no `ALARM:` |
| Scenarios.TrailingMarkerIsConsumed | app/brain.py:56-77 | a reply made of a body with no capital `A` followed by `ALARM: HH:MM` locks that time, shows the time and hides the marker (a body holding an `A` can place an earlier match or rebuild a marker, see `MarkerCanReappear`) |
| Scenarios.PlanReplyIsConsumed | app/brain.py:56-77 | a reply `PLAN_LOCKED:` + body + `ALARM: HH:MM`, the body holding no capital `A`, locks that time; the visible text holds neither `PLAN_LOCKED:` nor `ALARM:` and does hold the time |
| Scenarios.SentinelHoldsNoMarker | app/brain.py:59 | no text starting `AL` (the tag, the marker) starts inside the sentinel or a body with no capital `A` |
| Scenarios.PlanReplySearch | app/brain.py:59-61 | in that reply the leftmost match is the trailing marker |
| Scenarios.StripKeepsSentinel | app/brain.py:68 | `strip()` keeps the leading `PLAN_LOCKED:` and cuts only the end of the body |
| Scenarios.PlanReplyText | app/brain.py:68-77 | in that reply the marker removal leaves the sentinel and body; the sentinel removal after the trim leaves a text with no capital `A`; the visible text is its trim plus the confirmation, with `**` dropped |
| Scenarios.TabbedMarkerStaysVisible | app/brain.py:56-77 | `ALARM:<tab>HH:MM` locks the time, and the visible text still holds the whole marker |
| Scenarios.TabbedMarkerSearch | app/brain.py:59-61 | in that reply the match is at the start and its time follows the tab |
| Scenarios.NineInTheEvening | main.py:24-37 | a user locked at `21:00` is due at 21:00 and not at 21:01 |

## Left out

- The text-generation client is a parameter (`Generator`). The model calls
  it once per prompt, and the call is assumed deterministic. A response
  whose `text` is `None` is not modelled: the generator returns a string or
  an error. The model name and the model discovery in
  `find_working_model.py` are not part of this model.
- Tracing (`@track`, the Opik client) and the one-node LangGraph workflow
  that wraps `coach_node` are plumbing. `BRAIN_ENGINE.invoke` is modelled
  as a direct call.
- The JSON file behind `USER_DB` is left out: loading it at import and
  dumping it on every save are file I/O, and so are the debug prints. The
  constructor builds the empty table. Any store satisfying `Valid()` stands
  for a table loaded from a file. Hand-edited records with missing fields
  are not modelled.
- Storage.UserStore.SaveUser: a failed file write after the table update is
  not modelled. Such a write raises inside the coach's `try` and is logged.
  The model has no such error path.
- The coach's `try`/`except` around parsing. None of the modelled steps
  raises, so no exception path is modelled for it.
- `datetime.now()` is replaced by the `hour` and `minute` parameters.
- The chat client: `send_message` and its failures. A sent message is
  recorded as a `Sent` attempt, and delivery is not modelled.
- `app/bot.py` (conversation handlers) is not part of this model. Neither
  are the FastAPI startup, the APScheduler job and the network settings in
  `main.py`.
- Marker.ClockAt: `\d` is modelled as the ASCII digits only. Python's `\d`
  also accepts other Unicode decimal digits.
- Tick.ProactiveCycle: reads one snapshot of the table. The source
  iterates the live `USER_DB` across `await send_message`, so a handler
  running during the await can change records not yet visited, and one
  that adds a user raises `RuntimeError` outside the `try`, which ends the
  tick. Concurrent handlers are not modelled.
- Brain.CoachNode: the caller's `state["phase"]` is not an input, because
  the node never reads it; the stored phase decides. On the proactive path
  the user's input is accepted and ignored.
