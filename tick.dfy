/**
 * The reminder tick (`proactive_cycle`): every user whose phase is `active`
 * and whose stored reminder time equals the current `HH:MM` gets a proactive
 * nudge; a failure for one user is kept to that user.
 */
module Tick {
  import opened Wrappers
  import opened PyStr
  import opened Marker
  import opened Storage
  import opened Brain

  /** `strftime("%H:%M")` of the current time: hour and minute, each as two
      digits with a leading zero. */
  function Clock(hour: nat, minute: nat): (now: string)
    requires hour < 24 && minute < 60
    ensures IsClockText(now)
    ensures '0' <= now[0] <= '2' && '0' <= now[3] <= '5'
  {
    [DigitChar(hour / 10), DigitChar(hour % 10), ':', DigitChar(minute / 10), DigitChar(minute % 10)]
  }

  /** The hour and minute a `DD:DD` text spells. */
  function ClockValue(t: string): (nat, nat)
    requires IsClockText(t)
  {
    (10 * DigitValue(t[0]) + DigitValue(t[1]), 10 * DigitValue(t[3]) + DigitValue(t[4]))
  }

  /** Reading the clock text back gives the hour and minute it was made from. */
  lemma ClockRoundTrip(hour: nat, minute: nat)
    requires hour < 24 && minute < 60
    ensures ClockValue(Clock(hour, minute)) == (hour, minute)
  {
  }

  /** Two different minutes of the day have different clock texts. */
  lemma ClockInjective(h1: nat, m1: nat, h2: nat, m2: nat)
    requires h1 < 24 && m1 < 60 && h2 < 24 && m2 < 60
    requires Clock(h1, m1) == Clock(h2, m2)
    ensures h1 == h2 && m1 == m2
  {
    ClockRoundTrip(h1, m1);
    ClockRoundTrip(h2, m2);
  }

  /** A stored time such as `24:00` or `07:60` passes the marker pattern but
      matches no minute of the day. */
  lemma OutOfRangeTimeNeverMatches(t: string, hour: nat, minute: nat)
    requires IsClockText(t) && (ClockValue(t).0 >= 24 || ClockValue(t).1 >= 60)
    requires hour < 24 && minute < 60
    ensures Clock(hour, minute) != t
  {
    ClockRoundTrip(hour, minute);
  }

  /** The tick's filter for one stored record: a user outside phase
      `active` is skipped, and a missing time never equals the clock text. */
  predicate IsDue(u: UserRecord, now: string)
    ensures u.phase != "active" ==> !IsDue(u, now)
    ensures u.reminderTime.None? ==> !IsDue(u, now)
    ensures IsDue(u, now) ==> u.reminderTime.value == now
  {
    u.phase == "active" && u.reminderTime == Some(now)
  }

  /** The keys the tick invokes the coach for, in iteration order. */
  function DueKeys(keys: seq<string>, db: map<string, UserRecord>, now: string): (due: seq<string>)
    ensures |due| <= |keys|
  {
    if keys == [] then []
    else
      var last := keys[|keys| - 1];
      DueKeys(keys[..|keys| - 1], db, now) + (if last in db && IsDue(db[last], now) then [last] else [])
  }

  /** A key is selected exactly when it is among the scanned keys, is stored,
      is in phase `active` and has the current time as its reminder time. */
  lemma {:induction false} DueKeysMembers(keys: seq<string>, db: map<string, UserRecord>, now: string, k: string)
    ensures k in DueKeys(keys, db, now) <==> k in keys && k in db && IsDue(db[k], now)
  {
    if keys != [] {
      var init := keys[..|keys| - 1];
      DueKeysMembers(init, db, now, k);
      assert keys == init + [keys[|keys| - 1]];
    }
  }

  /** Extending the scanned keys by one appends that key when it is due. */
  lemma DueKeysStep(keys: seq<string>, i: nat, db: map<string, UserRecord>, now: string)
    requires i < |keys|
    ensures DueKeys(keys[..i + 1], db, now)
         == DueKeys(keys[..i], db, now) + (if keys[i] in db && IsDue(db[keys[i]], now) then [keys[i]] else [])
  {
    assert keys[..i + 1][..i] == keys[..i];
  }

  /** An empty store selects nobody, whatever the keys scanned. */
  lemma {:induction false} DueKeysEmptyStore(keys: seq<string>, now: string)
    ensures DueKeys(keys, map[], now) == []
  {
    if keys != [] {
      DueKeysEmptyStore(keys[..|keys| - 1], now);
    }
  }

  /** Each stored user is invoked at most once per tick. */
  lemma {:induction false} DueKeysDistinct(keys: seq<string>, db: map<string, UserRecord>, now: string)
    requires Distinct(keys)
    ensures Distinct(DueKeys(keys, db, now))
  {
    if keys != [] {
      var init, last := keys[..|keys| - 1], keys[|keys| - 1];
      var due := DueKeys(init, db, now);
      DueKeysDistinct(init, db, now);
      DueKeysMembers(init, db, now, last);
      assert last !in init && last !in due;
      if last in db && IsDue(db[last], now) {
        var grown := due + [last];
        assert grown[..|grown| - 1] == due && grown[|grown| - 1] == last;
        assert DueKeys(keys, db, now) == grown;
      } else {
        assert DueKeys(keys, db, now) == due;
      }
    }
  }

  /** A user fires at one minute of the day at most. */
  lemma DueAtOneMinute(u: UserRecord, h1: nat, m1: nat, h2: nat, m2: nat)
    requires h1 < 24 && m1 < 60 && h2 < 24 && m2 < 60
    requires IsDue(u, Clock(h1, m1)) && IsDue(u, Clock(h2, m2))
    ensures h1 == h2 && m1 == m2
  {
    ClockInjective(h1, m1, h2, m2);
  }

  /** What the tick does for one due user. */
  datatype Attempt =
    | Sent(chatId: string, text: string)      // the nudge handed to the chat client
    | Quiet(chatId: string)                   // an empty response: nothing sent
    | Failed(chatId: string, error: CoachError)  // raised, logged, and skipped

  /** The proactive invocation for one key; a message goes out only for a
      non-empty response, prefixed with the lightning sign and a space. */
  function AttemptFor(db: map<string, UserRecord>, key: string, generate: Generator): (a: Attempt)
    ensures a.chatId == key
    ensures a.Sent? <==> ProactiveReply(db, Text(key), generate).Success? && ProactiveReply(db, Text(key), generate).value != ""
    ensures a.Sent? ==> a.text == "\U{26A1} " + ProactiveReply(db, Text(key), generate).value
    ensures a.Failed? <==> ProactiveReply(db, Text(key), generate).Failure?
  {
    match ProactiveReply(db, Text(key), generate)
    case Failure(e) => Failed(key, e)
    case Success(response) =>
      if response != "" then Sent(key, "\U{26A1} " + response) else Quiet(key)
  }

  /** The attempts for a run of keys, in order. */
  function AttemptsFor(db: map<string, UserRecord>, keys: seq<string>, generate: Generator): (r: seq<Attempt>)
    ensures |r| == |keys|
  {
    if keys == [] then [] else AttemptsFor(db, keys[..|keys| - 1], generate) + [AttemptFor(db, keys[|keys| - 1], generate)]
  }

  /** The attempt at each position is the one for the key at that position. */
  lemma {:induction false} AttemptsForEach(db: map<string, UserRecord>, keys: seq<string>, generate: Generator, i: nat)
    requires i < |keys|
    ensures AttemptsFor(db, keys, generate)[i] == AttemptFor(db, keys[i], generate)
  {
    var init := keys[..|keys| - 1];
    if i < |init| {
      AttemptsForEach(db, init, generate, i);
    }
  }

  /** One more key adds its attempt at the end. */
  lemma AttemptsForSnoc(db: map<string, UserRecord>, keys: seq<string>, k: string, generate: Generator)
    ensures AttemptsFor(db, keys + [k], generate) == AttemptsFor(db, keys, generate) + [AttemptFor(db, k, generate)]
  {
    assert (keys + [k])[..|keys|] == keys;
  }

  /** Scanning one more key adds that key's attempt exactly when it is due. */
  lemma CycleStep(keys: seq<string>, i: nat, db: map<string, UserRecord>, now: string, generate: Generator)
    requires i < |keys|
    ensures AttemptsFor(db, DueKeys(keys[..i + 1], db, now), generate)
         == AttemptsFor(db, DueKeys(keys[..i], db, now), generate)
            + (if keys[i] in db && IsDue(db[keys[i]], now) then [AttemptFor(db, keys[i], generate)] else [])
  {
    DueKeysStep(keys, i, db, now);
    var before := DueKeys(keys[..i], db, now);
    if keys[i] in db && IsDue(db[keys[i]], now) {
      AttemptsForSnoc(db, before, keys[i], generate);
    } else {
      assert before + [] == before;
    }
  }

  /** One tick at the given hour and minute: the users are visited in
      insertion order, every due user is invoked on the proactive path, and
      the attempts come out in that order. The table is read as it stands
      when the tick starts, and the tick does not change it. */
  method ProactiveCycle(store: UserStore, hour: nat, minute: nat, generate: Generator)
    returns (attempts: seq<Attempt>)
    requires store.Listed()
    requires hour < 24 && minute < 60
    ensures attempts == AttemptsFor(store.db, DueKeys(store.order, store.db, Clock(hour, minute)), generate)
  {
    var users := store.GetAllUsers();
    attempts := [];
    if users == map[] {
      DueKeysEmptyStore(store.order, Clock(hour, minute));
      return;
    }

    var nowStr := Clock(hour, minute);
    var keys := store.order;
    assert forall k :: k in keys ==> k in users;
    for i := 0 to |keys|
      invariant attempts == AttemptsFor(users, DueKeys(keys[..i], users, nowStr), generate)
      invariant forall k :: k in keys ==> k in users
    {
      var chatId := keys[i];
      CycleStep(keys, i, users, nowStr, generate);
      var data := users[chatId];
      if data.phase != "active" {
        continue;
      }
      var userTime := data.reminderTime;
      if userTime != Some(nowStr) {
        continue;
      }
      var attempt := AttemptFor(users, chatId, generate);
      attempts := attempts + [attempt];
    }
    assert keys[..|keys|] == keys;
  }
}
