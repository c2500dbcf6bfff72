/**
 * The user store: the table `USER_DB` from the string form of a chat id to a
 * five-field record, with merge-on-save and lookups.
 */
module Storage {
  import opened Wrappers
  import opened PyStr

  /** A chat id as callers pass it: an integer from the chat client, or a key
      of the table itself when the reminder tick hands one back. */
  datatype ChatId = Num(n: int) | Text(s: string)

  /** `str(chat_id)`, the table key. The key of an integer chat id is the
      text of no other integer. */
  function Key(id: ChatId): (key: string)
    ensures id.Num? ==> forall m: int :: IntToString(m) == key ==> m == id.n
  {
    assert id.Num? ==> forall m: int :: IntToString(m) == IntToString(id.n) ==> m == id.n by {
      if id.Num? {
        forall m: int | IntToString(m) == IntToString(id.n) ensures m == id.n {
          IntToStringInjective(m, id.n);
        }
      }
    }
    match id
    case Num(n) => IntToString(n)
    case Text(s) => s
  }

  /** A stored user. `None` stands for JSON `null`. */
  datatype UserRecord = UserRecord(
    name: string,
    resolution: string,
    plan: Option<string>,
    phase: string,
    reminderTime: Option<string>)

  /** Python truthiness of an optional string: present and not empty. */
  predicate Truthy(v: Option<string>)
    ensures v == None || v == Some("") ==> !Truthy(v)
    ensures Truthy(v) ==> v.Some? && 0 < |v.value|
  {
    v.Some? && v.value != ""
  }

  /** `v or fallback`, equally `v if v else fallback`. */
  function OrElse(v: Option<string>, fallback: Option<string>): (r: Option<string>)
    ensures r == v || r == fallback
    ensures Truthy(r) <==> Truthy(v) || Truthy(fallback)
    ensures Truthy(v) ==> r == v
  {
    if Truthy(v) then v else fallback
  }

  /** The record `save_user` writes, given what is stored under the key. It
      has the given name, resolution and phase; it keeps the old plan and
      reminder time unless truthy new ones are given, and falls back to
      `None` when nothing was stored. */
  function Merge(current: Option<UserRecord>, name: string, resolution: string,
                 plan: Option<string>, phase: string, reminderTime: Option<string>): (r: UserRecord)
    ensures r.name == name && r.resolution == resolution && r.phase == phase
    ensures Truthy(plan) ==> r.plan == plan
    ensures Truthy(reminderTime) ==> r.reminderTime == reminderTime
    ensures !Truthy(plan) && current.Some? ==> r.plan == current.value.plan
    ensures !Truthy(reminderTime) && current.Some? ==> r.reminderTime == current.value.reminderTime
    ensures !Truthy(plan) && current.None? ==> r.plan == None
    ensures !Truthy(reminderTime) && current.None? ==> r.reminderTime == None
  {
    UserRecord(
      name,
      resolution,
      OrElse(plan, if current.Some? then current.value.plan else None),
      phase,
      OrElse(reminderTime, if current.Some? then current.value.reminderTime else None))
  }

  /** `dict.get(key)`. */
  function Lookup(db: map<string, UserRecord>, key: string): (r: Option<UserRecord>)
    ensures r.Some? <==> key in db
    ensures r.Some? ==> r.value == db[key]
  {
    if key in db then Some(db[key]) else None
  }

  /** No key appears twice. */
  predicate Distinct(keys: seq<string>)
  {
    keys == [] || (keys[|keys| - 1] !in keys[..|keys| - 1] && Distinct(keys[..|keys| - 1]))
  }

  /** A key not yet listed can be appended without repeating a key. */
  lemma AppendKeepsDistinct(keys: seq<string>, key: string)
    requires Distinct(keys) && key !in keys
    ensures Distinct(keys + [key])
  {
    assert (keys + [key])[..|keys|] == keys;
  }

  /** Re-saving an active user with the default phase puts it back into
      intake, while its plan and reminder time stay. */
  lemma ResaveResetsPhase(stored: UserRecord, name: string, resolution: string)
    requires stored.phase == "active"
    ensures var r := Merge(Some(stored), name, resolution, None, "intake", None);
      && r.phase == "intake"
      && r.plan == stored.plan && r.reminderTime == stored.reminderTime
  {
  }

  /** Saving the same values twice leaves the same record as saving once. */
  lemma MergeIdempotent(current: Option<UserRecord>, name: string, resolution: string,
                        plan: Option<string>, phase: string, reminderTime: Option<string>)
    ensures var r := Merge(current, name, resolution, plan, phase, reminderTime);
      Merge(Some(r), name, resolution, plan, phase, reminderTime) == r
  {
  }

  /** Two different integer chat ids never share a key, so saving one user
      leaves every other user's record where it was. */
  lemma SaveLeavesOthers(db: map<string, UserRecord>, a: int, b: int, r: UserRecord)
    requires a != b
    ensures Lookup(db[Key(Num(a)) := r], Key(Num(b))) == Lookup(db, Key(Num(b)))
  {
    if IntToString(a) == IntToString(b) {
      IntToStringInjective(a, b);
    }
  }

  /** The in-memory `USER_DB`: the table, and the order in which its keys were
      first inserted (the order in which Python iterates over it). */
  class UserStore {
    var db: map<string, UserRecord>
    var order: seq<string>

    /** `order` lists exactly the keys of the table. */
    ghost predicate Listed()
      reads this
    {
      forall k :: k in db <==> k in order
    }

    /** `order` lists every key of the table exactly once. */
    ghost predicate Valid()
      reads this
    {
      Listed() && Distinct(order)
    }

    /** An empty table, as when no file exists yet. */
    constructor ()
      ensures Valid() && db == map[] && order == []
    {
      db := map[];
      order := [];
    }

    /** `get_user(chat_id)`: the record under `str(chat_id)`, or `None`. */
    function GetUser(id: ChatId): (r: Option<UserRecord>)
      reads this
      ensures r.Some? <==> Key(id) in db
      ensures r.Some? ==> r.value == db[Key(id)]
    {
      Lookup(db, Key(id))
    }

    /** `get_all_users()`: the whole table, whose keys are exactly the keys
        in iteration order. */
    function GetAllUsers(): (users: map<string, UserRecord>)
      reads this
      requires Listed()
      ensures forall k :: k in users <==> k in order
    {
      db
    }

    /** `save_user(chat_id, name, resolution, plan=None, phase="intake",
        reminder_time=None)`: the entry under `str(chat_id)` becomes the
        merged record; a new key goes to the end of the iteration order; no
        other entry changes. */
    method SaveUser(id: ChatId, name: string, resolution: string,
                    plan: Option<string> := None, phase: string := "intake",
                    reminderTime: Option<string> := None)
      requires Valid()
      modifies this
      ensures Valid()
      ensures db == old(db)[Key(id) := Merge(old(GetUser(id)), name, resolution, plan, phase, reminderTime)]
      ensures order == if Key(id) in old(db) then old(order) else old(order) + [Key(id)]
    {
      var key := Key(id);
      var current := Lookup(db, key);
      assert current == GetUser(id);
      var finalTime := if Truthy(reminderTime) then reminderTime
                       else if current.Some? then current.value.reminderTime else None;
      var record := UserRecord(
        name, resolution,
        if Truthy(plan) then plan else if current.Some? then current.value.plan else None,
        phase,
        finalTime);
      assert record == Merge(current, name, resolution, plan, phase, reminderTime);
      if key !in db {
        AppendKeepsDistinct(order, key);
        order := order + [key];
      }
      db := db[key := record];
    }
  }
}
