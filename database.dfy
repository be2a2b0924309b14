/** The persistence store (src/lib/database.ts): an IndexedDB database with a
    `habits` object store keyed by `id` and an `entries` object store keyed by
    `id` with a unique index on `(habitId, date)`. The engine's asynchronous
    requests become direct operations on in-memory tables; each call's failure
    is returned as a value. */
module Database {
  import opened Types

  datatype DbError =
    | NotInitialized      // "Database not initialized": `db` is still null
    | StorageUnavailable  // the open request failed
    | ConstraintError     // a key or a unique index would be duplicated

  datatype Outcome = Pass | Fail(error: DbError)

  datatype Result<T> = Ok(value: T) | Err(error: DbError)

  /** The key of the unique `habitId_date` index. */
  type HabitDateKey = (string, int)

  function KeyOf(e: HabitEntry): HabitDateKey
  {
    (e.habitId, e.date)
  }

  /** Every stored habit is filed under its own `id` (the store's keyPath). */
  ghost predicate HabitsKeyed(habits: map<string, Habit>)
  {
    forall id :: id in habits ==> habits[id].id == id
  }

  /** Every stored entry is filed under its own `id`. */
  ghost predicate EntriesKeyed(entries: map<string, HabitEntry>)
  {
    forall id :: id in entries ==> entries[id].id == id
  }

  /** The unique index maps each stored entry's `(habitId, date)` to its id, and
      holds nothing else. */
  ghost predicate IndexMatches(entries: map<string, HabitEntry>, index: map<HabitDateKey, string>)
  {
    && (forall id :: id in entries ==> KeyOf(entries[id]) in index && index[KeyOf(entries[id])] == id)
    && (forall k :: k in index ==> index[k] in entries && KeyOf(entries[index[k]]) == k)
  }

  /** No two stored entries share a habit and a day. */
  ghost predicate UniqueHabitDate(entries: map<string, HabitEntry>)
  {
    forall a, b :: a in entries && b in entries && KeyOf(entries[a]) == KeyOf(entries[b]) ==> a == b
  }

  lemma IndexMakesHabitDateUnique(entries: map<string, HabitEntry>, index: map<HabitDateKey, string>)
    requires IndexMatches(entries, index)
    ensures UniqueHabitDate(entries)
  {
  }

  /** Point lookup through the unique index. While the index mirrors the
      entries, it finds an entry exactly when one with that habit and day is
      stored, and then it is that entry. */
  function StoreEntryOn(entries: map<string, HabitEntry>, index: map<HabitDateKey, string>, habitId: string, date: int): (r: Option<HabitEntry>)
    ensures IndexMatches(entries, index) ==>
      (r.Some? <==> exists id :: id in entries && KeyOf(entries[id]) == (habitId, date))
    ensures IndexMatches(entries, index) ==>
      forall id :: id in entries && KeyOf(entries[id]) == (habitId, date) ==> r == Some(entries[id])
  {
    var k := (habitId, date);
    if k in index && index[k] in entries then Some(entries[index[k]]) else None
  }

  /** `put` is rejected when the unique index already files this
      `(habitId, date)` under another id: while the index mirrors the entries,
      exactly when another stored entry has the same habit and day. */
  function PutConflicts(entries: map<string, HabitEntry>, index: map<HabitDateKey, string>, e: HabitEntry): (r: bool)
    ensures IndexMatches(entries, index) ==>
      (r <==> exists id :: id in entries && id != e.id && KeyOf(entries[id]) == KeyOf(e))
  {
    if KeyOf(e) in index && index[KeyOf(e)] != e.id then
      assert IndexMatches(entries, index) ==> index[KeyOf(e)] in entries && KeyOf(entries[index[KeyOf(e)]]) == KeyOf(e);
      true
    else false
  }

  /** The index after `put(e)`: the replaced record's key goes, `e`'s key comes,
      and every other key keeps its id. */
  function PutIndex(entries: map<string, HabitEntry>, index: map<HabitDateKey, string>, e: HabitEntry): (r: map<HabitDateKey, string>)
    ensures KeyOf(e) in r && r[KeyOf(e)] == e.id
    ensures forall k :: k in r && k != KeyOf(e) ==> k in index && r[k] == index[k]
    ensures forall k :: k in index && k != KeyOf(e) && (e.id in entries ==> k != KeyOf(entries[e.id])) ==> k in r
  {
    (if e.id in entries then index - {KeyOf(entries[e.id])} else index)[KeyOf(e) := e.id]
  }

  /** An accepted `put` keeps the tables keyed and the index exact, files `e`
      under its key, and changes no other habit-day lookup except the one the
      replaced record held. */
  lemma {:induction false} PutKeepsIndex(entries: map<string, HabitEntry>, index: map<HabitDateKey, string>, e: HabitEntry)
    requires EntriesKeyed(entries) && IndexMatches(entries, index)
    requires !PutConflicts(entries, index, e)
    ensures EntriesKeyed(entries[e.id := e])
    ensures IndexMatches(entries[e.id := e], PutIndex(entries, index, e))
    ensures StoreEntryOn(entries[e.id := e], PutIndex(entries, index, e), e.habitId, e.date) == Some(e)
    ensures forall hid, d :: (hid, d) != KeyOf(e) && (e.id in entries ==> (hid, d) != KeyOf(entries[e.id])) ==>
      StoreEntryOn(entries[e.id := e], PutIndex(entries, index, e), hid, d) == StoreEntryOn(entries, index, hid, d)
  {
    var entries', index' := entries[e.id := e], PutIndex(entries, index, e);
    forall id | id in entries'
      ensures KeyOf(entries'[id]) in index' && index'[KeyOf(entries'[id])] == id
    {
      if id != e.id {
        assert KeyOf(entries[id]) != KeyOf(e);
        assert e.id in entries ==> KeyOf(entries[id]) != KeyOf(entries[e.id]);
      }
    }
    forall k | k in index'
      ensures index'[k] in entries' && KeyOf(entries'[index'[k]]) == k
    {
    }
  }

  /** The entries left after deleting habit `habitId`: every entry of another
      habit, unchanged, and none of this one. */
  function EntriesWithout(entries: map<string, HabitEntry>, habitId: string): (r: map<string, HabitEntry>)
    ensures forall id :: id in r ==> id in entries && r[id] == entries[id] && r[id].habitId != habitId
    ensures forall id :: id in entries && entries[id].habitId != habitId ==> id in r
  {
    map id | id in entries && entries[id].habitId != habitId :: entries[id]
  }

  function IndexWithout(index: map<HabitDateKey, string>, habitId: string): map<HabitDateKey, string>
  {
    map k | k in index && k.0 != habitId :: index[k]
  }

  /** The cascading delete keeps the index exact, leaves no entry of the habit,
      and leaves every other habit's lookups as they were. */
  lemma DeleteKeepsIndex(entries: map<string, HabitEntry>, index: map<HabitDateKey, string>, habitId: string)
    requires EntriesKeyed(entries) && IndexMatches(entries, index)
    ensures EntriesKeyed(EntriesWithout(entries, habitId))
    ensures IndexMatches(EntriesWithout(entries, habitId), IndexWithout(index, habitId))
    ensures forall id :: id in EntriesWithout(entries, habitId) ==> EntriesWithout(entries, habitId)[id].habitId != habitId
    ensures forall d :: StoreEntryOn(EntriesWithout(entries, habitId), IndexWithout(index, habitId), habitId, d) == None
    ensures forall hid, d :: hid != habitId ==>
      StoreEntryOn(EntriesWithout(entries, habitId), IndexWithout(index, habitId), hid, d) == StoreEntryOn(entries, index, hid, d)
  {
  }

  /** No two habits in the list share an id. */
  ghost predicate DistinctHabitIds(s: seq<Habit>)
  {
    forall i, j :: 0 <= i < j < |s| ==> s[i].id != s[j].id
  }

  /** No two entries in the list share an id. */
  ghost predicate DistinctEntryIds(s: seq<HabitEntry>)
  {
    forall i, j :: 0 <= i < j < |s| ==> s[i].id != s[j].id
  }

  /** `s` lists, once each, exactly the stored entries of habit `habitId`. */
  ghost predicate ListsEntriesOfHabit(s: seq<HabitEntry>, entries: map<string, HabitEntry>, habitId: string)
  {
    && (forall e :: e in s ==> e.id in entries && entries[e.id] == e && e.habitId == habitId)
    && (forall id :: id in entries && entries[id].habitId == habitId ==> entries[id] in s)
    && DistinctEntryIds(s)
  }

  /** `s` lists, once each, exactly the stored entries dated `date`. */
  ghost predicate ListsEntriesOnDate(s: seq<HabitEntry>, entries: map<string, HabitEntry>, date: int)
  {
    && (forall e :: e in s ==> e.id in entries && entries[e.id] == e && e.date == date)
    && (forall id :: id in entries && entries[id].date == date ==> entries[id] in s)
    && DistinctEntryIds(s)
  }

  function IdsOf(s: seq<HabitEntry>): set<string>
  {
    set e | e in s :: e.id
  }

  function KeysOf(s: seq<HabitEntry>): set<HabitDateKey>
  {
    set e | e in s :: KeyOf(e)
  }

  lemma PrefixGrows(s: seq<HabitEntry>, i: nat)
    requires i < |s|
    ensures IdsOf(s[..i + 1]) == IdsOf(s[..i]) + {s[i].id}
    ensures KeysOf(s[..i + 1]) == KeysOf(s[..i]) + {KeyOf(s[i])}
  {
    assert s[..i + 1] == s[..i] + [s[i]];
  }

  lemma RemoveOneMore<K, V>(m: map<K, V>, gone: set<K>, k: K)
    ensures (m - gone) - {k} == m - (gone + {k})
  {
  }

  /** Removing the ids and keys of all of a habit's entries is the cascading delete. */
  lemma RemovingHabitEntries(entries: map<string, HabitEntry>, index: map<HabitDateKey, string>, habitId: string, related: seq<HabitEntry>)
    requires EntriesKeyed(entries) && IndexMatches(entries, index)
    requires forall e :: e in related ==> e.id in entries && entries[e.id] == e && e.habitId == habitId
    requires forall id :: id in entries && entries[id].habitId == habitId ==> entries[id] in related
    ensures entries - IdsOf(related) == EntriesWithout(entries, habitId)
    ensures index - KeysOf(related) == IndexWithout(index, habitId)
  {
    assert IdsOf(related) == set k | k in entries && entries[k].habitId == habitId;
    forall k | k in index && k.0 == habitId ensures k in KeysOf(related) {
      assert entries[index[k]] in related;
    }
    assert KeysOf(related) == set k | k in index && k.0 == habitId;
  }

  class HabitDatabase {
    /** `db !== null`: the open request has succeeded. */
    var initialized: bool
    var habits: map<string, Habit>
    var entries: map<string, HabitEntry>
    /** The unique `habitId_date` index of the entries store. */
    var habitDateIndex: map<HabitDateKey, string>

    ghost predicate Valid()
      reads this
    {
      HabitsKeyed(habits) && EntriesKeyed(entries) && IndexMatches(entries, habitDateIndex)
    }

    constructor ()
      ensures Valid() && !initialized
      ensures habits == map[] && entries == map[] && habitDateIndex == map[]
    {
      initialized := false;
      habits, entries, habitDateIndex := map[], map[], map[];
    }

    /** Opens the database; `engineAvailable` is whether the open request succeeds.
        The object stores and indexes are created on upgrade, and stored data is kept. */
    method Init(engineAvailable: bool) returns (r: Outcome)
      requires Valid()
      modifies this`initialized
      ensures Valid()
      ensures r == if engineAvailable then Pass else Fail(StorageUnavailable)
      ensures initialized == (old(initialized) || engineAvailable)
    {
      if !engineAvailable {
        return Fail(StorageUnavailable);
      }
      initialized := true;
      r := Pass;
    }

    /** `store.add`: fails on an existing key. */
    method AddHabit(h: Habit) returns (r: Outcome)
      requires Valid()
      modifies this`habits
      ensures Valid()
      ensures r == if !initialized then Fail(NotInitialized)
                   else if h.id in old(habits) then Fail(ConstraintError)
                   else Pass
      ensures habits == if r.Pass? then old(habits)[h.id := h] else old(habits)
    {
      if !initialized {
        return Fail(NotInitialized);
      }
      if h.id in habits {
        return Fail(ConstraintError);
      }
      habits := habits[h.id := h];
      r := Pass;
    }

    /** `store.put`: inserts or replaces by id. */
    method UpdateHabit(h: Habit) returns (r: Outcome)
      requires Valid()
      modifies this`habits
      ensures Valid()
      ensures r == if initialized then Pass else Fail(NotInitialized)
      ensures habits == if r.Pass? then old(habits)[h.id := h] else old(habits)
      ensures r.Pass? ==> h.id in habits && habits[h.id] == h
    {
      if !initialized {
        return Fail(NotInitialized);
      }
      habits := habits[h.id := h];
      r := Pass;
    }

    /** The entries satisfying `keep`, in the order the store hands them out. */
    method SelectEntries(keep: HabitEntry -> bool) returns (s: seq<HabitEntry>)
      requires Valid()
      ensures forall e :: e in s ==> e.id in entries && entries[e.id] == e && keep(e)
      ensures forall id :: id in entries && keep(entries[id]) ==> entries[id] in s
      ensures DistinctEntryIds(s)
    {
      var rest := entries.Keys;
      s := [];
      while rest != {}
        invariant rest <= entries.Keys
        invariant forall e :: e in s ==> e.id in entries && entries[e.id] == e && keep(e) && e.id !in rest
        invariant forall id :: id in entries && id !in rest && keep(entries[id]) ==> entries[id] in s
        invariant DistinctEntryIds(s)
        decreases rest
      {
        var id :| id in rest;
        if keep(entries[id]) {
          s := s + [entries[id]];
        }
        rest := rest - {id};
      }
    }

    /** Deletes the habit and, in the same transaction, every entry the
        `habitId` index files under it. */
    method DeleteHabit(id: string) returns (r: Outcome)
      requires Valid()
      modifies this`habits, this`entries, this`habitDateIndex
      ensures Valid()
      ensures r == if initialized then Pass else Fail(NotInitialized)
      ensures habits == if r.Pass? then old(habits) - {id} else old(habits)
      ensures entries == if r.Pass? then EntriesWithout(old(entries), id) else old(entries)
      ensures habitDateIndex == if r.Pass? then IndexWithout(old(habitDateIndex), id) else old(habitDateIndex)
    {
      if !initialized {
        return Fail(NotInitialized);
      }
      habits := habits - {id};
      var related := SelectEntries((e: HabitEntry) => e.habitId == id);
      ghost var entries0, index0 := entries, habitDateIndex;
      for i := 0 to |related|
        invariant habits == old(habits) - {id}
        invariant entries == entries0 - IdsOf(related[..i])
        invariant habitDateIndex == index0 - KeysOf(related[..i])
      {
        PrefixGrows(related, i);
        RemoveOneMore(entries0, IdsOf(related[..i]), related[i].id);
        RemoveOneMore(index0, KeysOf(related[..i]), KeyOf(related[i]));
        entries := entries - {related[i].id};
        habitDateIndex := habitDateIndex - {KeyOf(related[i])};
      }
      assert entries == EntriesWithout(entries0, id) && habitDateIndex == IndexWithout(index0, id) by {
        assert related[..|related|] == related;
        RemovingHabitEntries(entries0, index0, id, related);
      }
      DeleteKeepsIndex(entries0, index0, id);
      r := Pass;
    }

    /** `getAll` on the habits store, filtered on `isActive`. */
    method GetActiveHabits() returns (r: Result<seq<Habit>>)
      requires Valid()
      ensures r.Err? <==> !initialized
      ensures r.Err? ==> r.error == NotInitialized
      ensures r.Ok? ==> forall h :: h in r.value ==> h.id in habits && habits[h.id] == h && h.isActive
      ensures r.Ok? ==> forall id :: id in habits && habits[id].isActive ==> habits[id] in r.value
      ensures r.Ok? ==> DistinctHabitIds(r.value)
    {
      if !initialized {
        return Err(NotInitialized);
      }
      var rest := habits.Keys;
      var active: seq<Habit> := [];
      while rest != {}
        invariant rest <= habits.Keys
        invariant forall h :: h in active ==> h.id in habits && habits[h.id] == h && h.isActive && h.id !in rest
        invariant forall id :: id in habits && id !in rest && habits[id].isActive ==> habits[id] in active
        invariant DistinctHabitIds(active)
        decreases rest
      {
        var id :| id in rest;
        if habits[id].isActive {
          active := active + [habits[id]];
        }
        rest := rest - {id};
      }
      r := Ok(active);
    }

    method GetHabit(id: string) returns (r: Result<Option<Habit>>)
      requires Valid()
      ensures r.Err? <==> !initialized
      ensures r.Err? ==> r.error == NotInitialized
      ensures r.Ok? ==> (r.value.Some? <==> id in habits)
      ensures r.Ok? && r.value.Some? ==> r.value.value == habits[id] && r.value.value.id == id
    {
      if !initialized {
        return Err(NotInitialized);
      }
      r := Ok(if id in habits then Some(habits[id]) else None);
    }

    /** `store.put` on the entries store: inserts or replaces by id, and is
        rejected when another entry already holds this habit and day. */
    method AddEntry(e: HabitEntry) returns (r: Outcome)
      requires Valid()
      modifies this`entries, this`habitDateIndex
      ensures Valid()
      ensures r == if !initialized then Fail(NotInitialized)
                   else if PutConflicts(old(entries), old(habitDateIndex), e) then Fail(ConstraintError)
                   else Pass
      ensures entries == if r.Pass? then old(entries)[e.id := e] else old(entries)
      ensures habitDateIndex == if r.Pass? then PutIndex(old(entries), old(habitDateIndex), e) else old(habitDateIndex)
      ensures r.Pass? ==> StoreEntryOn(entries, habitDateIndex, e.habitId, e.date) == Some(e)
    {
      if !initialized {
        return Fail(NotInitialized);
      }
      if PutConflicts(entries, habitDateIndex, e) {
        return Fail(ConstraintError);
      }
      PutKeepsIndex(entries, habitDateIndex, e);
      habitDateIndex := PutIndex(entries, habitDateIndex, e);
      entries := entries[e.id := e];
      r := Pass;
    }

    /** `index('habitId_date').get([habitId, date])`. */
    method GetEntry(habitId: string, date: int) returns (r: Result<Option<HabitEntry>>)
      requires Valid()
      ensures r.Err? <==> !initialized
      ensures r.Err? ==> r.error == NotInitialized
      ensures r.Ok? ==> r.value == StoreEntryOn(entries, habitDateIndex, habitId, date)
      ensures r.Ok? && r.value.Some? ==>
        r.value.value.id in entries && entries[r.value.value.id] == r.value.value && KeyOf(r.value.value) == (habitId, date)
      ensures r.Ok? && r.value.None? ==> forall id :: id in entries ==> KeyOf(entries[id]) != (habitId, date)
    {
      if !initialized {
        return Err(NotInitialized);
      }
      var k := (habitId, date);
      r := Ok(if k in habitDateIndex then Some(entries[habitDateIndex[k]]) else None);
    }

    /** `index('habitId').getAll(habitId)`. */
    method GetEntriesForHabit(habitId: string) returns (r: Result<seq<HabitEntry>>)
      requires Valid()
      ensures r.Err? <==> !initialized
      ensures r.Err? ==> r.error == NotInitialized
      ensures r.Ok? ==> ListsEntriesOfHabit(r.value, entries, habitId)
    {
      if !initialized {
        return Err(NotInitialized);
      }
      var s := SelectEntries((e: HabitEntry) => e.habitId == habitId);
      r := Ok(s);
    }

    /** `index('date').getAll(date)`. */
    method GetEntriesForDate(date: int) returns (r: Result<seq<HabitEntry>>)
      requires Valid()
      ensures r.Err? <==> !initialized
      ensures r.Err? ==> r.error == NotInitialized
      ensures r.Ok? ==> ListsEntriesOnDate(r.value, entries, date)
    {
      if !initialized {
        return Err(NotInitialized);
      }
      var s := SelectEntries((e: HabitEntry) => e.date == date);
      r := Ok(s);
    }
  }
}
