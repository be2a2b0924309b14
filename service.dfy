/** The aggregation service (src/lib/habitService.ts). It reads the store,
    runs the status engine for "today" and publishes the list of habits to act
    on; every write to the store is followed by a refresh. The published
    `habits` list and the `isLoading` flag are fields, "today" and the
    completion time are parameters, and the entry-id generator is a
    caller-supplied fresh id. */
module Service {
  import opened Types
  import opened Utils
  import opened Database

  // ---------------------------------------------------------------------------
  // The published view, stated against the store.

  /** Whether each day is done, according to the store's unique index. */
  function StoreCompletion(entries: map<string, HabitEntry>, index: map<HabitDateKey, string>, habitId: string): int -> bool
  {
    day => match StoreEntryOn(entries, index, habitId, day)
           case Some(e) => e.completed
           case None => false
  }

  /** The record the service publishes for habit `h`: its entry for today,
      overdue exactly when due today and that entry is not completed, and its
      streak, which an overdue habit does not have. */
  function ViewOf(h: Habit, entries: map<string, HabitEntry>, index: map<HabitDateKey, string>, today: int): (r: HabitWithEntries)
    ensures r.habit == h
    ensures IndexMatches(entries, index) && r.todayEntry.Some? ==>
      r.todayEntry.value.habitId == h.id && r.todayEntry.value.date == today
    ensures r.isOverdue <==> IsHabitDueToday(h, today) && !(r.todayEntry.Some? && r.todayEntry.value.completed)
    ensures r.isOverdue ==> r.streak == 0
    ensures 0 <= r.streak <= if today < h.createdAt then 0 else today - h.createdAt + 1
  {
    var done := StoreCompletion(entries, index, h.id);
    HabitWithEntries(h, StoreEntryOn(entries, index, h.id, today), IsOverdue(h, done, today), Streak(h, done, today))
  }

  /** The comparator handed to `sort`: negative when `a` goes first, positive
      when `b` does, and the creation difference between records of the same
      overdue flag. */
  function Compare(a: HabitWithEntries, b: HabitWithEntries): (r: int)
    ensures r < 0 <==> (a.isOverdue && !b.isOverdue) || (a.isOverdue == b.isOverdue && a.habit.createdAt < b.habit.createdAt)
    ensures r == 0 <==> a.isOverdue == b.isOverdue && a.habit.createdAt == b.habit.createdAt
  {
    if a.isOverdue && !b.isOverdue then -1
    else if !a.isOverdue && b.isOverdue then 1
    else a.habit.createdAt - b.habit.createdAt
  }

  /** The sort order: `a` may stand before `b` when the comparator does not ask
      for a swap. The order is total: when `a` may not precede `b`, the
      comparator puts `b` strictly first. */
  function Precedes(a: HabitWithEntries, b: HabitWithEntries): (r: bool)
    ensures r <==> Compare(a, b) <= 0
    ensures !r ==> Compare(b, a) < 0
  {
    (a.isOverdue && !b.isOverdue) || (a.isOverdue == b.isOverdue && a.habit.createdAt <= b.habit.createdAt)
  }

  ghost predicate SortedByPriority(s: seq<HabitWithEntries>)
  {
    forall i, j :: 0 <= i < j < |s| ==> Precedes(s[i], s[j])
  }

  ghost predicate DistinctViewIds(s: seq<HabitWithEntries>)
  {
    forall i, j :: 0 <= i < j < |s| ==> s[i].habit.id != s[j].habit.id
  }

  /** `list` is what a refresh on `today` publishes: one record for each active
      habit due today, each with its entry for today and its status, sorted. */
  ghost predicate IsTodaysList(list: seq<HabitWithEntries>, habits: map<string, Habit>,
                               entries: map<string, HabitEntry>, index: map<HabitDateKey, string>, today: int)
  {
    && (forall r :: r in list ==>
          && r.habit.id in habits && habits[r.habit.id] == r.habit
          && r.habit.isActive && IsHabitDueToday(r.habit, today)
          && r == ViewOf(r.habit, entries, index, today))
    && (forall id :: id in habits && habits[id].isActive && IsHabitDueToday(habits[id], today) ==>
          ViewOf(habits[id], entries, index, today) in list)
    && DistinctViewIds(list)
    && SortedByPriority(list)
  }

  // ---------------------------------------------------------------------------
  // Sorting (Array.prototype.sort with the service's comparator, which is stable).

  /** Inserts `x` before the first element it may precede. */
  function Insert(x: HabitWithEntries, s: seq<HabitWithEntries>): (r: seq<HabitWithEntries>)
    ensures multiset(r) == multiset(s) + multiset{x}
    ensures forall e :: e in r <==> e == x || e in s
  {
    if s == [] then [x]
    else if Precedes(x, s[0]) then [x] + s
    else
      assert s == [s[0]] + s[1..];
      [s[0]] + Insert(x, s[1..])
  }

  lemma ConsKeepsSorted(a: HabitWithEntries, t: seq<HabitWithEntries>)
    requires SortedByPriority(t)
    requires forall e :: e in t ==> Precedes(a, e)
    ensures SortedByPriority([a] + t)
  {
    var s := [a] + t;
    forall i, j | 0 <= i < j < |s| ensures Precedes(s[i], s[j]) {
      assert s[j] == t[j - 1];
      if i > 0 {
        assert s[i] == t[i - 1];
      }
    }
  }

  /** `Precedes` is total, so inserting into a sorted list keeps it sorted. */
  lemma {:induction false} InsertKeepsSorted(x: HabitWithEntries, s: seq<HabitWithEntries>)
    requires SortedByPriority(s)
    ensures SortedByPriority(Insert(x, s))
  {
    if s == [] {
    } else if Precedes(x, s[0]) {
      forall e | e in s ensures Precedes(x, e) {
        var k :| 0 <= k < |s| && s[k] == e;
        if k > 0 {
          assert Precedes(s[0], e);
        }
      }
      ConsKeepsSorted(x, s);
    } else {
      var t := Insert(x, s[1..]);
      InsertKeepsSorted(x, s[1..]);
      assert s == [s[0]] + s[1..];
      forall e | e in t ensures Precedes(s[0], e) {
        assert e == x || e in s[1..];
      }
      ConsKeepsSorted(s[0], t);
    }
  }

  lemma ConsKeepsDistinct(a: HabitWithEntries, t: seq<HabitWithEntries>)
    requires DistinctViewIds(t)
    requires forall e :: e in t ==> e.habit.id != a.habit.id
    ensures DistinctViewIds([a] + t)
  {
    var s := [a] + t;
    forall i, j | 0 <= i < j < |s| ensures s[i].habit.id != s[j].habit.id {
      assert s[j] == t[j - 1];
      if i > 0 {
        assert s[i] == t[i - 1];
      }
    }
  }

  lemma {:induction false} InsertKeepsDistinct(x: HabitWithEntries, s: seq<HabitWithEntries>)
    requires DistinctViewIds(s)
    requires forall e :: e in s ==> e.habit.id != x.habit.id
    ensures DistinctViewIds(Insert(x, s))
  {
    if s == [] {
    } else if Precedes(x, s[0]) {
      ConsKeepsDistinct(x, s);
    } else {
      var t := Insert(x, s[1..]);
      assert s == [s[0]] + s[1..];
      forall i, j | 0 <= i < j < |s[1..]| ensures s[1..][i].habit.id != s[1..][j].habit.id {
        assert s[1..][i] == s[i + 1] && s[1..][j] == s[j + 1];
      }
      InsertKeepsDistinct(x, s[1..]);
      forall e | e in t ensures e.habit.id != s[0].habit.id {
        assert e == x || e in s[1..];
      }
      ConsKeepsDistinct(s[0], t);
    }
  }

  /** The comparator sort: a sorted permutation of its input. */
  function SortByPriority(s: seq<HabitWithEntries>): (r: seq<HabitWithEntries>)
    ensures SortedByPriority(r)
    ensures multiset(r) == multiset(s)
  {
    if s == [] then []
    else
      var t := SortByPriority(s[1..]);
      assert s == [s[0]] + s[1..];
      InsertKeepsSorted(s[0], t);
      Insert(s[0], t)
  }

  lemma {:induction false} SortKeepsDistinct(s: seq<HabitWithEntries>)
    requires DistinctViewIds(s)
    ensures DistinctViewIds(SortByPriority(s))
  {
    if s != [] {
      var t := SortByPriority(s[1..]);
      assert s == [s[0]] + s[1..];
      SortKeepsDistinct(s[1..]);
      forall e | e in t ensures e.habit.id != s[0].habit.id {
        assert e in multiset(t);
      }
      InsertKeepsDistinct(s[0], t);
    }
  }

  // ---------------------------------------------------------------------------
  // From the lists the store hands out to the store's own lookups.

  /** `todayEntries.find(e => e.habitId === habitId)`. */
  function EntryOfHabit(entries: seq<HabitEntry>, habitId: string): (r: Option<HabitEntry>)
    ensures r.Some? ==> r.value in entries && r.value.habitId == habitId
    ensures r.None? <==> forall e :: e in entries ==> e.habitId != habitId
  {
    FindEntry(entries, (e: HabitEntry) => e.habitId == habitId)
  }

  /** In a habit's full history, the entry found for a day is the stored one. */
  lemma HistoryLookupIsStoreLookup(s: seq<HabitEntry>, entries: map<string, HabitEntry>,
                                   index: map<HabitDateKey, string>, habitId: string, day: int)
    requires EntriesKeyed(entries) && IndexMatches(entries, index)
    requires ListsEntriesOfHabit(s, entries, habitId)
    ensures EntryOn(s, day) == StoreEntryOn(entries, index, habitId, day)
  {
    var found := EntryOn(s, day);
    if (habitId, day) in index {
      assert entries[index[(habitId, day)]] in s;
    }
    if found.Some? {
      assert KeyOf(entries[found.value.id]) == (habitId, day);
    }
  }

  /** In today's entries, the entry found for a habit is the stored one. */
  lemma TodayLookupIsStoreLookup(s: seq<HabitEntry>, entries: map<string, HabitEntry>,
                                 index: map<HabitDateKey, string>, habitId: string, today: int)
    requires EntriesKeyed(entries) && IndexMatches(entries, index)
    requires ListsEntriesOnDate(s, entries, today)
    ensures EntryOfHabit(s, habitId) == StoreEntryOn(entries, index, habitId, today)
  {
    var found := EntryOfHabit(s, habitId);
    if (habitId, today) in index {
      assert entries[index[(habitId, today)]] in s;
    }
    if found.Some? {
      assert KeyOf(entries[found.value.id]) == (habitId, today);
    }
  }

  /** The status computed from a habit's history is its status in the store. */
  lemma HistoryStatusIsStoreStatus(h: Habit, s: seq<HabitEntry>, entries: map<string, HabitEntry>,
                                   index: map<HabitDateKey, string>, today: int)
    requires EntriesKeyed(entries) && IndexMatches(entries, index)
    requires ListsEntriesOfHabit(s, entries, h.id)
    ensures IsOverdue(h, Completion(s), today) == IsOverdue(h, StoreCompletion(entries, index, h.id), today)
    ensures Streak(h, Completion(s), today) == Streak(h, StoreCompletion(entries, index, h.id), today)
  {
    forall d ensures Completion(s)(d) == StoreCompletion(entries, index, h.id)(d) {
      HistoryLookupIsStoreLookup(s, entries, index, h.id, d);
    }
    StreakCongruent(h, Completion(s), StoreCompletion(entries, index, h.id), today);
  }

  /** The record the refresh builds from the store's listings is `ViewOf`. */
  lemma ScannedRecordIsView(h: Habit, history: seq<HabitEntry>, todays: seq<HabitEntry>,
                            entries: map<string, HabitEntry>, index: map<HabitDateKey, string>, today: int)
    requires EntriesKeyed(entries) && IndexMatches(entries, index)
    requires ListsEntriesOfHabit(history, entries, h.id)
    requires ListsEntriesOnDate(todays, entries, today)
    ensures HabitWithEntries(h, EntryOfHabit(todays, h.id), IsOverdue(h, Completion(history), today),
                             Streak(h, Completion(history), today))
            == ViewOf(h, entries, index, today)
  {
    TodayLookupIsStoreLookup(todays, entries, index, h.id, today);
    HistoryStatusIsStoreStatus(h, history, entries, index, today);
  }

  /** Sorting the records gathered from a listing of the active habits yields
      today's list. */
  lemma {:induction false} SortedScanIsTodaysList(active: seq<Habit>, list: seq<HabitWithEntries>, habits: map<string, Habit>,
                                                  entries: map<string, HabitEntry>, index: map<HabitDateKey, string>, today: int)
    requires forall h :: h in active ==> h.id in habits && habits[h.id] == h && h.isActive
    requires forall id :: id in habits && habits[id].isActive ==> habits[id] in active
    requires forall r :: r in list ==> r.habit in active && IsHabitDueToday(r.habit, today) && r == ViewOf(r.habit, entries, index, today)
    requires forall h :: h in active && IsHabitDueToday(h, today) ==> ViewOf(h, entries, index, today) in list
    requires DistinctViewIds(list)
    ensures IsTodaysList(SortByPriority(list), habits, entries, index, today)
  {
    var sorted := SortByPriority(list);
    SortKeepsDistinct(list);
    forall r | r in sorted ensures r in list {
      assert r in multiset(sorted);
    }
    forall r | r in list ensures r in sorted {
      assert r in multiset(list);
    }
  }

  /** The filter `isDueToday || status.isOverdue` keeps exactly the habits due today. */
  lemma OverdueOnlyWhenDue(h: Habit, done: int -> bool, today: int)
    ensures (IsHabitDueToday(h, today) || IsOverdue(h, done, today)) == IsHabitDueToday(h, today)
  {
  }

  // ---------------------------------------------------------------------------
  // Completion as a read-modify-upsert on the entries table.

  /** The entry `completeHabit` writes: today's entry marked done, or a new one.
      Either way it is done with the given value and time; an existing entry
      keeps its id, habit and date, a new one takes the fresh id, the habit and
      today. */
  function CompletionEntry(existing: Option<HabitEntry>, habitId: string, today: int,
                           value: Option<int>, now: int, freshId: string): (r: HabitEntry)
    ensures r.completed && r.value == value && r.completedAt == Some(now)
    ensures existing.Some? ==>
      r.id == existing.value.id && KeyOf(r) == KeyOf(existing.value)
    ensures existing.None? ==> r.id == freshId && KeyOf(r) == (habitId, today)
  {
    match existing
    case Some(e) => e.(completed := true, value := value, completedAt := Some(now))
    case None => HabitEntry(freshId, habitId, today, true, value, Some(now))
  }

  function CompleteEntries(entries: map<string, HabitEntry>, index: map<HabitDateKey, string>, habitId: string,
                           today: int, value: Option<int>, now: int, freshId: string): map<string, HabitEntry>
  {
    var e := CompletionEntry(StoreEntryOn(entries, index, habitId, today), habitId, today, value, now, freshId);
    entries[e.id := e]
  }

  function CompleteIndex(entries: map<string, HabitEntry>, index: map<HabitDateKey, string>, habitId: string,
                         today: int, value: Option<int>, now: int, freshId: string): map<HabitDateKey, string>
  {
    var e := CompletionEntry(StoreEntryOn(entries, index, habitId, today), habitId, today, value, now, freshId);
    PutIndex(entries, index, e)
  }

  /** The entries after `uncompleteHabit`: today's entry of the habit, if any,
      is marked not done with value and time cleared; no entry is added or
      removed and every other entry is unchanged. */
  function UncompleteEntries(entries: map<string, HabitEntry>, index: map<HabitDateKey, string>,
                             habitId: string, today: int): (r: map<string, HabitEntry>)
    ensures EntriesKeyed(entries) && IndexMatches(entries, index) ==> r.Keys == entries.Keys
    ensures EntriesKeyed(entries) && IndexMatches(entries, index) ==>
      forall id :: id in entries ==>
        r[id] == if KeyOf(entries[id]) == (habitId, today)
                 then entries[id].(completed := false, value := None, completedAt := None)
                 else entries[id]
  {
    match StoreEntryOn(entries, index, habitId, today)
    case Some(e) => entries[e.id := e.(completed := false, value := None, completedAt := None)]
    case None => entries
  }

  /** The completion entry never clashes with the unique index: it reuses the id
      the index holds for this habit and day, or takes a fresh id for a free key. */
  lemma CompletionEntryFits(entries: map<string, HabitEntry>, index: map<HabitDateKey, string>, habitId: string,
                            today: int, value: Option<int>, now: int, freshId: string)
    requires EntriesKeyed(entries) && IndexMatches(entries, index)
    requires freshId !in entries
    ensures !PutConflicts(entries, index, CompletionEntry(StoreEntryOn(entries, index, habitId, today), habitId, today, value, now, freshId))
    ensures KeyOf(CompletionEntry(StoreEntryOn(entries, index, habitId, today), habitId, today, value, now, freshId)) == (habitId, today)
  {
  }

  /** With an entry for today, completing updates that entry in place: same id,
      now done with the given value and time; nothing is added. */
  lemma CompleteUpdatesExisting(entries: map<string, HabitEntry>, index: map<HabitDateKey, string>, habitId: string,
                                today: int, value: Option<int>, now: int, freshId: string, existing: HabitEntry)
    requires EntriesKeyed(entries) && IndexMatches(entries, index)
    requires StoreEntryOn(entries, index, habitId, today) == Some(existing)
    ensures CompleteEntries(entries, index, habitId, today, value, now, freshId).Keys == entries.Keys
    ensures CompleteEntries(entries, index, habitId, today, value, now, freshId)[existing.id]
      == HabitEntry(existing.id, habitId, today, true, value, Some(now))
    ensures forall id :: id in entries && id != existing.id ==>
      CompleteEntries(entries, index, habitId, today, value, now, freshId)[id] == entries[id]
    ensures CompleteIndex(entries, index, habitId, today, value, now, freshId) == index
  {
    assert existing.id in entries;
  }

  /** Without an entry for today, completing adds exactly one entry, under the
      fresh id, for this habit and day, done. */
  lemma CompleteAddsOne(entries: map<string, HabitEntry>, index: map<HabitDateKey, string>, habitId: string,
                        today: int, value: Option<int>, now: int, freshId: string)
    requires EntriesKeyed(entries) && IndexMatches(entries, index)
    requires StoreEntryOn(entries, index, habitId, today) == None
    requires freshId !in entries
    ensures CompleteEntries(entries, index, habitId, today, value, now, freshId).Keys == entries.Keys + {freshId}
    ensures CompleteEntries(entries, index, habitId, today, value, now, freshId)[freshId]
      == HabitEntry(freshId, habitId, today, true, value, Some(now))
    ensures forall id :: id in entries ==> CompleteEntries(entries, index, habitId, today, value, now, freshId)[id] == entries[id]
  {
  }

  /** Completing a second time on the same day changes only the completion time:
      the same ids, the same flags, the same index, hence the same streaks. */
  lemma CompleteTwiceIsCompleteOnce(entries: map<string, HabitEntry>, index: map<HabitDateKey, string>, habitId: string,
                                    today: int, value: Option<int>, now1: int, fresh1: string, now2: int, fresh2: string)
    requires EntriesKeyed(entries) && IndexMatches(entries, index)
    requires fresh1 !in entries
    ensures var e1 := CompleteEntries(entries, index, habitId, today, value, now1, fresh1);
            var i1 := CompleteIndex(entries, index, habitId, today, value, now1, fresh1);
            var e2 := CompleteEntries(e1, i1, habitId, today, value, now2, fresh2);
            var i2 := CompleteIndex(e1, i1, habitId, today, value, now2, fresh2);
            && e2.Keys == e1.Keys
            && i2 == i1
            && (forall id :: id in e1 ==> e2[id] == e1[id].(completedAt := e2[id].completedAt))
            && (forall g: Habit, t :: Streak(g, StoreCompletion(e2, i2, g.id), t) == Streak(g, StoreCompletion(e1, i1, g.id), t))
  {
    var e1 := CompleteEntries(entries, index, habitId, today, value, now1, fresh1);
    var i1 := CompleteIndex(entries, index, habitId, today, value, now1, fresh1);
    var x := CompletionEntry(StoreEntryOn(entries, index, habitId, today), habitId, today, value, now1, fresh1);
    CompletionEntryFits(entries, index, habitId, today, value, now1, fresh1);
    PutKeepsIndex(entries, index, x);
    assert StoreEntryOn(e1, i1, habitId, today) == Some(x);
    CompleteUpdatesExisting(e1, i1, habitId, today, value, now2, fresh2, x);
    var e2 := CompleteEntries(e1, i1, habitId, today, value, now2, fresh2);
    var i2 := CompleteIndex(e1, i1, habitId, today, value, now2, fresh2);
    SameFlagsSameStreaks(e1, e2, i1);
  }

  /** Two stores that differ only in completion times give every habit the
      same streak. */
  lemma SameFlagsSameStreaks(e1: map<string, HabitEntry>, e2: map<string, HabitEntry>, index: map<HabitDateKey, string>)
    requires e2.Keys == e1.Keys
    requires forall id :: id in e1 ==> e2[id] == e1[id].(completedAt := e2[id].completedAt)
    ensures forall g: Habit, t :: Streak(g, StoreCompletion(e2, index, g.id), t) == Streak(g, StoreCompletion(e1, index, g.id), t)
  {
    forall g: Habit, t ensures Streak(g, StoreCompletion(e2, index, g.id), t) == Streak(g, StoreCompletion(e1, index, g.id), t) {
      forall d ensures StoreCompletion(e2, index, g.id)(d) == StoreCompletion(e1, index, g.id)(d) {
        var k := (g.id, d);
        if k in index && index[k] in e1 {
          assert e2[index[k]].completed == e1[index[k]].completed;
        }
      }
      StreakCongruent(g, StoreCompletion(e2, index, g.id), StoreCompletion(e1, index, g.id), t);
    }
  }

  /** Uncompleting right after completing marks that same entry not done and
      clears its value and time; it adds no second row. */
  lemma UncompleteAfterComplete(entries: map<string, HabitEntry>, index: map<HabitDateKey, string>, habitId: string,
                                today: int, value: Option<int>, now: int, freshId: string)
    requires EntriesKeyed(entries) && IndexMatches(entries, index)
    requires freshId !in entries
    ensures var e1 := CompleteEntries(entries, index, habitId, today, value, now, freshId);
            var i1 := CompleteIndex(entries, index, habitId, today, value, now, freshId);
            var e2 := UncompleteEntries(e1, i1, habitId, today);
            var x := StoreEntryOn(e1, i1, habitId, today);
            && x.Some?
            && e2.Keys == e1.Keys
            && e2[x.value.id] == HabitEntry(x.value.id, habitId, today, false, None, None)
            && (forall id :: id in e1 && id != x.value.id ==> e2[id] == e1[id])
  {
    var x := CompletionEntry(StoreEntryOn(entries, index, habitId, today), habitId, today, value, now, freshId);
    CompletionEntryFits(entries, index, habitId, today, value, now, freshId);
    PutKeepsIndex(entries, index, x);
  }

  // ---------------------------------------------------------------------------

  class HabitService {
    /** The shared `habitDB` instance. */
    const db: HabitDatabase
    var initialized: bool
    /** The published `habits` store. */
    var habits: seq<HabitWithEntries>
    /** The published `isLoading` store. */
    var isLoading: bool

    ghost predicate Valid()
      reads this, db
    {
      db.Valid()
    }

    /** The published list is the refresh result for the store's current state. */
    ghost predicate Refreshed(today: int)
      reads this, db
    {
      !isLoading && IsTodaysList(habits, db.habits, db.entries, db.habitDateIndex, today)
    }

    constructor (db: HabitDatabase)
      ensures this.db == db
      ensures !initialized && habits == [] && isLoading
    {
      this.db := db;
      initialized := false;
      habits := [];
      isLoading := true;
    }

    method Init(engineAvailable: bool, today: int) returns (r: Outcome)
      requires Valid()
      modifies this`initialized, this`habits, this`isLoading, db`initialized
      ensures Valid()
      ensures old(initialized) ==> r == Pass && unchanged(this) && unchanged(db)
      ensures !old(initialized) ==> r == if engineAvailable then Pass else Fail(StorageUnavailable)
      ensures !old(initialized) && r.Pass? ==> initialized && db.initialized && Refreshed(today)
      ensures !old(initialized) && r.Fail? ==> unchanged(this) && unchanged(db)
    {
      if initialized {
        return Pass;
      }
      r := db.Init(engineAvailable);
      if r.Fail? {
        return;
      }
      initialized := true;
      LoadTodaysHabits(today);
    }

    /** Refresh: list the active habits due today with their status, sorted.
        A failed read leaves the published list as it was. */
    method LoadTodaysHabits(today: int)
      requires Valid()
      modifies this`habits, this`isLoading
      ensures !isLoading
      ensures db.initialized ==> IsTodaysList(habits, db.habits, db.entries, db.habitDateIndex, today)
      ensures !db.initialized ==> habits == old(habits)
    {
      isLoading := true;
      var activeResult := db.GetActiveHabits();
      if activeResult.Err? {
        isLoading := false;
        return;
      }
      var todayResult := db.GetEntriesForDate(today);
      var allHabits, todayEntries := activeResult.value, todayResult.value;

      var list: seq<HabitWithEntries> := [];
      for i := 0 to |allHabits|
        invariant forall r :: r in list ==>
          && r.habit in allHabits[..i] && IsHabitDueToday(r.habit, today)
          && r == ViewOf(r.habit, db.entries, db.habitDateIndex, today)
        invariant forall j :: 0 <= j < i && IsHabitDueToday(allHabits[j], today) ==>
          ViewOf(allHabits[j], db.entries, db.habitDateIndex, today) in list
        invariant DistinctViewIds(list)
      {
        var h := allHabits[i];
        var keep, record := ScanHabit(h, todayEntries, today);
        if keep {
          forall r | r in list ensures r.habit.id != h.id {
            var j :| 0 <= j < i && allHabits[j] == r.habit;
          }
          list := list + [record];
        }
      }
      assert allHabits[..|allHabits|] == allHabits;
      SortedScanIsTodaysList(allHabits, list, db.habits, db.entries, db.habitDateIndex, today);
      habits := SortByPriority(list);
      isLoading := false;
    }

    /** One pass of the refresh loop: `h`'s history, its entry among today's
        entries, whether it is due, and its status; `keep` is the loop's filter. */
    method ScanHabit(h: Habit, todayEntries: seq<HabitEntry>, today: int) returns (keep: bool, record: HabitWithEntries)
      requires Valid() && db.initialized
      requires ListsEntriesOnDate(todayEntries, db.entries, today)
      ensures keep == IsHabitDueToday(h, today)
      ensures record == ViewOf(h, db.entries, db.habitDateIndex, today)
    {
      var entriesResult := db.GetEntriesForHabit(h.id);
      var allEntries := entriesResult.value;
      var todayEntry := EntryOfHabit(todayEntries, h.id);
      var isDueToday := IsHabitDueToday(h, today);
      var status := GetHabitStatus(h, allEntries, today);
      ScannedRecordIsView(h, allEntries, todayEntries, db.entries, db.habitDateIndex, today);
      keep := isDueToday || status.isOverdue;
      record := HabitWithEntries(h, todayEntry, status.isOverdue, status.currentStreak);
    }

    method AddHabit(h: Habit, today: int) returns (r: Outcome)
      requires Valid()
      modifies this`habits, this`isLoading, db`habits
      ensures Valid()
      ensures r == if !old(db.initialized) then Fail(NotInitialized)
                   else if h.id in old(db.habits) then Fail(ConstraintError)
                   else Pass
      ensures db.habits == if r.Pass? then old(db.habits)[h.id := h] else old(db.habits)
      ensures r.Pass? ==> Refreshed(today)
      ensures r.Fail? ==> habits == old(habits) && isLoading == old(isLoading)
    {
      r := db.AddHabit(h);
      if r.Fail? {
        return;
      }
      LoadTodaysHabits(today);
    }

    method UpdateHabit(h: Habit, today: int) returns (r: Outcome)
      requires Valid()
      modifies this`habits, this`isLoading, db`habits
      ensures Valid()
      ensures r == if old(db.initialized) then Pass else Fail(NotInitialized)
      ensures db.habits == if r.Pass? then old(db.habits)[h.id := h] else old(db.habits)
      ensures r.Pass? ==> Refreshed(today)
      ensures r.Fail? ==> habits == old(habits) && isLoading == old(isLoading)
    {
      r := db.UpdateHabit(h);
      if r.Fail? {
        return;
      }
      LoadTodaysHabits(today);
    }

    method DeleteHabit(id: string, today: int) returns (r: Outcome)
      requires Valid()
      modifies this`habits, this`isLoading, db`habits, db`entries, db`habitDateIndex
      ensures Valid()
      ensures r == if old(db.initialized) then Pass else Fail(NotInitialized)
      ensures db.habits == if r.Pass? then old(db.habits) - {id} else old(db.habits)
      ensures db.entries == if r.Pass? then EntriesWithout(old(db.entries), id) else old(db.entries)
      ensures r.Pass? ==> Refreshed(today)
      ensures r.Fail? ==> habits == old(habits) && isLoading == old(isLoading)
    {
      r := db.DeleteHabit(id);
      if r.Fail? {
        return;
      }
      LoadTodaysHabits(today);
    }

    /** Marks today's entry done (with `value` and the time `now`), creating it
        under `freshId` when there is none, then refreshes. */
    method CompleteHabit(habitId: string, value: Option<int>, today: int, now: int, freshId: string) returns (r: Outcome)
      requires Valid()
      requires freshId !in db.entries
      modifies this`habits, this`isLoading, db`entries, db`habitDateIndex
      ensures Valid()
      ensures r == if old(db.initialized) then Pass else Fail(NotInitialized)
      ensures db.entries == if r.Pass? then CompleteEntries(old(db.entries), old(db.habitDateIndex), habitId, today, value, now, freshId)
                            else old(db.entries)
      ensures db.habitDateIndex == if r.Pass? then CompleteIndex(old(db.entries), old(db.habitDateIndex), habitId, today, value, now, freshId)
                                   else old(db.habitDateIndex)
      ensures r.Pass? ==> Refreshed(today)
      ensures r.Fail? ==> habits == old(habits) && isLoading == old(isLoading)
    {
      var found := db.GetEntry(habitId, today);
      if found.Err? {
        return Fail(found.error);
      }
      var entry: HabitEntry;
      if found.value.Some? {
        entry := found.value.value.(completed := true, value := value, completedAt := Some(now));
      } else {
        entry := HabitEntry(freshId, habitId, today, true, value, Some(now));
      }
      CompletionEntryFits(db.entries, db.habitDateIndex, habitId, today, value, now, freshId);
      // The write cannot be rejected: `entry` keeps the id the index holds for
      // this habit and day, or takes a fresh id for a key the index lacks.
      r := db.AddEntry(entry);
      LoadTodaysHabits(today);
    }

    /** Marks today's entry not done and clears its value and time; without an
        entry for today nothing happens, not even a refresh. */
    method UncompleteHabit(habitId: string, today: int) returns (r: Outcome)
      requires Valid()
      modifies this`habits, this`isLoading, db`entries, db`habitDateIndex
      ensures Valid()
      ensures r == if old(db.initialized) then Pass else Fail(NotInitialized)
      ensures db.entries == if r.Pass? then UncompleteEntries(old(db.entries), old(db.habitDateIndex), habitId, today)
                            else old(db.entries)
      ensures db.habitDateIndex == old(db.habitDateIndex)
      ensures r.Pass? && StoreEntryOn(old(db.entries), old(db.habitDateIndex), habitId, today).Some? ==> Refreshed(today)
      ensures r.Fail? || StoreEntryOn(old(db.entries), old(db.habitDateIndex), habitId, today).None? ==>
        habits == old(habits) && isLoading == old(isLoading)
    {
      var found := db.GetEntry(habitId, today);
      if found.Err? {
        return Fail(found.error);
      }
      r := Pass;
      if found.value.Some? {
        var entry := found.value.value.(completed := false, value := None, completedAt := None);
        ghost var index0 := db.habitDateIndex;
        // The same id under the same key: the write is accepted and the index stays.
        r := db.AddEntry(entry);
        assert db.habitDateIndex == index0;
        LoadTodaysHabits(today);
      }
    }
  }
}
