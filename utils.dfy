/** Date arithmetic, recurrence rules and the status engine (src/lib/utils.ts).
    A date is an integer day number (day 0 is 1970-01-01, a Thursday) and the
    reference day is a parameter instead of the platform clock. */
module Utils {
  import opened Types

  /** `Date.getDay()`: Sunday = 0 .. Saturday = 6. */
  function JsDay(day: int): (r: int)
    ensures 0 <= r < 7
  {
    (day + 4) % 7
  }

  /** Weekday index with Monday = 0 .. Sunday = 6. */
  function GetWeekDayNumber(day: int): (r: int)
    ensures 0 <= r <= 6
    ensures r == (day + 3) % 7
    ensures JsDay(day) == 1 ==> r == 0
    ensures JsDay(day) == 0 ==> r == 6
  {
    var d := JsDay(day);
    if d == 0 then 6 else d - 1
  }

  /** Calendar arithmetic: on day numbers, month and year rollover disappear.
      A positive count moves forward, a negative one back, zero stays. */
  function AddDays(day: int, n: int): (r: int)
    ensures r > day <==> n > 0
    ensures r < day <==> n < 0
  {
    day + n
  }

  lemma AddDaysLaws(day: int, a: int, b: int)
    ensures AddDays(day, 0) == day
    ensures AddDays(AddDays(day, a), b) == AddDays(day, a + b)
  {
  }

  /** Moving n days forward moves the weekday index n steps round the week. */
  lemma WeekDayAfter(day: int, n: int)
    ensures GetWeekDayNumber(AddDays(day, n)) == (GetWeekDayNumber(day) + n) % 7
  {
    var q := (day + 3) / 7;
    assert day + 3 == 7 * q + GetWeekDayNumber(day);
    assert day + n + 3 == 7 * q + (GetWeekDayNumber(day) + n);
  }

  /** The Monday of the week holding `day`. */
  function GetStartOfWeek(day: int): (r: int)
    ensures GetWeekDayNumber(r) == 0
    ensures r <= day <= r + 6
    ensures r == day - GetWeekDayNumber(day)
  {
    var d := JsDay(day);
    day - d + (if d == 0 then -6 else 1)
  }

  /** `value || 1`: an absent or zero interval counts as one day. */
  function IntervalLength(value: Option<int>): (r: int)
    ensures r != 0
  {
    match value
    case None => 1
    case Some(n) => if n == 0 then 1 else n
  }

  /** Whether `h` is due on `today`. For the interval rule the dividend is never
      negative, where JavaScript's `%` and Dafny's `%` agree also for a
      negative divisor. */
  function IsHabitDueToday(h: Habit, today: int): (r: bool)
    ensures r ==> h.createdAt <= today
  {
    if h.createdAt > today then false
    else
      match h.frequency.kind
      case Daily => true
      case SpecificDays =>
        (match h.frequency.days
         case Some(ds) => GetWeekDayNumber(today) in ds
         case None => false)
      case Interval => (today - h.createdAt) % IntervalLength(h.frequency.value) == 0
      case Weekly => true
      case Monthly => true
  }

  /** The rules per frequency variant, stated from the caller's side. */
  lemma DueRules(h: Habit, today: int)
    requires h.createdAt <= today
    ensures h.frequency.kind in {Daily, Weekly, Monthly} ==> IsHabitDueToday(h, today)
    ensures h.frequency.kind == SpecificDays ==>
      (IsHabitDueToday(h, today) <==> h.frequency.days.Some? && GetWeekDayNumber(today) in h.frequency.days.value)
    ensures h.frequency.kind == Interval ==> IsHabitDueToday(h, h.createdAt)
  {
  }

  /** The k-th due day of an interval habit, counting the creation day as the 0-th. */
  function NthOccurrence(h: Habit, k: nat): int
  {
    h.createdAt + k * Period(h.frequency.value)
  }

  /** The interval length as a number of days, whatever the sign of `value`. */
  function Period(value: Option<int>): (m: nat)
    ensures m > 0
  {
    var n := IntervalLength(value);
    if n < 0 then -n else n
  }

  lemma {:induction false} MultipleGrows(m: nat, t: nat)
    requires t >= 1
    ensures m * t >= m
  {
    if t > 1 {
      MultipleGrows(m, t - 1);
      assert m * t == m * (t - 1) + m;
    }
  }

  /** A nonzero multiple of m is at least m away from zero. */
  lemma {:induction false} MultipleAwayFromZero(m: int, t: int)
    requires m > 0 && t != 0
    ensures m * t >= m || m * t <= -m
  {
    if t > 0 {
      MultipleGrows(m, t);
    } else {
      MultipleGrows(m, -t);
      assert m * t == -(m * (-t));
    }
  }

  /** Euclidean division is determined by its quotient-remainder equation. */
  lemma {:induction false} RemainderUnique(x: int, n: int, q: int, r: int)
    requires n != 0 && 0 <= r < (if n < 0 then -n else n)
    requires x == n * q + r
    ensures x % n == r
  {
    var q0, r0 := x / n, x % n;
    var m := if n < 0 then -n else n;
    var t := if n < 0 then q0 - q else q - q0;
    assert m * t == r0 - r;
    if t != 0 {
      MultipleAwayFromZero(m, t);
    }
  }

  /** For a whole number of days since creation, `days % value == 0` means a
      whole number of periods. */
  lemma {:induction false} DivisibleByPeriod(x: nat, value: Option<int>)
    ensures x % IntervalLength(value) == 0 <==> exists k: nat :: x == k * Period(value)
  {
    var n, m := IntervalLength(value), Period(value);
    if x % n == 0 {
      var q := x / n;
      assert x == n * q;
      var k := if n < 0 then -q else q;
      assert x == m * k;
      assert x == k * m;
    }
    if exists k: nat :: x == k * m {
      var k: nat :| x == k * m;
      var j: int := k;
      if n < 0 {
        assert x == n * (-j) + 0;
        RemainderUnique(x, n, -j, 0);
      } else {
        assert x == n * k + 0;
        RemainderUnique(x, n, k, 0);
      }
    }
  }

  /** An interval habit is due exactly on the creation day plus a whole number of intervals. */
  lemma IntervalDueExactly(h: Habit, today: int)
    requires h.frequency.kind == Interval
    ensures IsHabitDueToday(h, today) <==> exists k: nat :: today == NthOccurrence(h, k)
  {
    if today >= h.createdAt {
      DivisibleByPeriod(today - h.createdAt, h.frequency.value);
      if exists k: nat :: today - h.createdAt == k * Period(h.frequency.value) {
        var k: nat :| today - h.createdAt == k * Period(h.frequency.value);
        assert today == NthOccurrence(h, k);
      }
    }
    if exists k: nat :: today == NthOccurrence(h, k) {
      var k: nat :| today == NthOccurrence(h, k);
      assert k * Period(h.frequency.value) >= 0;
      DivisibleByPeriod(today - h.createdAt, h.frequency.value);
    }
  }

  /** Once created, a specific-days habit repeats weekly. */
  lemma SpecificDaysRepeatWeekly(h: Habit, today: int)
    requires h.frequency.kind == SpecificDays
    requires h.createdAt <= today
    ensures IsHabitDueToday(h, AddDays(today, 7)) == IsHabitDueToday(h, today)
  {
    WeekDayAfter(today, 7);
  }

  /** Array.prototype.find over a list of entries: the first one satisfying `p`. */
  function FindEntry(s: seq<HabitEntry>, p: HabitEntry -> bool): (r: Option<HabitEntry>)
    ensures r.Some? ==> r.value in s && p(r.value)
    ensures r.None? <==> forall e :: e in s ==> !p(e)
    ensures r.Some? ==> exists i :: 0 <= i < |s| && s[i] == r.value && forall j :: 0 <= j < i ==> !p(s[j])
  {
    if s == [] then None
    else if p(s[0]) then Some(s[0])
    else
      var r := FindEntry(s[1..], p);
      assert r.Some? ==> exists i :: 1 <= i < |s| && s[i] == r.value && forall j :: 0 <= j < i ==> !p(s[j]) by {
        if r.Some? {
          var i :| 0 <= i < |s[1..]| && s[1..][i] == r.value && forall j :: 0 <= j < i ==> !p(s[1..][j]);
          assert s[i + 1] == r.value;
          assert forall j :: 0 <= j < i + 1 ==> !p(s[j]) by {
            forall j | 0 <= j < i + 1 ensures !p(s[j]) {
              if j > 0 { assert s[j] == s[1..][j - 1]; }
            }
          }
        }
      }
      r
  }

  /** `entries.find(e => e.date === day)`. */
  function EntryOn(entries: seq<HabitEntry>, day: int): (r: Option<HabitEntry>)
    ensures r.Some? ==> r.value in entries && r.value.date == day
    ensures r.None? <==> forall e :: e in entries ==> e.date != day
  {
    FindEntry(entries, (e: HabitEntry) => e.date == day)
  }

  /** A day counts as done when the first entry dated that day is completed;
      when all entries of that day agree, that is whether the day was completed. */
  function CompletedOn(entries: seq<HabitEntry>, day: int): (r: bool)
    ensures r ==> exists e :: e in entries && e.date == day && e.completed
    ensures (exists e :: e in entries && e.date == day) && (forall e :: e in entries && e.date == day ==> e.completed) ==> r
  {
    match EntryOn(entries, day)
    case Some(e) => e.completed
    case None => false
  }

  /** The completion record of an entry list, day by day. */
  function Completion(entries: seq<HabitEntry>): int -> bool
  {
    day => CompletedOn(entries, day)
  }

  /** The streak walk: from `day` back to creation, count due days that are done,
      skip days that are not due, and stop at the first due day not done. */
  function Streak(h: Habit, done: int -> bool, day: int): (r: nat)
    ensures r <= if day < h.createdAt then 0 else day - h.createdAt + 1
    decreases day - h.createdAt
  {
    if day < h.createdAt then 0
    else if IsHabitDueToday(h, day) then
      (if done(day) then 1 + Streak(h, done, day - 1) else 0)
    else Streak(h, done, day - 1)
  }

  /** Due on `today` and not completed that day: only possible once the habit
      exists, and it breaks the streak at its first step. */
  function IsOverdue(h: Habit, done: int -> bool, today: int): (r: bool)
    ensures r ==> h.createdAt <= today
    ensures r ==> Streak(h, done, today) == 0
  {
    IsHabitDueToday(h, today) && !done(today)
  }

  /** The number of due days in (lo, hi]. */
  function DueDays(h: Habit, lo: int, hi: int): nat
    decreases hi - lo
  {
    if hi <= lo then 0
    else DueDays(h, lo, hi - 1) + (if IsHabitDueToday(h, hi) then 1 else 0)
  }

  /** `b` is where the streak walk from `today` stops: a due day that is not
      done, or a day before creation; every due day after it is done. */
  ghost predicate StreakBoundary(h: Habit, done: int -> bool, today: int, b: int)
  {
    && b <= today
    && (b >= h.createdAt ==> IsHabitDueToday(h, b) && !done(b))
    && (forall d :: b < d <= today && IsHabitDueToday(h, d) ==> done(d))
  }

  /** The streak is the number of due days after the point where the walk stops. */
  lemma {:induction false} StreakCountsDueDays(h: Habit, done: int -> bool, today: int)
    ensures exists b :: StreakBoundary(h, done, today, b) && Streak(h, done, today) == DueDays(h, b, today)
    decreases today - h.createdAt
  {
    if today < h.createdAt || (IsHabitDueToday(h, today) && !done(today)) {
      assert StreakBoundary(h, done, today, today);
    } else {
      StreakCountsDueDays(h, done, today - 1);
      var b :| StreakBoundary(h, done, today - 1, b) && Streak(h, done, today - 1) == DueDays(h, b, today - 1);
      assert StreakBoundary(h, done, today, b);
      assert DueDays(h, b, today) == DueDays(h, b, today - 1) + (if IsHabitDueToday(h, today) then 1 else 0);
    }
  }

  /** The streak depends only on which days are done. */
  lemma {:induction false} StreakCongruent(h: Habit, done1: int -> bool, done2: int -> bool, today: int)
    requires forall d :: done1(d) == done2(d)
    ensures Streak(h, done1, today) == Streak(h, done2, today)
    decreases today - h.createdAt
  {
    if today >= h.createdAt {
      StreakCongruent(h, done1, done2, today - 1);
    }
  }

  datatype HabitStatus = HabitStatus(isOverdue: bool, missedDays: int, currentStreak: int)

  /** getHabitStatus: the overdue test, then the backward streak walk. */
  method GetHabitStatus(h: Habit, entries: seq<HabitEntry>, today: int) returns (status: HabitStatus)
    ensures status.isOverdue == IsOverdue(h, Completion(entries), today)
    ensures status.missedDays == 0
    ensures status.currentStreak == Streak(h, Completion(entries), today)
    ensures status.isOverdue ==> status.currentStreak == 0
    ensures 0 <= status.currentStreak <= if today < h.createdAt then 0 else today - h.createdAt + 1
  {
    var missedDays := 0;
    var todayEntry := EntryOn(entries, today);
    var isOverdue := IsHabitDueToday(h, today) && (todayEntry.None? || !todayEntry.value.completed);
    assert isOverdue == IsOverdue(h, Completion(entries), today);
    var consecutiveDays := WalkStreak(h, entries, today);
    status := HabitStatus(isOverdue, missedDays, consecutiveDays);
  }

  /** The loop of getHabitStatus: from `today` back to creation, count due days
      with a completed entry, skip days not due, stop at a due day not done. */
  method WalkStreak(h: Habit, entries: seq<HabitEntry>, today: int) returns (consecutiveDays: nat)
    ensures consecutiveDays == Streak(h, Completion(entries), today)
  {
    ghost var done := Completion(entries);
    var checkDate := today;
    consecutiveDays := 0;
    while checkDate >= h.createdAt
      invariant checkDate <= today
      invariant Streak(h, done, today) == consecutiveDays + Streak(h, done, checkDate)
      decreases checkDate - h.createdAt
    {
      var entry := EntryOn(entries, checkDate);
      assert done(checkDate) == (entry.Some? && entry.value.completed);
      if IsHabitDueToday(h, checkDate) {
        if entry.Some? && entry.value.completed {
          consecutiveDays := consecutiveDays + 1;
        } else {
          break;
        }
      }
      checkDate := AddDays(checkDate, -1);
    }
  }

  /** A daily habit created on 2024-01-01 (day 19723), done on the 1st to the 5th,
      missed on the 6th and done on the 7th, has a streak of 1 and is not overdue
      on the 7th. */
  lemma DailyScenario(h: Habit, entries: seq<HabitEntry>)
    requires h.frequency.kind == Daily && h.createdAt == 19723
    requires entries == [
      HabitEntry("e1", h.id, 19723, true, None, None), HabitEntry("e2", h.id, 19724, true, None, None),
      HabitEntry("e3", h.id, 19725, true, None, None), HabitEntry("e4", h.id, 19726, true, None, None),
      HabitEntry("e5", h.id, 19727, true, None, None), HabitEntry("e7", h.id, 19729, true, None, None)]
    ensures Streak(h, Completion(entries), 19729) == 1
    ensures !IsOverdue(h, Completion(entries), 19729)
  {
    var done := Completion(entries);
    assert forall e :: e in entries ==> e.completed && e.date != 19728;
    assert !done(19728);
    assert Streak(h, done, 19728) == 0;
    assert entries[5] in entries && entries[5].date == 19729;
    assert done(19729);
    assert Streak(h, done, 19729) == 1 + Streak(h, done, 19728);
  }

  /** A Monday/Wednesday/Friday habit is neither due nor overdue on a Tuesday
      (2024-01-02 is day 19724), whatever its history. */
  lemma SpecificDaysScenario(done: int -> bool, createdAt: int)
    requires createdAt <= 19724
    ensures var h := Habit("h", "Gym", Boolean, HabitFrequency(SpecificDays, None, Some([0, 2, 4])), None, None, createdAt, true);
      !IsHabitDueToday(h, 19724) && !IsOverdue(h, done, 19724)
  {
    assert GetWeekDayNumber(19724) == 1;
  }
}
