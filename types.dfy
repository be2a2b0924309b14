/** The record shapes of the habit tracker (src/lib/types.ts).
    Dates are integer day numbers: day 0 is 1970-01-01, and a habit entry's
    `YYYY-MM-DD` date string is represented by the day number it names. */
module Types {

  datatype Option<+T> = None | Some(value: T)

  /** `type: 'boolean' | 'numerical'` of a habit. */
  datatype HabitKind = Boolean | Numerical

  /** `type` of a `HabitFrequency`. */
  datatype FrequencyType = Daily | Weekly | Monthly | Interval | SpecificDays

  /** `value` is the times per week/month or the interval length in days;
      `days` lists weekday indices, Monday = 0 .. Sunday = 6. */
  datatype HabitFrequency = HabitFrequency(kind: FrequencyType, value: Option<int>, days: Option<seq<int>>)

  /** A habit definition; `createdAt` is the day the habit was created. */
  datatype Habit = Habit(
    id: string,
    name: string,
    kind: HabitKind,
    frequency: HabitFrequency,
    target: Option<int>,
    unit: Option<string>,
    createdAt: int,
    isActive: bool)

  /** One day's completion record of a habit; `completedAt` is a timestamp. */
  datatype HabitEntry = HabitEntry(
    id: string,
    habitId: string,
    date: int,
    completed: bool,
    value: Option<int>,
    completedAt: Option<int>)

  /** The derived view of a habit that the service publishes. */
  datatype HabitWithEntries = HabitWithEntries(
    habit: Habit,
    todayEntry: Option<HabitEntry>,
    isOverdue: bool,
    streak: int)
}
