/** `calculateEffortStreak` of lib/data.ts: the number of consecutive calendar
    days with at least one workout, counted back from today, or from yesterday
    when today has none yet. "Today" is a parameter (a calendar day number). */
module EffortStreak {
  import opened Workouts

  /** The length of the run of consecutive days of `days` that ends at day d
      (0 when d itself is not in `days`). */
  function RunLength(days: set<int>, d: int): (n: nat)
    ensures n <= |days|
    decreases |days|
  {
    if d in days then 1 + RunLength(days - {d}, d - 1) else 0
  }

  /** Every day of the k days ending at d (d - k + 1 up to d) is in `days`. */
  predicate RunIn(days: set<int>, d: int, k: nat)
  {
    forall x :: d - k < x <= d ==> x in days
  }

  lemma RunInExtend(days: set<int>, d: int, k: nat)
    requires RunIn(days, d, k) && d - k in days
    ensures RunIn(days, d, k + 1)
  {
  }

  /** RunLength(days, d) is exactly the number of days d, d - 1, ... that are
      all in `days` before the first gap. */
  lemma {:induction false} RunLengthIsRun(days: set<int>, d: int)
    ensures RunIn(days, d, RunLength(days, d))
    ensures d - RunLength(days, d) !in days
    decreases |days|
  {
    if d in days {
      var n := RunLength(days - {d}, d - 1);
      RunLengthIsRun(days - {d}, d - 1);
      forall x | d - (n + 1) < x <= d ensures x in days {
        if x < d {
          assert x in days - {d};
        }
      }
    }
  }

  /** A run of k days ending at d that stops at a gap has length RunLength(days, d). */
  lemma RunLengthUnique(days: set<int>, d: int, k: nat)
    requires RunIn(days, d, k)
    requires d - k !in days
    ensures RunLength(days, d) == k
  {
    RunLengthIsRun(days, d);
    var n := RunLength(days, d);
    assert n < k ==> d - n in days;
    assert n > k ==> d - k in days;
  }

  /** Any run of k workout days ending at d is no longer than RunLength(days, d). */
  lemma RunLengthAtLeast(days: set<int>, d: int, k: nat)
    requires RunIn(days, d, k)
    ensures k <= RunLength(days, d)
  {
    RunLengthIsRun(days, d);
    var n := RunLength(days, d);
    assert n < k ==> d - n in days;
  }

  /** The streak the source computes, as a function of the workout days. */
  function EffortStreakOf(ws: seq<Workout>, today: int): nat
  {
    var days := WorkoutDays(ws);
    if today in days then RunLength(days, today)
    else if today - 1 in days then RunLength(days, today - 1)
    else 0
  }

  /** The source loop: look for a workout today, else yesterday (giving 0 when
      neither has one), then step the current day back while it has a workout. */
  method CalculateEffortStreak(ws: seq<Workout>, today: int) returns (streak: nat)
    ensures streak == EffortStreakOf(ws, today)
  {
    if |ws| == 0 {
      return 0;
    }
    ghost var days := WorkoutDays(ws);
    streak := 0;
    var current := today;
    AnyOnMeansWorkoutDay(ws, today);
    var hasWorkoutToday := AnyOn(ws, today);
    if !hasWorkoutToday {
      AnyOnMeansWorkoutDay(ws, today - 1);
      var hasWorkoutYesterday := AnyOn(ws, today - 1);
      if !hasWorkoutYesterday {
        return 0;
      }
      current := current - 1;
    }
    ghost var start := current;
    while true
      invariant current == start - streak
      invariant RunIn(days, start, streak)
      invariant streak <= RunLength(days, start)
      decreases RunLength(days, start) - streak
    {
      AnyOnMeansWorkoutDay(ws, current);
      var hasWorkoutOnDate := AnyOn(ws, current);
      if hasWorkoutOnDate {
        RunInExtend(days, start, streak);
        streak := streak + 1;
        current := current - 1;
        RunLengthAtLeast(days, start, streak);
      } else {
        RunLengthUnique(days, start, streak);
        break;
      }
    }
  }

  /** The empty list has no streak, and neither has a list with no workout
      today or yesterday, whatever earlier days hold. */
  lemma NoStreakCases(ws: seq<Workout>, today: int)
    ensures ws == [] ==> EffortStreakOf(ws, today) == 0
    ensures EffortStreakOf(ws, today) == 0 <==>
              today !in WorkoutDays(ws) && today - 1 !in WorkoutDays(ws)
  {
  }

  /** The streak is the maximal run of consecutive workout days that ends today,
      or yesterday when today is empty; several workouts on one day count once. */
  lemma EffortStreakIsMaximalRun(ws: seq<Workout>, today: int)
    ensures var days := WorkoutDays(ws);
            var start := if today in days then today else today - 1;
            var n := EffortStreakOf(ws, today);
            && RunIn(days, start, n)
            && start - n !in days
  {
    var days := WorkoutDays(ws);
    RunLengthIsRun(days, today);
    RunLengthIsRun(days, today - 1);
  }

  /** Only the set of workout days matters: two lists with the same workout
      days have the same streak, whatever their order or repetitions. */
  lemma EffortStreakDependsOnDaysOnly(a: seq<Workout>, b: seq<Workout>, today: int)
    requires WorkoutDays(a) == WorkoutDays(b)
    ensures EffortStreakOf(a, today) == EffortStreakOf(b, today)
  {
  }

  /** In particular, logging another workout on a day that already has one
      leaves the streak as it is. */
  lemma SameDayKeepsStreak(w: Workout, ws: seq<Workout>, today: int)
    requires exists v :: v in ws && Day(v) == Day(w)
    ensures EffortStreakOf([w] + ws, today) == EffortStreakOf(ws, today)
  {
    assert WorkoutDays([w] + ws) == WorkoutDays(ws);
    EffortStreakDependsOnDaysOnly([w] + ws, ws, today);
  }

  /** The streak never exceeds the number of distinct workout days. */
  lemma EffortStreakBound(ws: seq<Workout>, today: int)
    ensures EffortStreakOf(ws, today) <= |WorkoutDays(ws)|
  {
  }

  /** A copy of w logged at the start of calendar day `day`. */
  function LoggedOn(w: Workout, day: int): (r: Workout)
    ensures Day(r) == day
  {
    w.(stamp := day * MsPerDay)
  }

  /** Workouts on days D, D - 1 and D - 2 give 3 on day D; without D (but with
      D - 1 and D - 2) they give 2; with only D - 3 they give 0. */
  lemma EffortStreakExamples(w: Workout, d: int)
    ensures EffortStreakOf([LoggedOn(w, d), LoggedOn(w, d - 1), LoggedOn(w, d - 2)], d) == 3
    ensures EffortStreakOf([LoggedOn(w, d - 1), LoggedOn(w, d - 2)], d) == 2
    ensures EffortStreakOf([LoggedOn(w, d - 3)], d) == 0
  {
    StreakOfThree(w, d);
    StreakFromYesterday(w, d);
    assert WorkoutDays([LoggedOn(w, d - 3)]) == {d - 3};
  }

  lemma StreakOfThree(w: Workout, d: int)
    ensures EffortStreakOf([LoggedOn(w, d), LoggedOn(w, d - 1), LoggedOn(w, d - 2)], d) == 3
  {
    var days := {d, d - 1, d - 2};
    assert WorkoutDays([LoggedOn(w, d), LoggedOn(w, d - 1), LoggedOn(w, d - 2)]) == days;
    assert RunIn(days, d, 3);
    RunLengthUnique(days, d, 3);
  }

  lemma StreakFromYesterday(w: Workout, d: int)
    ensures EffortStreakOf([LoggedOn(w, d - 1), LoggedOn(w, d - 2)], d) == 2
  {
    var days := {d - 1, d - 2};
    assert WorkoutDays([LoggedOn(w, d - 1), LoggedOn(w, d - 2)]) == days;
    assert RunIn(days, d - 1, 2);
    RunLengthUnique(days, d - 1, 2);
  }
}
