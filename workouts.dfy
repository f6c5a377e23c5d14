/** The record types of lib/data.ts and the per-day views of a workout list that
    the streak, the charts and the context all derive from.

    Time is modelled by integers: a workout's `date` is a millisecond timestamp
    on the local clock, and its calendar day is that timestamp divided by the
    length of a day (rounding down, also before the epoch). */
module Workouts {
  import opened Optional

  datatype ExerciseType = Yoga | Running | HIIT | Walking | Strength | Custom

  datatype Mood = Stressed | Energetic | Tired | Happy | Anxious

  datatype Weather = Sunny | Rainy | Cloudy | Indoors

  /** A logged workout; `date` is kept as its millisecond timestamp. */
  datatype Workout = Workout(
    id: string,
    exercise: ExerciseType,
    duration: nat,
    mood: Mood,
    notes: Option<string>,
    stamp: int)

  function ExerciseName(e: ExerciseType): string
  {
    match e
    case Yoga => "Yoga"
    case Running => "Running"
    case HIIT => "HIIT"
    case Walking => "Walking"
    case Strength => "Strength"
    case Custom => "Custom"
  }

  /** The mood strings of the source, emoji first. */
  function MoodLabel(m: Mood): string
  {
    match m
    case Stressed => "\U{1F630} Stressed"
    case Energetic => "\U{26A1} Energetic"
    case Tired => "\U{1F634} Tired"
    case Happy => "\U{1F60A} Happy"
    case Anxious => "\U{1F61F} Anxious"
  }

  /** Distinct exercises and moods have distinct names, so counting by name
      (as the source's records of counts do) is counting by value. */
  lemma NamesAreDistinct(a: ExerciseType, b: ExerciseType, m: Mood, n: Mood)
    ensures ExerciseName(a) == ExerciseName(b) ==> a == b
    ensures MoodLabel(m) == MoodLabel(n) ==> m == n
  {
  }

  const MsPerDay: int := 86400000

  /** The calendar day of a timestamp (what `setHours(0, 0, 0, 0)` and
      `toDateString()` both identify). */
  function DayOf(stamp: int): (d: int)
    ensures d * MsPerDay <= stamp < (d + 1) * MsPerDay
  {
    stamp / MsPerDay
  }

  function Day(w: Workout): int
  {
    DayOf(w.stamp)
  }

  /** The set of calendar days on which some workout was logged. */
  function WorkoutDays(ws: seq<Workout>): set<int>
  {
    set w | w in ws :: Day(w)
  }

  /** `workouts.some(w => day of w === d)` */
  predicate AnyOn(ws: seq<Workout>, d: int)
  {
    exists w :: w in ws && Day(w) == d
  }

  lemma AnyOnMeansWorkoutDay(ws: seq<Workout>, d: int)
    ensures AnyOn(ws, d) <==> d in WorkoutDays(ws)
  {
    if AnyOn(ws, d) {
      var w :| w in ws && Day(w) == d;
      assert Day(w) in WorkoutDays(ws);
    }
  }

  /** `workouts.filter(w => day of w === d)` */
  function OnDay(ws: seq<Workout>, d: int): (r: seq<Workout>)
    ensures |r| <= |ws|
    ensures forall w :: w in r <==> w in ws && Day(w) == d
  {
    if ws == [] then []
    else (if Day(ws[0]) == d then [ws[0]] else []) + OnDay(ws[1..], d)
  }

  /** `workouts.reduce((acc, w) => acc + w.duration, 0)` */
  function MinutesOf(ws: seq<Workout>): nat
  {
    if ws == [] then 0 else ws[0].duration + MinutesOf(ws[1..])
  }

  function Exercises(ws: seq<Workout>): (r: seq<ExerciseType>)
    ensures |r| == |ws| && forall i :: 0 <= i < |ws| ==> r[i] == ws[i].exercise
  {
    seq(|ws|, i requires 0 <= i < |ws| => ws[i].exercise)
  }

  function Moods(ws: seq<Workout>): (r: seq<Mood>)
    ensures |r| == |ws| && forall i :: 0 <= i < |ws| ==> r[i] == ws[i].mood
  {
    seq(|ws|, i requires 0 <= i < |ws| => ws[i].mood)
  }

  lemma {:induction false} MinutesAppend(a: seq<Workout>, b: seq<Workout>)
    ensures MinutesOf(a + b) == MinutesOf(a) + MinutesOf(b)
  {
    if a == [] {
      assert a + b == b;
    } else {
      assert (a + b)[1..] == a[1..] + b;
      MinutesAppend(a[1..], b);
    }
  }

  /** The total duration does not depend on the order of the list. */
  lemma {:induction false} MinutesPermutation(a: seq<Workout>, b: seq<Workout>)
    requires multiset(a) == multiset(b)
    ensures MinutesOf(a) == MinutesOf(b)
    decreases |a|
  {
    if a != [] {
      var i := FindWorkout(b, a[0]);
      RemoveAt(a, 0);
      RemoveAt(b, i);
      MinutesPermutation(a[..0] + a[1..], b[..i] + b[i + 1..]);
    }
  }

  lemma FindWorkout(b: seq<Workout>, x: Workout) returns (i: int)
    requires x in multiset(b)
    ensures 0 <= i < |b| && b[i] == x
  {
    i :| 0 <= i < |b| && b[i] == x;
  }

  /** Taking the element at index i out of a list removes it from the multiset and its
      minutes from the total. */
  lemma RemoveAt(b: seq<Workout>, i: int)
    requires 0 <= i < |b|
    ensures multiset(b[..i] + b[i + 1..]) == multiset(b) - multiset{b[i]}
    ensures MinutesOf(b) == MinutesOf(b[..i] + b[i + 1..]) + b[i].duration
  {
    Reassemble(b, i);
    SplitAround(b[..i], b[i], b[i + 1..]);
  }

  lemma Reassemble(b: seq<Workout>, i: int)
    requires 0 <= i < |b|
    ensures b[..i] + ([b[i]] + b[i + 1..]) == b
  {
  }

  lemma SplitAround(pre: seq<Workout>, x: Workout, post: seq<Workout>)
    ensures multiset(pre + ([x] + post)) == multiset(pre + post) + multiset{x}
    ensures MinutesOf(pre + ([x] + post)) == MinutesOf(pre + post) + x.duration
  {
    MinutesAppend(pre, [x] + post);
    assert ([x] + post)[1..] == post;
    MinutesAppend(pre, post);
  }

  /** Filtering by day keeps every workout of that day as often as the list has it. */
  lemma {:induction false} OnDayMultiset(ws: seq<Workout>, d: int)
    ensures forall w :: multiset(OnDay(ws, d))[w] == if Day(w) == d then multiset(ws)[w] else 0
  {
    if ws != [] {
      OnDayMultiset(ws[1..], d);
      assert ws == [ws[0]] + ws[1..];
    }
  }

  /** What is logged on a day, and for how long, does not depend on the order
      of the list. */
  lemma OnDayPermutation(a: seq<Workout>, b: seq<Workout>, d: int)
    requires multiset(a) == multiset(b)
    ensures |OnDay(a, d)| == |OnDay(b, d)|
    ensures MinutesOf(OnDay(a, d)) == MinutesOf(OnDay(b, d))
  {
    OnDayMultiset(a, d);
    OnDayMultiset(b, d);
    assert multiset(OnDay(a, d)) == multiset(OnDay(b, d));
    MinutesPermutation(OnDay(a, d), OnDay(b, d));
  }

  /** The number of workouts whose day lies in [lo, hi). */
  function CountInRange(ws: seq<Workout>, lo: int, hi: int): (n: nat)
    ensures n <= |ws|
  {
    if ws == [] then 0
    else (if lo <= Day(ws[0]) < hi then 1 else 0) + CountInRange(ws[1..], lo, hi)
  }

  lemma {:induction false} RangeGrows(ws: seq<Workout>, lo: int, hi: int)
    requires lo <= hi
    ensures CountInRange(ws, lo, hi + 1) == CountInRange(ws, lo, hi) + |OnDay(ws, hi)|
  {
    if ws != [] {
      RangeGrows(ws[1..], lo, hi);
    }
  }

  /** Per-day workout counts of the n consecutive days starting at day lo. */
  function DayCounts(ws: seq<Workout>, lo: int, n: nat): (r: seq<nat>)
    ensures |r| == n && forall k :: 0 <= k < n ==> r[k] == |OnDay(ws, lo + k)|
  {
    seq(n, k requires 0 <= k < n => |OnDay(ws, lo + k)|)
  }

  function Sum(s: seq<nat>): nat
  {
    if s == [] then 0 else Sum(s[..|s| - 1]) + s[|s| - 1]
  }

  /** Summing the per-day counts of a window counts each workout in the window
      once, so the sum never exceeds the length of the list. */
  lemma {:induction false} DayCountsSum(ws: seq<Workout>, lo: int, n: nat)
    ensures Sum(DayCounts(ws, lo, n)) == CountInRange(ws, lo, lo + n) <= |ws|
  {
    if n == 0 {
      CountInRangeEmpty(ws, lo);
    } else {
      assert DayCounts(ws, lo, n)[..n - 1] == DayCounts(ws, lo, n - 1);
      DayCountsSum(ws, lo, n - 1);
      RangeGrows(ws, lo, lo + n - 1);
    }
  }

  lemma {:induction false} CountInRangeEmpty(ws: seq<Workout>, lo: int)
    ensures CountInRange(ws, lo, lo) == 0
  {
    if ws != [] {
      CountInRangeEmpty(ws[1..], lo);
    }
  }

  /** The per-day counts of any window depend only on the multiset of workouts. */
  lemma DayCountsPermutation(a: seq<Workout>, b: seq<Workout>, lo: int, n: nat)
    requires multiset(a) == multiset(b)
    ensures DayCounts(a, lo, n) == DayCounts(b, lo, n)
  {
    forall k | 0 <= k < n ensures DayCounts(a, lo, n)[k] == DayCounts(b, lo, n)[k] {
      OnDayPermutation(a, b, lo + k);
    }
  }

  /** `sampleWorkouts`, seeded at clock reading `now`: five records dated 0, 1,
      2, 3 and 5 days before now, newest first. */
  function SampleWorkouts(now: int): (r: seq<Workout>)
    ensures |r| == 5
  {
    [ Workout("1", HIIT, 30, Energetic, None, now),
      Workout("2", Yoga, 45, Happy, Some("Morning flow session"), now - MsPerDay),
      Workout("3", Running, 25, Energetic, None, now - MsPerDay * 2),
      Workout("4", Strength, 50, Happy, Some("Upper body focus"), now - MsPerDay * 3),
      Workout("5", Walking, 40, Tired, None, now - MsPerDay * 5) ]
  }

  /** Shifting a timestamp by whole days shifts its calendar day by as many. */
  lemma DayShift(stamp: int, k: int)
    ensures DayOf(stamp - MsPerDay * k) == DayOf(stamp) - k
  {
    var d := DayOf(stamp);
    var r := stamp - d * MsPerDay;
    assert 0 <= r < MsPerDay;
    assert stamp - MsPerDay * k == (d - k) * MsPerDay + r;
  }

  /** The seed data covers today, the three days before it, and five days ago. */
  lemma SampleWorkoutDays(now: int)
    ensures WorkoutDays(SampleWorkouts(now))
            == {DayOf(now), DayOf(now) - 1, DayOf(now) - 2, DayOf(now) - 3, DayOf(now) - 5}
  {
    DayShift(now, 0);
    DayShift(now, 1);
    DayShift(now, 2);
    DayShift(now, 3);
    DayShift(now, 5);
    var s := SampleWorkouts(now);
    assert WorkoutDays(s) == {Day(s[0]), Day(s[1]), Day(s[2]), Day(s[3]), Day(s[4])};
  }
}
