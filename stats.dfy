/** The figures of the stats page, components/stats.tsx, as functions of the
    workout list (and of today's day number, which the effort streak reads
    from the clock). */
module Stats {
  import opened Optional
  import opened Workouts
  import opened Tally
  import Engine
  import EffortStreak

  lemma MulMonotone(n: nat, a: int, b: int)
    requires a <= b
    ensures n * a <= n * b
  {
    assert n * b - n * a == n * (b - a);
  }

  /** `Math.round(num / den)` for non-negative operands, on exact rationals:
      the integer nearest num/den, a half rounded up. */
  function RoundDiv(num: nat, den: nat): (r: nat)
    requires den > 0
    ensures 2 * num - den < 2 * den * r <= 2 * num + den
  {
    (2 * num + den) / (2 * den)
  }

  /** The rounding sits between the bounds of any interval that holds the
      exact quotient. */
  lemma RoundDivBetween(num: nat, den: nat, lo: nat, hi: nat)
    requires den > 0 && den * lo <= num <= den * hi
    ensures lo <= RoundDiv(num, den) <= hi
  {
    var r := RoundDiv(num, den);
    if r < lo {
      MulMonotone(2 * den, r, lo - 1);
      assert false;
    }
    if r > hi {
      MulMonotone(2 * den, hi + 1, r);
      assert false;
    }
  }

  datatype TotalTime = TotalTime(hours: nat, minutes: nat)

  /** `totalHours` and `remainingMinutes`: the total duration split into whole
      hours and the minutes left over. */
  function TotalTimeOf(ws: seq<Workout>): (t: TotalTime)
    ensures t.minutes < 60 && 60 * t.hours + t.minutes == MinutesOf(ws)
  {
    var totalMinutes := MinutesOf(ws);
    TotalTime(totalMinutes / 60, totalMinutes % 60)
  }

  /** `avgDuration`: the rounded mean duration, 0 for no workouts. */
  function AvgDuration(ws: seq<Workout>): (avg: nat)
    ensures ws == [] ==> avg == 0
    ensures ws != [] ==> 2 * MinutesOf(ws) - |ws| < 2 * |ws| * avg <= 2 * MinutesOf(ws) + |ws|
  {
    if |ws| > 0 then RoundDiv(MinutesOf(ws), |ws|) else 0
  }

  lemma {:induction false} MinutesBounds(ws: seq<Workout>, lo: nat, hi: nat)
    requires forall w :: w in ws ==> lo <= w.duration <= hi
    ensures |ws| * lo <= MinutesOf(ws) <= |ws| * hi
  {
    if ws != [] {
      var tail := ws[1..];
      assert forall w :: w in tail ==> w in ws;
      assert ws[0] in ws;
      MinutesBounds(tail, lo, hi);
      MulSucc(|tail|, lo);
      MulSucc(|tail|, hi);
    }
  }

  lemma MulSucc(n: nat, x: int)
    ensures (n + 1) * x == x + n * x
  {
  }

  /** The average lies between the shortest and the longest duration: within
      any bounds that hold every duration; 0 for an empty list. */
  lemma AvgDurationBetween(ws: seq<Workout>, lo: nat, hi: nat)
    requires forall w :: w in ws ==> lo <= w.duration <= hi
    ensures ws == [] ==> AvgDuration(ws) == 0
    ensures ws != [] ==> lo <= AvgDuration(ws) <= hi
  {
    if ws != [] {
      MinutesBounds(ws, lo, hi);
      RoundDivBetween(MinutesOf(ws), |ws|, lo, hi);
    }
  }

  /** `lastWorkout`: the LAST element of the list. */
  function LastWorkout(ws: seq<Workout>): (last: Option<Workout>)
    ensures last.None? <==> ws == []
    ensures last.Some? ==> last.value in ws && last.value == ws[|ws| - 1]
  {
    if |ws| > 0 then Some(ws[|ws| - 1]) else None
  }

  /** New records are prepended, so the last element is the oldest record:
      one just added is the "last workout" only when the list was empty. */
  lemma LastWorkoutIsOldest(w: Workout, ws: seq<Workout>)
    ensures LastWorkout([w] + ws) == if ws == [] then Some(w) else LastWorkout(ws)
  {
  }

  /** `motivationalMessage` */
  function StatsMessage(ws: seq<Workout>, today: int): (msg: string)
    ensures msg == Engine.StarterMessage <==> EffortStreak.EffortStreakOf(ws, today) == 0
  {
    Engine.MotivationalMessage(EffortStreak.EffortStreakOf(ws, today), LastWorkout(ws))
  }

  /** Hence a short session just logged does not change the message when the
      streak stays the same and an older record exists. */
  lemma NewSessionLeavesMessage(w: Workout, ws: seq<Workout>, today: int)
    requires ws != []
    requires EffortStreak.EffortStreakOf([w] + ws, today) == EffortStreak.EffortStreakOf(ws, today)
    ensures StatsMessage([w] + ws, today) == StatsMessage(ws, today)
  {
    LastWorkoutIsOldest(w, ws);
  }

  /** `moodCounts`: mood to number of workouts, in order of first appearance. */
  function MoodCounts(ws: seq<Workout>): (r: seq<Entry<Mood>>)
    ensures Total(r) == |ws|
  {
    Tally.Tally(Moods(ws))
  }

  /** `commonMood`: the most frequent mood, "N/A" for no workouts. */
  function CommonMood(ws: seq<Workout>): (r: string)
    ensures r == "N/A" <==> ws == []
  {
    MostFrequentIsFirstMax(Moods(ws));
    match MostFrequent(Moods(ws))
    case None => "N/A"
    case Some(m) => MoodLabel(m)
  }

  /** The common mood is a mood of largest count; of those, the one that
      appears first in the list. */
  lemma CommonMoodIsMostFrequent(ws: seq<Workout>)
    ensures ws == [] <==> CommonMood(ws) == "N/A"
    ensures ws != [] ==>
              exists m :: CommonMood(ws) == MoodLabel(m)
                && m in Moods(ws)
                && (forall o :: Count(Moods(ws), o) <= Count(Moods(ws), m))
                && (forall o :: o in Moods(ws) && Count(Moods(ws), o) == Count(Moods(ws), m) ==>
                      IndexOf(Moods(ws), m) <= IndexOf(Moods(ws), o))
  {
    MostFrequentIsFirstMax(Moods(ws));
    if ws != [] {
      var m := MostFrequent(Moods(ws)).value;
      assert CommonMood(ws) == MoodLabel(m);
      assert MoodLabel(m) != "N/A";
    }
  }

  /** `exerciseCounts` */
  function ExerciseCounts(ws: seq<Workout>): (r: seq<Entry<ExerciseType>>)
    ensures Total(r) == |ws|
  {
    Tally.Tally(Exercises(ws))
  }

  /** One line of the exercise breakdown: type, count and rounded percentage. */
  datatype BreakdownRow = BreakdownRow(exercise: ExerciseType, count: nat, percentage: nat)

  /** `Math.round((count / workouts.length) * 100)`, on exact rationals. */
  function Percentage(count: nat, n: nat): (p: nat)
    ensures n == 0 ==> p == 0
    ensures n > 0 ==> 200 * count - n < 2 * n * p <= 200 * count + n
    ensures count <= n ==> p <= 100
  {
    if n == 0 then 0
    else
      var p := RoundDiv(100 * count, n);
      assert count <= n ==> p <= 100 by {
        if count <= n {
          MulMonotone(100, count, n);
          RoundDivBetween(100 * count, n, 0, 100);
        }
      }
      p
  }

  function Breakdown(ws: seq<Workout>): (rows: seq<BreakdownRow>)
    ensures |rows| == |ExerciseCounts(ws)|
  {
    var counts := ExerciseCounts(ws);
    seq(|counts|, i requires 0 <= i < |counts| =>
      BreakdownRow(counts[i].key, counts[i].count, Percentage(counts[i].count, |ws|)))
  }

  function PercentSum(rows: seq<BreakdownRow>): nat
  {
    if rows == [] then 0 else rows[0].percentage + PercentSum(rows[1..])
  }

  function CountSum(rows: seq<BreakdownRow>): nat
  {
    if rows == [] then 0 else rows[0].count + CountSum(rows[1..])
  }

  lemma Distribute(m: int, x: int, y: int)
    ensures m * (x + y) == m * x + m * y
  {
  }

  /** Rows whose percentage is within a half of 100 * count / n add up to
      within a half per row of 100 * (their counts) / n. */
  lemma {:induction false} PercentSumBounds(rows: seq<BreakdownRow>, n: nat)
    requires n > 0
    requires forall r :: r in rows ==>
               200 * r.count - n < 2 * n * r.percentage <= 200 * r.count + n
    ensures 200 * CountSum(rows) - |rows| * n <= 2 * n * PercentSum(rows) <= 200 * CountSum(rows) + |rows| * n
  {
    if rows != [] {
      var head, tail := rows[0], rows[1..];
      assert forall r :: r in tail ==> r in rows;
      PercentSumBounds(tail, n);
      assert head in rows;
      Distribute(2 * n, head.percentage, PercentSum(tail));
      Distribute(n, 1, |tail|);
      assert |rows| * n == n * (1 + |tail|);
    }
  }

  lemma {:induction false} CountSumIsTotal(ws: seq<Workout>, rows: seq<BreakdownRow>, es: seq<Entry<ExerciseType>>)
    requires |rows| == |es| && forall i :: 0 <= i < |es| ==> rows[i].count == es[i].count
    ensures CountSum(rows) == Total(es)
  {
    if rows != [] {
      CountSumIsTotal(ws, rows[1..], es[1..]);
    }
  }

  lemma CountAtMostLength<T(!new)>(xs: seq<T>, x: T)
    ensures Count(xs, x) <= |xs|
  {
    assert multiset(xs)[x] <= |multiset(xs)|;
  }

  /** Row i of the breakdown is the i-th distinct exercise with its count and
      a percentage in 0..100. */
  lemma BreakdownRowAt(ws: seq<Workout>, i: nat)
    requires i < |Breakdown(ws)|
    ensures i < |FirstSeen(Exercises(ws))|
    ensures var row := Breakdown(ws)[i];
            && row.exercise == FirstSeen(Exercises(ws))[i]
            && row.count == Count(Exercises(ws), row.exercise) >= 1
            && row.percentage <= 100
  {
    var xs := Exercises(ws);
    var keys := FirstSeen(xs);
    var row := Breakdown(ws)[i];
    TallyMeaning(xs);
    CountsOverAt(xs, keys, i);
    assert keys[i] in xs;
    CountAtMostLength(xs, keys[i]);
    if |ws| > 0 {
      RoundDivBetween(100 * row.count, |ws|, 0, 100);
    }
  }

  /** The rounded percentages add up to 100, give or take a half per row. */
  lemma PercentagesNearHundred(ws: seq<Workout>)
    requires ws != []
    ensures 200 - |Breakdown(ws)| <= 2 * PercentSum(Breakdown(ws)) <= 200 + |Breakdown(ws)|
  {
    var rows := Breakdown(ws);
    var n := |ws|;
    CountSumIsTotal(ws, rows, ExerciseCounts(ws));
    forall r | r in rows
      ensures 200 * r.count - n < 2 * n * r.percentage <= 200 * r.count + n
    {
      var i :| 0 <= i < |rows| && rows[i] == r;
    }
    PercentSumBounds(rows, n);
    CancelFactor(n, |rows|, PercentSum(rows));
  }

  lemma CancelFactor(n: nat, k: nat, p: nat)
    requires n > 0 && 200 * n - k * n <= 2 * n * p <= 200 * n + k * n
    ensures 200 - k <= 2 * p <= 200 + k
  {
    assert n * (2 * p - 200 + k) == 2 * n * p - (200 * n - k * n);
    assert n * (200 + k - 2 * p) == 200 * n + k * n - 2 * n * p;
    NonNegativeFactor(n, 2 * p - 200 + k);
    NonNegativeFactor(n, 200 + k - 2 * p);
  }

  lemma NonNegativeFactor(n: nat, x: int)
    requires n > 0 && n * x >= 0
    ensures x >= 0
  {
    if x < 0 {
      MulMonotone(n, x, -1);
    }
  }

  /** The breakdown lists each logged exercise once, in order of first
      appearance, with its number of workouts; the counts add up to the number
      of workouts, every percentage lies in 0..100, and the percentages add up
      to 100 up to a half per row. */
  lemma BreakdownMeaning(ws: seq<Workout>)
    ensures var rows := Breakdown(ws);
            && |rows| == |FirstSeen(Exercises(ws))|
            && (forall i :: 0 <= i < |rows| ==>
                  rows[i].exercise == FirstSeen(Exercises(ws))[i]
                  && rows[i].count == Count(Exercises(ws), rows[i].exercise) >= 1
                  && rows[i].percentage <= 100)
            && CountSum(rows) == |ws|
            && (ws != [] ==> 200 - |rows| <= 2 * PercentSum(rows) <= 200 + |rows|)
  {
    var rows := Breakdown(ws);
    TallyMeaning(Exercises(ws));
    forall i | 0 <= i < |rows|
      ensures rows[i].exercise == FirstSeen(Exercises(ws))[i]
      ensures rows[i].count == Count(Exercises(ws), rows[i].exercise) >= 1
      ensures rows[i].percentage <= 100
    {
      BreakdownRowAt(ws, i);
    }
    CountSumIsTotal(ws, rows, ExerciseCounts(ws));
    if ws != [] {
      PercentagesNearHundred(ws);
    }
  }
}
