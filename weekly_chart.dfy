/** The seven-day bar chart of components/weekly-chart.tsx. Calendar days are
    day numbers and today is a parameter. */
module WeeklyChart {
  import opened Workouts

  /** One bar: its day and the number of workouts dated that day. */
  datatype Bar = Bar(day: int, workouts: nat)

  /** `chartData`: bar i is the day 6 - i days before today. */
  function WeeklyBars(ws: seq<Workout>, today: int): (bars: seq<Bar>)
    ensures |bars| == 7 && bars[6].day == today
    ensures forall i :: 0 <= i < 7 ==> bars[i].day == today - (6 - i)
  {
    seq(7, i requires 0 <= i < 7 => Bar(today - (6 - i), |OnDay(ws, today - (6 - i))|))
  }

  function BarCounts(bars: seq<Bar>): (counts: seq<nat>)
    ensures |counts| == |bars| && forall k :: 0 <= k < |bars| ==> counts[k] == bars[k].workouts
  {
    seq(|bars|, k requires 0 <= k < |bars| => bars[k].workouts)
  }

  /** The bars count exactly the workouts of the last seven days, so together
      never more than the whole list. */
  lemma WeeklyBarsInWindow(ws: seq<Workout>, today: int)
    ensures Sum(BarCounts(WeeklyBars(ws, today))) == CountInRange(ws, today - 6, today + 1) <= |ws|
  {
    assert BarCounts(WeeklyBars(ws, today)) == DayCounts(ws, today - 6, 7);
    DayCountsSum(ws, today - 6, 7);
  }

  /** The chart does not depend on the order of the list. */
  lemma WeeklyBarsPermutation(a: seq<Workout>, b: seq<Workout>, today: int)
    requires multiset(a) == multiset(b)
    ensures WeeklyBars(a, today) == WeeklyBars(b, today)
  {
    forall i | 0 <= i < 7 ensures WeeklyBars(a, today)[i] == WeeklyBars(b, today)[i] {
      OnDayPermutation(a, b, today - (6 - i));
    }
  }

  /** The bar colour: highlighted for a day with workouts, dark otherwise. */
  function BarFill(bar: Bar): (fill: string)
    ensures fill == "#00D9FF" <==> bar.workouts > 0
  {
    assert "#00D9FF"[1] != "#1e293b"[1];
    if bar.workouts > 0 then "#00D9FF" else "#1e293b"
  }

  /** A bar is highlighted exactly when some workout is dated on its day. */
  lemma HighlightedIffWorkedOut(ws: seq<Workout>, today: int, i: nat)
    requires i < 7
    ensures BarFill(WeeklyBars(ws, today)[i]) == "#00D9FF" <==> AnyOn(ws, today - (6 - i))
  {
    var d := today - (6 - i);
    var dayWorkouts := OnDay(ws, d);
    if AnyOn(ws, d) {
      var w :| w in ws && Day(w) == d;
      assert w in dayWorkouts;
    }
    if |dayWorkouts| > 0 {
      assert dayWorkouts[0] in dayWorkouts;
    }
    assert "#00D9FF"[1] != "#1e293b"[1];
  }
}
