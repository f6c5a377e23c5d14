/** The 30-day heat map of components/consistency-chart.tsx. Calendar days are
    day numbers and today is a parameter. */
module ConsistencyChart {
  import opened Workouts

  /** One square of the map: the day, how many workouts it has, their total
      minutes and the intensity level the colour is chosen by. */
  datatype DayCell = DayCell(day: int, count: nat, duration: nat, intensity: nat)

  /** The intensity bands: none, light up to 30 minutes, medium up to 60,
      heavy above. */
  function Intensity(totalDuration: nat): (level: nat)
    ensures level <= 3
    ensures level == 0 <==> totalDuration == 0
    ensures level == 1 <==> 0 < totalDuration <= 30
    ensures level == 2 <==> 30 < totalDuration <= 60
    ensures level == 3 <==> 60 < totalDuration
  {
    if totalDuration > 60 then 3
    else if totalDuration > 30 then 2
    else if totalDuration > 0 then 1
    else 0
  }

  /** More minutes never give a lower intensity. */
  lemma IntensityMonotone(a: nat, b: nat)
    requires a <= b
    ensures Intensity(a) <= Intensity(b)
  {
  }

  /** The square of day d. */
  function Cell(ws: seq<Workout>, d: int): (c: DayCell)
    ensures c.day == d
    ensures c.count == 0 ==> c.duration == 0
    ensures c.intensity == 0 <==> c.duration == 0
  {
    var dayWorkouts := OnDay(ws, d);
    DayCell(d, |dayWorkouts|, MinutesOf(dayWorkouts), Intensity(MinutesOf(dayWorkouts)))
  }

  /** The squares of the 30 days ending today, oldest first. */
  function Cells(ws: seq<Workout>, today: int): (cells: seq<DayCell>)
    ensures |cells| == 30
    ensures forall k :: 0 <= k < 30 ==> cells[k] == Cell(ws, today - 29 + k)
  {
    seq(30, k requires 0 <= k < 30 => Cell(ws, today - 29 + k))
  }

  /** The `days` computation: for i from 29 down to 0, the square of the day
      i days before today, its intensity raised by successive thresholds. */
  method ConsistencyDays(ws: seq<Workout>, today: int) returns (days: seq<DayCell>)
    ensures days == Cells(ws, today)
    ensures days[29].day == today
  {
    days := [];
    var i := 29;
    while i >= 0
      invariant -1 <= i <= 29 && |days| == 29 - i
      invariant forall k :: 0 <= k < |days| ==> days[k] == Cell(ws, today - 29 + k)
    {
      var d := today - i;
      var dayWorkouts := OnDay(ws, d);
      var totalDuration := MinutesOf(dayWorkouts);
      var intensity := 0;
      if totalDuration > 0 { intensity := 1; }
      if totalDuration > 30 { intensity := 2; }
      if totalDuration > 60 { intensity := 3; }
      days := days + [DayCell(d, |dayWorkouts|, totalDuration, intensity)];
      i := i - 1;
    }
  }

  function CellCounts(cells: seq<DayCell>): (counts: seq<nat>)
    ensures |counts| == |cells| && forall k :: 0 <= k < |cells| ==> counts[k] == cells[k].count
  {
    seq(|cells|, k requires 0 <= k < |cells| => cells[k].count)
  }

  /** The squares count exactly the workouts dated inside the window, so
      together never more than the whole list. */
  lemma CellCountsInWindow(ws: seq<Workout>, today: int)
    ensures Sum(CellCounts(Cells(ws, today))) == CountInRange(ws, today - 29, today + 1) <= |ws|
  {
    assert CellCounts(Cells(ws, today)) == DayCounts(ws, today - 29, 30);
    DayCountsSum(ws, today - 29, 30);
  }

  /** The map does not depend on the order of the list. */
  lemma CellsPermutation(a: seq<Workout>, b: seq<Workout>, today: int)
    requires multiset(a) == multiset(b)
    ensures Cells(a, today) == Cells(b, today)
  {
    CellsAgree(a, b);
  }

  lemma CellsAgree(a: seq<Workout>, b: seq<Workout>)
    requires multiset(a) == multiset(b)
    ensures forall d :: Cell(a, d) == Cell(b, d)
  {
    forall d {
      OnDayPermutation(a, b, d);
    }
  }

  /** `getIntensityColor`: levels 1 to 3 get their own class, level 0 and any
      other value the empty one. */
  function IntensityColor(intensity: int): string
  {
    match intensity
    case 1 => "bg-[#00D9FF]/40"
    case 2 => "bg-[#00D9FF]/70"
    case 3 => "bg-[#00D9FF]"
    case _ => "bg-slate-800/50"
  }

  lemma IntensityColorsDistinct(a: int, b: int)
    ensures IntensityColor(a) == IntensityColor(b) <==>
              a == b || (a !in {1, 2, 3} && b !in {1, 2, 3})
  {
    var bg0, bg1, bg2, bg3 := "bg-slate-800/50", "bg-[#00D9FF]/40", "bg-[#00D9FF]/70", "bg-[#00D9FF]";
    assert bg0[3] != bg1[3] && bg0[3] != bg2[3] && bg0[3] != bg3[3];
    assert bg1[13] != bg2[13] && |bg1| != |bg3| && |bg2| != |bg3|;
  }
}
