/** The record store of components/fitness-context.tsx: the workout list, the
    two operations that replace it, and the values the context derives from it.
    The clock (`Date.now()`, `new Date().getHours()`) is a parameter. */
module FitnessContext {
  import opened Optional
  import opened Workouts
  import opened Tally
  import Decimal
  import EffortStreak

  /** `{ ...workout, id: Date.now().toString(), date: new Date().toISOString() }`:
      the caller's fields are copied, then the id and the date are overwritten
      from the clock. */
  function Stamped(entry: Workout, now: nat): (w: Workout)
    ensures w.exercise == entry.exercise && w.duration == entry.duration
    ensures w.mood == entry.mood && w.notes == entry.notes
    ensures w.id == Decimal.NatToString(now) && w.stamp == now
  {
    entry.(id := Decimal.NatToString(now), stamp := now)
  }

  /** Whatever id and date the caller passes, the new record is the same. */
  lemma StampedIgnoresCallerIdAndDate(a: Workout, b: Workout, now: nat)
    requires a.exercise == b.exercise && a.duration == b.duration
    requires a.mood == b.mood && a.notes == b.notes
    ensures Stamped(a, now) == Stamped(b, now)
  {
  }

  /** `workouts.filter((w) => w.id !== id)` */
  function WithoutId(ws: seq<Workout>, id: string): (r: seq<Workout>)
    ensures |r| <= |ws|
    ensures forall w :: w in r <==> w in ws && w.id != id
  {
    if ws == [] then []
    else (if ws[0].id != id then [ws[0]] else []) + WithoutId(ws[1..], id)
  }

  /** Deleting removes every copy of each record with that id and keeps every
      copy of each other record. */
  lemma {:induction false} WithoutIdCounts(ws: seq<Workout>, id: string)
    ensures forall w :: Count(WithoutId(ws, id), w) == if w.id == id then 0 else Count(ws, w)
  {
    if ws != [] {
      WithoutIdCounts(ws[1..], id);
      assert ws == [ws[0]] + ws[1..];
    }
  }

  /** Deleting works piecewise, so the remaining records keep their relative order. */
  lemma {:induction false} WithoutIdAppend(a: seq<Workout>, b: seq<Workout>, id: string)
    ensures WithoutId(a + b, id) == WithoutId(a, id) + WithoutId(b, id)
  {
    if a == [] {
      assert a + b == b;
    } else {
      assert (a + b)[1..] == a[1..] + b;
      WithoutIdAppend(a[1..], b, id);
    }
  }

  /** Deleting an id that no record has changes nothing. */
  lemma {:induction false} WithoutAbsentId(ws: seq<Workout>, id: string)
    requires forall w :: w in ws ==> w.id != id
    ensures WithoutId(ws, id) == ws
  {
    if ws != [] {
      WithoutAbsentId(ws[1..], id);
      assert ws == [ws[0]] + ws[1..];
    }
  }

  /** Deleting the same id twice is deleting it once. */
  lemma WithoutIdIdempotent(ws: seq<Workout>, id: string)
    ensures WithoutId(WithoutId(ws, id), id) == WithoutId(ws, id)
  {
    WithoutAbsentId(WithoutId(ws, id), id);
  }

  /** Deleting the id of a record just added removes it again; when no older
      record has the same id (ids are clock readings in milliseconds), the list
      is back where it was. */
  lemma DeleteUndoesAdd(entry: Workout, now: nat, ws: seq<Workout>)
    requires forall w :: w in ws ==> w.id != Decimal.NatToString(now)
    ensures WithoutId([Stamped(entry, now)] + ws, Decimal.NatToString(now)) == ws
  {
    WithoutAbsentId(ws, Decimal.NatToString(now));
    assert ([Stamped(entry, now)] + ws)[1..] == ws;
  }

  /** The workout list the provider holds. */
  class Store {
    var workouts: seq<Workout>

    /** The first load: the stored list, or the sample workouts when the
        storage key is absent. */
    constructor (stored: Option<seq<Workout>>, now: int)
      ensures workouts == if stored.Some? then stored.value else SampleWorkouts(now)
    {
      workouts := if stored.Some? then stored.value else SampleWorkouts(now);
    }

    /** `addWorkout`: the new record goes in front, the older ones follow unchanged. */
    method AddWorkout(entry: Workout, now: nat)
      modifies this
      ensures workouts == [Stamped(entry, now)] + old(workouts)
      ensures |workouts| == |old(workouts)| + 1 && workouts[1..] == old(workouts)
    {
      var newWorkout := Stamped(entry, now);
      workouts := [newWorkout] + workouts;
    }

    /** `deleteWorkout`: every record with that id goes, the rest keep their order. */
    method DeleteWorkout(id: string)
      modifies this
      ensures workouts == WithoutId(old(workouts), id)
    {
      workouts := WithoutId(workouts, id);
    }
  }

  /** `totalWorkouts` */
  function TotalWorkouts(ws: seq<Workout>): (n: nat)
    ensures n == Total(Tally.Tally(Exercises(ws)))
  {
    |ws|
  }

  /** `thisWeekWorkouts`: records dated no earlier than seven days before now. */
  function ThisWeekWorkouts(ws: seq<Workout>, now: int): (n: nat)
    ensures n <= TotalWorkouts(ws)
    ensures n == TotalWorkouts(ws) <==> forall w :: w in ws ==> w.stamp >= now - 7 * MsPerDay
  {
    if ws == [] then 0
    else
      assert forall w :: w in ws <==> w == ws[0] || w in ws[1..];
      (if ws[0].stamp >= now - 7 * MsPerDay then 1 else 0) + ThisWeekWorkouts(ws[1..], now)
  }

  /** `favoriteExercise`: the most logged exercise, "None yet" for no workouts. */
  function FavoriteExercise(ws: seq<Workout>): (r: string)
    ensures r == "None yet" <==> ws == []
  {
    MostFrequentIsFirstMax(Exercises(ws));
    match MostFrequent(Exercises(ws))
    case None => "None yet"
    case Some(e) => ExerciseName(e)
  }

  /** The favourite is an exercise logged most often; among equally frequent
      ones, the one logged first in list order (the first key of the record of
      counts, which the stable sort keeps in front). */
  lemma FavoriteExerciseIsMostLogged(ws: seq<Workout>)
    ensures ws == [] <==> FavoriteExercise(ws) == "None yet"
    ensures ws != [] ==>
              exists e :: FavoriteExercise(ws) == ExerciseName(e)
                && e in Exercises(ws)
                && (forall f :: Count(Exercises(ws), f) <= Count(Exercises(ws), e))
                && (forall f :: f in Exercises(ws) && Count(Exercises(ws), f) == Count(Exercises(ws), e) ==>
                      IndexOf(Exercises(ws), e) <= IndexOf(Exercises(ws), f))
  {
    MostFrequentIsFirstMax(Exercises(ws));
    if ws != [] {
      var e := MostFrequent(Exercises(ws)).value;
      assert FavoriteExercise(ws) == ExerciseName(e);
      assert ExerciseName(e) != "None yet";
    }
  }

  /** The context's `streak`: the number of distinct days with workouts. */
  function UniqueDaysStreak(ws: seq<Workout>): (n: nat)
    ensures n == 0 <==> ws == []
  {
    assert ws != [] ==> Day(ws[0]) in WorkoutDays(ws);
    var uniqueDays := |WorkoutDays(ws)|;
    if uniqueDays > 0 then uniqueDays else 0
  }

  /** It is 0 exactly for an empty list, and it never falls below the effort
      streak of lib/data.ts. */
  lemma UniqueDaysStreakBounds(ws: seq<Workout>, today: int)
    ensures UniqueDaysStreak(ws) == 0 <==> ws == []
    ensures EffortStreak.EffortStreakOf(ws, today) <= UniqueDaysStreak(ws)
  {
    if ws != [] {
      assert Day(ws[0]) in WorkoutDays(ws);
    }
  }

  /** The two streaks differ: workouts today and three days ago make a unique
      day count of 2 but an effort streak of 1. */
  lemma StreaksDiffer(w: Workout, today: int)
    ensures var ws := [w.(stamp := today * MsPerDay), w.(stamp := (today - 3) * MsPerDay)];
            UniqueDaysStreak(ws) == 2 && EffortStreak.EffortStreakOf(ws, today) == 1
  {
    var ws := [w.(stamp := today * MsPerDay), w.(stamp := (today - 3) * MsPerDay)];
    assert Day(ws[0]) == today && Day(ws[1]) == today - 3;
    assert WorkoutDays(ws) == {today, today - 3};
    assert EffortStreak.RunIn({today, today - 3}, today, 1);
    EffortStreak.RunLengthUnique({today, today - 3}, today, 1);
  }

  /** On the seed data, the context shows 5 days while the effort streak of the
      stats page is 4: today and the three days before it, five days ago being
      cut off by the gap four days ago. */
  lemma SampleStreaks(now: int)
    ensures UniqueDaysStreak(SampleWorkouts(now)) == 5
    ensures EffortStreak.EffortStreakOf(SampleWorkouts(now), DayOf(now)) == 4
  {
    var d := DayOf(now);
    SampleWorkoutDays(now);
    FiveDays(d);
    SampleRun(d);
  }

  lemma FiveDays(d: int)
    ensures |{d, d - 1, d - 2, d - 3, d - 5}| == 5
  {
    assert {d, d - 1, d - 2, d - 3, d - 5} == {d, d - 1, d - 2, d - 3} + {d - 5};
    assert {d, d - 1, d - 2, d - 3} == {d, d - 1, d - 2} + {d - 3};
    assert {d, d - 1, d - 2} == {d, d - 1} + {d - 2};
  }

  lemma SampleRun(d: int)
    ensures EffortStreak.RunLength({d, d - 1, d - 2, d - 3, d - 5}, d) == 4
  {
    var days := {d, d - 1, d - 2, d - 3, d - 5};
    assert EffortStreak.RunIn(days, d, 4);
    EffortStreak.RunLengthUnique(days, d, 4);
  }

  /** `getSuggestion`: three bands of the hour of day. */
  function ContextSuggestion(hour: int): (s: string)
    ensures hour < 12 <==> s == "Morning Energizer"
    ensures 12 <= hour < 17 <==> s == "Afternoon Power Session"
    ensures 17 <= hour <==> s == "Evening Relaxation Yoga"
  {
    if hour < 12 then "Morning Energizer"
    else if hour < 17 then "Afternoon Power Session"
    else "Evening Relaxation Yoga"
  }
}
