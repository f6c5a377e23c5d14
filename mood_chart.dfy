/** The mood cross-tab of components/mood-chart.tsx: one row per exercise type,
    holding, for every mood that occurs anywhere in the list, how many
    workouts of that type were logged with it; the rows sorted by their
    totals and cut to the top five. */
module MoodChart {
  import opened Workouts
  import opened Tally

  /** `{ name: type, ...moodCounts, total }` */
  datatype Row = Row(name: ExerciseType, moodCounts: seq<Entry<Mood>>, total: nat)

  function RowTotal(row: Row): int
  {
    row.total
  }

  /** `workouts.filter(w => w.type === type)` */
  function OfType(ws: seq<Workout>, t: ExerciseType): (r: seq<Workout>)
    ensures forall w :: w in r <==> w in ws && w.exercise == t
  {
    if ws == [] then []
    else (if ws[0].exercise == t then [ws[0]] else []) + OfType(ws[1..], t)
  }

  /** `typeWorkouts.filter(w => w.mood === mood)` */
  function WithMood(ws: seq<Workout>, m: Mood): (r: seq<Workout>)
    ensures forall w :: w in r <==> w in ws && w.mood == m
  {
    if ws == [] then []
    else (if ws[0].mood == m then [ws[0]] else []) + WithMood(ws[1..], m)
  }

  /** Filtering by type keeps exactly the workouts of that type. */
  lemma {:induction false} OfTypeCount(ws: seq<Workout>, t: ExerciseType)
    ensures |OfType(ws, t)| == Count(Exercises(ws), t)
  {
    if ws != [] {
      OfTypeCount(ws[1..], t);
      assert Exercises(ws) == [ws[0].exercise] + Exercises(ws[1..]);
    }
  }

  /** Filtering by mood keeps exactly the workouts with that mood. */
  lemma {:induction false} WithMoodCount(ws: seq<Workout>, m: Mood)
    ensures |WithMood(ws, m)| == Count(Moods(ws), m)
  {
    if ws != [] {
      WithMoodCount(ws[1..], m);
      assert Moods(ws) == [ws[0].mood] + Moods(ws[1..]);
    }
  }

  /** The `moods.forEach` that fills the mood counts of one exercise type:
      one entry per mood, in the order of `moods`. */
  method CountMoods(typeWorkouts: seq<Workout>, moods: seq<Mood>) returns (moodCounts: seq<Entry<Mood>>)
    ensures moodCounts == CountsOver(Moods(typeWorkouts), moods)
  {
    moodCounts := [];
    for i := 0 to |moods|
      invariant |moodCounts| == i
      invariant forall k :: 0 <= k < i ==> moodCounts[k] == Entry(moods[k], Count(Moods(typeWorkouts), moods[k]))
    {
      WithMoodCount(typeWorkouts, moods[i]);
      moodCounts := moodCounts + [Entry(moods[i], |WithMood(typeWorkouts, moods[i])|)];
    }
    forall k | 0 <= k < |moods|
      ensures moodCounts[k] == CountsOver(Moods(typeWorkouts), moods)[k]
    {
      CountsOverAt(Moods(typeWorkouts), moods, k);
    }
  }

  /** The row of exercise type t, counting against the moods `moods`. */
  function RowOf(ws: seq<Workout>, moods: seq<Mood>, t: ExerciseType): Row
  {
    var typeWorkouts := OfType(ws, t);
    Row(t, CountsOver(Moods(typeWorkouts), moods), |typeWorkouts|)
  }

  /** One row per exercise type, in order of first appearance, before sorting. */
  function AllRows(ws: seq<Workout>): (rows: seq<Row>)
    ensures |rows| == |FirstSeen(Exercises(ws))|
    ensures forall i :: 0 <= i < |rows| ==>
              rows[i] == RowOf(ws, FirstSeen(Moods(ws)), FirstSeen(Exercises(ws))[i])
  {
    var exerciseTypes := FirstSeen(Exercises(ws));
    seq(|exerciseTypes|, i requires 0 <= i < |exerciseTypes| => RowOf(ws, FirstSeen(Moods(ws)), exerciseTypes[i]))
  }

  /** `.slice(0, 5)` */
  function Top5(rows: seq<Row>): (r: seq<Row>)
    ensures |r| == if |rows| < 5 then |rows| else 5
    ensures r == rows[..|r|]
  {
    if |rows| <= 5 then rows else rows[..5]
  }

  /** `data`: the rows sorted by total, largest first (stably), top five kept. */
  function MoodChartData(ws: seq<Workout>): seq<Row>
  {
    Top5(SortDesc(AllRows(ws), RowTotal))
  }

  /** The `data` computation: the map over the exercise types with its inner
      forEach, then the sort and the slice. */
  method MoodChartRows(ws: seq<Workout>) returns (data: seq<Row>)
    ensures data == MoodChartData(ws)
  {
    var rows := TypeRows(ws, FirstSeen(Exercises(ws)), FirstSeen(Moods(ws)));
    assert rows == AllRows(ws);
    data := Top5(SortDesc(rows, RowTotal));
  }

  /** `exerciseTypes.map(type => { ... })`: the unsorted rows. */
  method TypeRows(ws: seq<Workout>, exerciseTypes: seq<ExerciseType>, moods: seq<Mood>) returns (rows: seq<Row>)
    ensures |rows| == |exerciseTypes|
    ensures forall k :: 0 <= k < |rows| ==> rows[k] == RowOf(ws, moods, exerciseTypes[k])
  {
    rows := [];
    for i := 0 to |exerciseTypes|
      invariant |rows| == i
      invariant forall k :: 0 <= k < i ==> rows[k] == RowOf(ws, moods, exerciseTypes[k])
    {
      var t := exerciseTypes[i];
      var typeWorkouts := OfType(ws, t);
      var moodCounts := CountMoods(typeWorkouts, moods);
      rows := rows + [Row(t, moodCounts, |typeWorkouts|)];
    }
  }

  /** `activeMoods`: the forEach adding each workout's mood to a Set, read back
      in insertion order. */
  method ActiveMoods(ws: seq<Workout>) returns (moods: seq<Mood>)
    ensures moods == FirstSeen(Moods(ws))
  {
    moods := [];
    for i := 0 to |ws|
      invariant moods == FirstSeen(Moods(ws[..i]))
    {
      assert Moods(ws[..i + 1]) == Moods(ws[..i]) + [ws[i].mood];
      moods := AddKey(moods, ws[i].mood);
    }
    assert ws[..|ws|] == ws;
  }

  /** The total of the row of type t is that type's number of workouts. */
  lemma RowTotalIsCount(ws: seq<Workout>, moods: seq<Mood>, t: ExerciseType)
    ensures RowOf(ws, moods, t).total == Count(Exercises(ws), t)
  {
    OfTypeCount(ws, t);
  }

  /** Against a duplicate-free list of moods that covers the list's moods, a
      row's mood counts hold every one of those moods once, with the number
      of workouts of its type logged with it, and they add up to its total. */
  lemma RowMoodCounts(ws: seq<Workout>, moods: seq<Mood>, t: ExerciseType)
    requires Distinct(moods) && forall m :: m in Moods(ws) ==> m in moods
    ensures var row := RowOf(ws, moods, t);
            && |row.moodCounts| == |moods|
            && (forall k :: 0 <= k < |moods| ==>
                  row.moodCounts[k] == Entry(moods[k], Count(Moods(OfType(ws, t)), moods[k])))
            && Total(row.moodCounts) == row.total
  {
    var typeWorkouts := OfType(ws, t);
    forall k | 0 <= k < |moods|
      ensures CountsOver(Moods(typeWorkouts), moods)[k] == Entry(moods[k], Count(Moods(typeWorkouts), moods[k]))
    {
      CountsOverAt(Moods(typeWorkouts), moods, k);
    }
    forall m | m in Moods(typeWorkouts) ensures m in moods {
      var j :| 0 <= j < |Moods(typeWorkouts)| && Moods(typeWorkouts)[j] == m;
      assert typeWorkouts[j] in ws;
      var h :| 0 <= h < |ws| && ws[h] == typeWorkouts[j];
      assert Moods(ws)[h] == m;
    }
    CountsOverTotal(Moods(typeWorkouts), moods);
  }

  /** Each row belongs to one type that occurs, and its total is that type's
      number of workouts; its mood counts list every mood in the list once,
      in order of first appearance, each with the number of workouts of this
      type logged with it, and they add up to the total. */
  lemma RowMeaning(ws: seq<Workout>, i: nat)
    requires i < |AllRows(ws)|
    ensures var row := AllRows(ws)[i];
            && row.name in Exercises(ws)
            && row.total == Count(Exercises(ws), row.name) >= 1
            && |row.moodCounts| == |FirstSeen(Moods(ws))|
            && (forall k :: 0 <= k < |row.moodCounts| ==>
                  row.moodCounts[k].key == FirstSeen(Moods(ws))[k]
                  && row.moodCounts[k].count == Count(Moods(OfType(ws, row.name)), row.moodCounts[k].key))
            && Total(row.moodCounts) == row.total
  {
    var moods := FirstSeen(Moods(ws));
    var t := FirstSeen(Exercises(ws))[i];
    assert t in Exercises(ws);
    RowTotalIsCount(ws, moods, t);
    RowMoodCounts(ws, moods, t);
  }

  /** There is one row per distinct exercise type in the list. */
  lemma AllRowsCoverTypes(ws: seq<Workout>)
    ensures forall t :: t in Exercises(ws) <==> exists i :: 0 <= i < |AllRows(ws)| && AllRows(ws)[i].name == t
    ensures forall i, j :: 0 <= i < j < |AllRows(ws)| ==> AllRows(ws)[i].name != AllRows(ws)[j].name
  {
    var types := FirstSeen(Exercises(ws));
    forall t | t in Exercises(ws)
      ensures exists i :: 0 <= i < |AllRows(ws)| && AllRows(ws)[i].name == t
    {
      var i :| 0 <= i < |types| && types[i] == t;
      assert AllRows(ws)[i].name == t;
    }
  }

  /** A prefix of the sorted sequence is sorted, drawn from s, and holds the
      largest keys: whatever it leaves out has a key no larger than any it keeps. */
  lemma SortedPrefixTop<T(!new)>(s: seq<T>, n: nat, key: T -> int)
    requires n <= |s|
    ensures var top := SortDesc(s, key)[..n];
            && SortedDesc(top, key)
            && (forall x :: x in top ==> x in s)
            && (forall x, k :: x in s && x !in top && 0 <= k < n ==> key(x) <= key(top[k]))
  {
    var sorted := SortDesc(s, key);
    var top := sorted[..n];
    forall x | x in top ensures x in s {
      assert x in multiset(sorted);
    }
    forall x, k | x in s && x !in top && 0 <= k < n
      ensures key(x) <= key(top[k])
    {
      assert x in multiset(sorted);
      var j :| 0 <= j < |sorted| && sorted[j] == x;
      assert key(sorted[k]) >= key(sorted[j]);
    }
  }

  /** The chart keeps at most five rows, sorted by total, and it keeps the
      largest: a row left out has no larger total than any row kept. */
  lemma MoodChartDataTop(ws: seq<Workout>)
    ensures var data := MoodChartData(ws);
            && |data| == (if |AllRows(ws)| < 5 then |AllRows(ws)| else 5)
            && SortedDesc(data, RowTotal)
            && (forall r :: r in data ==> r in AllRows(ws))
            && (forall r, k :: r in AllRows(ws) && r !in data && 0 <= k < |data| ==> r.total <= data[k].total)
  {
    var all := AllRows(ws);
    var data := MoodChartData(ws);
    assert data == SortDesc(all, RowTotal)[..|data|];
    SortedPrefixTop(all, |data|, RowTotal);
    assert forall r :: RowTotal(r) == r.total;
  }

  lemma {:induction false} WithKeyAppend<T>(a: seq<T>, b: seq<T>, key: T -> int, v: int)
    ensures WithKey(a + b, key, v) == WithKey(a, key, v) + WithKey(b, key, v)
  {
    if a == [] {
      assert a + b == b;
    } else {
      var x, t := a[0], a[1..];
      assert a == [x] + t;
      assert a + b == [x] + (t + b);
      WithKeyCons(x, t + b, key, v);
      WithKeyCons(x, t, key, v);
      WithKeyAppend(t, b, key, v);
    }
  }

  lemma WithKeyCons<T>(x: T, s: seq<T>, key: T -> int, v: int)
    ensures WithKey([x] + s, key, v) == (if key(x) == v then [x] else []) + WithKey(s, key, v)
  {
    assert ([x] + s)[0] == x && ([x] + s)[1..] == s;
  }

  /** A prefix of the stable sort holds, for each key, a prefix of the
      elements with that key in their original order. */
  lemma SortedPrefixTies<T(!new)>(s: seq<T>, n: nat, key: T -> int, v: int)
    requires n <= |s|
    ensures WithKey(SortDesc(s, key)[..n], key, v) <= WithKey(s, key, v)
  {
    var sorted := SortDesc(s, key);
    var rest := sorted[n..];
    assert sorted == sorted[..n] + rest;
    SortKeepsTies(s, key, v);
    WithKeyAppend(sorted[..n], rest, key, v);
  }

  /** Ties stay in first-appearance order: the kept rows with any given total
      are the first rows with that total, in the order of the types' first
      appearance. */
  lemma MoodChartTies(ws: seq<Workout>, v: int)
    ensures WithKey(MoodChartData(ws), RowTotal, v) <= WithKey(AllRows(ws), RowTotal, v)
  {
    var data := MoodChartData(ws);
    SortedPrefixTies(AllRows(ws), |data|, RowTotal, v);
  }

  /** No workouts is the empty state: no moods, no rows. */
  lemma EmptyState(ws: seq<Workout>)
    ensures ws == [] <==> FirstSeen(Moods(ws)) == []
    ensures ws == [] <==> MoodChartData(ws) == []
  {
    if ws != [] {
      assert Moods(ws)[0] in FirstSeen(Moods(ws));
      assert Exercises(ws)[0] in FirstSeen(Exercises(ws));
    }
  }
}
