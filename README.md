# Fitness tracker statistics core, in Dafny

This project models the logic layer of a browser fitness tracker. The tracker holds a list
of logged workouts: type, duration in minutes, mood, optional notes and a timestamp. From
that list it derives the figures it shows. The model covers all of them:

- the suggestion engine, the effort streak and the motivational message of `lib/data.ts`;
- the record store of `components/fitness-context.tsx`, with its add and delete operations
  and its derived values: totals, this week's count, the favourite exercise, the day-count
  "streak" and the three-band suggestion;
- the statistics page, `components/stats.tsx`: total time, average duration, the message,
  the most common mood, and the exercise breakdown with percentages;
- the countdown dialog, `components/workout-timer.tsx`, as a class with an invariant;
- the 30-day consistency map, the 7-day bar chart and the mood cross-tab chart;
- the four-state weather switch.

Time is modelled with integers:

- A workout's date is a millisecond timestamp on the local clock.
- Its calendar day is that timestamp divided by 86400000, rounding down.
- The current time (`now`), the current day (`today`) and the hour of day are parameters.

Module layout, one module per source file:

| module | source |
|---|---|
| `Workouts` | record types, per-day views of the list, sample data |
| `Engine` | suggestion and message rules |
| `EffortStreak` | the streak loop and its specification |
| `FitnessContext` | the store class and its derived values |
| `Stats` | the stats page |
| `WorkoutTimer` | the countdown dialog |
| `ConsistencyChart` | the 30-day consistency map |
| `WeeklyChart` | the 7-day bar chart |
| `MoodChart` | the mood cross-tab chart |
| `WeatherWidget` | the weather switch |

Three shared modules serve the others:

- `Tally` models a `reduce` into an insertion-ordered record of counts, `Array.from(new Set(…))`, ECMAScript's stable sort and "first entry after sorting".
- `Decimal` models `toString()` and `padStart(2, "0")`, with a reading-back function.
- `Optional` defines the Option type.

Three behaviours of the code are modelled as written:

- New records are prepended (`components/fitness-context.tsx:41`), so the store lists them newest first. The stats page, however, passes the *last* element to the message as the "last workout" (`components/stats.tsx:22`). That element is the *oldest* record. `Stats.LastWorkoutIsOldest` and `Stats.NewSessionLeavesMessage` state the consequence.
- The context's `streak` (`components/fitness-context.tsx:70-71`) is the number of distinct workout days, not a run of consecutive days.
  - `FitnessContext.StreaksDiffer` shows an input on which it differs from the effort streak.
  - `FitnessContext.SampleStreaks` gives the values on the seed data: 5 and 4.
- The countdown has no separate paused or completed state. A timer is idle or running, plus the seconds left. A timer that reaches zero is stopped by the second effect (`components/workout-timer.tsx:77-79`). The model follows the code.

## Model

| member | source | states |
|---|---|---|
| Workouts.DayOf | lib/data.ts:121-123 | The calendar day d of a timestamp satisfies d·86400000 ≤ stamp < (d+1)·86400000. This is the day that normalising to midnight identifies. |
| Workouts.AnyOnMeansWorkoutDay | lib/data.ts:120-124 | The `some` test for a day holds exactly when that day is in the set of workout days. |
| Workouts.OnDay | components/consistency-chart.tsx:24 | The per-day filter keeps exactly the workouts whose calendar day is that day. |
| Workouts.OnDayPermutation | components/consistency-chart.tsx:24-27 | A day's workout count and its total minutes do not depend on the order of the list. |
| Workouts.MinutesPermutation | components/stats.tsx:13 | The summed duration does not depend on the order of the list. |
| Workouts.MinutesOf | components/stats.tsx:13 | The summed duration of a list; it splits over concatenation (Workouts.MinutesAppend) and ignores order (Workouts.MinutesPermutation). |
| Workouts.DayCountsSum | components/consistency-chart.tsx:18-24 | The per-day counts of a window of consecutive days add up to the number of workouts dated inside the window. That is at most the list length. |
| Workouts.DayCountsPermutation | components/weekly-chart.tsx:14-26 | The per-day counts of any window depend only on the multiset of workouts. |
| Workouts.SampleWorkouts | lib/data.ts:14-52 | The seed list has five records. |
| Workouts.SampleWorkoutDays | lib/data.ts:14-52 | The seed records fall on today, the three days before it and five days ago. |
| Workouts.NamesAreDistinct | lib/data.ts:1-3 | Different exercise types have different names, and different moods have different labels. So counting by name is counting by value. |
| Tally.Tally | components/stats.tsx:26-32 | The counts of the record built by the reduce add up to the list length. |
| Tally.TallyMeaning | components/stats.tsx:26-32 | The reduce yields one entry per distinct element, in order of first appearance, holding that element's number of occurrences. |
| Tally.FirstSeen | components/mood-chart.tsx:13-14 | `Array.from(new Set(xs))` holds each element of xs exactly once, and nothing else. |
| Tally.FirstSeenOrder | components/mood-chart.tsx:43-44 | The Set keeps its elements in order of first appearance in xs. |
| Tally.CountsOverTotal | components/mood-chart.tsx:20-22 | Counting against a duplicate-free list of keys that covers every element accounts for each element once. |
| Tally.SortDesc | components/mood-chart.tsx:29 | The sort is a permutation, has the same length, and is in non-increasing key order. |
| Tally.SortKeepsTies | components/mood-chart.tsx:29 | The sort is stable: for every key value, the elements with that key keep their relative order. |
| Tally.SortHead | components/fitness-context.tsx:65 | The first element after sorting is the earliest element with the largest key. |
| Tally.MostFrequentIsFirstMax | components/fitness-context.tsx:57-65 | "First entry of the sorted counts" is None exactly for the empty list. Otherwise it is an element of largest count, and among those the one that appears first. |
| Tally.MostFrequent | components/fitness-context.tsx:65 | The first key of the counts after the descending sort; its meaning is stated by Tally.MostFrequentIsFirstMax. |
| Decimal.NatToString | lib/data.ts:164 | `n.toString()` is a non-empty digit string. It has no leading zero and one digit exactly below 10. |
| Decimal.NatToStringRoundTrip | components/fitness-context.tsx:38 | Reading the digits back gives the number. |
| Decimal.PadStart2 | components/workout-timer.tsx:110 | `padStart(2, "0")` yields at least two characters: the original string preceded by zeros. |
| Decimal.PadStart2Value | components/workout-timer.tsx:110 | Padding does not change the number a digit string reads as. |
| Decimal.TwoDigits | components/workout-timer.tsx:108-110 | Below 100, the padded rendering is exactly two digits that read back as the number. |
| Engine.WorkoutSuggestion | lib/data.ts:75-105 | The decision table is total and always yields one of its twelve labels. |
| Engine.RainyIgnoresHour | lib/data.ts:77-80 | With rain, the hour plays no part. Energetic gives "Indoor HIIT Blast" and anything else gives "Cozy Home Yoga". |
| Engine.IndoorsIsFixed | lib/data.ts:82-84 | Staying indoors gives "Living Room Strength" for every hour and mood. |
| Engine.SunnyOverridesMood | lib/data.ts:86-90 | With sun the mood plays no part, even a stressed one. The bands are before 10, after 17 and mid-day, so hour 17 is mid-day. |
| Engine.CloudyIsNoWeather | lib/data.ts:86-98 | Cloudy weather behaves exactly like no weather. |
| Engine.MoodThenTimeBands | lib/data.ts:92-104 | Without an overriding weather: Stressed or Anxious gives "Calming Yoga Flow", then Tired gives "Light Walking", then the bands before 10, 14 and 18 apply. |
| Engine.SuggestionExamples | lib/data.ts:75-105 | Four worked inputs: rain with energy, rain when happy, a sunny morning, a stressed evening. |
| Engine.ShortSessionMessage | lib/data.ts:164 | The template starts with "Did " followed by digits that read back as the duration. |
| Engine.MessageRules | lib/data.ts:160-171 | Streak 0 gives the starter text whatever the last workout. Otherwise a last session under 15 minutes wins over any streak length, then ≥ 7, then ≥ 3, then the generic text. |
| Engine.MotivationalMessage | lib/data.ts:160-171 | The starter text comes out exactly when the streak is 0; the order of the remaining rules is stated by Engine.MessageRules. |
| EffortStreak.RunLengthIsRun | lib/data.ts:142-155 | The counted run is a run of consecutive workout days, and the day before it has no workout. |
| EffortStreak.CalculateEffortStreak | lib/data.ts:107-158 | The loop terminates and returns the effort streak. |
| EffortStreak.NoStreakCases | lib/data.ts:108 | The streak is 0 for the empty list. It is 0 exactly when neither today nor yesterday has a workout, whatever earlier days hold. |
| EffortStreak.EffortStreakIsMaximalRun | lib/data.ts:116-155 | The streak is the maximal run of consecutive workout days ending today, or yesterday when today has none. |
| EffortStreak.EffortStreakDependsOnDaysOnly | lib/data.ts:110-147 | Lists with the same set of workout days have the same streak, whatever the order or repetitions. |
| EffortStreak.SameDayKeepsStreak | lib/data.ts:116-147 | Logging another workout on a day that already has one leaves the streak unchanged. |
| EffortStreak.EffortStreakBound | lib/data.ts:141-155 | The streak never exceeds the number of distinct workout days. |
| EffortStreak.EffortStreakExamples | lib/data.ts:107-158 | Days D, D−1, D−2 give 3. Days D−1, D−2 give 2. Only D−3 gives 0. |
| FitnessContext.Stamped | components/fitness-context.tsx:35-40 | The new record keeps the caller's type, duration, mood and notes. Its id is the clock reading in decimal and its date is the clock reading. |
| FitnessContext.StampedIgnoresCallerIdAndDate | components/fitness-context.tsx:36-40 | Whatever id and date the caller supplies, the new record is the same. |
| FitnessContext.WithoutId | components/fitness-context.tsx:45 | The filter keeps exactly the records whose id differs. |
| FitnessContext.WithoutIdCounts | components/fitness-context.tsx:45 | Every copy of a record with that id goes, and every copy of every other record stays. |
| FitnessContext.WithoutIdAppend | components/fitness-context.tsx:45 | Deleting distributes over concatenation, so the remaining records keep their relative order. |
| FitnessContext.WithoutAbsentId | components/fitness-context.tsx:44-46 | Deleting an id no record has changes nothing. |
| FitnessContext.WithoutIdIdempotent | components/fitness-context.tsx:44-46 | Deleting twice is deleting once. |
| FitnessContext.DeleteUndoesAdd | components/fitness-context.tsx:35-46 | Deleting the id of a record just added restores the old list, when no older record shares that id. |
| FitnessContext.Store.constructor | components/fitness-context.tsx:21-33 | The first load holds the stored list, or the sample workouts when nothing is stored. |
| FitnessContext.Store.AddWorkout | components/fitness-context.tsx:35-42 | The list becomes the stamped record followed by the old list: one longer, old records unchanged and in order. |
| FitnessContext.Store.DeleteWorkout | components/fitness-context.tsx:44-46 | The list becomes the old list without the records carrying that id. |
| FitnessContext.TotalWorkouts | components/fitness-context.tsx:49 | The record count equals the sum of the per-exercise counts. |
| FitnessContext.ThisWeekWorkouts | components/fitness-context.tsx:49-55 | This week's count is at most the total. It equals the total exactly when every record is dated no earlier than seven days before now. |
| FitnessContext.FavoriteExercise | components/fitness-context.tsx:57-65 | "None yet" exactly for no workouts; which exercise it names otherwise is stated by FitnessContext.FavoriteExerciseIsMostLogged. |
| FitnessContext.FavoriteExerciseIsMostLogged | components/fitness-context.tsx:57-65 | "None yet" exactly for no workouts. Otherwise the name of an exercise with the largest count, the earliest-appearing one on ties. |
| FitnessContext.UniqueDaysStreak | components/fitness-context.tsx:70-71 | 0 exactly for an empty list; its relation to the effort streak is stated by FitnessContext.UniqueDaysStreakBounds and FitnessContext.StreaksDiffer. |
| FitnessContext.UniqueDaysStreakBounds | components/fitness-context.tsx:70-71 | The day count is 0 exactly for an empty list, and never below the effort streak. |
| FitnessContext.StreaksDiffer | components/fitness-context.tsx:70-71 | Workouts today and three days ago give a day count of 2 but an effort streak of 1. |
| FitnessContext.SampleStreaks | lib/data.ts:14-52 | On the seed data the day count is 5 and the effort streak is 4. |
| FitnessContext.ContextSuggestion | components/fitness-context.tsx:73-78 | Before 12: "Morning Energizer". From 12 to 16: "Afternoon Power Session". From 17: "Evening Relaxation Yoga". Each holds in both directions. |
| Stats.RoundDiv | components/stats.tsx:18 | `Math.round(num/den)` is the integer nearest num/den, rounding a half up. |
| Stats.RoundDivBetween | components/stats.tsx:18 | Rounding stays within any integer bounds of the exact quotient. |
| Stats.TotalTimeOf | components/stats.tsx:13-15 | hours·60 + minutes equals the summed duration, and minutes < 60. |
| Stats.AvgDuration | components/stats.tsx:18 | 0 for no workouts; otherwise the integer nearest the mean duration, a half rounded up (bounds in Stats.AvgDurationBetween). |
| Stats.AvgDurationBetween | components/stats.tsx:18 | The average is 0 for no workouts. Otherwise it lies between the shortest and the longest duration. |
| Stats.LastWorkout | components/stats.tsx:22 | None exactly for an empty list. Otherwise the final element of the list. |
| Stats.LastWorkoutIsOldest | components/stats.tsx:22 | After prepending a record, the "last workout" is unchanged unless the list was empty. |
| Stats.StatsMessage | components/stats.tsx:21-23 | The starter text exactly when the effort streak is 0; the rest follows Engine.MessageRules with the list's final record. |
| Stats.NewSessionLeavesMessage | components/stats.tsx:21-23 | A record just added does not change the message while the streak stays the same. |
| Stats.MoodCounts | components/stats.tsx:26-32 | The mood counts add up to the number of workouts. |
| Stats.CommonMood | components/stats.tsx:33 | "N/A" exactly for no workouts; which mood it names otherwise is stated by Stats.CommonMoodIsMostFrequent. |
| Stats.CommonMoodIsMostFrequent | components/stats.tsx:26-33 | "N/A" exactly for no workouts. Otherwise a mood of largest count, the earliest-appearing one on ties. |
| Stats.ExerciseCounts | components/stats.tsx:36-42 | The exercise counts add up to the number of workouts. |
| Stats.Percentage | components/stats.tsx:103 | The integer nearest 100·count/n, a half rounded up; 0 when n is 0; at most 100 when count ≤ n. |
| Stats.Breakdown | components/stats.tsx:102-103 | One row per entry of the exercise counts; row contents are stated by Stats.BreakdownRowAt and Stats.BreakdownMeaning. |
| Stats.BreakdownRowAt | components/stats.tsx:102-103 | Row i is the i-th distinct exercise with its count (≥ 1) and a percentage in 0..100. |
| Stats.PercentagesNearHundred | components/stats.tsx:103 | For a non-empty list the percentages add up to 100 give or take half a point per row. |
| Stats.BreakdownMeaning | components/stats.tsx:36-42 | One row per logged exercise, in order of first appearance, each with its count. The counts add up to the number of workouts and every percentage lies in 0..100. |
| WorkoutTimer.Timer.Elapsed | components/workout-timer.tsx:113 | The seconds counted down plus the seconds left make up the selected duration. |
| WorkoutTimer.Timer.constructor | components/workout-timer.tsx:57-59 | The timer starts at the initial duration, full and stopped. |
| WorkoutTimer.Timer.Open | components/workout-timer.tsx:63-70 | Opening resets duration, seconds left and running state from the initial duration. |
| WorkoutTimer.Timer.Settle | components/workout-timer.tsx:77-79 | At zero the timer stops. Otherwise nothing changes. |
| WorkoutTimer.Timer.Tick | components/workout-timer.tsx:72-79 | A tick takes exactly one second off a running timer with time left and nothing otherwise. Reaching zero stops it, and the invariant is kept. |
| WorkoutTimer.Timer.Toggle | components/workout-timer.tsx:87-89 | Toggling flips the running state and leaves duration and seconds left as they are. A timer at zero stays stopped. |
| WorkoutTimer.Timer.Reset | components/workout-timer.tsx:91-94 | Reset stops the timer and refills it to the selected duration. |
| WorkoutTimer.Timer.ChangeDuration | components/workout-timer.tsx:96-100 | A new duration is selected, the timer refilled to it and stopped. |
| WorkoutTimer.Timer.Finish | components/workout-timer.tsx:102-105 | Finishing reports the selected duration, not the time counted down. |
| WorkoutTimer.ToggleTwice | components/workout-timer.tsx:87-89 | With time left, two toggles restore the state. |
| WorkoutTimer.RunDown | components/workout-timer.tsx:72-85 | A running timer reaches zero and stops after as many ticks as it had seconds left. |
| WorkoutTimer.FormatTime | components/workout-timer.tsx:107-111 | Zero-padded minutes, ':', zero-padded seconds; that the text reads back as the time is stated by WorkoutTimer.FormatTimeReadsBack. |
| WorkoutTimer.FormatTimeReadsBack | components/workout-timer.tsx:107-111 | The text is digits, ':', then two digits. They read back as minutes and seconds < 60 with minutes·60 + seconds = s. Below 6000 seconds the text has length 5. |
| ConsistencyChart.Intensity | components/consistency-chart.tsx:28-32 | Level 0 for no minutes, 1 for 1..30, 2 for 31..60 and 3 above 60. The level always lies in 0..3. |
| ConsistencyChart.IntensityMonotone | components/consistency-chart.tsx:28-32 | More minutes never give a lower level. |
| ConsistencyChart.Cell | components/consistency-chart.tsx:23-39 | The square of its own day; a day without workouts has no minutes, and the intensity is 0 exactly when the minutes are 0. |
| ConsistencyChart.Cells | components/consistency-chart.tsx:18-39 | 30 squares for consecutive days, oldest first. Square k is the day 29−k days before today. |
| ConsistencyChart.ConsistencyDays | components/consistency-chart.tsx:13-42 | The loop builds exactly those squares: per day its workout count, total minutes and intensity, the last one today. |
| ConsistencyChart.CellCountsInWindow | components/consistency-chart.tsx:18-24 | The squares count exactly the workouts dated within the 30 days, at most the list length. |
| ConsistencyChart.CellsPermutation | components/consistency-chart.tsx:18-27 | The map does not depend on the order of the list. |
| ConsistencyChart.IntensityColor | components/consistency-chart.tsx:44-52 | The colour class of a level; distinctness is stated by ConsistencyChart.IntensityColorsDistinct. |
| ConsistencyChart.IntensityColorsDistinct | components/consistency-chart.tsx:44-52 | Levels 1, 2 and 3 each have their own class. Level 0 and every other value share the empty one. |
| WeeklyChart.WeeklyBars | components/weekly-chart.tsx:14-16 | Seven bars; bar i is the day 6−i days before today, so the last bar is today. |
| WeeklyChart.WeeklyBarsInWindow | components/weekly-chart.tsx:14-26 | The bars count exactly the workouts dated in the last seven days, at most the list length. |
| WeeklyChart.WeeklyBarsPermutation | components/weekly-chart.tsx:14-26 | The chart does not depend on the order of the list. |
| WeeklyChart.BarFill | components/weekly-chart.tsx:40 | The highlight colour exactly for a bar with workouts. |
| WeeklyChart.HighlightedIffWorkedOut | components/weekly-chart.tsx:40 | A bar is highlighted exactly when some workout is dated on its day. |
| MoodChart.OfTypeCount | components/mood-chart.tsx:17 | The per-type filter keeps as many records as there are workouts of that type. |
| MoodChart.WithMoodCount | components/mood-chart.tsx:21 | The per-mood filter keeps as many records as there are workouts with that mood. |
| MoodChart.OfType | components/mood-chart.tsx:17 | Keeps exactly the records of the given type (count in MoodChart.OfTypeCount). |
| MoodChart.WithMood | components/mood-chart.tsx:21 | Keeps exactly the records with the given mood (count in MoodChart.WithMoodCount). |
| MoodChart.RowOf | components/mood-chart.tsx:16-28 | The row of one type; its total and mood counts are stated by MoodChart.RowTotalIsCount and MoodChart.RowMoodCounts. |
| MoodChart.CountMoods | components/mood-chart.tsx:18-22 | The forEach gives one entry per listed mood, in order, each with its count among the type's workouts. |
| MoodChart.AllRows | components/mood-chart.tsx:13-28 | One unsorted row per distinct exercise type, in order of first appearance. |
| MoodChart.TypeRows | components/mood-chart.tsx:16-28 | The map over the types builds exactly those rows. |
| MoodChart.MoodChartRows | components/mood-chart.tsx:12-30 | The computation yields the rows sorted by total and cut to five. |
| MoodChart.Top5 | components/mood-chart.tsx:29 | The slice keeps the first min(5, n) rows. |
| MoodChart.MoodChartData | components/mood-chart.tsx:12-30 | The sorted rows cut to five; what they are is stated by MoodChart.MoodChartDataTop and MoodChart.MoodChartTies. |
| MoodChart.ActiveMoods | components/mood-chart.tsx:41-45 | The forEach over Set.add yields the distinct moods in order of first appearance. |
| MoodChart.RowTotalIsCount | components/mood-chart.tsx:17-27 | A row's total is the number of workouts of its type. |
| MoodChart.RowMoodCounts | components/mood-chart.tsx:14-22 | A row's mood counts hold every mood in the list once, each with its count for the row's type. They add up to the row's total. |
| MoodChart.RowMeaning | components/mood-chart.tsx:13-28 | Each row is for a type that occurs, with total ≥ 1 and mood counts as above. |
| MoodChart.AllRowsCoverTypes | components/mood-chart.tsx:13-16 | Every exercise type present has a row, and no two rows share a type. |
| MoodChart.MoodChartDataTop | components/mood-chart.tsx:29 | At most five rows, all drawn from the unsorted ones and sorted by total. No row left out has a larger total than a row kept. |
| MoodChart.MoodChartTies | components/mood-chart.tsx:29 | For any total, the kept rows with that total are a prefix of the rows with that total in first-appearance order. |
| MoodChart.EmptyState | components/mood-chart.tsx:41-53 | No workouts exactly when there are no active moods, and exactly when there are no rows: the empty-state branch. |
| WeatherWidget.WeatherIndex | components/weather-widget.tsx:21-22 | Every weather is in the list, at the index `indexOf` finds. |
| WeatherWidget.NextCycle | components/weather-widget.tsx:20-25 | The order is Sunny, Rainy, Cloudy, Indoors, then Sunny again. Each step changes the weather, and four steps return to the start. |
| WeatherWidget.Widget.constructor | components/weather-widget.tsx:14 | The widget starts Sunny. |
| WeatherWidget.Widget.Toggle | components/weather-widget.tsx:20-25 | A toggle moves to the next weather of the cycle. |
| WeatherWidget.Next | components/weather-widget.tsx:21-24 | The weather at the next index of the cycle, wrapping from the last to the first. |
| WeatherWidget.WeatherLabelsDistinct | components/weather-widget.tsx:40-51 | Each of the four weathers has its own label. |
| WeatherWidget.WeatherLabel | components/weather-widget.tsx:40-51 | The label of a weather; distinctness is stated by WeatherWidget.WeatherLabelsDistinct. |

## Left out

- Browser storage: `useLocalStorage` and `localStorage.getItem` are not modelled. The store is an in-memory list, and the seeding effect is folded into the constructor as "stored list, or the sample data".
- The clock and the calendar are not modelled. `Date.now()`, `new Date()` and `getHours()` are parameters. Dates are millisecond timestamps whose calendar day is the timestamp divided by 86400000. The local-timezone offset is taken as already applied, and days of 23 or 25 hours (daylight saving changes) are not modelled.
- Date text: parsing the stored ISO date string, `toISOString`, `toDateString` and the weekday names of the bar chart (`toLocaleDateString`) are left out. The bars carry day numbers instead of weekday names.
- EffortStreak.CalculateEffortStreak: does not model the sorted copy of the list made first (lib/data.ts:111). Only `some` reads that copy, and `some` does not depend on order.
- setInterval and clearInterval are not modelled. One firing of the interval is a call to `WorkoutTimer.Timer.Tick`, and clearing it is not modelled.
- WorkoutTimer.Timer.Open: does not model the random motivational quote (components/workout-timer.tsx:68) or the quote list.
- The timer's progress percentage (components/workout-timer.tsx:113) is a floating-point value and is not modelled.
- Stats.RoundDiv: computes on exact rationals, not on IEEE doubles. A quotient whose double is off by rounding error next to a half may round the other way in the browser. This applies to the average (components/stats.tsx:18) and to the percentages (components/stats.tsx:103), so Stats.Percentage inherits it.
- `onWeatherChange` is not modelled. It is a call into the parent component (components/weather-widget.tsx:16-18).
- Styling is not modelled: colours, icons, the per-mood colour table of the mood chart and all markup.
- The mood chart spreads its mood keys into the row object beside `name` and `total`. The model keeps them in a separate field; a mood label can never collide with those two keys.
- Record keys: JavaScript objects list non-integer string keys in insertion order. Every key here is an exercise name or a mood label, so the records of counts are modelled as lists in insertion order.
- FitnessContext.Store.AddWorkout: assumes the list is re-read between calls. The source builds the new list from the list read when the component last rendered (components/fitness-context.tsx:41), so several calls from one handler keep only the last record; components/demo-data-generator.tsx:16-32 calls it 20 times in one loop and ends with one new record, where the model ends with 20. FitnessContext.Store.DeleteWorkout has the same snapshot behaviour (components/fitness-context.tsx:45), also not modelled.
- FitnessContext.Store.AddWorkout: reads the clock once. The source reads it twice, `Date.now()` for the id and `new Date()` for the date, and the model uses one `now` for both. Since the local-timezone offset is folded into `now`, the model's id is the decimal of that shifted reading, not of `Date.now()`.
- FitnessContext.Store.AddWorkout: takes a whole record whose id and date are then overwritten, where the source takes a record without them. FitnessContext.StampedIgnoresCallerIdAndDate shows the supplied values cannot matter.
- Durations are non-negative integers. Parsing form text with `Number.parseInt` is not modelled (components/workout-logger.tsx, components/quick-workout-button.tsx). Nor is the positive-duration check of the forms.
- Two display constants of lib/data.ts are not modelled: `weeklyData`, which nothing reads, and `exerciseIcons`, the icons of the history list.
- Several components have no logic beyond what is modelled above, and are not modelled:
  - components/daily-stats.tsx reads hydration and step logs that the context never provides;
  - components/history.tsx (locale date formatting);
  - components/demo-data-generator.tsx (random data);
  - the pure UI files: components/celebration-modal.tsx, components/dashboard.tsx, components/navigation.tsx, components/quick-workout-button.tsx and app/page.tsx;
  - hooks/use-in-view.ts (a browser observer).
