/** The suggestion engine and the motivational messenger of lib/data.ts: two
    ordered rule lists in which the first rule that applies decides. */
module Engine {
  import opened Optional
  import opened Workouts
  import Decimal

  /** Every label the suggestion engine can produce. */
  const SuggestionLabels: set<string> := {
    "Indoor HIIT Blast", "Cozy Home Yoga", "Living Room Strength",
    "Morning Sunshine Run", "Sunset Park Walk", "Outdoor Power Cardio",
    "Calming Yoga Flow", "Light Walking",
    "Morning Energizer HIIT", "Lunch Break Power Walk", "Afternoon Strength Session",
    "Evening Relaxation Yoga" }

  /** `getWorkoutSuggestion(hour, mood?, weather?)` */
  function WorkoutSuggestion(hour: int, mood: Option<Mood>, weather: Option<Weather>): (suggestion: string)
    ensures suggestion in SuggestionLabels
  {
    if weather == Some(Rainy) then
      if mood == Some(Energetic) then "Indoor HIIT Blast" else "Cozy Home Yoga"
    else if weather == Some(Indoors) then
      "Living Room Strength"
    else if weather == Some(Sunny) then
      if hour < 10 then "Morning Sunshine Run"
      else if hour > 17 then "Sunset Park Walk"
      else "Outdoor Power Cardio"
    else if mood == Some(Stressed) || mood == Some(Anxious) then
      "Calming Yoga Flow"
    else if mood == Some(Tired) then
      "Light Walking"
    else if hour < 10 then "Morning Energizer HIIT"
    else if hour < 14 then "Lunch Break Power Walk"
    else if hour < 18 then "Afternoon Strength Session"
    else "Evening Relaxation Yoga"
  }

  /** Rain decides alone between two indoor sessions, whatever the hour. */
  lemma RainyIgnoresHour(h1: int, h2: int, mood: Option<Mood>)
    ensures WorkoutSuggestion(h1, mood, Some(Rainy)) == WorkoutSuggestion(h2, mood, Some(Rainy))
    ensures WorkoutSuggestion(h1, mood, Some(Rainy))
            == if mood == Some(Energetic) then "Indoor HIIT Blast" else "Cozy Home Yoga"
  {
  }

  /** Staying indoors gives one fixed label, whatever the hour and the mood. */
  lemma IndoorsIsFixed(hour: int, mood: Option<Mood>)
    ensures WorkoutSuggestion(hour, mood, Some(Indoors)) == "Living Room Strength"
  {
  }

  /** Weather outranks mood: with sun the mood, even a stressed or anxious
      one, changes nothing; sunny hour 17 still counts
      as mid-day. */
  lemma SunnyOverridesMood(hour: int, m1: Option<Mood>, m2: Option<Mood>)
    ensures WorkoutSuggestion(hour, m1, Some(Sunny)) == WorkoutSuggestion(hour, m2, Some(Sunny))
    ensures WorkoutSuggestion(17, Some(Stressed), Some(Sunny)) == "Outdoor Power Cardio"
    ensures WorkoutSuggestion(hour, m1, Some(Sunny))
            == if hour < 10 then "Morning Sunshine Run"
               else if hour > 17 then "Sunset Park Walk" else "Outdoor Power Cardio"
  {
  }

  /** Cloudy weather has no rule of its own: it behaves as no weather at all. */
  lemma CloudyIsNoWeather(hour: int, mood: Option<Mood>)
    ensures WorkoutSuggestion(hour, mood, Some(Cloudy)) == WorkoutSuggestion(hour, mood, None)
  {
  }

  /** Without a weather override the mood rules come first, then the four
      time bands before 10, 14 and 18 o'clock. */
  lemma MoodThenTimeBands(hour: int, mood: Option<Mood>)
    ensures mood == Some(Stressed) || mood == Some(Anxious) ==>
              WorkoutSuggestion(hour, mood, None) == "Calming Yoga Flow"
    ensures mood == Some(Tired) ==> WorkoutSuggestion(hour, mood, None) == "Light Walking"
    ensures mood !in {Some(Stressed), Some(Anxious), Some(Tired)} ==>
              WorkoutSuggestion(hour, mood, None)
              == if hour < 10 then "Morning Energizer HIIT"
                 else if hour < 14 then "Lunch Break Power Walk"
                 else if hour < 18 then "Afternoon Strength Session"
                 else "Evening Relaxation Yoga"
  {
  }

  /** Four inputs worked through: rain with energy, rain without, a sunny
      morning, and a stressed evening without weather. */
  lemma SuggestionExamples()
    ensures WorkoutSuggestion(9, Some(Energetic), Some(Rainy)) == "Indoor HIIT Blast"
    ensures WorkoutSuggestion(9, Some(Happy), Some(Rainy)) == "Cozy Home Yoga"
    ensures WorkoutSuggestion(9, None, Some(Sunny)) == "Morning Sunshine Run"
    ensures WorkoutSuggestion(20, Some(Stressed), None) == "Calming Yoga Flow"
  {
  }

  const StarterMessage: string := "Every journey starts with a single step. You got this!"
  const WeekMessage: string := "Wow! One week of showing up! You're unstoppable! \U{1F525}"
  const HabitMessage: string := "3 days in a row! You're building a solid habit! \U{1F680}"
  const ShowingUpMessage: string := "Consistency is key! Great job showing up today! \U{2728}"

  /** The template `Did ${d} mins? That's ${d} mins more than zero! Keep it up!` */
  function ShortSessionMessage(minutes: nat): (msg: string)
    ensures |msg| > 4 + |Decimal.NatToString(minutes)| && msg[..4] == "Did "
    ensures var digits := msg[4..4 + |Decimal.NatToString(minutes)|];
            Decimal.IsDigits(digits) && Decimal.Value(digits) == minutes
  {
    var d := Decimal.NatToString(minutes);
    Decimal.NatToStringRoundTrip(minutes);
    var msg := "Did " + d + " mins? That's " + d + " mins more than zero! Keep it up!";
    assert msg[4..4 + |d|] == d;
    msg
  }

  /** `getMotivationalMessage(streak, lastWorkout?)` */
  function MotivationalMessage(streak: nat, last: Option<Workout>): (msg: string)
    ensures msg == StarterMessage <==> streak == 0
  {
    assert |StarterMessage| == 54;
    assert |WeekMessage| < 54 && |HabitMessage| < 54 && |ShowingUpMessage| < 54;
    assert last.Some? ==> |ShortSessionMessage(last.value.duration)| % 2 == 1;
    if streak == 0 then StarterMessage
    else if last.Some? && last.value.duration < 15 then ShortSessionMessage(last.value.duration)
    else if streak >= 7 then WeekMessage
    else if streak >= 3 then HabitMessage
    else ShowingUpMessage
  }

  /** The rules in their order: no streak wins over everything, a short last
      session over any streak length, then a week, then three days. */
  lemma MessageRules(streak: nat, last: Option<Workout>)
    ensures streak == 0 ==> MotivationalMessage(streak, last) == StarterMessage
    ensures streak > 0 && last.Some? && last.value.duration < 15 ==>
              MotivationalMessage(streak, last) == ShortSessionMessage(last.value.duration)
    ensures streak > 0 && (last.None? || last.value.duration >= 15) ==>
              MotivationalMessage(streak, last)
              == if streak >= 7 then WeekMessage
                 else if streak >= 3 then HabitMessage
                 else ShowingUpMessage
  {
  }
}
