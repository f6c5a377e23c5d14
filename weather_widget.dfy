/** The weather switch of components/weather-widget.tsx: a single state field
    stepped round a fixed cycle of four values. */
module WeatherWidget {
  import opened Workouts

  /** `const weathers: WeatherType[] = ["Sunny", "Rainy", "Cloudy", "Indoors"]` */
  const Weathers: seq<Weather> := [Sunny, Rainy, Cloudy, Indoors]

  /** `weathers.indexOf(weather)`; every weather is in the list. */
  function WeatherIndex(w: Weather): (i: nat)
    ensures i < |Weathers| && Weathers[i] == w
  {
    match w
    case Sunny => 0
    case Rainy => 1
    case Cloudy => 2
    case Indoors => 3
  }

  /** The weather one toggle moves to. */
  function Next(w: Weather): (n: Weather)
    ensures WeatherIndex(n) == (WeatherIndex(w) + 1) % |Weathers|
  {
    Weathers[(WeatherIndex(w) + 1) % |Weathers|]
  }

  /** The cycle is Sunny, Rainy, Cloudy, Indoors and back to Sunny: every
      toggle changes the weather, and four toggles return to the start. */
  lemma NextCycle(w: Weather)
    ensures Next(Sunny) == Rainy && Next(Rainy) == Cloudy
    ensures Next(Cloudy) == Indoors && Next(Indoors) == Sunny
    ensures Next(w) != w && Next(Next(Next(Next(w)))) == w
  {
  }

  class Widget {
    var weather: Weather

    /** `useState<WeatherType>("Sunny")` */
    constructor ()
      ensures weather == Sunny
    {
      weather := Sunny;
    }

    /** `toggleWeather`: step to the next weather of the cycle. */
    method Toggle()
      modifies this
      ensures weather == Next(old(weather))
    {
      var weathers := [Sunny, Rainy, Cloudy, Indoors];
      var currentIndex := WeatherIndex(weather);
      var nextIndex := (currentIndex + 1) % |weathers|;
      weather := weathers[nextIndex];
    }
  }

  /** `getWeatherLabel` */
  function WeatherLabel(w: Weather): string
  {
    match w
    case Sunny => "Sunny & Warm"
    case Rainy => "Rainy Day"
    case Cloudy => "Cloudy & Cool"
    case Indoors => "Staying Inside"
  }

  /** Each weather has its own label. */
  lemma WeatherLabelsDistinct(a: Weather, b: Weather)
    ensures WeatherLabel(a) == WeatherLabel(b) <==> a == b
  {
    assert |WeatherLabel(a)| == |WeatherLabel(b)| ==> a == b;
  }
}
