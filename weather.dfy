/**
 * The weather app's text for a WMO weather code: a fixed table with
 * "Unknown" for every code it does not list.  A code missing from the
 * forecast arrives as `None`.
 */
module Weather {
  import opened Basics

  const Unknown := "Unknown"

  /** The description table, one entry per listed code. */
  const Descriptions: map<int, string> := map[
    0 := "Clear sky", 1 := "Mainly clear", 2 := "Partly cloudy", 3 := "Overcast",
    45 := "Fog", 48 := "Depositing rime fog", 51 := "Light rain", 52 := "Moderate rain",
    53 := "Heavy rain", 55 := "Very heavy rain", 56 := "Light freezing rain",
    57 := "Heavy freezing rain", 61 := "Light showers", 62 := "Moderate showers",
    63 := "Heavy showers", 65 := "Heavy showers", 66 := "Light sleet", 67 := "Heavy sleet",
    71 := "Light snow", 72 := "Moderate snow", 73 := "Heavy snow", 75 := "Heavy snow",
    77 := "Snow grains", 80 := "Showers of rain", 81 := "Heavy showers",
    82 := "Violent showers", 85 := "Snow showers", 86 := "Heavy snow showers",
    95 := "Thunderstorm", 96 := "Thunderstorm with hail", 99 := "Thunderstorm with hail"
  ]

  /** The codes the table lists. */
  predicate Listed(code: Option<int>) {
    code.Some? && code.value in Descriptions
  }

  /**
   * `weather_descriptions.get(weather_code, "Unknown")`: the listed text, or
   * the default.  The default comes back exactly for unlisted codes, and the
   * text is never empty, so the caller's `if weather_description:` always
   * shows it.
   */
  function Description(code: Option<int>): (d: string)
    ensures |d| > 0
    ensures d == Unknown <==> !Listed(code)
    ensures Listed(code) ==> d in Descriptions.Values
  {
    NoEntryIsUnknown();
    if Listed(code) then Descriptions[code.value] else Unknown
  }

  /** No entry of the table is empty or reads "Unknown". */
  lemma NoEntryIsUnknown()
    ensures forall c | c in Descriptions :: |Descriptions[c]| > 0 && Descriptions[c] != Unknown
  {
  }

  /** Two of the listed codes, read through the lookup. */
  lemma KnownCodes()
    ensures Description(Some(0)) == "Clear sky"
    ensures Description(Some(95)) == "Thunderstorm"
  {
  }

  /** Unlisted codes and a missing code give the default. */
  lemma DefaultCodes(code: int)
    requires code !in Descriptions
    ensures Description(Some(code)) == Unknown
    ensures Description(None) == Unknown
  {
  }

  /** The lookup is not injective: three codes read "Heavy showers"... */
  lemma SharedShowers()
    ensures Description(Some(63)) == Description(Some(65)) == Description(Some(81)) == "Heavy showers"
  {
  }

  /** ...two read "Heavy snow"... */
  lemma SharedSnow()
    ensures Description(Some(73)) == Description(Some(75)) == "Heavy snow"
  {
  }

  /** ...and two read "Thunderstorm with hail". */
  lemma SharedHail()
    ensures Description(Some(96)) == Description(Some(99)) == "Thunderstorm with hail"
  {
  }
}
