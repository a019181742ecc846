/**
 * The pure helpers of the weather viewer: the icon and background colour
 * chosen from a weather description, the parsing of the comma-separated city
 * list, the sampling of one forecast entry per day, and the unit settings.
 */
module Weather {
  import opened PyStr

  // ------------------------------------------------------ keyword rules

  /** A precedence rule: when any of `keywords` occurs in the description, the answer is `result`. */
  datatype Rule = Rule(keywords: seq<string>, result: string)

  predicate Matches(d: string, rule: Rule) {
    exists k :: 0 <= k < |rule.keywords| && Contains(d, rule.keywords[k])
  }

  /** The result of the first rule that matches `d`, or `default` when none does. */
  function FirstMatch(d: string, rules: seq<Rule>, default: string): string {
    if rules == [] then default
    else if Matches(d, rules[0]) then rules[0].result
    else FirstMatch(d, rules[1..], default)
  }

  /** Rule `i` matches `d` and no rule before it does. */
  predicate FirstMatching(d: string, rules: seq<Rule>, i: int) {
    0 <= i < |rules| && Matches(d, rules[i]) && forall j :: 0 <= j < i ==> !Matches(d, rules[j])
  }

  /**
   * `FirstMatch` is the first-match rule: the default when no rule matches,
   * otherwise the result of the earliest rule that matches.
   */
  lemma {:induction false} FirstMatchSpec(d: string, rules: seq<Rule>, default: string)
    ensures (forall i :: 0 <= i < |rules| ==> !Matches(d, rules[i])) ==> FirstMatch(d, rules, default) == default
    ensures forall i :: FirstMatching(d, rules, i) ==> FirstMatch(d, rules, default) == rules[i].result
  {
    if rules != [] && !Matches(d, rules[0]) {
      var rest := rules[1..];
      FirstMatchSpec(d, rest, default);
      assert forall i :: 1 <= i < |rules| ==> rules[i] == rest[i - 1];
      forall i | FirstMatching(d, rules, i) ensures FirstMatching(d, rest, i - 1) {
        assert forall j :: 0 <= j < i - 1 ==> rest[j] == rules[j + 1];
      }
    }
  }

  /** Trying the rules in order: the first one, then the rest. */
  lemma FirstMatchCons(d: string, rule: Rule, rest: seq<Rule>, default: string)
    ensures FirstMatch(d, [rule] + rest, default) ==
            if Matches(d, rule) then rule.result else FirstMatch(d, rest, default)
  {
    assert ([rule] + rest)[1..] == rest;
  }

  /** A rule with the keywords `ws` matches exactly when one of `ws` occurs. */
  lemma MatchesAny(d: string, ws: seq<string>, result: string)
    ensures |ws| == 1 ==> (Matches(d, Rule(ws, result)) <==> Contains(d, ws[0]))
    ensures |ws| == 2 ==> (Matches(d, Rule(ws, result)) <==> Contains(d, ws[0]) || Contains(d, ws[1]))
  {
  }

  // ------------------------------------------------------------- icons

  const CloudIcon: string := "\U{2601}\U{FE0F}"
  const RainIcon: string := "\U{1F327}\U{FE0F}"
  const ClearIcon: string := "\U{2600}\U{FE0F}"
  const SnowIcon: string := "\U{2744}\U{FE0F}"
  const StormIcon: string := "\U{26C8}\U{FE0F}"
  const DefaultIcon: string := "\U{1F321}\U{FE0F}"

  /** The icon for a weather description: the first keyword found after lowering wins. */
  function WeatherIcon(desc: string): (icon: string)
    ensures icon in [CloudIcon, RainIcon, ClearIcon, SnowIcon, StormIcon, DefaultIcon]
    ensures icon == DefaultIcon <==>
              var d := Lower(desc);
              !Contains(d, "cloud") && !Contains(d, "rain") && !Contains(d, "clear") && !Contains(d, "snow") &&
              !Contains(d, "strom") && !Contains(d, "thunder")
  {
    var d := Lower(desc);
    assert DefaultIcon[0] !in [CloudIcon[0], RainIcon[0], ClearIcon[0], SnowIcon[0], StormIcon[0]];
    if Contains(d, "cloud") then CloudIcon
    else if Contains(d, "rain") then RainIcon
    else if Contains(d, "clear") then ClearIcon
    else if Contains(d, "snow") then SnowIcon
    else if Contains(d, "strom") || Contains(d, "thunder") then StormIcon
    else DefaultIcon
  }

  /** The icon precedence as a table: cloud, rain, clear, snow, then "strom" or "thunder". */
  const IconRules: seq<Rule> := [
    Rule(["cloud"], CloudIcon), Rule(["rain"], RainIcon), Rule(["clear"], ClearIcon),
    Rule(["snow"], SnowIcon), Rule(["strom", "thunder"], StormIcon)]

  /** The icon is the result of the first rule of the table that matches the lowered description. */
  lemma WeatherIconFollowsRules(desc: string)
    ensures WeatherIcon(desc) == FirstMatch(Lower(desc), IconRules, DefaultIcon)
  {
    var d := Lower(desc);
    var r := IconRules;
    MatchesAny(d, r[0].keywords, r[0].result);
    MatchesAny(d, r[1].keywords, r[1].result);
    MatchesAny(d, r[2].keywords, r[2].result);
    MatchesAny(d, r[3].keywords, r[3].result);
    MatchesAny(d, r[4].keywords, r[4].result);
    FirstMatchCons(d, r[0], r[1..], DefaultIcon);
    FirstMatchCons(d, r[1], r[2..], DefaultIcon);
    FirstMatchCons(d, r[2], r[3..], DefaultIcon);
    FirstMatchCons(d, r[3], r[4..], DefaultIcon);
    FirstMatchCons(d, r[4], [], DefaultIcon);
    assert r == [r[0]] + r[1..] && r[1..] == [r[1]] + r[2..] && r[2..] == [r[2]] + r[3..];
    assert r[3..] == [r[3]] + r[4..] && r[4..] == [r[4]] + [];
  }

  /** The icon does not depend on letter case. */
  lemma WeatherIconIgnoresCase(desc: string)
    ensures WeatherIcon(desc) == WeatherIcon(Lower(desc))
  {
    LowerIdempotent(desc);
  }

  /** A description reading "Rain Cloud" in any letter case gets the cloud icon, not the rain icon. */
  lemma CloudOutranksRain(desc: string)
    requires Lower(desc) == "rain cloud"
    ensures WeatherIcon(desc) == CloudIcon
  {
    var d := "rain cloud";
    assert OccursAt(d, "cloud", 5);
    ContainsIffOccurs(d, "cloud");
  }

  /** "storm" is not the keyword "strom": a description reading "Storm" in any case gets the default icon. */
  lemma StormFallsThrough(desc: string)
    requires Lower(desc) == "storm"
    ensures WeatherIcon(desc) == DefaultIcon
  {
    var d := "storm";
    assert 'c' !in d && 'a' !in d && 'e' !in d && 'w' !in d && 'h' !in d;
    MissingCharRulesOut(d, "cloud", 'c');
    MissingCharRulesOut(d, "rain", 'a');
    MissingCharRulesOut(d, "clear", 'c');
    MissingCharRulesOut(d, "snow", 'w');
    assert !Contains(d, "strom") by {
      assert d[..5][2] != "strom"[2];
      assert !Contains(d[1..], "strom");
    }
    MissingCharRulesOut(d, "thunder", 'h');
  }

  // ------------------------------------------------------ background colour

  const CloudsColour: string := "#d6e0f0"
  const RainColour: string := "#a9c9ff"
  const ClearColour: string := "#ffeaa7"
  const SnowColour: string := "#ffffff"
  const DefaultColour: string := "#f1f2f6"

  /** The card background for a weather description: "clouds", rain, clear, snow, in that order. */
  function BgColour(desc: string): (colour: string)
    ensures colour in [CloudsColour, RainColour, ClearColour, SnowColour, DefaultColour]
    ensures colour == DefaultColour <==>
              var d := Lower(desc);
              !Contains(d, "clouds") && !Contains(d, "rain") && !Contains(d, "clear") && !Contains(d, "snow")
  {
    var d := Lower(desc);
    assert DefaultColour[2] !in [CloudsColour[2], RainColour[2], ClearColour[2], SnowColour[2]];
    if Contains(d, "clouds") then CloudsColour
    else if Contains(d, "rain") then RainColour
    else if Contains(d, "clear") then ClearColour
    else if Contains(d, "snow") then SnowColour
    else DefaultColour
  }

  const ColourRules: seq<Rule> := [
    Rule(["clouds"], CloudsColour), Rule(["rain"], RainColour), Rule(["clear"], ClearColour),
    Rule(["snow"], SnowColour)]

  /** The colour is the result of the first rule of the table that matches the lowered description. */
  lemma BgColourFollowsRules(desc: string)
    ensures BgColour(desc) == FirstMatch(Lower(desc), ColourRules, DefaultColour)
  {
    var d := Lower(desc);
    var r := ColourRules;
    MatchesAny(d, r[0].keywords, r[0].result);
    MatchesAny(d, r[1].keywords, r[1].result);
    MatchesAny(d, r[2].keywords, r[2].result);
    MatchesAny(d, r[3].keywords, r[3].result);
    FirstMatchCons(d, r[0], r[1..], DefaultColour);
    FirstMatchCons(d, r[1], r[2..], DefaultColour);
    FirstMatchCons(d, r[2], r[3..], DefaultColour);
    FirstMatchCons(d, r[3], [], DefaultColour);
    assert r == [r[0]] + r[1..] && r[1..] == [r[1]] + r[2..] && r[2..] == [r[2]] + r[3..];
    assert r[3..] == [r[3]] + [];
  }

  /** Only the plural "clouds" gives the cloud colour: a description reading "Cloudy" gets the default one. */
  lemma CloudyIsNotClouds(desc: string)
    requires Lower(desc) == "cloudy"
    ensures BgColour(desc) == DefaultColour
  {
    var d := "cloudy";
    assert 's' !in d && 'r' !in d && 'e' !in d;
    MissingCharRulesOut(d, "clouds", 's');
    MissingCharRulesOut(d, "rain", 'r');
    MissingCharRulesOut(d, "clear", 'e');
    MissingCharRulesOut(d, "snow", 's');
  }

  /** There is no thunder colour: a description reading "Thunder" gets the default background. */
  lemma ThunderHasNoColour(desc: string)
    requires Lower(desc) == "thunder"
    ensures BgColour(desc) == DefaultColour
  {
    var d := "thunder";
    assert 'c' !in d && 'a' !in d && 's' !in d;
    MissingCharRulesOut(d, "clouds", 'c');
    MissingCharRulesOut(d, "rain", 'a');
    MissingCharRulesOut(d, "clear", 'c');
    MissingCharRulesOut(d, "snow", 's');
  }

  /** "cloud" occurs wherever "clouds" does. */
  lemma CloudsContainsCloud(d: string)
    requires Contains(d, "clouds")
    ensures Contains(d, "cloud")
  {
    ContainsIffOccurs(d, "clouds");
    var i :| OccursAt(d, "clouds", i);
    assert d[i..i + 5] == d[i..i + 6][..5];
    assert OccursAt(d, "cloud", i);
    ContainsIffOccurs(d, "cloud");
  }

  /**
   * The card's icon and colour agree: the cloud colour comes with the cloud
   * icon, and the rain, clear and snow icons come with their own colours.
   */
  lemma IconAndColourAgree(desc: string)
    ensures BgColour(desc) == CloudsColour ==> WeatherIcon(desc) == CloudIcon
    ensures WeatherIcon(desc) == RainIcon ==> BgColour(desc) == RainColour
    ensures WeatherIcon(desc) == ClearIcon ==> BgColour(desc) == ClearColour
    ensures WeatherIcon(desc) == SnowIcon ==> BgColour(desc) == SnowColour
  {
    var d := Lower(desc);
    if Contains(d, "clouds") {
      CloudsContainsCloud(d);
    }
  }

  // --------------------------------------------------------- city list

  /**
   * The cities typed in the box: split on commas, each piece stripped of
   * surrounding whitespace; an empty box gives no city.
   */
  function CityList(cities: string): (cs: seq<string>)
    ensures cities == [] ==> cs == []
    ensures cities != [] ==> |cs| == Count(cities, ',') + 1
    ensures cities != [] ==> forall i :: 0 <= i < |cs| ==> cs[i] == Strip(Split(cities, ',')[i])
  {
    if cities == [] then []
    else
      var parts := Split(cities, ',');
      seq(|parts|, i requires 0 <= i < |parts| => Strip(parts[i]))
  }

  /**
   * Each city is a comma-free piece of the input without surrounding
   * whitespace, and the unstripped pieces joined by commas give back the input.
   */
  lemma CityListSpec(cities: string)
    requires cities != []
    ensures forall i :: 0 <= i < |CityList(cities)| ==> ',' !in CityList(cities)[i]
    ensures forall i :: 0 <= i < |CityList(cities)| ==> Trimmed(CityList(cities)[i])
    ensures Join(Split(cities, ','), ',') == cities
  {
    var parts := Split(cities, ',');
    var cs := CityList(cities);
    forall i | 0 <= i < |cs| ensures ',' !in cs[i] && Trimmed(cs[i]) {
      StripKeepsOut(parts[i], ',');
    }
    JoinSplit(cities, ',');
  }

  /** Neither end of `s` is whitespace. */
  predicate Trimmed(s: string) {
    s == [] || (!IsSpace(s[0]) && !IsSpace(s[|s| - 1]))
  }

  /** Stripping adds no character that was not there. */
  lemma StripKeepsOut(p: string, c: char)
    requires c !in p
    ensures c !in Strip(p) && Trimmed(Strip(p))
  {
    var r := Strip(p);
    var i, j :| StrippedAt(p, i, j) && r == p[i..j];
    assert forall k :: 0 <= k < |r| ==> r[k] == p[i + k];
  }

  // --------------------------------------------------------- forecast

  /** One entry of the forecast list: its `dt_txt` timestamp text and its temperature. */
  datatype ForecastEntry = ForecastEntry(dtText: string, temp: real)

  /**
   * The points plotted for the forecast: entries 0, 8, 16, ... (entries come
   * every three hours, so eight apart is one day apart); for each, the date
   * part of its timestamp and its temperature.
   */
  method SampleForecast(entries: seq<ForecastEntry>) returns (dates: seq<string>, temps: seq<real>)
    requires forall i :: 0 <= i < |entries| && i % 8 == 0 ==> HasWord(entries[i].dtText)
    ensures |dates| == |temps| == (|entries| + 7) / 8
    ensures forall k :: 0 <= k < |dates| ==>
              8 * k < |entries| && dates[k] != [] &&
              dates[k] == FirstWord(entries[8 * k].dtText) && temps[k] == entries[8 * k].temp
  {
    dates, temps := [], [];
    var i := 0;
    while i < |entries|
      invariant i == 8 * |dates| && |temps| == |dates|
      invariant i == 0 || i - 8 < |entries|
      invariant forall k :: 0 <= k < |dates| ==>
                  8 * k < |entries| && dates[k] != [] &&
                  dates[k] == FirstWord(entries[8 * k].dtText) && temps[k] == entries[8 * k].temp
    {
      MultipleOfEight(|dates|);
      ghost var prevDates, prevTemps := dates, temps;
      dates := dates + [FirstWord(entries[i].dtText)];
      temps := temps + [entries[i].temp];
      forall k | 0 <= k < |dates|
        ensures 8 * k < |entries| && dates[k] != [] &&
                dates[k] == FirstWord(entries[8 * k].dtText) && temps[k] == entries[8 * k].temp
      {
        if k < |prevDates| {
          assert dates[k] == prevDates[k] && temps[k] == prevTemps[k];
        } else {
          assert 8 * k == i;
        }
      }
      i := i + 8;
    }
    CeilingDivision(|entries|, |dates|);
  }

  lemma MultipleOfEight(c: nat)
    ensures (8 * c) % 8 == 0
  {
  }

  /** `c` strides of 8 cover `n` entries, and one stride fewer would not: `c` is ⌈n/8⌉. */
  lemma CeilingDivision(n: nat, c: nat)
    requires 8 * c >= n && (c == 0 || 8 * c - 8 < n)
    ensures c == (n + 7) / 8
  {
    var r := n + 7 - 8 * c;
    assert 0 <= r < 8;
    assert n + 7 == 8 * c + r;
  }

  // ------------------------------------------------------------- units

  /** The API units for the unit box: metric for Celsius, imperial for anything else. */
  function UnitsFor(option: string): (units: string)
    ensures units == "metric" || units == "imperial"
    ensures units == "metric" <==> option == "Celsius"
  {
    if option == "Celsius" then "metric" else "imperial"
  }

  /** The temperature axis label of the forecast chart. */
  function AxisLabel(units: string): (axis: string)
    ensures axis == "Temp (°C)" || axis == "Temp (°F)"
    ensures axis == "Temp (°C)" <==> units == "metric"
  {
    assert "Temp (°C)"[7] != "Temp (°F)"[7];
    "Temp (" + (if units == "metric" then "°C" else "°F") + ")"
  }

  /** The chart is labelled in °C exactly when Celsius was chosen, in °F otherwise. */
  lemma AxisLabelMatchesOption(option: string)
    ensures AxisLabel(UnitsFor(option)) == "Temp (°C)" <==> option == "Celsius"
    ensures AxisLabel(UnitsFor(option)) == "Temp (°F)" <==> option != "Celsius"
  {
    assert AxisLabel("imperial")[7] == 'F' != 'C' == AxisLabel("metric")[7];
  }
}
