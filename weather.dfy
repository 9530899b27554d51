/** The weather flow of index.js (`fetchWeatherData`): choosing the request, the icon
    table, and what a reply renders: the "today" panel and a strip of up to five later
    days, or the not-found page when the reply cannot be read. */
module Weather {
  import opened Wrappers
  import opened KeyScan

  /** Provider icon code to the name of an icon of the icon font. */
  const WeatherIconMap: map<string, string> := map[
    "01d" := "sun", "01n" := "moon",
    "02d" := "sun", "02n" := "moon",
    "03d" := "cloud", "03n" := "cloud",
    "04d" := "cloud", "04n" := "cloud",
    "09d" := "cloud-rain", "09n" := "cloud-rain",
    "10d" := "cloud-rain", "10n" := "cloud-rain",
    "11d" := "cloud-lightning", "11n" := "cloud-lightning",
    "13d" := "cloud-snow", "13n" := "cloud-snow",
    "50d" := "water", "50n" := "water"]

  /** The two-digit condition groups the provider's icon codes start with. */
  const ConditionGroups: set<string> := {"01", "02", "03", "04", "09", "10", "11", "13", "50"}

  /** The icon names the table can produce. */
  const IconNames: set<string> :=
    {"sun", "moon", "cloud", "cloud-rain", "cloud-lightning", "cloud-snow", "water"}

  /** The icon element's class for a code: `bx bx-` and the mapped name; a code missing
      from the table gives JavaScript's `undefined`, written out as text. */
  function IconClass(code: string): string
  {
    "bx bx-" + (if code in WeatherIconMap then WeatherIconMap[code] else "undefined")
  }

  /** Every code in the table is a condition group followed by "d" or "n". */
  lemma MappedCodeShape(code: string)
    requires code in WeatherIconMap
    ensures |code| == 3 && code[..2] in ConditionGroups && (code[2] == 'd' || code[2] == 'n')
  {
    if code == "01d" || code == "01n" { assert code[..2] == "01"; }
    else if code == "02d" || code == "02n" { assert code[..2] == "02"; }
    else if code == "03d" || code == "03n" { assert code[..2] == "03"; }
    else if code == "04d" || code == "04n" { assert code[..2] == "04"; }
    else if code == "09d" || code == "09n" { assert code[..2] == "09"; }
    else if code == "10d" || code == "10n" { assert code[..2] == "10"; }
    else if code == "11d" || code == "11n" { assert code[..2] == "11"; }
    else if code == "13d" || code == "13n" { assert code[..2] == "13"; }
    else { assert code[..2] == "50"; }
  }

  /** The table maps only to the seven icon names. */
  lemma MappedIconName(code: string)
    requires code in WeatherIconMap
    ensures WeatherIconMap[code] in IconNames
  {
    assert WeatherIconMap.Values <= IconNames;
  }

  /** The table maps exactly the nine condition groups, each in a day ("d") and a night
      ("n") variant, and only to the seven icon names. */
  lemma IconMapCodes(code: string)
    ensures code in WeatherIconMap <==>
      |code| == 3 && code[..2] in ConditionGroups && (code[2] == 'd' || code[2] == 'n')
    ensures code in WeatherIconMap ==> WeatherIconMap[code] in IconNames
  {
    if code in WeatherIconMap {
      MappedCodeShape(code);
      MappedIconName(code);
    }
    if |code| == 3 && code[..2] in ConditionGroups && (code[2] == 'd' || code[2] == 'n') {
      var g := code[..2];
      IconDayNight(g);
      assert code == g + [code[2]];
    }
  }

  /** Day and night variants share their icon, except for clear and few-clouds skies,
      which show a sun by day and a moon by night. */
  lemma IconDayNight(g: string)
    requires g in ConditionGroups
    ensures g + "d" in WeatherIconMap && g + "n" in WeatherIconMap
    ensures g in {"01", "02"} ==>
      WeatherIconMap[g + "d"] == "sun" && WeatherIconMap[g + "n"] == "moon"
    ensures g !in {"01", "02"} ==> WeatherIconMap[g + "d"] == WeatherIconMap[g + "n"]
  {
    if g == "01" {
      assert g + "d" == "01d" && g + "n" == "01n";
    } else if g == "02" {
      assert g + "d" == "02d" && g + "n" == "02n";
    } else if g == "03" {
      assert g + "d" == "03d" && g + "n" == "03n";
    } else if g == "04" {
      assert g + "d" == "04d" && g + "n" == "04n";
    } else if g == "09" {
      assert g + "d" == "09d" && g + "n" == "09n";
    } else if g == "10" {
      assert g + "d" == "10d" && g + "n" == "10n";
    } else if g == "11" {
      assert g + "d" == "11d" && g + "n" == "11n";
    } else if g == "13" {
      assert g + "d" == "13d" && g + "n" == "13n";
    } else {
      assert g + "d" == "50d" && g + "n" == "50n";
    }
  }

  /** The class names an icon exactly when the code is in the table; otherwise it is the
      class `bx bx-undefined`. */
  lemma IconClassUndefined(code: string)
    ensures IconClass(code) == "bx bx-undefined" <==> code !in WeatherIconMap
  {
    if code in WeatherIconMap {
      IconMapCodes(code);
      var name := WeatherIconMap[code];
      assert IconClass(code)[6..] == name;
      assert ("bx bx-undefined")[6..] == "undefined";
    }
  }

  /** What `fetchWeatherData` asks the provider for. */
  datatype Request = ByCoordinates(lat: string, lon: string) | ByLocation(location: string)

  /** JavaScript truthiness of an argument that is `null` or a string. */
  predicate Truthy(v: Option<string>)
  {
    v.Some? && v.value != ""
  }

  /** Coordinates are used exactly when both are truthy; otherwise the location text. */
  function ChooseRequest(location: string, lat: Option<string>, lon: Option<string>): (r: Request)
    ensures r.ByCoordinates? <==> Truthy(lat) && Truthy(lon)
    ensures r.ByCoordinates? ==> r == ByCoordinates(lat.value, lon.value)
    ensures r.ByLocation? ==> r == ByLocation(location)
  {
    if Truthy(lat) && Truthy(lon) then ByCoordinates(lat.value, lon.value) else ByLocation(location)
  }

  /** The provider's endpoint. */
  const ApiBase := "https://api.gg2.io/"

  /** The request's address, with the parts spliced into the query unencoded. */
  function Url(r: Request): string
  {
    match r
    case ByCoordinates(lat, lon) => ApiBase + "?lat=" + lat + "&lon=" + lon
    case ByLocation(location) => ApiBase + "?location=" + location
  }

  /** The character after "?l" tells the two kinds of address apart. */
  lemma UrlKindChar(r: Request)
    ensures |Url(r)| > |ApiBase| + 2
    ensures Url(r)[|ApiBase| + 2] == if r.ByCoordinates? then 'a' else 'o'
  {
  }

  /** A coordinate address never equals a location address, and different locations give
      different addresses. */
  lemma UrlTellsRequestsApart(r1: Request, r2: Request)
    requires Url(r1) == Url(r2)
    ensures r1.ByCoordinates? <==> r2.ByCoordinates?
    ensures r1.ByLocation? && r2.ByLocation? ==> r1 == r2
  {
    var n := |ApiBase|;
    UrlKindChar(r1);
    UrlKindChar(r2);
    if r1.ByLocation? && r2.ByLocation? {
      assert r1.location == Url(r1)[n + 10..];
      assert r2.location == Url(r2)[n + 10..];
    }
  }

  /** The location the page loads on start. */
  const DefaultLocation := "London"

  /** On start the page asks for the weather at "London", by name and without a country
      code. */
  lemma StartupRequest()
    ensures ChooseRequest(DefaultLocation, None, None) == ByLocation("London")
    ensures Url(ChooseRequest(DefaultLocation, None, None)) == "https://api.gg2.io/?location=London"
  {
  }

  /** One point of the provider's forecast series, with its date already reduced to the
      day of the month and the English short weekday name, and its temperature rounded. */
  datatype ForecastPoint = ForecastPoint(
    day: int, abbr: string, icon: string, temp: int, description: string)

  /** What the provider answered: nothing readable, or a report with the city and the
      series (its first point is the current conditions). */
  datatype WeatherReply = Unreadable | Report(cityName: string, cityCountry: string, list: seq<ForecastPoint>)

  /** One entry of the forecast strip. */
  datatype DayCard = DayCard(iconClass: string, abbr: string, temp: int)

  /** What the page shows after a fetch: the not-found page, or the dashboard. */
  datatype View =
    | NotFound
    | Dashboard(city: string, description: string, iconClass: string, temp: int, strip: seq<DayCard>)

  /** The strip has at most this many days. */
  const StripLength := 5

  function Abbr(p: ForecastPoint): string
  {
    p.abbr
  }

  /** A point is eligible for the strip when its day of the month is not today's. */
  function NotOn(today: int): ForecastPoint -> bool
  {
    (p: ForecastPoint) => p.day != today
  }

  /** `list.slice(1)`: the forecast points after the current conditions. */
  function Later(list: seq<ForecastPoint>): seq<ForecastPoint>
  {
    if list == [] then [] else list[1..]
  }

  /** The days the strip shows: the first point of each new weekday among the later points
      not dated today, at most five of them. */
  function StripDays(list: seq<ForecastPoint>, today: int): seq<ForecastPoint>
  {
    var d := Firsts(Later(list), NotOn(today), Abbr);
    if |d| <= StripLength then d else d[..StripLength]
  }

  /** The strip is the first five (or fewer) days the full scan keeps. */
  lemma StripDaysPrefix(list: seq<ForecastPoint>, today: int)
    ensures var d := Firsts(Later(list), NotOn(today), Abbr);
      StripDays(list, today) == d[..|StripDays(list, today)|]
  {
  }

  /** Five days whenever the later points have five eligible weekdays, otherwise one per
      eligible weekday, and then every eligible weekday is shown. */
  lemma StripDaysCount(list: seq<ForecastPoint>, today: int)
    ensures var r, days := StripDays(list, today), EligibleKeys(Later(list), NotOn(today), Abbr);
      && |r| == (if |days| <= StripLength then |days| else StripLength)
      && (|r| < StripLength ==> KeysOf(r, Abbr) == days)
  {
    FirstsKeys(Later(list), NotOn(today), Abbr);
    FirstsLength(Later(list), NotOn(today), Abbr);
  }

  /** No shown day is dated today, and no weekday is shown twice. */
  lemma StripDaysDistinct(list: seq<ForecastPoint>, today: int)
    ensures var r := StripDays(list, today);
      && (forall k :: 0 <= k < |r| ==> r[k].day != today)
      && DistinctKeys(r, Abbr)
  {
    var d := Firsts(Later(list), NotOn(today), Abbr);
    var r := StripDays(list, today);
    FirstsKeys(Later(list), NotOn(today), Abbr);
    StripDaysPrefix(list, today);
    forall k | 0 <= k < |r| ensures r[k].day != today {
      assert r[k] == d[k];
      assert NotOn(today)(d[k]);
    }
    forall i, j | 0 <= i < j < |r| ensures Abbr(r[i]) != Abbr(r[j]) {
      assert r[i] == d[i] && r[j] == d[j];
    }
  }

  /** The shown days keep the series order, and each is the first later point of its
      weekday that is not dated today. */
  lemma StripDaysOrder(list: seq<ForecastPoint>, today: int)
    ensures var r, rest := StripDays(list, today), Later(list);
      && IsSubsequence(r, rest)
      && (forall k :: 0 <= k < |r| ==>
            r[k].abbr in EligibleKeys(rest, NotOn(today), Abbr) &&
            r[k] == rest[FirstIndex(rest, NotOn(today), Abbr, r[k].abbr)])
  {
    var rest := Later(list);
    var d := Firsts(rest, NotOn(today), Abbr);
    var r := StripDays(list, today);
    FirstsPositions(rest, NotOn(today), Abbr);
    FirstsSubsequence(rest, NotOn(today), Abbr);
    StripDaysPrefix(list, today);
    SubsequencePrefix(d, rest, |r|);
    forall k | 0 <= k < |r|
      ensures r[k].abbr in EligibleKeys(rest, NotOn(today), Abbr)
      ensures r[k] == rest[FirstIndex(rest, NotOn(today), Abbr, r[k].abbr)]
    {
      assert r[k] == d[k] && Abbr(d[k]) == r[k].abbr;
    }
  }

  /** No weekday is skipped: every eligible later point that comes before the first
      point of a shown weekday has its own weekday shown, so the strip is the first five
      weekdays of the series (or all of them). */
  lemma StripDaysNoneSkipped(list: seq<ForecastPoint>, today: int)
    ensures var r, rest := StripDays(list, today), Later(list);
      forall k, j ::
        && 0 <= k < |r| && 0 <= j < |rest| && NotOn(today)(rest[j])
        && r[k].abbr in EligibleKeys(rest, NotOn(today), Abbr)
        && j < FirstIndex(rest, NotOn(today), Abbr, r[k].abbr)
        ==> rest[j].abbr in KeysOf(r, Abbr)
  {
    var rest := Later(list);
    var ok := NotOn(today);
    var d := Firsts(rest, ok, Abbr);
    var r := StripDays(list, today);
    FirstsKeys(rest, ok, Abbr);
    FirstsPositions(rest, ok, Abbr);
    StripDaysPrefix(list, today);
    forall k, j |
        && 0 <= k < |r| && 0 <= j < |rest| && ok(rest[j])
        && r[k].abbr in EligibleKeys(rest, ok, Abbr)
        && j < FirstIndex(rest, ok, Abbr, r[k].abbr)
      ensures rest[j].abbr in KeysOf(r, Abbr)
    {
      var kk := Abbr(rest[j]);
      assert kk in EligibleKeys(rest, ok, Abbr);
      var m :| 0 <= m < |d| && Abbr(d[m]) == kk;
      var f := FirstIndex(rest, ok, Abbr, kk);
      assert f <= j;
      assert r[k] == d[k];
      assert m < |r|;
      assert r[m] == d[m];
    }
  }

  /** The strip loop: scan the later points in order, take a point when its weekday is new
      and its day of the month is not today's, stop once five are taken. */
  method SelectStripDays(list: seq<ForecastPoint>, today: int) returns (days: seq<ForecastPoint>)
    ensures days == StripDays(list, today)
  {
    var rest := Later(list);
    var uniqueDays: set<string> := {};
    var count := 0;
    days := [];
    var i := 0;
    while i < |rest|
      invariant i <= |rest|
      invariant days == Firsts(rest[..i], NotOn(today), Abbr)
      invariant uniqueDays == KeysOf(days, Abbr)
      invariant count == |days| < StripLength
    {
      var dayData := rest[i];
      assert rest[..i + 1] == rest[..i] + [dayData];
      assert rest[..i + 1][..i] == rest[..i];
      if dayData.abbr !in uniqueDays && dayData.day != today {
        KeysOfSnoc(days, dayData, Abbr);
        uniqueDays := uniqueDays + {dayData.abbr};
        days := days + [dayData];
        count := count + 1;
      }
      i := i + 1;
      if count == StripLength {
        StripDaysAtBreak(list, today, i);
        break;
      }
    }
    if count < StripLength {
      assert rest[..i] == rest;
    }
  }

  /** Once the scan of the first `i` later points has kept five days, those are the strip:
      the points after them cannot change it. */
  lemma StripDaysAtBreak(list: seq<ForecastPoint>, today: int, i: nat)
    requires i <= |Later(list)|
    requires |Firsts(Later(list)[..i], NotOn(today), Abbr)| == StripLength
    ensures Firsts(Later(list)[..i], NotOn(today), Abbr) == StripDays(list, today)
  {
    FirstsPrefix(Later(list), i, NotOn(today), Abbr);
  }

  /** The card the strip shows for a point. */
  function Card(p: ForecastPoint): DayCard
  {
    DayCard(IconClass(p.icon), p.abbr, p.temp)
  }

  /** `fetchWeatherData`: choose the request, then render the reply. A reply that cannot be
      read, or whose series is empty, sends the page to the not-found view; otherwise the
      dashboard shows the city, the first point's conditions and the strip. */
  method FetchWeather(location: string, lat: Option<string>, lon: Option<string>,
                      reply: WeatherReply, today: int)
    returns (request: Request, view: View)
    ensures request == ChooseRequest(location, lat, lon)
    ensures view.NotFound? <==> reply.Unreadable? || reply.list == []
    ensures view.Dashboard? ==>
      && view.city == reply.cityName + ", " + reply.cityCountry
      && view.description == reply.list[0].description
      && view.iconClass == IconClass(reply.list[0].icon)
      && view.temp == reply.list[0].temp
      && |view.strip| == |StripDays(reply.list, today)|
      && forall k :: 0 <= k < |view.strip| ==> view.strip[k] == Card(StripDays(reply.list, today)[k])
  {
    request := ChooseRequest(location, lat, lon);
    if reply.Unreadable? || reply.list == [] {
      view := NotFound;
    } else {
      var now := reply.list[0];
      var days := SelectStripDays(reply.list, today);
      var strip := seq(|days|, k requires 0 <= k < |days| => Card(days[k]));
      view := Dashboard(reply.cityName + ", " + reply.cityCountry, now.description,
                        IconClass(now.icon), now.temp, strip);
    }
  }
}
