# Weather dashboard search and forecast logic in Dafny

This project models the list and state logic inside `index.js`, the script of a weather
dashboard page. The page has a search box with autocomplete suggestions, a
"today" panel and a strip of forecast days. The model covers:

- the suggestion pipeline of `displaySuggestions`: dropping places whose lower-cased
  "name-country" key was already seen, then ranking GB places first, US places next and
  the rest last, with a stable sort;
- the guards around it: trimmed queries shorter than four characters never reach the
  geocoder, and an empty, null or unreadable reply hides the list;
- the search box as a class holding the input text, the rendered items, the `active` flag
  and the `selected` marker, with the handlers that change them: input, geocode reply,
  keydown (ArrowDown, ArrowUp, Enter, Escape), click outside, choosing a suggestion and
  submitting a search;
- `fetchWeatherData`: the choice between a coordinate request and a by-name request with
  its address; the 18-entry icon table; and the forecast-strip loop, which takes the first
  point of each new weekday that is not dated today's day of the month and stops at five.

Modules follow the script's concerns:

- `Wrappers` holds `Option`.
- `Text` holds `trim` and ASCII `toLowerCase`.
- `KeyScan` holds the "first eligible item per key" scan. Both the suggestion filter and
  the forecast loop perform this scan. It comes with its lemmas: distinct keys, every key
  kept, first occurrences and order-preserving subsequence.
- `Suggestions` holds the dedupe and the ranking.
- `Weather` holds the requests, the icons and the forecast strip.
- `SearchBox` holds the class and its handlers.

The dedupe loop, the forecast loop and the handlers are methods. Each is proved equal to a
specification function (`Firsts`, `StripDays`, `Displayed`, `DownFrom`, `UpFrom`,
`NormalizeLocation`), and the properties are proved as lemmas about those functions.

Details of the code that the model keeps:

- The dedupe key is `(name + "-" + country).toLowerCase()` (index.js:70). The dash lets
  different places share a key (`KeyCollision`).
- ArrowUp with nothing selected does nothing (index.js:287).
- The icon table has 18 entries (index.js:12-31). An unmapped code gives the class
  `bx bx-undefined` (index.js:155, index.js:210).
- The forecast strip compares only the day of the month with today's (index.js:205).
- The page load fetches `London` by name (index.js:230-231).
- Geocode replies are applied whichever query they answer (index.js:50-53), as
  `StaleReplyStillShows` shows.
- The input's text changes on every keystroke (`Type`), while the debounced handler reads
  it when it fires (`OnInput`, index.js:259-261). Pressing Enter before it fires submits the
  text and empties the input, so the handler then looks nothing up
  (`SubmitBeforeQuietPeriod`).

## Model

| member | source | states |
|---|---|---|
| Text.TrimStart | index.js:260 | the result is a suffix of the input, everything dropped is white space, and it does not start with white space |
| Text.TrimEnd | index.js:260 | the result is a prefix of the input, everything dropped is white space, and it does not end with white space |
| Text.Trim | index.js:260 | the trimmed query is no longer than the input and has no white space at either end |
| Text.TrimInfix | index.js:260 | the trimmed query is one infix of the input with only white space before and after it |
| Text.Lower | index.js:70 | lower-casing keeps the length and maps each character by the ASCII case mapping |
| Text.LowerAppend | index.js:70 | lower-casing distributes over concatenation |
| KeyScan.Firsts | index.js:68-76 | the scan with a `seen` set never keeps more items than it reads |
| KeyScan.FirstsKeys | index.js:68-76 | the scan keeps only eligible items, no two with one key, and every key an eligible input item carries |
| KeyScan.FirstsPositions | index.js:68-76 | each kept item is the first eligible occurrence of its key, and kept items come in the order of those first occurrences |
| KeyScan.FirstsOrder | index.js:68-76 | of two kept items, the earlier one occurs earlier in the input |
| KeyScan.FirstsSubsequence | index.js:68-76 | the kept items are an order-preserving subsequence of the input |
| KeyScan.FirstsLength | index.js:68-76 | exactly one item is kept per distinct eligible key |
| KeyScan.FirstsPrefix | index.js:219-220 | stopping the scan early yields a prefix of the full scan's result |
| KeyScan.PermutationKeepsKeys | index.js:79-90 | rearranging a list keeps its set of keys and keeps distinct keys distinct |
| Suggestions.Key | index.js:70 | the dedupe key, the lower-cased name, a dash and the lower-cased country; see KeyParts, KeyCollision, KeyIgnoresCase, KeySeparates |
| Suggestions.Dedupe | index.js:67-76 | the filter loop returns the scan's result: distinct keys, every key of the reply kept, and an order-preserving subsequence of the reply |
| Suggestions.KeyParts | index.js:70 | the key is the lower-cased name, a dash and the lower-cased country, and lower-casing adds no dash to a dash-free country |
| Suggestions.KeyCollision | index.js:70 | "A-B"/"C" and "A"/"B-C" share a key |
| Suggestions.KeyIgnoresCase | index.js:70 | the key does not change when name and country are lower-cased |
| Suggestions.KeySeparates | index.js:70 | when neither country contains a dash, equal keys mean case-insensitively equal names and countries |
| Suggestions.Rank | index.js:79-90 | the comparator's order: GB 0, US 1, every other country 2; see Compare |
| Suggestions.Compare | index.js:79-90 | the comparator is negative, positive or zero exactly when the first place's rank (GB 0, US 1, other 2) is lower, higher or equal |
| Suggestions.Group | index.js:79-90 | a rank group holds only places of that rank |
| Suggestions.SortByRank | index.js:79-90 | the result of the `sort` call: the three rank groups in order; see SortByRankIsStableSort and StableSortUnique |
| Suggestions.SortByRankPermutes | index.js:79-90 | the ranked list is a permutation of the deduplicated list |
| Suggestions.SortByRankOrdered | index.js:79-90 | the ranked list is in comparator order: GB places before US places before the rest |
| Suggestions.SortByRankStable | index.js:79-90 | within each rank, places keep their relative order |
| Suggestions.SortByRankIsStableSort | index.js:79-90 | the three-group model is a stable sort with the comparator |
| Suggestions.StableSortUnique | index.js:79-90 | every stable sort of a list with the comparator equals the three-group model, so the model is what `sort` returns |
| Suggestions.RankingExample | index.js:79-90 | US, GB, FR, GB is ranked GB, GB, US, FR |
| Suggestions.Displayed | index.js:61-110 | the list `displaySuggestions` renders for a reply, empty when it hides the list; see DisplayedSpec |
| Suggestions.DisplayedSpec | index.js:61-110 | the rendered list is empty exactly when the reply holds no place; otherwise it holds each key of the reply once and is the stable ranking of the deduplicated places |
| Suggestions.RankedUnique | index.js:67-90 | dedupe then rank: empty only for an empty reply, distinct keys, the reply's keys, comparator order |
| Weather.IconClass | index.js:155 | the icon element's class `bx bx-` plus the mapped name, or `undefined` for an unmapped code (also index.js:210); see IconClassUndefined |
| Weather.IconMapCodes | index.js:12-31 | a code is mapped exactly when it is one of nine condition groups with a "d" or "n" suffix, and only to the seven icon names |
| Weather.IconDayNight | index.js:12-31 | day and night codes share their icon except for groups 01 and 02, which are sun by day and moon by night |
| Weather.IconClassUndefined | index.js:155 | the icon class is `bx bx-undefined` exactly when the code is missing from the table |
| Weather.ChooseRequest | index.js:136-142 | coordinates are requested exactly when both lat and lon are truthy, otherwise the location text |
| Weather.Url | index.js:138-141 | the coordinate address and the location address, parts spliced in unencoded; see UrlTellsRequestsApart, StartupRequest |
| Weather.UrlTellsRequestsApart | index.js:136-142 | a coordinate address never equals a location address, and equal location addresses come from equal locations |
| Weather.StartupRequest | index.js:229-232 | on load the page requests `https://api.gg2.io/?location=London` |
| Weather.Later | index.js:193 | `list.slice(1)`: the points after the current conditions |
| Weather.StripDays | index.js:192-221 | the strip: the first five days of the first-per-weekday scan of the later points not dated today; see StripDaysCount, StripDaysDistinct, StripDaysOrder, StripDaysNoneSkipped, SelectStripDays |
| Weather.StripDaysPrefix | index.js:219-220 | the strip is the first days the full scan of the later points keeps |
| Weather.StripDaysCount | index.js:192-221 | the strip has five days when five eligible weekdays exist, otherwise one per eligible weekday, every eligible weekday then shown |
| Weather.StripDaysDistinct | index.js:204-206 | no strip day is dated today's day of the month, and no weekday appears twice |
| Weather.StripDaysOrder | index.js:192-221 | the strip is an in-order subsequence of `list.slice(1)`, each day the first non-today point of its weekday |
| Weather.StripDaysNoneSkipped | index.js:204-220 | every eligible later point before the first point of a shown weekday has its weekday shown: the strip is the first five weekdays of the series |
| Weather.StripDaysAtBreak | index.js:219-220 | once five days are kept, the break leaves exactly the strip |
| Weather.SelectStripDays | index.js:192-221 | the loop with its `uniqueDays` set, `count` and `break` at five computes exactly the strip |
| Weather.Card | index.js:207-215 | one strip entry: the icon class, the weekday abbreviation and the temperature of a point |
| Weather.FetchWeather | index.js:133-225 | the request is the chosen one; an unreadable reply or an empty series gives the not-found page, otherwise the city, the first point's conditions and icon, and one card per strip day |
| SearchBox.LookupQuery | index.js:259-262 | a lookup is issued exactly when the trimmed input has at least four characters, and it is for the trimmed input |
| SearchBox.NoLookupForShortInput | index.js:43-46 | input shorter than four characters or made only of white space issues no lookup |
| SearchBox.NormalizeLocation | index.js:236-243 | empty input gives nothing; input with a comma is kept; input without one gets ",GB" appended |
| SearchBox.NormalizeIdempotent | index.js:240-243 | normalising an already normalised location changes nothing |
| SearchBox.DownFrom | index.js:276-284 | ArrowDown selects item 0 from no selection, (i + 1) mod count from item i, and something exactly when there are items |
| SearchBox.UpFrom | index.js:285-291 | ArrowUp without a selection does nothing; from item i it selects (i + count - 1) mod count |
| SearchBox.UpDownInverse | index.js:276-291 | ArrowUp undoes ArrowDown and ArrowDown undoes ArrowUp |
| SearchBox.DownVisitsEveryItem | index.js:276-284 | count presses of ArrowDown return to the start, and from no selection item j is reached after j + 1 presses |
| SearchBox.SelectRequest | index.js:119-127 | choosing an item fetches its coordinates when both are non-empty, and its "name,country" otherwise |
| SearchBox.SearchBox.Hide | index.js:113-116 | the list is hidden and emptied, no item selected, the input kept |
| SearchBox.SearchBox.Type | index.js:259-260 | a keystroke changes the input's text and nothing else |
| SearchBox.SearchBox.OnInput | index.js:259-262 | the lookup is the one LookupQuery gives for the input's current text; without one the list is hidden and emptied, with one the list is left for the reply |
| SearchBox.SearchBox.OnGeocodeReply | index.js:53-110 | the list becomes the displayed list for the reply, with no item selected, and is shown exactly when the reply holds places |
| SearchBox.SearchBox.SelectSuggestion | index.js:119-131 | the item's request is issued, the input emptied and the list hidden |
| SearchBox.SearchBox.KeyDown | index.js:272-298 | per key: ArrowDown and ArrowUp move the marker as DownFrom and UpFrom say; Enter with a marked item selects it; Escape hides the list; other keys and Enter without a marked item change nothing |
| SearchBox.SearchBox.ClickPage | index.js:265-269 | a click outside the search box hides the list; one inside changes nothing |
| SearchBox.StaleReplyStillShows | index.js:259-262 | a reply to "Londo" that arrives after the input became "Lo" and hid the list still shows the list |
| SearchBox.SubmitBeforeQuietPeriod | index.js:234-262 | typing "Rome" and pressing Enter before the handler fires fetches "Rome,GB", and the handler then looks nothing up |
| SearchBox.SearchBox.Submit | index.js:234-249 | empty input fetches nothing and changes nothing; otherwise the normalised location is fetched by name, the input emptied and the list hidden |

## Left out

- The debounce timer (`setTimeout`/`clearTimeout`): `OnInput` is the handler as it fires
  after the quiet period, and callers decide when it fires and whether a keystroke came first.
- Network and JSON: geocode and weather replies are parameters (`GeocodeReply`,
  `WeatherReply`). Failure is a reply value that hides the list or gives the not-found page.
- Replies that are not arrays but also not null are treated as `Unavailable`.
- `encodeURIComponent` on the geocode query is not modelled. `Url` is the weather address only.
- DOM work is replaced by the `SearchBox` fields. This covers the item markup and `state`
  text, `blur`, the container's opacity, `preventDefault`, and the browser-suppressed
  `keypress` after a handled Enter. `KeyDown` is the keydown handler alone, and `Submit`
  is `handleSearch`.
- Dates and locales: each forecast point carries its precomputed day of the month and
  English short weekday name, and today is an integer. The today panel's weekday and date
  text is not modelled.
- Floating point: temperatures are already rounded integers, and coordinates are the text
  the item's data attributes hold. Precipitation, humidity and wind text are not modelled.
- Text.Lower: only ASCII letters are mapped, not full Unicode case mapping.
- Text.Trim: lengths count code points, not UTF-16 code units.
- Weather.IconClass: keys inherited from `Object.prototype` (such as `constructor`) are not
  modelled as lookups that find something.
- Weather.FetchWeather: a malformed reply whose access throws goes to the not-found page
  (index.js:222-224). Examples are a point without `main` or with an empty `weather` array,
  met anywhere in the loop, or a missing `city` or `wind`. The model's points and reports
  always carry these parts, so it gives a dashboard where the code would show the not-found
  page.
- Weather.FetchWeather: missing leaf values are not modelled; the model's values are always
  present. In the code, values spliced into template literals then show the text
  `undefined`: `city.name` and `city.country` (index.js:160), `pop`, `humidity` and `speed`
  (index.js:166-168), and the icon in the class names (index.js:155, index.js:210). A
  missing `description` empties its element, because it is assigned through `textContent`
  (index.js:163).
- Stale geocode replies are not discarded in the code, and the model applies every reply
  the same way.
