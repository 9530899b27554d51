/** The search box of index.js with its suggestion list: the debounced input handler, the
    rendering of geocode replies, the keyboard navigation of the list, the clicks, and the
    search submission. The page's DOM is replaced by the state it holds: the input's text,
    the rendered suggestion items, whether the list is shown, and which item carries the
    `selected` marker. */
module SearchBox {
  import opened Wrappers
  import opened Text
  import opened KeyScan
  import opened Suggestions
  import opened Weather

  /** The keys the keydown handler tells apart. */
  datatype KeyName = ArrowDown | ArrowUp | Enter | Escape | OtherKey

  /** Queries shorter than this, once trimmed, never reach the geocoder. */
  const MinQueryLength := 4

  /** The query the debounced input handler looks up for the input's text, if any. */
  function LookupQuery(value: string): (q: Option<string>)
    ensures q.Some? <==> |Trim(value)| >= MinQueryLength
    ensures q.Some? ==> q.value == Trim(value) && |q.value| <= |value|
  {
    var query := Trim(value);
    if |query| < MinQueryLength then None else Some(query)
  }

  /** Input that is short or only white space never triggers a lookup. */
  lemma NoLookupForShortInput(value: string)
    requires |value| < MinQueryLength || forall k :: 0 <= k < |value| ==> IsJsSpace(value[k])
    ensures LookupQuery(value) == None
  {
    TrimInfix(value);
  }

  /** `handleSearch`'s reading of the input: nothing for empty input; otherwise the input
      itself when it names a country after a comma, and the input with ",GB" appended when
      it does not. */
  function NormalizeLocation(value: string): (r: Option<string>)
    ensures r.None? <==> value == ""
    ensures r.Some? ==> ',' in r.value && value <= r.value
    ensures r.Some? ==> (r.value == value <==> ',' in value)
    ensures r.Some? && ',' !in value ==> r.value == value + ",GB"
  {
    if value == "" then None
    else if ',' !in value then
      assert (value + ",GB")[|value|] == ',';
      Some(value + ",GB")
    else Some(value)
  }

  /** Normalising a normalised location changes nothing. */
  lemma NormalizeIdempotent(value: string)
    requires value != ""
    ensures NormalizeLocation(NormalizeLocation(value).value) == NormalizeLocation(value)
  {
  }

  /** The selection after ArrowDown among `count` items: from no selection the first item,
      from an item the next one, from the last item the first again. */
  function DownFrom(count: nat, sel: Option<nat>): (r: Option<nat>)
    requires sel.Some? ==> sel.value < count
    ensures r.Some? <==> count > 0
    ensures r.Some? ==> r.value < count
    ensures sel.None? && count > 0 ==> r == Some(0)
    ensures sel.Some? ==> r == Some((sel.value + 1) % count)
  {
    match sel
    case None => if count == 0 then None else Some(0)
    case Some(i) => if i + 1 < count then Some(i + 1) else Some(0)
  }

  /** The selection after ArrowUp: nothing happens without a selection; from an item the
      previous one, from the first item the last. */
  function UpFrom(count: nat, sel: Option<nat>): (r: Option<nat>)
    requires sel.Some? ==> sel.value < count
    ensures sel.None? ==> r == None
    ensures sel.Some? ==> r == Some((sel.value + count - 1) % count) && r.value < count
  {
    match sel
    case None => None
    case Some(i) => if i > 0 then Some(i - 1) else Some(count - 1)
  }

  /** ArrowUp undoes ArrowDown and ArrowDown undoes ArrowUp. */
  lemma UpDownInverse(count: nat, i: nat)
    requires i < count
    ensures UpFrom(count, DownFrom(count, Some(i))) == Some(i)
    ensures DownFrom(count, UpFrom(count, Some(i))) == Some(i)
  {
  }

  /** The selection after `n` presses of ArrowDown. */
  function DownPresses(count: nat, sel: Option<nat>, n: nat): (r: Option<nat>)
    requires sel.Some? ==> sel.value < count
    ensures r.Some? ==> r.value < count
  {
    if n == 0 then sel else DownFrom(count, DownPresses(count, sel, n - 1))
  }

  /** Pressing `a` times and then `b` times is pressing `a + b` times. */
  lemma {:induction false} DownPressesAdd(count: nat, sel: Option<nat>, a: nat, b: nat)
    requires sel.Some? ==> sel.value < count
    ensures DownPresses(count, sel, a + b) == DownPresses(count, DownPresses(count, sel, a), b)
  {
    if b > 0 {
      DownPressesAdd(count, sel, a, b - 1);
    }
  }

  /** From item `i`, the selection moves down one item per press until it passes the last
      item, where it wraps to the first. */
  lemma {:induction false} DownPressesAdvance(count: nat, i: nat, n: nat)
    requires i + n < count
    ensures DownPresses(count, Some(i), n) == Some(i + n)
  {
    if n > 0 {
      DownPressesAdvance(count, i, n - 1);
    }
  }

  /** `count` presses bring the selection back where it started, and from no selection
      each item is reached in turn: item j after j + 1 presses. */
  lemma DownVisitsEveryItem(count: nat, i: nat, j: nat)
    requires i < count && j < count
    ensures DownPresses(count, Some(i), count) == Some(i)
    ensures DownPresses(count, None, j + 1) == Some(j)
  {
    DownPressesCycle(count, i);
    DownPressesShift(count, j);
  }

  /** `count` presses of ArrowDown from item `i` come back to item `i`. */
  lemma DownPressesCycle(count: nat, i: nat)
    requires i < count
    ensures DownPresses(count, Some(i), count) == Some(i)
  {
    DownPressesAdvance(count, i, count - 1 - i);
    assert DownPresses(count, Some(i), count - i) == Some(0);
    DownPressesAdd(count, Some(i), count - i, i);
    DownPressesAdvance(count, 0, i);
  }

  /** Pressing ArrowDown from no selection is pressing it from the first item, one press
      later. */
  lemma {:induction false} DownPressesShift(count: nat, j: nat)
    requires j < count
    ensures DownPresses(count, None, j + 1) == Some(j)
  {
    if j == 0 {
      assert DownPresses(count, None, 0) == None;
    } else {
      DownPressesShift(count, j - 1);
      assert DownPresses(count, None, j + 1) == DownFrom(count, Some(j - 1));
    }
  }

  /** What choosing a suggestion fetches: the item's coordinates when both are non-empty,
      and its "name,country" otherwise. */
  function SelectRequest(l: Location): (r: Request)
    ensures l.lat != "" && l.lon != "" ==> r == ByCoordinates(l.lat, l.lon)
    ensures !(l.lat != "" && l.lon != "") ==> r == ByLocation(l.name + "," + l.country)
  {
    ChooseRequest(l.name + "," + l.country, Some(l.lat), Some(l.lon))
  }

  /** The search box and its suggestion list. */
  class SearchBox {
    /** The text in the input. */
    var input: string
    /** The rendered suggestion items, top to bottom. */
    var items: seq<Location>
    /** Whether the list carries the `active` class (is shown). */
    var active: bool
    /** The item carrying the `selected` class, if any. */
    var selected: Option<nat>

    /** The marker is on a rendered item, and the list is shown exactly when it has items. */
    ghost predicate Valid()
      reads this
    {
      && (selected.Some? ==> selected.value < |items|)
      && (active <==> items != [])
    }

    /** The page as loaded: an empty input and an empty, hidden list. */
    constructor ()
      ensures Valid()
      ensures input == "" && items == [] && !active && selected == None
    {
      input := "";
      items := [];
      active := false;
      selected := None;
    }

    /** `hideSuggestions`: hide the list and remove its items (and with them the marker). */
    method Hide()
      modifies this
      ensures Valid()
      ensures items == [] && !active && selected == None && input == old(input)
    {
      active := false;
      items := [];
      selected := None;
    }

    /** A keystroke or paste: the input's text changes at once, and nothing else does. */
    method Type(value: string)
      requires Valid()
      modifies this
      ensures Valid() && input == value
      ensures items == old(items) && active == old(active) && selected == old(selected)
    {
      input := value;
    }

    /** The debounced input handler as it fires after the quiet period, with the input's
        text at that moment: a trimmed query of fewer than four characters hides the list,
        a longer one is looked up (the reply arrives later through OnGeocodeReply). */
    method OnInput() returns (lookup: Option<string>)
      requires Valid()
      modifies this
      ensures Valid() && input == old(input)
      ensures lookup == LookupQuery(input)
      ensures lookup.None? ==> items == [] && !active && selected == None
      ensures lookup.Some? ==>
        items == old(items) && active == old(active) && selected == old(selected)
    {
      var query := Trim(input);
      if |query| < MinQueryLength {
        Hide();
        lookup := None;
      } else {
        lookup := Some(query);
      }
    }

    /** `displaySuggestions`, or the failure path that hides the list: an empty, null or
        unreadable reply hides it; otherwise the list is replaced by the deduplicated,
        ranked places and shown, with no item selected. Every reply is applied, whichever
        query it answers. */
    method OnGeocodeReply(reply: GeocodeReply)
      requires Valid()
      modifies this
      ensures Valid() && input == old(input)
      ensures items == Displayed(reply) && selected == None
      ensures active <==> reply.Places? && reply.places != []
    {
      if reply.Places? && |reply.places| > 0 {
        items := RankedUnique(reply.places);
        selected := None;
        active := true;
      } else {
        Hide();
      }
    }

    /** `selectSuggestion`, as the item's click handler and Enter call it: fetch the item's
        weather, empty the input and hide the list. */
    method SelectSuggestion(i: nat) returns (request: Request)
      requires Valid() && i < |items|
      modifies this
      ensures Valid()
      ensures request == SelectRequest(old(items)[i])
      ensures input == "" && items == [] && !active && selected == None
    {
      var l := items[i];
      request := SelectRequest(l);
      input := "";
      Hide();
    }

    /** The keydown handler: ArrowDown and ArrowUp move the marker, Enter with a marked item
        selects it, Escape hides the list; anything else, and Enter without a marked item,
        leaves the state as it is. */
    method KeyDown(key: KeyName) returns (request: Option<Request>)
      requires Valid()
      modifies this
      ensures Valid()
      ensures key == ArrowDown ==>
        && request == None && selected == DownFrom(|old(items)|, old(selected))
        && items == old(items) && active == old(active) && input == old(input)
      ensures key == ArrowUp ==>
        && request == None && selected == UpFrom(|old(items)|, old(selected))
        && items == old(items) && active == old(active) && input == old(input)
      ensures key == Enter && old(selected).Some? ==>
        && request == Some(SelectRequest(old(items)[old(selected).value]))
        && input == "" && items == [] && !active && selected == None
      ensures key == Escape ==>
        request == None && input == old(input) && items == [] && !active && selected == None
      ensures key == OtherKey || (key == Enter && old(selected).None?) ==>
        request == None && unchanged(this)
    {
      request := None;
      if key == ArrowDown {
        if selected.None? {
          if |items| > 0 {
            selected := Some(0);
          }
        } else {
          var next := if selected.value + 1 < |items| then selected.value + 1 else 0;
          selected := Some(next);
        }
      } else if key == ArrowUp {
        if selected.Some? {
          var prev := if selected.value > 0 then selected.value - 1 else |items| - 1;
          selected := Some(prev);
        }
      } else if key == Enter && selected.Some? {
        var r := SelectSuggestion(selected.value);
        request := Some(r);
      } else if key == Escape {
        Hide();
      }
    }

    /** The document's click handler: a click outside the search box hides the list. */
    method ClickPage(insideSearchBox: bool)
      requires Valid()
      modifies this
      ensures Valid()
      ensures !insideSearchBox ==> items == [] && !active && selected == None && input == old(input)
      ensures insideSearchBox ==> unchanged(this)
    {
      if !insideSearchBox {
        Hide();
      }
    }

    /** `handleSearch`, run by the search button and by Enter in the input: nothing for an
        empty input; otherwise fetch the normalised location by name, empty the input and
        hide the list. */
    method Submit() returns (request: Option<Request>)
      requires Valid()
      modifies this
      ensures Valid()
      ensures old(input) == "" ==> request == None && unchanged(this)
      ensures old(input) != "" ==>
        && request == Some(ByLocation(NormalizeLocation(old(input)).value))
        && input == "" && items == [] && !active && selected == None
    {
      var location := input;
      if location == "" {
        return None;
      }
      if ',' !in location {
        location := location + ",GB";
      }
      var r := ChooseRequest(location, None, None);
      request := Some(r);
      input := "";
      Hide();
    }
  }

  /** A reply to an earlier lookup that arrives after a short query hid the list still
      fills the list: replies are not matched to the query that asked for them. */
  method StaleReplyStillShows() returns (shown: bool, query: string)
    ensures shown && query == "Lo"
  {
    var box := new SearchBox();
    box.Type("Londo");
    var first := box.OnInput();
    box.Type("Lo");
    var second := box.OnInput();
    assert second == None && !box.active;
    var london := Location("London", "GB", "51.5", "-0.13");
    box.OnGeocodeReply(Places([london]));
    shown, query := box.active, box.input;
  }

  /** Typing "Rome" and pressing Enter before the quiet period ends fetches "Rome,GB" by
      name, and the pending input handler then fires on the emptied input: it looks nothing
      up and leaves the list hidden. */
  method SubmitBeforeQuietPeriod() returns (fetched: Option<Request>, lookup: Option<string>)
    ensures fetched == Some(ByLocation("Rome,GB")) && lookup == None
  {
    var box := new SearchBox();
    box.Type("Rome");
    assert ',' !in "Rome" && "Rome" + ",GB" == "Rome,GB";
    fetched := box.Submit();
    assert Trim(box.input) == [];
    lookup := box.OnInput();
  }
}
