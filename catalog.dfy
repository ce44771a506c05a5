/**
 * The timezone picker's catalog: the curated list of zones, each projected
 * to an entry with its city, offset and search text, ordered by offset
 * with a stable sort, widened by search aliases, and filtered by what the
 * user types.
 *
 * The offset of a zone comes from the host's locale service: `longOffset`
 * gives, for each zone, the current date formatted with
 * `timeZoneName: 'longOffset'`.
 */
module Catalog {
  import opened Text
  import opened Offset
  import opened Names

  /** One picker entry: `{id, city, offsetMins, offsetLabel, searchStr}`. */
  datatype Entry = Entry(id: string, city: string, offsetMins: int, offsetLabel: string, searchStr: string)

  /** One line of the picker list: the zone it adds, and its text. */
  datatype Row = Row(timezone: string, text: string)

  /** The curated list, in the source's order (script.js:29-36). */
  const MajorTimezones: seq<string> := [
    "Pacific/Midway", "Pacific/Honolulu", "America/Anchorage", "America/Los_Angeles",
    "America/Denver", "America/Chicago", "America/New_York", "America/Sao_Paulo",
    "Atlantic/Azores", "Europe/London", "Europe/Paris", "Europe/Berlin",
    "Europe/Moscow", "Africa/Cairo", "Africa/Johannesburg", "Asia/Dubai",
    "Asia/Karachi", "Asia/Kolkata", "Asia/Dhaka", "Asia/Bangkok",
    "Asia/Shanghai", "Asia/Tokyo", "Australia/Sydney", "Pacific/Auckland"
  ]

  /** Extra search words for a few zones (script.js:109-116). */
  const ExtraAliases: map<string, string> := map[
    "Asia/Kolkata" := "Delhi New Delhi Mumbai India",
    "America/Los_Angeles" := "San Francisco Seattle California",
    "America/New_York" := "Boston",
    "Europe/London" := "UK",
    "Asia/Shanghai" := "Beijing China",
    "Asia/Tokyo" := "Japan"
  ]

  /** The entry built for zone tz whose formatted date is `formatted` (script.js:52-71). */
  function Project(tz: string, formatted: string): Entry {
    var minutes := OffsetMinutes(formatted);
    var city := CityName(tz);
    Entry(tz, city, minutes, FormatOffset(minutes), ToLower(city + " " + tz))
  }

  /** `majorTimezones.map(...)`, before sorting. */
  function Projected(zones: seq<string>, longOffset: string -> string): (es: seq<Entry>)
    ensures |es| == |zones|
    ensures forall k :: 0 <= k < |zones| ==> es[k] == Project(zones[k], longOffset(zones[k]))
  {
    seq(|zones|, k requires 0 <= k < |zones| => Project(zones[k], longOffset(zones[k])))
  }

  // ----- The stable sort by offset (`.sort((a, b) => a.offsetMins - b.offsetMins)`) -----

  ghost predicate SortedByOffset(es: seq<Entry>) {
    forall i, j :: 0 <= i < j < |es| ==> es[i].offsetMins <= es[j].offsetMins
  }

  /** The entries of es with offset k, in the order of es. */
  function WithOffset(es: seq<Entry>, k: int): seq<Entry> {
    if es == [] then []
    else (if es[0].offsetMins == k then [es[0]] else []) + WithOffset(es[1..], k)
  }

  /** Puts e before the first entry whose offset is not smaller than e's. */
  function InsertByOffset(e: Entry, es: seq<Entry>): seq<Entry> {
    if es == [] || e.offsetMins <= es[0].offsetMins then [e] + es
    else [es[0]] + InsertByOffset(e, es[1..])
  }

  /** Insertion sort from the back: each entry goes before every later entry with the same offset. */
  function SortByOffset(es: seq<Entry>): seq<Entry> {
    if es == [] then [] else InsertByOffset(es[0], SortByOffset(es[1..]))
  }

  lemma {:induction false} InsertPermutes(e: Entry, es: seq<Entry>)
    ensures multiset(InsertByOffset(e, es)) == multiset(es) + multiset{e}
  {
    if es != [] && e.offsetMins > es[0].offsetMins {
      InsertPermutes(e, es[1..]);
      assert es == [es[0]] + es[1..];
    }
  }

  lemma {:induction false} InsertSorted(e: Entry, es: seq<Entry>)
    requires SortedByOffset(es)
    ensures SortedByOffset(InsertByOffset(e, es))
  {
    if es != [] && e.offsetMins > es[0].offsetMins {
      var tail := InsertByOffset(e, es[1..]);
      InsertSorted(e, es[1..]);
      InsertPermutes(e, es[1..]);
      forall x | x in tail ensures es[0].offsetMins <= x.offsetMins {
        assert x in multiset(tail);
        assert x in multiset(es[1..]) || x == e;
      }
    }
  }

  lemma {:induction false} InsertKeepsOffsetOrder(e: Entry, es: seq<Entry>, k: int)
    ensures WithOffset(InsertByOffset(e, es), k)
            == (if e.offsetMins == k then [e] else []) + WithOffset(es, k)
  {
    var mine := if e.offsetMins == k then [e] else [];
    if es == [] || e.offsetMins <= es[0].offsetMins {
      var r := [e] + es;
      assert r[0] == e && r[1..] == es;
      assert WithOffset(r, k) == mine + WithOffset(es, k);
    } else {
      var rest := InsertByOffset(e, es[1..]);
      InsertKeepsOffsetOrder(e, es[1..], k);
      var r := [es[0]] + rest;
      assert r[0] == es[0] && r[1..] == rest;
      var head := if es[0].offsetMins == k then [es[0]] else [];
      var kept := WithOffset(es[1..], k);
      assert WithOffset(rest, k) == mine + kept;
      assert WithOffset(r, k) == head + (mine + kept);
      assert WithOffset(es, k) == head + kept;
      if head == [] {
        assert head + (mine + kept) == mine + (head + kept);
      } else {
        assert mine == [];
        assert head + (mine + kept) == mine + (head + kept);
      }
    }
  }

  /** The sorted catalog is in non-decreasing offset order. */
  lemma {:induction false} SortByOffsetSorted(es: seq<Entry>)
    ensures SortedByOffset(SortByOffset(es))
  {
    if es != [] {
      SortByOffsetSorted(es[1..]);
      InsertSorted(es[0], SortByOffset(es[1..]));
    }
  }

  /** The sorted catalog holds exactly the entries it was given. */
  lemma {:induction false} SortByOffsetPermutes(es: seq<Entry>)
    ensures multiset(SortByOffset(es)) == multiset(es)
  {
    if es != [] {
      SortByOffsetPermutes(es[1..]);
      InsertPermutes(es[0], SortByOffset(es[1..]));
      assert es == [es[0]] + es[1..];
    }
  }

  /** Stability: entries with equal offsets keep their catalog order. */
  lemma {:induction false} SortByOffsetStable(es: seq<Entry>, k: int)
    ensures WithOffset(SortByOffset(es), k) == WithOffset(es, k)
  {
    if es != [] {
      SortByOffsetStable(es[1..], k);
      InsertKeepsOffsetOrder(es[0], SortByOffset(es[1..]), k);
    }
  }

  // ----- Search aliases (script.js:119-123) -----

  /** The alias pass on one entry: an id with aliases gets them appended, lower-cased. */
  function WithAlias(e: Entry): Entry {
    if e.id in ExtraAliases
    then e.(searchStr := e.searchStr + " " + ToLower(ExtraAliases[e.id]))
    else e
  }

  /**
   * Only the search text changes; it gains ` <aliases>` exactly when the id
   * is a key of the alias table, and whatever it matched it still matches.
   */
  lemma WithAliasExtendsSearch(e: Entry, filter: string)
    ensures WithAlias(e).(searchStr := e.searchStr) == e
    ensures e.id in ExtraAliases ==> WithAlias(e).searchStr == e.searchStr + " " + ToLower(ExtraAliases[e.id])
    ensures e.id !in ExtraAliases ==> WithAlias(e).searchStr == e.searchStr
    ensures Contains(e.searchStr, filter) ==> Contains(WithAlias(e).searchStr, filter)
  {
    if e.id in ExtraAliases && Contains(e.searchStr, filter) {
      ContainsExtended(e.searchStr, " " + ToLower(ExtraAliases[e.id]), filter);
      assert e.searchStr + (" " + ToLower(ExtraAliases[e.id])) == e.searchStr + " " + ToLower(ExtraAliases[e.id]);
    }
  }

  /** An alias word, typed in any case, finds its zone. */
  lemma AliasFindsZone(e: Entry, word: string)
    requires e.id in ExtraAliases
    requires Contains(ToLower(ExtraAliases[e.id]), ToLower(word))
    ensures Contains(WithAlias(e).searchStr, ToLower(word))
  {
    var alias := ToLower(ExtraAliases[e.id]);
    var w := ToLower(word);
    var i :| 0 <= i <= |alias| - |w| && OccursAt(alias, w, i);
    var s := WithAlias(e).searchStr;
    assert s == e.searchStr + " " + alias;
    assert s[|e.searchStr| + 1 + i..|e.searchStr| + 1 + i + |w|] == alias[i..i + |w|];
    assert OccursAt(s, w, |e.searchStr| + 1 + i);
  }

  /** The `forEach` over the processed array, updating each entry in place. */
  method ApplyAliases(items: array<Entry>)
    modifies items
    ensures forall k :: 0 <= k < items.Length ==> items[k] == WithAlias(old(items[k]))
  {
    for i := 0 to items.Length
      invariant forall k :: 0 <= k < i ==> items[k] == WithAlias(old(items[k]))
      invariant forall k :: i <= k < items.Length ==> items[k] == old(items[k])
    {
      items[i] := WithAlias(items[i]);
    }
  }

  /** The alias pass over a whole list. */
  function Aliased(es: seq<Entry>): (r: seq<Entry>)
    ensures |r| == |es|
    ensures forall k :: 0 <= k < |es| ==> r[k] == WithAlias(es[k])
  {
    seq(|es|, k requires 0 <= k < |es| => WithAlias(es[k]))
  }

  /** `processedTimezones` once the alias pass has run. */
  function ProcessedTimezones(longOffset: string -> string): seq<Entry> {
    Aliased(SortByOffset(Projected(MajorTimezones, longOffset)))
  }

  /** The processed catalog: projected, sorted by offset, then widened by aliases in place. */
  method BuildCatalog(longOffset: string -> string) returns (items: array<Entry>)
    ensures fresh(items)
    ensures items[..] == ProcessedTimezones(longOffset)
  {
    items := Process(MajorTimezones, longOffset);
  }

  method Process(zones: seq<string>, longOffset: string -> string) returns (items: array<Entry>)
    ensures fresh(items)
    ensures items[..] == Aliased(SortByOffset(Projected(zones, longOffset)))
  {
    var sorted := SortByOffset(Projected(zones, longOffset));
    items := new Entry[|sorted|](k requires 0 <= k < |sorted| => sorted[k]);
    ApplyAliases(items);
  }

  /** The zone ids of a list of entries, in order. */
  function Ids(es: seq<Entry>): (ids: seq<string>)
    ensures |ids| == |es|
    ensures forall k :: 0 <= k < |es| ==> ids[k] == es[k].id
  {
    if es == [] then [] else [es[0].id] + Ids(es[1..])
  }

  lemma {:induction false} InsertKeepsIds(e: Entry, es: seq<Entry>)
    ensures multiset(Ids(InsertByOffset(e, es))) == multiset(Ids(es)) + multiset{e.id}
  {
    if es != [] && e.offsetMins > es[0].offsetMins {
      InsertKeepsIds(e, es[1..]);
      var r := [es[0]] + InsertByOffset(e, es[1..]);
      assert r[1..] == InsertByOffset(e, es[1..]);
      assert Ids(es) == [es[0].id] + Ids(es[1..]);
      assert Ids(r) == [es[0].id] + Ids(r[1..]);
    } else {
      var r := [e] + es;
      assert r[1..] == es;
      assert Ids(r) == [e.id] + Ids(es);
    }
  }

  lemma {:induction false} SortKeepsIds(es: seq<Entry>)
    ensures multiset(Ids(SortByOffset(es))) == multiset(Ids(es))
  {
    if es != [] {
      SortKeepsIds(es[1..]);
      InsertKeepsIds(es[0], SortByOffset(es[1..]));
      assert Ids(es) == [es[0].id] + Ids(es[1..]);
    }
  }

  /** The alias pass keeps every entry's offset, so it keeps each offset's subsequence up to the pass itself. */
  lemma {:induction false} AliasedKeepsOffsetOrder(es: seq<Entry>, k: int)
    ensures WithOffset(Aliased(es), k) == Aliased(WithOffset(es, k))
  {
    if es != [] {
      AliasedKeepsOffsetOrder(es[1..], k);
      var a := Aliased(es);
      assert a[0] == WithAlias(es[0]);
      assert a[1..] == Aliased(es[1..]);
      var mine := if es[0].offsetMins == k then [es[0]] else [];
      assert Aliased(mine + WithOffset(es[1..], k)) == Aliased(mine) + Aliased(WithOffset(es[1..], k));
    }
  }

  /** The processed catalog is in non-decreasing offset order, and so is every picker list drawn from it. */
  lemma ProcessedSorted(longOffset: string -> string, lowerFilter: string)
    ensures SortedByOffset(ProcessedTimezones(longOffset))
    ensures SortedByOffset(Listed(ProcessedTimezones(longOffset), lowerFilter))
  {
    var sorted := SortByOffset(Projected(MajorTimezones, longOffset));
    SortByOffsetSorted(Projected(MajorTimezones, longOffset));
    var processed := Aliased(sorted);
    assert forall k :: 0 <= k < |sorted| ==> processed[k].offsetMins == sorted[k].offsetMins;
    ListedKeepsOrder(processed, lowerFilter);
  }

  /** The processed catalog holds each curated zone exactly once, and nothing else. */
  lemma ProcessedPermutesZones(longOffset: string -> string)
    ensures multiset(Ids(ProcessedTimezones(longOffset))) == multiset(MajorTimezones)
  {
    ProcessKeepsZones(MajorTimezones, longOffset);
  }

  lemma ProcessKeepsZones(zones: seq<string>, longOffset: string -> string)
    ensures multiset(Ids(Aliased(SortByOffset(Projected(zones, longOffset))))) == multiset(zones)
  {
    var projected := Projected(zones, longOffset);
    var sorted := SortByOffset(projected);
    SortKeepsIds(projected);
    assert Ids(Aliased(sorted)) == Ids(sorted);
    assert Ids(projected) == zones;
  }

  /** Zones with the same offset keep their curated order in the processed catalog. */
  lemma ProcessedStable(longOffset: string -> string, k: int)
    ensures WithOffset(ProcessedTimezones(longOffset), k)
            == Aliased(WithOffset(Projected(MajorTimezones, longOffset), k))
  {
    var projected := Projected(MajorTimezones, longOffset);
    SortByOffsetStable(projected, k);
    AliasedKeepsOffsetOrder(SortByOffset(projected), k);
  }

  /** A projected entry is found by its own id and by its own city, typed in any case. */
  lemma ProjectFindsItself(tz: string, formatted: string)
    ensures Contains(Project(tz, formatted).searchStr, ToLower(tz))
    ensures Contains(Project(tz, formatted).searchStr, ToLower(CityName(tz)))
    ensures Project(tz, formatted).city == CityName(tz)
    ensures -6000 < Project(tz, formatted).offsetMins < 6000 ==>
              OffsetMinutes(Project(tz, formatted).offsetLabel) == Project(tz, formatted).offsetMins
  {
    var city := CityName(tz);
    ToLowerAppend(city + " ", tz);
    ToLowerAppend(city, " ");
    ContainsInfix(ToLower(city + " "), ToLower(tz), "");
    assert ToLower(city + " ") + ToLower(tz) + "" == ToLower(city + " " + tz);
    ContainsInfix("", ToLower(city), ToLower(" ") + ToLower(tz));
    assert "" + ToLower(city) + (ToLower(" ") + ToLower(tz)) == ToLower(city + " " + tz);
    FormatParseRoundTrip(OffsetMinutes(formatted));
  }

  // ----- The picker list (renderTimezoneList, script.js:82-104) -----

  /** The entries listed for an already lower-cased filter: `searchStr.includes(lowerFilter)`. */
  function Listed(items: seq<Entry>, lowerFilter: string): seq<Entry> {
    if items == [] then []
    else (if Contains(items[0].searchStr, lowerFilter) then [items[0]] else []) + Listed(items[1..], lowerFilter)
  }

  /** The text of a list line: `Region / City (GMT±HH:MM)`. */
  function RowOf(e: Entry): Row {
    Row(e.id, DisplayName(e.id) + " (" + e.offsetLabel + ")")
  }

  function RowsOf(es: seq<Entry>): (rows: seq<Row>)
    ensures |rows| == |es|
    ensures forall k :: 0 <= k < |es| ==> rows[k] == RowOf(es[k])
  {
    seq(|es|, k requires 0 <= k < |es| => RowOf(es[k]))
  }

  /** renderTimezoneList: the lines of the picker list for what the user typed. */
  method RenderTimezoneList(items: seq<Entry>, filter: string) returns (rows: seq<Row>)
    ensures rows == RowsOf(Listed(items, ToLower(filter)))
  {
    var lowerFilter := ToLower(filter);
    rows := [];
    for i := 0 to |items|
      invariant rows == RowsOf(Listed(items[..i], lowerFilter))
    {
      ListedSnoc(items[..i], items[i], lowerFilter);
      assert items[..i + 1] == items[..i] + [items[i]];
      if Contains(items[i].searchStr, lowerFilter) {
        rows := rows + [RowOf(items[i])];
      }
    }
    assert items[..|items|] == items;
  }

  lemma {:induction false} ListedSnoc(items: seq<Entry>, e: Entry, f: string)
    ensures Listed(items + [e], f) == Listed(items, f) + (if Contains(e.searchStr, f) then [e] else [])
  {
    if items == [] {
      assert [e][1..] == [];
    } else {
      ListedSnoc(items[1..], e, f);
      assert (items + [e])[1..] == items[1..] + [e];
    }
  }

  /** An entry is listed iff it is in the catalog and its search text contains the filter. */
  lemma {:induction false} ListedIff(items: seq<Entry>, f: string, e: Entry)
    ensures e in Listed(items, f) <==> e in items && Contains(e.searchStr, f)
  {
    if items != [] {
      ListedIff(items[1..], f, e);
      assert items == [items[0]] + items[1..];
    }
  }

  /** The empty filter lists the whole catalog. */
  lemma {:induction false} ListedEmptyFilter(items: seq<Entry>)
    ensures Listed(items, "") == items
  {
    if items != [] {
      ContainsEmpty(items[0].searchStr);
      ListedEmptyFilter(items[1..]);
      assert items == [items[0]] + items[1..];
    }
  }

  /** Listed entries keep the catalog's order by offset. */
  lemma {:induction false} ListedKeepsOrder(items: seq<Entry>, f: string)
    requires SortedByOffset(items)
    ensures SortedByOffset(Listed(items, f))
  {
    if items != [] {
      ListedKeepsOrder(items[1..], f);
      var rest := Listed(items[1..], f);
      forall x | x in rest ensures items[0].offsetMins <= x.offsetMins {
        ListedIff(items[1..], f, x);
      }
    }
  }
}
