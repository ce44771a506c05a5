/**
 * The small classifications of a clock card and the page: day or night
 * from the zone's hour (script.js:240), summer or winter from the zone's
 * long name (script.js:274-275), and the light/dark theme (script.js:18, 23).
 *
 * The hour and the long zone name come from the host's locale service and
 * are parameters here.
 */
module Classify {
  import opened Wrappers
  import opened Text

  /** `hours >= 6 && hours < 18`. */
  predicate IsDay(hours: int) {
    hours >= 6 && hours < 18
  }

  /** Day is the twelve hours from 6 to 17 of a 24-hour clock. */
  lemma DayIsSixToSeventeen(h: int)
    requires 0 <= h < 24
    ensures IsDay(h) <==> h in {6, 7, 8, 9, 10, 11, 12, 13, 14, 15, 16, 17}
  {
  }

  datatype Season = Summer | Winter

  /** Summer when the lower-cased long name mentions `daylight` or `summer`. */
  function SeasonOf(longName: string): Season {
    var lower := ToLower(longName);
    if Contains(lower, "daylight") || Contains(lower, "summer") then Summer else Winter
  }

  /** The label shown on the card. */
  function SeasonLabel(s: Season): string {
    match s
    case Summer => "SUMMER"
    case Winter => "WINTER"
  }

  /** A name carrying a marker in any letter case reads as summer. */
  lemma MarkerMeansSummer(before: string, marker: string, after: string)
    requires ToLower(marker) == "daylight" || ToLower(marker) == "summer"
    ensures SeasonOf(before + marker + after) == Summer
  {
    ToLowerAppend(before + marker, after);
    ToLowerAppend(before, marker);
    ContainsInfix(ToLower(before), ToLower(marker), ToLower(after));
  }

  /** Only the lower-cased name matters: names that agree up to case agree on the season. */
  lemma SeasonIgnoresCase(a: string, b: string)
    requires ToLower(a) == ToLower(b)
    ensures SeasonOf(a) == SeasonOf(b)
  {
  }

  /** The converse of MarkerMeansSummer: a SUMMER name has a marker, in some letter case, somewhere in it. */
  lemma SummerHasMarker(longName: string)
    requires SeasonOf(longName) == Summer
    ensures exists before, marker, after :: longName == before + marker + after
              && (ToLower(marker) == "daylight" || ToLower(marker) == "summer")
  {
    var lower := ToLower(longName);
    var m := if Contains(lower, "daylight") then "daylight" else "summer";
    var i :| 0 <= i <= |lower| - |m| && OccursAt(lower, m, i);
    MarkerPieces(longName, m, i);
    var before, marker, after := longName[..i], longName[i..i + |m|], longName[i + |m|..];
    assert longName == before + marker + after && ToLower(marker) == m;
  }

  /** Where the lower-cased name holds m at i, the name splits around a piece that lower-cases to m. */
  lemma MarkerPieces(name: string, m: string, i: int)
    requires OccursAt(ToLower(name), m, i)
    ensures name == name[..i] + name[i..i + |m|] + name[i + |m|..]
    ensures ToLower(name[i..i + |m|]) == m
  {
    ToLowerSlice(name, i, i + |m|);
  }

  lemma DaylightExample()
    ensures SeasonOf("Central Daylight Time") == Summer
  {
    assert ToLower("Daylight") == "daylight";
    assert "Central " + "Daylight" + " Time" == "Central Daylight Time";
    MarkerMeansSummer("Central ", "Daylight", " Time");
  }

  lemma SummerExample()
    ensures SeasonOf("British Summer Time") == Summer
  {
    assert ToLower("Summer") == "summer";
    assert "British " + "Summer" + " Time" == "British Summer Time";
    MarkerMeansSummer("British ", "Summer", " Time");
  }

  /** A name lacking one letter of both markers reads as winter. */
  lemma MissingLetterMeansWinter(longName: string, c1: char, c2: char)
    requires c1 in "daylight" && c2 in "summer"
    requires c1 !in ToLower(longName) && c2 !in ToLower(longName)
    ensures SeasonOf(longName) == Winter
  {
    var lower := ToLower(longName);
    if Contains(lower, "daylight") {
      LetterOfContained(lower, "daylight", c1);
    }
    if Contains(lower, "summer") {
      LetterOfContained(lower, "summer", c2);
    }
  }

  lemma LetterOfContained(s: string, t: string, c: char)
    requires Contains(s, t) && c in t
    ensures c in s
  {
    var i :| 0 <= i <= |s| - |t| && OccursAt(s, t, i);
    var k :| 0 <= k < |t| && t[k] == c;
    assert s[i + k] == t[k];
  }

  lemma StandardExample()
    ensures SeasonOf("Japan Standard Time") == Winter
  {
    var s := "Japan Standard Time";
    var lower := ToLower(s);
    assert |lower| == 19;
    forall k | 0 <= k < 19 ensures lower[k] != 'y' && lower[k] != 'u' {
      assert lower[k] == LowerChar(s[k]);
    }
    assert 'y' !in lower;
    assert 'u' !in lower;
    MissingLetterMeansWinter(s, 'y', 'u');
  }

  /** `localStorage.getItem('theme') || 'light'`: a missing or empty stored theme reads as light. */
  function InitialTheme(stored: Option<string>): (theme: string)
    ensures stored == None || stored == Some("") ==> theme == "light"
    ensures stored.Some? && stored.value != "" ==> theme == stored.value
  {
    match stored
    case Some(t) => if t == "" then "light" else t
    case None => "light"
  }

  /** The theme after a click on the toggle: dark after light, light after anything else. */
  function ToggledTheme(current: string): (next: string)
    ensures next == "light" || next == "dark"
    ensures next != current
  {
    if current == "light" then "dark" else "light"
  }

  /** The theme a toggle writes is the theme the next page load reads. */
  lemma StoredThemeReadBack(current: string)
    ensures InitialTheme(Some(ToggledTheme(current))) == ToggledTheme(current)
  {
  }

  /** Two clicks bring a light or dark page back to where it was. */
  lemma ToggleTwice(current: string)
    requires current == "light" || current == "dark"
    ensures ToggledTheme(ToggledTheme(current)) == current
  {
  }
}
