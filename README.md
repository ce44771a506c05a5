# World clock widget: offset codec, picker catalog and clock list

This project models the logic of an early version of a browser world-clock
widget, `script.js`, and proves properties of it in Dafny. The widget shows
analog clocks for chosen IANA timezones. It lets the user add clocks, up
to six, from a searchable picker and remove them again, and it keeps the
list in local storage. The model covers the file's offset parsing and
formatting, the picker catalog, the clock list and the small classifiers
(day/night, season, theme); the rendering and the DOM are left out.

- `offset.dfy` (module `Offset`): `getOffsetMinutes` and `getOffsetString`.
  They read the first `GMT±HH:MM` fragment of a date string formatted with
  `timeZoneName: 'longOffset'`. The module also has the label builder that
  turns signed minutes back into `GMT±HH:MM`. The formatted string is a
  parameter.
- `names.dfy` (module `Names`): the city name (`Los_Angeles` →
  `Los Angeles`), the `Region / City` display form and the card title.
- `catalog.dfy` (module `Catalog`): the curated list of 24 zones. Each zone
  is projected to `{id, city, offsetMins, offsetLabel, searchStr}` and the
  entries are stable-sorted by offset. The search aliases are appended in
  place over an array. The picker list is the entries whose search text
  contains the lower-cased filter.
- `clocks.dfy` (module `Clocks`): the `clocks` list as a class
  `ClockBoard`. It has `addClock` (cap 6), `removeClock` (a `splice` by
  index, behind a confirmation) and `saveClocks`. Storage is the ghost
  field `saved`, which `SaveClocks` overwrites. A separate model of the
  user's actions (picker clicks and remove buttons) shows which sequences
  the UI can produce.
- `classify.dfy` (module `Classify`): day/night from the hour, SUMMER/WINTER
  from the long zone name, and the light/dark theme.
- `card.dfy` (module `Card`): the text of one clock card (title, offset
  label, season) and its day flag.
- `text.dfy` and `wrappers.dfy`: the string operations the widget uses
  (`toLowerCase`, `includes`, `replace`, `split`, `join`) and `Option`.

Inputs from the host are parameters: the formatted date strings, the zone's
hour and long name, the stored list and theme, the ambient zone, and the
answer of the confirmation dialog.

On these points the model follows what script.js does:
- the cap is 6;
- `addClock` does not reject duplicates;
- `removeClock` does not itself refuse to remove the local clock. Only the
  missing remove button on the local card protects it (`RemoveClockCanDropLocal`);
- start-up takes the stored list as it is, with no de-duplication, no
  second default clock and no save;
- the season has only SUMMER and WINTER, so UTC reads as WINTER;
- the clock list is not re-sorted by offset.

## Model

| member | source | states |
|---|---|---|
| `Offset.FirstMatch` | script.js:43 | The result is the leftmost position where `GMT[+-]dd:dd` matches, or None when no position matches. |
| `Offset.OffsetMinutes` | script.js:39-49 | The parsed offset lies in [-6039, 6039]. It is 0 when the string holds no fragment. |
| `Offset.ParseLeftmostFragment` | script.js:43-48 | When the leftmost fragment starts at i, the result is sign·(HH·60+MM) of that fragment, negative for `-`. getOffsetString returns that same fragment. |
| `Offset.OffsetString` | script.js:75-80 | The result is always a well-formed 9-character `GMT±HH:MM` fragment. It is `GMT+00:00` when the string holds no fragment. |
| `Offset.FormatParseRoundTrip` | script.js:56-60 | Parsing the label of m gives back m if and only if abs(m) < 6000. From 6000 on, `padStart` does not truncate the three-digit hours, so the label no longer matches the pattern. |
| `Offset.FormatOffsetFragment` | script.js:56-60 | For abs(m) < 6000 the label is a well-formed 9-character fragment whose value is m. |
| `Offset.DecimalStringLong` | script.js:58 | Hours of 100 or more print with three or more digits. |
| `Offset.Pad2Small` | script.js:58-59 | Below 100, the padded string is the two decimal digits. |
| `Offset.ParseAfterPrefix` | script.js:41-48 | A date/time prefix without a fragment, followed by a label for abs(m) < 6000, parses to m. The extracted string is exactly that label. |
| `Offset.OffsetStringAgrees` | script.js:78-79 | The card's label parses to the same minutes as getOffsetMinutes on the same string. |
| `Offset.LabelsAgree` | script.js:56-60 | Suppose the leftmost fragment has minutes below 60 and is not `-00:00`. Then the label the picker builds from the parsed minutes equals the card's extracted label. |
| `Offset.EasternExample` | script.js:42 | `1/31/2026, 10:00:00 AM GMT-05:00` parses to -300 minutes. |
| `Offset.HalfHourExample` | script.js:43-48 | A `GMT+05:30` string parses to 330. |
| `Offset.UtcExample` | script.js:44 | A bare `GMT` (UTC) parses to 0 and gives the fallback label. |
| `Text.LastPieceIsSuffix` | script.js:63 | The last piece of `split(c)` is the longest suffix without c. It is all of s, or it is preceded by c. |
| `Text.JoinSplit` | script.js:93 | `split(c).join(sep)` replaces every c by sep. |
| `Names.CityNameIsLastSegment` | script.js:63 | The city is the part of the id after its last `/` (all of it when there is none), with `_` turned into spaces. |
| `Names.DisplayNameRespaced` | script.js:93 | The `Region / City` form equals the id with each `_` written as a space and each `/` as ` / `, every other character kept. |
| `Names.PlainNameUnchanged` | script.js:93 | For an id without `_` and `/`, the `Region / City` form is the id itself. |
| `Catalog.ProjectFindsItself` | script.js:62-70 | An entry's search text contains its lower-cased id and its lower-cased city. Its label parses back to its minutes when abs(minutes) < 6000. |
| `Catalog.SortByOffsetSorted` | script.js:72 | The sorted catalog is in non-decreasing `offsetMins` order. |
| `Catalog.SortByOffsetPermutes` | script.js:72 | The sorted catalog is a permutation of the projected one. |
| `Catalog.SortByOffsetStable` | script.js:72 | For every offset k, the entries with offset k appear in the same order before and after sorting (the sort is stable). |
| `Catalog.InsertKeepsOffsetOrder` | script.js:72 | Inserting an entry puts it ahead of every entry with its own offset and leaves the other offsets' subsequences alone. |
| `Catalog.WithAliasExtendsSearch` | script.js:119-123 | Only `searchStr` changes. It gains ` ` plus the lower-cased aliases exactly when the id is a key of `extraAliases`. Every filter that matched before still matches. |
| `Catalog.AliasFindsZone` | script.js:109-123 | Any part of a zone's alias text, typed in any letter case, lists that zone. |
| `Catalog.ApplyAliases` | script.js:119-123 | Each array element is replaced in place by its aliased form, and no other element changes. |
| `Catalog.BuildCatalog` | script.js:52-123 | The new array holds the curated list, projected, stable-sorted by offset and then aliased. |
| `Catalog.ProcessedSorted` | script.js:52-123 | The processed catalog, aliases included, is in non-decreasing offset order, and so is every picker list filtered from it. |
| `Catalog.ProcessedPermutesZones` | script.js:29-72 | The processed catalog's ids are a permutation of the curated list: each zone exactly once, and nothing else. |
| `Catalog.ProcessedStable` | script.js:52-123 | For every offset k, the processed entries with offset k are the projected zones with offset k in curated order, each with its aliases added. |
| `Catalog.AliasedKeepsOffsetOrder` | script.js:119-123 | The alias pass commutes with taking the entries of one offset, since it changes no offset. |
| `Catalog.RenderTimezoneList` | script.js:82-104 | The list lines are `Region / City (GMT±HH:MM)` for exactly the entries that pass the lower-cased filter, in catalog order. |
| `Catalog.ListedIff` | script.js:86-87 | An entry is listed if and only if it is in the catalog and its search text contains the filter. |
| `Catalog.ListedEmptyFilter` | script.js:82-87 | The empty filter lists every entry. |
| `Catalog.ListedKeepsOrder` | script.js:86-103 | Filtering a list sorted by offset gives a list sorted by offset. |
| `Clocks.ClockBoard.constructor` | script.js:13-15 | A stored list is used as it is, even an empty one. With nothing stored there is a single local clock for the ambient zone. Storage is not written. |
| `Clocks.ClockBoard.SaveClocks` | script.js:225-227 | Storage now holds exactly the current list, and the list is unchanged. |
| `Clocks.ClockBoard.AddClock` | script.js:215-223 | With 6 or more clocks the call is refused, and the list and storage are unchanged. Otherwise `{tz, isLocal: false}` is appended and storage equals the new list. |
| `Clocks.ClockBoard.RemoveClock` | script.js:207-213 | When confirmed, one entry is spliced out and storage equals the new list. When not confirmed, nothing changes. |
| `Clocks.SpliceStart` | script.js:209 | The start lies within the list, and a valid index is its own start. |
| `Clocks.AddedSpec` | script.js:215-220 | A refused add changes nothing. An accepted one keeps every earlier entry and puts the new one last. A list within the cap stays within it. |
| `Clocks.RemovedSpec` | script.js:207-211 | A confirmed removal at a valid i deletes exactly entry i and keeps the others in order. The multiset loses only that entry. An unconfirmed removal is the identity. |
| `Clocks.RemoveClockCanDropLocal` | script.js:207-211 | removeClock itself removes a local clock when given its index. |
| `Clocks.StepKeepsLocals` | script.js:193-198 | An action the board offers (a pick, or a remove on a non-local card) leaves the local clocks unchanged. |
| `Clocks.LocalsSurvive` | script.js:193-198 | Along every sequence of actions the UI offers, the local clocks stay exactly as they were. |
| `Clocks.CapHolds` | script.js:215-220 | Starting within six clocks, no sequence of adds and removes exceeds six. |
| `Classify.DayIsSixToSeventeen` | script.js:240 | On a 24-hour clock, day is exactly the hours 6 to 17. |
| `Classify.MarkerMeansSummer` | script.js:274-275 | A long name containing `daylight` or `summer` in any letter case reads as SUMMER. |
| `Classify.SummerHasMarker` | script.js:274-275 | The converse of `MarkerMeansSummer`: a SUMMER name splits as before + marker + after with a marker that lower-cases to `daylight` or `summer`. |
| `Classify.SeasonIgnoresCase` | script.js:274 | Names equal up to letter case get the same season. |
| `Classify.MissingLetterMeansWinter` | script.js:274-275 | A name lacking one letter of each marker reads as WINTER. |
| `Classify.DaylightExample` | script.js:274-275 | `Central Daylight Time` is SUMMER. |
| `Classify.SummerExample` | script.js:274-275 | `British Summer Time` is SUMMER. |
| `Classify.StandardExample` | script.js:274-275 | `Japan Standard Time` is WINTER. |
| `Classify.StoredThemeReadBack` | script.js:18-25 | The theme a toggle writes to storage is the theme the next page load reads back. |
| `Classify.ToggledTheme` | script.js:23 | The new theme is `light` or `dark` and always differs from the current one. |
| `Classify.ToggleTwice` | script.js:21-26 | Two toggles bring a light or dark page back to its theme. |
| `Card.CardFaceParts` | script.js:266-279 | The details line starts with a well-formed fragment that reads as the picker's minutes for the same string, and ends with ` • SUMMER` or ` • WINTER`. The title is the upper-cased `Region / City` form. The day flag is 6 ≤ hours < 18. |

## Left out

- DOM work: template cloning, `innerHTML`, day/night class toggling, event listeners, picker open/close and click-outside handling (script.js:126-166, 169-205). It is UI plumbing; only the wiring of the remove button is kept, as `Clocks.Offered`.
- The add button's own cap check before opening the picker (script.js:145-152). It only opens the picker; `addClock` repeats the check, and that check is modelled.
- `localStorage` and JSON encoding (script.js:13, 18, 25, 226). Storage is the ghost field `saved` and the parameters `stored`. A stored value that does not parse as a list of clocks is not modelled.
- Writing the theme back to storage and to the page attribute (script.js:24-25). These are I/O; only the choice of the new theme is modelled.
- `Intl`, `toLocaleString`, `toLocaleDateString` and the `new Date(...)` re-parse (script.js:40-41, 76-77, 231-237, 262-263, 273). These are locale services. Their output strings and the hour are parameters, so the spread of real offsets (multiples of 15 in [-720, 840]) is not modelled.
- A locale call that throws (an unknown zone, e.g. from the stored list, or an engine without `longOffset`) is not modelled. script.js does not catch it, so the `0` / `GMT+00:00` fallback covers only a formatted string with no fragment.
- The card's date text (script.js:262-263). It is a locale-formatted string with no logic of its own.
- `confirm` and `alert` dialogs. The confirmation is a boolean argument; an alert is the `false` result of `AddClock`.
- Hand angles and CSS transforms (script.js:253-259). They are floating-point rendering output.
- The `requestAnimationFrame` tick loop (script.js:283-299). It is scheduling with no state of its own.
- Override mode, code-snippet generation and re-sorting of the clock list. They are not part of this file.
- `Text.ToLower`: maps only ASCII `A`–`Z`, unlike JavaScript's full Unicode `toLowerCase`. Every catalog id and alias is ASCII; only non-ASCII filter text would be lowered differently. `Text.ToUpper` (the card title) has the same limit.
- `Catalog.WithAlias`: an id counts as aliased when it is a key of the table. JavaScript would also treat inherited object properties as keys, but no catalog id names one.
