/**
 * What one clock card shows besides its hands (updateSingleClock,
 * script.js:230-281): the day/night state, the `REGION / CITY` title and
 * the `GMT±HH:MM • SEASON` details line.
 *
 * The zone's hour, its date formatted with `timeZoneName: 'longOffset'`
 * and its long zone name are the locale service's answers, passed in.
 */
module Card {
  import opened Text
  import opened Offset
  import opened Names
  import opened Classify

  datatype Face = Face(isDay: bool, title: string, details: string)

  /** The text between the offset and the season on the details line. */
  const Bullet: string := " \U{2022} "

  function CardFace(tz: string, hours: int, formatted: string, longName: string): Face {
    Face(IsDay(hours), CardTitle(tz), OffsetString(formatted) + Bullet + SeasonLabel(SeasonOf(longName)))
  }

  /**
   * The details line opens with a well-formed `GMT±HH:MM` fragment that
   * reads as the same minutes the picker computes from the same string,
   * and closes with the season; the title is the upper-cased
   * `Region / City` form.
   */
  lemma CardFaceParts(tz: string, hours: int, formatted: string, longName: string)
    ensures var face := CardFace(tz, hours, formatted, longName);
      && |face.details| > FragmentLength
      && MatchAt(face.details[..FragmentLength], 0)
      && OffsetMinutes(face.details[..FragmentLength]) == OffsetMinutes(formatted)
      && face.details[FragmentLength..] == Bullet + (if SeasonOf(longName) == Summer then "SUMMER" else "WINTER")
      && face.title == ToUpper(Respaced(tz))
      && (face.isDay <==> 6 <= hours < 18)
  {
    var face := CardFace(tz, hours, formatted, longName);
    var offsetLabel := OffsetString(formatted);
    assert face.details == offsetLabel + (Bullet + SeasonLabel(SeasonOf(longName)));
    assert face.details[..FragmentLength] == offsetLabel;
    OffsetStringAgrees(formatted);
    DisplayNameRespaced(tz);
  }
}
