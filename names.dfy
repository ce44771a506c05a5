/**
 * How a timezone identifier such as `America/Los_Angeles` is shown: the
 * city name of a picker entry (`Los Angeles`), the `Region / City` form of
 * the picker and of a clock card (`America / Los Angeles`), and the
 * card's upper-cased title.
 */
module Names {
  import opened Text

  /** `tz.split('/').pop().replace(/_/g, ' ')` (script.js:63). */
  function CityName(tz: string): string {
    ReplaceChar(Last(Split(tz, '/')), '_', ' ')
  }

  /** `tz.replace(/_/g, ' ').split('/').join(' / ')` (script.js:93, script.js:266). */
  function DisplayName(tz: string): string {
    Join(Split(ReplaceChar(tz, '_', ' '), '/'), " / ")
  }

  /** The title of a clock card: the display name upper-cased (script.js:266). */
  function CardTitle(tz: string): string {
    ToUpper(DisplayName(tz))
  }

  /** What each character of an identifier becomes in its display form. */
  function Glyph(c: char): string {
    if c == '_' then " " else if c == '/' then " / " else [c]
  }

  /** The display form written character by character. */
  function Respaced(tz: string): string {
    if tz == [] then "" else Glyph(tz[0]) + Respaced(tz[1..])
  }

  /**
   * The city is the part of the identifier after its last `/` (all of it
   * when there is none), with every `_` turned into a space.
   */
  lemma CityNameIsLastSegment(tz: string)
    ensures exists k :: 0 <= k <= |tz| && (k == 0 || tz[k - 1] == '/') && '/' !in tz[k..]
                        && CityName(tz) == ReplaceChar(tz[k..], '_', ' ')
  {
    LastPieceIsSuffix(tz, '/');
    var last := Last(Split(tz, '/'));
    var k := |tz| - |last|;
    assert tz[k..] == last;
  }

  lemma {:induction false} ReplaceWithRespaced(tz: string)
    ensures ReplaceWith(ReplaceChar(tz, '_', ' '), '/', " / ") == Respaced(tz)
  {
    if tz != [] {
      ReplaceWithRespaced(tz[1..]);
      assert ReplaceChar(tz, '_', ' ')[1..] == ReplaceChar(tz[1..], '_', ' ');
    }
  }

  /**
   * The display form of an identifier: each `_` becomes a space and each
   * `/` becomes ` / `; every other character is kept in place.
   */
  lemma DisplayNameRespaced(tz: string)
    ensures DisplayName(tz) == Respaced(tz)
  {
    JoinSplit(ReplaceChar(tz, '_', ' '), '/', " / ");
    ReplaceWithRespaced(tz);
  }

  /** A name without `_` and `/` is shown unchanged. */
  lemma {:induction false} PlainNameUnchanged(tz: string)
    requires '_' !in tz && '/' !in tz
    ensures DisplayName(tz) == tz
  {
    DisplayNameRespaced(tz);
    PlainRespaced(tz);
  }

  lemma {:induction false} PlainRespaced(tz: string)
    requires '_' !in tz && '/' !in tz
    ensures Respaced(tz) == tz
  {
    if tz != [] {
      PlainRespaced(tz[1..]);
      assert tz == [tz[0]] + tz[1..];
    }
  }
}
