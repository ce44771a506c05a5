/**
 * The UTC-offset codec of script.js: reading the `GMT±HH:MM` fragment
 * out of a date string formatted with `timeZoneName: 'longOffset'`
 * (getOffsetMinutes, getOffsetString) and writing signed minutes back as
 * a `GMT±HH:MM` label (the picker's label builder).
 *
 * The formatted string itself comes from the host's locale service and
 * is a parameter here.
 */
module Offset {
  import opened Wrappers

  /** The label shown when the formatted string holds no offset fragment (UTC's bare `GMT`). */
  const Fallback: string := "GMT+00:00"

  /** Number of characters in a `GMT±HH:MM` fragment. */
  const FragmentLength: nat := 9

  /** `\d` of a regular expression without the unicode flag. */
  predicate IsDigit(c: char) {
    '0' <= c <= '9'
  }

  function DigitValue(c: char): nat
    requires IsDigit(c)
  {
    (c as int) - ('0' as int)
  }

  function Digit(d: nat): (c: char)
    requires d < 10
    ensures IsDigit(c) && DigitValue(c) == d
  {
    ('0' as int + d) as char
  }

  /** The pattern GMT([+-])(\d{2}):(\d{2}) matches s starting at position i. */
  predicate MatchAt(s: string, i: nat) {
    && i + FragmentLength <= |s|
    && s[i] == 'G' && s[i + 1] == 'M' && s[i + 2] == 'T'
    && (s[i + 3] == '+' || s[i + 3] == '-')
    && IsDigit(s[i + 4]) && IsDigit(s[i + 5])
    && s[i + 6] == ':'
    && IsDigit(s[i + 7]) && IsDigit(s[i + 8])
  }

  /** No position of s starts a match. */
  predicate NoMatch(s: string) {
    forall i: nat :: i < |s| ==> !MatchAt(s, i)
  }

  /**
   * The leftmost position at or after `from` where the pattern matches,
   * which is where `String.prototype.match` finds it.
   */
  function FirstMatch(s: string, from: nat): (r: Option<nat>)
    decreases |s| - from
    ensures r.Some? ==> from <= r.value && MatchAt(s, r.value)
    ensures r.Some? ==> forall j: nat :: from <= j < r.value ==> !MatchAt(s, j)
    ensures r.None? ==> forall j: nat :: from <= j ==> !MatchAt(s, j)
  {
    if from + FragmentLength > |s| then None
    else if MatchAt(s, from) then Some(from)
    else FirstMatch(s, from + 1)
  }

  /** The two-digit group starting at position i, read as `parseInt(..., 10)` reads it. */
  function TwoDigits(s: string, i: nat): (n: nat)
    requires i + 2 <= |s| && IsDigit(s[i]) && IsDigit(s[i + 1])
    ensures n <= 99
  {
    DigitValue(s[i]) * 10 + DigitValue(s[i + 1])
  }

  /** sign * (hours * 60 + mins) of the fragment at position i. */
  function FragmentMinutes(s: string, i: nat): int
    requires MatchAt(s, i)
  {
    var magnitude := TwoDigits(s, i + 4) * 60 + TwoDigits(s, i + 7);
    if s[i + 3] == '+' then magnitude else -magnitude
  }

  /** getOffsetMinutes: the signed minutes of the first fragment, 0 when there is none. */
  function OffsetMinutes(formatted: string): (m: int)
    ensures -6039 <= m <= 6039
    ensures NoMatch(formatted) ==> m == 0
  {
    match FirstMatch(formatted, 0)
    case None => 0
    case Some(i) => FragmentMinutes(formatted, i)
  }

  /** getOffsetString: `GMT` and the matched `±HH:MM`, or the fallback label. */
  function OffsetString(formatted: string): (text: string)
    ensures |text| == FragmentLength && MatchAt(text, 0)
    ensures NoMatch(formatted) ==> text == Fallback
  {
    match FirstMatch(formatted, 0)
    case None => Fallback
    case Some(i) => "GMT" + formatted[i + 3..i + FragmentLength]
  }

  /**
   * When the leftmost fragment of the formatted string starts at i, the
   * parsed minutes are sign * (HH * 60 + MM) of that fragment and the
   * extracted label is that fragment.
   */
  lemma ParseLeftmostFragment(formatted: string, i: nat)
    requires MatchAt(formatted, i)
    requires forall j: nat :: j < i ==> !MatchAt(formatted, j)
    ensures OffsetMinutes(formatted) == FragmentMinutes(formatted, i)
    ensures OffsetString(formatted) == formatted[i..i + FragmentLength]
  {
    FirstMatchFinds(formatted, 0, i);
    assert OffsetMinutes(formatted) == FragmentMinutes(formatted, i);
    assert OffsetString(formatted) == "GMT" + formatted[i + 3..i + FragmentLength];
    FragmentHead(formatted, i);
  }

  /** A fragment is `GMT` followed by its last six characters. */
  lemma FragmentHead(s: string, i: nat)
    requires MatchAt(s, i)
    ensures s[i..i + FragmentLength] == "GMT" + s[i + 3..i + FragmentLength]
  {
    assert s[i..i + 3] == "GMT";
    assert s[i..i + FragmentLength] == s[i..i + 3] + s[i + 3..i + FragmentLength];
  }

  lemma {:induction false} FirstMatchFinds(s: string, from: nat, i: nat)
    requires from <= i && MatchAt(s, i)
    requires forall j: nat :: from <= j < i ==> !MatchAt(s, j)
    ensures FirstMatch(s, from) == Some(i)
    decreases i - from
  {
    if from < i {
      assert !MatchAt(s, from);
      FirstMatchFinds(s, from + 1, i);
    }
  }

  /** `n.toString()` for a natural number. */
  function DecimalString(n: nat): (r: string)
    ensures |r| >= 1
    ensures forall k :: 0 <= k < |r| ==> IsDigit(r[k])
  {
    if n < 10 then [Digit(n)] else DecimalString(n / 10) + [Digit(n % 10)]
  }

  /** `n.toString().padStart(2, '0')`: never truncates. */
  function Pad2(n: nat): (r: string)
    ensures |r| >= 2
    ensures forall k :: 0 <= k < |r| ==> IsDigit(r[k])
  {
    var d := DecimalString(n);
    if |d| < 2 then "0" + d else d
  }

  /** The picker's label: `GMT${sign}${h}:${m}` (script.js:56-60). */
  function FormatOffset(m: int): string {
    var a := if m >= 0 then m else -m;
    "GMT" + [if m >= 0 then '+' else '-'] + Pad2(a / 60) + ":" + Pad2(a % 60)
  }

  lemma DivMod60(hh: nat, mm: nat)
    requires mm < 60
    ensures (hh * 60 + mm) / 60 == hh && (hh * 60 + mm) % 60 == mm
  {
  }

  lemma Pad2Small(n: nat)
    requires n < 100
    ensures Pad2(n) == [Digit(n / 10), Digit(n % 10)]
  {
    if n >= 10 {
      assert DecimalString(n / 10) == [Digit(n / 10)];
    }
  }

  lemma {:induction false} DecimalStringLong(n: nat)
    requires n >= 100
    ensures |DecimalString(n)| >= 3
  {
    if n / 10 >= 100 {
      DecimalStringLong(n / 10);
    } else {
      assert |DecimalString(n / 10)| >= 2;
    }
  }

  /** A label for |m| < 6000 is a well-formed fragment holding m. */
  lemma FormatOffsetFragment(m: int)
    requires -6000 < m < 6000
    ensures |FormatOffset(m)| == FragmentLength
    ensures MatchAt(FormatOffset(m), 0)
    ensures FragmentMinutes(FormatOffset(m), 0) == m
  {
    var a := if m >= 0 then m else -m;
    Pad2Small(a / 60);
    Pad2Small(a % 60);
    var text := FormatOffset(m);
    assert text[4..6] == Pad2(a / 60);
    assert text[7..9] == Pad2(a % 60);
    assert TwoDigits(text, 4) == a / 60;
    assert TwoDigits(text, 7) == a % 60;
  }

  /** Only the first character of a label is a `G`. */
  lemma LabelHasOneG(m: int)
    ensures |FormatOffset(m)| >= FragmentLength
    ensures forall k :: 0 < k < |FormatOffset(m)| ==> FormatOffset(m)[k] != 'G'
  {
    var a := if m >= 0 then m else -m;
    var text := FormatOffset(m);
    var h, mm := Pad2(a / 60), Pad2(a % 60);
    assert text == "GMT" + [if m >= 0 then '+' else '-'] + h + ":" + mm;
    forall k | 0 < k < |text| ensures text[k] != 'G' {
      if 4 <= k < 4 + |h| {
        assert text[k] == h[k - 4];
      } else if 4 + |h| + 1 <= k {
        assert text[k] == mm[k - 4 - |h| - 1];
      }
    }
  }

  /** Parsing a label gives back m exactly when |m| < 6000 (two hour digits suffice). */
  lemma FormatParseRoundTrip(m: int)
    ensures OffsetMinutes(FormatOffset(m)) == m <==> -6000 < m < 6000
  {
    var text := FormatOffset(m);
    if -6000 < m < 6000 {
      FormatOffsetFragment(m);
    } else {
      var a := if m >= 0 then m else -m;
      DecimalStringLong(a / 60);
      var h := Pad2(a / 60);
      assert text == "GMT" + [if m >= 0 then '+' else '-'] + h + ":" + Pad2(a % 60);
      assert text[6] == h[2];
      assert !MatchAt(text, 0);
      LabelHasOneG(m);
      forall i: nat ensures !MatchAt(text, i) {
        if i > 0 && i < |text| {
          assert text[i] != 'G';
        }
      }
      assert OffsetMinutes(text) == 0;
    }
  }

  /**
   * The source's situation: a date/time prefix without a fragment,
   * followed by the offset label. The parse gives back the minutes and the
   * extracted string is the label.
   */
  lemma {:induction false} ParseAfterPrefix(prefix: string, m: int)
    requires NoMatch(prefix)
    requires -6000 < m < 6000
    ensures OffsetMinutes(prefix + FormatOffset(m)) == m
    ensures OffsetString(prefix + FormatOffset(m)) == FormatOffset(m)
  {
    var text := FormatOffset(m);
    var s := prefix + text;
    FormatOffsetFragment(m);
    LabelHasOneG(m);
    assert s[|prefix|..|prefix| + FragmentLength] == text;
    assert MatchAt(s, |prefix|);
    assert s[|prefix|] == 'G';
    forall j: nat | j < |prefix| ensures !MatchAt(s, j) {
      if j + FragmentLength <= |prefix| {
        assert s[j..j + FragmentLength] == prefix[j..j + FragmentLength];
        assert !MatchAt(prefix, j);
      }
    }
    assert FragmentMinutes(s, |prefix|) == FragmentMinutes(text, 0);
    ParseLeftmostFragment(s, |prefix|);
  }

  /** The card's label (getOffsetString) parses to the picker's minutes (getOffsetMinutes). */
  lemma OffsetStringAgrees(formatted: string)
    ensures OffsetMinutes(OffsetString(formatted)) == OffsetMinutes(formatted)
  {
    var text := OffsetString(formatted);
    assert MatchAt(text, 0);
    match FirstMatch(formatted, 0)
    case None =>
    case Some(i) =>
      assert text == formatted[i..i + FragmentLength];
      assert FragmentMinutes(text, 0) == FragmentMinutes(formatted, i);
  }

  /**
   * Where the minutes field is below 60 and the fragment is not `-00:00`,
   * the picker's label for the parsed minutes is exactly the card's label.
   */
  lemma LabelsAgree(formatted: string, i: nat)
    requires MatchAt(formatted, i) && forall j: nat :: j < i ==> !MatchAt(formatted, j)
    requires TwoDigits(formatted, i + 7) < 60
    requires formatted[i + 3] == '-' ==> TwoDigits(formatted, i + 4) + TwoDigits(formatted, i + 7) > 0
    ensures FormatOffset(OffsetMinutes(formatted)) == OffsetString(formatted)
  {
    ParseLeftmostFragment(formatted, i);
    FormatOfFragment(formatted, i);
  }

  /** Formatting the value of a fragment with minutes below 60, other than `-00:00`, writes the fragment back. */
  lemma FormatOfFragment(s: string, i: nat)
    requires MatchAt(s, i)
    requires TwoDigits(s, i + 7) < 60
    requires s[i + 3] == '-' ==> TwoDigits(s, i + 4) + TwoDigits(s, i + 7) > 0
    ensures FormatOffset(FragmentMinutes(s, i)) == s[i..i + FragmentLength]
  {
    var m := FragmentMinutes(s, i);
    var hh: nat, mm: nat := TwoDigits(s, i + 4), TwoDigits(s, i + 7);
    var a: int := hh * 60 + mm;
    assert (if m >= 0 then m else -m) == a;
    assert [if m >= 0 then '+' else '-'] == s[i + 3..i + 4];
    DivMod60(hh, mm);
    assert a / 60 == hh && a % 60 == mm;
    assert FormatOffset(m) == "GMT" + s[i + 3..i + 4] + Pad2(hh) + ":" + Pad2(mm);
    TwoDigitsPadded(s, i + 4);
    TwoDigitsPadded(s, i + 7);
    FragmentPieces(s, i);
  }

  lemma FragmentPieces(s: string, i: nat)
    requires MatchAt(s, i)
    ensures s[i..i + FragmentLength] == "GMT" + s[i + 3..i + 4] + s[i + 4..i + 6] + ":" + s[i + 7..i + 9]
  {
  }

  /** Padding the value of a two-digit group writes the group back. */
  lemma TwoDigitsPadded(s: string, i: nat)
    requires i + 2 <= |s| && IsDigit(s[i]) && IsDigit(s[i + 1])
    ensures Pad2(TwoDigits(s, i)) == s[i..i + 2]
  {
    var n := TwoDigits(s, i);
    DivMod10(DigitValue(s[i]), DigitValue(s[i + 1]));
    Pad2Small(n);
  }

  lemma DivMod10(hi: nat, lo: nat)
    requires lo < 10
    ensures (hi * 10 + lo) / 10 == hi && (hi * 10 + lo) % 10 == lo
  {
  }

  /** The sample in the source's comment: Eastern standard time reads as -300 minutes. */
  lemma EasternExample()
    ensures OffsetMinutes("1/31/2026, 10:00:00 AM GMT-05:00") == -300
  {
    var s := "1/31/2026, 10:00:00 AM GMT-05:00";
    assert |s| == 32;
    forall j: nat | j < 23 ensures !MatchAt(s, j) {
      assert s[j] != 'G';
    }
    assert MatchAt(s, 23);
    ParseLeftmostFragment(s, 23);
    assert s[27] == '0' && s[28] == '5' && s[30] == '0' && s[31] == '0';
  }

  /** A half-hour zone: `GMT+05:30` reads as 330 minutes. */
  lemma HalfHourExample()
    ensures OffsetMinutes("6/1/2024, 5:30:00 AM GMT+05:30") == 330
  {
    var s := "6/1/2024, 5:30:00 AM GMT+05:30";
    assert |s| == 30;
    forall j: nat | j < 21 ensures !MatchAt(s, j) {
      assert s[j] != 'G';
    }
    assert MatchAt(s, 21);
    ParseLeftmostFragment(s, 21);
    assert s[25] == '0' && s[26] == '5' && s[28] == '3' && s[29] == '0';
  }

  /** UTC is formatted as a bare `GMT`: no fragment, so 0 minutes and the fallback label. */
  lemma UtcExample()
    ensures OffsetMinutes("1/31/2026, 3:00:00 PM GMT") == 0
    ensures OffsetString("1/31/2026, 3:00:00 PM GMT") == Fallback
  {
    var s := "1/31/2026, 3:00:00 PM GMT";
    assert |s| == 25;
    forall i: nat | i < |s| ensures !MatchAt(s, i) {
      if i + FragmentLength <= |s| {
        assert i <= 16;
        assert s[i] != 'G';
      }
    }
  }
}
