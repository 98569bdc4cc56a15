/**
 * The Time attribute and its drawer's label (TimeAttribute.cs, TimeDrawer.cs):
 * an integer number of seconds rendered as "M:SS (m:s)", or as
 * "H:MM:SS (h:m:s)" when the attribute asks for hours.
 *
 * Integer division and remainder are C#'s, truncating toward zero; the
 * label is also drawn for a negative value typed into the field.
 * A parser for the two label shapes serves as the inverse against which
 * the formatter is proved.
 */
module TimeDrawer {
  import opened Wrappers
  import opened Arithmetic

  /** The attribute that marks an int field as a time in seconds. */
  datatype TimeAttribute = TimeAttribute(displayHours: bool)

  /** The attribute as written without arguments: hours are not displayed. */
  function NewTimeAttribute(displayHours: bool := false): (attribute: TimeAttribute)
    ensures attribute.displayHours == displayHours
  {
    TimeAttribute(displayHours)
  }

  // ---------------------------------------------------------------------------
  // C# integer arithmetic
  // ---------------------------------------------------------------------------

  /** Integer division truncating toward zero, for a positive divisor. */
  function CsDiv(a: int, b: int): (q: int)
    requires b > 0
    ensures a >= 0 ==> 0 <= q * b <= a < q * b + b
    ensures a < 0 ==> q * b - b < a <= q * b <= 0
  {
    if a >= 0 then
      DivBracket(a, b);
      a / b
    else
      DivBracket(-a, b);
      assert -((-a) / b) * b == -(((-a) / b) * b);
      -((-a) / b)
  }

  /** The remainder that goes with CsDiv: it takes the sign of the dividend. */
  function CsRem(a: int, b: int): (r: int)
    requires b > 0
    ensures CsDiv(a, b) * b + r == a
    ensures a >= 0 ==> 0 <= r < b
    ensures a < 0 ==> -b < r <= 0
  {
    a - CsDiv(a, b) * b
  }

  /** For a non-negative dividend, C#'s division and remainder agree with Dafny's. */
  lemma CsAgreesOnNonNegative(a: int, b: int)
    requires a >= 0 && b > 0
    ensures CsDiv(a, b) == a / b && CsRem(a, b) == a % b
  {
    assert a == (a / b) * b + a % b;
  }

  // ---------------------------------------------------------------------------
  // Decimal rendering and parsing
  // ---------------------------------------------------------------------------

  function DigitChar(d: int): char
    requires 0 <= d < 10
  {
    ('0' as int + d) as char
  }

  function DigitValue(c: char): Option<nat>
  {
    if '0' <= c <= '9' then Some(c as int - '0' as int) else None
  }

  /** The decimal digits of n, without leading zeros (int.ToString for n >= 0). */
  function NatToString(n: nat): (s: string)
    ensures |s| >= 1
    ensures n < 10 <==> |s| == 1
    decreases n
  {
    if n < 10 then [DigitChar(n)] else NatToString(n / 10) + [DigitChar(n % 10)]
  }

  /** int.ToString: a minus sign before the digits of a negative number. */
  function IntToString(n: int): string
  {
    if n < 0 then "-" + NatToString(-n) else NatToString(n)
  }

  /** string.PadLeft: the string, preceded by enough pad characters to reach `width`. */
  function PadLeft(s: string, width: nat, pad: char): (r: string)
    ensures |r| == if |s| >= width then |s| else width
    ensures r[|r| - |s|..] == s
    ensures forall i :: 0 <= i < |r| - |s| ==> r[i] == pad
  {
    if |s| >= width then s else seq(width - |s|, _ => pad) + s
  }

  /** The value of a non-empty string of decimal digits; None for anything else. */
  function ParseDigits(s: string): Option<nat>
    decreases |s|
  {
    if |s| == 0 then None
    else match DigitValue(s[|s| - 1])
      case None => None
      case Some(d) =>
        if |s| == 1 then Some(d)
        else match ParseDigits(s[..|s| - 1])
          case None => None
          case Some(v) => Some(v * 10 + d)
  }

  /** Parsing the decimal rendering of n gives n back. */
  lemma {:induction false} ParseNatToString(n: nat)
    ensures ParseDigits(NatToString(n)) == Some(n)
  {
    var s := NatToString(n);
    if n >= 10 {
      ParseNatToString(n / 10);
      assert s[..|s| - 1] == NatToString(n / 10);
      assert s[|s| - 1] == DigitChar(n % 10);
    }
  }

  /** A value below 100 padded to two places is exactly two digits and parses back. */
  lemma TwoDigitField(n: nat)
    requires n < 100
    ensures |PadLeft(IntToString(n), 2, '0')| == 2
    ensures ParseDigits(PadLeft(IntToString(n), 2, '0')) == Some(n)
  {
    var f := PadLeft(IntToString(n), 2, '0');
    ParseNatToString(n);
    if n < 10 {
      assert f == ['0', DigitChar(n)];
      assert f[..1] == ['0'];
    } else {
      ParseNatToString(n / 10);
      assert n / 10 < 10;
    }
  }

  // ---------------------------------------------------------------------------
  // The two label shapes
  // ---------------------------------------------------------------------------

  /** What a label shows: minutes and seconds, or hours, minutes and seconds. */
  datatype Clock =
    | MinutesSeconds(minutes: nat, seconds: nat)
    | HoursMinutesSeconds(hours: nat, minutes: nat, seconds: nat)

  /** The number of seconds a clock reading stands for. */
  function TotalSeconds(c: Clock): nat
  {
    match c
    case MinutesSeconds(m, s) => m * 60 + s
    case HoursMinutesSeconds(h, m, s) => h * 3600 + m * 60 + s
  }

  function RenderMinutesSeconds(minutes: int, seconds: int): string
  {
    IntToString(minutes) + ":" + PadLeft(IntToString(seconds), 2, '0') + " (m:s)"
  }

  function RenderHoursMinutesSeconds(hours: int, minutes: int, seconds: int): string
  {
    IntToString(hours) + ":" + PadLeft(IntToString(minutes), 2, '0') + ":"
      + PadLeft(IntToString(seconds), 2, '0') + " (h:m:s)"
  }

  function ParseMinutesSeconds(body: string): Option<Clock>
  {
    var n := |body|;
    if n < 4 || body[n - 3] != ':' then None
    else match (ParseDigits(body[..n - 3]), ParseDigits(body[n - 2..]))
      case (Some(m), Some(s)) => Some(MinutesSeconds(m, s))
      case _ => None
  }

  /** "H:MM:SS" is "H:MM" read as minutes and seconds, then ":SS". */
  function ParseHoursMinutesSeconds(body: string): Option<Clock>
  {
    var n := |body|;
    if n < 3 || body[n - 3] != ':' then None
    else match (ParseMinutesSeconds(body[..n - 3]), ParseDigits(body[n - 2..]))
      case (Some(MinutesSeconds(h, m)), Some(s)) => Some(HoursMinutesSeconds(h, m, s))
      case _ => None
  }

  /** Reads a label of either shape back; None for anything else. */
  function ParseClock(text: string): Option<Clock>
  {
    var n := |text|;
    if n >= 6 && text[n - 6..] == " (m:s)" then ParseMinutesSeconds(text[..n - 6])
    else if n >= 8 && text[n - 8..] == " (h:m:s)" then ParseHoursMinutesSeconds(text[..n - 8])
    else None
  }

  lemma ParseClockOfMinutesSeconds(body: string)
    ensures ParseClock(body + " (m:s)") == ParseMinutesSeconds(body)
  {
    var t := body + " (m:s)";
    assert t[|t| - 6..] == " (m:s)";
    assert t[..|t| - 6] == body;
  }

  lemma ParseClockOfHoursMinutesSeconds(body: string)
    ensures ParseClock(body + " (h:m:s)") == ParseHoursMinutesSeconds(body)
  {
    var t := body + " (h:m:s)";
    assert t[|t| - 8..] == " (h:m:s)";
    assert t[|t| - 6] == 'h';
    assert t[..|t| - 8] == body;
  }

  lemma ParseMinutesSecondsOf(m: string, s: string, minutes: nat, seconds: nat)
    requires ParseDigits(m) == Some(minutes) && ParseDigits(s) == Some(seconds) && |s| == 2
    ensures ParseMinutesSeconds(m + ":" + s) == Some(MinutesSeconds(minutes, seconds))
  {
    var body := m + ":" + s;
    assert body[..|body| - 3] == m;
    assert body[|body| - 2..] == s;
  }

  lemma ParseHoursMinutesSecondsOf(h: string, m: string, s: string, hours: nat, minutes: nat, seconds: nat)
    requires ParseDigits(h) == Some(hours) && ParseDigits(m) == Some(minutes) && ParseDigits(s) == Some(seconds)
    requires |m| == 2 && |s| == 2
    ensures ParseHoursMinutesSeconds(h + ":" + m + ":" + s) == Some(HoursMinutesSeconds(hours, minutes, seconds))
  {
    var hm := h + ":" + m;
    ParseMinutesSecondsOf(h, m, hours, minutes);
    var body := hm + ":" + s;
    assert |body| == |hm| + 3 && body[|body| - 3] == ':';
    assert body[..|body| - 3] == hm;
    assert body[|body| - 2..] == s;
  }

  /** A minutes-and-seconds label with seconds below 100 reads back as what was rendered. */
  lemma ParseRenderMinutesSeconds(minutes: nat, seconds: nat)
    requires seconds < 100
    ensures ParseClock(RenderMinutesSeconds(minutes, seconds)) == Some(MinutesSeconds(minutes, seconds))
  {
    var m := IntToString(minutes);
    var f := PadLeft(IntToString(seconds), 2, '0');
    ParseNatToString(minutes);
    TwoDigitField(seconds);
    ParseMinutesSecondsOf(m, f, minutes, seconds);
    ParseClockOfMinutesSeconds(m + ":" + f);
  }

  /** An hours label with minutes and seconds below 100 reads back as what was rendered. */
  lemma ParseRenderHoursMinutesSeconds(hours: nat, minutes: nat, seconds: nat)
    requires minutes < 100 && seconds < 100
    ensures ParseClock(RenderHoursMinutesSeconds(hours, minutes, seconds))
         == Some(HoursMinutesSeconds(hours, minutes, seconds))
  {
    var h := IntToString(hours);
    var fm := PadLeft(IntToString(minutes), 2, '0');
    var fs := PadLeft(IntToString(seconds), 2, '0');
    ParseNatToString(hours);
    TwoDigitField(minutes);
    TwoDigitField(seconds);
    ParseHoursMinutesSecondsOf(h, fm, fs, hours, minutes, seconds);
    ParseClockOfHoursMinutesSeconds(h + ":" + fm + ":" + fs);
  }

  // ---------------------------------------------------------------------------
  // The drawer's label, as written
  // ---------------------------------------------------------------------------

  /**
   * The label drawn for `totalSeconds`, ending in the legend of the shape the
   * attribute selects. In the hours shape the hours value is computed as
   * (totalSeconds / 60) * 60, as the source's operator precedence has it.
   */
  function FormatTime(attribute: TimeAttribute, totalSeconds: int): (text: string)
    ensures attribute.displayHours ==> |text| >= 8 && text[|text| - 8..] == " (h:m:s)"
    ensures !attribute.displayHours ==> |text| >= 6 && text[|text| - 6..] == " (m:s)"
  {
    if attribute.displayHours then
      var hours := CsDiv(totalSeconds, 60) * 60;
      var minutes := CsDiv(CsRem(totalSeconds, 60 * 60), 60);
      var seconds := CsRem(totalSeconds, 60);
      RenderHoursMinutesSeconds(hours, minutes, seconds)
    else
      var minutes := CsDiv(totalSeconds, 60);
      var seconds := CsRem(totalSeconds, 60);
      RenderMinutesSeconds(minutes, seconds)
  }

  /**
   * Without hours, the label of a non-negative time shows whole minutes and
   * the seconds below 60, and reads back as exactly that time.
   */
  lemma FormatMinutesRoundTrip(totalSeconds: int)
    requires totalSeconds >= 0
    ensures ParseClock(FormatTime(TimeAttribute(false), totalSeconds))
         == Some(MinutesSeconds(totalSeconds / 60, totalSeconds % 60))
    ensures totalSeconds % 60 < 60
    ensures TotalSeconds(MinutesSeconds(totalSeconds / 60, totalSeconds % 60)) == totalSeconds
  {
    CsAgreesOnNonNegative(totalSeconds, 60);
    ParseRenderMinutesSeconds(totalSeconds / 60, totalSeconds % 60);
  }

  /**
   * With hours, as written: the minutes field is the minutes within the hour
   * and the seconds field the seconds within the minute, both two digits, but
   * the hours field shows the whole minutes times 60.
   */
  lemma FormatHoursAsWritten(totalSeconds: int)
    requires totalSeconds >= 0
    ensures ParseClock(FormatTime(TimeAttribute(true), totalSeconds))
         == Some(HoursMinutesSeconds(totalSeconds / 60 * 60, totalSeconds % 3600 / 60, totalSeconds % 60))
    ensures totalSeconds % 3600 / 60 < 60 && totalSeconds % 60 < 60
  {
    CsAgreesOnNonNegative(totalSeconds, 60);
    CsAgreesOnNonNegative(totalSeconds, 3600);
    CsAgreesOnNonNegative(totalSeconds % 3600, 60);
    assert FormatTime(TimeAttribute(true), totalSeconds)
        == RenderHoursMinutesSeconds(totalSeconds / 60 * 60, totalSeconds % 3600 / 60, totalSeconds % 60);
    ParseRenderHoursMinutesSeconds(totalSeconds / 60 * 60, totalSeconds % 3600 / 60, totalSeconds % 60);
  }

  /**
   * As written, the hours label is right below one minute and overstates the
   * time from one minute on.
   */
  lemma FormatHoursOverstates(totalSeconds: int)
    requires totalSeconds >= 0
    ensures var shown := ParseClock(FormatTime(TimeAttribute(true), totalSeconds));
            shown.Some?
            && (totalSeconds < 60 ==> TotalSeconds(shown.value) == totalSeconds)
            && (totalSeconds >= 60 ==> TotalSeconds(shown.value) > totalSeconds)
  {
    FormatHoursAsWritten(totalSeconds);
    var q, m, sec := totalSeconds / 60, totalSeconds % 3600 / 60, totalSeconds % 60;
    assert TotalSeconds(HoursMinutesSeconds(q * 60, m, sec)) == q * 216000 + m * 60 + sec;
    if totalSeconds >= 60 {
      assert q >= 1 && totalSeconds < q * 60 + 60;
    } else {
      assert q == 0 && m == 0 && sec == totalSeconds;
    }
  }

  /** One hour is labelled as 3600 hours, 0 minutes and 0 seconds. */
  lemma OneHourLabel(oneHour: int)
    requires oneHour == 3600
    ensures ParseClock(FormatTime(TimeAttribute(true), oneHour)) == Some(HoursMinutesSeconds(oneHour, 0, 0))
  {
    var fields := HoursMinutesSeconds(oneHour / 60 * 60, oneHour % 3600 / 60, oneHour % 60);
    assert fields == HoursMinutesSeconds(oneHour, 0, 0);
    FormatHoursAsWritten(oneHour);
  }

  // ---------------------------------------------------------------------------
  // The drawer's label, with the hours the layout evidently intends
  // ---------------------------------------------------------------------------

  /** FormatTime with whole hours (totalSeconds / 3600) in the hours shape. */
  function FormatTimeIntended(attribute: TimeAttribute, totalSeconds: int): string
  {
    if attribute.displayHours then
      var hours := CsDiv(totalSeconds, 60 * 60);
      var minutes := CsDiv(CsRem(totalSeconds, 60 * 60), 60);
      var seconds := CsRem(totalSeconds, 60);
      RenderHoursMinutesSeconds(hours, minutes, seconds)
    else
      FormatTime(attribute, totalSeconds)
  }

  /**
   * The corrected label of a non-negative time reads back, in either shape,
   * as exactly that time, with seconds below 60 and, in the hours shape,
   * minutes below 60.
   */
  lemma FormatIntendedRoundTrip(attribute: TimeAttribute, totalSeconds: int)
    requires totalSeconds >= 0
    ensures var shown := ParseClock(FormatTimeIntended(attribute, totalSeconds));
            shown.Some? && shown.value.HoursMinutesSeconds? == attribute.displayHours
            && shown.value.seconds < 60
            && (attribute.displayHours ==> shown.value.minutes < 60)
            && TotalSeconds(shown.value) == totalSeconds
  {
    if attribute.displayHours {
      FormatIntendedHours(attribute, totalSeconds);
      HourMinuteSecondSplit(totalSeconds);
    } else {
      FormatMinutesRoundTrip(totalSeconds);
    }
  }

  /** The corrected hours label of a non-negative time reads back as its Euclidean hours, minutes and seconds. */
  lemma FormatIntendedHours(attribute: TimeAttribute, totalSeconds: int)
    requires attribute.displayHours && totalSeconds >= 0
    ensures ParseClock(FormatTimeIntended(attribute, totalSeconds))
         == Some(HoursMinutesSeconds(totalSeconds / 3600, totalSeconds % 3600 / 60, totalSeconds % 60))
  {
    var h, m, sec := totalSeconds / 3600, totalSeconds % 3600 / 60, totalSeconds % 60;
    assert m < 100 && sec < 100 by {
      HourMinuteSecondSplit(totalSeconds);
    }
    IntendedHoursFields(attribute, totalSeconds);
    ParseRenderHoursMinutesSeconds(h, m, sec);
  }

  /** For a non-negative time, the corrected hours label renders the Euclidean hours, minutes and seconds. */
  lemma IntendedHoursFields(attribute: TimeAttribute, totalSeconds: int)
    requires attribute.displayHours && totalSeconds >= 0
    ensures FormatTimeIntended(attribute, totalSeconds)
         == RenderHoursMinutesSeconds(totalSeconds / 3600, totalSeconds % 3600 / 60, totalSeconds % 60)
  {
    HourMinuteSecondSplit(totalSeconds);
    CsAgreesOnNonNegative(totalSeconds, 3600);
    CsAgreesOnNonNegative(totalSeconds % 3600, 60);
    CsAgreesOnNonNegative(totalSeconds, 60);
  }

  /** Whole hours, minutes within the hour and seconds within the minute add back up to the time. */
  lemma HourMinuteSecondSplit(s: int)
    requires s >= 0
    ensures s % 3600 / 60 < 60 && s % 60 < 60
    ensures TotalSeconds(HoursMinutesSeconds(s / 3600, s % 3600 / 60, s % 60)) == s
  {
    var h, r := s / 3600, s % 3600;
    var m, sec := r / 60, r % 60;
    assert r == m * 60 + sec;
    assert s == h * 3600 + r;
    DivModUnique(s, 60, h * 60 + m, sec);
  }
}
