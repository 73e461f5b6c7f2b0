/**
 * The civilian clock of session1/example2.js, twice: the functional pipeline
 * (serializeClockTime, appendAMPM, civilianHours, prependZero, formatClock,
 * convertToCivilianTime, doubleDigits) and the imperative getClockTime, which
 * rewrites the fields of one record in place. The current time is a parameter
 * (hours, minutes, seconds) instead of a `new Date()` read.
 */
module Clock {
  import opened Wrappers
  import opened JsStrings
  import opened Composition

  /** A clock field holds a number until a zero is prepended; then it holds a string. */
  datatype Field = Num(n: int) | Text(s: string)

  /** String(field): what `"0" + field` and `replace` turn a field into. */
  function Show(f: Field): string
  {
    match f
    case Num(n) => NumberToString(n)
    case Text(s) => s
  }

  /** The number a comparison or a subtraction reads from a field; None is NaN. */
  function ValueOf(f: Field): Option<int>
  {
    match f
    case Num(n) => Some(n)
    case Text(s) => ToNumber(s)
  }

  // JavaScript's relational operators against a number: false whenever the field is NaN.
  predicate IsLess(f: Field, k: int) { ValueOf(f).Some? && ValueOf(f).value < k }
  predicate IsGreater(f: Field, k: int) { ValueOf(f).Some? && ValueOf(f).value > k }
  predicate IsAtLeast(f: Field, k: int) { ValueOf(f).Some? && ValueOf(f).value >= k }
  predicate IsLooselyEqual(f: Field, k: int) { ValueOf(f) == Some(k) }

  /** `"0" + field`. */
  function WithLeadingZero(f: Field): Field
  {
    Text("0" + Show(f))
  }

  /** `(field < 10) ? "0" + field : field`, the test both versions apply to each field. */
  function ZeroPadded(f: Field): Field
  {
    if IsLess(f, 10) then WithLeadingZero(f) else f
  }

  /** The clock-time object; `ampm` is absent until appendAMPM adds it. */
  datatype ClockTime = ClockTime(hours: Field, minutes: Field, seconds: Field, ampm: Option<string>)

  /** The keys prependZero is called with. */
  datatype Key = Hours | Minutes | Seconds

  function Get(t: ClockTime, key: Key): Field
  {
    match key
    case Hours => t.hours
    case Minutes => t.minutes
    case Seconds => t.seconds
  }

  /** `{...t, [key]: v}`. */
  function With(t: ClockTime, key: Key, v: Field): ClockTime
  {
    match key
    case Hours => t.(hours := v)
    case Minutes => t.(minutes := v)
    case Seconds => t.(seconds := v)
  }

  /** String(time.ampm): a marker that was never set prints as "undefined". */
  function ShowMarker(m: Option<string>): string
  {
    match m
    case Some(s) => s
    case None => "undefined"
  }

  // ------------------------------------------------------------------
  // The functional pipeline
  // ------------------------------------------------------------------

  /** serializeClockTime, with the Date reads taken as parameters. */
  function SerializeClockTime(hours: int, minutes: int, seconds: int): (r: ClockTime)
    ensures ValueOf(r.hours) == Some(hours) && ValueOf(r.minutes) == Some(minutes)
    ensures ValueOf(r.seconds) == Some(seconds)
    ensures r.hours.Num? && r.minutes.Num? && r.seconds.Num?
    ensures r.ampm.None? && ShowMarker(r.ampm) == "undefined"
  {
    ClockTime(Num(hours), Num(minutes), Num(seconds), None)
  }

  /** civilianHours: subtracts 12 from the hours exactly when they are above 12. */
  function CivilianHours(t: ClockTime): (r: ClockTime)
    ensures r.minutes == t.minutes && r.seconds == t.seconds && r.ampm == t.ampm
    ensures r.hours != t.hours <==> IsGreater(t.hours, 12)
    ensures IsGreater(t.hours, 12) ==> ValueOf(r.hours) == Some(ValueOf(t.hours).value - 12)
  {
    t.(hours := if IsGreater(t.hours, 12) then Num(ValueOf(t.hours).value - 12) else t.hours)
  }

  /** appendAMPM: the marker is "PM" exactly when the hours are 12 or more. */
  function AppendAMPM(t: ClockTime): (r: ClockTime)
    ensures r.hours == t.hours && r.minutes == t.minutes && r.seconds == t.seconds
    ensures r.ampm == Some("PM") <==> IsAtLeast(t.hours, 12)
    ensures r.ampm == Some("AM") <==> !IsAtLeast(t.hours, 12)
  {
    t.(ampm := Some(if IsAtLeast(t.hours, 12) then "PM" else "AM"))
  }

  /** r is t with the field under key zero-padded and every other part left alone. */
  predicate PaddedOnly(t: ClockTime, key: Key, r: ClockTime)
  {
    && Get(r, key) == ZeroPadded(Get(t, key))
    && r.ampm == t.ampm
    && forall other :: other != key ==> Get(r, other) == Get(t, other)
  }

  /** prependZero(key): zero-pads the field under key and leaves the rest of the record alone. */
  function PrependZero(key: Key): (pad: ClockTime -> ClockTime)
    ensures forall t :: PaddedOnly(t, key, pad(t))
  {
    (t: ClockTime) => With(t, key, ZeroPadded(Get(t, key)))
  }

  /** The text "hh:mm:ss tt" stands for, once its four pieces are known. */
  function Layout(h: string, m: string, s: string, a: string): string
  {
    h + ":" + m + ":" + s + " " + a
  }

  /** The template startTicking passes to formatClock. */
  const ClockFormat := "hh:mm:ss tt"

  /** Text made only of digits and '-', as String(n) and "0" + String(n) are. */
  predicate NumericText(s: string)
  {
    forall i :: 0 <= i < |s| ==> s[i] == '-' || IsDigit(s[i])
  }

  /** Each field prints as digits and '-' only, so none holds a placeholder letter. */
  predicate NumericFields(t: ClockTime)
  {
    NumericText(Show(t.hours)) && NumericText(Show(t.minutes)) && NumericText(Show(t.seconds))
  }

  /**
   * The function formatClock(format) returns, applied to one record: the
   * first hh, mm, ss and tt of format are filled, in that order. On the clock
   * template with numeric fields this is plain concatenation.
   */
  function FillClock(format: string, t: ClockTime): (text: string)
    ensures format == ClockFormat && NumericFields(t) ==>
      text == Layout(Show(t.hours), Show(t.minutes), Show(t.seconds), ShowMarker(t.ampm))
  {
    var withHours := ReplaceFirst(format, "hh", Show(t.hours));
    var withMinutes := ReplaceFirst(withHours, "mm", Show(t.minutes));
    var withSeconds := ReplaceFirst(withMinutes, "ss", Show(t.seconds));
    FillTemplate(Show(t.hours), Show(t.minutes), Show(t.seconds), ShowMarker(t.ampm));
    ReplaceFirst(withSeconds, "tt", ShowMarker(t.ampm))
  }

  /** formatClock(format): a function from a record to the filled-in text. */
  function FormatClock(format: string): (fill: ClockTime -> string)
    ensures forall t :: format == ClockFormat && NumericFields(t) ==>
      fill(t) == Layout(Show(t.hours), Show(t.minutes), Show(t.seconds), ShowMarker(t.ampm))
  {
    (t: ClockTime) => FillClock(format, t)
  }

  /** convertToCivilianTime = compose(appendAMPM, civilianHours). */
  function ConvertToCivilianTime(t: ClockTime): (r: ClockTime)
    ensures r.minutes == t.minutes && r.seconds == t.seconds
    ensures r.hours == if IsGreater(t.hours, 12) then Num(ValueOf(t.hours).value - 12) else t.hours
    ensures r.ampm == Some(if IsAtLeast(t.hours, 12) then "PM" else "AM")
  {
    ComposeTwo(AppendAMPM, CivilianHours, t);
    Compose([AppendAMPM, CivilianHours])(t)
  }

  /** doubleDigits = compose(prependZero("hours"), prependZero("minutes"), prependZero("seconds")). */
  function DoubleDigits(t: ClockTime): (r: ClockTime)
    ensures r == ClockTime(ZeroPadded(t.hours), ZeroPadded(t.minutes), ZeroPadded(t.seconds), t.ampm)
  {
    ComposeThree(PrependZero(Hours), PrependZero(Minutes), PrependZero(Seconds), t);
    Compose([PrependZero(Hours), PrependZero(Minutes), PrependZero(Seconds)])(t)
  }

  /**
   * The text one tick of startTicking displays: serialize, convert, pad,
   * format. It is the three padded civilian fields and the marker chosen
   * from the 24-hour value, joined as the template lays them out.
   */
  function CivilianClockText(hours: int, minutes: int, seconds: int): (text: string)
    ensures text == Layout(Show(ZeroPadded(Num(if hours > 12 then hours - 12 else hours))),
      Show(ZeroPadded(Num(minutes))), Show(ZeroPadded(Num(seconds))), if hours >= 12 then "PM" else "AM")
  {
    var record := DoubleDigits(ConvertToCivilianTime(SerializeClockTime(hours, minutes, seconds)));
    CivilianRecord(hours, minutes, seconds);
    ZeroPaddedNumeric(if hours > 12 then hours - 12 else hours);
    ZeroPaddedNumeric(minutes);
    ZeroPaddedNumeric(seconds);
    assert NumericFields(record);
    FormatClock(ClockFormat)(record)
  }

  /** The pipeline's record just before formatting: padded civilian fields, marker from the 24-hour value. */
  lemma CivilianRecord(hours: int, minutes: int, seconds: int)
    ensures DoubleDigits(ConvertToCivilianTime(SerializeClockTime(hours, minutes, seconds)))
      == ClockTime(ZeroPadded(Num(if hours > 12 then hours - 12 else hours)),
                   ZeroPadded(Num(minutes)), ZeroPadded(Num(seconds)),
                   Some(if hours >= 12 then "PM" else "AM"))
  {
    var c := ConvertToCivilianTime(SerializeClockTime(hours, minutes, seconds));
    assert c == ClockTime(Num(if hours > 12 then hours - 12 else hours), Num(minutes), Num(seconds),
                          Some(if hours >= 12 then "PM" else "AM"));
  }

  /** The 24-hour value a civilian hour and its marker stand for. */
  function To24Hour(hours: int, marker: string): int
  {
    if marker == "PM" && hours != 12 then hours + 12 else hours
  }

  // ------------------------------------------------------------------
  // Properties of the pipeline
  // ------------------------------------------------------------------

  /**
   * convertToCivilianTime runs appendAMPM before civilianHours, so the marker
   * is read from the 24-hour value. Hours 0..23 become 0..12 with the right
   * marker (midnight stays 0, "AM"), and the 24-hour value can be recovered.
   */
  lemma ConvertToCivilianTimeHours(hours: int, minutes: int, seconds: int)
    requires 0 <= hours < 24
    ensures var r := ConvertToCivilianTime(SerializeClockTime(hours, minutes, seconds));
      && r.hours == Num(if hours > 12 then hours - 12 else hours)
      && 0 <= r.hours.n <= 12
      && r.minutes == Num(minutes) && r.seconds == Num(seconds)
      && r.ampm == Some(if hours >= 12 then "PM" else "AM")
      && To24Hour(r.hours.n, r.ampm.value) == hours
  {
    var t := SerializeClockTime(hours, minutes, seconds);
    ComposeTwo(AppendAMPM, CivilianHours, t);
  }

  /** Padding a number 0..99 gives two characters that read back as the number. */
  lemma {:induction false} ZeroPaddedTwoDigits(n: int)
    requires 0 <= n < 100
    ensures |Show(ZeroPadded(Num(n)))| == 2
    ensures ValueOf(ZeroPadded(Num(n))) == Some(n)
    ensures ToNumber(Show(ZeroPadded(Num(n)))) == Some(n)
    ensures AllDigits(Show(ZeroPadded(Num(n))))
  {
    NatToStringRoundTrip(n);
    if n < 10 {
      LeadingZero(NatToString(n));
    }
  }

  /**
   * prependZero(key) touches only the field under key, and only when it is
   * below 10; a number 0..99 there comes out as two characters of the same value.
   */
  lemma PrependZeroField(key: Key, t: ClockTime)
    ensures var r := PrependZero(key)(t);
      && r.ampm == t.ampm
      && (forall other :: other != key ==> Get(r, other) == Get(t, other))
      && (Get(r, key) != Get(t, key) <==> IsLess(Get(t, key), 10))
      && (IsLess(Get(t, key), 10) ==> Show(Get(r, key)) == "0" + Show(Get(t, key)))
      && (Get(t, key).Num? && 0 <= Get(t, key).n < 100 ==>
            |Show(Get(r, key))| == 2 && ValueOf(Get(r, key)) == Some(Get(t, key).n))
  {
    var f := Get(t, key);
    if IsLess(f, 10) {
      assert |Show(WithLeadingZero(f))| == |Show(f)| + 1;
    }
    if f.Num? && 0 <= f.n < 100 {
      ZeroPaddedTwoDigits(f.n);
    }
  }

  lemma ZeroPaddedNumeric(n: int)
    ensures NumericText(Show(ZeroPadded(Num(n))))
  {
    var s := NumberToString(n);
    assert NumericText(s);
    assert NumericText("0" + s);
  }

  /** Numeric text holds none of the placeholder letters. */
  lemma NumericHasNoLetter(s: string, c: char)
    requires NumericText(s) && c in "hmst"
    ensures c !in s
  {
    forall i | 0 <= i < |s|
      ensures s[i] != c
    {
      assert s[i] == '-' || IsDigit(s[i]);
    }
  }

  /** The first placeholder: hh at the very start of the template. */
  lemma FillHours(h: string)
    ensures ReplaceFirst(ClockFormat, "hh", h) == h + ":mm:ss tt"
  {
    assert ClockFormat == [] + "hh" + ":mm:ss tt";
    ReplaceFirstAfter([], "hh", ":mm:ss tt", h);
    assert [] + h + ":mm:ss tt" == h + ":mm:ss tt";
  }

  /** The second placeholder: mm after the hours and a colon. */
  lemma FillMinutes(h: string, m: string)
    requires NumericText(h)
    ensures ReplaceFirst(h + ":mm:ss tt", "mm", m) == h + ":" + m + ":ss tt"
  {
    NumericHasNoLetter(h, 'm');
    assert h + ":mm:ss tt" == (h + ":") + "mm" + ":ss tt";
    ReplaceFirstAfter(h + ":", "mm", ":ss tt", m);
    assert (h + ":") + m + ":ss tt" == h + ":" + m + ":ss tt";
  }

  /** The third placeholder: ss after hours, minutes and two colons. */
  lemma FillSeconds(h: string, m: string, s: string)
    requires NumericText(h) && NumericText(m)
    ensures ReplaceFirst(h + ":" + m + ":ss tt", "ss", s) == h + ":" + m + ":" + s + " tt"
  {
    NumericHasNoLetter(h, 's');
    NumericHasNoLetter(m, 's');
    var done := h + ":" + m + ":";
    assert h + ":" + m + ":ss tt" == done + "ss" + " tt";
    ReplaceFirstAfter(done, "ss", " tt", s);
    assert done + s + " tt" == h + ":" + m + ":" + s + " tt";
  }

  /** The last placeholder: tt after the three fields. */
  lemma FillMarker(h: string, m: string, s: string, a: string)
    requires NumericText(h) && NumericText(m) && NumericText(s)
    ensures ReplaceFirst(h + ":" + m + ":" + s + " tt", "tt", a) == Layout(h, m, s, a)
  {
    NumericHasNoLetter(h, 't');
    NumericHasNoLetter(m, 't');
    NumericHasNoLetter(s, 't');
    var done := h + ":" + m + ":" + s + " ";
    assert h + ":" + m + ":" + s + " tt" == done + "tt" + "";
    ReplaceFirstAfter(done, "tt", "", a);
    assert done + a + "" == Layout(h, m, s, a);
  }

  /**
   * Filling "hh:mm:ss tt" with numeric text is plain concatenation: no
   * field can contain the start of a later placeholder.
   */
  lemma FillTemplate(h: string, m: string, s: string, a: string)
    ensures NumericText(h) && NumericText(m) && NumericText(s) ==>
      ReplaceFirst(ReplaceFirst(ReplaceFirst(ReplaceFirst(ClockFormat, "hh", h), "mm", m), "ss", s), "tt", a)
      == Layout(h, m, s, a)
  {
    if NumericText(h) && NumericText(m) && NumericText(s) {
      FillHours(h);
      FillMinutes(h, m);
      FillSeconds(h, m, s);
      FillMarker(h, m, s, a);
    }
  }

  /** Where the pieces of "hh:mm:ss tt" sit once each field has two characters. */
  lemma ClockLayout(h: string, m: string, s: string, a: string)
    requires |h| == 2 && |m| == 2 && |s| == 2
    ensures var text := Layout(h, m, s, a);
      && |text| == 9 + |a|
      && text[2] == ':' && text[5] == ':' && text[8] == ' '
      && text[..2] == h && text[3..5] == m && text[6..8] == s && text[9..] == a
  {
  }

  /**
   * For a time of day the clock text is "hh:mm:ss tt": two digits of
   * civilian hour, two of minute, two of second, then "AM" or "PM".
   */
  lemma CivilianClockTextShape(hours: int, minutes: int, seconds: int)
    requires 0 <= hours < 24 && 0 <= minutes < 60 && 0 <= seconds < 60
    ensures var text := CivilianClockText(hours, minutes, seconds);
      && |text| == 11
      && text[2] == ':' && text[5] == ':' && text[8] == ' '
      && AllDigits(text[..2]) && AllDigits(text[3..5]) && AllDigits(text[6..8])
      && ToNumber(text[..2]) == Some(if hours > 12 then hours - 12 else hours)
      && ToNumber(text[3..5]) == Some(minutes)
      && ToNumber(text[6..8]) == Some(seconds)
      && text[9..] == (if hours >= 12 then "PM" else "AM")
  {
    PaddedClockShape(if hours > 12 then hours - 12 else hours, minutes, seconds,
                     if hours >= 12 then "PM" else "AM");
  }

  /** The layout of three padded two-digit fields and a two-letter marker. */
  lemma PaddedClockShape(h12: int, minutes: int, seconds: int, a: string)
    requires 0 <= h12 < 100 && 0 <= minutes < 100 && 0 <= seconds < 100 && |a| == 2
    ensures var text := Layout(Show(ZeroPadded(Num(h12))), Show(ZeroPadded(Num(minutes))),
        Show(ZeroPadded(Num(seconds))), a);
      && |text| == 11
      && text[2] == ':' && text[5] == ':' && text[8] == ' '
      && AllDigits(text[..2]) && AllDigits(text[3..5]) && AllDigits(text[6..8])
      && ToNumber(text[..2]) == Some(h12)
      && ToNumber(text[3..5]) == Some(minutes)
      && ToNumber(text[6..8]) == Some(seconds)
      && text[9..] == a
  {
    ZeroPaddedTwoDigits(h12);
    ZeroPaddedTwoDigits(minutes);
    ZeroPaddedTwoDigits(seconds);
    var h, m, sec := Show(ZeroPadded(Num(h12))), Show(ZeroPadded(Num(minutes))), Show(ZeroPadded(Num(seconds)));
    ClockLayout(h, m, sec, a);
  }

  // ------------------------------------------------------------------
  // The imperative version
  // ------------------------------------------------------------------

  /** The `time` object getClockTime builds and then rewrites field by field. */
  class TimeRecord {
    var hours: Field
    var minutes: Field
    var seconds: Field
    var ampm: string

    constructor (hours: int, minutes: int, seconds: int)
      ensures this.hours == Num(hours) && this.minutes == Num(minutes) && this.seconds == Num(seconds)
      ensures ampm == "AM"
    {
      this.hours := Num(hours);
      this.minutes := Num(minutes);
      this.seconds := Num(seconds);
      ampm := "AM";
    }
  }

  /**
   * getClockTime: the same text as one tick of the functional pipeline,
   * for every hour, minute and second.
   */
  method GetClockTime(hours: int, minutes: int, seconds: int) returns (clock: string)
    ensures clock == CivilianClockText(hours, minutes, seconds)
  {
    var time := new TimeRecord(hours, minutes, seconds);
    // Convert to civilian time
    if IsLooselyEqual(time.hours, 12) {
      time.ampm := "PM";
    } else if IsGreater(time.hours, 12) {
      time.ampm := "PM";
      time.hours := Num(ValueOf(time.hours).value - 12);
    }
    ghost var h12 := if hours > 12 then hours - 12 else hours;
    assert time.hours == Num(h12) && time.ampm == (if hours >= 12 then "PM" else "AM");
    // Prepend a 0 to each field below 10
    if IsLess(time.hours, 10) {
      time.hours := WithLeadingZero(time.hours);
    }
    if IsLess(time.minutes, 10) {
      time.minutes := WithLeadingZero(time.minutes);
    }
    if IsLess(time.seconds, 10) {
      time.seconds := WithLeadingZero(time.seconds);
    }
    assert time.hours == ZeroPadded(Num(h12));
    assert time.minutes == ZeroPadded(Num(minutes)) && time.seconds == ZeroPadded(Num(seconds));
    clock := Show(time.hours) + ":" + Show(time.minutes) + ":" + Show(time.seconds) + " " + time.ampm;
  }

  // ------------------------------------------------------------------
  // `both`: civilianHours composed before appendAMPM
  // ------------------------------------------------------------------

  /**
   * both = compose(civilianHours, appendAMPM), as written: the hours are
   * reduced first, so the marker is read from the civilian hour.
   */
  function Both(t: ClockTime): (r: ClockTime)
    ensures r.minutes == t.minutes && r.seconds == t.seconds
    ensures r.hours == ConvertToCivilianTime(t).hours
    ensures r.ampm == Some(if IsAtLeast(r.hours, 12) then "PM" else "AM")
  {
    ComposeTwo(CivilianHours, AppendAMPM, t);
    Compose([CivilianHours, AppendAMPM])(t)
  }

  /**
   * Because the hours are already reduced when appendAMPM reads them, `both`
   * marks every afternoon hour 13..23 as "AM"; convertToCivilianTime, which
   * reads the marker first, marks them "PM".
   */
  lemma BothMarksAfternoonAM(hours: int, minutes: int, seconds: int)
    requires 13 <= hours < 24
    ensures Both(SerializeClockTime(hours, minutes, seconds)).ampm == Some("AM")
    ensures ConvertToCivilianTime(SerializeClockTime(hours, minutes, seconds)).ampm == Some("PM")
  {
    var t := SerializeClockTime(hours, minutes, seconds);
    ComposeTwo(CivilianHours, AppendAMPM, t);
    ConvertToCivilianTimeHours(hours, minutes, seconds);
  }
}
