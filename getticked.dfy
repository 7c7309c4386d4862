/**
  The timestamp-with-offset loader of getticked.py: the fixed-offset zone
  `OffsetTime` built from a text such as "+0530", and `load_datetime`, which
  splits such an offset off a timestamp, parses the rest as wall-clock fields
  and attaches the offset without moving those fields.
 */
module GetTicked {
  import opened Wrappers
  import opened PyText
  import opened Calendar
  import opened TimeFormat

  /** A fixed-offset zone; `minutes` is its UTC offset (the `_utcoffset` timedelta). */
  datatype OffsetTime = OffsetTime(minutes: int)

  /** A `datetime`: naive, or aware with a fixed-offset zone attached. */
  datatype DateTime = Naive(wall: WallClock) | Aware(wall: WallClock, tz: OffsetTime)

  /** The format the task loader passes for every due date. */
  const DueDateFormat: string := "%Y-%m-%dT%H:%M:%S.000%z"

  /** The due-date format is the wall-clock format with `%z` appended; the wall-clock format has no `%z`. */
  lemma DueDateFormatDropsZ()
    ensures EndsWith(DueDateFormat, "%z") && DueDateFormat[..|DueDateFormat| - 2] == WallClockFormat
    ensures !EndsWith(WallClockFormat, "%z")
  {
    assert WallClockFormat[|WallClockFormat| - 1] == '0';
  }

  /** The formats this model can hand to strptime: the due-date format, with or without `%z`. */
  predicate KnownFormat(fmt: string) {
    fmt == DueDateFormat || fmt == WallClockFormat
  }

  /**
    `OffsetTime(offset)`: the hours are the integer the first three
    characters spell (sign and HH), the minutes the integer that the first
    character followed by everything after the third spells, so the leading
    sign counts for both. A text int() refuses raises ValueError and no zone
    is made.
   */
  function NewOffsetTime(offset: string): (r: Result<OffsetTime, ValueError>)
    ensures r.Ok? ==> offset != []
    ensures r.Err? ==> r.error == InvalidLiteral
  {
    var hours := ParseInt(TakeFirst(offset, 3));
    if hours.None? then Err(InvalidLiteral)
    else
      var minuteText := [offset[0]] + DropFirst(offset, 3);
      var minutes := ParseInt(minuteText);
      if minutes.None? then Err(InvalidLiteral)
      else Ok(OffsetTime(60 * hours.value + minutes.value))
  }

  /**
    The offset and the remaining text that load_datetime takes from a value
    whose format ends in `%z`: the last five characters are the offset; if
    they hold a colon, the colon is dropped, a '+' is put in front and one
    more character is cut from the rest.
   */
  function SplitZone(value: string): (r: (string, string))
    ensures var (rest, offset) := r;
      var tail := TakeLast(value, 5);
      && (':' !in tail ==> rest + offset == value && offset == tail)
      && (':' in tail ==> offset == "+" + RemoveColons(tail)
                          && |rest| == (if |value| <= 6 then 0 else |value| - 6) && rest == value[..|rest|])
      && ':' !in offset
  {
    var offset := TakeLast(value, 5);
    var rest := DropLast(value, 5);
    if offset != RemoveColons(offset) then
      (DropLast(rest, 1), "+" + RemoveColons(offset))
    else
      (rest, offset)
  }

  /**
    `OffsetTime(offset).localize(datetime.strptime(text, WallClockFormat))`.
    The zone is built first, so its ValueError wins; localize only attaches
    the zone, it does not move the wall-clock fields.
   */
  function Localize(offset: string, text: string): (r: Result<DateTime, ValueError>)
    ensures NewOffsetTime(offset).Err? ==> r == Err(InvalidLiteral)
    ensures r.Ok? <==> NewOffsetTime(offset).Ok? && ParseWallClock(text).Ok?
    ensures r.Ok? ==> r.value == Aware(ParseWallClock(text).value, NewOffsetTime(offset).value)
  {
    match NewOffsetTime(offset)
    case Err(e) => Err(e)
    case Ok(tz) =>
      match ParseWallClock(text)
      case Err(e) => Err(e)
      case Ok(wall) => Ok(Aware(wall, tz))
  }

  /**
    `load_datetime(value, fmt)` as written. With `%z` the format is the due-date
    format, and what is left of it once `%z` is cut is WallClockFormat
    (DueDateFormatDropsZ); without it the format is WallClockFormat itself.
   */
  function LoadDatetime(value: string, fmt: string): (r: Result<DateTime, ValueError>)
    requires KnownFormat(fmt)
    ensures r.Ok? ==> Valid(r.value.wall)
    ensures r.Ok? ==> (r.value.Aware? <==> EndsWith(fmt, "%z"))
  {
    if EndsWith(fmt, "%z") then
      var (rest, offset) := SplitZone(value);
      Localize(offset, rest)
    else
      match ParseWallClock(value)
      case Err(e) => Err(e)
      case Ok(wall) => Ok(Naive(wall))
  }

  // -----------------------------------------------------------------------
  // The offset texts the loader meets

  function SignChar(m: int): char { if m < 0 then '-' else '+' }

  /** m minutes as the sign-HHMM text: a sign, then two digits of hours and two of minutes. */
  function CompactOffset(m: int): (r: string)
    requires -6000 < m < 6000
    ensures |r| == 5 && ':' !in r
  {
    [SignChar(m)] + Pad2(Abs(m) / 60) + Pad2(Abs(m) % 60)
  }

  /** m minutes written as isoformat() writes a UTC offset: a sign, then HH:MM. */
  function IsoOffset(m: int): (r: string)
    requires -1440 < m < 1440
    ensures |r| == 6
  {
    [SignChar(m)] + Pad2(Abs(m) / 60) + ":" + Pad2(Abs(m) % 60)
  }

  // -----------------------------------------------------------------------
  // OffsetTime

  /** A sign and four digits HHMM give sign * (HH hours + MM minutes): the sign counts for the minutes too. */
  lemma OffsetFromSignedDigits(sign: char, h1: char, h2: char, m1: char, m2: char)
    requires IsSign(sign) && IsDigit(h1) && IsDigit(h2) && IsDigit(m1) && IsDigit(m2)
    ensures NewOffsetTime([sign, h1, h2, m1, m2])
         == Ok(OffsetTime(Signed(sign, 60 * (10 * DigitValue(h1) + DigitValue(h2))
                                       + 10 * DigitValue(m1) + DigitValue(m2))))
  {
    var offset := [sign, h1, h2, m1, m2];
    var hourText, minuteText := TakeFirst(offset, 3), [offset[0]] + DropFirst(offset, 3);
    assert hourText == [sign, h1, h2];
    assert minuteText == [sign, m1, m2];
    ParseSignedDigits(hourText);
    ParseSignedDigits(minuteText);
    DecimalValueOfTwo(hourText[1..]);
    DecimalValueOfTwo(minuteText[1..]);
  }

  lemma OffsetExamples()
    ensures NewOffsetTime("+0530") == Ok(OffsetTime(330))
    ensures NewOffsetTime("-0530") == Ok(OffsetTime(-330))
    ensures NewOffsetTime("-0600") == Ok(OffsetTime(-360))
  {
    OffsetFromSignedDigits('+', '0', '5', '3', '0');
    OffsetFromSignedDigits('-', '0', '5', '3', '0');
    OffsetFromSignedDigits('-', '0', '6', '0', '0');
  }

  /** A zone is made only from a text of digits, signs, whitespace and '_'. */
  lemma OffsetOnlyIntChars(offset: string)
    requires NewOffsetTime(offset).Ok?
    ensures forall i :: 0 <= i < |offset| ==> IsIntChar(offset[i])
  {
    var hourText := TakeFirst(offset, 3);
    var minuteText := [offset[0]] + DropFirst(offset, 3);
    ParseIntOnlyIntChars(hourText);
    ParseIntOnlyIntChars(minuteText);
    assert forall i :: 3 <= i < |offset| ==> offset[i] == minuteText[i - 2];
  }

  /** After a sign, a non-digit where the hours or the minutes begin makes int() raise. */
  lemma MalformedOffsetRefused(offset: string)
    requires |offset| >= 2 && IsSign(offset[0])
    requires !IsDigit(offset[1]) || (|offset| >= 4 && !IsDigit(offset[3]))
    ensures NewOffsetTime(offset) == Err(InvalidLiteral)
  {
    var hourText := TakeFirst(offset, 3);
    if !IsDigit(offset[1]) {
      ParseSignThenNonDigit(hourText);
    } else {
      var minuteText := [offset[0]] + DropFirst(offset, 3);
      assert minuteText[1] == offset[3];
      ParseSignThenNonDigit(minuteText);
    }
  }

  /**
    A sign and four characters make a zone exactly when the first hour and the
    first minute character are digits and the second of each is a digit or
    whitespace: int() skips whitespace at the end of the text it reads.
   */
  lemma SignedOffsetAccepted(offset: string)
    requires |offset| == 5 && IsSign(offset[0])
    ensures NewOffsetTime(offset).Ok? <==>
      IsDigit(offset[1]) && IsDigit(offset[3])
      && (IsDigit(offset[2]) || IsSpace(offset[2])) && (IsDigit(offset[4]) || IsSpace(offset[4]))
  {
    var hourText := TakeFirst(offset, 3);
    var minuteText := [offset[0]] + DropFirst(offset, 3);
    assert hourText == [offset[0], offset[1], offset[2]];
    assert minuteText == [offset[0], offset[3], offset[4]];
    ParseSignedPair(hourText);
    ParseSignedPair(minuteText);
  }

  /** The zone's offset is 60 times the hour text's integer plus the minute text's integer. */
  lemma OffsetFromParts(offset: string, hours: int, minutes: int)
    requires |offset| == 5
    requires ParseInt([offset[0], offset[1], offset[2]]) == Some(hours)
    requires ParseInt([offset[0], offset[3], offset[4]]) == Some(minutes)
    ensures NewOffsetTime(offset) == Ok(OffsetTime(60 * hours + minutes))
  {
    assert TakeFirst(offset, 3) == [offset[0], offset[1], offset[2]];
    assert [offset[0]] + DropFirst(offset, 3) == [offset[0], offset[3], offset[4]];
  }

  /** Whitespace in place of the second hour digit: `+0 30` is read as 0 hours and 30 minutes. */
  lemma OffsetSpaceInHours()
    ensures NewOffsetTime("+0 30") == Ok(OffsetTime(30))
  {
    var o := "+0 30";
    ParseSignedPair([o[0], o[1], o[2]]);
    ParseSignedPair([o[0], o[3], o[4]]);
    OffsetFromParts(o, 0, 30);
  }

  /** Whitespace in place of the second minute digit: `+053 ` is read as 5 hours and 3 minutes. */
  lemma OffsetSpaceInMinutes()
    ensures NewOffsetTime("+053 ") == Ok(OffsetTime(303))
  {
    var o := "+053 ";
    ParseSignedPair([o[0], o[1], o[2]]);
    ParseSignedPair([o[0], o[3], o[4]]);
    OffsetFromParts(o, 5, 3);
  }

  /** An underscore or a sign in place of a second digit is refused. */
  lemma OffsetOtherFillRefused()
    ensures NewOffsetTime("+0_30").Err? && NewOffsetTime("+053-").Err?
  {
    SignedOffsetAccepted("+0_30");
    SignedOffsetAccepted("+053-");
  }

  lemma CompactOffsetChars(m: int)
    requires -6000 < m < 6000
    ensures var hh, mm := Pad2(Abs(m) / 60), Pad2(Abs(m) % 60);
      CompactOffset(m) == [SignChar(m), hh[0], hh[1], mm[0], mm[1]]
  {
  }

  /** OffsetTime reads back every offset that %z writes. */
  lemma CompactOffsetRoundTrip(m: int)
    requires -6000 < m < 6000
    ensures NewOffsetTime(CompactOffset(m)) == Ok(OffsetTime(m))
  {
    var hh, mm := Pad2(Abs(m) / 60), Pad2(Abs(m) % 60);
    CompactOffsetChars(m);
    OffsetFromSignedDigits(SignChar(m), hh[0], hh[1], mm[0], mm[1]);
  }

  // -----------------------------------------------------------------------
  // load_datetime

  /** With %z in the format, the load is the zone and the wall clock read from SplitZone's two parts. */
  lemma LoadFromParts(value: string, rest: string, offset: string, w: WallClock, tz: OffsetTime)
    requires SplitZone(value) == (rest, offset)
    requires NewOffsetTime(offset) == Ok(tz) && ParseWallClock(rest) == Ok(w)
    ensures LoadDatetime(value, DueDateFormat) == Ok(Aware(w, tz))
  {
    DueDateFormatDropsZ();
  }

  /** A timestamp with a %z offset loads as its own wall-clock fields with that offset attached. */
  lemma LoadCompactRoundTrip(w: WallClock, m: int)
    requires Valid(w) && -6000 < m < 6000
    ensures LoadDatetime(Format(w) + CompactOffset(m), DueDateFormat) == Ok(Aware(w, OffsetTime(m)))
  {
    var value := Format(w) + CompactOffset(m);
    assert SplitZone(value) == (Format(w), CompactOffset(m)) by {
      assert TakeLast(value, 5) == CompactOffset(m);
      assert DropLast(value, 5) == Format(w);
    }
    CompactOffsetRoundTrip(m);
    ParseFormatRoundTrip(w);
    LoadFromParts(value, Format(w), CompactOffset(m), w, OffsetTime(m));
  }

  /** Without %z in the format the value is parsed whole and stays naive. */
  lemma LoadNaiveRoundTrip(w: WallClock)
    requires Valid(w)
    ensures LoadDatetime(Format(w), WallClockFormat) == Ok(Naive(w))
  {
    ParseFormatRoundTrip(w);
  }

  /** Dropping the colon from isoformat's HH:MM leaves the HHMM that %z writes. */
  lemma ColonsOutOfIsoOffset(m: int)
    requires -1440 < m < 1440
    ensures RemoveColons(Pad2(Abs(m) / 60) + ":" + Pad2(Abs(m) % 60)) == Pad2(Abs(m) / 60) + Pad2(Abs(m) % 60)
  {
    var hh, mm := Pad2(Abs(m) / 60), Pad2(Abs(m) % 60);
    assert hh + ":" + mm == hh + (":" + mm);
    RemoveColonsAppend(hh, ":" + mm);
    RemoveColonsAppend(":", mm);
    assert ":"[1..] == [];
    assert RemoveColons(":") == [];
    assert ':' !in hh by { assert IsDigit(hh[0]) && IsDigit(hh[1]); }
    assert ':' !in mm by { assert IsDigit(mm[0]) && IsDigit(mm[1]); }
  }

  /** load_datetime's split of a text ending in isoformat's offset: the sign goes with the colon. */
  lemma SplitIsoZone(prefix: string, m: int)
    requires -1440 < m < 1440
    ensures SplitZone(prefix + IsoOffset(m)) == (prefix, CompactOffset(Abs(m)))
  {
    var hh, mm := Pad2(Abs(m) / 60), Pad2(Abs(m) % 60);
    var value := prefix + IsoOffset(m);
    var tail := hh + ":" + mm;
    assert value == (prefix + [SignChar(m)]) + tail;
    assert TakeLast(value, 5) == tail;
    assert DropLast(value, 5) == prefix + [SignChar(m)];
    assert ':' in tail by { assert tail[2] == ':'; }
    assert DropLast(prefix + [SignChar(m)], 1) == prefix;
    ColonsOutOfIsoOffset(m);
    assert CompactOffset(Abs(m)) == "+" + (hh + mm);
  }

  /**
    A five-character offset without a colon from which no zone can be made makes the load
    raise, whatever text comes before it: the zone is built before strptime runs.
   */
  lemma LoadMalformedOffset(prefix: string, offset: string)
    requires |offset| == 5 && ':' !in offset && NewOffsetTime(offset).Err?
    ensures LoadDatetime(prefix + offset, DueDateFormat) == Err(InvalidLiteral)
  {
    var value := prefix + offset;
    assert TakeLast(value, 5) == offset;
    assert DropLast(value, 5) == prefix;
    DueDateFormatDropsZ();
  }

  /**
    A timestamp whose offset isoformat() wrote (+HH:MM or -HH:MM) keeps its
    wall-clock fields, but its offset always comes out positive.
   */
  lemma LoadIsoOffsetLosesSign(w: WallClock, m: int)
    requires Valid(w) && -1440 < m < 1440
    ensures LoadDatetime(Format(w) + IsoOffset(m), DueDateFormat) == Ok(Aware(w, OffsetTime(Abs(m))))
  {
    SplitIsoZone(Format(w), m);
    CompactOffsetRoundTrip(Abs(m));
    ParseFormatRoundTrip(w);
    LoadFromParts(Format(w) + IsoOffset(m), Format(w), CompactOffset(Abs(m)), w, OffsetTime(Abs(m)));
  }

  // -----------------------------------------------------------------------
  // The sign the colon branch drops

  /**
    The split the colon branch evidently means: the offset is the last six
    characters without their colon, `value[-6:].replace(':', '')`, so the
    sign in front of HH:MM is kept. Without a colon it is load_datetime's split.
   */
  function SplitZoneCorrected(value: string): (r: (string, string))
    ensures ':' !in TakeLast(value, 5) ==> r == SplitZone(value)
    ensures ':' in TakeLast(value, 5) ==> r.0 + TakeLast(value, 6) == value && r.1 == RemoveColons(TakeLast(value, 6))
  {
    var tail := TakeLast(value, 5);
    if tail != RemoveColons(tail) then (DropLast(value, 6), RemoveColons(TakeLast(value, 6)))
    else (DropLast(value, 5), tail)
  }

  /** load_datetime with the colon branch keeping the offset's sign. */
  function LoadDatetimeCorrected(value: string, fmt: string): (r: Result<DateTime, ValueError>)
    requires KnownFormat(fmt)
    ensures r.Ok? ==> Valid(r.value.wall)
    ensures r.Ok? ==> (r.value.Aware? <==> EndsWith(fmt, "%z"))
  {
    if EndsWith(fmt, "%z") then
      var (rest, offset) := SplitZoneCorrected(value);
      Localize(offset, rest)
    else
      match ParseWallClock(value)
      case Err(e) => Err(e)
      case Ok(wall) => Ok(Naive(wall))
  }

  /** Where the offset has no colon, the corrected loader does exactly what load_datetime does. */
  lemma LoadCorrectedAgrees(value: string, fmt: string)
    requires KnownFormat(fmt) && ':' !in TakeLast(value, 5)
    ensures LoadDatetimeCorrected(value, fmt) == LoadDatetime(value, fmt)
  {
  }

  /** The corrected split of a text ending in isoformat's offset keeps the sign. */
  lemma SplitIsoZoneCorrected(prefix: string, m: int)
    requires -1440 < m < 1440
    ensures SplitZoneCorrected(prefix + IsoOffset(m)) == (prefix, CompactOffset(m))
  {
    var hh, mm := Pad2(Abs(m) / 60), Pad2(Abs(m) % 60);
    var value := prefix + IsoOffset(m);
    var tail := hh + ":" + mm;
    assert value == (prefix + [SignChar(m)]) + tail;
    assert TakeLast(value, 5) == tail;
    assert ':' in tail by { assert tail[2] == ':'; }
    assert value == prefix + IsoOffset(m);
    assert TakeLast(value, 6) == IsoOffset(m);
    assert IsoOffset(m) == [SignChar(m)] + tail;
    RemoveColonsAppend([SignChar(m)], tail);
    ColonsOutOfIsoOffset(m);
    assert RemoveColons([SignChar(m)]) == [SignChar(m)];
    assert CompactOffset(m) == [SignChar(m)] + (hh + mm);
  }

  /** With the sign kept, a timestamp with isoformat's offset loads as its fields and that offset. */
  lemma LoadCorrectedIsoRoundTrip(w: WallClock, m: int)
    requires Valid(w) && -1440 < m < 1440
    ensures LoadDatetimeCorrected(Format(w) + IsoOffset(m), DueDateFormat) == Ok(Aware(w, OffsetTime(m)))
  {
    SplitIsoZoneCorrected(Format(w), m);
    CompactOffsetRoundTrip(m);
    ParseFormatRoundTrip(w);
    DueDateFormatDropsZ();
  }

  // -----------------------------------------------------------------------
  // The instant an aware datetime denotes

  /** Seconds from 0001-01-01T00:00:00 UTC to the instant: the wall clock minus the UTC offset. */
  function UtcSeconds(d: DateTime): int
    requires d.Aware? && Valid(d.wall)
  {
    LocalSeconds(d.wall) - 60 * d.tz.minutes
  }

  /** Two aware datetimes in the same zone are the same instant only when their fields agree, and are ordered as their fields. */
  lemma SameZoneInstants(a: DateTime, b: DateTime)
    requires a.Aware? && b.Aware? && Valid(a.wall) && Valid(b.wall) && a.tz == b.tz
    ensures UtcSeconds(a) == UtcSeconds(b) <==> a.wall == b.wall
    ensures UtcSeconds(a) < UtcSeconds(b) <==> Before(a.wall, b.wall)
  {
    if LocalSeconds(a.wall) == LocalSeconds(b.wall) {
      LocalSecondsInjective(a.wall, b.wall);
    }
    if Before(a.wall, b.wall) {
      LocalSecondsIncreasing(a.wall, b.wall);
    } else if Before(b.wall, a.wall) {
      LocalSecondsIncreasing(b.wall, a.wall);
    }
  }

  /**
    Through load_datetime, a negative isoformat offset names an instant
    120 * |m| seconds (twice the offset) earlier than the one written; a
    positive one is read right.
   */
  lemma IsoSignLossShiftsInstant(w: WallClock, m: int)
    requires Valid(w) && -1440 < m < 1440
    ensures LoadDatetime(Format(w) + IsoOffset(m), DueDateFormat).Ok?
    ensures LoadDatetimeCorrected(Format(w) + IsoOffset(m), DueDateFormat).Ok?
    ensures LoadDatetime(Format(w) + IsoOffset(m), DueDateFormat).value.Aware?
    ensures LoadDatetimeCorrected(Format(w) + IsoOffset(m), DueDateFormat).value.Aware?
    ensures UtcSeconds(LoadDatetime(Format(w) + IsoOffset(m), DueDateFormat).value)
         == UtcSeconds(LoadDatetimeCorrected(Format(w) + IsoOffset(m), DueDateFormat).value)
            + (if m < 0 then 120 * m else 0)
  {
    LoadIsoOffsetLosesSign(w, m);
    LoadCorrectedIsoRoundTrip(w, m);
  }

  // -----------------------------------------------------------------------
  // Concrete cases

  /** The due date from the doc comment of string_to_timestamp, and the same moment written -05:30. */
  const DocWall: WallClock := WallClock(2018, 2, 23, 14, 30, 0)

  lemma DocPads()
    ensures Pad4(2018) == "2018" && Pad2(2) == "02" && Pad2(23) == "23"
    ensures Pad2(14) == "14" && Pad2(30) == "30" && Pad2(0) == "00" && Pad2(5) == "05"
  {
    assert Pad2(20) == "20" && Pad2(18) == "18";
  }

  lemma DocWallText()
    ensures Valid(DocWall) && Format(DocWall) == "2018-02-23T14:30:00.000"
  {
    assert Valid(DocWall);
    DocPads();
  }

  lemma DocOffsetTexts()
    ensures CompactOffset(0) == "+0000" && IsoOffset(-330) == "-05:30"
  {
    DocPads();
  }

  /** The texts the concrete cases load. */
  lemma DocTexts()
    ensures Format(DocWall) + CompactOffset(0) == "2018-02-23T14:30:00.000+0000"
    ensures Format(DocWall) + IsoOffset(-330) == "2018-02-23T14:30:00.000-05:30"
  {
    DocWallText();
    DocOffsetTexts();
  }

  /**
    The doc comment's due date loads as 14:30 on 23 February 2018 at UTC;
    written with -05:30 it loads at +05:30, and the corrected loader keeps -05:30.
   */
  lemma DocExample()
    ensures LoadDatetime("2018-02-23T14:30:00.000+0000", DueDateFormat) == Ok(Aware(DocWall, OffsetTime(0)))
    ensures LoadDatetime("2018-02-23T14:30:00.000", WallClockFormat) == Ok(Naive(DocWall))
    ensures LoadDatetime("2018-02-23T14:30:00.000-05:30", DueDateFormat) == Ok(Aware(DocWall, OffsetTime(330)))
    ensures LoadDatetimeCorrected("2018-02-23T14:30:00.000-05:30", DueDateFormat) == Ok(Aware(DocWall, OffsetTime(-330)))
  {
    DocWallText();
    DocTexts();
    assert Valid(DocWall);
    LoadCompactRoundTrip(DocWall, 0);
    LoadNaiveRoundTrip(DocWall);
    LoadIsoOffsetLosesSign(DocWall, -330);
    LoadCorrectedIsoRoundTrip(DocWall, -330);
  }
}
