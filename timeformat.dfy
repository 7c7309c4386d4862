/**
  `datetime.strptime(s, '%Y-%m-%dT%H:%M:%S.000')`: the one format the offset
  loader hands to strptime once it has cut off the `%z` part.

  strptime compiles the format into a regular expression, case-insensitively,
  and requires it to match the whole text. The field patterns are:
    %Y  exactly four digits
    %m  1[0-2] | 0[1-9] | [1-9]                       (1 to 12)
    %d  3[01] | [12]\d | 0[1-9] | [1-9] | ' '[1-9]   (1 to 31)
    %H  2[0-3] | [01]\d | \d                          (0 to 23)
    %M  [0-5]\d | \d                                  (0 to 59)
    %S  6[01] | [0-5]\d | \d                          (0 to 61)
  Every field is followed by a non-digit literal, so a field is exactly the
  run of characters up to that literal. The matched fields then go through
  the `datetime` constructor, which refuses year 0, a day past the end of its
  month, and seconds 60 and 61.
 */
module TimeFormat {
  import opened Wrappers
  import opened PyText
  import opened Calendar

  const WallClockFormat: string := "%Y-%m-%dT%H:%M:%S.000"

  datatype Field = Month | Day | Hour | Minute | Second

  /** One or two digits whose value lies in [lo, hi]. */
  predicate IsNumber(t: string, lo: int, hi: int) {
    (|t| == 1 || |t| == 2) && IsDigit(t[0]) && IsDigit(t[|t| - 1]) && lo <= DecimalValue(t) <= hi
  }

  /** t is a whole match of the pattern of field f. */
  predicate IsToken(f: Field, t: string) {
    match f
    case Month => IsNumber(t, 1, 12)
    case Day => IsNumber(t, 1, 31) || (|t| == 2 && t[0] == ' ' && IsDigit(t[1]) && t[1] != '0')
    case Hour => IsNumber(t, 0, 23)
    case Minute => IsNumber(t, 0, 59)
    case Second => IsNumber(t, 0, 61)
  }

  /** A literal character of the format; the pattern ignores case. */
  predicate MatchesLiteral(c: char, lit: char) {
    c == lit || (lit == 'T' && c == 't')
  }

  /**
    Reads field f from the front of s, then the literal sep; gives the field's
    value and the text after sep.
   */
  function ReadField(s: string, f: Field, sep: char): (r: Option<(nat, string)>)
    ensures r.Some? ==> |r.value.1| + 2 <= |s| && r.value.1 == s[|s| - |r.value.1|..]
  {
    if |s| >= 3 && IsToken(f, s[..2]) && MatchesLiteral(s[2], sep) then Some((DecimalValue(s[..2]), s[3..]))
    else if |s| >= 2 && IsToken(f, s[..1]) && MatchesLiteral(s[1], sep) then Some((DecimalValue(s[..1]), s[2..]))
    else None
  }

  /** Reads the seconds field, then ".000" and the end of the text. */
  function ReadSeconds(s: string): Option<nat>
  {
    if (|s| == 5 || |s| == 6) && s[|s| - 4..] == ".000" && IsToken(Second, s[..|s| - 4])
    then Some(DecimalValue(s[..|s| - 4]))
    else None
  }

  /** Reads the four-digit year, then the literal '-'. */
  function ReadYear(s: string): (r: Option<(nat, string)>)
  {
    if |s| >= 5 && IsDigit(s[0]) && IsDigit(s[1]) && IsDigit(s[2]) && IsDigit(s[3]) && s[4] == '-'
    then Some((DecimalValue(s[..4]), s[5..]))
    else None
  }

  /** datetime.strptime(s, WallClockFormat); a ValueError becomes Err. */
  function ParseWallClock(s: string): (r: Result<WallClock, ValueError>)
    ensures r.Ok? ==> Valid(r.value)
    ensures r.Err? ==> r.error == NoMatch || r.error == OutOfRange
  {
    match ReadYear(s)
    case None => Err(NoMatch)
    case Some((year, afterYear)) =>
      match ReadField(afterYear, Month, '-')
      case None => Err(NoMatch)
      case Some((month, afterMonth)) =>
        match ReadField(afterMonth, Day, 'T')
        case None => Err(NoMatch)
        case Some((day, afterDay)) =>
          match ReadField(afterDay, Hour, ':')
          case None => Err(NoMatch)
          case Some((hour, afterHour)) =>
            match ReadField(afterHour, Minute, ':')
            case None => Err(NoMatch)
            case Some((minute, afterMinute)) =>
              match ReadSeconds(afterMinute)
              case None => Err(NoMatch)
              case Some(second) =>
                var w := WallClock(year, month, day, hour, minute, second);
                if Valid(w) then Ok(w) else Err(OutOfRange)
  }

  /** The wall-clock fields written out in WallClockFormat (strftime of that format). */
  function Format(w: WallClock): (s: string)
    requires Valid(w)
    ensures |s| == 23
  {
    Pad4(w.year) + "-" + Pad2(w.month) + "-" + Pad2(w.day) + "T"
    + Pad2(w.hour) + ":" + Pad2(w.minute) + ":" + Pad2(w.second) + ".000"
  }

  lemma ReadPaddedField(f: Field, n: nat, sep: char, rest: string)
    requires n < 100 && IsToken(f, Pad2(n))
    ensures ReadField(Pad2(n) + [sep] + rest, f, sep) == Some((n, rest))
  {
    var s := Pad2(n) + [sep] + rest;
    assert s[..2] == Pad2(n);
    assert s[3..] == rest;
  }

  /** The parse succeeds with the fields read one after another, when they form a valid date. */
  lemma ParseFromFields(s: string, w: WallClock, afterYear: string, afterMonth: string,
                        afterDay: string, afterHour: string, afterMinute: string)
    requires ReadYear(s) == Some((w.year, afterYear))
    requires ReadField(afterYear, Month, '-') == Some((w.month, afterMonth))
    requires ReadField(afterMonth, Day, 'T') == Some((w.day, afterDay))
    requires ReadField(afterDay, Hour, ':') == Some((w.hour, afterHour))
    requires ReadField(afterHour, Minute, ':') == Some((w.minute, afterMinute))
    requires ReadSeconds(afterMinute) == Some(w.second)
    requires Valid(w)
    ensures ParseWallClock(s) == Ok(w)
  {
  }

  /** Format(w) as its fields, each followed by the literal that ends it. */
  lemma FormatPieces(w: WallClock)
    requires Valid(w)
    ensures Format(w) == Pad4(w.year) + ['-'] + (Pad2(w.month) + ['-'] + (Pad2(w.day) + ['T']
                         + (Pad2(w.hour) + [':'] + (Pad2(w.minute) + [':'] + (Pad2(w.second) + ".000")))))
  {
  }

  lemma ReadPaddedYear(year: nat, rest: string)
    requires year < 10000
    ensures ReadYear(Pad4(year) + ['-'] + rest) == Some((year, rest))
  {
    var s := Pad4(year) + ['-'] + rest;
    assert s[..4] == Pad4(year);
    assert s[5..] == rest;
  }

  lemma ReadPaddedSeconds(n: nat)
    requires n < 100 && IsToken(Second, Pad2(n))
    ensures ReadSeconds(Pad2(n) + ".000") == Some(n)
  {
    var s := Pad2(n) + ".000";
    assert s[..2] == Pad2(n);
    assert s[2..] == ".000";
  }

  /** strptime reads back every valid wall clock that Format writes. */
  lemma ParseFormatRoundTrip(w: WallClock)
    requires Valid(w)
    ensures ParseWallClock(Format(w)) == Ok(w)
  {
    var afterMinute := Pad2(w.second) + ".000";
    var afterHour := Pad2(w.minute) + [':'] + afterMinute;
    var afterDay := Pad2(w.hour) + [':'] + afterHour;
    var afterMonth := Pad2(w.day) + ['T'] + afterDay;
    var afterYear := Pad2(w.month) + ['-'] + afterMonth;
    FormatPieces(w);
    ReadPaddedYear(w.year, afterYear);
    ReadPaddedField(Month, w.month, '-', afterMonth);
    ReadPaddedField(Day, w.day, 'T', afterDay);
    ReadPaddedField(Hour, w.hour, ':', afterHour);
    ReadPaddedField(Minute, w.minute, ':', afterMinute);
    ReadPaddedSeconds(w.second);
    ParseFromFields(Format(w), w, afterYear, afterMonth, afterDay, afterHour, afterMinute);
  }
}
