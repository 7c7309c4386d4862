# getticked due-date loader, modelled in Dafny

getticked fetches a user's TickTick tasks and prints each title with its due
date. Every due date arrives as text such as `2018-02-23T14:30:00.000+0000`
and is turned into a timezone-aware `datetime` by two pieces of
`getticked.py`:

- `OffsetTime` is a fixed-offset zone built from an offset text such as
  `+0530`. The hours are the integer in the sign and the first two digits.
  The minutes are the integer in the same sign followed by the remaining
  digits.
- `load_datetime(value, fmt)` handles a format ending in `%z`. It cuts the
  last five characters off as the offset. If those characters hold a colon
  (isoformat's `+HH:MM`), it drops the colon, puts `+` in front and cuts one
  more character from the rest. It then parses the rest with `strptime` and
  attaches the zone without moving the wall-clock fields. Without `%z` it
  returns the naive `strptime` result.

The model is made of pure functions and lemmas, matching the source:

- `wrappers.dfy` holds `Option` and `Result`.
- `pytext.dfy` holds the pieces of Python's `str` and `int` the loader uses:
  clamped slicing, `endswith`, `replace(':', '')`, and `int()` in base 10
  with whitespace, a sign and underscores.
- `calendar.dfy` holds the wall-clock fields, the checks the `datetime`
  constructor makes, and the seconds count that orders wall clocks.
- `timeformat.dfy` holds `strptime` for the one format the loader uses
  (`%Y-%m-%dT%H:%M:%S.000`) and its inverse.
- `getticked.dfy` holds `OffsetTime`, `load_datetime`, a corrected loader and
  the instants the loaded values denote.

A `ValueError` raised by `int()`, `strptime` or `datetime` becomes an `Err`
value.

## Model

| member | source | states |
|---|---|---|
| PyText.TakeLast | getticked.py:36 | `value[-5:]` is the last min(5, len) characters of the value |
| PyText.DropLast | getticked.py:37 | `value[:-5]` followed by `value[-5:]` gives back the whole value |
| PyText.RemoveColons | getticked.py:38 | `replace(':', '')` leaves no colon and never lengthens the text; the result equals the input exactly when the input has no colon, which is the test the colon branch makes |
| PyText.RemoveColonsAppend | getticked.py:40 | removing colons distributes over concatenation |
| PyText.ParseInt | getticked.py:25-26 | `int()` accepts nothing from the empty text |
| PyText.ParseIntOnlyIntChars | getticked.py:25-26 | `int()` accepts only texts made of digits, signs, whitespace and `_` |
| PyText.ParseSignedDigits | getticked.py:25-26 | a sign followed by digits reads as that signed number |
| PyText.ParseSignThenNonDigit | getticked.py:25-26 | a sign followed by a non-digit raises ValueError |
| PyText.ParseSignedPair | getticked.py:25-26 | a sign and two characters are accepted exactly when the first is a digit and the second a digit or trailing whitespace, and they read as the signed one- or two-digit number |
| GetTicked.NewOffsetTime | getticked.py:24-27 | a zone is made only from a non-empty text; the only failure is int()'s ValueError |
| GetTicked.OffsetFromSignedDigits | getticked.py:24-27 | a sign followed by HHMM gives the offset sign·(60·HH + MM) minutes: the sign applies to the minutes as well as the hours |
| GetTicked.OffsetExamples | getticked.py:22-27 | `+0530` gives 330 minutes, `-0530` gives -330 and `-0600` gives -360 |
| GetTicked.MalformedOffsetRefused | getticked.py:25-26 | after a sign, a non-digit where the hours or the minutes begin makes the zone fail with ValueError |
| GetTicked.SignedOffsetAccepted | getticked.py:24-27 | a sign and four characters make a zone exactly when the first hour and first minute characters are digits and the second of each is a digit or whitespace |
| GetTicked.OffsetFromParts | getticked.py:24-27 | the zone's offset is 60 times the integer of the sign and hour characters plus the integer of the sign and minute characters |
| GetTicked.OffsetSpaceInHours | getticked.py:24-27 | `+0 30` makes a zone of 30 minutes: whitespace in place of the second hour digit is skipped |
| GetTicked.OffsetSpaceInMinutes | getticked.py:24-27 | `+053 ` makes a zone of 303 minutes: whitespace in place of the second minute digit is skipped |
| GetTicked.OffsetOtherFillRefused | getticked.py:25-26 | `+0_30` and `+053-` make no zone |
| GetTicked.OffsetOnlyIntChars | getticked.py:24-27 | every character of an offset that makes a zone is a digit, sign, whitespace or `_` |
| GetTicked.CompactOffsetRoundTrip | getticked.py:24-27 | the zone read from the sign-HHMM text of m minutes has offset m, for every m strictly between -6000 and 6000 |
| GetTicked.SplitZone | getticked.py:34-41 | without a colon in the last five characters, the split is rest + offset = value with the offset as the last five; with a colon, the offset is `+` and the last five without colons, and one more character is cut from the rest; no offset holds a colon |
| GetTicked.SplitIsoZone | getticked.py:36-41 | for a text ending in isoformat's `±HH:MM`, the split gives the text before the sign and `+HHMM`: the sign is dropped |
| TimeFormat.ParseWallClock | getticked.py:42 | a parse that succeeds gives a valid wall clock; a failure is a mismatch or an out-of-range field |
| TimeFormat.ParseFormatRoundTrip | getticked.py:90 | strptime with the due-date format minus `%z` reads back every valid wall clock written in that format |
| GetTicked.Localize | getticked.py:42 | the zone is built before strptime runs, so the zone's error wins; the result is a success exactly when both succeed; the wall clock comes out as parsed, not shifted, with the zone attached |
| GetTicked.LoadDatetime | getticked.py:30-44 | a loaded value has a valid wall clock, and it is aware exactly when the format ends in `%z` |
| GetTicked.LoadCompactRoundTrip | getticked.py:34-42 | a due date written with a %z offset loads as its own fields with that offset |
| GetTicked.LoadNaiveRoundTrip | getticked.py:44 | without `%z` the whole value is parsed and the result is naive |
| GetTicked.LoadMalformedOffset | getticked.py:36-42 | a five-character offset without a colon from which no zone can be made makes the load fail with ValueError, whatever text comes before it |
| GetTicked.LoadIsoOffsetLosesSign | getticked.py:38-42 | a due date written with isoformat's `±HH:MM` keeps its fields, but its offset always loads as the absolute value of m |
| GetTicked.SameZoneInstants | getticked.py:42 | two aware values in the same zone denote the same instant exactly when their fields agree, and they are ordered as their fields |
| GetTicked.IsoSignLossShiftsInstant | getticked.py:38-42 | through the loader, a negative isoformat offset m names an instant 120 times the absolute value of m (in seconds) earlier than the one written; a non-negative one is read right |
| GetTicked.DocExample | getticked.py:47-50 | `2018-02-23T14:30:00.000+0000` loads as 14:30 on 23 February 2018 at offset 0, and the same text without an offset loads naive. `...-05:30` loads at +330 as written and at -330 corrected |
| GetTicked.SplitZoneCorrected | getticked.py:38-41 | without a colon it is the loader's own split; with one, the offset is the last six characters without the colon, sign included |
| GetTicked.LoadDatetimeCorrected | getticked.py:30-44 | the same guarantees as the loader: a valid wall clock, aware exactly with `%z` |
| GetTicked.LoadCorrectedAgrees | getticked.py:34-42 | where the last five characters hold no colon, the corrected loader gives the loader's result |
| GetTicked.SplitIsoZoneCorrected | getticked.py:38-41 | the corrected split of a text ending in `±HH:MM` gives the text before it and `±HHMM` with the sign kept |
| GetTicked.LoadCorrectedIsoRoundTrip | getticked.py:38-42 | with the sign kept, a due date written with isoformat's offset m loads as its fields with offset m |

## Left out

- `is_dst`, `get_all_items`, `pretty_print` and `bcolors` are left out. They read the clock, log in to the TickTick web service, or colour terminal output. None of them touch the loader's logic.
- `string_to_timestamp` is a stub with only a docstring. Its example text is the subject of `GetTicked.DocExample`.
- LoadDatetime: requires the format to be the due-date format of line 90 or that format without `%z`. A general `strptime` for arbitrary directives is not modelled.
- LoadDatetimeCorrected: has the same format restriction as LoadDatetime.
- ParseWallClock: handles only the format `%Y-%m-%dT%H:%M:%S.000`. Python's regex `\d` also matches non-ASCII digits; the model accepts ASCII digits only.
- ParseInt: models only ASCII digits, and as whitespace only space, tab, newline, vertical tab, form feed and carriage return, which is what `int()` skips in a text of ASCII characters. A text that also holds a non-ASCII character is first normalised by Python, which turns non-ASCII Unicode digits and non-ASCII Unicode whitespace into ASCII ones so that they are accepted too; that normalisation is not modelled.
- Offsets with whitespace in place of the second hour or minute digit make a zone, as in Python: `+0 30` is 30 minutes and `+053 ` is 303 minutes (GetTicked.SignedOffsetAccepted). The model reproduces this silent misreading and does not correct it.
- The microsecond field is not modelled. The format's literal `.000` always leaves it at zero.
- `OffsetTime` keeps its offset as whole minutes. Python raises an error only when an offset of 24 hours or more is later used, not when the zone or the aware datetime is made, so the model builds such zones too. `GetTicked.UtcSeconds`, and `GetTicked.SameZoneInstants` with it, likewise give an instant for any offset, where Python raises once an offset of 24 hours or more is used in a comparison.
- The pytz `localize` argument `is_dst` is not modelled. For a fixed-offset zone it has no effect.
- Exceptions other than ValueError are not modelled, e.g. a TypeError for a value that is not text. The loader is always passed text. An empty offset makes `int('')` raise ValueError before the first character is indexed, so no IndexError can arise.

## Findings

| source | as written | input that shows it | evidently intended | confidence | as-written member | corrected member |
|---|---|---|---|---|---|---|
| getticked.py:38-41 | when the last five characters hold a colon, the offset becomes `'+'` followed by them without the colon, and the character before them, the offset's own sign, is cut away | `2018-02-23T14:30:00.000-05:30` loads with offset +05:30 instead of -05:30, an instant 11 hours early | the offset is the last six characters without the colon, so the sign is kept | high (not executed) | GetTicked.LoadIsoOffsetLosesSign | GetTicked.LoadCorrectedIsoRoundTrip |
