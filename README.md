# buoy.py, modelled in Dafny

`buoy.py` reads the National Data Buoy Center's `latest_obs.txt` table of
the latest observation of every station and turns each fresh station with
weather data into an APRS object report, sent to APRS-IS. This project
models the part of it that decides what is sent:

- the field renderers `safe_value`, `convert_temperature`,
  `convert_wind_speed`, `convert_pressure` and the inline wind-direction
  expression (module `Renderers`);
- the per-line loop of `get_latest_buoy_data`: two header lines skipped, rows
  shorter than 70 characters or with fewer than 18 tokens skipped, the
  columns read by position, the observation time parsed with
  `strptime("%Y %m %d %H %M")` and dropped when strictly more than 30
  minutes old, rows whose five weather fields all render as dot sentinels
  dropped, the station id left-justified to nine characters, the time
  written as `%d%H%M` (modules `Timestamps` and `Normaliser`);
- `decimal_to_dmd`, the APRS `DDMM.hhN` / `DDDMM.hhW` position (module
  `Position`);
- the packet f-string of `send_to_aprs` (module `Packet`).

Python's built-ins are modelled exactly where the script relies on them
(`Text`, `Numbers`): `str.split()`, `str.ljust`, `f"{n:0Wd}"` with the sign
counting towards the width, `int(...)` and `float(...)` of plain literals,
`round` with ties to even, `int(x)` truncating toward zero. Numbers are
exact rationals (`real`), the wall clock is a parameter counted in
microseconds from 0001-01-01 00:00 (Python's `datetime` resolution).

A conversion that raises outside the script's `try` block (lines 67-71 and
79-80) aborts the whole run; the model keeps that as an outcome, `Crash` for
the line and `Crashed(i)` for the run, rather than excluding such input.

`GetLatestBuoyData` is the loop itself, a method over the list of lines that
appends to `buoyDataList`, proved against `Feed`, the fold of `Classify`
over the lines. `ProcessLine` is the loop body with the script's early
`continue`s, proved equal to `Classify`.

Two values that follow from the code: `convert_temperature("-10")` returns
`"014"`, since `-10 * 9 / 5 + 32` is 14 degrees Fahrenheit; and
`decimal_to_dmd(-122.25, False)` returns `"12215.00W"`: three degree digits,
the five characters of `{minutes:05.2f}`, then the hemisphere letter.

`Position.DegreesMinutes` is `decimal_to_dmd` with the carry of a minute
count that rounds to 60.00 into the degrees; `Position.DegreesMinutesAsWritten`
is the function exactly as written (see Findings). `Packet.AprsMessage` is
the packet with the carried position; `Packet.AprsMessageAsWritten` is the
packet exactly as buoy.py sends it, and the two are equal unless a
position's minutes round up to 60.00.

## Model

| member | source | states |
|---|---|---|
| Text.PadDigits | buoy.py:26 | the zero-padded digits of `n` spell `n`, are `W` long when `n` fits in `W` digits, and carry no leading zero beyond the padding |
| Text.FormatInt | buoy.py:26 | `f"{n:0Wd}"` spells `n` (see `PaddedSpelling`): an `int(...)` literal of `n`, at least `W` long, a minus sign exactly when `n` is negative, digits after it, no zero beyond the padding; exactly `W` long when `n` (with its sign) fits |
| Text.PaddedSpellingUnique | buoy.py:26 | `f"{n:0Wd}"` has one spelling: two strings that both spell `n` padded to `W` are equal, so every renderer that states `PaddedSpelling` writes exactly `FormatInt`'s string |
| Text.IntValue | buoy.py:69 | `int(...)` of a literal is at most 0 when it has a leading minus and at least 0 when it does not |
| Text.LeftJustify | buoy.py:78 | `s.ljust(w)` has length `max(w, len(s))`, starts with `s` and is spaces after it |
| Text.Split | buoy.py:50 | every token `str.split()` yields is non-empty and free of whitespace |
| Text.SplitSkipsSpace | buoy.py:50 | leading whitespace does not change what `str.split()` yields |
| Text.SplitAfterWord | buoy.py:50 | a token followed by a run of whitespace is the first token, and splitting goes on after the run |
| Text.SplitWord | buoy.py:50 | a string that is one whitespace-free token splits into just that token |
| Text.SplitLaid | buoy.py:50 | tokens laid out with runs of whitespace between them (and any before the first or after the last) split into exactly those tokens |
| Numbers.DecimalValue | buoy.py:79-80 | `float(s)` of a literal with a leading minus is the only way to a negative value |
| Numbers.RoundHalfEven | buoy.py:20 | `round(x)` is within 0.5 of `x` and even when `x` is exactly halfway |
| Numbers.Truncate | buoy.py:26 | `int(x)` is the integer toward zero from `x`, less than one away |
| Renderers.SafeValue | buoy.py:14-15 | the default is returned exactly for the `MM` marker (or the default itself); any other token is returned unchanged |
| Renderers.CelsiusToFahrenheit | buoy.py:20 | the Fahrenheit value is within half a degree of `C * 9 / 5 + 32`, and even on an exact tie, as `round` gives |
| Renderers.RenderTemperature | buoy.py:21 | the field spells the temperature zero-padded to three characters, a minus sign exactly below 0 °F, digits after it and no zero beyond the padding, for every value; never looks like a sentinel; exactly three characters for -99..999 |
| Renderers.TemperatureIsPadded | buoy.py:21 | the two branches agree with one format: the field is `f"{f:03d}"` for every `f`, `-{abs(f):02d}` included |
| Renderers.ConvertTemperature | buoy.py:17-21 | the sentinel comes back exactly for the sentinel; a reading renders as the rounded Fahrenheit value spelled zero-padded to three characters, for every value, never as a sentinel, exactly three characters in -99..999 |
| Renderers.MetresPerSecondToMph | buoy.py:26 | whole miles per hour: the largest integer not above `v * 2.23694` for `v >= 0` |
| Renderers.ConvertWindSpeed | buoy.py:23-26 | the sentinel exactly for the sentinel; a reading renders as truncated miles per hour spelled as `{:03d}` spells it for every value (a minus sign only below 0, no zero beyond the padding), exactly three digits for 0 to 999 mph |
| Renderers.HectopascalsToTenths | buoy.py:31 | whole tenths of a hectopascal: the largest integer not above `10 * v` for `v >= 0` |
| Renderers.ConvertPressure | buoy.py:28-31 | the five-dot sentinel exactly for the sentinel and never the three-dot one; a reading renders as truncated tenths spelled as `{:05d}` spells it for every value, exactly five digits for 0 to 99999 |
| Renderers.WindDirection | buoy.py:69 | `MM` or the sentinel give the sentinel and nothing else does; any other token is an `int(...)` literal and renders as `{:03d}` spells its value for every value, exactly three digits for 0..999 |
| Timestamps.DaysInMonth | buoy.py:59 | every month has 28 to 31 days |
| Timestamps.ParseSmall | buoy.py:59 | a `%m`, `%d`, `%H` or `%M` token is accepted exactly when it is one or two digits whose value lies in the field's range, and reads as the number its digits spell |
| Timestamps.ParseYear | buoy.py:59 | `%Y` accepts a token exactly when it is four digits spelling a year from 1 to 9999, and reads as that year |
| Timestamps.ParseTimestamp | buoy.py:59 | `strptime` accepts the five tokens exactly when each is a well-formed field in range and the day exists in that month of that year, and then gives the valid calendar time the tokens spell |
| Timestamps.ParseFormattedTimestamp | buoy.py:59 | parsing undoes formatting: the tokens of any valid time (four digits of year, two of each other field) parse back to that time |
| Timestamps.MinuteNumberMonotone | buoy.py:60 | the minute count respects calendar order: an earlier time has a smaller count |
| Timestamps.NextMinuteIsOneLater | buoy.py:60 | the calendar minute after any time but the last is later and exactly one more in the count, across hours, days, months of every length and years, so differences of the count are elapsed minutes |
| Timestamps.DayHourMinute | buoy.py:86 | `strftime("%d%H%M")` is six digits spelling day, hour and minute in two digits each |
| Normaliser.ExtractRow | buoy.py:55-57 | id, position and time are tokens 0 to 7, wind direction, speed and gust tokens 8 to 10, pressure token 15 and air temperature token 17 |
| Normaliser.RowColumns | buoy.py:50-57 | on a line of tokens separated by runs of blanks, each field of the row is the token in its column, and the line has as many tokens as columns |
| Normaliser.RenderWeather | buoy.py:67-71 | each of the five rendered weather fields is a dot sentinel exactly when its token is `MM` or `...` |
| Normaliser.MakeRecord | buoy.py:77-87 | the record's id is the station id padded with spaces to nine characters (or longer, unchanged), and its time is six digits spelling day, hour and minute |
| Normaliser.Classify | buoy.py:45-65 | a line is skipped as short exactly when under 70 characters, for too few tokens exactly when it has 70 or more but fewer than 18 tokens, and for a bad time exactly when it passes both and `strptime` rejects its time tokens |
| Normaliser.Run | buoy.py:45-87 | a run aborts only at a line after the two header lines whose outcome is a raise, and never holds more records than lines looked at (the lines after the two header lines) |
| Normaliser.Feed | buoy.py:45-90 | a table of no more than its two header lines yields no records, and a run aborts only at a line after the header |
| Normaliser.FeedCrashesOnlyAtRaisingLine | buoy.py:67-80 | the line at which a run aborts passes the length, token, time and age gates and then reaches a conversion that raises |
| Normaliser.FeedCrashesAtFirstRaisingLine | buoy.py:45-80 | a run over the table aborts at line `k` exactly when `k` is the first line after the header that reaches a conversion that raises |
| Normaliser.ClassifyParsed | buoy.py:60-87 | once the time has parsed: stale exactly when more than 30 minutes old; otherwise a raise exactly when a weather conversion fails or, with a weather token not blank, `float` of the position fails; dropped for want of weather exactly when the tokens convert and all five weather tokens are blank; kept exactly when none of these |
| Normaliser.GatedLineOutcome | buoy.py:67-80 | a line past the length, token, time and age gates raises exactly when a conversion the script reaches fails (the weather gate at line 73 comes before `float(lat)` and `float(lon)`), and is dropped for want of weather exactly when its tokens convert and all are blank |
| Normaliser.CrashExactlyWhenConversionRaises | buoy.py:45-80 | a line aborts the run exactly when it passes the gates before the conversions and then reaches a conversion that raises |
| Normaliser.LineOutcomes | buoy.py:45 | one outcome per line of the table |
| Normaliser.LineOutcomeAt | buoy.py:45-87 | the outcome of line `j` is what the loop body makes of that line alone |
| Normaliser.ProcessLine | buoy.py:46-87 | the loop body, with each `continue` and raise an early return, yields exactly `Classify` of the line |
| Normaliser.RunStep | buoy.py:45-87 | one more line appends its record, aborts the run at that line, or changes nothing |
| Normaliser.AppendLine | buoy.py:45-87 | one pass of the loop takes the run from line `i` to line `i + 1` |
| Normaliser.GetLatestBuoyData | buoy.py:42-90 | the loop over `data_lines[2:]` returns exactly the fold of the per-line outcomes over the table |
| Normaliser.CrashEndsRun | buoy.py:67-80 | once a line raises, no later line changes the result |
| Normaliser.KeptRecord | buoy.py:46-87 | a kept record comes from a row of at least 70 characters and 18 tokens, with a parsed time at most 30 minutes old, written as DDHHMM; its id is `ljust(9)` of the station id, its position is what `float` reads from tokens 1 and 2, each weather field is the conversion of its token, and at least one weather token is not blank |
| Normaliser.PassingLineIsKept | buoy.py:45-87 | conversely, a line that passes every gate (length, token count, a parsed time at most 30 minutes old, readable tokens, a weather token that is not blank) is kept, as the record built from its row |
| Normaliser.WeatherGate | buoy.py:73-75 | a row is dropped for want of weather exactly when all five weather tokens are `MM` or `...` |
| Normaliser.StalenessBoundary | buoy.py:60-62 | a row is stale exactly when strictly more than 30 minutes old: one exactly 30 minutes old, or stamped in the future, is not dropped as stale, one 30 minutes and a second old is |
| Normaliser.WellFormedLineDoesNotCrash | buoy.py:67-80 | a line whose converted tokens are all readable never aborts the run |
| Normaliser.KeptIndices | buoy.py:45-87 | every listed index is a line after the header that yields a record |
| Normaliser.KeptIndicesAscend | buoy.py:45-87 | the listed indices increase and include every line that yields a record |
| Normaliser.RunRecordsAtKeptIndices | buoy.py:77-87 | the k-th appended record is the record of the k-th line that yields one, and no line raised |
| Normaliser.RunKeepsKeptLinesInOrder | buoy.py:45-90 | a run that does not abort returns exactly the records of the lines after the header that yield one, in input order |
| Normaliser.RunCrashesAtFirstBadLine | buoy.py:63-80 | a run aborts at line `k` exactly when `k` is the first line after the header whose outcome is a raise |
| Position.Abs | buoy.py:9 | `abs(value)` is non-negative and is `value` or its negation |
| Position.Hemisphere | buoy.py:11 | the letter is N/S for a latitude and E/W for a longitude, S or W exactly for a negative value |
| Position.WholeDegrees | buoy.py:9 | `int(abs(value))` is the whole degrees below the magnitude |
| Position.MinuteHundredths | buoy.py:10-12 | the minutes written with two decimals are within half a hundredth of the exact minutes, at most 60.00 |
| Position.MinutesFieldReads | buoy.py:12 | two digits, a point and two digits read back as the hundredths they spell |
| Position.FormatMinutes | buoy.py:12 | `{minutes:05.2f}` below 100 minutes is five characters and reads back as the minutes |
| Position.CarriedDegreesMinutes | buoy.py:9-12 | carrying a rounded 60.00 into the degrees keeps the value and leaves fewer than 60 minutes |
| Position.DecodeLayout | buoy.py:12 | degree digits, a minutes field and a hemisphere side by side read back as that position when the minutes are under 60 and not at all otherwise |
| Position.DegreesFit | buoy.py:12 | on the globe the degrees fit two digits of latitude and three of longitude |
| Position.CarriedIsClose | buoy.py:9-12 | the carried degrees and minutes, with the hemisphere's sign, are within 1/12000 of a degree of the value |
| Position.LayoutDecodes | buoy.py:12 | the field written from degrees that fit and any minutes below 100 has the fixed layout and reads back as described for `DecodeLayout` |
| Position.DegreesMinutesAsWritten | buoy.py:8-12 | as written, on the globe the field is 8 or 9 characters: degree digits spelling `int(abs(value))`, a minutes field holding the rounded minutes (60.00 included), then the hemisphere letter |
| Position.DegreesMinutes | buoy.py:8-12 | on the globe the position is 8 (latitude) or 9 (longitude) characters, ends in the hemisphere letter and reads back as the carried value with its sign |
| Position.CarryOnlyAtSixtyMinutes | buoy.py:8-12 | unless the minutes round up to 60.00, the carried field is exactly the field buoy.py writes |
| Position.DegreesMinutesRoundTrip | buoy.py:8-12 | every latitude in [-90, 90] and longitude in [-180, 180] is written so that it reads back within half a hundredth of a minute |
| Position.NearlyThirtyFiveDegrees | buoy.py:9-10 | 34.99999 is 34 whole degrees and minutes that round to 60.00 |
| Position.AsWrittenDecodes | buoy.py:8-12 | the function as written puts the rounded minutes in the field, so it reads back exactly when they stay below 60.00 |
| Position.AsWrittenPrintsSixtyMinutes | buoy.py:8-12 | as written, 34.99999 N gets degree digits spelling 34 and a minutes field of 60.00, which `DecodeDegreesMinutes` rejects since it takes minutes 00 to 59 only; with the carry it reads back as 35 degrees |
| Packet.ComposeMessage | buoy.py:99-100 | the packet starts with the callsign and `>APFBUO,TCPIP*:;` and is 73 characters longer than the callsign when the fields have their widths |
| Packet.ParseBody | buoy.py:99-100 | whatever reads back as a body has every field at its APRS width |
| Packet.ParseBodyOfBody | buoy.py:99-100 | a body whose fields have their widths is 57 characters and reads back as the same fields |
| Packet.BodyOfParseBody | buoy.py:99-100 | whatever reads back as a body is the body of the fields read |
| Packet.ParseMessage | buoy.py:99-100 | whatever reads back as a packet has every field at its width |
| Packet.ParseComposed | buoy.py:99-100 | a packet whose fields have their widths reads back as its callsign and fields |
| Packet.ComposeParsed | buoy.py:99-100 | whatever reads back as a packet is the packet of its callsign and fields |
| Packet.AprsMessage | buoy.py:96-100 | the packet of a record, with the carried position, starts with the callsign and the header, and is 73 characters longer than the callsign when the record's fields have their widths and its position is on the globe |
| Packet.AprsMessageAsWritten | buoy.py:96-100 | the packet exactly as buoy.py builds it starts with the callsign and the header, and is 73 characters longer than the callsign when the record's fields have their widths and its position is on the globe |
| Packet.AprsMessageMatchesScript | buoy.py:96-100 | the packet with the carried position is the one buoy.py sends whenever neither position's minutes round up to 60.00 |
| Packet.AsWrittenPacketOfSixtyMinutes | buoy.py:96-100 | when a latitude's minutes round up to 60.00, the packet buoy.py sends reads back field by field but its latitude field is rejected |
| Packet.AprsMessageReadsBack | buoy.py:96-100 | the packet of a record, with the carried position, whose fields have their widths and whose position is on the globe is the callsign and 73 characters, reads back as the record's fields, and its positions read back within 1/12000 of a degree of the record's |

## Left out

- The HTTP request for `latest_obs.txt`, its status check and `splitlines()` (lines 34-43): the model starts from the list of lines.
- The socket connection, the login line and the one-second sleep of `send_to_aprs` (lines 102-108), and the `__main__` block (lines 110-121): I/O, with nothing to prove.
- Every `print` message, including the skip reasons; the model names each reason as a `LineOutcome` instead.
- `datetime.utcnow()`: the wall clock is the parameter `nowMicros`.
- `Normaliser.Feed`: the script calls `utcnow()` afresh for every line (line 60), so the clock can advance during a run; the model judges every line of a run against the one instant `nowMicros`.
- IEEE double arithmetic: readings, factors and positions are exact rationals, so a value on a rounding or truncation boundary may come out one unit differently from the script.
- `float(...)` and `int(...)` accept more spellings in Python than modelled (exponents, `inf`, `nan`, underscores): the model treats those tokens as raising, which the feed never sends.
- `strptime` accepts only unpadded or zero-padded one- or two-digit fields and four-digit years here; its other leniencies are not modelled.
- `Normaliser.KeptIndices` is a ghost function: it describes the run, the script has no such list.
- Packet.AprsMessage: carries the corrected (carried) position of `Position.DegreesMinutes`, not the `60.00`-minute field buoy.py:96-100 sends when a position's minutes round up; the script's own packet is `Packet.AprsMessageAsWritten`, equal to it in every other case.
- `Packet.AprsMessageReadsBack` requires every field has its APRS width: a station id over nine characters, a reading of 1000 mph or more, or a temperature below -99 F makes a longer packet, which the model composes but does not read back; and it is about the packet with the carried position: the packet buoy.py sends fails its position read-back whenever a latitude's minutes round up to 60.00 (`Packet.AsWrittenPacketOfSixtyMinutes`).

## Findings

| source | as written | input that shows it | evidently intended | confidence | as-written member | corrected member |
|---|---|---|---|---|---|---|
| buoy.py:9-12 | whole degrees are truncated before the minutes are rounded to two decimals, so minutes of 59.995 and up print as `60.00` | latitude 34.99999 prints `3460.00N` | carry the rounded 60 minutes into the degrees: `3500.00N` | not executed | Position.AsWrittenPrintsSixtyMinutes | Position.DegreesMinutesRoundTrip |
