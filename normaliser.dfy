/** The record normaliser of buoy.py (`get_latest_buoy_data`, the loop over
    the lines of the NDBC `latest_obs.txt` table). Each line after the two
    header lines is either turned into one record or skipped for one reason;
    a token the script converts outside its `try` block and cannot read
    aborts the whole run. */
module Normaliser {
  import opened Text
  import opened Numbers
  import opened Renderers
  import opened Timestamps

  /** Rows shorter than this are truncated and skipped without a message. */
  const MinLineLength: nat := 70
  /** Rows with fewer whitespace-separated tokens are skipped. */
  const MinFieldCount: nat := 18
  /** APRS object names are nine characters. */
  const StationIdWidth: nat := 9
  /** Observations older than this, against the wall clock, are skipped. */
  const MaxAgeMicros: nat := 30 * MicrosPerMinute

  /** The columns of the table, by position (the script reads none by name). */
  const StationColumn := 0
  const LatitudeColumn := 1
  const LongitudeColumn := 2
  const YearColumn := 3
  const MonthColumn := 4
  const DayColumn := 5
  const HourColumn := 6
  const MinuteColumn := 7
  const WindDirColumn := 8
  const WindSpeedColumn := 9
  const GustColumn := 10
  const PressureColumn := 15
  const TemperatureColumn := 17

  /** The tokens of one row the script looks at, still as text. */
  datatype Row = Row(stationId: string, lat: string, lon: string,
                     year: string, month: string, day: string, hour: string, minute: string,
                     windDir: string, windSpeed: string, windGust: string,
                     pressure: string, temperature: string)

  /** buoy.py:55-57: id, position and time from tokens 0 to 7, wind from
      tokens 8 to 10, pressure from token 15, air temperature from token 17. */
  function ExtractRow(fields: seq<string>): (row: Row)
    requires |fields| >= MinFieldCount
    ensures row.stationId == fields[0] && row.lat == fields[1] && row.lon == fields[2]
    ensures row.year == fields[3] && row.month == fields[4] && row.day == fields[5]
            && row.hour == fields[6] && row.minute == fields[7]
    ensures row.windDir == fields[8] && row.windSpeed == fields[9] && row.windGust == fields[10]
    ensures row.pressure == fields[15] && row.temperature == fields[17]
  {
    Row(fields[StationColumn], fields[LatitudeColumn], fields[LongitudeColumn],
        fields[YearColumn], fields[MonthColumn], fields[DayColumn], fields[HourColumn],
        fields[MinuteColumn], fields[WindDirColumn], fields[WindSpeedColumn], fields[GustColumn],
        fields[PressureColumn], fields[TemperatureColumn])
  }

  /** The five rendered weather fields of a row. */
  datatype Weather = Weather(windSpeed: string, windGust: string, windDirection: string,
                             temperature: string, pressure: string)

  /** The conversions at buoy.py:67-71 all succeed (they sit outside the `try`,
      so a failing one ends the run). */
  predicate WeatherConvertible(row: Row) {
    IsReading(SafeValue(row.windSpeed, Unknown)) && IsReading(SafeValue(row.windGust, Unknown))
    && IsDirectionToken(row.windDir) && IsReading(SafeValue(row.temperature, Unknown))
    && IsReading(SafeValue(row.pressure, Unknown))
  }

  /** buoy.py:67-71: each rendered field is a sentinel exactly when its
      token is blank. */
  function RenderWeather(row: Row): (w: Weather)
    requires WeatherConvertible(row)
    ensures IsSentinel(w.windSpeed) <==> IsBlank(row.windSpeed)
    ensures IsSentinel(w.windGust) <==> IsBlank(row.windGust)
    ensures IsSentinel(w.windDirection) <==> IsBlank(row.windDir)
    ensures IsSentinel(w.temperature) <==> IsBlank(row.temperature)
    ensures IsSentinel(w.pressure) <==> IsBlank(row.pressure)
  {
    Weather(ConvertWindSpeed(SafeValue(row.windSpeed, Unknown)),
            ConvertWindSpeed(SafeValue(row.windGust, Unknown)),
            WindDirection(row.windDir),
            ConvertTemperature(SafeValue(row.temperature, Unknown)),
            ConvertPressure(SafeValue(row.pressure, Unknown)))
  }

  /** The test at buoy.py:73: every rendered field is a dot sentinel. */
  predicate AllUnknown(w: Weather) {
    IsSentinel(w.windSpeed) && IsSentinel(w.windGust) && IsSentinel(w.windDirection)
    && IsSentinel(w.temperature) && IsSentinel(w.pressure)
  }

  /** The token carries no reading: the feed's marker, or already the sentinel. */
  predicate IsBlank(tok: string) { tok == Missing || tok == Unknown }

  /** All five weather tokens of the row are blank. */
  predicate WeatherBlank(row: Row) {
    IsBlank(row.windSpeed) && IsBlank(row.windGust) && IsBlank(row.windDir)
    && IsBlank(row.temperature) && IsBlank(row.pressure)
  }

  /** A fresh row reaches a conversion that raises: one of the weather
      conversions at buoy.py:67-71, or, once the weather gate at buoy.py:73
      has let the row through, `float(lat)` or `float(lon)` at buoy.py:79-80. */
  predicate RowRaises(row: Row) {
    !WeatherConvertible(row) || (!WeatherBlank(row) && (!IsDecimal(row.lat) || !IsDecimal(row.lon)))
  }

  /** One element of `buoy_data_list`. */
  datatype BuoyRecord = BuoyRecord(id: string, latitude: real, longitude: real,
                                   windSpeed: string, windGust: string, windDirection: string,
                                   temperature: string, pressure: string, obsTime: string)

  /** What the loop body does with one line: keep a record, skip the line for
      one of the script's reasons, or raise out of the loop. */
  datatype LineOutcome =
    | Kept(record: BuoyRecord)
    | TooShort
    | TooFewFields
    | BadTimestamp
    | Stale
    | NoWeatherData
    | Crash

  /** buoy.py:77-87: the id padded with spaces to nine characters, the
      time as six digits spelling day, hour and minute. */
  function MakeRecord(row: Row, t: Timestamp, w: Weather): (r: BuoyRecord)
    requires IsDecimal(row.lat) && IsDecimal(row.lon) && IsValid(t)
    ensures |r.id| == Max(StationIdWidth, |row.stationId|) && r.id[..|row.stationId|] == row.stationId
    ensures forall i :: |row.stationId| <= i < |r.id| ==> r.id[i] == ' '
    ensures |r.obsTime| == 6 && AllDigits(r.obsTime)
    ensures DigitsValue(r.obsTime[0..2]) == t.day && DigitsValue(r.obsTime[2..4]) == t.hour
            && DigitsValue(r.obsTime[4..6]) == t.minute
  {
    BuoyRecord(LeftJustify(row.stationId, StationIdWidth), DecimalValue(row.lat),
               DecimalValue(row.lon), w.windSpeed, w.windGust, w.windDirection,
               w.temperature, w.pressure, DayHourMinute(t))
  }

  /** The body of the loop at buoy.py:45-87 for one line, with the wall
      clock read as `nowMicros`. */
  function Classify(line: string, nowMicros: int): (o: LineOutcome)
    ensures o == TooShort <==> |line| < MinLineLength
    ensures o == TooFewFields <==> |line| >= MinLineLength && |Split(line)| < MinFieldCount
    ensures o == BadTimestamp <==>
      && |line| >= MinLineLength && |Split(line)| >= MinFieldCount
      && var row := ExtractRow(Split(line));
         ParseTimestamp(row.year, row.month, row.day, row.hour, row.minute).None?
  {
    if |line| < MinLineLength then TooShort
    else
      var fields := Split(line);
      if |fields| < MinFieldCount then TooFewFields
      else
        var row := ExtractRow(fields);
        match ParseTimestamp(row.year, row.month, row.day, row.hour, row.minute)
        case None => BadTimestamp
        case Some(t) => ClassifyParsed(row, t, nowMicros)
  }

  /** The rest of the loop body once the time has parsed as `t`: the age
      gate, the conversions (which may raise), the weather gate, the record. */
  function ClassifyParsed(row: Row, t: Timestamp, nowMicros: int): (o: LineOutcome)
    requires IsValid(t)
    ensures o == Stale <==> nowMicros - Micros(t) > MaxAgeMicros
    ensures o == Crash <==> nowMicros - Micros(t) <= MaxAgeMicros && RowRaises(row)
    ensures o == NoWeatherData <==>
      nowMicros - Micros(t) <= MaxAgeMicros && WeatherConvertible(row) && WeatherBlank(row)
    ensures o.Kept? <==>
      && nowMicros - Micros(t) <= MaxAgeMicros && WeatherConvertible(row) && !WeatherBlank(row)
      && IsDecimal(row.lat) && IsDecimal(row.lon)
  {
    if nowMicros - Micros(t) > MaxAgeMicros then Stale
    else if !WeatherConvertible(row) then Crash
    else
      var w := RenderWeather(row);
      WeatherGate(row);
      if AllUnknown(w) then NoWeatherData
      else if !IsDecimal(row.lat) || !IsDecimal(row.lon) then Crash
      else Kept(MakeRecord(row, t, w))
  }

  /** What a whole run returns: the records, or the index of the line whose
      conversion raised. */
  datatype FeedResult = Records(records: seq<BuoyRecord>) | Crashed(line: nat)

  /** The loop's state after the lines before `n`, given what each line
      yields: lines 0 and 1 are never looked at, a record is appended, a
      raise ends the run. */
  function Run(outcomes: seq<LineOutcome>, n: nat): (r: FeedResult)
    requires n <= |outcomes|
    ensures r.Crashed? ==> 2 <= r.line < n && outcomes[r.line] == Crash
    ensures r.Records? ==> |r.records| + 2 <= Max(n, 2)
  {
    if n <= 2 then Records([])
    else
      match Run(outcomes, n - 1)
      case Crashed(k) => Crashed(k)
      case Records(rs) =>
        match outcomes[n - 1]
        case Kept(r) => Records(rs + [r])
        case Crash => Crashed(n - 1)
        case _ => Records(rs)
  }

  /** What each line of the table yields at wall-clock time `nowMicros`. */
  function LineOutcomes(lines: seq<string>, nowMicros: int): (os: seq<LineOutcome>)
    ensures |os| == |lines|
    decreases |lines|
  {
    if lines == [] then []
    else LineOutcomes(lines[..|lines| - 1], nowMicros) + [Classify(lines[|lines| - 1], nowMicros)]
  }

  lemma {:induction false} LineOutcomeAt(lines: seq<string>, nowMicros: int, j: nat)
    requires j < |lines|
    ensures LineOutcomes(lines, nowMicros)[j] == Classify(lines[j], nowMicros)
    decreases |lines|
  {
    if j < |lines| - 1 {
      LineOutcomeAt(lines[..|lines| - 1], nowMicros, j);
      assert lines[..|lines| - 1][j] == lines[j];
    }
  }

  /** What the loop makes of the whole table: nothing for a table of header
      lines only, and a crash only at a line after the header. */
  function Feed(lines: seq<string>, nowMicros: int): (r: FeedResult)
    ensures |lines| <= 2 ==> r == Records([])
    ensures r.Crashed? ==> 2 <= r.line < |lines|
  {
    Run(LineOutcomes(lines, nowMicros), |lines|)
  }

  /** A run over the table aborts only at a line that reaches a conversion
      that raises. */
  lemma FeedCrashesOnlyAtRaisingLine(lines: seq<string>, nowMicros: int)
    requires Feed(lines, nowMicros).Crashed?
    ensures var k := Feed(lines, nowMicros).line;
            && 2 <= k < |lines| && Classify(lines[k], nowMicros) == Crash
            && ConversionRaises(lines[k], nowMicros)
  {
    var k := Feed(lines, nowMicros).line;
    LineOutcomeAt(lines, nowMicros, k);
    CrashExactlyWhenConversionRaises(lines[k], nowMicros);
  }

  /** A run over the table aborts at line `k` exactly when `k` is the first
      line after the header that reaches a conversion that raises. */
  lemma FeedCrashesAtFirstRaisingLine(lines: seq<string>, nowMicros: int, k: nat)
    ensures Feed(lines, nowMicros) == Crashed(k) <==>
      && 2 <= k < |lines| && ConversionRaises(lines[k], nowMicros)
      && forall j :: 2 <= j < k ==> !ConversionRaises(lines[j], nowMicros)
  {
    var outcomes := LineOutcomes(lines, nowMicros);
    RunCrashesAtFirstBadLine(outcomes, |lines|, k);
    forall j | 2 <= j < |lines| && j <= k
      ensures outcomes[j] == Crash <==> ConversionRaises(lines[j], nowMicros)
    {
      LineOutcomeAt(lines, nowMicros, j);
      CrashExactlyWhenConversionRaises(lines[j], nowMicros);
    }
  }

  /** Once a line raises, nothing after it changes what the run returns. */
  lemma {:induction false} CrashEndsRun(outcomes: seq<LineOutcome>, m: nat, n: nat)
    requires m <= n <= |outcomes| && Run(outcomes, m).Crashed?
    ensures Run(outcomes, n) == Run(outcomes, m)
    decreases n
  {
    if n > m {
      CrashEndsRun(outcomes, m, n - 1);
    }
  }

  /** One more line extends the run by what that line yields. */
  lemma RunStep(outcomes: seq<LineOutcome>, i: nat, lines: seq<string>, nowMicros: int,
                outcome: LineOutcome)
    requires outcomes == LineOutcomes(lines, nowMicros) && 2 <= i < |lines|
    requires outcome == Classify(lines[i], nowMicros)
    ensures Run(outcomes, i + 1) ==
      match Run(outcomes, i)
      case Crashed(k) => Crashed(k)
      case Records(rs) =>
        if outcome.Kept? then Records(rs + [outcome.record])
        else if outcome.Crash? then Crashed(i)
        else Records(rs)
  {
    LineOutcomeAt(lines, nowMicros, i);
  }

  /** The body of the loop for one line, step by step as the script takes it:
      each `continue` and each raise is an early return. */
  method ProcessLine(line: string, nowMicros: int) returns (outcome: LineOutcome)
    ensures outcome == Classify(line, nowMicros)
  {
    if |line| < MinLineLength {
      return TooShort;
    }
    var fields := Split(line);
    if |fields| < MinFieldCount {
      return TooFewFields;
    }
    var row := ExtractRow(fields);
    var parsed := ParseTimestamp(row.year, row.month, row.day, row.hour, row.minute);
    if parsed.None? {
      return BadTimestamp;
    }
    var obsTime := parsed.value;
    if nowMicros - Micros(obsTime) > MaxAgeMicros {
      return Stale;
    }
    if !WeatherConvertible(row) {
      return Crash;
    }
    var weather := RenderWeather(row);
    if AllUnknown(weather) {
      return NoWeatherData;
    }
    if !IsDecimal(row.lat) || !IsDecimal(row.lon) {
      return Crash;
    }
    outcome := Kept(MakeRecord(row, obsTime, weather));
  }

  /** One pass of the loop: line `i` is processed and, unless it raises, what
      it yields is appended to `buoyDataList`. */
  method AppendLine(ghost outcomes: seq<LineOutcome>, dataLines: seq<string>, i: nat,
                    nowMicros: int, buoyDataList: seq<BuoyRecord>)
    returns (next: FeedResult)
    requires outcomes == LineOutcomes(dataLines, nowMicros) && 2 <= i < |dataLines|
    requires Run(outcomes, i) == Records(buoyDataList)
    ensures next == Run(outcomes, i + 1)
  {
    var outcome := ProcessLine(dataLines[i], nowMicros);
    RunStep(outcomes, i, dataLines, nowMicros, outcome);
    match outcome {
      case Kept(record) =>
        next := Records(buoyDataList + [record]);
      case Crash =>
        next := Crashed(i);
      case _ =>
        next := Records(buoyDataList);
    }
  }

  /** `get_latest_buoy_data` from `response.text.splitlines()` on: steps through
      `data_lines[2:]`, appending what each line yields to `buoy_data_list`. */
  method GetLatestBuoyData(dataLines: seq<string>, nowMicros: int) returns (result: FeedResult)
    ensures result == Feed(dataLines, nowMicros)
  {
    if |dataLines| <= 2 {
      return Records([]);
    }
    ghost var outcomes := LineOutcomes(dataLines, nowMicros);
    var buoyDataList: seq<BuoyRecord> := [];
    var i := 2;
    while i < |dataLines|
      invariant 2 <= i <= |dataLines|
      invariant Run(outcomes, i) == Records(buoyDataList)
    {
      var next := AppendLine(outcomes, dataLines, i, nowMicros, buoyDataList);
      i := i + 1;
      if next.Crashed? {
        CrashEndsRun(outcomes, i, |dataLines|);
        return next;
      }
      buoyDataList := next.records;
    }
    return Records(buoyDataList);
  }

  // ---------------------------------------------------------------------
  // What one line becomes

  /** No record comes from a short line or from one with too few tokens; a
      kept record carries the row's station id left-justified to nine
      characters, its position, a fresh time rendered as DDHHMM, and at least
      one known weather field. */
  lemma KeptRecord(line: string, nowMicros: int)
    requires Classify(line, nowMicros).Kept?
    ensures |line| >= MinLineLength && |Split(line)| >= MinFieldCount
    ensures var row := ExtractRow(Split(line));
            var r := Classify(line, nowMicros).record;
            var parsed := ParseTimestamp(row.year, row.month, row.day, row.hour, row.minute);
            && parsed.Some?
            && nowMicros - Micros(parsed.value) <= MaxAgeMicros
            && r.obsTime == DayHourMinute(parsed.value)
            && r.id == LeftJustify(row.stationId, StationIdWidth)
            && WeatherConvertible(row)
            && r.windSpeed == ConvertWindSpeed(SafeValue(row.windSpeed, Unknown))
            && r.windGust == ConvertWindSpeed(SafeValue(row.windGust, Unknown))
            && r.windDirection == WindDirection(row.windDir)
            && r.temperature == ConvertTemperature(SafeValue(row.temperature, Unknown))
            && r.pressure == ConvertPressure(SafeValue(row.pressure, Unknown))
            && IsDecimal(row.lat) && r.latitude == DecimalValue(row.lat)
            && IsDecimal(row.lon) && r.longitude == DecimalValue(row.lon)
            && !WeatherBlank(row)
  {
    var row := ExtractRow(Split(line));
    var parsed := ParseTimestamp(row.year, row.month, row.day, row.hour, row.minute);
    assert parsed.Some?;
    assert Classify(line, nowMicros) == ClassifyParsed(row, parsed.value, nowMicros);
    WeatherGate(row);
  }

  /** A row is dropped for want of weather exactly when all five of its
      weather tokens are blank: a known reading never renders as a sentinel,
      so one known reading keeps the row. */
  lemma WeatherGate(row: Row)
    requires WeatherConvertible(row)
    ensures AllUnknown(RenderWeather(row)) <==> WeatherBlank(row)
  {
  }

  /** The converse of `KeptRecord`: a line that passes every gate (length,
      token count, a time `strptime` accepts at most 30 minutes old, readable
      tokens, one known weather field) is kept, as the record built from its
      row. */
  lemma PassingLineIsKept(line: string, nowMicros: int, t: Timestamp)
    requires |line| >= MinLineLength && |Split(line)| >= MinFieldCount
    requires var row := ExtractRow(Split(line));
             && ParseTimestamp(row.year, row.month, row.day, row.hour, row.minute) == Some(t)
             && nowMicros - Micros(t) <= MaxAgeMicros
             && WeatherConvertible(row) && IsDecimal(row.lat) && IsDecimal(row.lon)
             && !WeatherBlank(row)
    ensures var row := ExtractRow(Split(line));
            Classify(line, nowMicros) == Kept(MakeRecord(row, t, RenderWeather(row)))
  {
    var row := ExtractRow(Split(line));
    WeatherGate(row);
    assert Classify(line, nowMicros) == ClassifyParsed(row, t, nowMicros);
  }

  /** On a row laid out as columns separated by runs of blanks, the script
      reads each field from its own column: id, latitude, longitude, the
      five time fields, wind direction, speed and gust from columns 0 to 10,
      pressure from column 15 and air temperature from column 17. */
  lemma RowColumns(line: string, lead: string, ws: seq<string>, seps: seq<string>)
    requires AllSpace(lead) && |seps| == |ws| >= MinFieldCount
    requires forall k :: 0 <= k < |ws| ==> IsWord(ws[k]) && AllSpace(seps[k])
    requires forall k :: 0 <= k < |ws| - 1 ==> |seps[k]| > 0
    requires line == lead + Laid(ws, seps)
    ensures |Split(line)| == |ws|
    ensures ExtractRow(Split(line)) == Row(ws[0], ws[1], ws[2], ws[3], ws[4], ws[5], ws[6], ws[7],
                                           ws[8], ws[9], ws[10], ws[15], ws[17])
  {
    SplitLaid(lead, ws, seps);
  }

  /** The staleness filter compares against a strict bound: a row exactly
      30 minutes old, or stamped in the future, is not dropped as stale. */
  lemma StalenessBoundary(line: string, nowMicros: int, t: Timestamp)
    requires |line| >= MinLineLength && |Split(line)| >= MinFieldCount
    requires var row := ExtractRow(Split(line));
             ParseTimestamp(row.year, row.month, row.day, row.hour, row.minute) == Some(t)
    ensures IsValid(t)
    ensures Classify(line, nowMicros) == Stale <==> nowMicros > Micros(t) + MaxAgeMicros
    ensures nowMicros <= Micros(t) + 30 * MicrosPerMinute ==> Classify(line, nowMicros) != Stale
    ensures nowMicros == Micros(t) + 30 * MicrosPerMinute + 1000000 ==>
      Classify(line, nowMicros) == Stale
  {
  }

  /** A line whose converted tokens are all readable never aborts the run. */
  lemma WellFormedLineDoesNotCrash(line: string, nowMicros: int)
    requires |line| >= MinLineLength && |Split(line)| >= MinFieldCount
    requires var row := ExtractRow(Split(line));
             WeatherConvertible(row) && IsDecimal(row.lat) && IsDecimal(row.lon)
    ensures Classify(line, nowMicros) != Crash
  {
  }

  /** A line that passes the length, token, time and age gates raises
      exactly when a conversion the script reaches fails, and is dropped
      for want of weather exactly when its tokens convert and all five
      weather tokens are blank. */
  lemma GatedLineOutcome(line: string, nowMicros: int, t: Timestamp)
    requires |line| >= MinLineLength && |Split(line)| >= MinFieldCount
    requires var row := ExtractRow(Split(line));
             && ParseTimestamp(row.year, row.month, row.day, row.hour, row.minute) == Some(t)
             && nowMicros - Micros(t) <= MaxAgeMicros
    ensures var row := ExtractRow(Split(line));
            && (Classify(line, nowMicros) == Crash <==> RowRaises(row))
            && (Classify(line, nowMicros) == NoWeatherData <==>
                  WeatherConvertible(row) && WeatherBlank(row))
  {
    var row := ExtractRow(Split(line));
    assert Classify(line, nowMicros) == ClassifyParsed(row, t, nowMicros);
  }

  /** The line passes the length, token, time and age gates, and then a
      conversion the script reaches raises. */
  predicate ConversionRaises(line: string, nowMicros: int) {
    && |line| >= MinLineLength && |Split(line)| >= MinFieldCount
    && var row := ExtractRow(Split(line));
       var parsed := ParseTimestamp(row.year, row.month, row.day, row.hour, row.minute);
       && parsed.Some? && nowMicros - Micros(parsed.value) <= MaxAgeMicros
       && RowRaises(row)
  }

  /** A line aborts the run exactly when it reaches a conversion that raises. */
  lemma CrashExactlyWhenConversionRaises(line: string, nowMicros: int)
    ensures Classify(line, nowMicros) == Crash <==> ConversionRaises(line, nowMicros)
  {
    if |line| >= MinLineLength && |Split(line)| >= MinFieldCount {
      var row := ExtractRow(Split(line));
      var parsed := ParseTimestamp(row.year, row.month, row.day, row.hour, row.minute);
      if parsed.Some? {
        assert Classify(line, nowMicros) == ClassifyParsed(row, parsed.value, nowMicros);
      }
    }
  }

  // ---------------------------------------------------------------------
  // What the whole table becomes

  /** The indices, from 2 up to `n`, of the lines that yield a record. */
  ghost function KeptIndices(outcomes: seq<LineOutcome>, n: nat): (ix: seq<nat>)
    requires n <= |outcomes|
    ensures forall k :: 0 <= k < |ix| ==> 2 <= ix[k] < n && outcomes[ix[k]].Kept?
  {
    if n <= 2 then []
    else KeptIndices(outcomes, n - 1) + (if outcomes[n - 1].Kept? then [n - 1] else [])
  }

  /** The kept indices run upwards and miss no line that yields a record. */
  lemma {:induction false} KeptIndicesAscend(outcomes: seq<LineOutcome>, n: nat)
    requires n <= |outcomes|
    ensures var ix := KeptIndices(outcomes, n);
            && (forall k1, k2 :: 0 <= k1 < k2 < |ix| ==> ix[k1] < ix[k2])
            && (forall j :: 2 <= j < n && outcomes[j].Kept? ==> j in ix)
  {
    if n > 2 {
      KeptIndicesAscend(outcomes, n - 1);
    }
  }

  /** The k-th record of a run that does not abort is the record of the
      k-th kept line, and no line before the end raised. */
  lemma {:induction false} RunRecordsAtKeptIndices(outcomes: seq<LineOutcome>, n: nat)
    requires n <= |outcomes| && Run(outcomes, n).Records?
    ensures var rs := Run(outcomes, n).records;
            var ix := KeptIndices(outcomes, n);
            && |ix| == |rs|
            && (forall k :: 0 <= k < |ix| ==> outcomes[ix[k]] == Kept(rs[k]))
            && (forall j :: 2 <= j < n ==> outcomes[j] != Crash)
  {
    if n > 2 {
      RunRecordsAtKeptIndices(outcomes, n - 1);
    }
  }

  /** A run that does not abort keeps, in input order, exactly the records of
      the lines after the two header lines that yield one: the k-th record
      comes from the k-th such line, and none comes from lines 0 and 1. */
  lemma RunKeepsKeptLinesInOrder(outcomes: seq<LineOutcome>, n: nat)
    requires n <= |outcomes| && Run(outcomes, n).Records?
    ensures var rs := Run(outcomes, n).records;
            var ix := KeptIndices(outcomes, n);
            && |ix| == |rs|
            && (forall k :: 0 <= k < |ix| ==> 2 <= ix[k] < n && outcomes[ix[k]] == Kept(rs[k]))
            && (forall k1, k2 :: 0 <= k1 < k2 < |ix| ==> ix[k1] < ix[k2])
            && (forall j :: 2 <= j < n && outcomes[j].Kept? ==> j in ix)
            && (forall j :: 2 <= j < n ==> outcomes[j] != Crash)
  {
    KeptIndicesAscend(outcomes, n);
    RunRecordsAtKeptIndices(outcomes, n);
  }

  /** A run aborts at line `k` exactly when `k` is the first line after the
      header whose conversions raise. */
  lemma {:induction false} RunCrashesAtFirstBadLine(outcomes: seq<LineOutcome>, n: nat, k: nat)
    requires n <= |outcomes|
    ensures Run(outcomes, n) == Crashed(k) <==>
      2 <= k < n && outcomes[k] == Crash && forall j :: 2 <= j < k ==> outcomes[j] != Crash
  {
    if n > 2 {
      RunCrashesAtFirstBadLine(outcomes, n - 1, k);
      if Run(outcomes, n - 1).Records? {
        RunRecordsAtKeptIndices(outcomes, n - 1);
      } else {
        RunCrashesAtFirstBadLine(outcomes, n - 1, Run(outcomes, n - 1).line);
      }
    }
  }
}
