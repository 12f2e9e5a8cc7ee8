/** The field renderers of buoy.py: the feed's missing marker `MM` becomes a
    dot sentinel, known readings become zero-padded integers in the units of
    APRS weather data (degrees Fahrenheit, miles per hour, tenths of hPa). */
module Renderers {
  import opened Text
  import opened Numbers

  /** The feed's marker for a reading the station did not report. */
  const Missing: string := "MM"
  /** The APRS "unknown" value of a three-character weather field. */
  const Unknown: string := "..."
  /** The APRS "unknown" value of the five-character pressure field. */
  const UnknownPressure: string := "....."
  /** The factor the script uses to turn metres per second into miles per hour. */
  const MphPerMetrePerSecond: real := 2.23694

  predicate IsSentinel(v: string) { v == Unknown || v == UnknownPressure }

  /** `safe_value(value, default)`: the default stands in for the missing marker
      and for nothing else. */
  function SafeValue(value: string, default: string): (r: string)
    ensures r == default <==> value == Missing || value == default
    ensures r != value ==> value == Missing
  {
    if value != Missing then value else default
  }

  /** What `convert_temperature`, `convert_wind_speed` and `convert_pressure`
      accept without raising: the sentinel or a number `float(...)` reads. */
  predicate IsReading(s: string) { s == Unknown || IsDecimal(s) }

  /** `round(C * 9 / 5 + 32)`: the nearest whole degree Fahrenheit. */
  function CelsiusToFahrenheit(c: real): (f: int)
    ensures -0.5 <= f as real - (c * 9.0 / 5.0 + 32.0) <= 0.5
    ensures (f as real - (c * 9.0 / 5.0 + 32.0) == 0.5 || (c * 9.0 / 5.0 + 32.0) - f as real == 0.5)
            ==> f % 2 == 0
  {
    RoundHalfEven(c * 9.0 / 5.0 + 32.0)
  }

  /** The temperature field for a known reading of `f` degrees Fahrenheit:
      three digits, or a minus sign and two digits, at least. Both branches
      spell `f` as `f"{f:03d}"` would. */
  function RenderTemperature(f: int): (r: string)
    ensures PaddedSpelling(r, f, 3)
    ensures !IsSentinel(r)
    ensures -99 <= f <= 999 ==> |r| == 3
  {
    if f >= 0 then FormatInt(f, 3)
    else
      var p := FormatInt(-f, 2);
      NegatedLiteral(p);
      assert ("-" + p)[1..] == p;
      "-" + p
  }

  /** The two branches at buoy.py:21 agree with one format: `-{abs(f):02d}`
      is `{f:03d}` for every negative `f`, so the field is `f"{f:03d}"`. */
  lemma TemperatureIsPadded(f: int)
    ensures RenderTemperature(f) == FormatInt(f, 3)
  {
    PaddedSpellingUnique(RenderTemperature(f), FormatInt(f, 3), f, 3);
  }

  /** `convert_temperature(temp)`. */
  function ConvertTemperature(temp: string): (r: string)
    requires IsReading(temp)
    ensures r == Unknown <==> temp == Unknown
    ensures temp != Unknown ==>
      !IsSentinel(r) && PaddedSpelling(r, CelsiusToFahrenheit(DecimalValue(temp)), 3)
    ensures temp != Unknown && -99 <= CelsiusToFahrenheit(DecimalValue(temp)) <= 999 ==> |r| == 3
  {
    if temp == Unknown then Unknown else RenderTemperature(CelsiusToFahrenheit(DecimalValue(temp)))
  }

  /** `int(float(value) * 2.23694)`: whole miles per hour, truncated. */
  function MetresPerSecondToMph(v: real): (mph: int)
    ensures v >= 0.0 ==> 0.0 <= mph as real <= v * MphPerMetrePerSecond < mph as real + 1.0
  {
    Truncate(v * MphPerMetrePerSecond)
  }

  /** `convert_wind_speed(value)`, for wind speed and gust alike. */
  function ConvertWindSpeed(value: string): (r: string)
    requires IsReading(value)
    ensures r == Unknown <==> value == Unknown
    ensures value != Unknown ==>
      !IsSentinel(r) && PaddedSpelling(r, MetresPerSecondToMph(DecimalValue(value)), 3)
    ensures value != Unknown && 0 <= MetresPerSecondToMph(DecimalValue(value)) <= 999 ==>
      |r| == 3 && AllDigits(r)
  {
    if value == Unknown then Unknown else FormatInt(MetresPerSecondToMph(DecimalValue(value)), 3)
  }

  /** `int(float(pressure) * 10)`: hectopascals to whole tenths, truncated. */
  function HectopascalsToTenths(v: real): (t: int)
    ensures v >= 0.0 ==> 0.0 <= t as real <= v * 10.0 < t as real + 1.0
  {
    Truncate(v * 10.0)
  }

  /** `convert_pressure(pressure)`: the only field whose sentinel is five dots. */
  function ConvertPressure(pressure: string): (r: string)
    requires IsReading(pressure)
    ensures r == UnknownPressure <==> pressure == Unknown
    ensures r != Unknown
    ensures pressure != Unknown ==>
      !IsSentinel(r) && PaddedSpelling(r, HectopascalsToTenths(DecimalValue(pressure)), 5)
    ensures pressure != Unknown && 0 <= HectopascalsToTenths(DecimalValue(pressure)) <= 99999 ==>
      |r| == 5 && AllDigits(r)
  {
    if pressure == Unknown then UnknownPressure
    else FormatInt(HectopascalsToTenths(DecimalValue(pressure)), 5)
  }

  /** What the wind-direction expression accepts without raising: the missing
      marker, the sentinel, or a literal `int(...)` reads. */
  predicate IsDirectionToken(tok: string) {
    SafeValue(tok, Unknown) == Unknown || IsIntLiteral(SafeValue(tok, "0"))
  }

  /** The inline expression at buoy.py:69: `MM` (or `...`) gives the sentinel,
      anything else is `int(...)` zero-padded to three characters. */
  function WindDirection(windDir: string): (r: string)
    requires IsDirectionToken(windDir)
    ensures r == Unknown <==> windDir == Missing || windDir == Unknown
    ensures r != Unknown ==>
      !IsSentinel(r) && IsIntLiteral(windDir) && PaddedSpelling(r, IntValue(windDir), 3)
    ensures r != Unknown && 0 <= IntValue(windDir) <= 999 ==> |r| == 3 && AllDigits(r)
  {
    if SafeValue(windDir, Unknown) != Unknown then FormatInt(IntValue(SafeValue(windDir, "0")), 3)
    else Unknown
  }
}
