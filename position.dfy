/** `decimal_to_dmd`: a signed decimal latitude or longitude written the way
    APRS positions are (chapter 6 of the APRS Protocol Reference 1.0.1):
    `DDMM.hhN` for latitude, `DDDMM.hhW` for longitude, degrees and minutes
    of arc with the minutes to two decimals, the hemisphere as a letter. */
module Position {
  import opened Text
  import opened Numbers

  function Abs(x: real): (a: real)
    ensures a >= 0.0 && (a == x || a == -x)
  {
    if x < 0.0 then -x else x
  }

  /** N or S for a latitude, E or W for a longitude; zero counts as N or E. */
  function Hemisphere(value: real, isLatitude: bool): (c: char)
    ensures c in (if isLatitude then "NS" else "EW")
    ensures c == 'S' || c == 'W' <==> value < 0.0
  {
    if isLatitude && value >= 0.0 then 'N'
    else if isLatitude then 'S'
    else if value >= 0.0 then 'E'
    else 'W'
  }

  function DegreeWidth(isLatitude: bool): nat { if isLatitude then 2 else 3 }

  /** `int(abs(value))`: whole degrees. */
  function WholeDegrees(value: real): (d: nat)
    ensures d as real <= Abs(value) < d as real + 1.0
  {
    Abs(value).Floor
  }

  /** The minutes `(abs(value) - degrees) * 60`, rounded to hundredths as
      `{minutes:05.2f}` rounds them, counted in hundredths of a minute. */
  function MinuteHundredths(value: real): (c: nat)
    ensures c <= 6000
    ensures -0.5 <= c as real - (Abs(value) - WholeDegrees(value) as real) * 6000.0 <= 0.5
  {
    RoundHalfEven((Abs(value) - WholeDegrees(value) as real) * 6000.0)
  }

  /** Reads back a minutes field `mm.hh` as hundredths of a minute. */
  function DecodeMinutes(t: string): Option<nat> {
    if |t| == 5 && AllDigits(t[..2]) && t[2] == '.' && AllDigits(t[3..])
    then Some(DigitsValue(t[..2]) * 100 + DigitsValue(t[3..]))
    else None
  }

  /** Two two-digit fields around a point read back as the number they
      spell in hundredths. */
  lemma MinutesFieldReads(whole: string, frac: string)
    requires |whole| == 2 && AllDigits(whole) && |frac| == 2 && AllDigits(frac)
    ensures DecodeMinutes(whole + "." + frac) == Some(DigitsValue(whole) * 100 + DigitsValue(frac))
  {
    var r := whole + "." + frac;
    assert |r| == 5 && r[2] == '.';
    assert r[..2] == whole;
    assert r[3..] == frac;
  }

  /** `{minutes:05.2f}` for minutes worth `c` hundredths: two integer digits
      at least, a point, two decimals; it reads back as `c`. */
  function FormatMinutes(c: nat): (r: string)
    ensures c < 10000 ==> |r| == 5 && DecodeMinutes(r) == Some(c)
  {
    var whole, frac := FormatInt(c / 100, 2), FormatInt(c % 100, 2);
    var r := whole + "." + frac;
    if c < 10000 then
      assert Pow10(2) == 100;
      FixedWidthDigits(c / 100, 2);
      FixedWidthDigits(c % 100, 2);
      MinutesFieldReads(whole, frac);
      r
    else r
  }

  /** `decimal_to_dmd(value, is_latitude)` as buoy.py writes it: degrees are
      truncated before the minutes are rounded, so a value just below a whole
      degree prints a minutes field of 60.00. In range the field has the
      fixed layout, the hemisphere letter last and the rounded minutes in
      its minutes field, after degree digits spelling the truncated degrees. */
  function DegreesMinutesAsWritten(value: real, isLatitude: bool): (s: string)
    ensures InRange(value, isLatitude) ==>
              && |s| == DegreeWidth(isLatitude) + 6
              && AllDigits(s[..DegreeWidth(isLatitude)])
              && DigitsValue(s[..DegreeWidth(isLatitude)]) == WholeDegrees(value)
              && DecodeMinutes(s[DegreeWidth(isLatitude)..DegreeWidth(isLatitude) + 5])
                 == Some(MinuteHundredths(value))
              && s[|s| - 1] == Hemisphere(value, isLatitude)
  {
    var degrees := FormatInt(WholeDegrees(value), DegreeWidth(isLatitude));
    var minutes := FormatMinutes(MinuteHundredths(value));
    var s := degrees + minutes + [Hemisphere(value, isLatitude)];
    if InRange(value, isLatitude) then
      DegreesFit(value, isLatitude);
      FixedWidthDigits(WholeDegrees(value), DegreeWidth(isLatitude));
      Fields(degrees, minutes, Hemisphere(value, isLatitude));
      LayoutDecodes(WholeDegrees(value), MinuteHundredths(value), Hemisphere(value, isLatitude), isLatitude);
      s
    else s
  }

  /** The whole degrees and hundredths of a minute `decimal_to_dmd` should
      print: a rounding up to 60 minutes is carried into the degrees. */
  function CarriedDegreesMinutes(value: real): (dm: (nat, nat))
    ensures dm.1 < 6000
    ensures dm.0 * 6000 + dm.1 == WholeDegrees(value) * 6000 + MinuteHundredths(value)
  {
    var c := MinuteHundredths(value);
    if c == 6000 then (WholeDegrees(value) + 1, 0) else (WholeDegrees(value), c)
  }

  /** The magnitude whole degrees and hundredths of a minute encode. */
  function Magnitude(d: nat, c: nat): real {
    d as real + c as real / 6000.0
  }

  /** The sign a hemisphere letter gives a magnitude. */
  function Signed(magnitude: real, h: char): real {
    if h == 'S' || h == 'W' then -magnitude else magnitude
  }

  /** Reads back a position field: `None` unless it has the fixed layout with
      fewer than 60 minutes. */
  function DecodeDegreesMinutes(s: string, isLatitude: bool): Option<real> {
    var w := DegreeWidth(isLatitude);
    if |s| != w + 6 || !AllDigits(s[..w]) || s[w + 5] !in (if isLatitude then "NS" else "EW") then None
    else
      match DecodeMinutes(s[w..w + 5])
      case Some(c) =>
        if c < 6000 then Some(Signed(Magnitude(DigitsValue(s[..w]), c), s[w + 5]))
        else None
      case None => None
  }

  /** Degree digits, a minutes field and a hemisphere letter side by side. */
  lemma Fields(a: string, b: string, h: char)
    ensures var s := a + b + [h];
            |s| == |a| + |b| + 1 && s[..|a|] == a && s[|a|..|a| + |b|] == b && s[|a| + |b|] == h
  {
    var s := a + b + [h];
    assert s[..|a|] == a;
    assert s[|a|..|a| + |b|] == b;
  }

  /** A position field laid out from degree digits `a` worth `d`, a minutes
      field `b` worth `c` hundredths and a hemisphere letter reads back as
      that many degrees with the hemisphere's sign when the minutes are below
      60, and not at all when they are not. */
  lemma DecodeLayout(a: string, b: string, h: char, isLatitude: bool, d: nat, c: nat)
    requires |a| == DegreeWidth(isLatitude) && AllDigits(a) && DigitsValue(a) == d
    requires DecodeMinutes(b) == Some(c)
    requires h in (if isLatitude then "NS" else "EW")
    ensures var s, w := a + b + [h], DegreeWidth(isLatitude);
            && |s| == w + 6 && s[w + 5] == h && s[w..w + 5] == b
            && DecodeDegreesMinutes(s, isLatitude)
               == if c < 6000 then Some(Signed(Magnitude(d, c), h)) else None
  {
    Fields(a, b, h);
  }

  /** Within its range every value has whole degrees that fit the field. */
  lemma DegreesFit(value: real, isLatitude: bool)
    requires InRange(value, isLatitude)
    ensures CarriedDegreesMinutes(value).0 < Pow10(DegreeWidth(isLatitude))
    ensures WholeDegrees(value) < Pow10(DegreeWidth(isLatitude))
  {
    assert Pow10(2) == 100 && Pow10(3) == 1000;
  }

  /** With the hemisphere's sign, the carried magnitude is within half a
      hundredth of a minute (1/12000 of a degree) of the value. */
  lemma CarriedIsClose(value: real, isLatitude: bool)
    ensures Abs(Signed(Magnitude(CarriedDegreesMinutes(value).0, CarriedDegreesMinutes(value).1), Hemisphere(value, isLatitude)) - value) <= 1.0 / 12000.0
  {
    var (d, c) := CarriedDegreesMinutes(value);
    var w0, c0 := WholeDegrees(value), MinuteHundredths(value);
    assert d as real * 6000.0 + c as real == w0 as real * 6000.0 + c0 as real;
    assert Abs(Magnitude(CarriedDegreesMinutes(value).0, CarriedDegreesMinutes(value).1) - Abs(value)) <= 1.0 / 12000.0;
  }

  /** The field written from whole degrees that fit and `c` hundredths of a
      minute has the fixed layout with `c` in its minutes; it reads back as
      their sum with the hemisphere's sign when `c` is below 6000 (60
      minutes) and not at all otherwise. */
  lemma LayoutDecodes(d: nat, c: nat, h: char, isLatitude: bool)
    requires d < Pow10(DegreeWidth(isLatitude)) && c < 10000
    requires h in (if isLatitude then "NS" else "EW")
    ensures var s, w := FormatInt(d, DegreeWidth(isLatitude)) + FormatMinutes(c) + [h],
                        DegreeWidth(isLatitude);
            && |s| == w + 6 && s[|s| - 1] == h && DecodeMinutes(s[w..w + 5]) == Some(c)
            && DecodeDegreesMinutes(s, isLatitude)
               == if c < 6000 then Some(Signed(Magnitude(d, c), h)) else None
  {
    FixedWidthDigits(d, DegreeWidth(isLatitude));
    DecodeLayout(FormatInt(d, DegreeWidth(isLatitude)), FormatMinutes(c), h, isLatitude, d, c);
  }

  /** The latitudes and longitudes the position field can carry. */
  predicate InRange(value: real, isLatitude: bool) {
    if isLatitude then -90.0 <= value <= 90.0 else -180.0 <= value <= 180.0
  }

  /** `decimal_to_dmd(value, is_latitude)` with the carry: the position the
      packet carries. In range it has the fixed layout, the hemisphere letter
      last, and decodes to the carried magnitude with the hemisphere's sign. */
  function DegreesMinutes(value: real, isLatitude: bool): (s: string)
    ensures InRange(value, isLatitude) ==>
              && |s| == DegreeWidth(isLatitude) + 6
              && s[|s| - 1] == Hemisphere(value, isLatitude)
              && DecodeDegreesMinutes(s, isLatitude)
                 == Some(Signed(Magnitude(CarriedDegreesMinutes(value).0, CarriedDegreesMinutes(value).1), Hemisphere(value, isLatitude)))
  {
    var dm := CarriedDegreesMinutes(value);
    var s := FormatInt(dm.0, DegreeWidth(isLatitude)) + FormatMinutes(dm.1)
             + [Hemisphere(value, isLatitude)];
    if InRange(value, isLatitude) then
      DegreesFit(value, isLatitude);
      LayoutDecodes(dm.0, dm.1, Hemisphere(value, isLatitude), isLatitude);
      s
    else s
  }

  /** The carry changes nothing unless the minutes round up to 60.00: below
      that the field is exactly the one buoy.py writes. */
  lemma CarryOnlyAtSixtyMinutes(value: real, isLatitude: bool)
    requires MinuteHundredths(value) < 6000
    ensures DegreesMinutes(value, isLatitude) == DegreesMinutesAsWritten(value, isLatitude)
  {
  }

  /** The position field has the fixed APRS layout for every latitude in
      [-90, 90] and longitude in [-180, 180]: 8 or 9 characters, the
      hemisphere by sign, and it reads back (so its minutes are below 60)
      within half a hundredth of a minute (1/12000 of a degree) of the value
      it encodes. */
  lemma DegreesMinutesRoundTrip(value: real, isLatitude: bool)
    requires InRange(value, isLatitude)
    ensures var s := DegreesMinutes(value, isLatitude);
            && |s| == DegreeWidth(isLatitude) + 6
            && s[|s| - 1] == Hemisphere(value, isLatitude)
            && DecodeDegreesMinutes(s, isLatitude).Some?
            && Abs(DecodeDegreesMinutes(s, isLatitude).value - value) <= 1.0 / 12000.0
  {
    CarriedIsClose(value, isLatitude);
  }

  /** 34.99999 is 34 whole degrees and 59.9994 minutes, 5999.94 hundredths,
      which round to 6000. */
  lemma NearlyThirtyFiveDegrees()
    ensures WholeDegrees(34.99999) == 34 && MinuteHundredths(34.99999) == 6000
  {
  }

  /** The field as buoy.py writes it has the fixed layout with the rounded
      minutes in it, and reads back exactly when those minutes stay below 60:
      a value whose minutes round up to 60.00 yields a field that
      `DecodeDegreesMinutes`, which takes minutes 00 to 59 only, rejects. */
  lemma AsWrittenDecodes(value: real, isLatitude: bool)
    requires InRange(value, isLatitude)
    ensures var s, w := DegreesMinutesAsWritten(value, isLatitude), DegreeWidth(isLatitude);
            && |s| == w + 6
            && DecodeMinutes(s[w..w + 5]) == Some(MinuteHundredths(value))
            && DecodeDegreesMinutes(s, isLatitude)
               == if MinuteHundredths(value) < 6000
                  then Some(Signed(Magnitude(WholeDegrees(value), MinuteHundredths(value)),
                                   Hemisphere(value, isLatitude)))
                  else None
  {
    DegreesFit(value, isLatitude);
    LayoutDecodes(WholeDegrees(value), MinuteHundredths(value), Hemisphere(value, isLatitude), isLatitude);
  }

  /** 34.99999 degrees north as written: a minutes field of "60.00", a
      position `DecodeDegreesMinutes` rejects, while the carried form reads back as
      35 degrees. */
  lemma AsWrittenPrintsSixtyMinutes()
    ensures DigitsValue(DegreesMinutesAsWritten(34.99999, true)[..2]) == 34
    ensures DecodeMinutes(DegreesMinutesAsWritten(34.99999, true)[2..7]) == Some(6000)
    ensures DecodeDegreesMinutes(DegreesMinutesAsWritten(34.99999, true), true) == None
    ensures DecodeDegreesMinutes(DegreesMinutes(34.99999, true), true) == Some(35.0)
  {
    NearlyThirtyFiveDegrees();
    AsWrittenDecodes(34.99999, true);
    assert CarriedDegreesMinutes(34.99999) == (35, 0);
  }
}
