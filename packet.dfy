/** The APRS-IS packet `send_to_aprs` writes for one record: an object
    report (chapter 11 of the APRS Protocol Reference 1.0.1) carrying a
    timestamp, a position and a weather report (chapter 12), sent from
    `callsign` through TCPIP with the destination APFBUO. */
module Packet {
  import opened Text
  import opened Position
  import opened Normaliser

  /** Everything between the callsign and the object name. */
  const Header: string := ">APFBUO,TCPIP*:;"

  /** The rendered fields of one packet, in the order they are sent. */
  datatype Report = Report(id: string, time: string, lat: string, lon: string,
                           dir: string, speed: string, gust: string, temp: string,
                           pressure: string)

  /** A packet: who sends it and what it reports. */
  datatype Message = Message(callsign: string, report: Report)

  /** The body after the header: object name, `*`, DDHHMM, `z`, latitude,
      `/`, longitude, `_` (the weather symbol), then direction `/` speed,
      `g` gust, `t` temperature, `b` pressure. */
  function Body(r: Report): string {
    r.id + ("*" + (r.time + ("z" + (r.lat + ("/" + (r.lon + ("_" + (r.dir + ("/"
    + (r.speed + ("g" + (r.gust + ("t" + (r.temp + ("b" + r.pressure)))))))))))))))
  }

  /** The f-string at buoy.py:99-100. */
  function ComposeMessage(callsign: string, r: Report): (m: string)
    ensures |m| >= |callsign| + |Header|
    ensures m[..|callsign|] == callsign && m[|callsign|..|callsign| + |Header|] == Header
    ensures FixedWidths(r) ==> |m| == |callsign| + |Header| + BodyLength
  {
    var m := callsign + Header + Body(r);
    assert m[..|callsign|] == callsign;
    assert m[|callsign|..|callsign| + |Header|] == Header;
    m
  }

  /** Every field of `r` has the width the APRS object report gives it:
      object name 9, timestamp 6, latitude 8, longitude 9, three characters
      of direction, speed, gust and temperature, five of pressure. */
  predicate FixedWidths(r: Report) {
    |r.id| == 9 && |r.time| == 6 && |r.lat| == 8 && |r.lon| == 9 && |r.dir| == 3
    && |r.speed| == 3 && |r.gust| == 3 && |r.temp| == 3 && |r.pressure| == 5
  }

  /** The fields and the eight one-character separators between them. */
  const BodyLength: nat := 57

  /** Reads a body back field by field, from the front: each field is cut
      off at its width and each separator must be the one expected. */
  function ParseBody(b: string): (r: Option<Report>)
    ensures r.Some? ==> FixedWidths(r.value)
  {
    if |b| != BodyLength then None
    else
      var id, b1 := b[..9], b[9..];
      var time, b2 := b1[1..][..6], b1[1..][6..];
      var lat, b3 := b2[1..][..8], b2[1..][8..];
      var lon, b4 := b3[1..][..9], b3[1..][9..];
      var dir, b5 := b4[1..][..3], b4[1..][3..];
      var speed, b6 := b5[1..][..3], b5[1..][3..];
      var gust, b7 := b6[1..][..3], b6[1..][3..];
      var temp, b8 := b7[1..][..3], b7[1..][3..];
      var pressure := b8[1..];
      if b1[..1] == "*" && b2[..1] == "z" && b3[..1] == "/" && b4[..1] == "_" && b5[..1] == "/"
         && b6[..1] == "g" && b7[..1] == "t" && b8[..1] == "b"
      then Some(Report(id, time, lat, lon, dir, speed, gust, temp, pressure))
      else None
  }

  /** A body with every field at its width reads back as the same fields. */
  lemma ParseBodyOfBody(r: Report)
    requires FixedWidths(r)
    ensures |Body(r)| == BodyLength && ParseBody(Body(r)) == Some(r)
  {
  }

  /** `s` is what precedes position `n` followed by what follows it. */
  lemma Rejoin(s: string, n: nat)
    requires n <= |s|
    ensures s[..n] + s[n..] == s
  {
  }

  /** Whatever reads back as a body is the body of the fields read. */
  lemma BodyOfParseBody(b: string)
    requires ParseBody(b).Some?
    ensures Body(ParseBody(b).value) == b
  {
    var b1 := b[9..];
    var b2 := b1[1..][6..];
    var b3 := b2[1..][8..];
    var b4 := b3[1..][9..];
    var b5 := b4[1..][3..];
    var b6 := b5[1..][3..];
    var b7 := b6[1..][3..];
    var b8 := b7[1..][3..];
    Rejoin(b8, 1);
    Rejoin(b7[1..], 3); Rejoin(b7, 1);
    Rejoin(b6[1..], 3); Rejoin(b6, 1);
    Rejoin(b5[1..], 3); Rejoin(b5, 1);
    Rejoin(b4[1..], 3); Rejoin(b4, 1);
    Rejoin(b3[1..], 9); Rejoin(b3, 1);
    Rejoin(b2[1..], 8); Rejoin(b2, 1);
    Rejoin(b1[1..], 6); Rejoin(b1, 1);
    Rejoin(b, 9);
  }

  /** Reads a packet back: the body is the last 57 characters, the header
      the 16 before them, the callsign all that precedes. */
  function ParseMessage(m: string): (r: Option<Message>)
    ensures r.Some? ==> FixedWidths(r.value.report)
  {
    if |m| < |Header| + BodyLength then None
    else
      var k := |m| - BodyLength - |Header|;
      if m[k..k + |Header|] != Header then None
      else
        match ParseBody(m[k + |Header|..])
        case Some(r) => Some(Message(m[..k], r))
        case None => None
  }

  /** Parsing undoes composing: a packet whose fields have their widths
      reads back as the callsign and the fields it was made from, whatever
      the callsign. */
  lemma ParseComposed(callsign: string, r: Report)
    requires FixedWidths(r)
    ensures ParseMessage(ComposeMessage(callsign, r)) == Some(Message(callsign, r))
  {
    ParseBodyOfBody(r);
    var m := ComposeMessage(callsign, r);
    var k := |callsign|;
    assert m[..k] == callsign;
    assert m[k..k + |Header|] == Header;
    assert m[k + |Header|..] == Body(r);
  }

  /** Composing undoes parsing: whatever reads back as a packet is the
      packet of what it reads back as. */
  lemma ComposeParsed(m: string)
    requires ParseMessage(m).Some?
    ensures ComposeMessage(ParseMessage(m).value.callsign, ParseMessage(m).value.report) == m
  {
    var k := |m| - BodyLength - |Header|;
    var b := m[k + |Header|..];
    BodyOfParseBody(b);
    assert ParseMessage(m).value == Message(m[..k], ParseBody(b).value);
    Rejoin3(m, k, k + |Header|);
  }

  /** `s` is what precedes `i`, what lies between `i` and `j` and what
      follows `j`. */
  lemma Rejoin3(s: string, i: nat, j: nat)
    requires i <= j <= |s|
    ensures s[..i] + s[i..j] + s[j..] == s
  {
  }

  // ---------------------------------------------------------------------
  // The packet of one record

  /** The fields `send_to_aprs` puts in the packet of `rec`, positions
      written by `decimal_to_dmd` with the carry. */
  function ReportOf(rec: BuoyRecord): Report {
    Report(rec.id, rec.obsTime, DegreesMinutes(rec.latitude, true),
           DegreesMinutes(rec.longitude, false), rec.windDirection, rec.windSpeed,
           rec.windGust, rec.temperature, rec.pressure)
  }

  /** `aprs_message` in `send_to_aprs(callsign, passcode, rec)`. */
  function AprsMessage(callsign: string, rec: BuoyRecord): (m: string)
    ensures |m| >= |callsign| + |Header|
    ensures m[..|callsign|] == callsign && m[|callsign|..|callsign| + |Header|] == Header
    ensures RecordFits(rec) ==> |m| == |callsign| + |Header| + BodyLength
  {
    var m := ComposeMessage(callsign, ReportOf(rec));
    if RecordFits(rec) then
      DegreesMinutesRoundTrip(rec.latitude, true);
      DegreesMinutesRoundTrip(rec.longitude, false);
      m
    else m
  }

  /** The fields of the packet exactly as `send_to_aprs` fills them, the
      positions written by `decimal_to_dmd` as buoy.py has it. */
  function ReportAsWritten(rec: BuoyRecord): Report {
    Report(rec.id, rec.obsTime, DegreesMinutesAsWritten(rec.latitude, true),
           DegreesMinutesAsWritten(rec.longitude, false), rec.windDirection, rec.windSpeed,
           rec.windGust, rec.temperature, rec.pressure)
  }

  /** `aprs_message` exactly as buoy.py:96-100 builds it. */
  function AprsMessageAsWritten(callsign: string, rec: BuoyRecord): (m: string)
    ensures |m| >= |callsign| + |Header|
    ensures m[..|callsign|] == callsign && m[|callsign|..|callsign| + |Header|] == Header
    ensures RecordFits(rec) ==> |m| == |callsign| + |Header| + BodyLength
  {
    ComposeMessage(callsign, ReportAsWritten(rec))
  }

  /** The packet with the carry is the one buoy.py sends whenever neither
      position's minutes round up to 60.00. */
  lemma AprsMessageMatchesScript(callsign: string, rec: BuoyRecord)
    requires MinuteHundredths(rec.latitude) < 6000 && MinuteHundredths(rec.longitude) < 6000
    ensures AprsMessage(callsign, rec) == AprsMessageAsWritten(callsign, rec)
  {
    CarryOnlyAtSixtyMinutes(rec.latitude, true);
    CarryOnlyAtSixtyMinutes(rec.longitude, false);
  }

  /** When a latitude's minutes round up to 60.00, the packet buoy.py sends
      reads back field by field, but its latitude field is rejected by
      `DecodeDegreesMinutes`, which takes minutes 00 to 59 only. */
  lemma AsWrittenPacketOfSixtyMinutes(callsign: string, rec: BuoyRecord)
    requires RecordFits(rec) && MinuteHundredths(rec.latitude) == 6000
    ensures var p := ParseMessage(AprsMessageAsWritten(callsign, rec));
            && p == Some(Message(callsign, ReportAsWritten(rec)))
            && DecodeDegreesMinutes(p.value.report.lat, true) == None
  {
    AsWrittenDecodes(rec.latitude, true);
    assert FixedWidths(ReportAsWritten(rec));
    ParseComposed(callsign, ReportAsWritten(rec));
  }

  /** A record whose rendered fields all have their APRS widths and whose
      position is on the globe. */
  predicate RecordFits(rec: BuoyRecord) {
    |rec.id| == 9 && |rec.obsTime| == 6
    && InRange(rec.latitude, true) && InRange(rec.longitude, false)
    && |rec.windDirection| == 3 && |rec.windSpeed| == 3 && |rec.windGust| == 3
    && |rec.temperature| == 3 && |rec.pressure| == 5
  }

  /** The packet of a record that fits is the callsign and 73 characters; it
      reads back as the record's fields, and its two position fields read back
      within half a hundredth of a minute of the record's latitude and
      longitude. */
  lemma AprsMessageReadsBack(callsign: string, rec: BuoyRecord)
    requires RecordFits(rec)
    ensures |AprsMessage(callsign, rec)| == |callsign| + 73
    ensures var p := ParseMessage(AprsMessage(callsign, rec));
            && p == Some(Message(callsign, ReportOf(rec)))
            && DecodeDegreesMinutes(p.value.report.lat, true).Some?
            && Abs(DecodeDegreesMinutes(p.value.report.lat, true).value - rec.latitude) <= 1.0 / 12000.0
            && DecodeDegreesMinutes(p.value.report.lon, false).Some?
            && Abs(DecodeDegreesMinutes(p.value.report.lon, false).value - rec.longitude) <= 1.0 / 12000.0
  {
    DegreesMinutesRoundTrip(rec.latitude, true);
    DegreesMinutesRoundTrip(rec.longitude, false);
    ParseComposed(callsign, ReportOf(rec));
  }
}
