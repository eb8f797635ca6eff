/** The fix an NMEA reader merges and the sentences that carry one: EmitRMC and EmitGGA
    write them, GPSReader.consume reads them. */
module NmeaFix {
  import opened Text
  import opened NmeaFrame
  import opened NmeaNumbers
  import opened NmeaPosition
  import opened NmeaTime

  datatype Fix = Fix(
    valid: bool,
    lat: real,
    lng: real,
    altitude: Decimal,
    hasAltitude: bool,
    geoid: Decimal,
    speed: Decimal,
    course: Decimal,
    satellites: int,
    hdop: Decimal,
    quality: int,
    time: Option<Instant>)

  const ZERO := Decimal(0, 0)
  const NO_FIX := Fix(false, 0.0, 0.0, ZERO, false, ZERO, ZERO, ZERO, 0, ZERO, 0, None)

  datatype State = State(fix: Fix, lastDate: Option<Civil>)

  const FRESH := State(NO_FIX, None)

  ghost predicate DatesAreReal(s: State) {
    && (s.lastDate.Some? ==> IsDate(s.lastDate.value))
    && (s.fix.time.Some? ==> IsInstant(s.fix.time.value))
  }

  // ------------------------------------------------------------------ writing

  function Stamp(fixTime: Option<Instant>, at: Option<Instant>): Option<Instant> {
    if at.Some? then at else fixTime
  }

  predicate Writable(at: Option<Instant>) {
    at.Some? ==> IsInstant(at.value)
  }

  function PrintInt(n: int): string {
    if n < 0 then "-" + Itoa(-n) else Itoa(n)
  }

  function LatField(fix: Fix): Field {
    if fix.valid then Coordinate(fix.lat, LATITUDE) else Field("", "")
  }

  function LngField(fix: Fix): Field {
    if fix.valid then Coordinate(fix.lng, LONGITUDE) else Field("", "")
  }

  function Optional(d: Decimal, written: bool): string {
    if written then EmitNumber(d) else ""
  }

  function RmcFields(fix: Fix, at: Option<Instant>): seq<string>
    requires Writable(fix.time) && Writable(at)
  {
    var stamp := Stamp(fix.time, at);
    [ "GNRMC", EmitTime(stamp), if fix.valid then "A" else "V",
      LatField(fix).digits, LatField(fix).marker, LngField(fix).digits, LngField(fix).marker,
      Optional(fix.speed, fix.valid), Optional(fix.course, fix.valid), EmitDate(stamp), "", "", "A" ]
  }

  function GgaFields(fix: Fix): seq<string> {
    [ "GPGGA", EmitTime(fix.time),
      LatField(fix).digits, LatField(fix).marker, LngField(fix).digits, LngField(fix).marker,
      if fix.valid then PrintInt(fix.quality) else "0",
      if fix.valid && fix.satellites > 0 then Pad(fix.satellites, 2) else "",
      Optional(fix.hdop, fix.valid && fix.hdop.mantissa > 0),
      Optional(fix.altitude, fix.valid && fix.hasAltitude), "M",
      Optional(fix.geoid, fix.valid && fix.geoid.mantissa != 0), "M", "", "" ]
  }

  /** EmitRMC: the fields of a void sentence, filled in when the fix is valid. */
  method EmitRmc(fix: Fix, at: Option<Instant>) returns (line: string)
    requires Writable(fix.time) && Writable(at)
    ensures line == EmitSentence(RmcFields(fix, at))
  {
    hide EmitSentence, EmitTime, EmitDate, EmitNumber, Coordinate;
    var stamp := Stamp(fix.time, at);
    var fields := ["GNRMC", EmitTime(stamp), "V", "", "", "", "", "", "", EmitDate(stamp), "", "", "A"];
    if fix.valid {
      fields := fields[2 := "A"];
      var digits, marker := EmitCoordinate(fix.lat, LATITUDE);
      fields := fields[3 := digits][4 := marker];
      digits, marker := EmitCoordinate(fix.lng, LONGITUDE);
      fields := fields[5 := digits][6 := marker];
      fields := fields[7 := EmitNumber(fix.speed)];
      fields := fields[8 := EmitNumber(fix.course)];
    }
    assert fields == RmcFields(fix, at);
    line := EmitSentence(fields);
  }

  /** EmitGGA: every measured field is written only when the fix carries it. */
  method EmitGga(fix: Fix) returns (line: string)
    ensures line == EmitSentence(GgaFields(fix))
  {
    hide EmitSentence, EmitTime, EmitNumber, Coordinate, PrintInt, Pad;
    var fields := ["GPGGA", EmitTime(fix.time), "", "", "", "", "0", "", "", "", "M", "", "M", "", ""];
    if fix.valid {
      var digits, marker := EmitCoordinate(fix.lat, LATITUDE);
      fields := fields[2 := digits][3 := marker];
      digits, marker := EmitCoordinate(fix.lng, LONGITUDE);
      fields := fields[4 := digits][5 := marker];
      fields := fields[6 := PrintInt(fix.quality)];
      if fix.satellites > 0 {
        fields := fields[7 := Pad(fix.satellites, 2)];
      }
      if fix.hdop.mantissa > 0 {
        fields := fields[8 := EmitNumber(fix.hdop)];
      }
      if fix.hasAltitude {
        fields := fields[9 := EmitNumber(fix.altitude)];
      }
      if fix.geoid.mantissa != 0 {
        fields := fields[11 := EmitNumber(fix.geoid)];
      }
    }
    assert fields == GgaFields(fix);
    line := EmitSentence(fields);
  }

  // ------------------------------------------------------------------ reading

  function OrElse<T>(read: Option<T>, kept: T): T {
    if read.Some? then read.value else kept
  }

  /** fallbackDateLocked: the day of the last dated sentence, and otherwise today. */
  function Day(lastDate: Option<Civil>, today: Civil): Civil {
    OrElse(lastDate, today)
  }

  predicate HavePosition(p: Position) {
    InRange(p.lat, LATITUDE) && InRange(p.lng, LONGITUDE)
  }

  function PositionOf(fix: Fix): Position {
    Position(fix.lat, fix.lng)
  }

  /** The number a fix-quality field counts as: zero when it is none, and the nearest
      machine integer when it is too large. */
  function Quality(text: string): int {
    var value := ReadInteger(TrimSpace(text));
    if value.None? then 0
    else if value.value > MAX_INT then MAX_INT
    else if value.value < -MAX_INT - 1 then -MAX_INT - 1
    else value.value
  }

  function RmcPosition(fields: seq<string>): Option<Position>
    requires |fields| >= 10
  {
    ParsePosition(Field(fields[3], fields[4]), Field(fields[5], fields[6]))
  }

  function GgaPosition(fields: seq<string>): Option<Position>
    requires |fields| >= 10
  {
    ParsePosition(Field(fields[2], fields[3]), Field(fields[4], fields[5]))
  }

  function ReadTime(text: string, day: Civil, kept: Option<Instant>): Option<Instant>
    requires IsDate(day)
  {
    var at := ParseTime(text, day);
    if at.Some? then at else kept
  }

  function ApplyRmc(s: State, fields: seq<string>, today: Civil): (r: State)
    requires DatesAreReal(s) && IsDate(today)
    ensures DatesAreReal(r)
  {
    if |fields| < 10 then s
    else
      var date := ParseDate(fields[9]);
      var lastDate := if date.Some? then date else s.lastDate;
      var time := ReadTime(fields[1], Day(lastDate, today), s.fix.time);
      var position := OrElse(RmcPosition(fields), PositionOf(s.fix));
      State(s.fix.(
        time := time,
        lat := position.lat,
        lng := position.lng,
        speed := OrElse(ParseNumber(fields[7]), s.fix.speed),
        course := OrElse(ParseNumber(fields[8]), s.fix.course),
        valid := Marks(fields[2], 'A') && HavePosition(position)), lastDate)
  }

  function ApplyGga(s: State, fields: seq<string>, today: Civil): (r: State)
    requires DatesAreReal(s) && IsDate(today)
    ensures DatesAreReal(r)
  {
    if |fields| < 10 then s
    else
      var time := ReadTime(fields[1], Day(s.lastDate, today), s.fix.time);
      var position := OrElse(GgaPosition(fields), PositionOf(s.fix));
      var quality := Quality(fields[6]);
      var altitude := ParseNumber(fields[9]);
      State(s.fix.(
        time := time,
        lat := position.lat,
        lng := position.lng,
        quality := quality,
        satellites := OrElse(Atoi(TrimSpace(fields[7])), s.fix.satellites),
        hdop := OrElse(ParseNumber(fields[8]), s.fix.hdop),
        altitude := OrElse(altitude, s.fix.altitude),
        hasAltitude := s.fix.hasAltitude || altitude.Some?,
        geoid := if |fields| > 11 then OrElse(ParseNumber(fields[11]), s.fix.geoid) else s.fix.geoid,
        valid := quality > 0 && HavePosition(position)), s.lastDate)
  }

  /** A position-error sentence: only the time it carries is modelled. */
  function ApplyGst(s: State, fields: seq<string>, today: Civil): (r: State)
    requires DatesAreReal(s) && IsDate(today)
    ensures DatesAreReal(r)
  {
    if |fields| < 8 then s
    else s.(fix := s.fix.(time := ReadTime(fields[1], Day(s.lastDate, today), s.fix.time)))
  }

  /** consume: a line that does not parse is dropped. */
  function Consume(s: State, line: string, today: Civil): (r: State)
    requires DatesAreReal(s) && IsDate(today)
    ensures DatesAreReal(r)
  {
    var parsed := ParseLine(line);
    if parsed.Rejected? then s
    else if parsed.sentence.kind == "RMC" then ApplyRmc(s, parsed.sentence.fields, today)
    else if parsed.sentence.kind == "GGA" then ApplyGga(s, parsed.sentence.fields, today)
    else if parsed.sentence.kind == "GST" then ApplyGst(s, parsed.sentence.fields, today)
    else s
  }

  /** GPSReader: the fields the reader's mutex protects. */
  class Reader {
    var fix: Fix
    var lastDate: Option<Civil>

    ghost predicate Valid()
      reads this
    {
      DatesAreReal(State(fix, lastDate))
    }

    constructor ()
      ensures Valid() && State(fix, lastDate) == FRESH
    {
      fix := NO_FIX;
      lastDate := None;
    }

    method MergeRmc(fields: seq<string>, today: Civil)
      requires Valid() && IsDate(today)
      modifies this
      ensures Valid() && State(fix, lastDate) == ApplyRmc(old(State(fix, lastDate)), fields, today)
    {
      hide ParseTime, ParseDate, ParseNumber, ParsePosition, Marks, HavePosition, IsDate, IsInstant;
      if |fields| < 10 {
        return;
      }
      var day := ParseDate(fields[9]);
      if day.Some? {
        lastDate := day;
      }
      fix := fix.(time := ReadTime(fields[1], Day(lastDate, today), fix.time));
      hide OrElse;
      var position := OrElse(RmcPosition(fields), PositionOf(fix));
      fix := fix.(lat := position.lat, lng := position.lng);
      fix := fix.(speed := OrElse(ParseNumber(fields[7]), fix.speed));
      fix := fix.(course := OrElse(ParseNumber(fields[8]), fix.course));
      fix := fix.(valid := Marks(fields[2], 'A') && HavePosition(PositionOf(fix)));
    }

    method MergeGga(fields: seq<string>, today: Civil)
      requires Valid() && IsDate(today)
      modifies this
      ensures Valid() && State(fix, lastDate) == ApplyGga(old(State(fix, lastDate)), fields, today)
    {
      hide ParseTime, ParseNumber, ParsePosition, Quality, HavePosition, IsDate, IsInstant, Atoi, TrimSpace;
      if |fields| < 10 {
        return;
      }
      fix := fix.(time := ReadTime(fields[1], Day(lastDate, today), fix.time));
      hide OrElse;
      var position := OrElse(GgaPosition(fields), PositionOf(fix));
      fix := fix.(lat := position.lat, lng := position.lng);
      var quality := Quality(fields[6]);
      fix := fix.(quality := quality);
      fix := fix.(satellites := OrElse(Atoi(TrimSpace(fields[7])), fix.satellites));
      fix := fix.(hdop := OrElse(ParseNumber(fields[8]), fix.hdop));
      var altitude := ParseNumber(fields[9]);
      fix := fix.(altitude := OrElse(altitude, fix.altitude), hasAltitude := fix.hasAltitude || altitude.Some?);
      if |fields| > 11 {
        fix := fix.(geoid := OrElse(ParseNumber(fields[11]), fix.geoid));
      }
      fix := fix.(valid := quality > 0 && HavePosition(PositionOf(fix)));
    }

    method MergeGst(fields: seq<string>, today: Civil)
      requires Valid() && IsDate(today)
      modifies this
      ensures Valid() && State(fix, lastDate) == ApplyGst(old(State(fix, lastDate)), fields, today)
    {
      hide ParseTime, IsDate, IsInstant;
      if |fields| < 8 {
        return;
      }
      var at := ParseTime(fields[1], Day(lastDate, today));
      if at.Some? {
        fix := fix.(time := at);
      }
    }

    method ConsumeLine(line: string, today: Civil)
      requires Valid() && IsDate(today)
      modifies this
      ensures Valid() && State(fix, lastDate) == Consume(old(State(fix, lastDate)), line, today)
    {
      hide ParseLine, ApplyRmc, ApplyGga, ApplyGst, IsDate, IsInstant;
      var parsed := ParseLine(line);
      if parsed.Rejected? {
        return;
      }
      if parsed.sentence.kind == "RMC" {
        MergeRmc(parsed.sentence.fields, today);
      } else if parsed.sentence.kind == "GGA" {
        MergeGga(parsed.sentence.fields, today);
      } else if parsed.sentence.kind == "GST" {
        MergeGst(parsed.sentence.fields, today);
      }
    }
  }
}
