/** What a reader makes of a fix written as NMEA sentences, and of any run of lines. */
module NmeaRoundTrip {
  import opened Text
  import opened NmeaFrame
  import opened NmeaNumbers
  import opened NmeaPosition
  import opened NmeaTime
  import opened NmeaFix

  // ------------------------------------------------- the sentences are framable

  lemma NumericIsCommaFree(s: string)
    requires All(s, NumberChar)
    ensures All(s, NotComma)
  {
  }

  lemma OptionalIsCommaFree(d: Decimal, written: bool)
    ensures All(Optional(d, written), NotComma)
  {
    hide EmitNumber;
    EmittedIsNumeric(d);
    NumericIsCommaFree(EmitNumber(d));
  }

  lemma CoordinateIsCommaFree(value: real, axis: Axis)
    requires IsAxis(axis)
    ensures All(Coordinate(value, axis).digits, NotComma) && All(Coordinate(value, axis).marker, NotComma)
  {
    hide Scaled, WithPoint;
    if InRange(value, axis) {
      var n := Scaled(Abs(value));
      PointIsNumeric(n, 4, axis.degreeDigits + 2);
      NumericIsCommaFree(WithPoint(n, 4, axis.degreeDigits + 2));
    }
  }

  lemma PositionIsCommaFree(fix: Fix)
    ensures All(LatField(fix).digits, NotComma) && All(LatField(fix).marker, NotComma)
    ensures All(LngField(fix).digits, NotComma) && All(LngField(fix).marker, NotComma)
  {
    hide Coordinate;
    CoordinateIsCommaFree(fix.lat, LATITUDE);
    CoordinateIsCommaFree(fix.lng, LONGITUDE);
  }

  lemma StampIsCommaFree(at: Option<Instant>)
    requires Writable(at)
    ensures All(EmitTime(at), NotComma) && All(EmitDate(at), NotComma)
  {
    hide ClockText, Pad;
    if at.Some? {
      var n := at.value.nanos;
      ClockIsNumeric(n / HOUR, n / MINUTE % 60, n / SECOND % 60, n % SECOND / MILLI);
      NumericIsCommaFree(EmitTime(at));
      DateIsNumeric(at.value);
      NumericIsCommaFree(EmitDate(at));
    }
  }

  lemma RmcIsFramable(fix: Fix, at: Option<Instant>)
    requires Writable(fix.time) && Writable(at)
    ensures Framable(RmcFields(fix, at))
  {
    hide EmitTime, EmitDate, Optional, LatField, LngField;
    StampIsCommaFree(Stamp(fix.time, at));
    PositionIsCommaFree(fix);
    OptionalIsCommaFree(fix.speed, fix.valid);
    OptionalIsCommaFree(fix.course, fix.valid);
  }

  lemma CountIsCommaFree(n: int)
    ensures All(PrintInt(n), NotComma)
    ensures n >= 0 ==> All(Pad(n, 2), NotComma)
  {
    hide Itoa, Pad;
    DigitsAreNumberChars(Itoa(Magnitude(n)));
    NumericIsCommaFree(Itoa(Magnitude(n)));
    if n >= 0 {
      DigitsAreNumberChars(Pad(n, 2));
      NumericIsCommaFree(Pad(n, 2));
    }
  }

  lemma GgaIsFramable(fix: Fix)
    requires Writable(fix.time)
    ensures Framable(GgaFields(fix))
  {
    hide EmitTime, EmitDate, Optional, LatField, LngField, PrintInt, Pad;
    StampIsCommaFree(fix.time);
    PositionIsCommaFree(fix);
    CountIsCommaFree(fix.quality);
    CountIsCommaFree(fix.satellites);
    OptionalIsCommaFree(fix.hdop, fix.valid && fix.hdop.mantissa > 0);
    OptionalIsCommaFree(fix.altitude, fix.valid && fix.hasAltitude);
    OptionalIsCommaFree(fix.geoid, fix.valid && fix.geoid.mantissa != 0);
  }

  // ----------------------------------------------- the sentences are dispatched

  lemma RmcLayout(fix: Fix, at: Option<Instant>)
    requires Writable(fix.time) && Writable(at)
    ensures var fields := RmcFields(fix, at); |fields| == 13 && fields[0] == "GNRMC"
    ensures RmcFields(fix, at)[1] == EmitTime(Stamp(fix.time, at))
    ensures RmcFields(fix, at)[2] == if fix.valid then "A" else "V"
    ensures var fields := RmcFields(fix, at); Field(fields[3], fields[4]) == LatField(fix)
    ensures var fields := RmcFields(fix, at); Field(fields[5], fields[6]) == LngField(fix)
    ensures RmcFields(fix, at)[7] == Optional(fix.speed, fix.valid)
    ensures RmcFields(fix, at)[8] == Optional(fix.course, fix.valid)
    ensures RmcFields(fix, at)[9] == EmitDate(Stamp(fix.time, at))
    ensures RmcFields(fix, at)[10..] == ["", "", "A"]
  {
    hide EmitTime, EmitDate, Stamp, Optional, LatField, LngField;
  }

  lemma GgaLayout(fix: Fix)
    ensures var fields := GgaFields(fix); |fields| == 15 && fields[0] == "GPGGA"
    ensures GgaFields(fix)[1] == EmitTime(fix.time)
    ensures var fields := GgaFields(fix); Field(fields[2], fields[3]) == LatField(fix)
    ensures var fields := GgaFields(fix); Field(fields[4], fields[5]) == LngField(fix)
    ensures GgaFields(fix)[6] == if fix.valid then PrintInt(fix.quality) else "0"
    ensures GgaFields(fix)[7] == if fix.valid && fix.satellites > 0 then Pad(fix.satellites, 2) else ""
    ensures GgaFields(fix)[8] == Optional(fix.hdop, fix.valid && fix.hdop.mantissa > 0)
    ensures GgaFields(fix)[9] == Optional(fix.altitude, fix.valid && fix.hasAltitude)
    ensures GgaFields(fix)[11] == Optional(fix.geoid, fix.valid && fix.geoid.mantissa != 0)
    ensures GgaFields(fix)[10] == "M" && GgaFields(fix)[12..] == ["M", "", ""]
  {
    hide EmitTime, PrintInt, Pad, Optional, LatField, LngField;
  }

  lemma KindOf(fields: seq<string>, kind: string)
    requires Framable(fields) && |fields[0]| == 5 && |kind| == 3
    requires forall i :: 0 <= i < 3 ==> fields[0][2 + i] == kind[i] && 'A' <= kind[i] <= 'Z'
    ensures ParseLine(EmitSentence(fields)).Accepted?
    ensures ParseLine(EmitSentence(fields)).sentence.kind == kind
    ensures ParseLine(EmitSentence(fields)).sentence.fields == fields
  {
    hide ParseLine, EmitSentence;
    SentenceReadsBack(fields);
    assert ToUpper(fields[0][2..]) == kind;
  }

  lemma RmcIsConsumed(s: State, fix: Fix, at: Option<Instant>, today: Civil)
    requires DatesAreReal(s) && IsDate(today) && Writable(fix.time) && Writable(at)
    ensures Consume(s, EmitSentence(RmcFields(fix, at)), today) == ApplyRmc(s, RmcFields(fix, at), today)
  {
    hide RmcFields, ParseLine, EmitSentence, ApplyRmc, ApplyGga, ApplyGst, Framable, IsDate;
    var fields := RmcFields(fix, at);
    RmcIsFramable(fix, at);
    RmcLayout(fix, at);
    KindOf(fields, "RMC");
  }

  lemma GgaIsDispatched(s: State, line: string, today: Civil)
    requires DatesAreReal(s) && IsDate(today)
    requires ParseLine(line).Accepted? && ParseLine(line).sentence.kind == "GGA"
    ensures Consume(s, line, today) == ApplyGga(s, ParseLine(line).sentence.fields, today)
  {
    hide ParseLine, ApplyRmc, ApplyGga, ApplyGst, IsDate, IsInstant;
    assert "GGA"[0] != "RMC"[0];
  }

  lemma GgaIsConsumed(s: State, fix: Fix, today: Civil)
    requires DatesAreReal(s) && IsDate(today) && Writable(fix.time)
    ensures Consume(s, EmitSentence(GgaFields(fix)), today) == ApplyGga(s, GgaFields(fix), today)
  {
    hide GgaFields, ParseLine, EmitSentence, ApplyRmc, ApplyGga, ApplyGst, Framable, IsDate;
    var fields := GgaFields(fix);
    GgaIsFramable(fix);
    GgaLayout(fix);
    KindOf(fields, "GGA");
    GgaIsDispatched(s, EmitSentence(fields), today);
  }

  // -------------------------------------------------------- a fix reads back

  lemma OptionalReadsBack(d: Decimal, written: bool)
    ensures ParseNumber(Optional(d, written)) == if written then Some(d) else None
  {
    hide EmitNumber, ParseDecimal, TrimSpace;
    if written { NumberReadsBack(d); } else { TrimmedStays(""); }
  }

  /** A quality field of a sign and digits counts as its number, or as the nearest 64-bit
      integer. */
  lemma QualityReads(sign: string, digits: string)
    requires sign in {"", "+", "-"} && digits != [] && All(digits, IsDigit)
    ensures var n := if sign == "-" then -(Digits(digits) as int) else Digits(digits);
            Quality(sign + digits)
            == if n > 0x7FFF_FFFF_FFFF_FFFF then 0x7FFF_FFFF_FFFF_FFFF
               else if n < -0x8000_0000_0000_0000 then -0x8000_0000_0000_0000 else n
  {
    hide Digits, ReadInteger, TrimSpace;
    var s := sign + digits;
    assert !IsSpace(s[0]) && !IsSpace(s[|s| - 1]) by {
      assert IsDigit(digits[0]) && IsDigit(digits[|digits| - 1]);
      assert s[|s| - 1] == digits[|digits| - 1];
    }
    TrimmedStays(s);
    AtoiReads(sign, digits);
  }

  /** Every machine integer is printed as a number that counts as itself. */
  lemma QualityReadsBack(n: int)
    requires -MAX_INT - 1 <= n <= MAX_INT
    ensures Quality(PrintInt(n)) == n
  {
    if n >= 0 {
      CountReadsBack(n);
    } else {
      hide Itoa, Digits, Quality;
      DigitsOfItoa(-n);
      QualityReads("-", Itoa(-n));
    }
  }

  /** A quality field with a character that is no digit and no sign counts as zero, and so
      does an empty one. */
  lemma UnreadableQuality(text: string)
    requires TrimSpace(text) == "" || exists i :: 0 <= i < |TrimSpace(text)| && !QualityChar(TrimSpace(text)[i])
    ensures Quality(text) == 0
  {
    hide TrimSpace, Digits;
    var t := TrimSpace(text);
    if t != "" {
      var i :| 0 <= i < |t| && !QualityChar(t[i]);
      if i > 0 { assert t[1..][i - 1] == t[i]; }
    }
  }

  ghost predicate QualityChar(c: char) {
    '0' <= c <= '9' || c == '-' || c == '+'
  }

  /** A fix without a position and a time is written as empty fields: no marker, no zero. */
  lemma VoidSentences(fix: Fix)
    requires !fix.valid && fix.time.None?
    ensures RmcFields(fix, None) == ["GNRMC", "", "V", "", "", "", "", "", "", "", "", "", "A"]
    ensures GgaFields(fix) == ["GPGGA", "", "", "", "", "", "0", "", "", "", "M", "", "M", "", ""]
  {
  }

  lemma CountReadsBack(n: nat)
    requires n <= MAX_INT
    ensures Quality(PrintInt(n)) == n
    ensures Atoi(TrimSpace(Pad(n, 2))) == Some(n)
    ensures Atoi(TrimSpace("")) == None
  {
    hide Itoa, Pad, Digits, TrimSpace;
    DigitsAreNumberChars(Itoa(n));
    NumericIsTrimmed(Itoa(n));
    DigitsOfItoa(n);
    assert IsDigit(Itoa(n)[0]);
    DigitsAreNumberChars(Pad(n, 2));
    NumericIsTrimmed(Pad(n, 2));
    DigitsOfPad(n, 2);
    AtoiOfDigits(Pad(n, 2));
    TrimmedStays("");
  }

  /** A fix the emitters can carry whole. */
  ghost predicate Reportable(fix: Fix) {
    && fix.valid
    && InRange(fix.lat, LATITUDE) && InRange(fix.lng, LONGITUDE)
    && 0 < fix.quality <= MAX_INT
    && 0 <= fix.satellites <= MAX_INT
    && fix.hdop.mantissa >= 0
    && fix.time.Some? && IsInstant(fix.time.value)
    && 2000 <= fix.time.value.date.year <= 2099
  }

  lemma PositionMarksRead(fix: Fix)
    requires Reportable(fix)
    ensures ParsePosition(LatField(fix), LngField(fix)) == Some(Position(ReadAxis(fix.lat), ReadAxis(fix.lng)))
    ensures HavePosition(Position(ReadAxis(fix.lat), ReadAxis(fix.lng)))
  {
    hide Coordinate, ParsePosition, ReadAxis;
    PositionReadsBack(fix.lat, fix.lng);
    ReadAxisIsClose(fix.lat, LATITUDE);
    ReadAxisIsClose(fix.lng, LONGITUDE);
  }

  /** What a recommended-minimum sentence does when all its fields read. */
  lemma RmcMerges(s: State, fields: seq<string>, today: Civil, date: Civil, at: Instant, p: Position,
                  speed: Decimal, course: Decimal)
    requires DatesAreReal(s) && IsDate(today) && IsDate(date) && |fields| >= 10
    ensures (
      && ParseDate(fields[9]) == Some(date) && ParseTime(fields[1], date) == Some(at)
      && RmcPosition(fields) == Some(p) && HavePosition(p) && Marks(fields[2], 'A')
      && ParseNumber(fields[7]) == Some(speed) && ParseNumber(fields[8]) == Some(course)) ==> (
      ApplyRmc(s, fields, today)
      == State(
              s.fix.(time := Some(at), lat := p.lat, lng := p.lng, speed := speed, course := course, valid := true),
              Some(date)))
  {
    hide ParseDate, ParseTime, RmcPosition, HavePosition, Marks, ParseNumber, IsDate, IsInstant;
  }

  /** What a fix-quality sentence does when its time, position and quality read. */
  lemma GgaMerges(s: State, fields: seq<string>, today: Civil, date: Civil, at: Instant, p: Position)
    requires DatesAreReal(s) && IsDate(today) && IsDate(date) && |fields| > 11
    ensures (
      && s.lastDate == Some(date) && ParseTime(fields[1], date) == Some(at)
      && GgaPosition(fields) == Some(p) && HavePosition(p) && Quality(fields[6]) > 0) ==> (
      ApplyGga(s, fields, today)
      == State(
              s.fix.(time := Some(at), lat := p.lat, lng := p.lng, quality := Quality(fields[6]),
                     satellites := OrElse(Atoi(TrimSpace(fields[7])), s.fix.satellites),
                     hdop := OrElse(ParseNumber(fields[8]), s.fix.hdop),
                     altitude := OrElse(ParseNumber(fields[9]), s.fix.altitude),
                     hasAltitude := s.fix.hasAltitude || ParseNumber(fields[9]).Some?,
                     geoid := OrElse(ParseNumber(fields[11]), s.fix.geoid),
                     valid := true),
              s.lastDate))
  {
    hide ParseTime, GgaPosition, HavePosition, Quality, ParseNumber, Atoi, TrimSpace, IsDate, IsInstant;
  }

  /** The dated sentence sets the day, the time, the position, the speed and the course. */
  lemma RmcReadsBack(s: State, fix: Fix, today: Civil)
    requires DatesAreReal(s) && IsDate(today) && Reportable(fix)
    ensures ApplyRmc(s, RmcFields(fix, None), today)
         == State(
              s.fix.(time := Some(ToMilli(fix.time.value)), lat := ReadAxis(fix.lat), lng := ReadAxis(fix.lng),
                     speed := fix.speed, course := fix.course, valid := true),
              Some(fix.time.value.date))
  {
    var at := fix.time.value;
    RmcLayout(fix, None);
    assert Stamp(fix.time, None) == fix.time && fix.valid;
    hide *;
    var fields := RmcFields(fix, None);
    DateIsKept(fix);
    TimeReadsBack(at, at.date);
    PositionMarksRead(fix);
    RmcPositionIs(fields, LatField(fix), LngField(fix));
    OptionalReadsBack(fix.speed, true);
    OptionalReadsBack(fix.course, true);
    MarkerReadsBack('A', 'B');
    SameInstant(fix);
    var p := Position(ReadAxis(fix.lat), ReadAxis(fix.lng));
    RmcMerges(s, fields, today, at.date, ToMilli(at), p, fix.speed, fix.course);
  }

  lemma RmcPositionIs(fields: seq<string>, lat: Field, lng: Field)
    requires |fields| >= 10
    requires fields[3] == lat.digits && fields[4] == lat.marker && fields[5] == lng.digits && fields[6] == lng.marker
    ensures RmcPosition(fields) == ParsePosition(lat, lng)
  {
  }

  lemma GgaPositionIs(fields: seq<string>, lat: Field, lng: Field)
    requires |fields| >= 10
    requires fields[2] == lat.digits && fields[3] == lat.marker && fields[4] == lng.digits && fields[5] == lng.marker
    ensures GgaPosition(fields) == ParsePosition(lat, lng)
  {
  }

  lemma DateIsKept(fix: Fix)
    requires Reportable(fix)
    ensures IsInstant(fix.time.value) && IsDate(fix.time.value.date)
    ensures ParseDate(EmitDate(fix.time)) == Some(fix.time.value.date)
  {
    DateReadsBackExactlyWhen(fix.time.value);
  }

  lemma SameInstant(fix: Fix)
    requires fix.time.Some?
    ensures ToMilli(Instant(fix.time.value.date, fix.time.value.nanos)) == ToMilli(fix.time.value)
  {
  }

  /** The undated sentence takes its day from the last dated one. */
  lemma GgaReadsBack(s: State, fix: Fix, today: Civil)
    requires DatesAreReal(s) && IsDate(today) && Reportable(fix)
    requires s.lastDate == Some(fix.time.value.date)
    ensures ApplyGga(s, GgaFields(fix), today)
         == State(
              s.fix.(time := Some(ToMilli(fix.time.value)), lat := ReadAxis(fix.lat), lng := ReadAxis(fix.lng),
                     quality := fix.quality,
                     satellites := if fix.satellites > 0 then fix.satellites else s.fix.satellites,
                     hdop := if fix.hdop.mantissa > 0 then fix.hdop else s.fix.hdop,
                     altitude := if fix.hasAltitude then fix.altitude else s.fix.altitude,
                     hasAltitude := s.fix.hasAltitude || fix.hasAltitude,
                     geoid := if fix.geoid.mantissa != 0 then fix.geoid else s.fix.geoid,
                     valid := true),
              s.lastDate)
  {
    var at := fix.time.value;
    GgaLayout(fix);
    assert 0 < fix.quality <= MAX_INT && 0 <= fix.satellites <= MAX_INT && fix.valid;
    hide *;
    var fields := GgaFields(fix);
    DateIsKept(fix);
    TimeReadsBack(at, at.date);
    PositionMarksRead(fix);
    GgaPositionIs(fields, LatField(fix), LngField(fix));
    OptionalReadsBack(fix.hdop, fix.hdop.mantissa > 0);
    OptionalReadsBack(fix.altitude, fix.hasAltitude);
    OptionalReadsBack(fix.geoid, fix.geoid.mantissa != 0);
    CountReadsBack(fix.quality);
    CountReadsBack(fix.satellites);
    SameInstant(fix);
    GgaMerges(s, fields, today, at.date, ToMilli(at), Position(ReadAxis(fix.lat), ReadAxis(fix.lng)));
    MergedIs(ParseNumber(fields[8]), ParseNumber(fields[9]), ParseNumber(fields[11]),
             Atoi(TrimSpace(fields[7])), s.fix);
  }

  lemma MergedIs(hdop: Option<Decimal>, altitude: Option<Decimal>, geoid: Option<Decimal>,
                 satellites: Option<int>, fix: Fix)
    ensures OrElse(hdop, fix.hdop) == if hdop.Some? then hdop.value else fix.hdop
    ensures OrElse(altitude, fix.altitude) == if altitude.Some? then altitude.value else fix.altitude
    ensures OrElse(geoid, fix.geoid) == if geoid.Some? then geoid.value else fix.geoid
    ensures OrElse(satellites, fix.satellites) == if satellites.Some? then satellites.value else fix.satellites
  {
  }

  /** What a fresh reader holds after both sentences: everything the fix carried, its time
      cut to the millisecond and its position rounded to the printed step. */
  ghost function Received(fix: Fix): Fix
    requires fix.time.Some?
  {
    Fix(true, ReadAxis(fix.lat), ReadAxis(fix.lng),
        if fix.hasAltitude then fix.altitude else ZERO, fix.hasAltitude,
        if fix.geoid.mantissa != 0 then fix.geoid else ZERO,
        fix.speed, fix.course, fix.satellites,
        if fix.hdop.mantissa > 0 then fix.hdop else ZERO,
        fix.quality, Some(ToMilli(fix.time.value)))
  }

  /** A fix written as a recommended-minimum and then a fix-quality sentence, and read by a
      fresh reader on any day, comes back. */
  lemma FixReadsBack(fix: Fix, today: Civil)
    requires Reportable(fix) && IsDate(today)
    ensures Consume(Consume(FRESH, EmitSentence(RmcFields(fix, None)), today), EmitSentence(GgaFields(fix)), today)
         == State(Received(fix), Some(fix.time.value.date))
    ensures Abs(Received(fix).lat - fix.lat) <= HALF_STEP && Abs(Received(fix).lng - fix.lng) <= HALF_STEP
    ensures Received(fix).time.value.date == fix.time.value.date
  {
    hide Consume, EmitSentence, ApplyRmc, ApplyGga, RmcFields, GgaFields, ReadAxis, IsDate, Abs;
    RmcIsConsumed(FRESH, fix, None, today);
    RmcReadsBack(FRESH, fix, today);
    var s := ApplyRmc(FRESH, RmcFields(fix, None), today);
    GgaIsConsumed(s, fix, today);
    GgaReadsBack(s, fix, today);
    ReadAxisIsClose(fix.lat, LATITUDE);
    ReadAxisIsClose(fix.lng, LONGITUDE);
  }

  /** A fix that is not valid never reads as valid, and never moves a reader's position. */
  lemma VoidFixStaysVoid(s: State, fix: Fix, at: Option<Instant>, today: Civil)
    requires DatesAreReal(s) && IsDate(today) && Writable(fix.time) && Writable(at) && !fix.valid
    ensures !Consume(s, EmitSentence(RmcFields(fix, at)), today).fix.valid
    ensures !Consume(s, EmitSentence(GgaFields(fix)), today).fix.valid
    ensures PositionOf(Consume(s, EmitSentence(RmcFields(fix, at)), today).fix) == PositionOf(s.fix)
    ensures PositionOf(Consume(s, EmitSentence(GgaFields(fix)), today).fix) == PositionOf(s.fix)
  {
    hide Consume, EmitSentence, EmitTime, EmitDate, ParseTime, ParseDate, IsDate, ParseNumber, Optional, Atoi;
    hide TrimSpace, ParseDecimal, ReadInteger, Digits, HavePosition, Day, ReadTime;
    RmcIsConsumed(s, fix, at, today);
    GgaIsConsumed(s, fix, today);
    TrimmedStays("");
    TrimmedStays("V");
    TrimmedStays("0");
    VoidQuality();
    var fields := RmcFields(fix, at);
    assert fields[2] == "V" && fields[3] == "";
    var others := GgaFields(fix);
    assert others[6] == "0" && others[2] == "";
  }

  lemma VoidQuality()
    ensures Quality("0") == 0
  {
    CountReadsBack(0);
    assert PrintInt(0) == "0";
  }

  // -------------------------------------------------------------- whole runs

  datatype Heard = Heard(line: string, today: Civil)

  ghost predicate Dated(run: seq<Heard>) {
    forall i :: 0 <= i < |run| ==> IsDate(run[i].today)
  }

  /** The reader after a run of lines, each heard on its day. */
  ghost function After(run: seq<Heard>): (s: State)
    requires Dated(run)
    ensures DatesAreReal(s)
  {
    if run == [] then FRESH
    else
      var last := run[|run| - 1];
      Consume(After(run[..|run| - 1]), last.line, last.today)
  }

  lemma ConsumeKeepsRange(s: State, line: string, today: Civil)
    requires DatesAreReal(s) && IsDate(today) && HavePosition(PositionOf(s.fix))
    ensures HavePosition(PositionOf(Consume(s, line, today).fix))
  {
    hide ParseLine, ParseDegrees, Hemisphere, ParseTime, ParseDate, ParseNumber, Atoi, TrimSpace, Quality, Marks;
    hide IsDate, IsInstant;
  }

  /** Whatever lines a fresh reader has heard, its position is one on Earth. */
  lemma {:induction false} PositionIsAlwaysInRange(run: seq<Heard>)
    requires Dated(run)
    ensures HavePosition(PositionOf(After(run).fix))
  {
    hide Consume, HavePosition, IsDate;
    if run == [] {
      FreshIsInRange();
    } else {
      var n := |run| - 1;
      PositionIsAlwaysInRange(run[..n]);
      ConsumeKeepsRange(After(run[..n]), run[n].line, run[n].today);
    }
  }

  lemma FreshIsInRange()
    ensures HavePosition(PositionOf(FRESH.fix))
  {
  }

  /** After every run the range check is no check: a recommended-minimum sentence makes the
      fix valid exactly when its status says so, and a fix-quality sentence exactly when its
      quality is above zero, whether or not either carries a position. */
  lemma StatusAloneDecides(run: seq<Heard>, fields: seq<string>, today: Civil)
    requires Dated(run) && IsDate(today) && |fields| >= 10
    ensures ApplyRmc(After(run), fields, today).fix.valid <==> Marks(fields[2], 'A')
    ensures ApplyGga(After(run), fields, today).fix.valid <==> Quality(fields[6]) > 0
  {
    hide After, ParseDegrees, Hemisphere, ParseTime, ParseDate, ParseNumber, Atoi, TrimSpace, Quality, Marks;
    hide IsDate, IsInstant;
    PositionIsAlwaysInRange(run);
  }

  // ------------------------------------------- what a valid fix of a run rests on

  /** The sentence a line carries, if it is one that can set a position. */
  function PositionSentence(line: string): Option<Sentence> {
    var parsed := ParseLine(line);
    if parsed.Rejected? || |parsed.sentence.fields| < 10 then None
    else if parsed.sentence.kind == "RMC" || parsed.sentence.kind == "GGA" then Some(parsed.sentence)
    else None
  }

  /** The sentence says that the receiver has a fix. */
  predicate Claims(s: Sentence)
    requires |s.fields| >= 10
  {
    if s.kind == "RMC" then Marks(s.fields[2], 'A') else Quality(s.fields[6]) > 0
  }

  /** The position the sentence carries, if it can be read. */
  function CarriedPosition(s: Sentence): Option<Position>
    requires |s.fields| >= 10
  {
    if s.kind == "RMC" then RmcPosition(s.fields) else GgaPosition(s.fields)
  }

  /** The last sentence of the run that can set a position claims a fix. */
  predicate LastClaims(run: seq<Heard>) {
    run != [] &&
    var s := PositionSentence(run[|run| - 1].line);
    if s.Some? then Claims(s.value) else LastClaims(run[..|run| - 1])
  }

  /** The last readable position of the run. */
  function LastPosition(run: seq<Heard>): Option<Position> {
    if run == [] then None
    else
      var s := PositionSentence(run[|run| - 1].line);
      if s.Some? && CarriedPosition(s.value).Some? then CarriedPosition(s.value) else LastPosition(run[..|run| - 1])
  }

  /** What one line does to validity and position. */
  lemma ConsumeClaims(s: State, line: string, today: Civil)
    requires DatesAreReal(s) && IsDate(today) && HavePosition(PositionOf(s.fix))
    ensures var r, sentence := Consume(s, line, today), PositionSentence(line);
            && (sentence.None? ==> r.fix.valid == s.fix.valid && PositionOf(r.fix) == PositionOf(s.fix))
            && (sentence.Some? ==>
                  && r.fix.valid == Claims(sentence.value)
                  && PositionOf(r.fix) == OrElse(CarriedPosition(sentence.value), PositionOf(s.fix)))
  {
    hide ParseLine, ParseDegrees, Hemisphere, ParseTime, ParseDate, ParseNumber, Atoi, TrimSpace, Quality, Marks;
    hide IsDate, IsInstant;
    assert "GGA"[0] != "RMC"[0] && "GST"[0] != "RMC"[0] && "GST"[1] != "GGA"[1];
  }

  /** After every run validity is what the last position sentence claims, and the position
      is the last readable one, or (0, 0) when there was none: the two need not come from
      one sentence. */
  lemma {:induction false} RunDecides(run: seq<Heard>)
    requires Dated(run)
    ensures After(run).fix.valid <==> LastClaims(run)
    ensures PositionOf(After(run).fix) == OrElse(LastPosition(run), Position(0.0, 0.0))
  {
    if run != [] {
      hide Consume, PositionSentence, Claims, CarriedPosition, HavePosition, IsDate;
      var n := |run| - 1;
      RunDecides(run[..n]);
      PositionIsAlwaysInRange(run[..n]);
      ConsumeClaims(After(run[..n]), run[n].line, run[n].today);
    }
  }

  /** After every run a valid fix rests on a position that was heard exactly when some line
      carried a readable one, or the last position sentence claims nothing. */
  lemma ValidRestsOnAPositionExactlyWhen(run: seq<Heard>)
    requires Dated(run)
    ensures (After(run).fix.valid ==> LastPosition(run) == Some(PositionOf(After(run).fix)))
       <==> LastPosition(run).Some? || !LastClaims(run)
  {
    hide After, LastPosition, LastClaims;
    RunDecides(run);
  }

  predicate AtZero(fix: Fix) {
    fix.valid && fix.lat == 0.0 && fix.lng == 0.0
  }

  /** A sentence that claims a fix and carries no position leaves a fresh reader at (0, 0). */
  lemma ClaimOfNothing(fields: seq<string>, kind: string, today: Civil)
    requires IsDate(today) && Framable(fields) && |fields| >= 10 && |fields[0]| == 5
    requires kind == "RMC" || kind == "GGA"
    requires forall i :: 0 <= i < 3 ==> fields[0][2 + i] == kind[i]
    requires fields[3] == "" && (kind == "GGA" ==> fields[2] == "")
    requires if kind == "RMC" then Marks(fields[2], 'A') else Quality(fields[6]) > 0
    ensures AtZero(Consume(FRESH, EmitSentence(fields), today).fix)
  {
    hide ParseLine, EmitSentence, Consume, Marks, Quality, CarriedPosition, IsDate, Framable, HavePosition;
    KindOf(fields, kind);
    FreshIsInRange();
    ConsumeClaims(FRESH, EmitSentence(fields), today);
    NothingCarried(ParseLine(EmitSentence(fields)).sentence);
  }

  lemma NothingCarried(s: Sentence)
    requires |s.fields| >= 10 && s.fields[3] == "" && (s.kind != "RMC" ==> s.fields[2] == "")
    ensures CarriedPosition(s).None?
  {
    TrimmedStays("");
  }

  /** An active sentence without coordinates gives a fresh reader a valid fix at (0, 0). */
  lemma ActiveWithoutCoordinates(today: Civil)
    requires IsDate(today)
    ensures AtZero(Consume(FRESH, EmitSentence(["GNRMC", "", "A", "", "", "", "", "", "", ""]), today).fix)
  {
    hide Consume, EmitSentence, Marks, IsDate;
    MarkerReadsBack('A', 'B');
    ClaimOfNothing(["GNRMC", "", "A", "", "", "", "", "", "", ""], "RMC", today);
  }

  /** So does a fix-quality sentence of some quality without coordinates. */
  lemma QualityWithoutCoordinates(today: Civil)
    requires IsDate(today)
    ensures AtZero(Consume(FRESH, EmitSentence(["GPGGA", "", "", "", "", "", "1", "", "", ""]), today).fix)
  {
    hide Consume, EmitSentence, Quality, IsDate;
    assert Quality("1") == 1 by {
      CountReadsBack(1);
      assert PrintInt(1) == "1";
    }
    ClaimOfNothing(["GPGGA", "", "", "", "", "", "1", "", "", ""], "GGA", today);
  }

  // ------------------------------------- every field is the last one that was heard

  predicate IsKind(s: Sentence, kind: string, count: nat) {
    s.kind == kind && |s.fields| >= count
  }

  /** The number a field of such a sentence carries. */
  function NumberIn(s: Sentence, kind: string, count: nat, at: nat): Option<Decimal>
    requires at < count
  {
    if IsKind(s, kind, count) then ParseNumber(s.fields[at]) else None
  }

  function SpeedIn(s: Sentence): Option<Decimal> { NumberIn(s, "RMC", 10, 7) }
  function CourseIn(s: Sentence): Option<Decimal> { NumberIn(s, "RMC", 10, 8) }
  function HdopIn(s: Sentence): Option<Decimal> { NumberIn(s, "GGA", 10, 8) }
  function AltitudeIn(s: Sentence): Option<Decimal> { NumberIn(s, "GGA", 10, 9) }
  function GeoidIn(s: Sentence): Option<Decimal> { NumberIn(s, "GGA", 12, 11) }

  function SatellitesIn(s: Sentence): Option<int> {
    if IsKind(s, "GGA", 10) then Atoi(TrimSpace(s.fields[7])) else None
  }

  function QualityIn(s: Sentence): Option<int> {
    if IsKind(s, "GGA", 10) then Some(Quality(s.fields[6])) else None
  }

  function DateIn(s: Sentence): (date: Option<Civil>)
    ensures date.Some? ==> IsDate(date.value)
  {
    if IsKind(s, "RMC", 10) then ParseDate(s.fields[9]) else None
  }

  function TimeIn(s: Sentence, day: Civil): Option<Instant>
    requires IsDate(day)
  {
    if IsKind(s, "RMC", 10) || IsKind(s, "GGA", 10) || IsKind(s, "GST", 8) then ParseTime(s.fields[1], day) else None
  }

  /** The last value that a line of the run carries. */
  ghost function LastIn<T>(run: seq<Heard>, carried: Sentence -> Option<T>): Option<T> {
    if run == [] then None
    else
      var parsed := ParseLine(run[|run| - 1].line);
      if parsed.Accepted? && carried(parsed.sentence).Some? then carried(parsed.sentence)
      else LastIn(run[..|run| - 1], carried)
  }

  lemma {:induction false} LastDateIsReal(run: seq<Heard>)
    ensures LastIn(run, DateIn).Some? ==> IsDate(LastIn(run, DateIn).value)
  {
    hide ParseLine, IsDate, IsKind;
    if run != [] {
      LastDateIsReal(run[..|run| - 1]);
    }
  }

  /** The day of a line: the last date heard up to it, or else the day it was heard on. */
  ghost function DayAt(run: seq<Heard>): (day: Civil)
    requires run != [] && IsDate(run[|run| - 1].today)
    ensures IsDate(day)
  {
    LastDateIsReal(run);
    OrElse(LastIn(run, DateIn), run[|run| - 1].today)
  }

  /** The last time that a line of the run carries, on the day of that line. */
  ghost function LastTime(run: seq<Heard>): Option<Instant>
    requires Dated(run)
  {
    if run == [] then None
    else
      var parsed := ParseLine(run[|run| - 1].line);
      if parsed.Accepted? && TimeIn(parsed.sentence, DayAt(run)).Some? then TimeIn(parsed.sentence, DayAt(run))
      else LastTime(run[..|run| - 1])
  }

  /** What one accepted sentence merges into the fix. */
  ghost predicate Merges(s: State, sentence: Sentence, today: Civil, r: State)
    requires DatesAreReal(s) && IsDate(today) && DatesAreReal(r)
  {
    && r.fix.speed == OrElse(SpeedIn(sentence), s.fix.speed)
    && r.fix.course == OrElse(CourseIn(sentence), s.fix.course)
    && r.fix.hdop == OrElse(HdopIn(sentence), s.fix.hdop)
    && r.fix.altitude == OrElse(AltitudeIn(sentence), s.fix.altitude)
    && r.fix.hasAltitude == (s.fix.hasAltitude || AltitudeIn(sentence).Some?)
    && r.fix.geoid == OrElse(GeoidIn(sentence), s.fix.geoid)
    && r.fix.satellites == OrElse(SatellitesIn(sentence), s.fix.satellites)
    && r.fix.quality == OrElse(QualityIn(sentence), s.fix.quality)
    && r.lastDate == (if DateIn(sentence).Some? then DateIn(sentence) else s.lastDate)
    && r.fix.time == (var at := TimeIn(sentence, OrElse(r.lastDate, today)); if at.Some? then at else s.fix.time)
  }

  lemma ConsumeMerges(s: State, line: string, today: Civil)
    requires DatesAreReal(s) && IsDate(today) && ParseLine(line).Accepted?
    ensures Merges(s, ParseLine(line).sentence, today, Consume(s, line, today))
  {
    hide ParseLine, ApplyRmc, ApplyGga, ApplyGst, Merges, IsDate, IsInstant;
    var sentence := ParseLine(line).sentence;
    if sentence.kind == "RMC" {
      RmcMergesIn(s, sentence, today);
    } else if sentence.kind == "GGA" {
      GgaMergesIn(s, sentence, today);
    } else {
      OthersMergeIn(s, sentence, today);
    }
  }

  lemma RmcMergesIn(s: State, sentence: Sentence, today: Civil)
    requires DatesAreReal(s) && IsDate(today) && sentence.kind == "RMC"
    ensures Merges(s, sentence, today, ApplyRmc(s, sentence.fields, today))
  {
    hide RmcPosition, ParseTime, ParseDate, ParseNumber, Marks, IsDate, IsInstant, HavePosition;
    assert "GGA"[0] != "RMC"[0] && "GST"[0] != "RMC"[0];
  }

  lemma GgaMergesIn(s: State, sentence: Sentence, today: Civil)
    requires DatesAreReal(s) && IsDate(today) && sentence.kind == "GGA"
    ensures Merges(s, sentence, today, ApplyGga(s, sentence.fields, today))
  {
    hide GgaPosition, ParseTime, ParseDate, ParseNumber, Atoi, TrimSpace, Quality, IsDate, IsInstant, HavePosition;
    assert "GGA"[0] != "RMC"[0] && "GST"[1] != "GGA"[1];
  }

  lemma OthersMergeIn(s: State, sentence: Sentence, today: Civil)
    requires DatesAreReal(s) && IsDate(today) && sentence.kind != "RMC" && sentence.kind != "GGA"
    ensures Merges(s, sentence, today, if sentence.kind == "GST" then ApplyGst(s, sentence.fields, today) else s)
  {
    hide ParseTime, ParseDate, ParseNumber, Atoi, TrimSpace, Quality, IsDate, IsInstant;
  }

  /** After every run each field of the fix is the last readable value that a sentence of
      the right kind carried, and what it was at first when there was none. */
  lemma {:induction false} RunMerges(run: seq<Heard>)
    requires Dated(run)
    ensures After(run).fix.speed == OrElse(LastIn(run, SpeedIn), Decimal(0, 0))
    ensures After(run).fix.course == OrElse(LastIn(run, CourseIn), Decimal(0, 0))
    ensures After(run).fix.hdop == OrElse(LastIn(run, HdopIn), Decimal(0, 0))
    ensures After(run).fix.altitude == OrElse(LastIn(run, AltitudeIn), Decimal(0, 0))
    ensures After(run).fix.hasAltitude <==> LastIn(run, AltitudeIn).Some?
    ensures After(run).fix.geoid == OrElse(LastIn(run, GeoidIn), Decimal(0, 0))
    ensures After(run).fix.satellites == OrElse(LastIn(run, SatellitesIn), 0)
    ensures After(run).fix.quality == OrElse(LastIn(run, QualityIn), 0)
    ensures After(run).lastDate == LastIn(run, DateIn)
    ensures After(run).fix.time == LastTime(run)
  {
    hide Consume, ParseLine, SpeedIn, CourseIn, HdopIn, AltitudeIn, GeoidIn, SatellitesIn, QualityIn, DateIn, TimeIn;
    hide IsDate, IsInstant;
    if run != [] {
      var n := |run| - 1;
      RunMerges(run[..n]);
      var line := run[n].line;
      if ParseLine(line).Accepted? {
        ConsumeMerges(After(run[..n]), line, run[n].today);
      } else {
        RejectedKeeps(After(run[..n]), line, run[n].today);
      }
    }
  }

  lemma RejectedKeeps(s: State, line: string, today: Civil)
    requires DatesAreReal(s) && IsDate(today) && ParseLine(line).Rejected?
    ensures Consume(s, line, today) == s
  {
    hide ParseLine;
  }
}
