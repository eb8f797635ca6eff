/** The position fields of an NMEA sentence: nmeaEmitCoordinate writes degrees and decimal
    minutes, parseNMEADegrees and parseNMEAPosition read them. Angles are exact reals. */
module NmeaPosition {
  import opened Text
  import opened NmeaNumbers

  datatype Axis = Axis(degreeDigits: nat, limit: int, positive: char, negative: char)

  const LATITUDE := Axis(2, 90, 'N', 'S')
  const LONGITUDE := Axis(3, 180, 'E', 'W')

  /** One printed position: its digits and its hemisphere marker, both empty for none. */
  datatype Field = Field(digits: string, marker: string)

  /** Half of a ten-thousandth of a minute, in degrees. */
  const HALF_STEP: real := 1.0 / 1200000.0

  predicate InRange(value: real, axis: Axis) {
    -(axis.limit as real) <= value <= axis.limit as real
  }

  function Abs(x: real): real {
    if x < 0.0 then -x else x
  }

  /** math.Round of a number that is not negative. */
  function Round(x: real): int
    requires x >= 0.0
  {
    (x + 0.5).Floor
  }

  // ------------------------------------------------------------------ writing

  /** The printed number in units of 0.0001: degrees * 1000000 + minutes * 10000, with the
      rounded minutes carried into the degrees when they reach sixty. */
  function Scaled(value: real): (n: nat)
    requires value >= 0.0
    ensures n % 1000000 < 600000
    ensures Abs(Degrees(n) - value) <= HALF_STEP
    ensures Degrees(n) <= value.Floor as real + 1.0
    ensures value == value.Floor as real ==> Degrees(n) == value
  {
    var whole := value.Floor;
    var minutes := Round((value - whole as real) * 60.0 * 10000.0);
    PrintedParts(whole, minutes);
    PrintedParts(whole + 1, 0);
    if minutes >= 600000 then (whole + 1) * 1000000 else whole * 1000000 + minutes
  }

  /** Degrees and minutes stand apart in the printed number. */
  lemma PrintedParts(whole: nat, minutes: nat)
    ensures minutes < 600000 ==> (
              && (whole * 1000000 + minutes) % 1000000 == minutes
              && Degrees(whole * 1000000 + minutes) == whole as real + minutes as real / 600000.0)
  {
    if minutes < 600000 {
      var n := whole * 1000000 + minutes;
      assert n / 1000000 == whole && n % 1000000 == minutes;
    }
  }

  /** The angle a printed number stands for. */
  function Degrees(n: nat): real {
    (n / 1000000) as real + (n % 1000000) as real / 10000.0 / 60.0
  }

  function Digits4(n: nat, degreeDigits: nat): string {
    WithPoint(n, 4, degreeDigits + 2)
  }

  function Coordinate(value: real, axis: Axis): Field {
    if !InRange(value, axis) then Field("", "")
    else Field(Digits4(Scaled(Abs(value)), axis.degreeDigits), [if value < 0.0 then axis.negative else axis.positive])
  }

  /** nmeaEmitCoordinate: the minutes are rounded, then carried. */
  method EmitCoordinate(value: real, axis: Axis) returns (digits: string, marker: string)
    ensures Field(digits, marker) == Coordinate(value, axis)
  {
    hide WithPoint;
    if value < -(axis.limit as real) || value > axis.limit as real {
      return "", "";
    }
    var size := value;
    marker := [axis.positive];
    if size < 0.0 {
      marker := [axis.negative];
      size := -size;
    }
    var whole := size.Floor;
    var minutes := Round((size - whole as real) * 60.0 * 10000.0);
    if minutes >= 600000 {
      whole := whole + 1;
      minutes := 0;
    }
    digits := WithPoint(whole * 1000000 + minutes, 4, axis.degreeDigits + 2);
  }

  // ------------------------------------------------------------------ reading

  predicate NotPoint(c: char) {
    c != '.'
  }

  /** The angle of a ddmm.mmmm or dddmm.mmmm value, unless its minutes reach sixty. */
  function SplitDegrees(value: real): Option<real> {
    if value < 0.0 then None
    else
      var degrees := (value / 100.0).Floor as real;
      var minutes := value - degrees * 100.0;
      if minutes < 0.0 || minutes >= 60.0 then None else Some(degrees + minutes / 60.0)
  }

  /** parseNMEADegrees. */
  function ParseDegrees(text: string): Option<real> {
    var trimmed := TrimSpace(text);
    var dot := RunLength(trimmed, NotPoint);
    if dot == |trimmed| || (dot != 4 && dot != 5) || !AllDigits(trimmed[..dot]) then None
    else
      var d := ParseDecimal(trimmed);
      if d.None? then None else SplitDegrees(Value(d.value))
  }

  /** strings.EqualFold of a trimmed field with one capital letter. */
  predicate Marks(text: string, letter: char) {
    var trimmed := TrimSpace(text);
    |trimmed| == 1 && UpperChar(trimmed[0]) == letter
  }

  /** The signed angle of one axis, unless its marker names neither hemisphere. */
  function Hemisphere(angle: real, marker: string, axis: Axis): Option<real> {
    if Marks(marker, axis.negative) then Some(-angle)
    else if Marks(marker, axis.positive) then Some(angle)
    else None
  }

  datatype Position = Position(lat: real, lng: real)

  /** parseNMEAPosition. */
  function ParsePosition(lat: Field, lng: Field): (r: Option<Position>)
    ensures r.Some? ==> InRange(r.value.lat, LATITUDE) && InRange(r.value.lng, LONGITUDE)
  {
    var latAngle, lngAngle := ParseDegrees(lat.digits), ParseDegrees(lng.digits);
    if latAngle.None? || lngAngle.None? then None
    else
      var latSigned := Hemisphere(latAngle.value, lat.marker, LATITUDE);
      var lngSigned := Hemisphere(lngAngle.value, lng.marker, LONGITUDE);
      if latSigned.None? || lngSigned.None? then None
      else if !InRange(latSigned.value, LATITUDE) || !InRange(lngSigned.value, LONGITUDE) then None
      else Some(Position(latSigned.value, lngSigned.value))
  }

  // -------------------------------------------------------------- round trips

  ghost predicate IsAxis(axis: Axis) {
    axis == LATITUDE || axis == LONGITUDE
  }

  lemma FourPlaces()
    ensures Power10(4) == 10000
  {
  }

  /** Splitting a printed value undoes the scaling. */
  lemma SplitScaled(n: nat)
    requires n % 1000000 < 600000
    ensures SplitDegrees(Value(Decimal(n, 4))) == Some(Degrees(n))
  {
    FourPlaces();
    hide Power10;
    var q, r := n / 1000000, n % 1000000;
    var value := n as real / 10000.0;
    assert n as real == q as real * 1000000.0 + r as real;
    assert value / 100.0 == q as real + r as real / 1000000.0;
    assert (value / 100.0).Floor == q;
    assert value - q as real * 100.0 == r as real / 10000.0;
  }

  /** The integer part fits the digits the axis has, so the point stands where it must. */
  lemma PointIsPlaced(n: nat, width: nat)
    requires width == 4 || width == 5
    requires n < Power10(width) * 10000
    ensures ParseDegrees(WithPoint(n, 4, width)) == SplitDegrees(Value(Decimal(n, 4)))
  {
    hide TrimSpace, SplitDegrees, ReadUnsigned, Fixed;
    FourPlaces();
    var text := WithPoint(n, 4, width);
    var whole := Quotient(n, 10000);
    assert whole < Power10(width);
    var a, b := Fixed(whole, width), Fixed(n % 10000, 4);
    assert text == a + "." + b;
    PointIsNumeric(n, 4, width);
    NumericIsTrimmed(text);
    assert text[..width] == a;
    forall i | 0 <= i < |a| ensures NotPoint(a[i]) { assert IsDigit(a[i]); }
    RunLengthIs(text, NotPoint, width);
    PointReadsBack(n, 4, width);
  }

  lemma ScaledFits(value: real, axis: Axis)
    requires IsAxis(axis) && InRange(value, axis)
    ensures Scaled(Abs(value)) < Power10(axis.degreeDigits + 2) * 10000
    ensures Degrees(Scaled(Abs(value))) <= axis.limit as real
  {
    var size := Abs(value);
    var n := Scaled(size);
    hide Scaled;
    assert size.Floor <= axis.limit;
    if size.Floor == axis.limit { assert size == axis.limit as real; }
    assert Degrees(n) <= axis.limit as real;
    assert n / 1000000 <= axis.limit;
    assert Power10(4) == 10000 && Power10(5) == 100000;
  }

  /** Every coordinate within its limit is written as a field the parser accepts, and what
      it reads is within the limit and half of 0.0001 minute of what was written. */
  lemma CoordinateReadsBack(value: real, axis: Axis)
    requires IsAxis(axis) && InRange(value, axis)
    ensures ParseDegrees(Coordinate(value, axis).digits) == Some(Degrees(Scaled(Abs(value))))
    ensures Abs(Degrees(Scaled(Abs(value))) - Abs(value)) <= HALF_STEP
    ensures Degrees(Scaled(Abs(value))) <= axis.limit as real
  {
    hide ParseDegrees, Scaled, Degrees, SplitDegrees, WithPoint, Value, Power10;
    ScaledFits(value, axis);
    var n := Scaled(Abs(value));
    PointIsPlaced(n, axis.degreeDigits + 2);
    SplitScaled(n);
  }

  /** What the reader makes of one written axis. */
  function ReadAxis(value: real): real {
    var angle := Degrees(Scaled(Abs(value)));
    if value < 0.0 then -angle else angle
  }

  lemma MarkerReadsBack(letter: char, other: char)
    requires 'A' <= letter <= 'Z' && letter != other
    ensures Marks([letter], letter) && !Marks([letter], other)
  {
    TrimmedStays([letter]);
  }

  lemma HemisphereReadsBack(value: real, axis: Axis)
    requires IsAxis(axis) && InRange(value, axis)
    ensures Hemisphere(Degrees(Scaled(Abs(value))), Coordinate(value, axis).marker, axis) == Some(ReadAxis(value))
  {
    hide Marks, Scaled, Degrees;
    MarkerReadsBack(axis.negative, axis.positive);
    MarkerReadsBack(axis.positive, axis.negative);
  }

  lemma ReadAxisIsClose(value: real, axis: Axis)
    requires IsAxis(axis) && InRange(value, axis)
    ensures InRange(ReadAxis(value), axis)
    ensures Abs(ReadAxis(value) - value) <= HALF_STEP
  {
    CoordinateReadsBack(value, axis);
    hide Scaled;
  }

  /** A written position is always accepted, and lies within half a step on both axes. */
  lemma PositionReadsBack(lat: real, lng: real)
    requires InRange(lat, LATITUDE) && InRange(lng, LONGITUDE)
    ensures ParsePosition(Coordinate(lat, LATITUDE), Coordinate(lng, LONGITUDE))
         == Some(Position(ReadAxis(lat), ReadAxis(lng)))
    ensures Abs(ReadAxis(lat) - lat) <= HALF_STEP
    ensures Abs(ReadAxis(lng) - lng) <= HALF_STEP
  {
    CoordinateReadsBack(lat, LATITUDE);
    CoordinateReadsBack(lng, LONGITUDE);
    HemisphereReadsBack(lat, LATITUDE);
    HemisphereReadsBack(lng, LONGITUDE);
    ReadAxisIsClose(lat, LATITUDE);
    ReadAxisIsClose(lng, LONGITUDE);
    hide Scaled, Degrees, ParseDegrees, Hemisphere, Coordinate, Abs, ReadAxis;
  }

  /** A coordinate outside its limit leaves no position to read. */
  lemma OutOfRangeIsNotRead(value: real, axis: Axis, other: Field)
    requires !InRange(value, axis)
    ensures ParsePosition(Coordinate(value, axis), other).None?
    ensures ParsePosition(other, Coordinate(value, axis)).None?
  {
    TrimmedStays("");
  }

  // ------------------------------------------------------- writing once more

  /** A printed number scales to itself. */
  lemma ScaledIsStable(n: nat)
    requires n % 1000000 < 600000
    ensures Scaled(Degrees(n)) == n
  {
    var q, r := n / 1000000, n % 1000000;
    var value := Degrees(n);
    assert value == q as real + r as real / 600000.0;
    assert value.Floor == q;
    assert (value - q as real) * 60.0 * 10000.0 == r as real;
    assert Round(r as real) == r;
  }

  /** Writing what was read prints the same digits. The hemisphere is kept exactly unless a
      negative angle rounds to zero, which is then written on the positive side. */
  lemma WrittenAgain(value: real, axis: Axis)
    requires IsAxis(axis) && InRange(value, axis)
    ensures Coordinate(ReadAxis(value), axis).digits == Coordinate(value, axis).digits
    ensures (Coordinate(ReadAxis(value), axis) == Coordinate(value, axis)) <==> !(-HALF_STEP < value < 0.0)
  {
    ReadAxisIsClose(value, axis);
    var n := Scaled(Abs(value));
    ScaledIsStable(n);
    NegativeZero(value);
    hide Scaled, Degrees, WithPoint;
    assert Abs(ReadAxis(value)) == Degrees(n);
  }

  lemma NegativeZero(value: real)
    ensures Degrees(Scaled(Abs(value))) >= 0.0
    ensures Degrees(Scaled(Abs(value))) == 0.0 <==> Abs(value) < HALF_STEP
  {
    var size := Abs(value);
    var n := Scaled(size);
    if size < HALF_STEP {
      assert size.Floor == 0;
      assert size * 60.0 * 10000.0 < 0.5;
    }
  }

  // ---------------------------------------------------- what the fields stand for

  /** A marker names a hemisphere by its letter, in either case. */
  lemma MarksLetter(text: string, capital: char, small: char)
    requires 'A' <= capital <= 'Z' && small == capital - 'A' + 'a'
    ensures Marks(text, capital) <==> TrimSpace(text) == [capital] || TrimSpace(text) == [small]
  {
    hide TrimSpace;
    var trimmed := TrimSpace(text);
    if |trimmed| == 1 { assert trimmed == [trimmed[0]]; }
  }

  lemma AngleIsNotNegative(text: string)
    ensures ParseDegrees(text).Some? ==> ParseDegrees(text).value >= 0.0
  {
    hide ParseDecimal, TrimSpace, RunLength, AllDigits;
  }

  /** A position is read exactly when both angles can be read and are within their limits
      and both markers name a hemisphere; north and east are positive, south and west negative. */
  lemma PositionReads(a: string, m: string, b: string, n: string)
    ensures var p, lat, lng := ParsePosition(Field(a, m), Field(b, n)), ParseDegrees(a), ParseDegrees(b);
            && (p.Some? <==>
                  && lat.Some? && lat.value <= 90.0 && TrimSpace(m) in {"N", "n", "S", "s"}
                  && lng.Some? && lng.value <= 180.0 && TrimSpace(n) in {"E", "e", "W", "w"})
            && (p.Some? ==> p.value.lat == if TrimSpace(m) in {"S", "s"} then -lat.value else lat.value)
            && (p.Some? ==> p.value.lng == if TrimSpace(n) in {"W", "w"} then -lng.value else lng.value)
  {
    hide ParseDegrees, Marks, TrimSpace;
    AngleIsNotNegative(a);
    AngleIsNotNegative(b);
    MarksLetter(m, 'N', 'n');
    MarksLetter(m, 'S', 's');
    MarksLetter(n, 'E', 'e');
    MarksLetter(n, 'W', 'w');
    Letters();
  }

  lemma Letters()
    ensures "N" != "S" && "N" != "s" && "n" != "S" && "n" != "s"
    ensures "E" != "W" && "E" != "w" && "e" != "W" && "e" != "w"
  {
    assert "N"[0] != "S"[0] && "n"[0] != "S"[0] && "N"[0] != "s"[0] && "n"[0] != "s"[0];
    assert "E"[0] != "W"[0] && "e"[0] != "W"[0] && "E"[0] != "w"[0] && "e"[0] != "w"[0];
  }

  /** A latitude is marked S exactly when it is negative, a longitude W; both fields are
      empty beyond the pole and beyond half a turn. */
  lemma CoordinateMarkers(value: real)
    ensures Coordinate(value, LATITUDE).marker
         == if value < -90.0 || value > 90.0 then "" else if value < 0.0 then "S" else "N"
    ensures Coordinate(value, LONGITUDE).marker
         == if value < -180.0 || value > 180.0 then "" else if value < 0.0 then "W" else "E"
    ensures |Coordinate(value, LATITUDE).digits| == if value < -90.0 || value > 90.0 then 0 else 9
    ensures |Coordinate(value, LONGITUDE).digits| == if value < -180.0 || value > 180.0 then 0 else 10
  {
    if InRange(value, LATITUDE) { PrintedWidth(value, LATITUDE); }
    if InRange(value, LONGITUDE) { PrintedWidth(value, LONGITUDE); }
    hide Scaled, WithPoint;
  }

  lemma PrintedWidth(value: real, axis: Axis)
    requires IsAxis(axis) && InRange(value, axis)
    ensures |Digits4(Scaled(Abs(value)), axis.degreeDigits)| == axis.degreeDigits + 7
  {
    ScaledFits(value, axis);
    hide Scaled, Degrees;
    var n := Scaled(Abs(value));
    FourPlaces();
    hide Power10;
    assert Quotient(n, 10000) < Power10(axis.degreeDigits + 2);
  }

  /** Two or three digits of degrees, two of minutes and any fraction of a minute. */
  ghost predicate DegreeText(d: string, m: string, f: string) {
    (|d| == 2 || |d| == 3) && |m| == 2 && All(d, IsDigit) && All(m, IsDigit) && All(f, IsDigit)
  }

  ghost function Minutes(m: string, f: string): real
    requires All(m, IsDigit) && All(f, IsDigit)
  {
    Digits(m) as real + Digits(f) as real / Power10(|f|) as real
  }

  lemma DegreeTextShape(d: string, m: string, f: string)
    requires DegreeText(d, m, f)
    ensures ParseDegrees(d + m + "." + f) == SplitDegrees(Value(Decimal(Digits(d + m + f), |f|)))
  {
    hide TrimSpace, SplitDegrees, ReadUnsigned, Digits, Value;
    var text := d + m + "." + f;
    var a := d + m;
    assert text == a + "." + f;
    assert All(a, IsDigit);
    assert text[..|a|] == a;
    forall i | 0 <= i < |a| ensures NotPoint(a[i]) { assert IsDigit(a[i]); }
    RunLengthIs(text, NotPoint, |a|);
    DegreesAreNumeric(a, f);
    NumericIsTrimmed(text);
    ReadsPoint(a, f);
    DigitsConcat(a, f);
    assert IsDigit(text[0]);
  }

  lemma DegreesAreNumeric(a: string, f: string)
    requires All(a, IsDigit) && All(f, IsDigit)
    ensures All(a + "." + f, NumberChar)
  {
    DigitsAreNumberChars(a);
    DigitsAreNumberChars(f);
  }

  lemma {:induction false} DigitsAreSmall(s: string)
    requires All(s, IsDigit)
    ensures Digits(s) < Power10(|s|)
  {
    if s != [] {
      DigitsAreSmall(s[..|s| - 1]);
    }
  }

  lemma FractionIsSmall(f: string)
    requires All(f, IsDigit)
    ensures 0.0 <= Digits(f) as real / Power10(|f|) as real < 1.0
  {
    DigitsAreSmall(f);
    hide Digits, Power10;
    Ratio(Digits(f) as real, Power10(|f|) as real);
  }

  lemma Ratio(x: real, p: real)
    requires 0.0 <= x < p
    ensures 0.0 <= x / p < 1.0
  {
    assert x / p * p == x;
  }

  lemma WholeAndFraction(d: nat, m: nat, f: nat, p: nat)
    requires p > 0
    ensures ((d * 100 + m) * p + f) as real / p as real == d as real * 100.0 + (m as real + f as real / p as real)
  {
    var x := (d * 100 + m) as real;
    assert ((d * 100 + m) * p + f) as real == x * p as real + f as real;
    assert (x * p as real + f as real) / p as real == x + f as real / p as real;
  }

  /** Degrees and minutes below sixty are the degrees plus the minutes over sixty; minutes
      of sixty or more are refused. */
  lemma DegreesRead(d: string, m: string, f: string)
    requires DegreeText(d, m, f)
    ensures ParseDegrees(d + m + "." + f)
         == if Minutes(m, f) < 60.0 then Some(Digits(d) as real + Minutes(m, f) / 60.0) else None
  {
    hide *;
    DegreeTextShape(d, m, f);
    DegreeTextValue(d, m, f);
    SplitsAtHundreds(Digits(d), Minutes(m, f));
  }

  /** The number such a text spells: hundreds of degrees and the minutes. */
  lemma DegreeTextValue(d: string, m: string, f: string)
    requires DegreeText(d, m, f)
    ensures All(m, IsDigit) && All(d, IsDigit) && All(f, IsDigit) && All(d + m + f, IsDigit)
    ensures Value(Decimal(Digits(d + m + f), |f|)) == Digits(d) as real * 100.0 + Minutes(m, f)
    ensures 0.0 <= Minutes(m, f) < 100.0
  {
    DigitsConcat(d, m);
    DigitsConcat(d + m, f);
    FractionIsSmall(f);
    DigitsAreSmall(m);
    assert Power10(2) == 100;
    hide Digits, Power10;
    WholeAndFraction(Digits(d), Digits(m), Digits(f), Power10(|f|));
  }

  lemma SplitsAtHundreds(d: nat, minutes: real)
    requires 0.0 <= minutes < 100.0
    ensures SplitDegrees(d as real * 100.0 + minutes)
         == if minutes < 60.0 then Some(d as real + minutes / 60.0) else None
  {
    var value := d as real * 100.0 + minutes;
    assert value / 100.0 == d as real + minutes / 100.0;
    assert (value / 100.0).Floor == d;
  }

  /** Nothing but such a text, between white space, is read as an angle. */
  lemma OnlyDegreeTextsRead(text: string)
    ensures ParseDegrees(text).Some?
        ==> exists d, m, f :: DegreeText(d, m, f) && TrimSpace(text) == d + m + "." + f
  {
    if ParseDegrees(text).Some? {
      hide TrimSpace, SplitDegrees, Digits;
      var t := TrimSpace(text);
      var dot := RunLength(t, NotPoint);
      var d, m, f := t[..dot - 2], t[dot - 2..dot], t[dot + 1..];
      FractionOf(t, dot);
      assert t == d + m + "." + f;
      forall i | 0 <= i < |d| ensures IsDigit(d[i]) { assert d[i] == t[..dot][i]; }
      forall i | 0 <= i < |m| ensures IsDigit(m[i]) { assert m[i] == t[..dot][dot - 2 + i]; }
      assert DegreeText(d, m, f);
    }
  }

  lemma FractionOf(t: string, dot: nat)
    requires 0 < dot < |t| && All(t[..dot], IsDigit) && !NotPoint(t[dot]) && ParseDecimal(t).Some?
    ensures t[dot] == '.' && All(t[dot + 1..], IsDigit)
  {
    hide Digits;
    assert IsDigit(t[..dot][0]);
    RunLengthIs(t, IsDigit, dot);
  }
}
