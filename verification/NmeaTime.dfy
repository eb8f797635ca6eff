/** The time and date fields of an NMEA sentence: nmeaEmitTime and nmeaEmitDate write them,
    parseNMEATime and parseNMEADate read them. Instants are in UTC. */
module NmeaTime {
  import opened Text
  import opened NmeaNumbers

  datatype Civil = Civil(year: int, month: int, day: int)

  /** A UTC day and the nanoseconds since its midnight. */
  datatype Instant = Instant(date: Civil, nanos: nat)

  const MILLI := 1_000_000
  const SECOND := 1_000_000_000
  const MINUTE := 60 * SECOND
  const HOUR := 60 * MINUTE
  const DAY := 24 * HOUR

  predicate Leap(year: int) {
    year % 4 == 0 && (year % 100 != 0 || year % 400 == 0)
  }

  function DaysIn(year: int, month: int): (n: int)
    ensures 28 <= n <= 31
  {
    if month == 2 then (if Leap(year) then 29 else 28)
    else if month in {4, 6, 9, 11} then 30
    else 31
  }

  predicate IsDate(c: Civil) {
    1 <= c.month <= 12 && 1 <= c.day <= DaysIn(c.year, c.month)
  }

  /** time.Date of a day that may run past the end of its month. */
  function Normal(year: int, month: int, day: int): (c: Civil)
    requires 1 <= month <= 12 && 1 <= day <= 31
    ensures IsDate(c)
  {
    if day <= DaysIn(year, month) then Civil(year, month, day)
    else Civil(year, month + 1, day - DaysIn(year, month))
  }

  function NextDay(c: Civil): (next: Civil)
    requires IsDate(c)
    ensures IsDate(next)
  {
    if c.day < DaysIn(c.year, c.month) then Civil(c.year, c.month, c.day + 1)
    else if c.month < 12 then Civil(c.year, c.month + 1, 1)
    else Civil(c.year + 1, 1, 1)
  }

  /** The first midnight plus less than two days. */
  function Later(day: Civil, nanos: nat): (at: Instant)
    requires IsDate(day) && nanos < 2 * DAY
    ensures IsInstant(at)
  {
    if nanos < DAY then Instant(day, nanos) else Instant(NextDay(day), nanos - DAY)
  }

  predicate IsInstant(at: Instant) {
    IsDate(at.date) && at.nanos < DAY
  }

  /** The instant without its fraction of a millisecond. */
  function ToMilli(at: Instant): Instant {
    at.(nanos := at.nanos - at.nanos % MILLI)
  }

  // ------------------------------------------------------------------ writing

  function ClockText(hour: nat, minute: nat, second: nat, milli: nat): string {
    Pad(hour, 2) + Pad(minute, 2) + Pad(second, 2) + "." + Pad(milli, 3)
  }

  /** nmeaEmitTime: hhmmss.sss, the rest of a millisecond cut off. */
  function EmitTime(at: Option<Instant>): string {
    if at.None? then ""
    else
      var n := at.value.nanos;
      ClockText(n / HOUR, n / MINUTE % 60, n / SECOND % 60, n % SECOND / MILLI)
  }

  /** nmeaEmitDate: ddmmyy. */
  function EmitDate(at: Option<Instant>): string
    requires at.Some? ==> IsDate(at.value.date)
  {
    if at.None? then ""
    else
      var c := at.value.date;
      Pad(c.day, 2) + Pad(c.month, 2) + YearText(YearDigits(c.year))
  }

  /** The year modulo 100, which is negative for a negative year. */
  function YearDigits(year: int): (r: int)
    ensures -100 < r < 100
  {
    if year >= 0 then year % 100 else -(-year % 100)
  }

  /** The %02d of such a number: the sign counts as one of the two characters. */
  function YearText(r: int): string {
    if r >= 0 then Pad(r, 2) else "-" + Itoa(-r)
  }

  // ------------------------------------------------------------------ reading

  /** The instant a number hhmmss.sss names on a day. */
  function ReadClock(seconds: real, day: Civil): (r: Option<Instant>)
    requires IsDate(day)
    ensures r.Some? ==> IsInstant(r.value)
  {
    if seconds < 0.0 then None
    else
      var cut := seconds.Floor;
      var rounded := ((seconds - cut as real) * SECOND as real + 0.5).Floor;
      var whole := if rounded >= SECOND then cut + 1 else cut;
      var nanos := if rounded >= SECOND then rounded - SECOND else rounded;
      ReadWhole(whole, nanos, day)
  }

  function ReadWhole(whole: nat, nanos: nat, day: Civil): (r: Option<Instant>)
    requires IsDate(day) && nanos < SECOND
    ensures r.Some? ==> IsInstant(r.value)
  {
    var hour, minute, second := whole / 10000, whole / 100 % 100, whole % 100;
    if hour > 23 || minute > 59 || second > 60 then None
    else Some(Later(day, hour * HOUR + minute * MINUTE + second * SECOND + nanos))
  }

  /** parseNMEATime. */
  function ParseTime(text: string, day: Civil): (r: Option<Instant>)
    requires IsDate(day)
    ensures r.Some? ==> IsInstant(r.value)
  {
    var d := ParseNumber(text);
    if d.None? then None else ReadClock(Value(d.value), day)
  }

  /** parseNMEADate: two-digit years are of the 21st century. */
  function ParseDate(text: string): (r: Option<Civil>)
    ensures r.Some? ==> IsDate(r.value)
  {
    var trimmed := TrimSpace(text);
    if |trimmed| != 6 then None
    else
      var day, month, year := Atoi(trimmed[0..2]), Atoi(trimmed[2..4]), Atoi(trimmed[4..6]);
      if day.None? || month.None? || year.None? then None
      else if day.value < 1 || day.value > 31 || month.value < 1 || month.value > 12 then None
      else Some(Normal(2000 + year.value, month.value, day.value))
  }

  // -------------------------------------------------------------- round trips

  lemma SmallPowers()
    ensures Power10(2) == 100 && Power10(3) == 1000
  {
  }

  lemma TwoDigits(n: nat)
    requires n < 100
    ensures |Pad(n, 2)| == 2 && Digits(Pad(n, 2)) == n
  {
    SmallPowers();
    DigitsOfPad(n, 2);
  }

  /** Six clock digits read as one number. */
  lemma ClockDigits(hour: nat, minute: nat, second: nat)
    requires hour < 100 && minute < 100 && second < 100
    ensures All(Pad(hour, 2) + Pad(minute, 2) + Pad(second, 2), IsDigit)
    ensures Digits(Pad(hour, 2) + Pad(minute, 2) + Pad(second, 2)) == hour * 10000 + minute * 100 + second
  {
    hide Pad, Digits, Power10;
    SmallPowers();
    TwoDigits(hour);
    TwoDigits(minute);
    TwoDigits(second);
    DigitsConcat(Pad(hour, 2), Pad(minute, 2));
    DigitsConcat(Pad(hour, 2) + Pad(minute, 2), Pad(second, 2));
  }

  lemma ClockIsNumeric(hour: nat, minute: nat, second: nat, milli: nat)
    ensures All(ClockText(hour, minute, second, milli), NumberChar)
  {
    hide Pad;
    DigitsAreNumberChars(Pad(hour, 2));
    DigitsAreNumberChars(Pad(minute, 2));
    DigitsAreNumberChars(Pad(second, 2));
    DigitsAreNumberChars(Pad(milli, 3));
  }

  lemma ClockReadsBack(hour: nat, minute: nat, second: nat, milli: nat)
    requires hour < 100 && minute < 100 && second < 100 && milli < 1000
    ensures ParseNumber(ClockText(hour, minute, second, milli))
         == Some(Decimal((hour * 10000 + minute * 100 + second) * 1000 + milli, 3))
  {
    hide Digits, Power10, ReadUnsigned, TrimSpace, Pad;
    SmallPowers();
    var a, b := Pad(hour, 2) + Pad(minute, 2) + Pad(second, 2), Pad(milli, 3);
    var text := ClockText(hour, minute, second, milli);
    assert text == a + "." + b;
    ClockDigits(hour, minute, second);
    DigitsOfPad(milli, 3);
    assert |b| == 3 by { ThreeDigits(milli); }
    ReadsPoint(a, b);
    ClockIsNumeric(hour, minute, second, milli);
    NumericIsTrimmed(text);
    assert IsDigit(text[0]) by { assert IsDigit(Pad(hour, 2)[0]); }
  }

  lemma ThreeDigits(n: nat)
    requires n < 1000
    ensures |Pad(n, 3)| == 3
  {
    SmallPowers();
  }

  /** A number of whole milliseconds splits without rounding. */
  lemma ReadsMillis(whole: nat, milli: nat, day: Civil)
    requires IsDate(day) && milli < 1000
    ensures ReadClock(Value(Decimal(whole * 1000 + milli, 3)), day) == ReadWhole(whole, milli * MILLI, day)
  {
    hide ReadWhole, Power10;
    SmallPowers();
    var seconds := (whole * 1000 + milli) as real / 1000.0;
    assert seconds == whole as real + milli as real / 1000.0;
    assert seconds.Floor == whole;
    assert (seconds - whole as real) * SECOND as real == (milli * MILLI) as real;
  }

  /** A written time reads back on any day, cut to the millisecond. */
  lemma TimeReadsBack(at: Instant, day: Civil)
    requires IsInstant(at) && IsDate(day)
    ensures ParseTime(EmitTime(Some(at)), day) == Some(ToMilli(Instant(day, at.nanos)))
  {
    hide ClockText, ParseNumber, ReadClock, ReadWhole, IsDate;
    var n := at.nanos;
    var hour, minute, second, milli := n / HOUR, n / MINUTE % 60, n / SECOND % 60, n % SECOND / MILLI;
    ClockReadsBack(hour, minute, second, milli);
    var whole := hour * 10000 + minute * 100 + second;
    ReadsMillis(whole, milli, day);
    ClockAddsUp(n);
    ReadsWhole(hour, minute, second, milli * MILLI, day);
  }

  /** Division with remainder has one answer. */
  lemma DividesOnce(n: nat, q: nat, p: nat, r: nat)
    requires n == q * p + r && r < p
    ensures n / p == q && n % p == r
  {
    var d := n / p - q;
    assert d * p == r - n % p;
    assert d >= 1 ==> d * p >= p;
    assert d <= -1 ==> d * p <= -1 * p;
  }

  lemma ClockParts(hour: nat, minute: nat, second: nat)
    requires minute < 100 && second < 100
    ensures (hour * 10000 + minute * 100 + second) / 10000 == hour
    ensures (hour * 10000 + minute * 100 + second) / 100 % 100 == minute
    ensures (hour * 10000 + minute * 100 + second) % 100 == second
  {
    var whole := hour * 10000 + minute * 100 + second;
    DividesOnce(whole, hour, 10000, minute * 100 + second);
    DividesOnce(whole, hour * 100 + minute, 100, second);
    DividesOnce(hour * 100 + minute, hour, 100, minute);
  }

  lemma ReadsWhole(hour: nat, minute: nat, second: nat, nanos: nat, day: Civil)
    requires IsDate(day) && hour < 24 && minute < 60 && second < 60 && nanos < SECOND
    ensures ReadWhole(hour * 10000 + minute * 100 + second, nanos, day)
         == Some(Instant(day, hour * HOUR + minute * MINUTE + second * SECOND + nanos))
  {
    hide IsDate, NextDay;
    ClockParts(hour, minute, second);
  }

  lemma ClockAddsUp(n: nat)
    requires n < DAY
    ensures n / HOUR < 24
    ensures n / HOUR * HOUR + n / MINUTE % 60 * MINUTE + n / SECOND % 60 * SECOND + n % SECOND / MILLI * MILLI
         == n - n % MILLI
  {
    var s, f := n / SECOND, n % SECOND;
    var m, x := s / 60, s % 60;
    var h, y := m / 60, m % 60;
    DividesOnce(n, m, MINUTE, x * SECOND + f);
    DividesOnce(n, h, HOUR, y * MINUTE + x * SECOND + f);
    var k, r := f / MILLI, f % MILLI;
    DividesOnce(n, s * 1000 + k, MILLI, r);
  }

  /** A written date keeps its month and day and comes back in the century of 2000, leap
      days included; a year whose sign takes a third character does not come back at all. */
  lemma DateText(at: Instant)
    requires IsDate(at.date)
    ensures var r := YearDigits(at.date.year);
            ParseDate(EmitDate(Some(at)))
            == if r < -9 then None else Some(Civil(2000 + r, at.date.month, at.date.day))
  {
    hide Pad, YearText, Digits, Atoi, TrimSpace;
    var c := at.date;
    var r := YearDigits(c.year);
    var d, m, y := Pad(c.day, 2), Pad(c.month, 2), YearText(r);
    var text := EmitDate(Some(at));
    TwoDigits(c.day);
    TwoDigits(c.month);
    YearReadsBack(r);
    NumericIsTrimmed(text) by { DateIsNumeric(at); }
    if r >= -9 {
      assert text[0..2] == d && text[2..4] == m && text[4..6] == y;
      AtoiOfDigits(d);
      AtoiOfDigits(m);
      LeapIsKept(c.year);
    }
  }

  lemma YearReadsBack(r: int)
    requires -100 < r < 100
    ensures All(YearText(r), NumberChar)
    ensures |YearText(r)| == if r < -9 then 3 else 2
    ensures Atoi(YearText(r)) == Some(r)
  {
    hide Pad, Digits;
    if r >= 0 {
      TwoDigits(r);
      AtoiOfDigits(Pad(r, 2));
      DigitsAreNumberChars(Pad(r, 2));
    } else {
      var s := Itoa(-r);
      DigitsOfItoa(-r);
      assert |s| == if -r < 10 then 1 else 2;
      DigitsAreNumberChars(s);
      assert ("-" + s)[1..] == s;
    }
  }

  lemma DateIsNumeric(at: Instant)
    requires IsDate(at.date)
    ensures All(EmitDate(Some(at)), NumberChar)
  {
    hide Pad, YearText;
    DigitsAreNumberChars(Pad(at.date.day, 2));
    DigitsAreNumberChars(Pad(at.date.month, 2));
    YearReadsBack(YearDigits(at.date.year));
  }

  lemma AtoiOfDigits(s: string)
    requires s != [] && All(s, IsDigit) && Digits(s) <= MAX_INT
    ensures Atoi(s) == Some(Digits(s))
  {
    assert IsDigit(s[0]);
  }

  lemma FoursApart(a: int, b: int, k: int)
    requires a == b + 4 * k
    ensures a % 4 == b % 4
  {
  }

  lemma NotACentury(r: int)
    requires -100 < r < 100 && r != 0
    ensures (2000 + r) % 100 != 0
  {
  }

  lemma YearIsCenturies(year: int)
    ensures var k := if year >= 0 then year / 100 else -(-year / 100);
            year == 100 * k + YearDigits(year)
  {
  }

  /** A leap year is one in the century of 2000 too. */
  lemma LeapIsKept(year: int)
    ensures Leap(year) ==> Leap(2000 + YearDigits(year))
  {
    hide YearDigits;
    var r := YearDigits(year);
    var k := if year >= 0 then year / 100 else -(-year / 100);
    YearIsCenturies(year);
    FoursApart(year, r, 25 * k);
    FoursApart(2000 + r, r, 500);
    if r != 0 { NotACentury(r); }
  }

  /** A written date reads back as itself exactly when its year is of the 21st century. */
  lemma DateReadsBackExactlyWhen(at: Instant)
    requires IsDate(at.date)
    ensures ParseDate(EmitDate(Some(at))) == Some(at.date) <==> 2000 <= at.date.year <= 2099
  {
    hide ParseDate, EmitDate;
    DateText(at);
  }

  lemma EmptyFieldsAreAbsent(day: Civil)
    requires IsDate(day)
    ensures ParseTime(EmitTime(None), day) == None
    ensures ParseDate(EmitDate(None)) == None
  {
    TrimmedStays("");
  }

  // ------------------------------------------------------ days of the calendar

  /** Days on the Gregorian calendar, counted from the first of March of the year 0 by the
      length of the years and of the months from March on. */
  ghost function DayNumber(year: int, month: int, day: int): int
    requires 1 <= month <= 12
  {
    var y := if month <= 2 then year - 1 else year;
    var m := if month <= 2 then month + 9 else month - 3;
    YearDays(y) + (153 * m + 2) / 5 + day - 1
  }

  /** Days of all years up to the year, each from March on. */
  ghost function YearDays(year: int): int {
    365 * year + year / 4 - year / 100 + year / 400
  }

  ghost function DayOf(c: Civil): int
    requires IsDate(c)
  {
    DayNumber(c.year, c.month, c.day)
  }

  lemma YearLength(year: int)
    ensures YearDays(year) - YearDays(year - 1) == if Leap(year) then 366 else 365
  {
    Fours(year);
    Hundreds(year);
    FourHundreds(year);
  }

  lemma Fours(n: int)
    ensures n / 4 - (n - 1) / 4 == if n % 4 == 0 then 1 else 0
  {
  }

  lemma Hundreds(n: int)
    ensures n / 100 - (n - 1) / 100 == if n % 100 == 0 then 1 else 0
    ensures n % 100 == 0 ==> n % 4 == 0
  {
    if n % 100 == 0 { FoursApart(n, 0, 25 * (n / 100)); }
  }

  lemma FourHundreds(n: int)
    ensures n / 400 - (n - 1) / 400 == if n % 400 == 0 then 1 else 0
    ensures n % 400 == 0 ==> n % 100 == 0
  {
    if n % 400 == 0 { assert n == 100 * (4 * (n / 400)); }
  }

  lemma MonthStarts()
    ensures forall m :: 0 <= m <= 11 ==> (153 * m + 2) / 5 == [0, 31, 61, 92, 122, 153, 184, 214, 245, 275, 306, 337][m]
  {
  }

  /** A month is as long as the calendar says. */
  lemma MonthLength(year: int, month: int)
    requires 1 <= month <= 12
    ensures DayNumber(year, month, 1) + DaysIn(year, month)
         == if month == 12 then DayNumber(year + 1, 1, 1) else DayNumber(year, month + 1, 1)
  {
    YearLength(year);
    MonthStarts();
    hide YearDays, Leap;
  }

  /** A day past the end of its month is the day of the next month it counts to. */
  lemma NormalCounts(year: int, month: int, day: int)
    requires 1 <= month <= 12 && 1 <= day <= 31
    ensures DayOf(Normal(year, month, day)) == DayNumber(year, month, 1) + day - 1
  {
    MonthLength(year, month);
    hide DaysIn, YearDays;
  }

  lemma NextDayCounts(c: Civil)
    requires IsDate(c)
    ensures DayOf(NextDay(c)) == DayOf(c) + 1
  {
    MonthLength(c.year, c.month);
    hide DaysIn, YearDays;
  }

  /** Nanoseconds since the start of that calendar. */
  ghost function Nanos(at: Instant): int
    requires IsInstant(at)
  {
    DayOf(at.date) * 86_400_000_000_000 + at.nanos
  }

  lemma LaterCounts(day: Civil, nanos: nat)
    requires IsDate(day) && nanos < 2 * DAY
    ensures Nanos(Later(day, nanos)) == DayOf(day) * 86_400_000_000_000 + nanos
  {
    NextDayCounts(day);
    hide NextDay, DayNumber;
  }

  // ---------------------------------------------------- what the fields stand for

  lemma ClockReads(hour: nat, minute: nat, second: nat, milli: nat, day: Civil)
    requires hour < 100 && minute < 100 && second < 100 && milli < 1000 && IsDate(day)
    ensures ParseTime(ClockText(hour, minute, second, milli), day)
         == ReadWhole(hour * 10000 + minute * 100 + second, milli * MILLI, day)
  {
    hide ClockText, ParseNumber, ReadClock, ReadWhole, IsDate, Value;
    ClockReadsBack(hour, minute, second, milli);
    ReadsMillis(hour * 10000 + minute * 100 + second, milli, day);
  }

  /** A time of two digits each and milliseconds is read exactly when it is a time of day, a
      leap second included, and is then that long after the midnight of its day. */
  lemma TimeReads(hour: nat, minute: nat, second: nat, milli: nat, day: Civil)
    requires hour < 100 && minute < 100 && second < 100 && milli < 1000 && IsDate(day)
    ensures var text := Fixed(hour, 2) + Fixed(minute, 2) + Fixed(second, 2) + "." + Fixed(milli, 3);
            var r := ParseTime(text, day);
            var millis := ((hour * 60 + minute) * 60 + second) * 1000 + milli;
            && (r.Some? <==> hour <= 23 && minute <= 59 && second <= 60)
            && (r.Some? ==> Nanos(r.value) == DayOf(day) * 86_400_000_000_000 + millis * 1_000_000)
  {
    hide *;
    ClockIsFixed(hour, minute, second, milli);
    ClockReads(hour, minute, second, milli, day);
    ClockParts(hour, minute, second);
    WholeReads(hour * 10000 + minute * 100 + second, milli, day);
  }

  lemma WholeReads(whole: nat, milli: nat, day: Civil)
    requires IsDate(day) && milli < 1000
    ensures milli * MILLI < SECOND
    ensures var hour, minute, second := whole / 10000, whole / 100 % 100, whole % 100;
            var r := ReadWhole(whole, milli * MILLI, day);
            var millis := ((hour * 60 + minute) * 60 + second) * 1000 + milli;
            && (r.Some? <==> hour <= 23 && minute <= 59 && second <= 60)
            && (r.Some? ==> Nanos(r.value) == DayOf(day) * 86_400_000_000_000 + millis * 1_000_000)
  {
    hide Later, IsDate, Nanos, DayOf, IsInstant;
    ClockCounts(whole / 10000, whole / 100 % 100, whole % 100, milli, day);
  }

  lemma ClockCounts(hour: nat, minute: nat, second: nat, milli: nat, day: Civil)
    requires IsDate(day) && milli < 1000
    ensures hour <= 23 && minute <= 59 && second <= 60 ==> (
              var nanos := hour * HOUR + minute * MINUTE + second * SECOND + milli * MILLI;
              var millis := ((hour * 60 + minute) * 60 + second) * 1000 + milli;
              && nanos < 2 * DAY
              && Nanos(Later(day, nanos)) == DayOf(day) * 86_400_000_000_000 + millis * 1_000_000)
  {
    hide Later, IsDate, Nanos, DayOf, IsInstant;
    if hour <= 23 && minute <= 59 && second <= 60 {
      LaterCounts(day, hour * HOUR + minute * MINUTE + second * SECOND + milli * MILLI);
    }
  }

  lemma ClockIsFixed(hour: nat, minute: nat, second: nat, milli: nat)
    requires hour < 100 && minute < 100 && second < 100 && milli < 1000
    ensures ClockText(hour, minute, second, milli)
         == Fixed(hour, 2) + Fixed(minute, 2) + Fixed(second, 2) + "." + Fixed(milli, 3)
  {
    SmallPowers();
  }

  /** A date of six digits is read exactly when the first two can be a day and the next two
      a month, and is then that day of that month of the 21st century. */
  lemma DateReads(day: nat, month: nat, year: nat)
    requires day < 100 && month < 100 && year < 100
    ensures var r := ParseDate(Fixed(day, 2) + Fixed(month, 2) + Fixed(year, 2));
            && (r.Some? <==> 1 <= day <= 31 && 1 <= month <= 12)
            && (r.Some? ==> DayOf(r.value) == DayNumber(2000 + year, month, 1) + day - 1)
  {
    hide *;
    DateFields(day, month, year);
    if 1 <= day <= 31 && 1 <= month <= 12 { NormalCounts(2000 + year, month, day); }
  }

  lemma DateFields(day: nat, month: nat, year: nat)
    requires day < 100 && month < 100 && year < 100
    ensures ParseDate(Fixed(day, 2) + Fixed(month, 2) + Fixed(year, 2))
         == if 1 <= day <= 31 && 1 <= month <= 12 then Some(Normal(2000 + year, month, day)) else None
  {
    hide Digits, Atoi, TrimSpace, Normal, Fixed, NumberChar, IsDate;
    var d, m, y := Fixed(day, 2), Fixed(month, 2), Fixed(year, 2);
    var text := d + m + y;
    TwoFixed(day);
    TwoFixed(month);
    TwoFixed(year);
    assert All(text, NumberChar);
    NumericIsTrimmed(text);
    assert text[0..2] == d && text[2..4] == m && text[4..6] == y;
  }

  lemma TwoFixed(n: nat)
    requires n < 100
    ensures Atoi(Fixed(n, 2)) == Some(n) && All(Fixed(n, 2), NumberChar)
  {
    SmallPowers();
    DigitsOfFixed(n, 2);
    DigitsAreNumberChars(Fixed(n, 2));
    hide Fixed, Digits;
    AtoiOfDigits(Fixed(n, 2));
  }

  /** The seconds are rounded to the nanosecond, and a full second is carried. */
  lemma ClockRounds(seconds: real, day: Civil)
    requires IsDate(day) && seconds >= 0.0
    ensures var total := (seconds * 1_000_000_000.0 + 0.5).Floor;
            ReadClock(seconds, day) == ReadWhole(total / 1_000_000_000, total % 1_000_000_000, day)
  {
    hide ReadWhole, IsDate;
    var cut := seconds.Floor;
    var rounded := ((seconds - cut as real) * SECOND as real + 0.5).Floor;
    assert seconds * 1_000_000_000.0 + 0.5 == (cut * SECOND) as real + ((seconds - cut as real) * SECOND as real + 0.5);
    var total := (seconds * 1_000_000_000.0 + 0.5).Floor;
    assert total == cut * SECOND + rounded;
    if rounded >= SECOND {
      DividesOnce(total, cut + 1, SECOND, rounded - SECOND);
    } else {
      DividesOnce(total, cut, SECOND, rounded);
    }
  }
}
