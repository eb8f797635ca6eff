/** The decimal numbers of an NMEA field, after strconv.ParseFloat and FormatFloat in
    fixed notation. A number is held as its shortest decimal; exponents are not modelled. */
module NmeaNumbers {
  import opened Text

  /** mantissa / 10^places. */
  datatype Decimal = Decimal(mantissa: int, places: nat)

  function Power10(k: nat): (p: nat)
    ensures p > 0
  {
    if k == 0 then 1 else 10 * Power10(k - 1)
  }

  function Value(d: Decimal): real {
    d.mantissa as real / Power10(d.places) as real
  }

  // ----------------------------------------------------------------- printing

  /** Exactly `width` digits: n modulo 10^width with leading zeros. */
  function Fixed(n: nat, width: nat): (s: string)
    ensures |s| == width && All(s, IsDigit)
  {
    if width == 0 then [] else Fixed(n / 10, width - 1) + [DigitChar(n % 10)]
  }

  /** The %0*d of a number: leading zeros up to the width, and more digits if it needs them. */
  function Pad(n: nat, width: nat): (s: string)
    ensures All(s, IsDigit)
    ensures |s| >= width
  {
    if n < Power10(width) then Fixed(n, width)
    else
      ItoaIsLong(n, width);
      Itoa(n)
  }

  function Quotient(n: nat, p: nat): (q: nat)
    requires p > 0
    ensures q * p + n % p == n
  {
    n / p
  }

  /** n / 10^places with a point, its integer part padded to the width. */
  function WithPoint(n: nat, places: nat, width: nat): string {
    Pad(Quotient(n, Power10(places)), width) + "." + Fixed(n % Power10(places), places)
  }

  function Magnitude(n: int): nat {
    if n < 0 then -n else n
  }

  /** nmeaEmitNumber: FormatFloat of a number in its shortest form. */
  function EmitNumber(d: Decimal): string {
    var n := Magnitude(d.mantissa);
    (if d.mantissa < 0 then "-" else "") + (if d.places == 0 then Itoa(n) else WithPoint(n, d.places, 1))
  }

  // ------------------------------------------------------------------ reading

  predicate Signed(s: string) {
    s != [] && (s[0] == '-' || s[0] == '+')
  }

  function ReadUnsigned(s: string): Option<Decimal> {
    var n := RunLength(s, IsDigit);
    if n == |s| then
      if n == 0 then None
      else
        assert s[..n] == s;
        Some(Decimal(Digits(s), 0))
    else if s[n] != '.' || !AllDigits(s[n + 1..]) || |s| == 1 then None
    else Some(Decimal(Digits(s[..n] + s[n + 1..]), |s| - n - 1))
  }

  /** strconv.ParseFloat on fixed notation: a sign, digits, and at most one point. */
  function ParseDecimal(s: string): Option<Decimal> {
    var d := ReadUnsigned(if Signed(s) then s[1..] else s);
    if d.Some? && s != [] && s[0] == '-' then Some(Decimal(-d.value.mantissa, d.value.places)) else d
  }

  /** parseNMEAFloat: an empty field is absent. */
  function ParseNumber(text: string): Option<Decimal> {
    var trimmed := TrimSpace(text);
    if trimmed == "" then None else ParseDecimal(trimmed)
  }

  // -------------------------------------------------------------- round trips

  lemma {:induction false} ItoaIsLong(n: nat, width: nat)
    requires n >= Power10(width)
    ensures |Itoa(n)| >= width
    decreases width
  {
    if width > 0 {
      ItoaIsLong(n / 10, width - 1);
    }
  }

  lemma {:induction false} DigitsOfFixed(n: nat, width: nat)
    requires n < Power10(width)
    ensures Digits(Fixed(n, width)) == n
  {
    if width > 0 {
      DigitsOfFixed(n / 10, width - 1);
      var s := Fixed(n, width);
      assert s[..|s| - 1] == Fixed(n / 10, width - 1);
    }
  }

  lemma DigitsOfPad(n: nat, width: nat)
    ensures Digits(Pad(n, width)) == n
  {
    if n < Power10(width) { DigitsOfFixed(n, width); } else { DigitsOfItoa(n); }
  }

  /** Digits read one after the other. */
  lemma {:induction false} DigitsConcat(a: string, b: string)
    requires All(a, IsDigit) && All(b, IsDigit)
    ensures All(a + b, IsDigit)
    ensures Digits(a + b) == Digits(a) * Power10(|b|) + Digits(b)
  {
    if b == [] {
      assert a + b == a;
    } else {
      var n := |b| - 1;
      assert (a + b)[..|a + b| - 1] == a + b[..n];
      DigitsConcat(a, b[..n]);
      Shifted(Digits(a), Power10(n), Digits(b[..n]));
    }
  }

  lemma Shifted(x: nat, p: nat, y: nat)
    ensures (x * p + y) * 10 == x * (10 * p) + y * 10
  {
  }

  /** A text of digits around a point reads as its digits. */
  lemma ReadsPoint(a: string, b: string)
    requires (a != [] || b != []) && All(a, IsDigit) && All(b, IsDigit)
    ensures ReadUnsigned(a + "." + b) == Some(Decimal(Digits(a) * Power10(|b|) + Digits(b), |b|))
  {
    hide Digits, Power10;
    var s := a + "." + b;
    assert s[..|a|] == a;
    RunLengthIs(s, IsDigit, |a|);
    assert s[|a| + 1..] == b;
    DigitsConcat(a, b);
  }

  lemma ReadsDigits(a: string)
    requires a != [] && All(a, IsDigit)
    ensures ReadUnsigned(a) == Some(Decimal(Digits(a), 0))
  {
    assert a[..|a|] == a;
    RunLengthIs(a, IsDigit, |a|);
  }

  lemma PointReadsBack(n: nat, places: nat, width: nat)
    requires width > 0
    ensures ReadUnsigned(WithPoint(n, places, width)) == Some(Decimal(n, places))
  {
    hide Digits, Fixed, Pad, ReadUnsigned, Power10;
    var p := Power10(places);
    DigitsOfPad(Quotient(n, p), width);
    DigitsOfFixed(n % p, places);
    ReadsPoint(Pad(Quotient(n, p), width), Fixed(n % p, places));
  }

  /** A text whose characters are signs, digits and points: no white space, no comma. */
  predicate NumberChar(c: char) {
    IsDigit(c) || c == '.' || c == '-'
  }

  lemma DigitsAreNumberChars(s: string)
    requires All(s, IsDigit)
    ensures All(s, NumberChar)
  {
  }

  lemma PointIsNumeric(n: nat, places: nat, width: nat)
    requires width > 0
    ensures All(WithPoint(n, places, width), NumberChar)
    ensures WithPoint(n, places, width) != [] && IsDigit(WithPoint(n, places, width)[0])
  {
    hide Fixed, Pad, Power10;
    var p := Power10(places);
    DigitsAreNumberChars(Pad(Quotient(n, p), width));
    DigitsAreNumberChars(Fixed(n % p, places));
  }

  lemma NumericIsTrimmed(s: string)
    requires All(s, NumberChar)
    ensures TrimSpace(s) == s
  {
    TrimmedStays(s);
  }

  lemma EmittedIsNumeric(d: Decimal)
    ensures EmitNumber(d) != [] && All(EmitNumber(d), NumberChar)
  {
    hide WithPoint, Itoa;
    var n := Magnitude(d.mantissa);
    if d.places > 0 { PointIsNumeric(n, d.places, 1); }
  }

  /** Every written number reads back exactly. */
  lemma NumberReadsBack(d: Decimal)
    ensures ParseNumber(EmitNumber(d)) == Some(d)
  {
    hide TrimSpace, ReadUnsigned, WithPoint, Itoa, Digits;
    var text := EmitNumber(d);
    EmittedIsNumeric(d);
    NumericIsTrimmed(text);
    var n := Magnitude(d.mantissa);
    var bare := if d.places == 0 then Itoa(n) else WithPoint(n, d.places, 1);
    if d.places == 0 {
      ReadsDigits(bare);
      DigitsOfItoa(n);
    } else {
      PointReadsBack(n, d.places, 1);
      PointIsNumeric(n, d.places, 1);
    }
    assert IsDigit(bare[0]);
    if d.mantissa < 0 {
      assert text[1..] == bare;
    } else {
      assert text == bare;
    }
  }

  /** Digits around a point, with a sign or without, are the number they spell. */
  lemma NumberReads(sign: string, a: string, b: string)
    requires sign in {"", "+", "-"} && All(a, IsDigit) && All(b, IsDigit)
    requires a != [] || b != []
    ensures ParseNumber(sign + a + "." + b)
         == var n := Digits(a) * Power10(|b|) + Digits(b); Some(Decimal(if sign == "-" then -n else n, |b|))
  {
    hide Digits, Power10, ReadUnsigned, TrimSpace, ParseDecimal;
    var bare, text := a + "." + b, sign + a + "." + b;
    assert text == sign + bare;
    SignedIsTrimmed(sign, a, b);
    ReadsPoint(a, b);
    assert bare[0] != '-' && bare[0] != '+' by { if a != [] { assert IsDigit(a[0]); } }
    SignIsRead(sign, bare);
  }

  lemma SignIsRead(sign: string, bare: string)
    requires sign in {"", "+", "-"} && bare != [] && bare[0] != '-' && bare[0] != '+'
    requires ReadUnsigned(bare).Some?
    ensures var d := ReadUnsigned(bare).value;
            ParseDecimal(sign + bare) == Some(if sign == "-" then Decimal(-d.mantissa, d.places) else d)
  {
    hide ReadUnsigned;
    var text := sign + bare;
    if sign == "" {
      assert text == bare;
    } else {
      assert text[1..] == bare && text[0] == sign[0];
      assert "+"[0] == '+' && "-"[0] == '-';
    }
  }

  lemma SignedIsTrimmed(sign: string, a: string, b: string)
    requires sign in {"", "+", "-"} && All(a, IsDigit) && All(b, IsDigit)
    ensures TrimSpace(sign + a + "." + b) == sign + a + "." + b
  {
    var text := sign + a + "." + b;
    assert text[|text| - 1] == if b == [] then '.' else b[|b| - 1];
    assert b != [] ==> IsDigit(b[|b| - 1]);
    assert a != [] ==> IsDigit(a[0]);
    TrimmedStays(text);
  }
}
