/** The NMEA-0183 sentence frame: nmeaEmitSentence writes it and parseNMEALine reads it.
    A line is a sequence of bytes, one character each. */
module NmeaFrame {
  import opened Text

  datatype Sentence = Sentence(talker: string, kind: string, fields: seq<string>)

  datatype Error = TooShort | Start | Checksum | Fields

  datatype Parsed = Accepted(sentence: Sentence) | Rejected(error: Error)

  const MIN_LINE := 9
  const MIN_TAG := 5

  predicate NotComma(c: char) {
    c != ','
  }

  // --------------------------------------------------------------- checksum

  ghost predicate IsByte(c: char) {
    c as int < 256
  }

  /** The low byte of a character. */
  function Byte(c: char): (n: nat)
    ensures n < 256
  {
    c as int % 256
  }

  /** Exclusive-or, bit by bit. */
  function XorBits(a: nat, b: nat): nat
    decreases a + b
  {
    if a == 0 && b == 0 then 0 else 2 * XorBits(a / 2, b / 2) + (a + b) % 2
  }

  lemma {:induction false} XorFits(a: nat, b: nat, k: nat)
    requires a < Power2(k) && b < Power2(k)
    ensures XorBits(a, b) < Power2(k)
    decreases k
  {
    if k > 0 {
      XorFits(a / 2, b / 2, k - 1);
    }
  }

  lemma XorOfBytes(a: nat, b: nat)
    requires a < 256 && b < 256
    ensures XorBits(a, b) < 256
  {
    XorFits(a, b, 8);
  }

  /** Exclusive-or with one number keeps different numbers apart. */
  lemma {:induction false} XorApart(x: nat, y: nat, b: nat)
    requires x != y
    ensures XorBits(x, b) != XorBits(y, b)
    ensures XorBits(b, x) != XorBits(b, y)
    decreases x + y + b
  {
    XorUnfolds(x, b);
    XorUnfolds(y, b);
    XorUnfolds(b, x);
    XorUnfolds(b, y);
    hide XorBits;
    if x % 2 == y % 2 {
      assert x / 2 != y / 2;
      XorApart(x / 2, y / 2, b / 2);
    }
  }

  lemma XorUnfolds(a: nat, b: nat)
    ensures XorBits(a, b) == 2 * XorBits(a / 2, b / 2) + (a + b) % 2
  {
  }

  /** The exclusive-or of the bytes of a text. */
  function Xor(body: string): (n: nat)
    ensures n < 256
  {
    if body == [] then 0
    else
      var sum, next := Xor(body[..|body| - 1]), Byte(body[|body| - 1]);
      XorOfBytes(sum, next);
      XorBits(sum, next)
  }

  /** nmeaXOR: the accumulating loop. */
  method ComputeXor(body: string) returns (sum: nat)
    ensures sum == Xor(body)
  {
    sum := 0;
    for i := 0 to |body|
      invariant sum == Xor(body[..i])
    {
      sum := XorBits(sum, Byte(body[i]));
      assert body[..i + 1][..i] == body[..i];
    }
    assert body[..|body|] == body;
  }

  /** One changed byte changes the checksum. */
  lemma {:induction false} XorSeesOneByte(body: string, i: nat, c: char)
    requires i < |body| && IsByte(body[i]) && IsByte(c) && c != body[i]
    ensures Xor(body[i := c]) != Xor(body)
  {
    hide XorBits;
    var n := |body| - 1;
    var other := body[i := c];
    if i == n {
      assert other[..n] == body[..n];
      XorApart(Byte(body[n]), Byte(c), Xor(body[..n]));
    } else {
      assert other[..n] == body[..n][i := c];
      XorSeesOneByte(body[..n], i, c);
      XorApart(Xor(body[..n]), Xor(other[..n]), Byte(body[n]));
    }
  }

  // -------------------------------------------------------------- hexadecimal

  function HexDigit(d: nat): (c: char)
    requires d < 16
    ensures !IsSpace(c) && c != '*'
    ensures HexValue(c) == Some(d)
  {
    if d < 10 then '0' + d as char else 'A' + (d - 10) as char
  }

  function HexValue(c: char): (v: Option<nat>)
    ensures v.Some? ==> v.value < 16
  {
    if '0' <= c <= '9' then Some((c - '0') as nat)
    else if 'a' <= c <= 'f' then Some((c - 'a') as nat + 10)
    else if 'A' <= c <= 'F' then Some((c - 'A') as nat + 10)
    else None
  }

  /** The %02X of a byte. */
  function HexByte(n: nat): string
    requires n < 256
  {
    [HexDigit(n / 16), HexDigit(n % 16)]
  }

  /** strconv.ParseUint of two characters in base 16. */
  function ParseHex(s: string): Option<nat>
    requires |s| == 2
  {
    var high, low := HexValue(s[0]), HexValue(s[1]);
    if high.None? || low.None? then None else Some(high.value * 16 + low.value)
  }

  lemma HexReadsBack(n: nat)
    requires n < 256
    ensures ParseHex(HexByte(n)) == Some(n)
  {
    hide HexDigit, HexValue;
  }

  // --------------------------------------------------------------- the frame

  function EmitSentenceWith(body: string, sum: nat): string
    requires sum < 256
  {
    "$" + body + "*" + HexByte(sum) + "\r\n"
  }

  /** nmeaEmitSentence. */
  function EmitSentence(fields: seq<string>): string {
    var body := Join(fields, ",");
    EmitSentenceWith(body, Xor(body))
  }

  function ReadFields(body: string): Parsed {
    var fields := SplitBy(body, NotComma);
    if |fields| < 2 then Rejected(Fields)
    else if |fields[0]| < MIN_TAG then Rejected(Fields)
    else
      var tag := fields[0];
      Accepted(Sentence(ToUpper(tag[..|tag| - 3]), ToUpper(tag[|tag| - 3..]), fields))
  }

  function ReadTrimmed(text: string): Parsed {
    if |text| < MIN_LINE then Rejected(TooShort)
    else if text[0] != '$' && text[0] != '!' then Rejected(Start)
    else
      var star := LastIndex(text, '*');
      if star < 0 || |text| - star - 1 != 2 then Rejected(Checksum)
      else
        var body := text[1..star];
        var want := ParseHex(text[star + 1..]);
        if want.None? || Xor(body) != want.value then Rejected(Checksum)
        else ReadFields(body)
  }

  /** parseNMEALine. */
  function ParseLine(line: string): Parsed {
    ReadTrimmed(TrimSpace(line))
  }

  // ------------------------------------------------------------ round trips

  lemma LastIndexIs(s: string, c: char, k: nat)
    requires k < |s| && s[k] == c
    requires forall j :: k < j < |s| ==> s[j] != c
    ensures LastIndex(s, c) == k
  {
    hide LastIndex;
    var i := LastIndex(s, c);
    assert i >= k;
  }

  lemma TrimRightStep(a: string, c: char)
    requires IsSpace(c)
    ensures TrimRight(a + [c]) == TrimRight(a)
  {
    hide IsSpace;
    assert (a + [c])[..|a|] == a;
  }

  /** A line terminator after a trimmed text is trimmed away. */
  lemma TerminatorTrimmed(a: string)
    requires a != [] && Trimmed(a)
    ensures TrimSpace(a + "\r\n") == a
  {
    var line := a + "\r\n";
    assert line[0] == a[0];
    RunLengthIs(line, IsSpace, 0);
    assert line[0..] == line;
    hide IsSpace, RunLength;
    assert line == (a + ['\r']) + ['\n'];
    TrimRightStep(a + ['\r'], '\n');
    TrimRightStep(a, '\r');
  }

  /** What the parser makes of a framed body, whatever checksum follows it. */
  lemma FramedBody(body: string, sum: nat)
    requires |body| >= MIN_TAG && sum < 256
    ensures ParseLine(EmitSentenceWith(body, sum))
         == if Xor(body) == sum then ReadFields(body) else Rejected(Checksum)
  {
    hide TrimSpace, LastIndex, ReadFields, Xor, HexDigit, ParseHex, IsSpace;
    var hex := HexByte(sum);
    var text := "$" + body + "*" + hex;
    assert EmitSentenceWith(body, sum) == text + "\r\n";
    assert !IsSpace('$') by { NotSpaceDollar(); }
    assert text[|text| - 1] == hex[1];
    TerminatorTrimmed(text);
    var star := |body| + 1;
    LastIndexIs(text, '*', star);
    assert text[1..star] == body;
    assert text[star + 1..] == hex;
    HexReadsBack(sum);
  }

  lemma NotSpaceDollar()
    ensures !IsSpace('$')
  {
  }

  /** What parseNMEALine should make of a list of fields. */
  ghost predicate Framable(fields: seq<string>) {
    && |fields| >= 2
    && |fields[0]| >= MIN_TAG
    && forall i :: 0 <= i < |fields| ==> All(fields[i], NotComma)
  }

  lemma JoinHasTag(fields: seq<string>)
    requires Framable(fields)
    ensures |Join(fields, ",")| >= MIN_TAG
  {
  }

  /** Every emitted sentence parses back to exactly its fields. */
  lemma SentenceReadsBack(fields: seq<string>)
    requires Framable(fields)
    ensures ParseLine(EmitSentence(fields)).Accepted?
    ensures ParseLine(EmitSentence(fields)).sentence.fields == fields
    ensures ParseLine(EmitSentence(fields)).sentence.kind == ToUpper(fields[0][|fields[0]| - 3..])
    ensures ParseLine(EmitSentence(fields)).sentence.talker == ToUpper(fields[0][..|fields[0]| - 3])
  {
    hide ParseLine, EmitSentenceWith, Xor, SplitBy, Join;
    var body := Join(fields, ",");
    JoinHasTag(fields);
    FramedBody(body, Xor(body));
    SplitOfJoin(fields, ',', NotComma);
  }

  /** Changing any one byte of the body to another byte makes the parser refuse the line. */
  lemma OneWrongByteIsRefused(fields: seq<string>, i: nat, c: char)
    requires Framable(fields) && i < |Join(fields, ",")|
    requires IsByte(Join(fields, ",")[i]) && IsByte(c) && c != Join(fields, ",")[i]
    ensures ParseLine(EmitSentence(fields)[i + 1 := c]) == Rejected(Checksum)
  {
    hide ParseLine, Xor, HexByte, Join;
    var body := Join(fields, ",");
    JoinHasTag(fields);
    assert EmitSentence(fields)[i + 1 := c] == EmitSentenceWith(body[i := c], Xor(body));
    XorSeesOneByte(body, i, c);
    FramedBody(body[i := c], Xor(body));
  }

  /** Whatever line was accepted, writing its fields out again is read as the same sentence. */
  lemma AcceptedIsWrittenAgain(line: string)
    requires ParseLine(line).Accepted?
    ensures ParseLine(EmitSentence(ParseLine(line).sentence.fields)) == ParseLine(line)
  {
    hide TrimSpace, EmitSentence, Xor, SplitBy, HexValue, LastIndex;
    var text := TrimSpace(line);
    var body := text[1..LastIndex(text, '*')];
    assert ParseLine(line) == ReadFields(body);
    var fields := SplitBy(body, NotComma);
    PiecesAreKept(body, NotComma);
    assert Framable(fields);
    hide ParseLine;
    SentenceReadsBack(fields);
  }

  // ------------------------------------------------- what the checksum counts

  ghost function Bit(n: nat, k: nat): nat {
    n / Power2(k) % 2
  }

  /** How many characters of the text have the bit set. */
  ghost function Ones(body: string, k: nat): nat {
    if body == [] then 0 else Ones(body[..|body| - 1], k) + Bit(Byte(body[|body| - 1]), k)
  }

  lemma BitBelow(n: nat, k: nat)
    requires k > 0
    ensures Bit(n, k) == Bit(n / 2, k - 1)
  {
    var p := Power2(k - 1);
    Halves(n, p);
  }

  lemma Halves(n: nat, p: nat)
    requires p > 0
    ensures n / (2 * p) == n / 2 / p
  {
    var q := n / 2 / p;
    var r := n / 2 % p;
    assert n / 2 == q * p + r;
    assert n == 2 * (n / 2) + n % 2;
    assert n == q * (2 * p) + (2 * r + n % 2);
    Quotients(n, q, 2 * p, 2 * r + n % 2);
  }

  lemma Quotients(n: nat, q: nat, p: nat, r: nat)
    requires n == q * p + r && r < p
    ensures n / p == q
  {
    var d := n / p - q;
    assert d * p == r - n % p;
    assert d >= 1 ==> d * p >= p;
    assert d <= -1 ==> d * p <= -1 * p;
  }

  lemma {:induction false} XorBit(a: nat, b: nat, k: nat)
    ensures Bit(XorBits(a, b), k) == (Bit(a, k) + Bit(b, k)) % 2
    decreases k
  {
    hide Bit, XorBits;
    XorUnfolds(a, b);
    LowBit(XorBits(a / 2, b / 2), a, b);
    if k > 0 {
      XorBit(a / 2, b / 2, k - 1);
      BitBelow(a, k);
      BitBelow(b, k);
      BitBelow(XorBits(a, b), k);
    } else {
      FirstBit(a);
      FirstBit(b);
      FirstBit(XorBits(a, b));
    }
  }

  lemma FirstBit(n: nat)
    ensures Bit(n, 0) == n % 2
  {
    assert Power2(0) == 1;
  }

  lemma LowBit(y: nat, a: nat, b: nat)
    ensures (2 * y + (a + b) % 2) / 2 == y
    ensures (2 * y + (a + b) % 2) % 2 == (a % 2 + b % 2) % 2
  {
  }

  /** Every bit of the checksum says whether an odd number of bytes have it set. */
  lemma {:induction false} XorIsParity(body: string, k: nat)
    ensures Bit(Xor(body), k) == Ones(body, k) % 2
  {
    NoBits(k);
    hide Bit, XorBits, Byte;
    if body != [] {
      var n := |body| - 1;
      XorIsParity(body[..n], k);
      XorBit(Xor(body[..n]), Byte(body[n]), k);
    }
  }

  lemma NoBits(k: nat)
    ensures Bit(0, k) == 0
  {
    assert 0 / Power2(k) == 0;
  }

  // ---------------------------------------------------- what a frame looks like

  const CAPITALS := "0123456789ABCDEF"
  const SMALLS := "0123456789abcdef"

  /** Hexadecimal is written in capitals and read in either case. */
  lemma HexDigits(d: nat)
    requires d < 16
    ensures HexDigit(d) == CAPITALS[d]
    ensures forall c :: HexValue(c) == Some(d) <==> c == CAPITALS[d] || c == SMALLS[d]
  {
  }

  /** A line that starts with a dollar or an exclamation mark and ends with a star and two
      hexadecimal digits is accepted exactly when the digits are the checksum of what stands
      between, and that is at least two fields, the first of five characters or more. */
  lemma FrameReads(start: char, body: string, high: nat, low: nat, h: char, l: char, end: string)
    requires (start == '$' || start == '!') && (end == "" || end == "\r\n")
    requires high < 16 && low < 16
    requires h in [CAPITALS[high], SMALLS[high]] && l in [CAPITALS[low], SMALLS[low]]
    ensures var r, fields := ParseLine([start] + body + "*" + [h, l] + end), SplitBy(body, NotComma);
            && (r.Accepted? <==> Xor(body) == high * 16 + low && |fields| >= 2 && |fields[0]| >= 5)
            && (r.Accepted? ==> r.sentence.fields == fields)
  {
    hide TrimSpace, LastIndex, Xor, SplitBy, HexValue, IsSpace;
    HexDigits(high);
    HexDigits(low);
    var text := [start] + body + "*" + [h, l];
    HexIsPlain(h, high);
    HexIsPlain(l, low);
    assert !IsSpace(start) by { StartIsPlain(); }
    if end == "" { assert text + end == text; TrimmedStays(text); } else { TerminatorTrimmed(text); }
    var star := |body| + 1;
    LastIndexIs(text, '*', star);
    assert text[1..star] == body;
    assert text[star + 1..] == [h, l];
    ShortTag(body);
  }

  lemma HexIsPlain(c: char, d: nat)
    requires HexValue(c) == Some(d)
    ensures !IsSpace(c) && c != '*'
  {
  }

  lemma StartIsPlain()
    ensures !IsSpace('$') && !IsSpace('!')
  {
  }

  lemma ShortTag(body: string)
    ensures |SplitBy(body, NotComma)| > 0
    ensures |SplitBy(body, NotComma)[0]| <= |body|
  {
  }
}
