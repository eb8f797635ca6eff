/** The bidirectional Morse translator (bot/morse.go). */
module Morse {
  import opened Text

  // --------------------------------------------------------------- the table

  /** The code of a character, empty for one the table does not carry. */
  function Code(c: char): string {
    match c
    case 'A' => ".-" case 'B' => "-..." case 'C' => "-.-." case 'D' => "-.."
    case 'E' => "." case 'F' => "..-." case 'G' => "--." case 'H' => "...."
    case 'I' => ".." case 'J' => ".---" case 'K' => "-.-" case 'L' => ".-.."
    case 'M' => "--" case 'N' => "-." case 'O' => "---" case 'P' => ".--."
    case 'Q' => "--.-" case 'R' => ".-." case 'S' => "..." case 'T' => "-"
    case 'U' => "..-" case 'V' => "...-" case 'W' => ".--" case 'X' => "-..-"
    case 'Y' => "-.--" case 'Z' => "--.." case '0' => "-----" case '1' => ".----"
    case '2' => "..---" case '3' => "...--" case '4' => "....-" case '5' => "....."
    case '6' => "-...." case '7' => "--..." case '8' => "---.." case '9' => "----."
    case '.' => ".-.-.-" case ',' => "--..--" case '?' => "..--.." case '\'' => ".----."
    case '!' => "-.-.--" case '/' => "-..-." case '(' => "-.--." case ')' => "-.--.-"
    case '&' => ".-..." case ':' => "---..." case ';' => "-.-.-." case '=' => "-...-"
    case '+' => ".-.-." case '-' => "-....-" case '_' => "..--.-" case '\"' => ".-..-."
    case '$' => "...-..-" case '@' => ".--.-."
    case _ => ""
  }

  predicate Known(c: char) {
    Code(c) != ""
  }

  /** A code read as a binary number behind a leading one: dots 0, dashes 1. */
  function Number(code: string, i: nat, acc: nat): nat
    requires i <= |code|
    decreases |code| - i
  {
    if i == |code| then acc else Number(code, i + 1, 2 * acc + (if code[i] == '-' then 1 else 0))
  }

  /** The numbers of the codes in the table. */
  function NumberOf(c: char): nat {
    match c
    case 'A' => 5 case 'B' => 24 case 'C' => 26 case 'D' => 12 case 'E' => 2 case 'F' => 18
    case 'G' => 14 case 'H' => 16 case 'I' => 4 case 'J' => 23 case 'K' => 13 case 'L' => 20
    case 'M' => 7 case 'N' => 6 case 'O' => 15 case 'P' => 22 case 'Q' => 29 case 'R' => 10
    case 'S' => 8 case 'T' => 3 case 'U' => 9 case 'V' => 17 case 'W' => 11 case 'X' => 25
    case 'Y' => 27 case 'Z' => 28 case '0' => 63 case '1' => 47 case '2' => 39 case '3' => 35
    case '4' => 33 case '5' => 32 case '6' => 48 case '7' => 56 case '8' => 60 case '9' => 62
    case '.' => 85 case ',' => 115 case '?' => 76 case '\'' => 94 case '!' => 107 case '/' => 50
    case '(' => 54 case ')' => 109 case '&' => 40 case ':' => 120 case ';' => 106 case '=' => 49
    case '+' => 42 case '-' => 97 case '_' => 77 case '\"' => 82 case '$' => 137 case '@' => 90
    case _ => 1
  }

  function OfNumber(n: nat): char {
    match n
    case 5 => 'A' case 24 => 'B' case 26 => 'C' case 12 => 'D' case 2 => 'E' case 18 => 'F'
    case 14 => 'G' case 16 => 'H' case 4 => 'I' case 23 => 'J' case 13 => 'K' case 20 => 'L'
    case 7 => 'M' case 6 => 'N' case 15 => 'O' case 22 => 'P' case 29 => 'Q' case 10 => 'R'
    case 8 => 'S' case 3 => 'T' case 9 => 'U' case 17 => 'V' case 11 => 'W' case 25 => 'X'
    case 27 => 'Y' case 28 => 'Z' case 63 => '0' case 47 => '1' case 39 => '2' case 35 => '3'
    case 33 => '4' case 32 => '5' case 48 => '6' case 56 => '7' case 60 => '8' case 62 => '9'
    case 85 => '.' case 115 => ',' case 76 => '?' case 94 => '\'' case 107 => '!' case 50 => '/'
    case 54 => '(' case 109 => ')' case 40 => '&' case 120 => ':' case 106 => ';' case 49 => '='
    case 42 => '+' case 97 => '-' case 77 => '_' case 82 => '\"' case 137 => '$' case 90 => '@'
    case _ => ' '
  }

  lemma Numbers1()
    ensures Number(".-", 0, 1) == 5
    ensures Number("-...", 0, 1) == 24
    ensures Number("-.-.", 0, 1) == 26
    ensures Number("-..", 0, 1) == 12
    ensures Number(".", 0, 1) == 2
    ensures Number("..-.", 0, 1) == 18
    ensures Number("--.", 0, 1) == 14
    ensures Number("....", 0, 1) == 16
    ensures Number("..", 0, 1) == 4
    ensures Number(".---", 0, 1) == 23
    ensures Number("-.-", 0, 1) == 13
    ensures Number(".-..", 0, 1) == 20
    ensures Number("--", 0, 1) == 7
    ensures Number("-.", 0, 1) == 6
  {
  }

  lemma Numbers2()
    ensures Number("---", 0, 1) == 15
    ensures Number(".--.", 0, 1) == 22
    ensures Number("--.-", 0, 1) == 29
    ensures Number(".-.", 0, 1) == 10
    ensures Number("...", 0, 1) == 8
    ensures Number("-", 0, 1) == 3
    ensures Number("..-", 0, 1) == 9
    ensures Number("...-", 0, 1) == 17
    ensures Number(".--", 0, 1) == 11
    ensures Number("-..-", 0, 1) == 25
    ensures Number("-.--", 0, 1) == 27
    ensures Number("--..", 0, 1) == 28
  {
  }

  lemma Numbers3()
    ensures Number("-----", 0, 1) == 63
    ensures Number(".----", 0, 1) == 47
    ensures Number("..---", 0, 1) == 39
    ensures Number("...--", 0, 1) == 35
    ensures Number("....-", 0, 1) == 33
  {
  }

  lemma Numbers4()
    ensures Number(".....", 0, 1) == 32
    ensures Number("-....", 0, 1) == 48
    ensures Number("--...", 0, 1) == 56
    ensures Number("---..", 0, 1) == 60
    ensures Number("----.", 0, 1) == 62
  {
  }

  lemma Numbers5()
    ensures Number(".-.-.-", 0, 1) == 85
    ensures Number("--..--", 0, 1) == 115
    ensures Number("..--..", 0, 1) == 76
    ensures Number(".----.", 0, 1) == 94
  {
  }

  lemma Numbers6()
    ensures Number("-.-.--", 0, 1) == 107
    ensures Number("-..-.", 0, 1) == 50
    ensures Number("-.--.", 0, 1) == 54
    ensures Number("-.--.-", 0, 1) == 109
  {
  }

  lemma Numbers7()
    ensures Number(".-...", 0, 1) == 40
    ensures Number("---...", 0, 1) == 120
    ensures Number("-.-.-.", 0, 1) == 106
  {
  }

  lemma Numbers8()
    ensures Number("-...-", 0, 1) == 49
    ensures Number(".-.-.", 0, 1) == 42
    ensures Number("-....-", 0, 1) == 97
    ensures Number("..--.-", 0, 1) == 77
  {
  }

  lemma Numbers9()
    ensures Number(".-..-.", 0, 1) == 82
    ensures Number("...-..-", 0, 1) == 137
    ensures Number(".--.-.", 0, 1) == 90
  {
  }

  lemma CodeNumber(c: char)
    requires Known(c)
    ensures Number(Code(c), 0, 1) == NumberOf(c)
  {
    hide Number;
    Numbers1();
    Numbers2();
    Numbers3();
    Numbers4();
    Numbers5();
    Numbers6();
    Numbers7();
    Numbers8();
    Numbers9();
  }

  lemma NumberIsUnique(c: char)
    requires Known(c)
    ensures OfNumber(NumberOf(c)) == c
  {
  }

  /** No two characters share a code. */
  lemma CodesAreUnique(c: char, d: char)
    requires Known(c) && Code(c) == Code(d)
    ensures c == d
  {
    hide Code, Number, NumberOf, OfNumber;
    CodeNumber(c);
    CodeNumber(d);
    NumberIsUnique(c);
    NumberIsUnique(d);
  }

  /** The reverse table, built from the alphabet. */
  function Letter(code: string): Option<char> {
    var c := OfNumber(Number(code, 0, 1));
    if code != "" && Code(c) == code then Some(c) else None
  }

  /** The two tables never disagree. */
  lemma TablesAgree(code: string, c: char)
    ensures Letter(code) == Some(c) <==> code != "" && Code(c) == code
  {
    hide Number, OfNumber, NumberOf, Code;
    if code != "" && Code(c) == code {
      CodeNumber(c);
      NumberIsUnique(c);
    }
  }

  // ---------------------------------------------------------- both directions

  datatype Result =
    | Translated(text: string)
    | NothingToTranslate
    | Unsupported(c: char)
    | UnknownCode(code: string)

  /** The codes of a word, or the first character without one. */
  datatype Letters = Codes(codes: seq<string>) | Missing(c: char)

  function EncodeWord(word: string): Letters {
    if word == [] then Codes([])
    else
      var first := EncodeWord(word[..|word| - 1]);
      if first.Missing? then first
      else if Known(word[|word| - 1]) then Codes(first.codes + [Code(word[|word| - 1])])
      else Missing(word[|word| - 1])
  }

  /** The encoded words so far, or the first character without a code. */
  datatype Words = Encoded(words: seq<string>) | Failed(c: char)

  function EncodeWords(words: seq<string>): Words {
    if words == [] then Encoded([])
    else
      var first := EncodeWords(words[..|words| - 1]);
      if first.Failed? then first
      else
        var last := EncodeWord(ToUpper(words[|words| - 1]));
        if last.Missing? then Failed(last.c) else Encoded(first.words + [Join(last.codes, " ")])
  }

  function Encode(text: string): Result {
    var words := Fields(text);
    if words == [] then NothingToTranslate
    else
      var r := EncodeWords(words);
      if r.Failed? then Unsupported(r.c) else Translated(Join(r.words, " / "))
  }

  /** EncodeMorse. */
  method EncodeMorse(text: string) returns (r: Result)
    ensures r == Encode(text)
  {
    hide Runs, Code, Join;
    var words := Fields(text);
    if |words| == 0 {
      return NothingToTranslate;
    }
    var encoded: seq<string> := [];
    for i := 0 to |words|
      invariant EncodeWords(words[..i]) == Encoded(encoded)
    {
      assert words[..i + 1][..i] == words[..i];
      var word := ToUpper(words[i]);
      var letters: seq<string> := [];
      for j := 0 to |word|
        invariant EncodeWord(word[..j]) == Codes(letters)
      {
        assert word[..j + 1][..j] == word[..j];
        if !Known(word[j]) {
          MissingStays(word, j + 1);
          FailedStays(words, i + 1);
          return Unsupported(word[j]);
        }
        letters := letters + [Code(word[j])];
      }
      assert word[..|word|] == word;
      encoded := encoded + [Join(letters, " ")];
    }
    assert words[..|words|] == words;
    return Translated(Join(encoded, " / "));
  }

  lemma {:induction false} MissingStays(word: string, n: nat)
    requires n <= |word| && EncodeWord(word[..n]).Missing?
    ensures EncodeWord(word) == EncodeWord(word[..n])
  {
    if n == |word| {
      assert word[..n] == word;
    } else {
      assert word[..|word| - 1][..n] == word[..n];
      MissingStays(word[..|word| - 1], n);
    }
  }

  lemma {:induction false} FailedStays(words: seq<string>, n: nat)
    requires n <= |words| && EncodeWords(words[..n]).Failed?
    ensures EncodeWords(words) == EncodeWords(words[..n])
  {
    if n == |words| {
      assert words[..n] == words;
    } else {
      assert words[..|words| - 1][..n] == words[..n];
      FailedStays(words[..|words| - 1], n);
    }
  }

  /** strings.ReplaceAll of three spaces by a word break. */
  function BreakTripleSpaces(s: string): string {
    if |s| >= 3 && s[..3] == "   " then " / " + BreakTripleSpaces(s[3..])
    else if s == [] then []
    else [s[0]] + BreakTripleSpaces(s[1..])
  }

  predicate NotSlash(c: char) {
    c != '/'
  }

  function SplitSlash(s: string): seq<string> {
    SplitBy(s, NotSlash)
  }

  /** The text of a word's codes, or the first that is no code. */
  datatype Word = Text(text: string) | Unknown(code: string)

  function DecodeWord(codes: seq<string>): Word {
    if codes == [] then Text("")
    else
      var first := DecodeWord(codes[..|codes| - 1]);
      if first.Unknown? then first
      else
        var c := Letter(codes[|codes| - 1]);
        if c.Some? then Text(first.text + [c.value]) else Unknown(codes[|codes| - 1])
  }

  datatype Decoded = Texts(words: seq<string>) | Bad(code: string)

  function DecodeWords(pieces: seq<string>): Decoded {
    if pieces == [] then Texts([])
    else
      var first := DecodeWords(pieces[..|pieces| - 1]);
      var codes := Fields(pieces[|pieces| - 1]);
      if first.Bad? || codes == [] then first
      else
        var last := DecodeWord(codes);
        if last.Unknown? then Bad(last.code) else Texts(first.words + [last.text])
  }

  function Decode(code: string): Result {
    var r := DecodeWords(SplitSlash(BreakTripleSpaces(TrimSpace(code))));
    if r.Bad? then UnknownCode(r.code)
    else if r.words == [] then NothingToTranslate
    else Translated(Join(r.words, " "))
  }

  /** DecodeMorse. */
  method DecodeMorse(code: string) returns (r: Result)
    ensures r == Decode(code)
  {
    hide Runs, RunLength, Letter, Join, SplitSlash, BreakTripleSpaces;
    var pieces := SplitSlash(BreakTripleSpaces(TrimSpace(code)));
    var decoded: seq<string> := [];
    for i := 0 to |pieces|
      invariant DecodeWords(pieces[..i]) == Texts(decoded)
    {
      assert pieces[..i + 1][..i] == pieces[..i];
      var letters := Fields(pieces[i]);
      if |letters| == 0 {
        continue;
      }
      var b: string := [];
      for j := 0 to |letters|
        invariant DecodeWord(letters[..j]) == Text(b)
      {
        assert letters[..j + 1][..j] == letters[..j];
        var c := Letter(letters[j]);
        if c.None? {
          UnknownStays(letters, j + 1);
          BadStays(pieces, i + 1);
          return UnknownCode(letters[j]);
        }
        b := b + [c.value];
      }
      assert letters[..|letters|] == letters;
      decoded := decoded + [b];
    }
    assert pieces[..|pieces|] == pieces;
    if |decoded| == 0 {
      return NothingToTranslate;
    }
    return Translated(Join(decoded, " "));
  }

  lemma {:induction false} UnknownStays(codes: seq<string>, n: nat)
    requires n <= |codes| && DecodeWord(codes[..n]).Unknown?
    ensures DecodeWord(codes) == DecodeWord(codes[..n])
  {
    if n == |codes| {
      assert codes[..n] == codes;
    } else {
      assert codes[..|codes| - 1][..n] == codes[..n];
      UnknownStays(codes[..|codes| - 1], n);
    }
  }

  lemma {:induction false} BadStays(pieces: seq<string>, n: nat)
    requires n <= |pieces| && DecodeWords(pieces[..n]).Bad?
    ensures DecodeWords(pieces) == DecodeWords(pieces[..n])
  {
    if n == |pieces| {
      assert pieces[..n] == pieces;
    } else {
      assert pieces[..|pieces| - 1][..n] == pieces[..n];
      BadStays(pieces[..|pieces| - 1], n);
    }
  }

  // ------------------------------------------------------ decoding undoes encoding

  predicate IsMark(c: char) {
    c == '.' || c == '-'
  }

  lemma CodeIsMarks(c: char)
    ensures All(Code(c), IsMark)
  {
  }

  /** The codes of an encoded word are words of marks, and decode to the word. */
  lemma {:induction false} WordComesBack(word: string)
    requires EncodeWord(word).Codes?
    ensures var codes := EncodeWord(word).codes;
            && |codes| == |word|
            && (forall i :: 0 <= i < |codes| ==> codes[i] != [] && All(codes[i], IsMark))
            && DecodeWord(codes) == Text(word)
  {
    hide Code, Letter;
    if word != [] {
      var n := |word| - 1;
      WordComesBack(word[..n]);
      var first := EncodeWord(word[..n]).codes;
      CodeIsMarks(word[n]);
      TablesAgree(Code(word[n]), word[n]);
      assert (first + [Code(word[n])])[..n] == first;
      assert word[..n] + [word[n]] == word;
    }
  }

  /** No two neighbouring spaces. */
  ghost predicate SingleSpaced(s: string) {
    forall i :: 0 <= i < |s| - 1 ==> s[i] != ' ' || s[i + 1] != ' '
  }

  /** The text of one encoded word: no slash, no space at the ends, none doubled. */
  ghost predicate WordText(s: string) {
    s != [] && All(s, NotSlash) && Trimmed(s) && SingleSpaced(s)
  }

  lemma JoinTight(a: string, sep: string, b: string)
    requires a != [] && b != [] && Trimmed(a) && Trimmed(b) && SingleSpaced(a) && SingleSpaced(b)
    requires sep == " " || sep == " / "
    ensures Trimmed(a + sep + b) && SingleSpaced(a + sep + b)
  {
    hide IsSpace;
    assert IsSpace(' ') by { SpaceIsSpace(); }
  }

  lemma SpaceIsSpace()
    ensures IsSpace(' ')
  {
  }

  lemma MarksAreTight(code: string)
    requires code != [] && All(code, IsMark)
    ensures WordText(code) && IsWord(code)
  {
    forall i | 0 <= i < |code| ensures code[i] != ' ' && NotSlash(code[i]) && NotSpace(code[i]) {
      assert IsMark(code[i]);
    }
  }

  lemma {:induction false} JoinedCodes(codes: seq<string>)
    requires codes != [] && forall i :: 0 <= i < |codes| ==> codes[i] != [] && All(codes[i], IsMark)
    ensures WordText(Join(codes, " "))
    ensures Fields(Join(codes, " ")) == codes
  {
    forall i | 0 <= i < |codes| ensures IsWord(codes[i]) && WordText(codes[i]) { MarksAreTight(codes[i]); }
    FieldsOfJoin(codes);
    hide Fields, IsMark;
    if |codes| > 1 {
      JoinedCodes(codes[1..]);
      JoinTight(codes[0], " ", Join(codes[1..], " "));
    }
  }

  lemma {:induction false} JoinedWords(words: seq<string>)
    requires words != [] && forall i :: 0 <= i < |words| ==> WordText(words[i])
    ensures var s := Join(words, " / "); s != [] && Trimmed(s) && SingleSpaced(s)
  {
    if |words| > 1 {
      JoinedWords(words[1..]);
      JoinTight(words[0], " / ", Join(words[1..], " / "));
    }
  }

  lemma {:induction false} NothingToBreak(s: string)
    requires SingleSpaced(s)
    ensures BreakTripleSpaces(s) == s
  {
    if s != [] {
      NothingToBreak(s[1..]);
      assert |s| >= 3 ==> s[..3][0] == s[0] && s[..3][1] == s[1];
    }
  }

  /** Splitting the joined words at slashes gives each word back, give or take spaces. */
  lemma {:induction false} PiecesAreTheWords(lead: string, words: seq<string>)
    requires lead == "" || lead == " "
    requires words != [] && forall i :: 0 <= i < |words| ==> WordText(words[i])
    ensures var pieces := SplitSlash(lead + Join(words, " / "));
            |pieces| == |words| && forall i :: 0 <= i < |words| ==> Fields(pieces[i]) == Fields(words[i])
    decreases |words|
  {
    hide Runs, Fields, Trimmed, SingleSpaced, SplitBy;
    var w := words[0];
    if |words| == 1 {
      WholePiece(lead + w, NotSlash);
      PaddedFields(lead, w, "");
      assert lead + w + "" == lead + w;
    } else {
      PiecesAreTheWords(" ", words[1..]);
      OnePieceMore(lead, w, Join(words[1..], " / "));
      PaddedFields(lead, w, " ");
      forall i | 1 <= i < |words| ensures words[i] == words[1..][i - 1] {
      }
    }
  }

  lemma OnePieceMore(lead: string, w: string, rest: string)
    requires (lead == "" || lead == " ") && All(w, NotSlash)
    ensures SplitSlash(lead + (w + " / " + rest)) == [lead + w + " "] + SplitSlash(" " + rest)
  {
    hide SplitBy;
    assert lead + (w + " / " + rest) == (lead + w + " ") + ("/" + (" " + rest));
    FirstPiece(lead + w + " ", '/', " " + rest, NotSlash);
  }

  lemma PaddedFields(lead: string, w: string, tail: string)
    requires (lead == "" || lead == " ") && (tail == "" || tail == " ")
    ensures Fields(lead + w + tail) == Fields(w)
  {
    RunsConcat(lead + w, tail, NotSpace);
    RunsConcat(lead, w, NotSpace);
    NoRuns(lead, NotSpace);
    NoRuns(tail, NotSpace);
  }

  /** Pieces whose codes are those of the given words decode to the words. */
  lemma {:induction false} PiecesDecode(pieces: seq<string>, words: seq<string>)
    requires |pieces| == |words|
    requires forall i :: 0 <= i < |words| ==> Fields(pieces[i]) != [] && DecodeWord(Fields(pieces[i])) == Text(words[i])
    ensures DecodeWords(pieces) == Texts(words)
  {
    hide Fields, DecodeWord;
    if pieces != [] {
      var n := |pieces| - 1;
      PiecesDecode(pieces[..n], words[..n]);
      assert words == words[..n] + [words[n]];
    }
  }

  /** An encoded word list is one tight text per word, whose codes decode to the word. */
  lemma {:induction false} EncodedShape(words: seq<string>)
    requires AreWords(words) && EncodeWords(words).Encoded?
    ensures var enc := EncodeWords(words).words;
            && |enc| == |words|
            && forall i :: 0 <= i < |words| ==> ComesBack(enc[i], ToUpper(words[i]))
  {
    hide EncodeWord, Join, ComesBack;
    if words != [] {
      var n := |words| - 1;
      EncodedShape(words[..n]);
      OneWordComesBack(ToUpper(words[n]));
    }
  }

  /** The text of an encoded word splits into codes that decode to the word. */
  ghost predicate ComesBack(enc: string, word: string) {
    WordText(enc) && Fields(enc) != [] && DecodeWord(Fields(enc)) == Text(word)
  }

  lemma OneWordComesBack(word: string)
    requires word != [] && EncodeWord(word).Codes?
    ensures ComesBack(Join(EncodeWord(word).codes, " "), word)
  {
    hide EncodeWord, DecodeWord, Join, WordText, Fields;
    WordComesBack(word);
    JoinedCodes(EncodeWord(word).codes);
  }

  /** Every text the translator accepts comes back in upper case, its words joined by
      single spaces. */
  lemma DecodeUndoesEncode(text: string)
    requires Encode(text).Translated?
    ensures Decode(Encode(text).text) == Translated(Join(UpperAll(Fields(text)), " "))
  {
    hide EncodeWords, DecodeWords, Join, Fields, SplitSlash, BreakTripleSpaces, TrimSpace, DecodeWord, WordText;
    var words := Fields(text);
    FieldsAreWords(text);
    EncodedShape(words);
    var enc := EncodeWords(words).words;
    var code := Join(enc, " / ");
    JoinedWords(enc);
    TrimmedStays(code);
    NothingToBreak(code);
    PiecesAreTheWords("", enc);
    assert "" + code == code;
    PiecesDecode(SplitSlash(code), UpperAll(words));
  }

  /** Three spaces after a word are a word break. */
  lemma {:induction false} BreaksAfter(word: string, rest: string)
    requires word == [] || word[|word| - 1] != ' '
    requires SingleSpaced(word)
    ensures BreakTripleSpaces(word + "   " + rest) == word + " / " + BreakTripleSpaces(rest)
  {
    var s := word + "   " + rest;
    if word == [] {
      assert s[..3] == "   " && s[3..] == rest;
    } else {
      BreaksAfter(word[1..], rest);
      assert s[1..] == word[1..] + "   " + rest;
      assert s[..3][0] == s[0] && s[..3][1] == s[1];
      assert "   "[0] == ' ' && "   "[1] == ' ';
    }
  }

  lemma SpacedWord(word: string)
    requires WordText(word)
    ensures word[0] != ' ' && word[|word| - 1] != ' ' && SingleSpaced(word)
  {
    SpaceIsSpace();
    hide IsSpace;
  }

  /** A list of words with three spaces between them is broken like one with slashes. */
  lemma {:induction false} SpacedIsSlashed(words: seq<string>)
    requires words != [] && forall i :: 0 <= i < |words| ==> WordText(words[i])
    ensures Trimmed(Join(words, "   ")) && Join(words, "   ") != []
    ensures BreakTripleSpaces(Join(words, "   ")) == Join(words, " / ")
  {
    SpacedWord(words[0]);
    if |words| == 1 {
      NothingToBreak(words[0]);
    } else {
      SpacedIsSlashed(words[1..]);
      hide BreakTripleSpaces, SingleSpaced, IsSpace;
      BreaksAfter(words[0], Join(words[1..], "   "));
    }
  }

  /** Encoded words written with three spaces between them, as by ear, decode as well. */
  lemma SpacedWordsComeBack(text: string)
    requires Encode(text).Translated?
    ensures EncodeWords(Fields(text)).Encoded?
    ensures Decode(Join(EncodeWords(Fields(text)).words, "   ")) == Translated(Join(UpperAll(Fields(text)), " "))
  {
    hide EncodeWords, DecodeWords, Join, Fields, SplitSlash, BreakTripleSpaces, TrimSpace, DecodeWord, WordText;
    DecodeUndoesEncode(text);
    var words := Fields(text);
    FieldsAreWords(text);
    EncodedShape(words);
    var enc := EncodeWords(words).words;
    SpacedIsSlashed(enc);
    JoinedWords(enc);
    TrimmedStays(Join(enc, "   "));
    TrimmedStays(Join(enc, " / "));
    NothingToBreak(Join(enc, " / "));
  }

  lemma {:induction false} WordEncodesExactlyWhen(word: string)
    ensures EncodeWord(word).Codes? <==> All(word, Known)
  {
    hide Code;
    if word != [] {
      WordEncodesExactlyWhen(word[..|word| - 1]);
      if All(word[..|word| - 1], Known) && Known(word[|word| - 1]) {
        forall i | 0 <= i < |word| ensures Known(word[i]) {
          if i < |word| - 1 { assert word[..|word| - 1][i] == word[i]; }
        }
      }
    }
  }

  lemma {:induction false} WordsEncodeExactlyWhen(words: seq<string>)
    ensures EncodeWords(words).Encoded? <==> forall i :: 0 <= i < |words| ==> All(ToUpper(words[i]), Known)
  {
    hide EncodeWord, All;
    if words != [] {
      WordsEncodeExactlyWhen(words[..|words| - 1]);
      WordEncodesExactlyWhen(ToUpper(words[|words| - 1]));
    }
  }

  /** A text is accepted exactly when it has a word and the table carries every letter. */
  lemma AcceptedExactlyWhen(text: string)
    ensures Encode(text).Translated?
       <==> Fields(text) != [] && forall i :: 0 <= i < |Fields(text)| ==> All(ToUpper(Fields(text)[i]), Known)
  {
    WordsEncodeExactlyWhen(Fields(text));
  }

  /** The character is the first of the word that the table does not carry. */
  ghost predicate FirstMissing(word: string, j: int, c: char) {
    0 <= j < |word| && word[j] == c && !Known(c) && All(word[..j], Known)
  }

  lemma {:induction false} WordFailsAt(word: string) returns (j: nat)
    requires EncodeWord(word).Missing?
    ensures FirstMissing(word, j, EncodeWord(word).c)
  {
    hide Code;
    var n := |word| - 1;
    if EncodeWord(word[..n]).Missing? {
      j := WordFailsAt(word[..n]);
      assert word[..n][..j] == word[..j];
    } else {
      WordEncodesExactlyWhen(word[..n]);
      j := n;
    }
  }

  /** A refused text is refused for its first character without a code. */
  lemma {:induction false} WordsFailAt(words: seq<string>) returns (i: nat, j: nat)
    requires EncodeWords(words).Failed?
    ensures i < |words| && FirstMissing(ToUpper(words[i]), j, EncodeWords(words).c)
    ensures forall k :: 0 <= k < i ==> All(ToUpper(words[k]), Known)
  {
    hide EncodeWord, All, FirstMissing, Known;
    var n := |words| - 1;
    if EncodeWords(words[..n]).Failed? {
      i, j := WordsFailAt(words[..n]);
      forall k | 0 <= k < i ensures All(ToUpper(words[k]), Known) { assert words[..n][k] == words[k]; }
    } else {
      WordsEncodeExactlyWhen(words[..n]);
      i := n;
      j := WordFailsAt(ToUpper(words[n]));
      forall k | 0 <= k < i ensures All(ToUpper(words[k]), Known) { assert words[..n][k] == words[k]; }
    }
  }

  /** Digits are dots and then dashes up to five, and dashes and then dots from six on. */
  lemma DigitCodes(d: nat)
    requires d < 10
    ensures var code := Code("0123456789"[d]);
            |code| == 5 && forall i :: 0 <= i < 5 ==> (code[i] == '.' <==> if d <= 5 then i < d else i >= d - 5)
  {
  }

  lemma {:induction false} CodesDecodeExactlyWhen(codes: seq<string>)
    ensures DecodeWord(codes).Text? <==> forall i :: 0 <= i < |codes| ==> Letter(codes[i]).Some?
  {
    hide Letter;
    if codes != [] {
      var n := |codes| - 1;
      CodesDecodeExactlyWhen(codes[..n]);
      assert forall i :: 0 <= i < n ==> codes[..n][i] == codes[i];
    }
  }

  lemma {:induction false} CodesFailAt(codes: seq<string>) returns (j: nat)
    requires DecodeWord(codes).Unknown?
    ensures j < |codes| && codes[j] == DecodeWord(codes).code && Letter(codes[j]).None?
    ensures forall k :: 0 <= k < j ==> Letter(codes[k]).Some?
  {
    hide Letter;
    var n := |codes| - 1;
    if DecodeWord(codes[..n]).Unknown? {
      j := CodesFailAt(codes[..n]);
    } else {
      CodesDecodeExactlyWhen(codes[..n]);
      j := n;
    }
    forall k | 0 <= k < j ensures Letter(codes[k]).Some? { assert codes[..n][k] == codes[k]; }
  }

  /** Every code of the piece is in the table. */
  ghost predicate Readable(piece: string) {
    forall i :: 0 <= i < |Fields(piece)| ==> Letter(Fields(piece)[i]).Some?
  }

  lemma {:induction false} PiecesDecodeExactlyWhen(pieces: seq<string>)
    ensures DecodeWords(pieces).Texts? <==> forall i :: 0 <= i < |pieces| ==> Readable(pieces[i])
    ensures DecodeWords(pieces).Texts? ==> (DecodeWords(pieces).words != [] <==>
              exists i :: 0 <= i < |pieces| && Fields(pieces[i]) != [])
  {
    hide Letter, Fields, DecodeWord;
    if pieces != [] {
      var n := |pieces| - 1;
      PiecesDecodeExactlyWhen(pieces[..n]);
      CodesDecodeExactlyWhen(Fields(pieces[n]));
      assert forall i :: 0 <= i < n ==> pieces[..n][i] == pieces[i];
    }
  }

  /** A code text is accepted exactly when the table carries every code between the breaks
      and there is one. */
  lemma DecodedExactlyWhen(code: string)
    ensures var pieces := SplitSlash(BreakTripleSpaces(TrimSpace(code)));
            Decode(code).Translated? <==>
              && (forall i :: 0 <= i < |pieces| ==> Readable(pieces[i]))
              && (exists i :: 0 <= i < |pieces| && Fields(pieces[i]) != [])
  {
    hide DecodeWords, Readable, Fields, SplitSlash, BreakTripleSpaces, TrimSpace;
    PiecesDecodeExactlyWhen(SplitSlash(BreakTripleSpaces(TrimSpace(code))));
  }
}
