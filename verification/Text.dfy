/** The string helpers the other modules share, after Go's strings, strconv and unicode
    packages. Text is a sequence of Unicode code points; case mapping is ASCII only. */
module Text {

  datatype Option<+T> = None | Some(value: T)

  /** unicode.IsSpace. */
  predicate IsSpace(c: char) {
    || '\t' <= c <= '\r'
    || c == ' '
    || c == '\U{0085}'
    || c == '\U{00A0}'
    || c == '\U{1680}'
    || '\U{2000}' <= c <= '\U{200A}'
    || c == '\U{2028}' || c == '\U{2029}' || c == '\U{202F}' || c == '\U{205F}'
    || c == '\U{3000}'
  }

  predicate NotSpace(c: char) {
    !IsSpace(c)
  }

  predicate IsDigit(c: char) {
    '0' <= c <= '9'
  }

  predicate IsLetter(c: char) {
    'a' <= c <= 'z' || 'A' <= c <= 'Z'
  }

  /** An ASCII letter or digit. */
  predicate IsAlnum(c: char) {
    IsLetter(c) || IsDigit(c)
  }

  function LowerChar(c: char): char {
    if 'A' <= c <= 'Z' then c - 'A' + 'a' else c
  }

  function UpperChar(c: char): char {
    if 'a' <= c <= 'z' then c - 'a' + 'A' else c
  }

  function ToLower(s: string): (r: string)
    ensures |r| == |s|
    ensures forall i :: 0 <= i < |s| ==> r[i] == LowerChar(s[i])
  {
    seq(|s|, i requires 0 <= i < |s| => LowerChar(s[i]))
  }

  function ToUpper(s: string): (r: string)
    ensures |r| == |s|
    ensures forall i :: 0 <= i < |s| ==> r[i] == UpperChar(s[i])
  {
    seq(|s|, i requires 0 <= i < |s| => UpperChar(s[i]))
  }

  function UpperAll(words: seq<string>): (r: seq<string>)
    ensures |r| == |words|
    ensures forall i :: 0 <= i < |words| ==> r[i] == ToUpper(words[i])
  {
    seq(|words|, i requires 0 <= i < |words| => ToUpper(words[i]))
  }

  // ------------------------------------------------------------------- runs

  ghost predicate All(s: string, keep: char -> bool) {
    forall i :: 0 <= i < |s| ==> keep(s[i])
  }

  /** How many leading characters satisfy `keep`. */
  function RunLength(s: string, keep: char -> bool): (n: nat)
    ensures n <= |s|
    ensures All(s[..n], keep)
    ensures n < |s| ==> !keep(s[n])
  {
    if s == [] || !keep(s[0]) then 0 else 1 + RunLength(s[1..], keep)
  }

  /** The maximal runs of characters that satisfy `keep`, in order: strings.Fields for
      the non-space characters, and strings.FieldsFunc in general. */
  function Runs(s: string, keep: char -> bool): seq<string>
    decreases |s|
  {
    if s == [] then []
    else if !keep(s[0]) then Runs(s[1..], keep)
    else
      var n := RunLength(s, keep);
      [s[..n]] + Runs(s[n..], keep)
  }

  function Fields(s: string): seq<string> {
    Runs(s, NotSpace)
  }

  /** No run straddles the point where `a` meets `b`. */
  ghost predicate Boundary(a: string, b: string, keep: char -> bool) {
    a == [] || b == [] || !keep(a[|a| - 1]) || !keep(b[0])
  }

  lemma {:induction false} RunLengthIs(s: string, keep: char -> bool, n: nat)
    requires n <= |s| && All(s[..n], keep)
    requires n < |s| ==> !keep(s[n])
    ensures RunLength(s, keep) == n
  {
    if n > 0 {
      assert s[..n][0] == s[0];
      assert s[1..][..n - 1] == s[..n][1..];
      RunLengthIs(s[1..], keep, n - 1);
    }
  }

  /** Splitting at a boundary splits the runs. */
  lemma {:induction false} RunsConcat(a: string, b: string, keep: char -> bool)
    requires Boundary(a, b, keep)
    ensures Runs(a + b, keep) == Runs(a, keep) + Runs(b, keep)
    decreases |a|
  {
    var s := a + b;
    if a == [] {
      assert s == b;
    } else if !keep(a[0]) {
      assert s[1..] == a[1..] + b;
      RunsConcat(a[1..], b, keep);
    } else {
      var n := RunLength(a, keep);
      assert s[..n] == a[..n];
      if n == |a| {
        assert a[..n] == a;
        assert keep(a[..n][n - 1]);
      }
      RunLengthIs(s, keep, n);
      assert s[n..] == a[n..] + b;
      RunsConcat(a[n..], b, keep);
    }
  }

  /** A nonempty text of kept characters is its own single run. */
  lemma SingleRun(w: string, keep: char -> bool)
    requires w != [] && All(w, keep)
    ensures Runs(w, keep) == [w]
  {
    assert w[..|w|] == w;
    RunLengthIs(w, keep, |w|);
    assert keep(w[0]);
    assert w[|w|..] == [];
  }

  lemma {:induction false} NoRuns(s: string, keep: char -> bool)
    requires forall i :: 0 <= i < |s| ==> !keep(s[i])
    ensures Runs(s, keep) == []
  {
    if s != [] {
      NoRuns(s[1..], keep);
    }
  }

  /** Every run is nonempty and made of kept characters. */
  lemma {:induction false} RunsAreKept(s: string, keep: char -> bool)
    ensures forall i :: 0 <= i < |Runs(s, keep)| ==> Runs(s, keep)[i] != [] && All(Runs(s, keep)[i], keep)
    decreases |s|
  {
    if s != [] {
      if keep(s[0]) {
        RunsAreKept(s[RunLength(s, keep)..], keep);
      } else {
        RunsAreKept(s[1..], keep);
      }
    }
  }

  /** A text with a kept character has a run. */
  lemma {:induction false} SomeRun(s: string, keep: char -> bool, k: nat)
    requires k < |s| && keep(s[k])
    ensures Runs(s, keep) != []
  {
    if !keep(s[0]) {
      SomeRun(s[1..], keep, k - 1);
    }
  }

  /** The runs still to come when the run `word` is pending and `s` is unread. */
  ghost function Pending(word: string, s: string, keep: char -> bool): seq<string>
    decreases |s|
  {
    if s == [] then Flush(word)
    else if keep(s[0]) then Pending(word + [s[0]], s[1..], keep)
    else Flush(word) + Pending([], s[1..], keep)
  }

  ghost function Flush(word: string): seq<string> {
    if word == [] then [] else [word]
  }

  lemma {:induction false} PendingIsRuns(word: string, s: string, keep: char -> bool)
    requires All(word, keep)
    ensures Pending(word, s, keep) == Runs(word + s, keep)
    decreases |s|
  {
    if s == [] {
      assert word + s == word;
      if word != [] { SingleRun(word, keep); }
    } else {
      assert s == [s[0]] + s[1..];
      assert word + s == word + [s[0]] + s[1..];
      if keep(s[0]) {
        PendingIsRuns(word + [s[0]], s[1..], keep);
      } else {
        PendingIsRuns([], s[1..], keep);
        assert [] + s[1..] == s[1..];
        RunsConcat(word, s, keep);
        if word != [] { SingleRun(word, keep); }
      }
    }
  }

  /** Cutting a concatenation inside its first part. */
  lemma CutFirst<T>(a: seq<T>, b: seq<T>, n: nat)
    requires n <= |a|
    ensures (a + b)[n..] == a[n..] + b
    ensures (a + b)[..n] == a[..n]
  {
  }

  // --------------------------------------------------------------- trimming

  function TrimRight(s: string): string {
    if s != [] && IsSpace(s[|s| - 1]) then TrimRight(s[..|s| - 1]) else s
  }

  /** strings.TrimSpace. */
  function TrimSpace(s: string): string {
    TrimRight(s[RunLength(s, IsSpace)..])
  }

  /** The text neither starts nor ends with white space. */
  ghost predicate Trimmed(s: string) {
    s == [] || (!IsSpace(s[0]) && !IsSpace(s[|s| - 1]))
  }

  lemma TrimmedStays(s: string)
    requires Trimmed(s)
    ensures TrimSpace(s) == s
  {
    assert s[0..] == s;
  }

  // -------------------------------------------------------- words and spaces

  /** A pending run followed by a character outside it is complete. */
  lemma PendingWord(word: string, c: char, rest: string, keep: char -> bool)
    requires All(word, keep) && !keep(c)
    ensures Runs(word + [c] + rest, keep) == Flush(word) + Runs(rest, keep)
  {
    assert word + [c] + rest == word + ([c] + rest);
    RunsConcat(word, [c] + rest, keep);
    assert ([c] + rest)[1..] == rest;
    if word != [] { SingleRun(word, keep); }
  }

  /** strings.Join. */
  function Join(words: seq<string>, sep: string): string {
    if |words| == 0 then ""
    else if |words| == 1 then words[0]
    else words[0] + sep + Join(words[1..], sep)
  }

  /** A nonempty text without white space. */
  ghost predicate IsWord(w: string) {
    w != [] && All(w, NotSpace)
  }

  ghost predicate AreWords(words: seq<string>) {
    forall i :: 0 <= i < |words| ==> IsWord(words[i])
  }

  /** Splitting undoes joining, when the space separates. */
  lemma {:induction false} RunsOfJoin(words: seq<string>, keep: char -> bool)
    requires !keep(' ')
    requires forall i :: 0 <= i < |words| ==> words[i] != [] && All(words[i], keep)
    ensures Runs(Join(words, " "), keep) == words
  {
    if |words| == 1 {
      SingleRun(words[0], keep);
    } else if |words| > 1 {
      RunsOfJoin(words[1..], keep);
      PendingWord(words[0], ' ', Join(words[1..], " "), keep);
    }
  }

  lemma FieldsOfJoin(words: seq<string>)
    requires AreWords(words)
    ensures Fields(Join(words, " ")) == words
  {
    RunsOfJoin(words, NotSpace);
  }

  /** A property of characters that holds of a text holds of its runs. */
  lemma {:induction false} RunsInherit(s: string, keep: char -> bool, p: char -> bool)
    requires All(s, p)
    ensures forall i :: 0 <= i < |Runs(s, keep)| ==> All(Runs(s, keep)[i], p)
    decreases |s|
  {
    if s != [] {
      RunsInherit(if keep(s[0]) then s[RunLength(s, keep)..] else s[1..], keep, p);
    }
  }

  /** A joined text has a property of characters exactly when its parts have it. */
  lemma {:induction false} JoinInherits(words: seq<string>, p: char -> bool)
    requires p(' ')
    ensures All(Join(words, " "), p) <==> forall i :: 0 <= i < |words| ==> All(words[i], p)
  {
    if |words| > 1 {
      var rest := Join(words[1..], " ");
      JoinInherits(words[1..], p);
      var s := words[0] + " " + rest;
      if All(s, p) {
        forall k | 0 <= k < |words[0]| ensures p(words[0][k]) { assert s[k] == words[0][k]; }
        forall k | 0 <= k < |rest| ensures p(rest[k]) { assert s[|words[0]| + 1 + k] == rest[k]; }
      }
      assert forall i :: 1 <= i < |words| ==> words[i] == words[1..][i - 1];
      assert forall i :: 0 <= i < |words| - 1 ==> words[1..][i] == words[i + 1];
    }
  }

  /** A joined list of words has no white space at its ends. */
  lemma {:induction false} JoinIsTrimmed(words: seq<string>)
    requires AreWords(words)
    ensures Trimmed(Join(words, " "))
    ensures words != [] ==> Join(words, " ") != []
  {
    if |words| == 1 {
      assert NotSpace(words[0][0]) && NotSpace(words[0][|words[0]| - 1]);
    } else if |words| > 1 {
      JoinIsTrimmed(words[1..]);
      assert NotSpace(words[0][0]);
    }
  }

  lemma FieldsAreWords(s: string)
    ensures AreWords(Fields(s))
  {
    RunsAreKept(s, NotSpace);
  }

  /** A word after a space is one more field. */
  lemma FieldsAppend(text: string, w: string)
    requires IsWord(w)
    ensures Fields(text + " " + w) == Fields(text) + [w]
  {
    assert text + " " + w == text + (" " + w);
    RunsConcat(text, " " + w, NotSpace);
    assert (" " + w)[1..] == w;
    SingleRun(w, NotSpace);
  }

  // ---------------------------------------------------------------- numbers

  function Power2(n: nat): (p: nat)
    ensures p >= 1
  {
    if n == 0 then 1 else 2 * Power2(n - 1)
  }

  function DigitChar(d: nat): (c: char)
    requires d < 10
    ensures IsDigit(c)
  {
    '0' + d as char
  }

  function DigitValue(c: char): (d: nat)
    requires IsDigit(c)
    ensures d < 10
  {
    (c - '0') as nat
  }

  /** The decimal digits of a number, without leading zeros. */
  function Itoa(n: nat): (s: string)
    ensures s != [] && All(s, IsDigit)
  {
    if n < 10 then [DigitChar(n)] else Itoa(n / 10) + [DigitChar(n % 10)]
  }

  function Digits(s: string): nat
    requires All(s, IsDigit)
  {
    if s == [] then 0
    else Digits(s[..|s| - 1]) * 10 + DigitValue(s[|s| - 1])
  }

  const MAX_INT := 0x7FFF_FFFF_FFFF_FFFF

  /** An optional sign and digits, of any size. */
  function ReadInteger(s: string): Option<int> {
    var signed := s != [] && (s[0] == '-' || s[0] == '+');
    var body := if signed then s[1..] else s;
    if body == [] || !AllDigits(body) then None
    else Some(if signed && s[0] == '-' then -(Digits(body) as int) else Digits(body))
  }

  /** strconv.Atoi on a 64-bit platform: an optional sign, digits, and a value in range. */
  function Atoi(s: string): Option<int> {
    var value := ReadInteger(s);
    if value.Some? && -MAX_INT - 1 <= value.value <= MAX_INT then value else None
  }

  predicate AllDigits(s: string)
    ensures AllDigits(s) <==> All(s, IsDigit)
  {
    forall i :: 0 <= i < |s| ==> IsDigit(s[i])
  }

  lemma {:induction false} DigitsOfItoa(n: nat)
    ensures Digits(Itoa(n)) == n
  {
    if n >= 10 {
      DigitsOfItoa(n / 10);
      var s := Itoa(n);
      assert s[..|s| - 1] == Itoa(n / 10);
    }
  }

  /** Reading a printed number gives it back. */
  lemma AtoiOfItoa(n: nat)
    requires n <= MAX_INT
    ensures Atoi(Itoa(n)) == Some(n)
  {
    DigitsOfItoa(n);
    assert IsDigit(Itoa(n)[0]);
  }

  lemma ItoaIsWord(n: nat)
    ensures IsWord(Itoa(n))
  {
    forall i | 0 <= i < |Itoa(n)| ensures NotSpace(Itoa(n)[i]) { assert IsDigit(Itoa(n)[i]); }
  }

  // ---------------------------------------------------------------- splitting

  /** strings.Split at the characters outside `keep`. */
  function SplitBy(s: string, keep: char -> bool): seq<string>
    decreases |s|
  {
    var n := RunLength(s, keep);
    if n == |s| then [s] else [s[..n]] + SplitBy(s[n + 1..], keep)
  }

  lemma WholePiece(s: string, keep: char -> bool)
    requires All(s, keep)
    ensures SplitBy(s, keep) == [s]
  {
    assert s[..|s|] == s;
    RunLengthIs(s, keep, |s|);
  }

  lemma FirstPiece(a: string, c: char, b: string, keep: char -> bool)
    requires All(a, keep) && !keep(c)
    ensures SplitBy(a + ([c] + b), keep) == [a] + SplitBy(b, keep)
  {
    var s := a + ([c] + b);
    assert s[..|a|] == a;
    RunLengthIs(s, keep, |a|);
    assert s[|a| + 1..] == b;
  }

  /** No piece holds a separator. */
  lemma {:induction false} PiecesAreKept(s: string, keep: char -> bool)
    ensures forall i :: 0 <= i < |SplitBy(s, keep)| ==> All(SplitBy(s, keep)[i], keep)
    decreases |s|
  {
    var n := RunLength(s, keep);
    if n == |s| {
      assert s[..n] == s;
    } else {
      PiecesAreKept(s[n + 1..], keep);
    }
  }

  /** Splitting at the joining character gives the parts back. */
  lemma {:induction false} SplitOfJoin(parts: seq<string>, c: char, keep: char -> bool)
    requires parts != [] && !keep(c) && forall i :: 0 <= i < |parts| ==> All(parts[i], keep)
    ensures SplitBy(Join(parts, [c]), keep) == parts
  {
    if |parts| == 1 {
      WholePiece(parts[0], keep);
    } else {
      hide SplitBy;
      var rest := Join(parts[1..], [c]);
      SplitOfJoin(parts[1..], c, keep);
      assert parts[0] + [c] + rest == parts[0] + ([c] + rest);
      FirstPiece(parts[0], c, rest, keep);
    }
  }

  /** strings.LastIndexByte. */
  function LastIndex(s: string, c: char): (i: int)
    ensures -1 <= i < |s|
    ensures i >= 0 ==> s[i] == c
    ensures forall j :: i < j < |s| ==> s[j] != c
  {
    if s == [] then -1
    else if s[|s| - 1] == c then |s| - 1
    else LastIndex(s[..|s| - 1], c)
  }

  /** A sign and digits are the number they spell, when a 64-bit integer holds it. */
  lemma AtoiReads(sign: string, digits: string)
    requires sign in {"", "+", "-"} && digits != [] && All(digits, IsDigit)
    ensures ReadInteger(sign + digits) == Some(if sign == "-" then -(Digits(digits) as int) else Digits(digits))
    ensures Atoi(sign + digits)
         == var n: int := Digits(digits);
            if sign == "-" then (if n <= 0x8000_0000_0000_0000 then Some(-n) else None)
            else if n < 0x8000_0000_0000_0000 then Some(n) else None
  {
    hide Digits;
    var s := sign + digits;
    assert IsDigit(digits[0]);
    if sign == "" {
      assert s == digits;
    } else {
      assert s[1..] == digits && s[0] == sign[0];
      assert "+"[0] != "-"[0];
    }
  }
}
