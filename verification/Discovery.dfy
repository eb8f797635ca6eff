/** The parsing side of the catalog commands (bot/discovery.go, bot/commands.go): command
    lines, sub-commands, page numbers and search words, and the command line a page prints
    for the page after it (bot/paginate.go). */
module Discovery {
  import opened Text

  predicate NotBlank(c: char) {
    c != ' ' && c != '\t'
  }

  function DropSlash(s: string): string {
    if s != [] && s[0] == '/' then s[1..] else s
  }

  /** The lowercase name of a command and its arguments. */
  function SplitCommandLine(line: string): (string, string) {
    var u := TrimSpace(DropSlash(TrimSpace(line)));
    if u == "" then ("", "")
    else
      var i := RunLength(u, NotBlank);
      if i == |u| then (ToLower(u), "") else (ToLower(u[..i]), TrimSpace(u[i + 1..]))
  }

  const SEARCH := "search"
  const NEAR := "near"
  const LIST := "list"

  function SplitDiscovery(args: string): (string, string) {
    var (word, rest) := SplitCommandLine(args);
    if word == SEARCH || word == NEAR || word == LIST then (word, rest) else ("", args)
  }

  /** A trailing positive number, when there is one. */
  function PageNumber(field: string): Option<int> {
    var n := Atoi(field);
    if n.Some? && n.value >= 1 then n else None
  }

  function SplitPageArgument(text: string): (string, int) {
    var fields := Fields(text);
    if |fields| < 2 then (TrimSpace(text), 1)
    else
      var page := PageNumber(fields[|fields| - 1]);
      if page.None? then (TrimSpace(text), 1)
      else (Join(fields[..|fields| - 1], " "), page.value)
  }

  function SplitListArgument(text: string): (string, int) {
    var fields := Fields(text);
    if |fields| == 0 then ("", 1)
    else
      var page := PageNumber(fields[|fields| - 1]);
      if |fields| == 1 then (if page.Some? then ("", page.value) else (fields[0], 1))
      else if page.None? then (Join(fields, " "), 1)
      else (Join(fields[..|fields| - 1], " "), page.value)
  }

  // ------------------------------------------------------------ search words

  predicate NotSeparator(c: char) {
    c != ' ' && c != '\t' && c != ',' && c != '.' && c != '/'
  }

  predicate HasAlnum(w: string) {
    exists i :: 0 <= i < |w| && IsAlnum(w[i])
  }

  /** The trimmed fields that hold a letter or a digit. */
  function KeepWords(fields: seq<string>): seq<string> {
    if fields == [] then []
    else
      var word := TrimSpace(fields[|fields| - 1]);
      var kept := KeepWords(fields[..|fields| - 1]);
      if HasAlnum(word) then kept + [word] else kept
  }

  function SearchWords(query: string): seq<string> {
    KeepWords(Runs(ToLower(query), NotSeparator))
  }

  /** searchWords. */
  method CollectSearchWords(query: string) returns (words: seq<string>)
    ensures words == SearchWords(query)
  {
    hide Runs, TrimSpace, HasAlnum;
    var fields := Runs(ToLower(query), NotSeparator);
    words := [];
    for i := 0 to |fields|
      invariant words == KeepWords(fields[..i])
    {
      assert fields[..i + 1][..i] == fields[..i];
      var word := TrimSpace(fields[i]);
      if HasAlnum(word) {
        words := words + [word];
      }
    }
    assert fields[..|fields|] == fields;
  }

  // ------------------------------------------------- the next-page command

  /** What a catalog page repeats in its footer. */
  datatype Query = Query(command: string, kind: string, text: string)

  /** discoveryQuery.command: the command line that asks for one page. */
  function Command(q: Query, page: nat): string {
    Join([q.command] + (if q.kind == "" then [] else [q.kind])
       + (if TrimSpace(q.text) == "" then [] else [q.text])
       + (if q.kind == NEAR then [] else [Itoa(page)]), " ")
  }

  // ---------------------------------------------- a printed command reads back

  /** A word and a trimmed rest split into themselves, the word in lower case. */
  lemma SplitWordAndRest(word: string, rest: string)
    requires IsWord(word) && word[0] != '/'
    requires rest != [] && Trimmed(rest)
    ensures SplitCommandLine(word + " " + rest) == (ToLower(word), rest)
  {
    hide RunLength, TrimRight, ToLower;
    var line := word + " " + rest;
    assert line[0] == word[0] && line[|line| - 1] == rest[|rest| - 1];
    assert !IsSpace(word[0]) by { assert NotSpace(word[0]); }
    TrimmedStays(line);
    forall i | 0 <= i < |word| ensures NotBlank(word[i]) { assert NotSpace(word[i]); }
    assert line[..|word|] == word;
    assert line[|word|] == ' ';
    RunLengthIs(line, NotBlank, |word|);
    assert line[|word| + 1..] == rest;
    TrimmedStays(rest);
  }

  lemma WordThenWordIsTrimmed(text: string, w: string)
    requires text != [] && !IsSpace(text[0]) && IsWord(w)
    ensures Trimmed(text + " " + w)
  {
    assert NotSpace(w[|w| - 1]);
  }

  /** Words of a search query: lowercase, with a letter or a digit, without separators. */
  ghost predicate SearchWord(w: string) {
    && w != [] && All(w, NotSeparator) && HasAlnum(w) && Trimmed(w) && ToLower(w) == w
  }

  lemma TrimIsPart(s: string)
    ensures exists i, j :: 0 <= i <= j <= |s| && TrimSpace(s) == s[i..j]
    ensures Trimmed(TrimSpace(s))
  {
    var i := RunLength(s, IsSpace);
    TrimRightIsPrefix(s[i..]);
    var t := TrimSpace(s);
    assert t == s[i..][..|t|] == s[i..i + |t|];
    if t != [] { assert t[0] == s[i]; }
  }

  lemma {:induction false} TrimRightIsPrefix(s: string)
    ensures |TrimRight(s)| <= |s| && TrimRight(s) == s[..|TrimRight(s)|]
    ensures TrimRight(s) != [] ==> !IsSpace(TrimRight(s)[|TrimRight(s)| - 1])
  {
    if s != [] && IsSpace(s[|s| - 1]) {
      TrimRightIsPrefix(s[..|s| - 1]);
    }
  }

  lemma TrimmedFieldIsSearchWord(f: string)
    requires All(f, NotSeparator) && ToLower(f) == f && HasAlnum(TrimSpace(f))
    ensures SearchWord(TrimSpace(f))
  {
    hide TrimSpace;
    TrimIsPart(f);
    var i, j :| 0 <= i <= j <= |f| && TrimSpace(f) == f[i..j];
    assert ToLower(f[i..j]) == ToLower(f)[i..j];
  }

  lemma {:induction false} KeptAreSearchWords(fields: seq<string>)
    requires forall i :: 0 <= i < |fields| ==> All(fields[i], NotSeparator) && ToLower(fields[i]) == fields[i]
    ensures forall i :: 0 <= i < |KeepWords(fields)| ==> SearchWord(KeepWords(fields)[i])
  {
    hide SearchWord, All, ToLower, TrimSpace, HasAlnum;
    if fields != [] {
      var n := |fields| - 1;
      KeptAreSearchWords(fields[..n]);
      if HasAlnum(TrimSpace(fields[n])) { TrimmedFieldIsSearchWord(fields[n]); }
    }
  }

  lemma RunsOfLower(s: string, keep: char -> bool)
    requires ToLower(s) == s
    ensures forall i :: 0 <= i < |Runs(s, keep)| ==> ToLower(Runs(s, keep)[i]) == Runs(s, keep)[i]
    decreases |s|
  {
    if s != [] {
      if keep(s[0]) {
        var n := RunLength(s, keep);
        assert ToLower(s[..n]) == ToLower(s)[..n];
        assert ToLower(s[n..]) == ToLower(s)[n..];
        RunsOfLower(s[n..], keep);
      } else {
        assert ToLower(s[1..]) == ToLower(s)[1..];
        RunsOfLower(s[1..], keep);
      }
    }
  }

  lemma SearchWordsShape(query: string)
    ensures forall i :: 0 <= i < |SearchWords(query)| ==> SearchWord(SearchWords(query)[i])
  {
    hide Runs, KeepWords;
    var lower := ToLower(query);
    assert ToLower(lower) == lower;
    RunsAreKept(lower, NotSeparator);
    RunsOfLower(lower, NotSeparator);
    KeptAreSearchWords(Runs(lower, NotSeparator));
  }

  /** White space, if any, is the plain space. */
  predicate PlainSpace(c: char) {
    IsSpace(c) ==> c == ' '
  }

  lemma {:induction false} KeepAll(words: seq<string>)
    requires forall i :: 0 <= i < |words| ==> SearchWord(words[i])
    ensures KeepWords(words) == words
  {
    hide TrimSpace, HasAlnum, All, Trimmed, ToLower;
    if words != [] {
      var n := |words| - 1;
      KeepAll(words[..n]);
      TrimmedStays(words[n]);
    }
  }

  lemma {:induction false} JoinOfLower(words: seq<string>)
    requires forall i :: 0 <= i < |words| ==> ToLower(words[i]) == words[i]
    ensures ToLower(Join(words, " ")) == Join(words, " ")
  {
    if |words| > 1 {
      JoinOfLower(words[1..]);
      LowerOfConcat(words[0] + " ", Join(words[1..], " "));
      LowerOfConcat(words[0], " ");
    }
  }

  lemma LowerOfConcat(a: string, b: string)
    ensures ToLower(a + b) == ToLower(a) + ToLower(b)
  {
  }

  /** The search words of a joined query are the words it was joined from. */
  lemma SearchWordsOfJoin(words: seq<string>)
    requires forall i :: 0 <= i < |words| ==> SearchWord(words[i])
    ensures SearchWords(Join(words, " ")) == words
  {
    hide Runs, KeepWords, Join, ToLower, HasAlnum, Trimmed;
    JoinOfLower(words);
    RunsOfJoin(words, NotSeparator);
    KeepAll(words);
  }

  /** A search word of plain spaces has none at all. */
  lemma PlainSearchWord(w: string)
    requires SearchWord(w) && All(w, PlainSpace)
    ensures IsWord(w)
  {
    forall i | 0 <= i < |w| ensures NotSpace(w[i]) { assert NotSeparator(w[i]) && PlainSpace(w[i]); }
  }

  /** What a printed search command asks for when it is read again. */
  function Requery(query: string, page: nat): (string, int) {
    var (words, number) := SplitPageArgument(query + " " + Itoa(page));
    (Join(SearchWords(words), " "), number)
  }

  lemma SplitPageOfAppended(text: string, page: nat)
    requires Fields(text) != [] && 1 <= page <= MAX_INT
    ensures SplitPageArgument(text + " " + Itoa(page)) == (Join(Fields(text), " "), page)
  {
    hide Runs, Itoa, Atoi, Join;
    ItoaIsWord(page);
    FieldsAppend(text, Itoa(page));
    AtoiOfItoa(page);
    var fields := Fields(text + " " + Itoa(page));
    assert fields[..|fields| - 1] == Fields(text);
  }

  lemma SearchTextHasFields(words: seq<string>)
    requires words != [] && forall i :: 0 <= i < |words| ==> SearchWord(words[i])
    ensures Fields(Join(words, " ")) != []
  {
    var text := Join(words, " ");
    assert text[0] == words[0][0];
    SomeRun(text, NotSpace, 0);
  }

  /** The normal form of a search text has only plain spaces when the text has. */
  lemma NormalFormIsPlain(s: string)
    requires All(s, PlainSpace)
    ensures All(Join(SearchWords(s), " "), PlainSpace)
  {
    hide Runs, KeepWords, Join;
    var lower := ToLower(s);
    forall i | 0 <= i < |lower| ensures PlainSpace(lower[i]) { assert PlainSpace(s[i]); }
    RunsInherit(lower, NotSeparator, PlainSpace);
    KeptInherit(Runs(lower, NotSeparator), PlainSpace);
    JoinInherits(SearchWords(s), PlainSpace);
  }

  lemma {:induction false} KeptInherit(fields: seq<string>, p: char -> bool)
    requires forall i :: 0 <= i < |fields| ==> All(fields[i], p)
    ensures forall i :: 0 <= i < |KeepWords(fields)| ==> All(KeepWords(fields)[i], p)
  {
    hide TrimSpace, HasAlnum;
    if fields != [] {
      var f := fields[|fields| - 1];
      KeptInherit(fields[..|fields| - 1], p);
      TrimIsPart(f);
      assert All(TrimSpace(f), p);
    }
  }

  /** A printed search command asks again for the same query and page exactly when the
      query's white space is plain spaces. */
  lemma SearchReadsBackExactlyWhen(s: string, page: nat)
    requires SearchWords(s) != [] && 1 <= page <= MAX_INT
    ensures var query := Join(SearchWords(s), " ");
            Requery(query, page) == (query, page) <==> All(query, PlainSpace)
  {
    hide SearchWords, SplitPageArgument, Join, Runs;
    var words := SearchWords(s);
    var query := Join(words, " ");
    SearchWordsShape(s);
    SearchTextHasFields(words);
    SplitPageOfAppended(query, page);
    var again := Join(Fields(query), " ");
    if All(query, PlainSpace) {
      JoinInherits(words, PlainSpace);
      forall i | 0 <= i < |words| ensures IsWord(words[i]) { PlainSearchWord(words[i]); }
      FieldsOfJoin(words);
      SearchWordsOfJoin(words);
    } else {
      FieldsAreWords(query);
      forall i | 0 <= i < |Fields(query)| ensures All(Fields(query)[i], PlainSpace) {
        assert IsWord(Fields(query)[i]);
      }
      JoinInherits(Fields(query), PlainSpace);
      NormalFormIsPlain(again);
    }
  }

  /** A newline separates no search words but does separate the words of a command, so the
      printed command of such a search asks for something else. */
  lemma NewlineReadsDifferently(page: nat)
    requires 1 <= page <= MAX_INT
    ensures SearchWords("a\nb") == ["a\nb"]
    ensures Requery("a\nb", page) != ("a\nb", page)
  {
    var s := "a\nb";
    assert ToLower(s) == s;
    assert Runs(s, NotSeparator) == [s] by { SingleRun(s, NotSeparator); }
    assert TrimSpace(s) == s by { TrimmedStays(s); }
    assert HasAlnum(s) by { assert IsAlnum(s[0]); }
    OneKeptWord(s);
    assert !PlainSpace(s[1]);
    hide SearchWords, Requery;
    SearchReadsBackExactlyWhen(s, page);
  }

  lemma OneKeptWord(w: string)
    requires TrimSpace(w) == w && HasAlnum(w)
    ensures KeepWords([w]) == [w]
  {
    hide TrimSpace, HasAlnum;
    assert [w][..0] == [];
  }

  // ------------------------------------------------------------ list requests

  lemma UpperOfConcat(a: string, b: string)
    ensures ToUpper(a + b) == ToUpper(a) + ToUpper(b)
  {
  }

  lemma {:induction false} JoinOfUpper(words: seq<string>)
    ensures ToUpper(Join(words, " ")) == Join(UpperAll(words), " ")
  {
    if |words| == 1 {
      assert UpperAll(words) == [ToUpper(words[0])];
    } else if |words| > 1 {
      JoinOfUpper(words[1..]);
      assert UpperAll(words)[1..] == UpperAll(words[1..]);
      UpperOfConcat(words[0] + " ", Join(words[1..], " "));
      UpperOfConcat(words[0], " ");
    }
  }

  lemma UpperIsWord(w: string)
    requires IsWord(w)
    ensures IsWord(ToUpper(w))
  {
    forall i | 0 <= i < |w| ensures NotSpace(ToUpper(w)[i]) { assert NotSpace(w[i]); }
  }

  /** The text a list page carries: the words of the region, in upper case. */
  function ListText(region: string): string {
    ToUpper(Join(Fields(region), " "))
  }

  lemma ListTextWords(region: string)
    ensures AreWords(UpperAll(Fields(region)))
    ensures ListText(region) == Join(UpperAll(Fields(region)), " ")
    ensures Fields(ListText(region)) == UpperAll(Fields(region))
    ensures Trimmed(ListText(region))
  {
    hide Runs, Join, ToUpper;
    FieldsAreWords(region);
    var words := UpperAll(Fields(region));
    forall i | 0 <= i < |words| ensures IsWord(words[i]) {
      assert IsWord(Fields(region)[i]);
      UpperIsWord(Fields(region)[i]);
    }
    JoinOfUpper(Fields(region));
    FieldsOfJoin(words);
    JoinIsTrimmed(words);
  }

  /** A printed list command asks again for the same region text and page. */
  lemma ListReadsBack(region: string, page: nat)
    requires 1 <= page <= MAX_INT
    ensures var text := ListText(region);
            && (text == "" ==> SplitListArgument(Itoa(page)) == ("", page))
            && (text != "" ==> SplitListArgument(text + " " + Itoa(page)) == (text, page))
            && ListText(text) == text
  {
    hide Runs, Join, Itoa, Atoi, ListText;
    var text := ListText(region);
    ListTextWords(region);
    ListTextWords(text);
    ItoaIsWord(page);
    AtoiOfItoa(page);
    UpperAllTwice(Fields(region));
    if text == "" {
      SingleRun(Itoa(page), NotSpace);
    } else {
      NonBlankHasFields(text);
      FieldsAppend(text, Itoa(page));
      var fields := Fields(text + " " + Itoa(page));
      assert fields[..|fields| - 1] == Fields(text);
    }
  }

  lemma NonBlankHasFields(text: string)
    requires text != [] && Trimmed(text)
    ensures Fields(text) != []
  {
    SomeRun(text, NotSpace, 0);
  }

  lemma UpperAllTwice(words: seq<string>)
    ensures UpperAll(UpperAll(words)) == UpperAll(words)
  {
    forall i | 0 <= i < |words| ensures ToUpper(ToUpper(words[i])) == ToUpper(words[i]) {
    }
  }

  // -------------------------------------------------------- whole command lines

  const BUOY := "buoy"

  /** The arguments of a printed page command. */
  function PageArguments(text: string, page: nat): string {
    if text == "" then Itoa(page) else text + " " + Itoa(page)
  }

  /** A printed page command splits into its name, its sub-command and its arguments. */
  lemma CommandSplits(kind: string, text: string, page: nat)
    requires kind == SEARCH || kind == LIST
    requires Trimmed(text)
    ensures var args := kind + " " + PageArguments(text, page);
            && SplitCommandLine(Command(Query(BUOY, kind, text), page)) == (BUOY, args)
            && SplitDiscovery(args) == (kind, PageArguments(text, page))
  {
    hide Itoa, SplitCommandLine, TrimSpace;
    var rest := PageArguments(text, page);
    var args := kind + " " + rest;
    ItoaIsWord(page);
    TrimmedStays(text);
    KindIsWord(kind);
    if text == "" {
      assert NotSpace(rest[0]) && NotSpace(rest[|rest| - 1]);
    } else {
      WordThenWordIsTrimmed(text, Itoa(page));
    }
    CommandText(kind, text, page);
    SplitWordAndRest(kind, rest);
    assert args[0] == kind[0] && args[|args| - 1] == rest[|rest| - 1];
    KindIsWord(BUOY);
    SplitWordAndRest(BUOY, args);
  }

  lemma KindIsWord(w: string)
    requires w == SEARCH || w == LIST || w == BUOY
    ensures IsWord(w) && ToLower(w) == w && w[0] != '/'
  {
  }

  lemma CommandText(kind: string, text: string, page: nat)
    requires kind == SEARCH || kind == LIST
    requires TrimSpace(text) == text
    ensures Command(Query(BUOY, kind, text), page) == BUOY + " " + (kind + " " + PageArguments(text, page))
  {
    hide TrimSpace, Itoa;
    var n := Itoa(page);
    if text == "" {
      JoinThree(BUOY, kind, n);
      assert [BUOY] + [kind] + [] + [n] == [BUOY, kind, n];
    } else {
      JoinFour(BUOY, kind, text, n);
      assert [BUOY] + [kind] + [text] + [n] == [BUOY, kind, text, n];
    }
  }

  lemma JoinThree(a: string, b: string, c: string)
    ensures Join([a, b, c], " ") == a + " " + (b + " " + c)
  {
    assert [a, b, c][1..] == [b, c] && [b, c][1..] == [c];
    assert Join([b, c], " ") == b + " " + Join([c], " ");
  }

  lemma JoinFour(a: string, b: string, c: string, d: string)
    ensures Join([a, b, c, d], " ") == a + " " + (b + " " + (c + " " + d))
  {
    assert [a, b, c, d][1..] == [b, c, d];
    JoinThree(b, c, d);
  }

  // ------------------------------------------------------- what a line asks for

  /** A leading slash makes no difference. */
  lemma SlashIsOptional(line: string)
    requires Trimmed(line) && (line == [] || line[0] != '/')
    ensures SplitCommandLine("/" + line) == SplitCommandLine(line)
  {
    hide RunLength, TrimRight, ToLower;
    SlashIsNoSpace();
    TrimmedStays(line);
    TrimmedStays("/" + line);
    assert ("/" + line)[1..] == line;
  }

  lemma SlashIsNoSpace()
    ensures !IsSpace('/')
  {
  }

  lemma {:induction false} RunsOfTrimRight(s: string)
    ensures Fields(TrimRight(s)) == Fields(s)
  {
    if s != [] && IsSpace(s[|s| - 1]) {
      hide IsSpace, Runs;
      var n := |s| - 1;
      RunsOfTrimRight(s[..n]);
      assert s == s[..n] + [s[n]];
      RunsConcat(s[..n], [s[n]], NotSpace);
      NoRuns([s[n]], NotSpace);
    }
  }

  /** Trimming takes away no field. */
  lemma FieldsOfTrim(s: string)
    ensures Fields(TrimSpace(s)) == Fields(s)
  {
    hide IsSpace, Runs;
    var n := RunLength(s, IsSpace);
    RunsOfTrimRight(s[n..]);
    assert s == s[..n] + s[n..];
    RunsConcat(s[..n], s[n..], NotSpace);
    forall i | 0 <= i < n ensures !NotSpace(s[..n][i]) { assert All(s[..n], IsSpace); }
    NoRuns(s[..n], NotSpace);
  }

  /** A field that asks for a page: a positive number, as strconv.Atoi reads it. */
  predicate AsksForPage(field: string) {
    Atoi(field).Some? && Atoi(field).value >= 1
  }

  /** A search argument of two or more fields that ends in a positive number asks for that
      page of the fields before it; every other one asks for page 1 of all its fields. */
  lemma SearchArgumentReads(text: string)
    ensures var fields := Fields(text);
            var (query, page) := SplitPageArgument(text);
            var n := |fields| - 1;
            if n >= 1 && AsksForPage(fields[n]) then Fields(query) == fields[..n] && page == Atoi(fields[n]).value
            else Fields(query) == fields && page == 1
  {
    hide Runs, TrimSpace, Atoi, Join;
    FieldsOfTrim(text);
    FieldsAreWords(text);
    var fields := Fields(text);
    if |fields| >= 2 { FieldsOfJoin(fields[..|fields| - 1]); }
  }

  /** A list argument that ends in a positive number asks for that page of the fields before
      it, even when there are none; every other one asks for page 1 of all its fields. */
  lemma ListArgumentReads(text: string)
    ensures var fields := Fields(text);
            var (region, page) := SplitListArgument(text);
            var n := |fields| - 1;
            if n >= 0 && AsksForPage(fields[n]) then Fields(region) == fields[..n] && page == Atoi(fields[n]).value
            else Fields(region) == fields && page == 1
  {
    hide Atoi, Join, IsSpace;
    FieldsAreWords(text);
    var fields := Fields(text);
    hide Runs;
    assert Fields("") == [] by { NoRuns("", NotSpace); }
    if |fields| == 1 {
      assert fields == [fields[0]];
      SingleRun(fields[0], NotSpace);
    } else if |fields| >= 2 {
      FieldsOfJoin(fields[..|fields| - 1]);
      FieldsOfJoin(fields);
    }
  }

  lemma {:induction false} KeepWordsConcat(a: seq<string>, b: seq<string>)
    ensures KeepWords(a + b) == KeepWords(a) + KeepWords(b)
  {
    hide TrimSpace, HasAlnum;
    if b == [] {
      assert a + b == a;
    } else {
      var n := |b| - 1;
      assert (a + b)[..|a + b| - 1] == a + b[..n];
      KeepWordsConcat(a, b[..n]);
    }
  }

  /** Space, tab, comma, period and slash separate search words. */
  lemma SeparatorsSplit(a: string, c: char, b: string)
    requires c == ' ' || c == '\t' || c == ',' || c == '.' || c == '/'
    ensures SearchWords(a + [c] + b) == SearchWords(a) + SearchWords(b)
  {
    hide Runs, KeepWords, HasAlnum;
    var x, y := ToLower(a), ToLower(b);
    assert LowerChar(c) == c;
    assert ToLower(a + [c] + b) == x + ([c] + y);
    RunsConcat(x, [c] + y, NotSeparator);
    RunsConcat([c], y, NotSeparator);
    NoRuns([c], NotSeparator);
    assert a + [c] + b == a + ([c] + b);
    assert Runs(x + ([c] + y), NotSeparator) == Runs(x, NotSeparator) + Runs(y, NotSeparator);
    KeepWordsConcat(Runs(x, NotSeparator), Runs(y, NotSeparator));
  }

  /** A text without separators is one search word in lower case, or none when it has no
      letter and no digit. */
  lemma OneSearchWord(w: string)
    requires All(w, NotSeparator)
    ensures var word := TrimSpace(ToLower(w));
            SearchWords(w) == if exists i :: 0 <= i < |word| && IsAlnum(word[i]) then [word] else []
  {
    hide Runs, TrimSpace;
    var lower := ToLower(w);
    if w == [] {
      NoRuns(lower, NotSeparator);
      assert TrimSpace(lower) == [] by { TrimmedStays([]); }
    } else {
      assert All(lower, NotSeparator);
      SingleRun(lower, NotSeparator);
      KeepOne(lower);
    }
  }

  lemma KeepOne(w: string)
    ensures KeepWords([w]) == if HasAlnum(TrimSpace(w)) then [TrimSpace(w)] else []
  {
    hide TrimSpace, HasAlnum;
    assert [w][..0] == [];
  }

  // --------------------------------------------------------- the sub-commands

  /** The words that ask for a search, for what is near, or for a list, in any case. */
  lemma SubCommands(word: string, rest: string)
    requires IsWord(word) && word[0] != '/' && rest != [] && Trimmed(rest)
    ensures SplitDiscovery(word + " " + rest)
         == if ToLower(word) in {"search", "near", "list"} then (ToLower(word), rest) else ("", word + " " + rest)
  {
    hide SplitCommandLine, ToLower;
    SplitWordAndRest(word, rest);
  }

  /** A word alone is a command without arguments, and an empty line none. */
  lemma WordAlone(word: string)
    requires IsWord(word) && word[0] != '/'
    ensures SplitCommandLine(word) == (ToLower(word), "")
    ensures SplitCommandLine("") == ("", "")
  {
    hide RunLength, TrimSpace, ToLower, IsSpace;
    assert NotSpace(word[0]) && NotSpace(word[|word| - 1]);
    TrimmedStays(word);
    TrimmedStays("");
    WordIsUnbroken(word);
  }

  lemma WordIsUnbroken(word: string)
    requires IsWord(word)
    ensures RunLength(word, NotBlank) == |word|
  {
    hide RunLength;
    forall i | 0 <= i < |word| ensures NotBlank(word[i]) { assert NotSpace(word[i]); }
    assert word[..|word|] == word;
    RunLengthIs(word, NotBlank, |word|);
  }

  /** The command of a page without a sub-command, and that of a nearness query, which has
      no page number. */
  lemma OtherCommandTexts(name: string, text: string, page: nat)
    requires TrimSpace(text) == text
    ensures Command(Query(name, "", text), page) == name + " " + PageArguments(text, page)
    ensures text != "" ==> Command(Query(name, "near", text), page) == name + " near " + text
  {
    hide TrimSpace, Itoa;
    var n := Itoa(page);
    if text == "" {
      assert [name] + [] + [] + [n] == [name, n];
      JoinTwo(name, n);
    } else {
      assert [name] + [] + [text] + [n] == [name, text, n];
      JoinThree(name, text, n);
      assert [name] + ["near"] + [text] + [] == [name, "near", text];
      JoinThree(name, "near", text);
      assert name + " " + ("near" + " " + text) == name + " near " + text;
    }
  }

  lemma JoinTwo(a: string, b: string)
    ensures Join([a, b], " ") == a + " " + b
  {
    assert [a, b][1..] == [b];
  }
}
