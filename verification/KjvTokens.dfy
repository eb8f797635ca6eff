/** The tokenizer of the KJV word-query language (bot/kjv-query.go). */
module KjvTokens {
  import opened Text

  datatype Token =
    | Word(value: string, exclude: bool)
    | Pipe
    | Star
    | PhraseStart
    | PhraseEnd

  /** The characters readWord consumes. */
  predicate InWord(c: char) {
    !IsSpace(c) && c != '|' && c != '"'
  }

  predicate NotQuote(c: char) {
    c != '"'
  }

  /** The token of one word inside a quoted phrase; an excluded phrase has no any-word slot. */
  function PhraseToken(word: string, exclude: bool): Token {
    if exclude then Word(word, true)
    else if word == "*" then Star
    else Word(word, false)
  }

  function PhraseTokens(words: seq<string>, exclude: bool): (toks: seq<Token>)
    ensures |toks| == |words|
    ensures forall i :: 0 <= i < |words| ==> toks[i] == PhraseToken(words[i], exclude)
  {
    seq(|words|, i requires 0 <= i < |words| => PhraseToken(words[i], exclude))
  }

  /** The tokens of a phrase whose body starts at `k`, and how far it reaches: past the
      closing quote, or to the end of the text when there is none. */
  function PhraseAt(s: string, k: nat, exclude: bool): (seq<Token>, nat)
    requires k <= |s|
  {
    var q := RunLength(s[k..], NotQuote);
    ([PhraseStart] + PhraseTokens(Fields(s[k..][..q]), exclude) + [PhraseEnd],
     if k + q < |s| then k + q + 1 else |s|)
  }

  /** One turn of the tokenizer: the tokens it emits and the characters it consumes. */
  function Step(s: string): (r: (seq<Token>, nat))
    requires s != []
    ensures 0 < r.1 <= |s|
  {
    var c := s[0];
    if IsSpace(c) then ([], 1)
    else if c == '"' then PhraseAt(s, 1, false)
    else if c == '|' then ([Pipe], 1)
    else if c == '-' && |s| > 1 && !IsSpace(s[1]) && s[1] != '|' then
      if s[1] == '"' then PhraseAt(s, 2, true)
      else
        var n := RunLength(s[1..], InWord);
        ([Word(s[1..][..n], true)], n + 1)
    else if c == '*' && (|s| == 1 || IsSpace(s[1]) || s[1] == '|') then ([Star], 1)
    else
      var n := RunLength(s, InWord);
      ([if s[..n] == "*" then Star else Word(s[..n], false)], n)
  }

  function Tokens(s: string): seq<Token>
    decreases |s|
  {
    if s == [] then []
    else Step(s).0 + Tokens(s[Step(s).1..])
  }

  // ------------------------------------------------- the loops refine Tokens

  /** readWord: the run of word characters starting at `start`. */
  method ReadWord(s: string, start: nat) returns (word: string, i: nat)
    requires start <= |s|
    ensures i == start + RunLength(s[start..], InWord) <= |s|
    ensures word == s[start..i]
  {
    word, i := [], start;
    while i < |s| && InWord(s[i])
      invariant start <= i <= |s|
      invariant word == s[start..i]
      invariant forall j :: start <= j < i ==> InWord(s[j])
    {
      word := word + [s[i]];
      i := i + 1;
    }
    RunLengthIs(s[start..], InWord, i - start);
  }

  lemma PhraseTokensAppend(words: seq<string>, w: string, exclude: bool)
    ensures PhraseTokens(words + [w], exclude) == PhraseTokens(words, exclude) + [PhraseToken(w, exclude)]
  {
  }

  /** The words still to come in a phrase when `word` is pending and `s` is unread. */
  ghost function Remaining(word: string, s: string): seq<string>
    decreases |s|
  {
    if s == [] || s[0] == '"' then Flush(word)
    else if IsSpace(s[0]) then Flush(word) + Remaining([], s[1..])
    else Remaining(word + [s[0]], s[1..])
  }

  lemma {:induction false} RemainingIsFields(word: string, s: string)
    requires All(word, NotSpace)
    ensures Remaining(word, s) == Fields(word + s[..RunLength(s, NotQuote)])
    decreases |s|
  {
    var q := RunLength(s, NotQuote);
    if q == 0 {
      assert word + s[..q] == word;
      if word != [] { SingleRun(word, NotSpace); }
    } else {
      var rest := s[1..][..q - 1];
      assert s[..q] == [s[0]] + rest;
      assert word + s[..q] == word + [s[0]] + rest;
      if IsSpace(s[0]) {
        PendingWord(word, s[0], rest, NotSpace);
        RemainingIsFields([], s[1..]);
        assert [] + rest == rest;
      } else {
        RemainingIsFields(word + [s[0]], s[1..]);
      }
    }
  }

  /** The two quoted-phrase loops: they differ only in the token of one word. */
  method PhraseLoop(s: string, start: nat, exclude: bool) returns (tokens: seq<Token>, i: nat)
    requires start <= |s|
    ensures i == start + RunLength(s[start..], NotQuote) <= |s|
    ensures tokens == PhraseTokens(Remaining([], s[start..]), exclude)
  {
    hide IsSpace, RunLength, PhraseToken, PhraseTokens, Remaining;
    tokens, i := [], start;
    var word: string := [];
    ghost var words: seq<string>, goal := [], Remaining([], s[start..]);
    assert PhraseTokens(words, exclude) == [];
    while i < |s| && s[i] != '"'
      invariant start <= i <= |s|
      invariant forall j :: start <= j < i ==> NotQuote(s[j])
      invariant tokens == PhraseTokens(words, exclude)
      invariant goal == words + Remaining(word, s[i..])
    {
      RemainingUnfolds(word, s, i);
      if IsSpace(s[i]) {
        if word != [] {
          PhraseTokensAppend(words, word, exclude);
          tokens, words := tokens + [PhraseToken(word, exclude)], words + [word];
          word := [];
        }
      } else {
        word := word + [s[i]];
      }
      i := i + 1;
    }
    RemainingUnfolds(word, s, i);
    if word != [] {
      PhraseTokensAppend(words, word, exclude);
      tokens, words := tokens + [PhraseToken(word, exclude)], words + [word];
    }
    RunLengthIs(s[start..], NotQuote, i - start);
  }

  lemma RemainingUnfolds(word: string, s: string, i: nat)
    requires i <= |s|
    ensures i == |s| || s[i] == '"' ==> Remaining(word, s[i..]) == Flush(word)
    ensures i < |s| && s[i] != '"' && IsSpace(s[i]) ==>
              Remaining(word, s[i..]) == Flush(word) + Remaining([], s[i + 1..])
    ensures i < |s| && s[i] != '"' && !IsSpace(s[i]) ==>
              Remaining(word, s[i..]) == Remaining(word + [s[i]], s[i + 1..])
  {
    if i < |s| { assert s[i..][1..] == s[i + 1..]; }
  }

  method ReadPhrase(s: string, start: nat, exclude: bool) returns (tokens: seq<Token>, i: nat)
    requires start <= |s|
    ensures (tokens, i) == PhraseAt(s, start, exclude)
  {
    hide Runs, Fields, RunLength, Remaining;
    tokens, i := PhraseLoop(s, start, exclude);
    RemainingIsFields([], s[start..]);
    assert [] + s[start..][..i - start] == s[start..][..i - start];
    if i < |s| {
      i := i + 1;
    }
    tokens := [PhraseStart] + tokens + [PhraseEnd];
  }

  /** One turn of the outer loop of kjvTokenize. */
  method Turn(s: string, i: nat) returns (emitted: seq<Token>, next: nat)
    requires i < |s|
    ensures i < next <= |s|
    ensures (emitted, next - i) == Step(s[i..])
  {
    hide Runs, RunLength, Fields, PhraseTokens, IsSpace;
    ghost var rest := s[i..];
    emitted, next := [], i + 1;
    if IsSpace(s[i]) {
    } else if s[i] == '"' {
      emitted, next := ReadPhrase(s, i + 1, false);
      assert s[i + 1..] == rest[1..];
    } else if s[i] == '|' {
      emitted := [Pipe];
    } else if s[i] == '-' && i + 1 < |s| && !IsSpace(s[i + 1]) && s[i + 1] != '|' {
      if s[i + 1] == '"' {
        emitted, next := ReadPhrase(s, i + 2, true);
        assert s[i + 2..] == rest[2..];
      } else {
        var word;
        word, next := ReadWord(s, i + 1);
        assert s[i + 1..] == rest[1..];
        WordStarts(rest[1..]);
        assert word == rest[1..][..next - i - 1];
        if word != "" {
          emitted := [Word(word, true)];
        }
      }
    } else if s[i] == '*' && (i + 1 >= |s| || IsSpace(s[i + 1]) || s[i + 1] == '|') {
      emitted := [Star];
    } else {
      var word;
      word, next := ReadWord(s, i);
      WordStarts(rest);
      assert word == rest[..next - i];
      if word == "*" {
        emitted := [Star];
      } else if word != "" {
        emitted := [Word(word, false)];
      }
    }
  }

  lemma WordStarts(s: string)
    requires s != [] && InWord(s[0])
    ensures RunLength(s, InWord) > 0
  {
  }

  /** kjvTokenize. */
  method Tokenize(s: string) returns (tokens: seq<Token>)
    ensures tokens == Tokens(s)
  {
    hide Step;
    tokens := [];
    var i := 0;
    assert s[0..] == s;
    while i < |s|
      invariant 0 <= i <= |s|
      invariant tokens + Tokens(s[i..]) == Tokens(s)
    {
      var emitted, next := Turn(s, i);
      assert s[i..][next - i..] == s[next..];
      tokens, i := tokens + emitted, next;
    }
  }

  // ------------------------------------------------------ joining two queries

  /** The text holds an even number of double quotes. */
  predicate EvenQuotes(s: string) {
    s == [] || (if s[0] == '"' then !EvenQuotes(s[1..]) else EvenQuotes(s[1..]))
  }

  lemma {:induction false} EvenQuotesConcat(a: string, b: string)
    ensures EvenQuotes(a + b) <==> (EvenQuotes(a) <==> EvenQuotes(b))
  {
    if a == [] {
      assert a + b == b;
    } else {
      assert (a + b)[1..] == a[1..] + b;
      EvenQuotesConcat(a[1..], b);
    }
  }

  /** A prefix without quotes does not change the parity. */
  lemma {:induction false} QuotesAfter(s: string, n: nat)
    requires n <= |s| && All(s[..n], NotQuote)
    ensures EvenQuotes(s) <==> EvenQuotes(s[n..])
  {
    if n > 0 {
      assert s[..n][0] == s[0];
      assert s[1..][..n - 1] == s[..n][1..];
      QuotesAfter(s[1..], n - 1);
      assert s[1..][n - 1..] == s[n..];
    }
  }

  /** A run that ends inside `a` is the same run in any text that extends `a` with a
      character the run cannot contain. */
  lemma RunLengthExtends(a: string, c: char, b: string, keep: char -> bool)
    requires RunLength(a, keep) < |a| || !keep(c)
    ensures RunLength(a + [c] + b, keep) == RunLength(a, keep)
    ensures (a + [c] + b)[..RunLength(a, keep)] == a[..RunLength(a, keep)]
  {
    var n := RunLength(a, keep);
    assert (a + [c] + b)[..n] == a[..n];
    RunLengthIs(a + [c] + b, keep, n);
  }

  /** A phrase that is closed inside `a` is the same phrase in every extension of `a`. */
  lemma PhraseAtExtends(a: string, k: nat, exclude: bool, b: string)
    requires k <= |a| && RunLength(a[k..], NotQuote) < |a| - k
    ensures PhraseAt(a + " " + b, k, exclude) == PhraseAt(a, k, exclude)
  {
    assert (a + " " + b)[k..] == a[k..] + " " + b;
    RunLengthExtends(a[k..], ' ', b, NotQuote);
  }

  /** The run up to the next quote ends at one, or there is none. */
  lemma QuoteAhead(s: string)
    ensures var q := RunLength(s, NotQuote);
            if q == |s| then EvenQuotes(s) else EvenQuotes(s[q + 1..]) == !EvenQuotes(s)
  {
    var q := RunLength(s, NotQuote);
    QuotesAfter(s, q);
    if q < |s| {
      assert s[q..][1..] == s[q + 1..];
    }
  }

  lemma WordHasNoQuotes(s: string)
    ensures EvenQuotes(s[RunLength(s, InWord)..]) <==> EvenQuotes(s)
  {
    var n := RunLength(s, InWord);
    assert All(s[..n], NotQuote);
    QuotesAfter(s, n);
  }

  predicate EndsPhrase(toks: seq<Token>) {
    toks != [] && toks[|toks| - 1] == PhraseEnd
  }

  /** A phrase whose body starts at k takes one quote, or runs to the end of the text. */
  lemma PhraseQuotes(s: string, k: nat, exclude: bool)
    requires k <= |s|
    ensures var (toks, n) := PhraseAt(s, k, exclude);
            && EndsPhrase(toks)
            && k <= n <= |s|
            && (EvenQuotes(s[n..]) == !EvenQuotes(s[k..]) || (n == |s| && EvenQuotes(s[k..])))
  {
    hide Runs, Fields, EvenQuotes;
    QuoteAhead(s[k..]);
    var n := PhraseAt(s, k, exclude).1;
    var q := RunLength(s[k..], NotQuote);
    if q < |s| - k {
      assert s[k..][q + 1..] == s[n..];
    }
  }

  /** One turn keeps the parity of the quotes that are left, unless it is a phrase that
      no quote closes: then it ends the text. */
  lemma StepQuotes(s: string)
    requires s != []
    ensures var (toks, n) := Step(s);
            || EvenQuotes(s[n..]) == EvenQuotes(s)
            || (n == |s| && !EvenQuotes(s) && EndsPhrase(toks))
  {
    hide Runs, Fields, RunLength, PhraseAt, EvenQuotes, IsSpace, EndsPhrase;
    var (toks, n) := Step(s);
    OperatorsAreNotSpaces();
    FirstQuote(s);
    if s[0] == '"' {
      PhraseQuotes(s, 1, false);
      assert (toks, n) == PhraseAt(s, 1, false);
    } else if s[0] == '-' && |s| > 1 && !IsSpace(s[1]) && s[1] != '|' {
      assert s[1..][1..] == s[2..];
      if s[1] == '"' {
        FirstQuote(s[1..]);
        PhraseQuotes(s, 2, true);
        assert (toks, n) == PhraseAt(s, 2, true);
      } else {
        WordHasNoQuotes(s[1..]);
        assert s[1..][n - 1..] == s[n..];
        assert EvenQuotes(s[n..]) == EvenQuotes(s);
      }
    } else {
      WordHasNoQuotes(s);
      assert EvenQuotes(s[n..]) == EvenQuotes(s);
    }
  }

  lemma OperatorsAreNotSpaces()
    ensures !IsSpace('"') && !IsSpace('|') && !IsSpace('-') && !IsSpace('*') && IsSpace(' ')
  {
  }

  lemma FirstQuote(s: string)
    requires s != []
    ensures EvenQuotes(s) == (EvenQuotes(s[1..]) == (s[0] != '"'))
  {
  }

  /** One turn inside a text with an even number of quotes looks no further than the
      space that joins it to the next query. */
  lemma StepExtends(a: string, b: string)
    requires a != [] && EvenQuotes(a)
    ensures Step(a + " " + b) == Step(a)
  {
    hide Runs, Fields, RunLength, PhraseAt, EvenQuotes, IsSpace;
    OperatorsAreNotSpaces();
    var s := a + " " + b;
    var c := a[0];
    assert s[0] == c;
    assert s[1] == if |a| > 1 then a[1] else ' ';
    FirstQuote(a);
    if c == '"' {
      QuoteAhead(a[1..]);
      PhraseAtExtends(a, 1, false, b);
    } else if c == '-' && |a| > 1 && !IsSpace(a[1]) && a[1] != '|' {
      if a[1] == '"' {
        assert a[1..][1..] == a[2..];
        FirstQuote(a[1..]);
        QuoteAhead(a[2..]);
        PhraseAtExtends(a, 2, true, b);
      } else {
        assert s[1..] == a[1..] + " " + b;
        RunLengthExtends(a[1..], ' ', b, InWord);
      }
    } else {
      RunLengthExtends(a, ' ', b, InWord);
    }
  }

  /** With its quotes paired, the first query is tokenized on its own. */
  lemma {:induction false} TokensJoin(a: string, b: string)
    requires EvenQuotes(a)
    ensures Tokens(a + " " + b) == Tokens(a) + Tokens(b)
    decreases |a|
  {
    hide Step;
    var s := a + " " + b;
    if a == [] {
      SpaceIsSkipped(b);
      assert s == " " + b;
    } else {
      StepExtends(a, b);
      StepQuotes(a);
      var n := Step(a).1;
      assert s[n..] == a[n..] + " " + b;
      TokensJoin(a[n..], b);
    }
  }

  lemma SpaceIsSkipped(b: string)
    ensures Tokens(" " + b) == Tokens(b)
  {
    assert Step(" " + b) == ([], 1);
    assert (" " + b)[1..] == b;
  }

  /** With a quote left open, the phrase it opens ends the text. */
  lemma {:induction false} OpenQuoteEnds(s: string)
    requires !EvenQuotes(s)
    ensures EndsPhrase(Tokens(s))
    decreases |s|
  {
    hide Step;
    StepQuotes(s);
    var n := Step(s).1;
    if !EvenQuotes(s[n..]) {
      OpenQuoteEnds(s[n..]);
    } else {
      assert s[n..] == [];
    }
  }

  /** Joining concatenates the tokens for every second query exactly when the first
      query has its quotes paired. */
  lemma TokensJoinExactlyWhen(a: string)
    ensures (forall b :: Tokens(a + " " + b) == Tokens(a) + Tokens(b)) <==> EvenQuotes(a)
  {
    hide Step, Tokens;
    if EvenQuotes(a) {
      forall b
        ensures Tokens(a + " " + b) == Tokens(a) + Tokens(b)
      {
        TokensJoin(a, b);
      }
    } else {
      OpenQuoteSwallows(a);
    }
  }

  /** A query with a quote left open swallows a word that is joined to it. */
  lemma OpenQuoteSwallows(a: string)
    requires !EvenQuotes(a)
    ensures Tokens(a + " " + "x") != Tokens(a) + Tokens("x")
  {
    hide Step, Tokens;
    EvenQuotesConcat(a + " ", "x");
    EvenQuotesConcat(a, " ");
    OpenQuoteEnds(a + " " + "x");
    TokensOfX();
  }

  lemma TokensOfX()
    ensures Tokens("x") == [Word("x", false)]
  {
    SingleStep("x");
  }

  /** A text of word characters that starts no operator is one word token. */
  lemma SingleStep(w: string)
    requires w != [] && All(w, InWord) && w[0] != '-' && w != "*"
    ensures Tokens(w) == [Word(w, false)]
  {
    assert w[..|w|] == w;
    RunLengthIs(w, InWord, |w|);
    assert InWord(w[0]) && (|w| > 1 ==> InWord(w[1]));
    assert Step(w) == ([Word(w, false)], |w|);
    assert w[|w|..] == [];
  }
}
