/** The parser and the evaluator of the KJV word-query language (bot/kjv-query.go).
    Go's regexp package is a parameter: which texts compile, and which words they match. */
module KjvQuery {
  import opened Text
  import opened KjvTokens
  import KjvWildcard

  /** regexp.Compile (does the text compile?) and MatchString. */
  datatype Engine = Engine(compiles: string -> bool, accepts: (string, string) -> bool)

  datatype Node =
    | WordNode(value: string)
    | WildcardNode(pattern: string, regexp: string)
    | AnyWord
    | Phrase(words: seq<Node>)
    | Or(alternatives: seq<Node>)

  datatype Query = Query(required: seq<Node>, forbidden: seq<Node>)

  // ------------------------------------------------------- terms become nodes

  function LowerAll(words: seq<string>): (r: seq<string>)
    ensures |r| == |words|
    ensures forall i :: 0 <= i < |words| ==> r[i] == ToLower(words[i])
  {
    seq(|words|, i requires 0 <= i < |words| => ToLower(words[i]))
  }

  lemma LowerAllConcat(a: seq<string>, b: seq<string>)
    ensures LowerAll(a + b) == LowerAll(a) + LowerAll(b)
  {
  }

  /** The lowercase alphanumeric words of a text. */
  function VerseWords(text: string): seq<string> {
    LowerAll(Runs(text, IsAlnum))
  }

  /** kjvVerseWords: a word is cut where an alphanumeric run ends. */
  method SplitVerse(text: string) returns (words: seq<string>)
    ensures words == VerseWords(text)
  {
    hide IsAlnum, ToLower, Runs, LowerAll, Pending;
    words := [];
    var start := -1;
    var i := 0;
    ghost var runs: seq<string>, word: string := [], [];
    ghost var goal := Pending([], text, IsAlnum);
    LowerAllEmpty();
    assert text[0..] == text;
    while i <= |text|
      invariant 0 <= i <= |text| + 1 && -1 <= start < i
      invariant words == LowerAll(runs)
      invariant i <= |text| ==> word == (if start < 0 then [] else text[start..i])
      invariant i <= |text| ==> goal == runs + Pending(word, text[i..], IsAlnum)
      invariant i == |text| + 1 ==> goal == runs
      decreases |text| - i
    {
      PendingUnfolds(word, text, i, IsAlnum);
      if i < |text| && IsAlnum(text[i]) {
        if start < 0 { start := i; }
        assert text[start..i + 1] == text[start..i] + [text[i]];
        word := word + [text[i]];
      } else if start >= 0 {
        LowerOne(runs, word);
        words := words + [ToLower(text[start..i])];
        runs, word := runs + [word], [];
        start := -1;
      }
      i := i + 1;
    }
    PendingIsRuns([], text, IsAlnum);
    assert [] + text == text;
  }

  lemma PendingUnfolds(word: string, text: string, i: nat, keep: char -> bool)
    requires i <= |text|
    ensures i < |text| && keep(text[i]) ==>
              Pending(word, text[i..], keep) == Pending(word + [text[i]], text[i + 1..], keep)
    ensures i == |text| ==> Pending(word, text[i..], keep) == Flush(word)
    ensures i < |text| && !keep(text[i]) ==>
              Pending(word, text[i..], keep) == Flush(word) + Pending([], text[i + 1..], keep)
  {
    if i < |text| { assert text[i..][1..] == text[i + 1..]; }
  }

  lemma LowerAllEmpty()
    ensures LowerAll([]) == []
  {
  }

  lemma LowerOne(words: seq<string>, w: string)
    ensures LowerAll(words + [w]) == LowerAll(words) + [ToLower(w)]
  {
  }

  /** The characters the punctuation regexp takes off the front of a term. */
  predicate LeadPunct(c: char) {
    !IsAlnum(c) && c != '_' && c != '*' && c != '?' && c != '['
  }

  /** The characters it takes off the back. */
  predicate TrailPunct(c: char) {
    !IsAlnum(c) && c != '_' && c != '*' && c != ']'
  }

  function StripTrail(s: string): string {
    if s != [] && TrailPunct(s[|s| - 1]) then StripTrail(s[..|s| - 1]) else s
  }

  function StripPunct(s: string): string {
    StripTrail(s[RunLength(s, LeadPunct)..])
  }

  predicate HasWildcard(s: string) {
    '*' in s || '?' in s || '[' in s || ']' in s
  }

  function WordNodes(words: seq<string>): (nodes: seq<Node>)
    ensures |nodes| == |words|
    ensures forall i :: 0 <= i < |words| ==> nodes[i] == WordNode(words[i])
  {
    seq(|words|, i requires 0 <= i < |words| => WordNode(words[i]))
  }

  /** kjvMakeWordNode. */
  function MakeWordNode(value: string, engine: Engine): Node {
    var cleaned := StripPunct(value);
    if cleaned == "" then WordNode(ToLower(value))
    else if HasWildcard(cleaned) then
      var regexp := KjvWildcard.Translate(cleaned);
      if engine.compiles(regexp) then WildcardNode(cleaned, regexp) else WordNode(ToLower(cleaned))
    else
      var parts := VerseWords(cleaned);
      if |parts| == 0 then WordNode(ToLower(cleaned))
      else if |parts| == 1 then WordNode(parts[0])
      else Phrase(WordNodes(parts))
  }

  /** kjvFlattenPhrase. */
  function FlattenPhrase(nodes: seq<Node>): seq<Node> {
    if nodes == [] then []
    else
      var last := nodes[|nodes| - 1];
      FlattenPhrase(nodes[..|nodes| - 1]) + (if last.Phrase? then last.words else [last])
  }

  // ------------------------------------------------------------- the parser

  /** How many tokens come before the next phrase end. */
  function PhraseLength(toks: seq<Token>): (n: nat)
    ensures n <= |toks|
    ensures forall i :: 0 <= i < n ==> toks[i] != PhraseEnd
    ensures n < |toks| ==> toks[n] == PhraseEnd
  {
    if toks == [] || toks[0] == PhraseEnd then 0 else 1 + PhraseLength(toks[1..])
  }

  function PhraseNode(t: Token, engine: Engine): seq<Node> {
    match t
    case Word(value, _) => [MakeWordNode(value, engine)]
    case Star => [AnyWord]
    case _ => []
  }

  /** The nodes of the tokens inside a phrase. */
  function PhraseNodes(toks: seq<Token>, engine: Engine): seq<Node> {
    if toks == [] then []
    else PhraseNodes(toks[..|toks| - 1], engine) + PhraseNode(toks[|toks| - 1], engine)
  }

  predicate AnyExcluded(toks: seq<Token>) {
    exists i :: 0 <= i < |toks| && toks[i].Word? && toks[i].exclude
  }

  /** What one alternative of a group contributes: nodes, the exclude mark, and how many
      tokens it takes. */
  datatype Parsed = Parsed(nodes: seq<Node>, exclude: bool, taken: nat)

  function ClosePhrase(phrase: seq<Node>): seq<Node> {
    if |phrase| > 1 then [Phrase(phrase)] else phrase
  }

  function Element(toks: seq<Token>, engine: Engine): (r: Parsed)
    requires toks != [] && !toks[0].Pipe?
    ensures 0 < r.taken <= |toks|
  {
    match toks[0]
    case Word(value, exclude) => Parsed([MakeWordNode(value, engine)], exclude, 1)
    case Star => Parsed([AnyWord], false, 1)
    case PhraseStart =>
      var n := PhraseLength(toks[1..]);
      var inner := toks[1..][..n];
      Parsed(ClosePhrase(FlattenPhrase(PhraseNodes(inner, engine))), AnyExcluded(inner),
             if n + 1 < |toks| then n + 2 else |toks|)
    case PhraseEnd => Parsed([], false, 1)
  }

  function Joined(a: Parsed, b: Parsed): Parsed {
    Parsed(a.nodes + b.nodes, a.exclude || b.exclude, a.taken + b.taken)
  }

  /** One OR group: alternatives as long as pipes join them. */
  function Group(toks: seq<Token>, engine: Engine): (r: Parsed)
    ensures r.taken <= |toks|
    ensures toks != [] ==> r.taken > 0
    decreases |toks|
  {
    if toks == [] then Parsed([], false, 0)
    else if toks[0].Pipe? then
      var g := Group(toks[1..], engine);
      g.(taken := g.taken + 1)
    else
      var e := Element(toks, engine);
      var rest := toks[e.taken..];
      if rest == [] || !rest[0].Pipe? then e else Joined(e, Group(rest, engine))
  }

  /** A finished group joins the terms that must match or the terms that must not. */
  function AddGroup(q: Query, nodes: seq<Node>, exclude: bool): Query {
    if nodes == [] then q
    else
      var node := if |nodes| > 1 then Or(nodes) else nodes[0];
      if exclude then q.(forbidden := q.forbidden + [node])
      else if node.AnyWord? then q
      else q.(required := q.required + [node])
  }

  function Append(a: Query, b: Query): Query {
    Query(a.required + b.required, a.forbidden + b.forbidden)
  }

  function ParseTokens(toks: seq<Token>, engine: Engine): Query
    decreases |toks|
  {
    if toks == [] then Query([], [])
    else if toks[0].Pipe? then ParseTokens(toks[1..], engine)
    else
      var g := Group(toks, engine);
      Append(AddGroup(Query([], []), g.nodes, g.exclude), ParseTokens(toks[g.taken..], engine))
  }

  function ParseQuery(input: string, engine: Engine): Query {
    ParseTokens(Tokens(input), engine)
  }

  /** The phrase loop of kjvParseQuery, started after the opening token. */
  method ParsePhrase(tokens: seq<Token>, start: nat, engine: Engine)
    returns (phrase: seq<Node>, exclude: bool, i: nat)
    requires start <= |tokens|
    ensures i == start + PhraseLength(tokens[start..]) <= |tokens|
    ensures phrase == PhraseNodes(tokens[start..i], engine)
    ensures exclude == AnyExcluded(tokens[start..i])
  {
    hide MakeWordNode, PhraseNodes, AnyExcluded;
    phrase, exclude, i := [], false, start;
    NoPhraseYet(engine);
    assert tokens[start..start] == [];
    while i < |tokens| && tokens[i] != PhraseEnd
      invariant start <= i <= |tokens|
      invariant forall j :: start <= j < i ==> tokens[j] != PhraseEnd
      invariant phrase == PhraseNodes(tokens[start..i], engine)
      invariant exclude == AnyExcluded(tokens[start..i])
    {
      assert tokens[start..i + 1] == tokens[start..i] + [tokens[i]];
      OneMoreToken(tokens[start..i], tokens[i], engine);
      match tokens[i] {
        case Word(value, ex) =>
          if ex { exclude := true; }
          phrase := phrase + [MakeWordNode(value, engine)];
        case Star =>
          phrase := phrase + [AnyWord];
        case _ =>
      }
      i := i + 1;
    }
    PhraseLengthIs(tokens[start..], i - start);
  }

  lemma NoPhraseYet(engine: Engine)
    ensures PhraseNodes([], engine) == [] && !AnyExcluded([])
  {
  }

  lemma OneMoreToken(toks: seq<Token>, t: Token, engine: Engine)
    ensures PhraseNodes(toks + [t], engine)
         == PhraseNodes(toks, engine) + PhraseNode(t, engine)
    ensures AnyExcluded(toks + [t]) <==> AnyExcluded(toks) || (t.Word? && t.exclude)
  {
    assert (toks + [t])[..|toks|] == toks;
    if AnyExcluded(toks) {
      var i :| 0 <= i < |toks| && toks[i].Word? && toks[i].exclude;
      assert (toks + [t])[i] == toks[i];
    }
    if t.Word? && t.exclude {
      assert (toks + [t])[|toks|] == t;
    }
  }

  lemma {:induction false} PhraseLengthIs(toks: seq<Token>, n: nat)
    requires n <= |toks|
    requires forall i :: 0 <= i < n ==> toks[i] != PhraseEnd
    requires n < |toks| ==> toks[n] == PhraseEnd
    ensures PhraseLength(toks) == n
  {
    if n > 0 { PhraseLengthIs(toks[1..], n - 1); }
  }

  /** The switch over one token of a group. */
  method ParseElement(tokens: seq<Token>, start: nat, engine: Engine) returns (r: Parsed)
    requires start < |tokens| && !tokens[start].Pipe?
    ensures r == Element(tokens[start..], engine)
  {
    hide MakeWordNode, PhraseNodes, FlattenPhrase, AnyExcluded;
    match tokens[start] {
      case Word(value, exclude) =>
        r := Parsed([MakeWordNode(value, engine)], exclude, 1);
      case Star =>
        r := Parsed([AnyWord], false, 1);
      case PhraseStart =>
        var phrase, exclude, i := ParsePhrase(tokens, start + 1, engine);
        assert tokens[start..][1..] == tokens[start + 1..];
        assert tokens[start + 1..][..i - start - 1] == tokens[start + 1..i];
        if i < |tokens| { i := i + 1; }
        r := Parsed(ClosePhrase(FlattenPhrase(phrase)), exclude, i - start);
      case PhraseEnd =>
        r := Parsed([], false, 1);
    }
  }

  /** The group loop of kjvParseQuery. */
  method ParseGroup(tokens: seq<Token>, start: nat, engine: Engine) returns (r: Parsed)
    requires start <= |tokens|
    ensures r == Group(tokens[start..], engine)
  {
    hide Element, Group, Joined;
    var done, i := Parsed([], false, 0), start;
    ghost var goal := Group(tokens[start..], engine);
    JoinedEmpty(goal);
    while i < |tokens|
      invariant start <= i <= |tokens|
      invariant goal == Joined(done, Group(tokens[i..], engine))
    {
      if tokens[i].Pipe? {
        GroupAtPipe(tokens, i, done, engine);
        i, done := i + 1, done.(taken := done.taken + 1);
        continue;
      }
      var e := ParseElement(tokens, i, engine);
      GroupAtElement(tokens, i, done, engine);
      i, done := i + e.taken, Joined(done, e);
      if i >= |tokens| || !tokens[i].Pipe? {
        return done;
      }
    }
    JoinedEmpty(done);
    GroupOfNothing(tokens[i..], engine);
    return done;
  }

  lemma JoinedEmpty(a: Parsed)
    ensures Joined(a, Parsed([], false, 0)) == a == Joined(Parsed([], false, 0), a)
  {
  }

  lemma GroupOfNothing(toks: seq<Token>, engine: Engine)
    ensures toks == [] ==> Group(toks, engine) == Parsed([], false, 0)
  {
  }

  lemma GroupAtPipe(tokens: seq<Token>, i: nat, done: Parsed, engine: Engine)
    requires i < |tokens| && tokens[i].Pipe?
    ensures Joined(done, Group(tokens[i..], engine))
         == Joined(done.(taken := done.taken + 1), Group(tokens[i + 1..], engine))
  {
    assert tokens[i..][1..] == tokens[i + 1..];
  }

  lemma GroupAtElement(tokens: seq<Token>, i: nat, done: Parsed, engine: Engine)
    requires i < |tokens| && !tokens[i].Pipe?
    ensures var e := Element(tokens[i..], engine);
            var ends := i + e.taken >= |tokens| || !tokens[i + e.taken].Pipe?;
            && (ends ==> Joined(done, Group(tokens[i..], engine)) == Joined(done, e))
            && (!ends ==>
                  Joined(done, Group(tokens[i..], engine))
                  == Joined(Joined(done, e), Group(tokens[i + e.taken..], engine)))
  {
    hide Element;
    var e := Element(tokens[i..], engine);
    var rest := tokens[i + e.taken..];
    assert tokens[i..][e.taken..] == rest;
    if i + e.taken < |tokens| && rest[0].Pipe? {
      JoinedAssociates(done, e, Group(rest, engine));
    }
  }

  lemma JoinedAssociates(a: Parsed, b: Parsed, c: Parsed)
    ensures Joined(Joined(a, b), c) == Joined(a, Joined(b, c))
  {
  }

  /** kjvParseQuery. */
  method Parse(input: string, engine: Engine) returns (q: Query)
    ensures q == ParseQuery(input, engine)
  {
    hide Tokens, Group;
    var tokens := Tokenize(input);
    q := Query([], []);
    var i := 0;
    assert tokens[0..] == tokens;
    while i < |tokens|
      invariant 0 <= i <= |tokens|
      invariant Append(q, ParseTokens(tokens[i..], engine)) == ParseTokens(tokens, engine)
    {
      if tokens[i].Pipe? {
        assert tokens[i..][1..] == tokens[i + 1..];
        i := i + 1;
        continue;
      }
      var g := ParseGroup(tokens, i, engine);
      assert tokens[i..][g.taken..] == tokens[i + g.taken..];
      AddGroupAppends(q, g.nodes, g.exclude, ParseTokens(tokens[i + g.taken..], engine));
      q := AddGroup(q, g.nodes, g.exclude);
      i := i + g.taken;
    }
  }

  lemma AddGroupAppends(q: Query, nodes: seq<Node>, exclude: bool, rest: Query)
    ensures Append(q, Append(AddGroup(Query([], []), nodes, exclude), rest))
         == Append(AddGroup(q, nodes, exclude), rest)
  {
  }
}
