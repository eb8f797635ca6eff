/** What quoted phrases and bare stars of a KJV query find (bot/kjv-query.go): a phrase of
    terms, with `*` for any one word, finds the words in a row. */
module KjvPhrase {
  import opened Text
  import opened KjvTokens
  import opened KjvQuery
  import opened KjvWildcard
  import opened KjvMatch

  // ---------------------------------------------------------- what a phrase asks

  /** One place of a phrase: this word, or any word. */
  type Pattern = seq<Option<string>>

  ghost predicate Item(t: string) {
    t == "*" || PlainTerm(t)
  }

  ghost predicate Items(items: seq<string>) {
    forall i :: 0 <= i < |items| ==> Item(items[i])
  }

  function Words(words: seq<string>): (p: Pattern)
    ensures |p| == |words|
    ensures forall i :: 0 <= i < |words| ==> p[i] == Some(words[i])
  {
    seq(|words|, i requires 0 <= i < |words| => Some(words[i]))
  }

  /** The places of one item: any word for a star, and the words of a term. */
  function Places(item: string): Pattern {
    if item == "*" then [None] else Words(VerseWords(item))
  }

  /** The places of the items, one after the other. */
  function Asked(items: seq<string>): Pattern {
    if items == [] then [] else Asked(items[..|items| - 1]) + Places(items[|items| - 1])
  }

  /** The verse has the words of the pattern in a row from this place on. */
  ghost predicate RowAt(words: seq<string>, p: Pattern, i: nat) {
    i + |p| <= |words| && forall k :: 0 <= k < |p| && p[k].Some? ==> words[i + k] == p[k].value
  }

  ghost predicate InARow(words: seq<string>, p: Pattern) {
    exists i: nat :: RowAt(words, p, i)
  }

  function Quoted(items: seq<string>): string {
    "\"" + Join(items, " ") + "\""
  }

  // ----------------------------------------------------------------- its tokens

  lemma ItemsAreWords(items: seq<string>)
    requires Items(items)
    ensures AreWords(items) && forall i :: 0 <= i < |items| ==> All(items[i], NotQuote)
  {
    forall i | 0 <= i < |items| ensures IsWord(items[i]) && All(items[i], NotQuote) {
      var t := items[i];
      assert Item(t);
      forall k | 0 <= k < |t| ensures NotSpace(t[k]) && NotQuote(t[k]) {
        if t == "*" { StarIsInWord(); } else { assert PlainChar(t[k]); }
      }
    }
  }

  lemma StarIsInWord()
    ensures InWord('*')
  {
  }

  /** The text of a quoted phrase is its tokens and nothing else. */
  lemma QuotedTokens(items: seq<string>, exclude: bool)
    requires Items(items)
    ensures Tokens((if exclude then "-" else "") + Quoted(items))
         == [PhraseStart] + PhraseTokens(items, exclude) + [PhraseEnd]
  {
    hide Runs, PhraseTokens, IsSpace, Items, AreWords;
    var body := Join(items, " ");
    ItemsAreWords(items);
    JoinInherits(items, NotQuote);
    FieldsOfJoin(items);
    var k := if exclude then 2 else 1;
    var s := (if exclude then "-" else "") + Quoted(items);
    assert s[k..] == body + "\"";
    assert (body + "\"")[..|body|] == body;
    RunLengthIs(s[k..], NotQuote, |body|);
    QuoteIsNoSpace();
    hide RunLength, Join, All;
    assert Step(s) == ([PhraseStart] + PhraseTokens(items, exclude) + [PhraseEnd], |s|);
    assert s[|s|..] == [];
    hide Step;
    assert Tokens(s[|s|..]) == [];
  }

  lemma QuoteIsNoSpace()
    ensures !IsSpace('"') && !IsSpace('-')
  {
  }

  // ------------------------------------------------------------------ its nodes

  /** The node of one place; an excluded phrase reads a star as a wildcard. */
  function PlaceNode(place: Option<string>, any: Node): Node {
    if place.Some? then WordNode(place.value) else any
  }

  function PlaceNodes(p: Pattern, any: Node): (nodes: seq<Node>)
    ensures |nodes| == |p|
    ensures forall i :: 0 <= i < |p| ==> nodes[i] == PlaceNode(p[i], any)
  {
    seq(|p|, i requires 0 <= i < |p| => PlaceNode(p[i], any))
  }

  function AnyNode(exclude: bool, engine: Engine): Node {
    if exclude then MakeWordNode("*", engine) else AnyWord
  }

  lemma FlattenAppend(nodes: seq<Node>, x: Node)
    ensures FlattenPhrase(nodes + [x]) == FlattenPhrase(nodes) + (if x.Phrase? then x.words else [x])
  {
    assert (nodes + [x])[..|nodes|] == nodes;
  }

  lemma PlacesAppend(p: Pattern, q: Pattern, any: Node)
    ensures PlaceNodes(p + q, any) == PlaceNodes(p, any) + PlaceNodes(q, any)
  {
  }

  /** The star is never read as a phrase of words. */
  lemma StarNode(engine: Engine)
    ensures var node := MakeWordNode("*", engine);
            node == if engine.compiles(Translate("*")) then WildcardNode("*", Translate("*")) else WordNode("*")
  {
    assert StripPunct("*") == "*" by {
      assert RunLength("*", LeadPunct) == 0;
      assert "*"[0..] == "*";
    }
    assert ToLower("*") == "*";
  }

  /** What one item of a phrase becomes, flattened. */
  lemma ItemNodes(item: string, exclude: bool, engine: Engine)
    requires Item(item)
    ensures var node := PhraseNode(PhraseToken(item, exclude), engine);
            && |node| == 1
            && (if node[0].Phrase? then node[0].words else node) == PlaceNodes(Places(item), AnyNode(exclude, engine))
  {
    hide MakeWordNode, VerseWords;
    var any := AnyNode(exclude, engine);
    if item == "*" {
      StarNode(engine);
      assert PlaceNodes([None], any) == [any];
    } else {
      PlainTermNode(item, engine);
      var parts := VerseWords(item);
      assert WordNodes(parts) == PlaceNodes(Words(parts), any);
      if |parts| == 1 { assert WordNodes(parts) == [WordNode(parts[0])]; }
    }
  }

  lemma {:induction false} PhraseIsItsPlaces(items: seq<string>, exclude: bool, engine: Engine)
    requires Items(items)
    ensures FlattenPhrase(PhraseNodes(PhraseTokens(items, exclude), engine))
         == PlaceNodes(Asked(items), AnyNode(exclude, engine))
  {
    hide PhraseToken, PhraseNode, Places, AnyNode;
    if items == [] {
      assert PhraseTokens(items, exclude) == [];
    } else {
      var n := |items| - 1;
      var before, last := items[..n], items[n];
      PhraseIsItsPlaces(before, exclude, engine);
      assert items == before + [last];
      PhraseTokensAppend(before, last, exclude);
      OneMoreToken(PhraseTokens(before, exclude), PhraseToken(last, exclude), engine);
      ItemNodes(last, exclude, engine);
      var x := PhraseNode(PhraseToken(last, exclude), engine)[0];
      assert PhraseNode(PhraseToken(last, exclude), engine) == [x];
      hide FlattenPhrase, PhraseNodes, PhraseTokens;
      FlattenAppend(PhraseNodes(PhraseTokens(before, exclude), engine), x);
      PlacesAppend(Asked(before), Places(last), AnyNode(exclude, engine));
    }
  }

  /** The one node of a phrase that asks for something. */
  function RowNode(p: Pattern, any: Node): Node
    requires p != []
  {
    if |p| == 1 then PlaceNode(p[0], any) else Phrase(PlaceNodes(p, any))
  }

  lemma PhraseGroup(items: seq<string>, exclude: bool, engine: Engine)
    requires Items(items)
    ensures var g := Group([PhraseStart] + PhraseTokens(items, exclude) + [PhraseEnd], engine);
            && g.taken == |items| + 2 && (g.exclude <==> exclude && items != [])
            && g.nodes == if Asked(items) == [] then [] else [RowNode(Asked(items), AnyNode(exclude, engine))]
  {
    hide FlattenPhrase, PhraseNodes, MakeWordNode, VerseWords, Asked, AnyNode;
    var inner := PhraseTokens(items, exclude);
    var toks := [PhraseStart] + inner + [PhraseEnd];
    assert toks[1..] == inner + [PhraseEnd];
    PhraseLengthIs(toks[1..], |items|);
    assert toks[1..][..|items|] == inner;
    PhraseIsItsPlaces(items, exclude, engine);
    hide PhraseLength;
    CloseRow(Asked(items), AnyNode(exclude, engine));
    if exclude && items != [] { assert inner[0].Word? && inner[0].exclude; }
  }

  lemma CloseRow(p: Pattern, any: Node)
    ensures ClosePhrase(PlaceNodes(p, any)) == if p == [] then [] else [RowNode(p, any)]
  {
    if |p| == 1 { assert PlaceNodes(p, any) == [PlaceNode(p[0], any)]; }
  }

  lemma {:induction false} AskedIsSomething(items: seq<string>)
    requires Items(items)
    ensures |Asked(items)| >= |items|
    ensures Asked(items) == [None] <==> items == ["*"]
  {
    if items != [] {
      var n := |items| - 1;
      AskedIsSomething(items[..n]);
      assert items == items[..n] + [items[n]];
      assert Item(items[n]);
      PlacesOf(items[n]);
      hide Places;
      if |items| == 1 {
        assert items == [items[0]] && items[..0] == [];
        assert Asked(items) == Places(items[0]);
      } else {
        assert |Asked(items)| >= 2;
        assert |["*"]| == 1;
      }
    }
  }

  lemma PlacesOf(item: string)
    requires Item(item)
    ensures |Places(item)| >= 1
    ensures Places(item) == [None] <==> item == "*"
  {
    hide VerseWords;
    if item != "*" {
      TermHasWords(item);
      assert Places(item)[0].Some?;
    }
  }

  lemma TermHasWords(t: string)
    requires PlainTerm(t)
    ensures VerseWords(t) != [] && t != "*"
  {
    var i :| 0 <= i < |t| && IsAlnum(t[i]);
    SomeRun(t, IsAlnum, i);
    assert PlainChar(t[0]);
  }

  /** A quoted phrase is one term, required or forbidden; a quoted star alone asks for
      nothing, and neither does an empty pair of quotes. */
  lemma QuotedQuery(items: seq<string>, exclude: bool, engine: Engine)
    requires Items(items)
    ensures var q := ParseQuery((if exclude then "-" else "") + Quoted(items), engine);
            var p, any := Asked(items), AnyNode(exclude, engine);
            && (items == [] || (items == ["*"] && !exclude) ==> q == Query([], []))
            && (items != [] && exclude ==> p != [] && q == Query([], [RowNode(p, any)]))
            && (items != [] && items != ["*"] && !exclude ==> p != [] && q == Query([RowNode(p, any)], []))
  {
    assert items == [] ==> Asked(items) == [];
    hide Tokens, Group, MakeWordNode, Asked, PhraseTokens, PlaceNodes, RowNode, ParseTokens, Append;
    QuotedTokens(items, exclude);
    PhraseGroup(items, exclude, engine);
    AskedIsSomething(items);
    StarNode(engine);
    var toks := [PhraseStart] + PhraseTokens(items, exclude) + [PhraseEnd];
    assert toks[|toks|..] == [];
    ParseAtGroup(toks, engine);
    var g := Group(toks, engine);
    EmptyParse(AddGroup(Query([], []), g.nodes, g.exclude), engine);
    if items != [] { RowIsAnyWord(Asked(items), AnyNode(exclude, engine)); }
  }

  lemma RowIsAnyWord(p: Pattern, any: Node)
    requires p != []
    ensures RowNode(p, any).AnyWord? <==> p == [None] && any.AnyWord?
  {
    if |p| == 1 { assert p == [p[0]]; }
  }

  // --------------------------------------------------------------- what it finds

  /** The any-word node takes every word of the verse. */
  ghost predicate TakesAll(words: seq<string>, any: Node, engine: Engine) {
    forall i :: 0 <= i < |words| ==> MatchWord(words[i], any, engine)
  }

  lemma PlaceMatches(words: seq<string>, p: Pattern, any: Node, i: nat, engine: Engine)
    requires Lowercase(words) && i + |p| <= |words|
    requires (exists k :: 0 <= k < |p| && p[k].None?) ==> TakesAll(words, any, engine)
    ensures PhraseMatchesAt(words, PlaceNodes(p, any), i, engine) <==> RowAt(words, p, i)
  {
    forall k | 0 <= k < |p|
      ensures MatchWord(words[i + k], PlaceNode(p[k], any), engine) <==> (p[k].Some? ==> words[i + k] == p[k].value)
    {
    }
    if RowAt(words, p, i) {
      forall k | 0 <= k < |p| ensures MatchWord(words[i + k], PlaceNodes(p, any)[k], engine) {
        assert p[k].Some? ==> words[i + k] == p[k].value;
      }
    }
    if PhraseMatchesAt(words, PlaceNodes(p, any), i, engine) {
      forall k | 0 <= k < |p| && p[k].Some? ensures words[i + k] == p[k].value {
        assert MatchWord(words[i + k], PlaceNodes(p, any)[k], engine);
      }
    }
  }

  /** A row node matches exactly the verses with its row. */
  lemma RowMatches(words: seq<string>, p: Pattern, any: Node, engine: Engine)
    requires Lowercase(words) && p != [] && (any.AnyWord? || any.WildcardNode? || any.WordNode?)
    requires (exists k :: 0 <= k < |p| && p[k].None?) ==> TakesAll(words, any, engine)
    ensures NodeMatches(words, RowNode(p, any), engine) <==> InARow(words, p)
  {
    hide PhraseMatchesAt, RowAt, TakesAll, PlaceNodes;
    if |p| == 1 {
      OneOfTheWords(words, p, any, engine);
    } else {
      var nodes := PlaceNodes(p, any);
      if i :| 0 <= i <= |words| - |nodes| && PhraseMatchesAt(words, nodes, i, engine) {
        PlaceMatches(words, p, any, i, engine);
      }
      if i: nat :| RowAt(words, p, i) {
        RowFits(words, p, i);
        PlaceMatches(words, p, any, i, engine);
        assert PhraseMatchesAt(words, nodes, i, engine);
      }
    }
  }

  lemma RowFits(words: seq<string>, p: Pattern, i: nat)
    requires RowAt(words, p, i)
    ensures i + |p| <= |words|
  {
  }

  lemma OneOfTheWords(words: seq<string>, p: Pattern, any: Node, engine: Engine)
    requires Lowercase(words) && |p| == 1 && (any.AnyWord? || any.WildcardNode? || any.WordNode?)
    requires p[0].None? ==> TakesAll(words, any, engine)
    ensures NodeMatches(words, RowNode(p, any), engine) <==> InARow(words, p)
  {
    var node := RowNode(p, any);
    if i :| 0 <= i < |words| && MatchWord(words[i], node, engine) {
      assert RowAt(words, p, i);
    }
    if i: nat :| RowAt(words, p, i) {
      assert MatchWord(words[i], node, engine);
    }
  }

  /** A quoted phrase of terms and stars finds exactly the verses that have its words in a
      row, any one word for each star. Alone between its quotes a star asks for nothing. */
  lemma QuotedPhraseFinds(items: seq<string>, words: seq<string>, engine: Engine)
    requires Items(items) && items != [] && items != ["*"] && Lowercase(words)
    ensures Finds(Quoted(items), words, engine) <==> InARow(words, Asked(items))
  {
    hide ParseQuery, NodeMatches, VerseMatches, InARow, Asked, RowNode;
    QuotedQuery(items, false, engine);
    assert "" + Quoted(items) == Quoted(items);
    RowMatches(words, Asked(items), AnyWord, engine);
    OneTermMatches(words, RowNode(Asked(items), AnyWord), engine);
  }

  /** Behind a hyphen it finds exactly the others; there a star is a wildcard, so with one
      the engine must honour the fragment and the words be those of a verse. */
  lemma ExcludedPhraseFinds(items: seq<string>, words: seq<string>, engine: Engine)
    requires Items(items) && items != [] && Lowercase(words)
    requires "*" in items ==> Honours(engine) && forall i :: 0 <= i < |words| ==> All(words[i], IsAlnum)
    ensures Finds("-" + Quoted(items), words, engine) <==> !InARow(words, Asked(items))
  {
    hide ParseQuery, NodeMatches, VerseMatches, InARow, RowNode, MakeWordNode, Honours, Asked;
    var any := AnyNode(true, engine);
    QuotedQuery(items, true, engine);
    StarNode(engine);
    if k :| 0 <= k < |Asked(items)| && Asked(items)[k].None? {
      StarWasAsked(items, k);
      StarTakesAll(words, engine);
    }
    RowMatches(words, Asked(items), any, engine);
    OneTermMatches(words, RowNode(Asked(items), any), engine);
  }

  lemma {:induction false} StarWasAsked(items: seq<string>, k: nat)
    requires k < |Asked(items)| && Asked(items)[k].None?
    ensures "*" in items
  {
    hide VerseWords;
    var n := |items| - 1;
    if k < |Asked(items[..n])| {
      StarWasAsked(items[..n], k);
    } else {
      assert Places(items[n])[k - |Asked(items[..n])|].None?;
      assert items[n] == "*";
    }
  }

  lemma StarTakesAll(words: seq<string>, engine: Engine)
    requires Honours(engine) && forall i :: 0 <= i < |words| ==> All(words[i], IsAlnum)
    ensures TakesAll(words, MakeWordNode("*", engine), engine)
  {
    hide MakeWordNode, Translate, ReadRegexp, Accepts, Glob;
    StarNode(engine);
    assert WellFormed("*") && All("*", IsAscii);
    forall i | 0 <= i < |words| ensures MatchWord(words[i], MakeWordNode("*", engine), engine) {
      WordHasNoNewline(words[i]);
      WildcardKeepsMeaning("*", words[i]);
      StarMeansAny(words[i]);
    }
    if words == [] {
    } else {
      WordHasNoNewline(words[0]);
    }
  }

  lemma StarMeansAny(w: string)
    ensures WellFormed("*") && Glob("*", w)
  {
    assert "*"[1..] == [];
    assert w[|w|..] == [];
    assert Glob("*"[1..], w[|w|..]);
  }

  /** A bare star, quoted or not, and an empty pair of quotes find every verse. */
  lemma StarFindsEveryVerse(words: seq<string>, engine: Engine)
    ensures Finds("*", words, engine) && Finds("\"*\"", words, engine) && Finds("\"\"", words, engine)
  {
    BareStarQuery(engine);
    hide ParseQuery, RowNode, Asked;
    QuotedQuery(["*"], false, engine);
    assert "" + Quoted(["*"]) == "\"*\"";
    QuotedQuery([], false, engine);
    assert "" + Quoted([]) == "\"\"";
  }

  lemma BareStarQuery(engine: Engine)
    ensures ParseQuery("*", engine) == Query([], [])
  {
    hide MakeWordNode, PhraseAt;
    assert Step("*") == ([Star], 1);
    assert "*"[1..] == [];
    assert Tokens("*") == [Star];
    hide Tokens;
    assert [Star][1..] == [];
    assert Group([Star], engine) == Parsed([AnyWord], false, 1);
  }

  /** A query of two plain words in quotes does not find a verse with only one of them. */
  lemma PhraseIsNoAlternation(engine: Engine)
    ensures !Finds("\"a b\"", ["b"], engine)
  {
    hide VerseWords, Finds;
    PlainWord("a");
    PlainWord("b");
    var items := ["a", "b"];
    assert Quoted(items) == "\"a b\"" by { assert Join(items[1..], " ") == "b"; }
    assert Items(items);
    QuotedPhraseFinds(items, ["b"], engine);
    AskedIsSomething(items);
  }
}
