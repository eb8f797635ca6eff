/** What a KJV word query means (bot/kjv-query.go): the matchers, and how joining, piping,
    negating and copying terms acts on the verses a query finds. */
module KjvMatch {
  import opened Text
  import opened KjvTokens
  import opened KjvQuery
  import opened KjvWildcard

  // ------------------------------------------------------------ the matchers

  predicate MatchWord(word: string, node: Node, engine: Engine) {
    match node
    case WordNode(value) => ToLower(word) == value
    case WildcardNode(_, regexp) => engine.accepts(regexp, word)
    case AnyWord => true
    case _ => false
  }

  predicate PhraseMatchesAt(words: seq<string>, nodes: seq<Node>, start: nat, engine: Engine) {
    forall k :: 0 <= k < |nodes| ==> start + k < |words| && MatchWord(words[start + k], nodes[k], engine)
  }

  predicate PhraseMatches(words: seq<string>, nodes: seq<Node>, engine: Engine) {
    && nodes != []
    && exists i :: 0 <= i <= |words| - |nodes| && PhraseMatchesAt(words, nodes, i, engine)
  }

  predicate NodeMatches(words: seq<string>, node: Node, engine: Engine) {
    match node
    case Phrase(nodes) => PhraseMatches(words, nodes, engine)
    case Or(alternatives) => exists i :: 0 <= i < |alternatives| && NodeMatches(words, alternatives[i], engine)
    case _ => exists i :: 0 <= i < |words| && MatchWord(words[i], node, engine)
  }

  /** kjvVerseMatchesQuery. */
  predicate VerseMatches(words: seq<string>, q: Query, engine: Engine) {
    && (forall i :: 0 <= i < |q.required| ==> NodeMatches(words, q.required[i], engine))
    && (forall i :: 0 <= i < |q.forbidden| ==> !NodeMatches(words, q.forbidden[i], engine))
  }

  /** Does the query text find the verse with these words? */
  predicate Finds(query: string, words: seq<string>, engine: Engine) {
    VerseMatches(words, ParseQuery(query, engine), engine)
  }

  lemma AppendIntersects(a: Query, b: Query, words: seq<string>, engine: Engine)
    ensures VerseMatches(words, Append(a, b), engine)
       <==> VerseMatches(words, a, engine) && VerseMatches(words, b, engine)
  {
    hide NodeMatches;
    var both := Append(a, b);
    if VerseMatches(words, both, engine) {
      forall i | 0 <= i < |a.required| ensures NodeMatches(words, a.required[i], engine) {
        assert both.required[i] == a.required[i];
      }
      forall i | 0 <= i < |a.forbidden| ensures !NodeMatches(words, a.forbidden[i], engine) {
        assert both.forbidden[i] == a.forbidden[i];
      }
      forall i | 0 <= i < |b.required| ensures NodeMatches(words, b.required[i], engine) {
        assert both.required[|a.required| + i] == b.required[i];
      }
      forall i | 0 <= i < |b.forbidden| ensures !NodeMatches(words, b.forbidden[i], engine) {
        assert both.forbidden[|a.forbidden| + i] == b.forbidden[i];
      }
    }
  }

  // ----------------------------------------- joining queries intersects them

  /** Every phrase the tokens open is also closed by them. */
  ghost predicate Closed(toks: seq<Token>)
    decreases |toks|
  {
    toks == [] ||
    (if toks[0].PhraseStart?
     then var n := PhraseLength(toks[1..]); n + 1 < |toks| && Closed(toks[n + 2..])
     else Closed(toks[1..]))
  }

  lemma PhraseTokensAreInner(words: seq<string>, exclude: bool, rest: seq<Token>)
    ensures PhraseLength(PhraseTokens(words, exclude) + [PhraseEnd] + rest) == |words|
  {
    PhraseLengthIs(PhraseTokens(words, exclude) + [PhraseEnd] + rest, |words|);
  }

  lemma PhraseIsClosed(words: seq<string>, exclude: bool, rest: seq<Token>)
    requires Closed(rest)
    ensures Closed([PhraseStart] + PhraseTokens(words, exclude) + [PhraseEnd] + rest)
  {
    var inner := PhraseTokens(words, exclude);
    var toks := [PhraseStart] + inner + [PhraseEnd] + rest;
    PhraseTokensAreInner(words, exclude, rest);
    assert toks[1..] == inner + [PhraseEnd] + rest;
    assert toks[|words| + 2..] == rest;
  }

  /** One turn of the tokenizer emits nothing, one plain token, or one whole phrase. */
  lemma StepIsClosed(s: string, rest: seq<Token>)
    requires s != [] && Closed(rest)
    ensures Closed(Step(s).0 + rest)
  {
    hide Runs, RunLength, IsSpace, Closed, PhraseTokens;
    var toks := Step(s).0;
    if |toks| == 0 {
      assert toks + rest == rest;
    } else if |toks| == 1 {
      PlainTokenIsClosed(toks[0], rest);
      assert toks == [toks[0]];
    } else {
      var k := if s[0] == '"' then 1 else 2;
      var words := Fields(s[k..][..RunLength(s[k..], NotQuote)]);
      assert toks == [PhraseStart] + PhraseTokens(words, k == 2) + [PhraseEnd];
      PhraseIsClosed(words, k == 2, rest);
    }
  }

  lemma PlainTokenIsClosed(t: Token, rest: seq<Token>)
    requires t != PhraseStart && Closed(rest)
    ensures Closed([t] + rest)
  {
    assert ([t] + rest)[1..] == rest;
  }

  lemma {:induction false} TokensAreClosed(s: string)
    ensures Closed(Tokens(s))
    decreases |s|
  {
    hide Step;
    if s != [] {
      TokensAreClosed(s[Step(s).1..]);
      StepIsClosed(s, Tokens(s[Step(s).1..]));
    }
  }

  ghost predicate EndsInPipe(toks: seq<Token>) {
    toks != [] && toks[|toks| - 1] == Pipe
  }

  ghost predicate StartsWithPipe(toks: seq<Token>) {
    toks != [] && toks[0] == Pipe
  }

  /** Closed tokens parse the same whatever follows them. */
  lemma ElementExtends(a: seq<Token>, b: seq<Token>, engine: Engine)
    requires a != [] && !a[0].Pipe? && Closed(a)
    ensures Element(a + b, engine) == Element(a, engine)
    ensures Closed(a[Element(a, engine).taken..])
  {
    hide MakeWordNode, PhraseNodes, FlattenPhrase, AnyExcluded, ClosePhrase, PhraseLength;
    assert (a + b)[0] == a[0];
    if a[0].PhraseStart? {
      PhraseExtends(a, b);
    }
  }

  /** A phrase closed inside `a` has the same inner tokens in every extension of `a`. */
  lemma PhraseExtends(a: seq<Token>, b: seq<Token>)
    requires a != [] && PhraseLength(a[1..]) + 1 < |a|
    ensures PhraseLength((a + b)[1..]) == PhraseLength(a[1..])
    ensures (a + b)[1..][..PhraseLength(a[1..])] == a[1..][..PhraseLength(a[1..])]
  {
    var n := PhraseLength(a[1..]);
    CutFirst(a, b, 1);
    CutFirst(a[1..], b, n);
    PhraseLengthIs(a[1..] + b, n);
  }

  lemma {:induction false} GroupExtends(a: seq<Token>, b: seq<Token>, engine: Engine)
    requires a != [] && Closed(a) && !EndsInPipe(a) && !StartsWithPipe(b)
    ensures Group(a + b, engine) == Group(a, engine)
    ensures Closed(a[Group(a, engine).taken..])
    decreases |a|
  {
    hide Element, Closed;
    if a[0].Pipe? {
      CutFirst(a, b, 1);
      PipeIsClosed(a);
      GroupExtends(a[1..], b, engine);
      assert a[1..][Group(a[1..], engine).taken..] == a[Group(a, engine).taken..];
    } else {
      ElementExtends(a, b, engine);
      var n := Element(a, engine).taken;
      CutFirst(a, b, n);
      if a[n..] != [] && a[n].Pipe? {
        GroupExtends(a[n..], b, engine);
        assert a[n..][Group(a[n..], engine).taken..] == a[Group(a, engine).taken..];
      }
    }
  }

  lemma PipeIsClosed(toks: seq<Token>)
    requires toks != [] && toks[0].Pipe? && Closed(toks)
    ensures Closed(toks[1..])
  {
  }

  lemma ParseAtPipe(toks: seq<Token>, engine: Engine)
    requires toks != [] && toks[0].Pipe?
    ensures ParseTokens(toks, engine) == ParseTokens(toks[1..], engine)
  {
  }

  lemma ParseAtGroup(toks: seq<Token>, engine: Engine)
    requires toks != [] && !toks[0].Pipe?
    ensures ParseTokens(toks, engine)
         == Append(AddGroup(Query([], []), Group(toks, engine).nodes, Group(toks, engine).exclude),
                   ParseTokens(toks[Group(toks, engine).taken..], engine))
  {
  }

  lemma AppendAssociates(a: Query, b: Query, c: Query)
    ensures Append(a, Append(b, c)) == Append(Append(a, b), c)
  {
  }

  lemma {:induction false} ParseExtends(a: seq<Token>, b: seq<Token>, engine: Engine)
    requires Closed(a) && !EndsInPipe(a) && !StartsWithPipe(b)
    ensures ParseTokens(a + b, engine) == Append(ParseTokens(a, engine), ParseTokens(b, engine))
    decreases |a|
  {
    hide Group, Closed, ParseTokens, Append, AddGroup;
    if a == [] {
      assert a + b == b;
      NothingBefore(ParseTokens(b, engine), engine);
    } else if a[0].Pipe? {
      ParseAtPipe(a, engine);
      ParseAtPipe(a + b, engine);
      CutFirst(a, b, 1);
      PipeIsClosed(a);
      ParseExtends(a[1..], b, engine);
    } else {
      ParseAtGroup(a, engine);
      ParseAtGroup(a + b, engine);
      GroupExtends(a, b, engine);
      var g := Group(a, engine);
      CutFirst(a, b, g.taken);
      ParseExtends(a[g.taken..], b, engine);
      AppendAssociates(AddGroup(Query([], []), g.nodes, g.exclude),
                       ParseTokens(a[g.taken..], engine), ParseTokens(b, engine));
    }
  }

  // ----------------------------------------------- exactly when joining concatenates

  /** The nodes of the last group, with the pipes that trail it. */
  function LastGroup(toks: seq<Token>, engine: Engine): seq<Node>
    decreases |toks|
  {
    if toks == [] then []
    else if toks[0].Pipe? then LastGroup(toks[1..], engine)
    else
      var g := Group(toks, engine);
      if g.taken == |toks| then g.nodes else LastGroup(toks[g.taken..], engine)
  }

  /** The nodes of the first group, after the pipes that lead it. */
  function FirstGroup(toks: seq<Token>, engine: Engine): seq<Node> {
    Group(toks, engine).nodes
  }

  ghost predicate PipeBetween(a: seq<Token>, b: seq<Token>) {
    EndsInPipe(a) || StartsWithPipe(b)
  }

  /** No pipe merges the last group of `a` with the first group of `b`, or there is nothing
      to merge on one of its sides. */
  ghost predicate JoinsCleanly(a: seq<Token>, b: seq<Token>, engine: Engine) {
    !PipeBetween(a, b) || LastGroup(a, engine) == [] || FirstGroup(b, engine) == []
  }

  /** A group that ends inside `a` is the same whatever follows `a`. */
  lemma {:induction false} GroupEndsInside(a: seq<Token>, b: seq<Token>, engine: Engine)
    requires Closed(a) && Group(a, engine).taken < |a|
    ensures Group(a + b, engine) == Group(a, engine)
    ensures var rest := a[Group(a, engine).taken..]; Closed(rest) && !rest[0].Pipe?
    decreases |a|
  {
    hide Element, Closed;
    if a[0].Pipe? {
      CutFirst(a, b, 1);
      PipeIsClosed(a);
      GroupEndsInside(a[1..], b, engine);
      assert a[1..][Group(a[1..], engine).taken..] == a[Group(a, engine).taken..];
    } else {
      ElementExtends(a, b, engine);
      var n := Element(a, engine).taken;
      CutFirst(a, b, n);
      if a[n].Pipe? {
        GroupEndsInside(a[n..], b, engine);
        assert a[n..][Group(a[n..], engine).taken..] == a[Group(a, engine).taken..];
      }
    }
  }

  /** An element never ends in a pipe. */
  lemma ElementEnd(a: seq<Token>, engine: Engine)
    requires a != [] && !a[0].Pipe? && Closed(a)
    ensures !a[Element(a, engine).taken - 1].Pipe?
  {
    hide MakeWordNode, PhraseNodes, FlattenPhrase, AnyExcluded, ClosePhrase;
    if a[0].PhraseStart? {
      var n := PhraseLength(a[1..]);
      assert a[1..][n] == a[n + 1];
    }
  }

  /** A group, one pipe or one element at a time. */
  lemma GroupUnfolds(toks: seq<Token>, engine: Engine)
    requires toks != []
    ensures toks[0].Pipe? ==> Group(toks, engine) == Joined(Parsed([], false, 1), Group(toks[1..], engine))
    ensures !toks[0].Pipe? ==> var e := Element(toks, engine);
      Group(toks, engine)
      == if e.taken == |toks| || !toks[e.taken].Pipe? then e else Joined(e, Group(toks[e.taken..], engine))
  {
    hide Element;
  }

  /** A pipe at the join is one for every tail of `a`, and is in `b` when `a` ends in none. */
  lemma PipeBetweenTails(a: seq<Token>, b: seq<Token>)
    requires a != [] && PipeBetween(a, b)
    ensures forall n :: 0 <= n < |a| ==> PipeBetween(a[n..], b)
    ensures !a[|a| - 1].Pipe? ==> b != [] && b[0].Pipe?
  {
  }

  lemma JoinedTaking()
    ensures forall g, h: Parsed :: Joined(g, h).taken == g.taken + h.taken
  {
  }

  /** A group that takes all of `a` is merged with the first group of `b` by a pipe. */
  lemma {:induction false} GroupMerges(a: seq<Token>, b: seq<Token>, engine: Engine)
    requires a != [] && Closed(a) && Group(a, engine).taken == |a| && PipeBetween(a, b)
    ensures Group(a + b, engine) == Joined(Group(a, engine), Group(b, engine))
    decreases |a|
  {
    GroupUnfolds(a, engine);
    GroupUnfolds(a + b, engine);
    JoinedTaking();
    hide Element, Closed, Group, PipeBetween, Joined;
    PipeBetweenTails(a, b);
    if a[0].Pipe? {
      var pipe := Parsed([], false, 1);
      CutFirst(a, b, 1);
      PipeIsClosed(a);
      if |a| == 1 {
        assert a[1..] + b == b;
        GroupOfNothing(a[1..], engine);
        JoinedEmpty(pipe);
      } else {
        GroupMerges(a[1..], b, engine);
        JoinedAssociates(pipe, Group(a[1..], engine), Group(b, engine));
      }
    } else {
      ElementExtends(a, b, engine);
      ElementEnd(a, engine);
      var e := Element(a, engine);
      CutFirst(a, b, e.taken);
      if e.taken == |a| {
        assert a[e.taken..] + b == b;
      } else {
        GroupMerges(a[e.taken..], b, engine);
        JoinedAssociates(e, Group(a[e.taken..], engine), Group(b, engine));
      }
    }
  }

  lemma {:induction false} FlattenIsNotEmpty(nodes: seq<Node>)
    requires nodes != [] && forall i :: 0 <= i < |nodes| && nodes[i].Phrase? ==> nodes[i].words != []
    ensures FlattenPhrase(nodes) != []
  {
  }

  lemma WordNodeIsNotEmpty(value: string, engine: Engine)
    ensures var node := MakeWordNode(value, engine); node.Phrase? ==> node.words != []
  {
    hide StripPunct, VerseWords, HasWildcard;
  }

  lemma {:induction false} PhraseNodesShape(toks: seq<Token>, engine: Engine)
    ensures AnyExcluded(toks) ==> PhraseNodes(toks, engine) != []
    ensures forall i :: 0 <= i < |PhraseNodes(toks, engine)| && PhraseNodes(toks, engine)[i].Phrase? ==>
              PhraseNodes(toks, engine)[i].words != []
  {
    hide MakeWordNode;
    if toks != [] {
      var n := |toks| - 1;
      PhraseNodesShape(toks[..n], engine);
      if toks[n].Word? { WordNodeIsNotEmpty(toks[n].value, engine); }
      if AnyExcluded(toks) && !(toks[n].Word? && toks[n].exclude) {
        var i :| 0 <= i < |toks| && toks[i].Word? && toks[i].exclude;
        assert toks[..n][i] == toks[i];
      }
    }
  }

  /** Only a group with nodes is an excluding one. */
  lemma {:induction false} ExcludedHasNodes(toks: seq<Token>, engine: Engine)
    ensures Group(toks, engine).exclude ==> Group(toks, engine).nodes != []
    decreases |toks|
  {
    hide Element;
    if toks != [] {
      if toks[0].Pipe? {
        ExcludedHasNodes(toks[1..], engine);
      } else {
        ExcludedElementHasNodes(toks, engine);
        ExcludedHasNodes(toks[Element(toks, engine).taken..], engine);
      }
    }
  }

  lemma ExcludedElementHasNodes(toks: seq<Token>, engine: Engine)
    requires toks != [] && !toks[0].Pipe?
    ensures Element(toks, engine).exclude ==> Element(toks, engine).nodes != []
  {
    hide MakeWordNode, PhraseNodes, FlattenPhrase, AnyExcluded, PhraseLength;
    if toks[0].PhraseStart? {
      var inner := toks[1..][..PhraseLength(toks[1..])];
      PhraseNodesShape(inner, engine);
      if AnyExcluded(inner) { FlattenIsNotEmpty(PhraseNodes(inner, engine)); }
    }
  }

  const NOTHING := Query([], [])

  /** What one finished group contributes. */
  function Contribution(g: Parsed): Query {
    AddGroup(NOTHING, g.nodes, g.exclude)
  }

  /** Merging two groups gives what the two give exactly when one of them is empty: else
      one alternation stands where there were two terms. */
  lemma MergeExactlyWhen(g: Parsed, h: Parsed)
    requires g.exclude ==> g.nodes != []
    requires h.exclude ==> h.nodes != []
    ensures Contribution(Joined(g, h)) == Append(Contribution(g), Contribution(h)) <==> g.nodes == [] || h.nodes == []
  {
    if g.nodes == [] {
      assert g.nodes + h.nodes == h.nodes;
    } else if h.nodes == [] {
      assert g.nodes + h.nodes == g.nodes;
    } else {
      NotItsOwnAlternative(g.nodes, h.nodes);
      var x, y, both := Contribution(g), Contribution(h), Contribution(Joined(g, h));
      ghost var one := Or(g.nodes + h.nodes);
      assert both == if g.exclude || h.exclude then Query([], [one]) else Query([one], []);
      assert one !in x.required && one !in y.required && one !in x.forbidden && one !in y.forbidden;
      assert one in both.required || one in both.forbidden;
      assert one !in Append(x, y).required && one !in Append(x, y).forbidden;
    }
  }

  /** No alternation is one of its own alternatives, or an alternation of fewer. */
  lemma NotItsOwnAlternative(a: seq<Node>, b: seq<Node>)
    requires a != [] && b != []
    ensures Or(a + b) != a[0] && Or(a + b) != b[0] && Or(a + b) != Or(a) && Or(a + b) != Or(b)
  {
    var both := Or(a + b);
    assert both.alternatives[0] == a[0] && both.alternatives[|a|] == b[0];
    assert both.alternatives[0] < both && both.alternatives[|a|] < both;
    assert |both.alternatives| > |a| && |both.alternatives| > |b|;
  }

  lemma AppendCancels(a: Query, b: Query, c: Query)
    ensures Append(a, b) == Append(a, c) <==> b == c
    ensures Append(b, a) == Append(c, a) <==> b == c
  {
    if Append(a, b) == Append(a, c) {
      TailsAgree(a.required, b.required, c.required);
      TailsAgree(a.forbidden, b.forbidden, c.forbidden);
    }
    if Append(b, a) == Append(c, a) {
      HeadsAgree(a.required, b.required, c.required);
      HeadsAgree(a.forbidden, b.forbidden, c.forbidden);
    }
  }

  lemma TailsAgree<T>(a: seq<T>, b: seq<T>, c: seq<T>)
    requires a + b == a + c
    ensures b == c
  {
    assert (a + b)[|a|..] == b && (a + c)[|a|..] == c;
  }

  lemma HeadsAgree<T>(a: seq<T>, b: seq<T>, c: seq<T>)
    requires b + a == c + a
    ensures b == c
  {
    assert |b + a| == |c + a|;
    assert (b + a)[..|b|] == b && (c + a)[..|c|] == c;
  }

  /** Every token list is its first group and the rest, leading pipes or not. */
  lemma {:induction false} ParseIsFirstGroup(toks: seq<Token>, engine: Engine)
    ensures ParseTokens(toks, engine)
         == Append(Contribution(Group(toks, engine)), ParseTokens(toks[Group(toks, engine).taken..], engine))
    decreases |toks|
  {
    hide Element, AddGroup;
    if toks == [] {
      assert AddGroup(NOTHING, [], false) == NOTHING by { NothingAdded(); }
    } else if toks[0].Pipe? {
      ParseIsFirstGroup(toks[1..], engine);
      assert toks[1..][Group(toks[1..], engine).taken..] == toks[Group(toks, engine).taken..];
    }
  }

  lemma NothingAdded()
    ensures AddGroup(NOTHING, [], false) == NOTHING
  {
  }

  /** A last group and a first group with a pipe between them. */
  lemma MergedParse(a: seq<Token>, b: seq<Token>, engine: Engine)
    requires a != [] && !a[0].Pipe? && Closed(a) && Group(a, engine).taken == |a| && PipeBetween(a, b)
    ensures ParseTokens(a + b, engine) == Append(ParseTokens(a, engine), ParseTokens(b, engine))
       <==> Group(a, engine).nodes == [] || Group(b, engine).nodes == []
  {
    hide Group, Closed, ParseTokens, AddGroup, Append, Contribution, Joined, PipeBetween;
    var g, h := Group(a, engine), Group(b, engine);
    var rest := ParseTokens(b[h.taken..], engine);
    GroupMerges(a, b, engine);
    ParseIsFirstGroup(a, engine);
    ParseIsFirstGroup(b, engine);
    ParseIsFirstGroup(a + b, engine);
    JoinedTakes(g, h);
    assert (a + b)[|a| + h.taken..] == b[h.taken..];
    assert a[|a|..] == [];
    EmptyParse(Contribution(g), engine);
    AppendAssociates(Contribution(g), Contribution(h), rest);
    AppendCancels(rest, Contribution(Joined(g, h)), Append(Contribution(g), Contribution(h)));
    ExcludedHasNodes(a, engine);
    ExcludedHasNodes(b, engine);
    MergeExactlyWhen(g, h);
  }

  lemma JoinedTakes(g: Parsed, h: Parsed)
    ensures Joined(g, h).taken == g.taken + h.taken
  {
  }

  lemma EmptyParse(q: Query, engine: Engine)
    ensures Append(q, ParseTokens([], engine)) == q
  {
  }

  /** Parsing joined tokens concatenates exactly when no pipe merges two groups. */
  lemma {:induction false} ParseJoinsExactlyWhen(a: seq<Token>, b: seq<Token>, engine: Engine)
    requires Closed(a)
    ensures ParseTokens(a + b, engine) == Append(ParseTokens(a, engine), ParseTokens(b, engine))
       <==> JoinsCleanly(a, b, engine)
    decreases |a|
  {
    LastGroupUnfolds(a, engine);
    hide Group, Closed, ParseTokens, Append, AddGroup, LastGroup, FirstGroup;
    if !PipeBetween(a, b) {
      ParseExtends(a, b, engine);
    } else if a == [] {
      assert a + b == b;
      NothingBefore(ParseTokens(b, engine), engine);
    } else if a[0].Pipe? {
      ParseAtPipe(a, engine);
      ParseAtPipe(a + b, engine);
      CutFirst(a, b, 1);
      PipeIsClosed(a);
      ParseJoinsExactlyWhen(a[1..], b, engine);
      if |a| == 1 { LastGroupUnfolds(a[1..], engine); }
    } else if Group(a, engine).taken == |a| {
      MergedParse(a, b, engine);
      FirstGroupIs(b, engine);
    } else {
      var g := Group(a, engine);
      GroupEndsInside(a, b, engine);
      ParseAtGroup(a, engine);
      ParseAtGroup(a + b, engine);
      CutFirst(a, b, g.taken);
      var rest := a[g.taken..];
      ParseJoinsExactlyWhen(rest, b, engine);
      AppendAssociates(AddGroup(Query([], []), g.nodes, g.exclude), ParseTokens(rest, engine), ParseTokens(b, engine));
      AppendCancels(AddGroup(Query([], []), g.nodes, g.exclude), ParseTokens(rest + b, engine),
                    Append(ParseTokens(rest, engine), ParseTokens(b, engine)));
    }
  }

  lemma LastGroupUnfolds(toks: seq<Token>, engine: Engine)
    ensures toks == [] ==> LastGroup(toks, engine) == []
    ensures toks != [] && toks[0].Pipe? ==> LastGroup(toks, engine) == LastGroup(toks[1..], engine)
    ensures toks != [] && !toks[0].Pipe? ==>
              var g := Group(toks, engine);
              LastGroup(toks, engine) == if g.taken == |toks| then g.nodes else LastGroup(toks[g.taken..], engine)
  {
    hide Group;
  }

  lemma FirstGroupIs(toks: seq<Token>, engine: Engine)
    ensures FirstGroup(toks, engine) == Group(toks, engine).nodes
  {
  }

  lemma NothingBefore(q: Query, engine: Engine)
    ensures Append(ParseTokens([], engine), q) == q
  {
  }

  /** With its quotes paired, a first query concatenates with a second one exactly when no
      pipe merges its last group with the first group of the second. */
  lemma QueriesJoinExactlyWhen(q1: string, q2: string, engine: Engine)
    requires EvenQuotes(q1)
    ensures ParseQuery(q1 + " " + q2, engine) == Append(ParseQuery(q1, engine), ParseQuery(q2, engine))
       <==> JoinsCleanly(Tokens(q1), Tokens(q2), engine)
  {
    hide Tokens, ParseTokens, JoinsCleanly, Append;
    TokensJoin(q1, q2);
    TokensAreClosed(q1);
    ParseJoinsExactlyWhen(Tokens(q1), Tokens(q2), engine);
  }

  /** A verse is found by two joined queries exactly when it is found by each: for a first
      query whose quotes are paired, as long as no pipe merges a group of each. */
  lemma JoinIntersects(q1: string, q2: string, words: seq<string>, engine: Engine)
    requires EvenQuotes(q1) && JoinsCleanly(Tokens(q1), Tokens(q2), engine)
    ensures ParseQuery(q1 + " " + q2, engine) == Append(ParseQuery(q1, engine), ParseQuery(q2, engine))
    ensures Finds(q1 + " " + q2, words, engine) <==> Finds(q1, words, engine) && Finds(q2, words, engine)
  {
    hide Tokens, ParseQuery, VerseMatches, JoinsCleanly;
    QueriesJoinExactlyWhen(q1, q2, engine);
    AppendIntersects(ParseQuery(q1, engine), ParseQuery(q2, engine), words, engine);
  }

  // ------------------------------------------------------------- plain terms

  predicate PlainChar(c: char) {
    InWord(c) && c != '*' && c != '?' && c != '[' && c != ']'
  }

  /** A term without operators or wildcards that holds a letter or a digit. */
  ghost predicate PlainTerm(t: string) {
    && t != []
    && All(t, PlainChar)
    && t[0] != '-'
    && exists i :: 0 <= i < |t| && IsAlnum(t[i])
  }

  lemma {:induction false} StripTrailKeepsRuns(s: string)
    ensures Runs(StripTrail(s), IsAlnum) == Runs(s, IsAlnum)
    ensures forall c :: c in StripTrail(s) ==> c in s
  {
    if s != [] && TrailPunct(s[|s| - 1]) {
      var n := |s| - 1;
      StripTrailKeepsRuns(s[..n]);
      assert s == s[..n] + s[n..];
      RunsConcat(s[..n], s[n..], IsAlnum);
      NoRuns(s[n..], IsAlnum);
    }
  }

  /** Taking the punctuation off a term takes away none of its words. */
  lemma StripKeepsWords(t: string)
    ensures VerseWords(StripPunct(t)) == VerseWords(t)
    ensures forall c :: c in StripPunct(t) ==> c in t
  {
    var n := RunLength(t, LeadPunct);
    assert t == t[..n] + t[n..];
    assert forall i :: 0 <= i < n ==> LeadPunct(t[..n][i]);
    RunsConcat(t[..n], t[n..], IsAlnum);
    NoRuns(t[..n], IsAlnum);
    StripTrailKeepsRuns(t[n..]);
  }

  /** A plain term is the word it is in a verse, or the phrase of its words. */
  lemma PlainTermNode(t: string, engine: Engine)
    requires PlainTerm(t)
    ensures var parts := VerseWords(t);
            && parts != []
            && MakeWordNode(t, engine) == if |parts| == 1 then WordNode(parts[0]) else Phrase(WordNodes(parts))
  {
    hide Runs, StripPunct, WordNodes;
    StripKeepsWords(t);
    var i :| 0 <= i < |t| && IsAlnum(t[i]);
    SomeRun(t, IsAlnum, i);
    var cleaned := StripPunct(t);
    if cleaned == [] { NoRuns([], IsAlnum); }
    forall c | c in cleaned
      ensures c != '*' && c != '?' && c != '[' && c != ']'
    {
      var k :| 0 <= k < |t| && t[k] == c;
      assert PlainChar(t[k]);
    }
  }

  lemma ParseOneWord(w: string, exclude: bool, engine: Engine)
    requires MakeWordNode(w, engine) != AnyWord
    ensures ParseTokens([Word(w, exclude)], engine)
         == if exclude then Query([], [MakeWordNode(w, engine)]) else Query([MakeWordNode(w, engine)], [])
  {
    hide MakeWordNode;
    var toks := [Word(w, exclude)];
    assert toks[1..] == [];
    assert Group(toks, engine) == Parsed([MakeWordNode(w, engine)], exclude, 1);
  }

  lemma PlainTermQuery(t: string, engine: Engine)
    requires PlainTerm(t)
    ensures Tokens(t) == [Word(t, false)]
    ensures ParseQuery(t, engine) == Query([MakeWordNode(t, engine)], [])
  {
    hide Tokens, ParseTokens, MakeWordNode;
    assert PlainChar(t[0]);
    assert All(t, InWord);
    SingleStep(t);
    PlainTermNode(t, engine);
    ParseOneWord(t, false, engine);
  }

  ghost predicate Lowercase(words: seq<string>) {
    forall i :: 0 <= i < |words| ==> ToLower(words[i]) == words[i]
  }

  ghost predicate OccursAt(words: seq<string>, part: seq<string>, i: nat) {
    i + |part| <= |words| && words[i..i + |part|] == part
  }

  /** A phrase of words matches where the words occur, one after another. */
  lemma PhraseIsOccurrence(words: seq<string>, part: seq<string>, i: nat, engine: Engine)
    requires Lowercase(words) && i + |part| <= |words|
    ensures PhraseMatchesAt(words, WordNodes(part), i, engine) <==> OccursAt(words, part, i)
  {
    var nodes := WordNodes(part);
    if PhraseMatchesAt(words, nodes, i, engine) {
      forall k | 0 <= k < |part| ensures words[i + k] == part[k] {
        assert MatchWord(words[i + k], nodes[k], engine);
      }
    }
    if OccursAt(words, part, i) {
      forall k | 0 <= k < |nodes| ensures MatchWord(words[i + k], nodes[k], engine) {
        assert words[i..i + |part|][k] == part[k];
      }
    }
  }

  /** A plain term finds exactly the verses in which its words occur consecutively. */
  lemma PlainTermFinds(t: string, words: seq<string>, engine: Engine)
    requires PlainTerm(t) && Lowercase(words)
    ensures Finds(t, words, engine) <==> exists i: nat :: OccursAt(words, VerseWords(t), i)
  {
    hide VerseWords, MakeWordNode, ParseQuery, NodeMatches, VerseMatches;
    PlainTermQuery(t, engine);
    PlainTermNode(t, engine);
    var parts := VerseWords(t);
    OneTermMatches(words, MakeWordNode(t, engine), engine);
    if |parts| == 1 {
      assert parts == [parts[0]];
      WordNodeMatches(words, parts[0], engine);
    } else {
      PhraseNodeMatches(words, parts, engine);
    }
  }

  lemma WordNodeMatches(words: seq<string>, w: string, engine: Engine)
    requires Lowercase(words)
    ensures NodeMatches(words, WordNode(w), engine) <==> exists i: nat :: OccursAt(words, [w], i)
  {
    if i :| 0 <= i < |words| && MatchWord(words[i], WordNode(w), engine) {
      assert words[i..i + 1] == [words[i]];
      assert OccursAt(words, [w], i);
    }
    if i: nat :| OccursAt(words, [w], i) {
      assert words[i..i + 1][0] == words[i] == w;
      assert MatchWord(words[i], WordNode(w), engine);
    }
  }

  lemma PhraseNodeMatches(words: seq<string>, parts: seq<string>, engine: Engine)
    requires Lowercase(words) && parts != []
    ensures NodeMatches(words, Phrase(WordNodes(parts)), engine) <==> exists i: nat :: OccursAt(words, parts, i)
  {
    hide PhraseMatchesAt, WordNodes;
    var nodes := WordNodes(parts);
    if i :| 0 <= i <= |words| - |nodes| && PhraseMatchesAt(words, nodes, i, engine) {
      PhraseIsOccurrence(words, parts, i, engine);
    }
    if i: nat :| OccursAt(words, parts, i) {
      PhraseIsOccurrence(words, parts, i, engine);
      assert PhraseMatchesAt(words, nodes, i, engine);
    }
  }

  lemma OneTermMatches(words: seq<string>, node: Node, engine: Engine)
    ensures VerseMatches(words, Query([node], []), engine) <==> NodeMatches(words, node, engine)
    ensures VerseMatches(words, Query([], [node]), engine) <==> !NodeMatches(words, node, engine)
  {
    hide NodeMatches;
    var q, p := Query([node], []), Query([], [node]);
    assert q.required[0] == node && p.forbidden[0] == node;
  }

  lemma LowerIsLower(s: string)
    ensures ToLower(ToLower(s)) == ToLower(s)
  {
  }

  lemma VerseWordsAreLowercase(text: string)
    ensures Lowercase(VerseWords(text))
  {
    forall i | 0 <= i < |VerseWords(text)| ensures ToLower(VerseWords(text)[i]) == VerseWords(text)[i] {
      LowerIsLower(Runs(text, IsAlnum)[i]);
    }
  }

  /** A plain term copied out of a verse at word boundaries always finds that verse. */
  lemma CopiedTermFindsItsVerse(before: string, t: string, after: string, engine: Engine)
    requires PlainTerm(t)
    requires Boundary(before, t, IsAlnum) && Boundary(t, after, IsAlnum)
    ensures Finds(t, VerseWords(before + t + after), engine)
  {
    hide Runs, Finds, LowerAll;
    RunsConcat(t, after, IsAlnum);
    assert before + t + after == before + (t + after);
    RunsConcat(before, t + after, IsAlnum);
    LowerAllConcat(Runs(before, IsAlnum), Runs(t + after, IsAlnum));
    LowerAllConcat(Runs(t, IsAlnum), Runs(after, IsAlnum));
    var words := VerseWords(before + t + after);
    var i := |VerseWords(before)|;
    assert words == VerseWords(before) + VerseWords(t) + VerseWords(after);
    assert OccursAt(words, VerseWords(t), i);
    VerseWordsAreLowercase(before + t + after);
    PlainTermFinds(t, words, engine);
  }

  // ---------------------------------------------------------- wildcard terms

  predicate IsAscii(c: char) {
    c < '\U{0080}'
  }

  /** What the program asks of the regexp package: that it compiles the text written for an
      ASCII pattern, and matches it against the words of a verse as the fragment means it.
      Beyond ASCII the package folds case by Unicode, which the fragment does not. */
  ghost predicate Honours(engine: Engine) {
    forall p, w :: WellFormed(p) && All(p, IsAscii) && All(w, IsAlnum) && ReadRegexp(Translate(p)).Some? ==>
      && engine.compiles(Translate(p))
      && (engine.accepts(Translate(p), w) <==> Accepts(ReadRegexp(Translate(p)).value, w))
  }

  /** There is such an engine: the one that reads the fragment. */
  lemma SomeEngineHonours()
    ensures exists engine :: Honours(engine)
  {
    hide WellFormed, Accepts, ReadRegexp, Translate, All;
    var compiles := (t: string) => ReadRegexp(t).Some?;
    var accepts := (t: string, w: string) => ReadRegexp(t).Some? && Accepts(ReadRegexp(t).value, w);
    assert Honours(Engine(compiles, accepts));
  }

  lemma WordHasNoNewline(w: string)
    requires All(w, IsAlnum)
    ensures NoNewline(w)
  {
    forall i | 0 <= i < |w| ensures w[i] != '\n' { assert IsAlnum(w[i]); }
  }

  lemma VerseWordsAreAlnum(text: string)
    ensures forall i :: 0 <= i < |VerseWords(text)| ==> All(VerseWords(text)[i], IsAlnum)
  {
    RunsAreKept(text, IsAlnum);
    hide Runs;
    forall i, k | 0 <= i < |VerseWords(text)| && 0 <= k < |VerseWords(text)[i]|
      ensures IsAlnum(VerseWords(text)[i][k])
    {
      assert All(Runs(text, IsAlnum)[i], IsAlnum);
      assert VerseWords(text)[i][k] == LowerChar(Runs(text, IsAlnum)[i][k]);
    }
  }

  /** A wildcard term of ASCII characters finds exactly the verses with a word its pattern
      stands for. */
  lemma WildcardTermFinds(t: string, text: string, engine: Engine)
    requires Honours(engine)
    requires t != [] && All(t, InWord) && t[0] != '-' && t != "*"
    requires HasWildcard(StripPunct(t)) && WellFormed(StripPunct(t)) && All(StripPunct(t), IsAscii)
    ensures var words := VerseWords(text);
            Finds(t, words, engine) <==> exists i :: 0 <= i < |words| && Glob(StripPunct(t), words[i])
  {
    VerseWordsAreAlnum(text);
    hide Finds, VerseWords, StripPunct, Glob, WellFormed, Honours;
    WildcardFindsWords(t, VerseWords(text), engine);
  }

  lemma WildcardFindsWords(t: string, words: seq<string>, engine: Engine)
    requires Honours(engine)
    requires t != [] && All(t, InWord) && t[0] != '-' && t != "*"
    requires HasWildcard(StripPunct(t)) && WellFormed(StripPunct(t)) && All(StripPunct(t), IsAscii)
    requires forall i :: 0 <= i < |words| ==> All(words[i], IsAlnum)
    ensures Finds(t, words, engine) <==> exists i :: 0 <= i < |words| && Glob(StripPunct(t), words[i])
  {
    hide Tokens, ParseTokens, StripPunct, Glob, Accepts, ReadRegexp, WellFormed, VerseWords, Translate;
    var pattern := StripPunct(t);
    var node := WildcardNode(pattern, Translate(pattern));
    SingleStep(t);
    WildcardKeepsMeaning(pattern, "");
    assert All("", IsAlnum);
    assert engine.compiles(Translate(pattern));
    assert MakeWordNode(t, engine) == node;
    ParseOneWord(t, false, engine);
    OneTermMatches(words, node, engine);
    forall i | 0 <= i < |words|
      ensures MatchWord(words[i], node, engine) <==> Glob(pattern, words[i])
    {
      WordHasNoNewline(words[i]);
      WildcardKeepsMeaning(pattern, words[i]);
    }
  }

  // -------------------------------------------------------- pipes and hyphens

  /** Piping two plain terms finds the union of what they find. */
  lemma PipeUnites(t1: string, t2: string, words: seq<string>, engine: Engine)
    requires PlainTerm(t1) && PlainTerm(t2)
    ensures Finds(t1 + " | " + t2, words, engine) <==> Finds(t1, words, engine) || Finds(t2, words, engine)
  {
    hide Tokens, MakeWordNode, ParseTokens, NodeMatches, VerseMatches, EvenQuotes;
    PlainTermQuery(t1, engine);
    PlainTermQuery(t2, engine);
    var n1, n2 := MakeWordNode(t1, engine), MakeWordNode(t2, engine);
    PlainTermIsQuoteFree(t1);
    PipeToken(t2);
    TokensJoin(t1, "| " + t2);
    assert t1 + " | " + t2 == t1 + " " + ("| " + t2);
    ParsePipe(t1, t2, engine);
    OneTermMatches(words, n1, engine);
    OneTermMatches(words, n2, engine);
    OneTermMatches(words, Or([n1, n2]), engine);
    OrMatches(words, n1, n2, engine);
  }

  lemma PlainTermIsQuoteFree(t: string)
    requires PlainTerm(t)
    ensures EvenQuotes(t)
  {
    assert All(t, NotQuote) by {
      forall i | 0 <= i < |t| ensures NotQuote(t[i]) { assert PlainChar(t[i]); }
    }
    assert t[..|t|] == t;
    QuotesAfter(t, |t|);
  }

  lemma PipeToken(q: string)
    ensures Tokens("| " + q) == [Pipe] + Tokens(q)
  {
    hide Runs, RunLength;
    var s := "| " + q;
    assert Step(s) == ([Pipe], 1);
    assert s[1..] == " " + q;
    SpaceIsSkipped(q);
  }

  lemma ParsePipe(t1: string, t2: string, engine: Engine)
    ensures ParseTokens([Word(t1, false)] + ([Pipe] + [Word(t2, false)]), engine)
         == Query([Or([MakeWordNode(t1, engine), MakeWordNode(t2, engine)])], [])
  {
    hide MakeWordNode;
    var toks := [Word(t1, false), Pipe, Word(t2, false)];
    assert [Word(t1, false)] + ([Pipe] + [Word(t2, false)]) == toks;
    var n1, n2 := MakeWordNode(t1, engine), MakeWordNode(t2, engine);
    var last := [Word(t2, false)];
    assert last[1..] == [];
    assert Group(last, engine) == Parsed([n2], false, 1);
    var tail := [Pipe, Word(t2, false)];
    assert tail[1..] == last;
    assert Group(tail, engine) == Parsed([n2], false, 2);
    assert toks[1..] == tail;
    assert Group(toks, engine) == Parsed([n1] + [n2], false, 3);
    assert toks[3..] == [];
    assert [n1] + [n2] == [n1, n2];
  }

  lemma OrMatches(words: seq<string>, n1: Node, n2: Node, engine: Engine)
    ensures NodeMatches(words, Or([n1, n2]), engine)
       <==> NodeMatches(words, n1, engine) || NodeMatches(words, n2, engine)
  {
    var alts := [n1, n2];
    assert alts[0] == n1 && alts[1] == n2;
    assert Or(alts).alternatives == alts;
  }

  /** A hyphen before a plain term finds exactly the verses the term does not. */
  lemma HyphenNegates(t: string, words: seq<string>, engine: Engine)
    requires PlainTerm(t)
    ensures Finds("-" + t, words, engine) <==> !Finds(t, words, engine)
  {
    hide MakeWordNode, ParseTokens, VerseMatches;
    PlainTermQuery(t, engine);
    PlainTermNode(t, engine);
    HyphenToken(t);
    ParseOneWord(t, true, engine);
    OneTermMatches(words, MakeWordNode(t, engine), engine);
  }

  lemma HyphenToken(t: string)
    requires PlainTerm(t)
    ensures Tokens("-" + t) == [Word(t, true)]
  {
    var s := "-" + t;
    assert s[1..] == t && s[1] == t[0];
    assert PlainChar(t[0]) && All(t, InWord);
    assert t[..|t|] == t;
    RunLengthIs(t, InWord, |t|);
    assert Step(s) == ([Word(t, true)], |s|);
    assert s[|s|..] == [];
  }

  lemma PlainWord(w: string)
    requires w != [] && All(w, IsAlnum) && ToLower(w) == w
    ensures PlainTerm(w) && VerseWords(w) == [w]
  {
    SingleRun(w, IsAlnum);
    assert IsAlnum(w[0]);
    forall i | 0 <= i < |w| ensures PlainChar(w[i]) { assert IsAlnum(w[i]); }
  }

  /** A pipe left at the join turns the intersection into a union: two different words
      piped together find the verse of the first alone. */
  lemma PipeAtTheJoin(w1: string, w2: string, engine: Engine)
    requires w1 != [] && All(w1, IsAlnum) && ToLower(w1) == w1
    requires w2 != [] && All(w2, IsAlnum) && ToLower(w2) == w2
    requires w1 != w2
    ensures Finds(w1 + " | " + w2, [w1], engine) && !Finds(w2, [w1], engine)
  {
    hide Finds, VerseWords, PlainTerm;
    PlainWord(w1);
    PlainWord(w2);
    PipeUnites(w1, w2, [w1], engine);
    PlainTermFinds(w1, [w1], engine);
    PlainTermFinds(w2, [w1], engine);
    assert OccursAt([w1], [w1], 0);
  }

  // ------------------------------------------------------- what a term is made of

  /** A letter or a digit, written out. */
  ghost predicate WordChar(c: char) {
    'a' <= c <= 'z' || 'A' <= c <= 'Z' || '0' <= c <= '9'
  }

  /** Punctuation around a term is taken off: in front up to a letter, a digit or one of
      `_*?[`, and behind down to a letter, a digit or one of `_*]`. */
  lemma StripsPunctuation(lead: string, core: string, trail: string)
    requires forall i :: 0 <= i < |lead| ==> !WordChar(lead[i]) && lead[i] !in "_*?["
    requires core != [] && (WordChar(core[0]) || core[0] in "_*?[")
    requires WordChar(core[|core| - 1]) || core[|core| - 1] in "_*]"
    requires forall i :: 0 <= i < |trail| ==> !WordChar(trail[i]) && trail[i] !in "_*]"
    ensures StripPunct(lead + core + trail) == core
  {
    var s := lead + core + trail;
    assert s[..|lead|] == lead && s[|lead|] == core[0];
    assert "_*?["[0] == '_' && "_*?["[1] == '*' && "_*?["[2] == '?' && "_*?["[3] == '[';
    assert "_*]"[0] == '_' && "_*]"[1] == '*' && "_*]"[2] == ']';
    forall i | 0 <= i < |lead| ensures LeadPunct(lead[i]) {
    }
    RunLengthIs(s, LeadPunct, |lead|);
    assert s[|lead|..] == core + trail;
    forall i | 0 <= i < |trail| ensures TrailPunct(trail[i]) {
    }
    TrailStrips(core, trail);
  }

  lemma {:induction false} TrailStrips(core: string, trail: string)
    requires core != [] && !TrailPunct(core[|core| - 1]) && All(trail, TrailPunct)
    ensures StripTrail(core + trail) == core
  {
    if trail == [] {
      assert core + trail == core;
    } else {
      var n := |trail| - 1;
      assert (core + trail)[..|core + trail| - 1] == core + trail[..n];
      TrailStrips(core, trail[..n]);
    }
  }

  /** The words of a verse are its runs of letters and digits in lower case. */
  lemma VerseOfWords(words: seq<string>)
    requires forall i :: 0 <= i < |words| ==>
               words[i] != [] && forall k :: 0 <= k < |words[i]| ==> WordChar(words[i][k])
    ensures VerseWords(Join(words, " ")) == LowerAll(words)
  {
    hide Runs, Join;
    forall i | 0 <= i < |words| ensures words[i] != [] && All(words[i], IsAlnum) {
      forall k | 0 <= k < |words[i]| ensures IsAlnum(words[i][k]) { assert WordChar(words[i][k]); }
    }
    RunsOfJoin(words, IsAlnum);
  }

  /** A literal with a character that no word has finds no verse. */
  lemma StrangeWordFindsNothing(t: string, value: string, i: nat, text: string, engine: Engine)
    requires t != [] && All(t, InWord) && t[0] != '-' && t != "*"
    requires MakeWordNode(t, engine) == WordNode(ToLower(value)) && i < |value| && !IsAlnum(value[i])
    ensures !Finds(t, VerseWords(text), engine)
  {
    VerseWordsAreAlnum(text);
    hide Tokens, ParseTokens, MakeWordNode, VerseWords, IsAlnum;
    var words := VerseWords(text);
    SingleStep(t);
    ParseOneWord(t, false, engine);
    OneTermMatches(words, WordNode(ToLower(value)), engine);
    forall k | 0 <= k < |words| ensures ToLower(words[k]) != ToLower(value) {
      if |words[k]| == |value| {
        assert IsAlnum(words[k][i]);
        LowerKeepsKind(words[k][i], value[i]);
        assert ToLower(words[k])[i] != ToLower(value)[i];
      }
    }
  }

  lemma LowerKeepsKind(a: char, b: char)
    requires IsAlnum(a) && !IsAlnum(b)
    ensures LowerChar(a) != LowerChar(b)
  {
  }

  /** A wildcard term whose pattern the regexp package refuses finds no verse. */
  lemma UncompiledFindsNothing(t: string, text: string, engine: Engine)
    requires t != [] && All(t, InWord) && t[0] != '-' && t != "*"
    requires HasWildcard(StripPunct(t)) && !engine.compiles(Translate(StripPunct(t)))
    ensures !Finds(t, VerseWords(text), engine)
  {
    var cleaned := StripPunct(t);
    var i :| 0 <= i < |cleaned| && !IsAlnum(cleaned[i]);
    hide Finds, VerseWords, StripPunct, Translate, IsAlnum;
    StrangeWordFindsNothing(t, cleaned, i, text, engine);
  }

  /** So does a term without a letter, a digit or a wildcard. */
  lemma WordlessTermFindsNothing(t: string, text: string, engine: Engine)
    requires t != [] && All(t, InWord) && t[0] != '-' && t != "*"
    requires !HasWildcard(StripPunct(t)) && forall i :: 0 <= i < |t| ==> !IsAlnum(t[i])
    ensures !Finds(t, VerseWords(text), engine)
  {
    StripKeepsWords(t);
    NoRuns(t, IsAlnum);
    var cleaned := StripPunct(t);
    hide Finds, StripPunct, IsAlnum, Runs;
    if cleaned == "" {
      StrangeWordFindsNothing(t, t, 0, text, engine);
    } else {
      assert cleaned[0] in cleaned;
      assert VerseWords(cleaned) == [];
      StrangeWordFindsNothing(t, cleaned, 0, text, engine);
    }
  }

  // ------------------------------------------------------ the shape of a parsed query

  /** A node that is tried on one word. */
  ghost predicate Leaf(node: Node) {
    node.WordNode? || node.WildcardNode? || node.AnyWord?
  }

  ghost predicate Leaves(nodes: seq<Node>) {
    forall i :: 0 <= i < |nodes| ==> Leaf(nodes[i])
  }

  /** A leaf, or a phrase of leaves. */
  ghost predicate Flat(node: Node) {
    Leaf(node) || (node.Phrase? && Leaves(node.words))
  }

  ghost predicate AllFlat(nodes: seq<Node>) {
    forall i :: 0 <= i < |nodes| ==> Flat(nodes[i])
  }

  /** Such a node, or an alternative of such nodes. */
  ghost predicate FlatTerm(node: Node) {
    Flat(node) || (node.Or? && AllFlat(node.alternatives))
  }

  ghost predicate FlatQuery(q: Query) {
    && (forall i :: 0 <= i < |q.required| ==> FlatTerm(q.required[i]))
    && (forall i :: 0 <= i < |q.forbidden| ==> FlatTerm(q.forbidden[i]))
  }

  lemma {:induction false} FlattenedAreLeaves(nodes: seq<Node>)
    requires AllFlat(nodes)
    ensures Leaves(FlattenPhrase(nodes))
  {
    if nodes != [] { FlattenedAreLeaves(nodes[..|nodes| - 1]); }
  }

  lemma {:induction false} PhraseNodesAreFlat(toks: seq<Token>, engine: Engine)
    ensures AllFlat(PhraseNodes(toks, engine))
  {
    hide StripPunct, HasWildcard, VerseWords, KjvWildcard.Translate;
    if toks != [] { PhraseNodesAreFlat(toks[..|toks| - 1], engine); }
  }

  lemma ElementIsFlat(toks: seq<Token>, engine: Engine)
    requires toks != [] && !toks[0].Pipe?
    ensures AllFlat(Element(toks, engine).nodes)
  {
    hide StripPunct, HasWildcard, VerseWords, KjvWildcard.Translate, PhraseNodes, FlattenPhrase;
    if toks[0].PhraseStart? {
      var inner := toks[1..][..PhraseLength(toks[1..])];
      PhraseNodesAreFlat(inner, engine);
      FlattenedAreLeaves(PhraseNodes(inner, engine));
    }
  }

  lemma {:induction false} GroupIsFlat(toks: seq<Token>, engine: Engine)
    ensures AllFlat(Group(toks, engine).nodes)
    decreases |toks|
  {
    hide Element, Flat;
    if toks != [] {
      if toks[0].Pipe? {
        GroupIsFlat(toks[1..], engine);
      } else {
        ElementIsFlat(toks, engine);
        GroupIsFlat(toks[Element(toks, engine).taken..], engine);
      }
    }
  }

  /** Whatever was typed, no phrase holds a phrase and no alternative holds another: the
      default of the word matcher, which matches nothing, is never asked. */
  lemma {:induction false} ParsedIsFlat(toks: seq<Token>, engine: Engine)
    ensures FlatQuery(ParseTokens(toks, engine))
    decreases |toks|
  {
    hide Group, Flat;
    if toks != [] {
      if toks[0].Pipe? {
        ParsedIsFlat(toks[1..], engine);
      } else {
        GroupIsFlat(toks, engine);
        ParsedIsFlat(toks[Group(toks, engine).taken..], engine);
      }
    }
  }
}
