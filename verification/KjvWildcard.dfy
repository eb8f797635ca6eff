/** The wildcard-to-regexp compiler of the KJV word-query language (bot/kjv-query.go), and
    the fragment of Go's regular expressions its output is written in. */
module KjvWildcard {
  import opened Text

  // ------------------------------------------------------------ the compiler

  /** The metacharacters the compiler writes behind a backslash. */
  predicate Escaped(c: char) {
    c in {'.', '+', '(', ')', '{', '}', '^', '$', '|', '\\'}
  }

  predicate Negates(c: char) {
    c == '!' || c == '^'
  }

  /** The regexp text of what is left of a pattern, inside or outside a character class. */
  function Body(p: string, inClass: bool): string
    decreases |p|
  {
    if p == [] then ""
    else if inClass then [p[0]] + Body(p[1..], p[0] != ']')
    else if p[0] == '*' then ".*" + Body(p[1..], false)
    else if p[0] == '?' then "." + Body(p[1..], false)
    else if p[0] == '[' then
      if |p| > 1 && Negates(p[1]) then "[^" + Body(p[2..], true) else "[" + Body(p[1..], true)
    else if Escaped(p[0]) then ['\\', p[0]] + Body(p[1..], false)
    else [p[0]] + Body(p[1..], false)
  }

  function Translate(pattern: string): string {
    "(?i)^" + Body(pattern, false) + "$"
  }

  /** What one turn of the loop writes at a position, how far it moves, and its next mode. */
  function Emit(p: string, i: nat, inClass: bool): (r: (string, nat, bool))
    requires i < |p|
    ensures i < r.1 <= |p|
  {
    if inClass then ([p[i]], i + 1, p[i] != ']')
    else if p[i] == '*' then (".*", i + 1, false)
    else if p[i] == '?' then (".", i + 1, false)
    else if p[i] == '[' then
      if i + 1 < |p| && Negates(p[i + 1]) then ("[^", i + 2, true) else ("[", i + 1, true)
    else if Escaped(p[i]) then (['\\', p[i]], i + 1, false)
    else ([p[i]], i + 1, false)
  }

  lemma BodyEmits(p: string, i: nat, inClass: bool)
    requires i < |p|
    ensures var (text, next, mode) := Emit(p, i, inClass);
            Body(p[i..], inClass) == text + Body(p[next..], mode)
  {
    var s := p[i..];
    assert s[1..] == p[i + 1..];
    if i + 1 < |p| { assert s[2..] == p[i + 2..]; }
  }

  lemma BodyUnfolds(p: string)
    requires p != []
    ensures var (text, next, mode) := Emit(p, 0, false); Body(p, false) == text + Body(p[next..], mode)
  {
    BodyEmits(p, 0, false);
    assert p[0..] == p;
  }

  /** One turn of the loop of kjvWildcardToRegexp. */
  method WriteOne(pattern: string, i: nat, inClass: bool) returns (text: string, next: nat, mode: bool)
    requires i < |pattern|
    ensures (text, next, mode) == Emit(pattern, i, inClass)
  {
    hide Escaped, Negates;
    var ch := pattern[i];
    next, mode := i + 1, inClass;
    if inClass {
      text := [ch];
      if ch == ']' { mode := false; }
    } else if ch == '*' {
      text := ".*";
    } else if ch == '?' {
      text := ".";
    } else if ch == '[' {
      text := "[";
      mode := true;
      if i + 1 < |pattern| && Negates(pattern[i + 1]) {
        text := "[^";
        next := next + 1;
      }
    } else if Escaped(ch) {
      text := ['\\', ch];
    } else {
      text := [ch];
    }
  }

  /** kjvWildcardToRegexp, up to the call of regexp.Compile. */
  method WildcardToRegexp(pattern: string) returns (text: string)
    ensures text == Translate(pattern)
  {
    hide Body, Emit;
    var sb: string, inClass := [], false;
    var i := 0;
    assert pattern[0..] == pattern;
    ghost var goal := Body(pattern, false);
    while i < |pattern|
      invariant 0 <= i <= |pattern|
      invariant goal == sb + Body(pattern[i..], inClass)
    {
      BodyEmits(pattern, i, inClass);
      var written, next, mode := WriteOne(pattern, i, inClass);
      sb, i, inClass := sb + written, next, mode;
    }
    BodyOfNothing(pattern[i..], inClass);
    text := "(?i)^" + sb + "$";
  }

  lemma BodyOfNothing(p: string, inClass: bool)
    requires p == []
    ensures Body(p, inClass) == []
  {
  }

  // -------------------------------------------------------- what patterns mean

  predicate SameLetter(a: char, b: char) {
    LowerChar(a) == LowerChar(b)
  }

  /** A nonempty list of letters, digits and ranges of them. */
  predicate ClassText(s: string) {
    s != [] && ClassItems(s)
  }

  predicate ClassItems(s: string)
    decreases |s|
  {
    s == [] ||
    (IsAlnum(s[0]) &&
     if |s| >= 3 && s[1] == '-' then IsAlnum(s[2]) && s[0] <= s[2] && ClassItems(s[3..])
     else ClassItems(s[1..]))
  }

  /** Whether a character belongs to a class, ignoring case. */
  predicate InClass(s: string, c: char)
    decreases |s|
  {
    if s == [] then false
    else if |s| >= 3 && s[1] == '-' then
      s[0] <= LowerChar(c) <= s[2] || s[0] <= UpperChar(c) <= s[2] || InClass(s[3..], c)
    else SameLetter(s[0], c) || InClass(s[1..], c)
  }

  predicate NotBracket(c: char) {
    c != ']'
  }

  /** Where the members of the class that opens a pattern start, and where they end. */
  function ClassStart(p: string): nat {
    if |p| > 1 && Negates(p[1]) then 2 else 1
  }

  function ClassEnd(p: string): (n: nat)
    requires p != []
    ensures ClassStart(p) <= n <= |p|
  {
    ClassStart(p) + RunLength(p[ClassStart(p)..], NotBracket)
  }

  function ClassMembers(p: string): string
    requires p != []
  {
    p[ClassStart(p)..ClassEnd(p)]
  }

  /** Every '[' opens a class of letters, digits and ranges that a ']' closes. */
  predicate WellFormed(p: string)
    decreases |p|
  {
    if p == [] then true
    else if p[0] == '[' then
      ClassEnd(p) < |p| && ClassText(ClassMembers(p)) && WellFormed(p[ClassEnd(p) + 1..])
    else WellFormed(p[1..])
  }

  /** The words a pattern stands for: `*` is any run, `?` any one character, a class one
      of its members or, negated, none of them; all else is itself, in either case. */
  ghost predicate Glob(p: string, w: string)
    requires WellFormed(p)
    decreases |p|
  {
    if p == [] then w == []
    else if p[0] == '*' then exists k :: 0 <= k <= |w| && Glob(p[1..], w[k..])
    else if w == [] then false
    else if p[0] == '?' then Glob(p[1..], w[1..])
    else if p[0] == '[' then
      InClass(ClassMembers(p), w[0]) != (ClassStart(p) == 2) && Glob(p[ClassEnd(p) + 1..], w[1..])
    else SameLetter(p[0], w[0]) && Glob(p[1..], w[1..])
  }

  // ------------------------------------------------- what the regexp text means

  datatype Atom =
    | Literal(c: char)
    | AnyOne
    | AnyRun
    | Class(negated: bool, members: string)

  /** The characters a regexp gives a meaning of its own. */
  predicate Meta(c: char) {
    c in {'\\', '.', '+', '*', '?', '(', ')', '|', '[', ']', '{', '}', '^', '$'}
  }

  /** Reads a regexp body made of literals, escaped punctuation, `.`, `.*` and classes; a
      bracket that closes nothing is a literal. */
  function Read(t: string): Option<seq<Atom>>
    decreases |t|
  {
    if t == [] then Some([])
    else if t[0] == '.' then
      if |t| > 1 && t[1] == '*' then Prepend(AnyRun, Read(t[2..])) else Prepend(AnyOne, Read(t[1..]))
    else if t[0] == '\\' then
      if |t| > 1 && Meta(t[1]) then Prepend(Literal(t[1]), Read(t[2..])) else None
    else if t[0] == '[' then
      var start := if |t| > 1 && t[1] == '^' then 2 else 1;
      var end := start + RunLength(t[start..], NotBracket);
      if end < |t| && ClassText(t[start..end])
      then Prepend(Class(start == 2, t[start..end]), Read(t[end + 1..]))
      else None
    else if Meta(t[0]) && t[0] != ']' then None
    else Prepend(Literal(t[0]), Read(t[1..]))
  }

  function Prepend(a: Atom, rest: Option<seq<Atom>>): Option<seq<Atom>> {
    if rest.Some? then Some([a] + rest.value) else None
  }

  /** A whole regexp: case-insensitive, anchored at both ends. */
  function ReadRegexp(t: string): Option<seq<Atom>> {
    if |t| >= 6 && t[..5] == "(?i)^" && t[|t| - 1] == '$' then Read(t[5..|t| - 1]) else None
  }

  /** Case-insensitive matching of a whole word; `.` matches any character but a newline. */
  predicate Accepts(atoms: seq<Atom>, w: string)
    decreases |atoms|, |w|
  {
    if atoms == [] then w == []
    else match atoms[0]
      case Literal(c) => w != [] && SameLetter(c, w[0]) && Accepts(atoms[1..], w[1..])
      case AnyOne => w != [] && w[0] != '\n' && Accepts(atoms[1..], w[1..])
      case AnyRun => Accepts(atoms[1..], w) || (w != [] && w[0] != '\n' && Accepts(atoms, w[1..]))
      case Class(negated, members) =>
        w != [] && InClass(members, w[0]) != negated && Accepts(atoms[1..], w[1..])
  }

  // ------------------------------------------------ the compiler keeps meaning

  /** The atoms a well-formed pattern is compiled to. */
  function Atoms(p: string): seq<Atom>
    requires WellFormed(p)
    decreases |p|
  {
    if p == [] then []
    else if p[0] == '[' then [Class(ClassStart(p) == 2, ClassMembers(p))] + Atoms(p[ClassEnd(p) + 1..])
    else
      var a := if p[0] == '*' then AnyRun else if p[0] == '?' then AnyOne else Literal(p[0]);
      [a] + Atoms(p[1..])
  }

  /** Inside a class the text is copied up to and including the closing bracket. */
  lemma {:induction false} BodyOfClass(members: string, rest: string)
    requires All(members, NotBracket)
    ensures Body(members + "]" + rest, true) == members + "]" + Body(rest, false)
  {
    var p := members + "]" + rest;
    if members == [] {
      assert p == "]" + rest;
      assert p[1..] == rest;
    } else {
      assert p[1..] == members[1..] + "]" + rest;
      BodyOfClass(members[1..], rest);
    }
  }

  lemma ClassParts(p: string)
    requires p != [] && p[0] == '[' && ClassEnd(p) < |p|
    ensures All(ClassMembers(p), NotBracket)
    ensures p[ClassStart(p)..] == ClassMembers(p) + "]" + p[ClassEnd(p) + 1..]
  {
    var s := p[ClassStart(p)..];
    var n := RunLength(s, NotBracket);
    assert s[..n] == ClassMembers(p);
    assert s[n + 1..] == p[ClassEnd(p) + 1..];
    assert s == s[..n] + [s[n]] + s[n + 1..];
  }

  /** The class a pattern opens is written as the same class. */
  lemma ReadClass(p: string, rest: string)
    requires p != [] && p[0] == '[' && ClassEnd(p) < |p| && ClassText(ClassMembers(p))
    ensures var open := if ClassStart(p) == 2 then "[^" else "[";
            Read(open + ClassMembers(p) + "]" + rest) == Prepend(Class(ClassStart(p) == 2, ClassMembers(p)), Read(rest))
  {
    hide Read, ClassItems;
    ClassParts(p);
    var m := ClassMembers(p);
    var start := ClassStart(p);
    var t := (if start == 2 then "[^" else "[") + m + "]" + rest;
    assert start == 1 ==> t[1] == m[0] && IsAlnum(m[0]) by { FirstMember(m); }
    assert t[start..] == m + "]" + rest;
    assert (m + "]" + rest)[..|m|] == m;
    RunLengthIs(t[start..], NotBracket, |m|);
    assert t[start..start + |m|] == m;
    assert t[start + |m| + 1..] == rest;
    ReadAtClass(t);
  }

  lemma FirstMember(m: string)
    requires ClassText(m)
    ensures IsAlnum(m[0])
  {
  }

  lemma ReadAtClass(t: string)
    requires t != [] && t[0] == '['
    ensures var start := if |t| > 1 && t[1] == '^' then 2 else 1;
            var end := start + RunLength(t[start..], NotBracket);
            Read(t) == if end < |t| && ClassText(t[start..end])
                       then Prepend(Class(start == 2, t[start..end]), Read(t[end + 1..])) else None
  {
  }

  lemma ReadBodyOfClass(p: string)
    requires p != [] && p[0] == '[' && ClassEnd(p) < |p| && ClassText(ClassMembers(p))
    ensures Read(Body(p, false))
         == Prepend(Class(ClassStart(p) == 2, ClassMembers(p)), Read(Body(p[ClassEnd(p) + 1..], false)))
  {
    hide Read, ClassItems, Body, RunLength;
    BodyAtClass(p);
    ReadClass(p, Body(p[ClassEnd(p) + 1..], false));
  }

  lemma BodyAtClass(p: string)
    requires p != [] && p[0] == '[' && ClassEnd(p) < |p|
    ensures Body(p, false)
         == (if ClassStart(p) == 2 then "[^" else "[") + ClassMembers(p) + "]" + Body(p[ClassEnd(p) + 1..], false)
  {
    hide Body, RunLength, ClassMembers, ClassEnd, Escaped;
    var m, rest := ClassMembers(p), Body(p[ClassEnd(p) + 1..], false);
    ClassParts(p);
    BodyOfClass(m, p[ClassEnd(p) + 1..]);
    BodyUnfolds(p);
    var open := if ClassStart(p) == 2 then "[^" else "[";
    assert Emit(p, 0, false) == (open, ClassStart(p), true);
    Associates(open, m, "]", rest);
  }

  lemma Associates(a: string, b: string, c: string, d: string)
    ensures a + (b + c + d) == a + b + c + d
  {
  }

  lemma BodyFirst(p: string)
    ensures Body(p, false) == [] || Body(p, false)[0] != '*'
  {
    if p != [] {
      BodyUnfolds(p);
    }
  }

  lemma ReadBodyOfCharacter(p: string)
    requires p != [] && p[0] != '['
    ensures Read(Body(p, false))
         == Prepend(if p[0] == '*' then AnyRun else if p[0] == '?' then AnyOne else Literal(p[0]),
                    Read(Body(p[1..], false)))
  {
    hide Read, Body;
    BodyFirst(p[1..]);
    BodyUnfolds(p);
    ReadCharacter(p[0], Body(p[1..], false));
    assert !Escaped('*') && !Escaped('?');
  }

  /** The emitted body reads back as the atoms of the pattern. */
  lemma {:induction false} ReadBody(p: string)
    requires WellFormed(p)
    ensures Read(Body(p, false)) == Some(Atoms(p))
    decreases |p|
  {
    if p != [] {
      hide Read, Body, ClassItems;
      if p[0] == '[' {
        ReadBodyOfClass(p);
        ReadBody(p[ClassEnd(p) + 1..]);
      } else {
        ReadBodyOfCharacter(p);
        ReadBody(p[1..]);
      }
    }
  }

  /** One pattern character outside a class is read back as its atom. */
  lemma ReadCharacter(c: char, rest: string)
    requires c != '['
    ensures c == '*' ==> Read(".*" + rest) == Prepend(AnyRun, Read(rest))
    ensures c == '?' && (rest == [] || rest[0] != '*') ==> Read("." + rest) == Prepend(AnyOne, Read(rest))
    ensures Escaped(c) ==> Read(['\\', c] + rest) == Prepend(Literal(c), Read(rest))
    ensures c != '*' && c != '?' && !Escaped(c) ==> Read([c] + rest) == Prepend(Literal(c), Read(rest))
  {
    assert (".*" + rest)[2..] == rest && ("." + rest)[1..] == rest;
    assert (['\\', c] + rest)[2..] == rest && ([c] + rest)[1..] == rest;
  }

  ghost predicate NoNewline(w: string) {
    forall i :: 0 <= i < |w| ==> w[i] != '\n'
  }

  /** `.*` accepts exactly a run of any length before the rest. */
  lemma {:induction false} AnyRunAccepts(rest: seq<Atom>, w: string)
    requires NoNewline(w)
    ensures Accepts([AnyRun] + rest, w) <==> exists k :: 0 <= k <= |w| && Accepts(rest, w[k..])
    decreases |w|
  {
    assert ([AnyRun] + rest)[1..] == rest;
    assert w[0..] == w;
    if w == [] {
      assert forall k :: 0 <= k <= |w| ==> w[k..] == w;
    } else {
      var s := w[1..];
      AnyRunAccepts(rest, s);
      if Accepts([AnyRun] + rest, w) && !Accepts(rest, w) {
        var k :| 0 <= k <= |s| && Accepts(rest, s[k..]);
        assert s[k..] == w[k + 1..];
      }
      if k :| 0 <= k <= |w| && Accepts(rest, w[k..]) {
        if k > 0 { assert w[k..] == s[k - 1..]; }
      }
    }
  }

  lemma {:induction false} AtomsMeanGlob(p: string, w: string)
    requires WellFormed(p) && NoNewline(w)
    ensures Accepts(Atoms(p), w) <==> Glob(p, w)
    decreases |p|
  {
    if p != [] {
      hide InClass, ClassItems;
      if p[0] == '*' {
        AnyRunAccepts(Atoms(p[1..]), w);
        forall k | 0 <= k <= |w|
          ensures Accepts(Atoms(p[1..]), w[k..]) <==> Glob(p[1..], w[k..])
        {
          AtomsMeanGlob(p[1..], w[k..]);
        }
      } else if w != [] {
        AtomsMeanGlob(if p[0] == '[' then p[ClassEnd(p) + 1..] else p[1..], w[1..]);
        assert Atoms(p)[1..] == Atoms(if p[0] == '[' then p[ClassEnd(p) + 1..] else p[1..]);
      }
    }
  }

  /** The compiler preserves meaning: the text it emits is a regexp of the fragment, and
      it accepts exactly the words the pattern stands for. */
  lemma WildcardKeepsMeaning(pattern: string, w: string)
    requires WellFormed(pattern) && NoNewline(w)
    ensures ReadRegexp(Translate(pattern)).Some?
    ensures Accepts(ReadRegexp(Translate(pattern)).value, w) <==> Glob(pattern, w)
  {
    hide Read, Body, Atoms, WellFormed, Glob, Accepts;
    var t := Translate(pattern);
    assert t[5..|t| - 1] == Body(pattern, false);
    ReadBody(pattern);
    AtomsMeanGlob(pattern, w);
  }

  /** Every pattern without an opening bracket is well-formed. */
  lemma {:induction false} NoClassesIsWellFormed(p: string)
    requires '[' !in p
    ensures WellFormed(p)
  {
    if p != [] { NoClassesIsWellFormed(p[1..]); }
  }

  // --------------------------------------------------- what classes and letters mean

  /** The same character, or the two cases of one letter. */
  ghost predicate SameIgnoringCase(a: char, b: char) {
    a == b || ('a' <= a <= 'z' && b == a - 'a' + 'A') || ('A' <= a <= 'Z' && b == a - 'A' + 'a')
  }

  lemma SameLetterIs(a: char, b: char)
    ensures SameLetter(a, b) <==> SameIgnoringCase(a, b)
  {
  }

  /** A class of one character more, or of one range more. */
  lemma ClassMembersMean(a: char, b: char, rest: string, c: char)
    requires IsAlnum(a) && IsAlnum(b) && a <= b && ClassItems(rest)
    ensures ClassText([a] + rest) && (InClass([a] + rest, c) <==> SameIgnoringCase(a, c) || InClass(rest, c))
    ensures ClassText([a, '-', b] + rest)
    ensures InClass([a, '-', b] + rest, c)
       <==> (exists d :: a <= d <= b && SameIgnoringCase(d, c)) || InClass(rest, c)
  {
    var one, range := [a] + rest, [a, '-', b] + rest;
    assert one[1..] == rest && range[3..] == rest;
    assert rest != [] ==> IsAlnum(rest[0]);
    SameLetterIs(a, c);
    hide InClass, ClassItems;
    InClassUnfolds(one, c);
    InClassUnfolds(range, c);
    ClassItemsUnfold(one);
    ClassItemsUnfold(range);
    RangeMeans(a, b, c);
  }

  lemma InClassUnfolds(s: string, c: char)
    requires s != []
    ensures InClass(s, c)
       <==> if |s| >= 3 && s[1] == '-'
            then s[0] <= LowerChar(c) <= s[2] || s[0] <= UpperChar(c) <= s[2] || InClass(s[3..], c)
            else SameLetter(s[0], c) || InClass(s[1..], c)
  {
  }

  lemma ClassItemsUnfold(s: string)
    requires s != []
    ensures ClassItems(s)
       <==> IsAlnum(s[0]) && (if |s| >= 3 && s[1] == '-' then IsAlnum(s[2]) && s[0] <= s[2] && ClassItems(s[3..])
                              else ClassItems(s[1..]))
  {
  }

  lemma RangeMeans(a: char, b: char, c: char)
    ensures (a <= LowerChar(c) <= b || a <= UpperChar(c) <= b) <==> exists d :: a <= d <= b && SameIgnoringCase(d, c)
  {
    if a <= LowerChar(c) <= b { assert SameIgnoringCase(LowerChar(c), c); }
    if a <= UpperChar(c) <= b { assert SameIgnoringCase(UpperChar(c), c); }
  }

  /** A class stands for one of its members, and behind `!` or `^` for one character that is
      none of them. */
  lemma GlobOfClass(negation: string, members: string, rest: string, w: string)
    requires negation in {"", "!", "^"} && ClassText(members) && WellFormed(rest)
    ensures var p := "[" + negation + members + "]" + rest;
            && WellFormed(p)
            && (Glob(p, w) <==> w != [] && (InClass(members, w[0]) <==> negation == "") && Glob(rest, w[1..]))
  {
    hide Glob, InClass, ClassItems, WellFormed;
    var p := "[" + negation + members + "]" + rest;
    FirstMember(members);
    var start := |negation| + 1;
    assert negation == "!" ==> p[1] == "!"[0];
    assert negation == "^" ==> p[1] == "^"[0];
    assert negation == "" ==> p[1] == members[0];
    assert ClassStart(p) == start;
    assert p[start..] == members + "]" + rest;
    MembersHaveNoBracket(members);
    assert (members + "]" + rest)[..|members|] == members;
    RunLengthIs(p[start..], NotBracket, |members|);
    assert ClassMembers(p) == members;
    assert p[ClassEnd(p) + 1..] == rest;
    GlobAtClass(p, w);
  }

  lemma {:induction false} MembersHaveNoBracket(s: string)
    requires ClassItems(s)
    ensures All(s, NotBracket)
    decreases |s|
  {
    if s != [] {
      if |s| >= 3 && s[1] == '-' {
        MembersHaveNoBracket(s[3..]);
        assert s == s[..3] + s[3..];
      } else {
        MembersHaveNoBracket(s[1..]);
      }
    }
  }

  lemma GlobAtClass(p: string, w: string)
    requires p != [] && p[0] == '[' && ClassEnd(p) < |p| && ClassText(ClassMembers(p))
    requires WellFormed(p[ClassEnd(p) + 1..])
    ensures WellFormed(p)
    ensures Glob(p, w)
       <==> w != [] && InClass(ClassMembers(p), w[0]) != (ClassStart(p) == 2) && Glob(p[ClassEnd(p) + 1..], w[1..])
  {
    hide ClassItems, InClass;
  }
}
