/** A walk through a catalog, page by page (bot/paginate.go, bot/buoy.go): a search or a
    list answer, then "more" until nothing is left. The catalog search itself is a
    parameter; every other requester may act between two page turns. */
module PageWalk {
  import opened Text
  import opened Discovery
  import opened Pager

  // -------------------------------------------------------- cutting into pages

  datatype Paged<T> = Paged(items: seq<T>, page: int, totalPages: nat, totalItems: nat, ok: bool)

  function Max(a: int, b: int): int { if a < b then b else a }
  function Min(a: int, b: int): int { if a < b then a else b }

  function TotalPages(items: nat, pageSize: int): nat
    requires pageSize >= 1
  {
    (items + pageSize - 1) / pageSize
  }

  function PaginateSlice<T>(items: seq<T>, requestedPage: int, pageSize: int): (r: Paged<T>)
    ensures r.totalItems == |items| && r.page == Max(requestedPage, 1)
    ensures r.ok <==> Max(requestedPage, 1) <= r.totalPages
    ensures r.ok ==> r.items != [] && |r.items| <= Max(pageSize, 1)
  {
    var size := Max(pageSize, 1);
    var page := Max(requestedPage, 1);
    var total := TotalPages(|items|, size);
    if page > total then Paged([], page, total, |items|, false)
    else
      PageStartsInside(|items|, size, page);
      var start := (page - 1) * size;
      Paged(items[start..Min(start + size, |items|)], page, total, |items|, true)
  }

  const DISCOVERY_PAGE_MAX := 4

  /** As many rows as leave two lines of the budget for header and footer, at most four and
      at least one. */
  function DiscoveryPageSize(maxReplyLines: int): (n: int)
    ensures 1 <= n <= 4
    ensures maxReplyLines >= 3 ==> n + 2 <= maxReplyLines
    ensures n < 4 ==> maxReplyLines < n + 3
  {
    Min(Max(maxReplyLines - 2, 1), DISCOVERY_PAGE_MAX)
  }

  /** The last page that exists starts inside the list and reaches its end. */
  lemma PageStartsInside(items: nat, size: int, page: int)
    requires size >= 1 && page >= 1
    ensures page <= TotalPages(items, size) <==> (page - 1) * size < items
    ensures page == TotalPages(items, size) ==> page * size >= items
  {
    var total := TotalPages(items, size);
    DivisionBounds(items + size - 1, size);
    if page <= total {
      MulKeepsOrder(page, total, size);
      assert (page - 1) * size == page * size - size;
    } else {
      MulKeepsOrder(total, page - 1, size);
    }
  }

  lemma DivisionBounds(x: int, size: int)
    requires size >= 1
    ensures (x / size) * size <= x < (x / size) * size + size
  {
  }

  lemma MulKeepsOrder(a: int, b: int, size: int)
    requires a <= b && size >= 0
    ensures a * size <= b * size
  {
  }

  /** The rows of the first n pages, one page after another. */
  ghost function FirstPages<T>(items: seq<T>, size: int, n: nat): seq<T> {
    if n == 0 then [] else FirstPages(items, size, n - 1) + PaginateSlice(items, n, size).items
  }

  lemma PageItems<T>(items: seq<T>, size: int, n: nat, start: int)
    requires size >= 1 && 1 <= n <= TotalPages(|items|, size)
    requires start == (n - 1) * size
    ensures 0 <= start < |items| && n * size == start + size
    ensures PaginateSlice(items, n, size).items == items[start..Min(start + size, |items|)]
  {
    hide TotalPages;
    PageStartsInside(|items|, size, n);
    assert n * size == (n - 1) * size + size;
  }

  lemma {:induction false} FirstPagesAreAPrefix<T>(items: seq<T>, size: int, n: nat)
    requires size >= 1 && n <= TotalPages(|items|, size)
    ensures FirstPages(items, size, n) == items[..Min(n * size, |items|)]
  {
    if n > 0 {
      hide PaginateSlice, TotalPages;
      FirstPagesAreAPrefix(items, size, n - 1);
      var start := (n - 1) * size;
      PageItems(items, size, n, start);
      Adjacent(items, start, Min(start + size, |items|));
    }
  }

  lemma Adjacent<T>(items: seq<T>, i: int, j: int)
    requires 0 <= i <= j <= |items|
    ensures items[..i] + items[i..j] == items[..j]
  {
  }

  /** The pages partition the list: in order they hold every row exactly once. */
  lemma PagesPartitionTheList<T>(items: seq<T>, size: int)
    requires size >= 1
    ensures FirstPages(items, size, TotalPages(|items|, size)) == items
  {
    var total := TotalPages(|items|, size);
    FirstPagesAreAPrefix(items, size, total);
    if total > 0 { PageStartsInside(|items|, size, total); }
    else { PageStartsInside(|items|, size, 1); }
  }

  // ------------------------------------------------------------ the commands

  /** One row of the buoy catalog. */
  datatype Row = Row(id: string, name: string, region: string)

  /** What the commands read: the catalog in its own order, its search, the names of the
      states by code, and the operator's reply budget in lines, if one is configured. */
  datatype Catalog = Catalog(rows: seq<Row>, search: string -> seq<Row>, states: map<string, string>,
                             maxReplyLines: Option<int>)

  /** discoveryPageSize. */
  function PageSize(c: Catalog): (n: int)
    ensures 1 <= n <= DISCOVERY_PAGE_MAX
    ensures c.maxReplyLines.None? ==> n == DISCOVERY_PAGE_MAX
  {
    if c.maxReplyLines.None? then DISCOVERY_PAGE_MAX else DiscoveryPageSize(c.maxReplyLines.value)
  }

  predicate RegionMatches(region: string, filter: string, states: map<string, string>) {
    var code := ToLower(TrimSpace(region));
    code != "" && (code == filter || (ToUpper(code) in states && states[ToUpper(code)] == filter))
  }

  /** The rows whose region answers a filter. */
  function FilterRows(rows: seq<Row>, filter: string, states: map<string, string>): seq<Row> {
    if rows == [] then []
    else
      var kept := FilterRows(rows[..|rows| - 1], filter, states);
      if RegionMatches(rows[|rows| - 1].region, filter, states) then kept + [rows[|rows| - 1]] else kept
  }

  function FilterCatalogRegion(c: Catalog, region: string): seq<Row> {
    var filter := ToLower(TrimSpace(region));
    if filter == "" then c.rows else FilterRows(c.rows, filter, c.states)
  }

  /** What the source calls a match, spelled out: the trimmed region of the row is not empty,
      and it is the requested one or the code of the state so named, in any case. */
  ghost predicate InRegion(c: Catalog, row: Row, region: string) {
    var code, asked := TrimSpace(row.region), ToLower(TrimSpace(region));
    && code != ""
    && (ToLower(code) == asked || (ToUpper(code) in c.states && c.states[ToUpper(code)] == asked))
  }

  lemma {:induction false} FilterRowsHold(rows: seq<Row>, filter: string, states: map<string, string>, row: Row)
    ensures multiset(FilterRows(rows, filter, states))[row]
         == if RegionMatches(row.region, filter, states) then multiset(rows)[row] else 0
  {
    hide RegionMatches;
    if rows != [] {
      var n := |rows| - 1;
      FilterRowsHold(rows[..n], filter, states, row);
      assert rows == rows[..n] + [rows[n]];
    }
  }

  lemma {:induction false} FilterRowsConcat(a: seq<Row>, b: seq<Row>, filter: string, states: map<string, string>)
    ensures FilterRows(a + b, filter, states) == FilterRows(a, filter, states) + FilterRows(b, filter, states)
  {
    hide RegionMatches;
    if b == [] {
      assert a + b == a;
    } else {
      var n := |b| - 1;
      assert (a + b)[..|a + b| - 1] == a + b[..n];
      FilterRowsConcat(a, b[..n], filter, states);
    }
  }

  lemma MatchIsInRegion(c: Catalog, row: Row, region: string)
    ensures RegionMatches(row.region, ToLower(TrimSpace(region)), c.states) <==> InRegion(c, row, region)
  {
    hide TrimSpace;
    var code := TrimSpace(row.region);
    assert ToUpper(ToLower(code)) == ToUpper(code);
    assert |ToLower(code)| == |code|;
  }

  /** A region list holds exactly the rows in the region, each as often as the catalog does;
      a blank region holds the whole catalog. */
  lemma RegionListHolds(c: Catalog, region: string, row: Row)
    ensures TrimSpace(region) == "" ==> FilterCatalogRegion(c, region) == c.rows
    ensures TrimSpace(region) != "" ==>
              multiset(FilterCatalogRegion(c, region))[row]
              == if InRegion(c, row, region) then multiset(c.rows)[row] else 0
    ensures TrimSpace(region) != "" ==>
              (row in FilterCatalogRegion(c, region) <==> row in c.rows && InRegion(c, row, region))
  {
    hide TrimSpace, FilterRows, RegionMatches, InRegion;
    var filter := ToLower(TrimSpace(region));
    assert |filter| == |TrimSpace(region)|;
    FilterRowsHold(c.rows, filter, c.states, row);
    MatchIsInRegion(c, row, region);
    assert row in c.rows <==> row in multiset(c.rows);
    assert row in FilterCatalogRegion(c, region) <==> row in multiset(FilterCatalogRegion(c, region));
  }

  /** It lists them in the order of the catalog: the list of a catalog in two parts is the
      lists of the parts. */
  lemma RegionListKeepsOrder(c: Catalog, region: string, a: seq<Row>, b: seq<Row>)
    ensures FilterCatalogRegion(c.(rows := a + b), region)
         == FilterCatalogRegion(c.(rows := a), region) + FilterCatalogRegion(c.(rows := b), region)
  {
    hide TrimSpace, FilterRows;
    FilterRowsConcat(a, b, ToLower(TrimSpace(region)), c.states);
  }

  /** filterCatalogRegion. */
  method FilterRegion(c: Catalog, region: string) returns (out: seq<Row>)
    ensures out == FilterCatalogRegion(c, region)
  {
    hide RegionMatches, TrimSpace, ToLower;
    var filter := ToLower(TrimSpace(region));
    if filter == "" {
      return c.rows;
    }
    out := [];
    for i := 0 to |c.rows|
      invariant out == FilterRows(c.rows[..i], filter, c.states)
    {
      assert c.rows[..i + 1][..i] == c.rows[..i];
      if RegionMatches(c.rows[i].region, filter, c.states) {
        out := out + [c.rows[i]];
      }
    }
    assert c.rows[..|c.rows|] == c.rows;
  }

  /** What a command answers; the wording of headers and rows is left out. */
  datatype Answer =
    | Page(query: Query, page: int, totalPages: nat, rows: seq<Row>)
    | PageMissing(page: int, totalPages: nat)
    | NoMatches
    | Usage
    | NoMorePages
    | Rendered(lines: seq<string>)
    | OtherCommand

  /** renderCatalogPage and saveNextPage: a page, and the command for the page after it. */
  function RenderCatalogPage(c: Catalog, q: Query, rows: seq<Row>, page: int,
                             key: Key, now: int, t: Table): (Answer, Table) {
    var r := PaginateSlice(rows, page, PageSize(c));
    if !r.ok then (PageMissing(r.page, r.totalPages), t)
    else
      (Page(q, r.page, r.totalPages, r.items),
       if r.page >= r.totalPages || key.hash == "" then t
       else Save(t, key, PagerNext(Command(q, r.page + 1), []), now))
  }

  /** runBuoyDiscovery; the proximity answer is one page and is left out. */
  function RunDiscovery(c: Catalog, kind: string, text: string, key: Key, now: int, t: Table): (Answer, Table) {
    if kind == SEARCH then
      var (words, page) := SplitPageArgument(text);
      var query := Join(SearchWords(words), " ");
      if query == "" then (Usage, t)
      else if c.search(query) == [] then (NoMatches, t)
      else RenderCatalogPage(c, Query(BUOY, SEARCH, query), c.search(query), page, key, now, t)
    else if kind == LIST then
      var (region, page) := SplitListArgument(text);
      var rows := FilterCatalogRegion(c, region);
      if rows == [] then (NoMatches, t)
      else RenderCatalogPage(c, Query(BUOY, LIST, ListText(region)), rows, page, key, now, t)
    else (OtherCommand, t)
  }

  /** The registry's Run, for the buoy command and the page-turn shortcuts. */
  function Run(c: Catalog, line: string, requester: string, now: int, t: Table): (Answer, Table)
    decreases |t.entries|, 1
  {
    var (name, args) := SplitCommandLine(line);
    if name == BUOY then
      var (kind, text) := SplitDiscovery(args);
      RunDiscovery(c, kind, text, Key(TrimSpace(requester)), now, t)
    else if name == "more" || name == "next" then RunMore(c, requester, now, t)
    else (OtherCommand, t)
  }

  /** runMore: the pending command is popped and run again. */
  function RunMore(c: Catalog, requester: string, now: int, t: Table): (Answer, Table)
    decreases |t.entries|, 0
  {
    var key := Key(TrimSpace(requester));
    if key.hash == "" then (NoMorePages, t)
    else
      var (next, t') := PopNext(t, key, now);
      if next.None? then (NoMorePages, t')
      else if next.value.lines != [] then (Rendered(next.value.lines), t')
      else if TrimSpace(next.value.cmd) == "" then (NoMorePages, t')
      else
        PopShrinks(t, key, now);
        Run(c, next.value.cmd, requester, now, t')
  }

  lemma PopShrinks(t: Table, key: Key, now: int)
    requires PopNext(t, key, now).0.Some?
    ensures |PopNext(t, key, now).1.entries| < |t.entries|
  {
    var t' := PopNext(t, key, now).1;
    assert t'.entries.Keys <= t.entries.Keys - {key};
    SubsetSize(t'.entries.Keys, t.entries.Keys - {key});
  }

  // ------------------------------------------------------ a page turn re-reads

  /** The rows a query stands for. */
  function RowsOf(c: Catalog, q: Query): seq<Row> {
    if q.kind == SEARCH then c.search(q.text) else FilterCatalogRegion(c, q.text)
  }

  /** A query in the form its own printed command reads back to. */
  ghost predicate Settled(q: Query) {
    && q.command == BUOY
    && ((q.kind == SEARCH && SearchWords(q.text) != [] && Join(SearchWords(q.text), " ") == q.text
         && All(q.text, PlainSpace))
        || (q.kind == LIST && ListText(q.text) == q.text))
  }

  lemma SettledTextIsTrimmed(q: Query)
    requires Settled(q)
    ensures Trimmed(q.text)
  {
    hide SearchWords, Join, ListText;
    if q.kind == SEARCH {
      var words := SearchWords(q.text);
      SearchWordsShape(q.text);
      JoinInherits(words, PlainSpace);
      forall i | 0 <= i < |words| ensures IsWord(words[i]) { PlainSearchWord(words[i]); }
      JoinIsTrimmed(words);
    } else {
      ListTextWords(q.text);
    }
  }

  /** Running the printed command of a settled query renders the page it names. */
  lemma CommandRendersItsPage(c: Catalog, q: Query, page: nat, requester: string, now: int, t: Table)
    requires Settled(q) && RowsOf(c, q) != [] && 1 <= page <= MAX_INT
    ensures Run(c, Command(q, page), requester, now, t)
         == RenderCatalogPage(c, q, RowsOf(c, q), page, Key(TrimSpace(requester)), now, t)
  {
    hide SearchWords, Join, ListText, Command, SplitCommandLine, SplitDiscovery, SplitPageArgument, SplitListArgument;
    hide RenderCatalogPage, FilterCatalogRegion, TrimSpace, Trimmed;
    SettledTextIsTrimmed(q);
    CommandSplits(q.kind, q.text, page);
    if q.kind == SEARCH {
      SearchReadsBackExactlyWhen(q.text, page);
      TextIsNotEmpty(q.text);
    } else {
      ListReadsBack(q.text, page);
    }
  }

  lemma TextIsNotEmpty(text: string)
    requires SearchWords(text) != []
    ensures text != ""
  {
  }

  // ---------------------------------------------------- what the first page saves

  /** White space, if any, is a space or a tab. */
  predicate BlankSpace(c: char) {
    IsSpace(c) ==> c == ' ' || c == '\t'
  }

  lemma SearchArgumentIsBlank(text: string)
    requires All(text, BlankSpace)
    ensures All(SplitPageArgument(text).0, BlankSpace)
  {
    hide TrimSpace, Runs, Join, PageNumber;
    TrimIsPart(text);
    var fields := Fields(text);
    FieldsAreWords(text);
    if |fields| >= 2 {
      var most := fields[..|fields| - 1];
      forall i | 0 <= i < |most| ensures All(most[i], BlankSpace) { assert IsWord(fields[i]); }
      JoinInherits(most, BlankSpace);
    }
  }

  /** Tabs and spaces separate, so the normal form of a blank-spaced text is plain. */
  lemma BlankNormalForm(s: string)
    requires All(s, BlankSpace)
    ensures All(Join(SearchWords(s), " "), PlainSpace)
  {
    hide Runs, KeepWords, Join;
    var lower := ToLower(s);
    forall i | 0 <= i < |lower| ensures BlankSpace(lower[i]) { assert BlankSpace(s[i]); }
    RunsInherit(lower, NotSeparator, BlankSpace);
    RunsAreKept(lower, NotSeparator);
    var runs := Runs(lower, NotSeparator);
    forall i | 0 <= i < |runs| ensures All(runs[i], PlainSpace) {
      assert All(runs[i], BlankSpace) && All(runs[i], NotSeparator);
    }
    KeptInherit(runs, PlainSpace);
    JoinInherits(SearchWords(s), PlainSpace);
  }

  lemma SearchQueryIsSettled(s: string)
    requires SearchWords(s) != [] && All(Join(SearchWords(s), " "), PlainSpace)
    ensures Settled(Query(BUOY, SEARCH, Join(SearchWords(s), " ")))
  {
    hide SearchWords, Join;
    SearchWordsShape(s);
    SearchWordsOfJoin(SearchWords(s));
  }

  lemma ListArgumentIsNormal(text: string)
    ensures SplitListArgument(text).0 == Join(Fields(SplitListArgument(text).0), " ")
  {
    hide Runs, PageNumber;
    var fields := Fields(text);
    FieldsAreWords(text);
    if |fields| == 1 {
      FieldsOfJoin(fields);
    } else if |fields| > 1 {
      FieldsOfJoin(fields);
      FieldsOfJoin(fields[..|fields| - 1]);
    }
    FieldsOfJoin([]);
  }

  /** The upper-cased text of a list page filters like the region it was made from. */
  lemma ListTextFiltersAlike(c: Catalog, region: string)
    requires region == Join(Fields(region), " ")
    ensures FilterCatalogRegion(c, ListText(region)) == FilterCatalogRegion(c, region)
  {
    hide TrimSpace, Runs, Join, FilterRows;
    ListTextWords(region);
    FieldsAreWords(region);
    JoinIsTrimmed(Fields(region));
    TrimmedStays(region);
    TrimmedStays(ListText(region));
    assert ToLower(ToUpper(region)) == ToLower(region);
  }

  /** A page answer names a settled query and a page of that query's rows, for list
      requests always and for searches whose white space is spaces and tabs. */
  lemma PageAnswersAreSettled(c: Catalog, kind: string, text: string, key: Key, now: int, t: Table)
    requires RunDiscovery(c, kind, text, key, now, t).0.Page?
    requires kind == SEARCH ==> All(text, BlankSpace)
    ensures var (answer, t') := RunDiscovery(c, kind, text, key, now, t);
            && Settled(answer.query) && RowsOf(c, answer.query) != []
            && (answer, t') == RenderCatalogPage(c, answer.query, RowsOf(c, answer.query), answer.page, key, now, t)
  {
    hide SearchWords, Join, ListText, SplitPageArgument, SplitListArgument, FilterCatalogRegion, Save;
    if kind == SEARCH {
      var words := SplitPageArgument(text).0;
      SearchArgumentIsBlank(text);
      BlankNormalForm(words);
      JoinOfNothing(SearchWords(words));
      SearchQueryIsSettled(words);
    } else {
      var region := SplitListArgument(text).0;
      ListArgumentIsNormal(text);
      ListTextFiltersAlike(c, region);
      ListReadsBack(region, 1);
    }
  }

  lemma JoinOfNothing(words: seq<string>)
    ensures words == [] ==> Join(words, " ") == ""
  {
  }

  // ------------------------------------------------------------- the page walk

  /** The number of pages of a query. */
  function PagesOf(c: Catalog, q: Query): nat {
    TotalPages(|RowsOf(c, q)|, PageSize(c))
  }

  /** The answer that shows one page of a query. */
  function PageAnswer(c: Catalog, q: Query, page: int): Answer {
    Page(q, page, PagesOf(c, q), PaginateSlice(RowsOf(c, q), page, PageSize(c)).items)
  }

  /** What a rendered page leaves pending: the command of the next page, if there is one. */
  lemma RenderedPage(c: Catalog, q: Query, page: int, key: Key, now: int, t: Table)
    requires Sound(t) && key.hash != "" && 1 <= page <= PagesOf(c, q)
    ensures var (answer, t') := RenderCatalogPage(c, q, RowsOf(c, q), page, key, now, t);
            && answer == PageAnswer(c, q, page)
            && Sound(t') && t'.ttl == t.ttl
            && (page < PagesOf(c, q) ==> PendingPage(t', key) == Some(Entry(PagerNext(Command(q, page + 1), []), now)))
            && (page == PagesOf(c, q) ==> t' == t)
  {
    hide Save, Command, RowsOf;
    SaveIsPending(t, key, PagerNext(Command(q, page + 1), []), now);
    SaveParameters(t, key, PagerNext(Command(q, page + 1), []), now);
  }

  lemma CommandIsNotBlank(q: Query, page: nat)
    requires Settled(q)
    ensures TrimSpace(Command(q, page)) != ""
  {
    hide Command, SplitCommandLine, TrimSpace, Settled;
    SettledTextIsTrimmed(q);
    assert q.command == BUOY && (q.kind == SEARCH || q.kind == LIST) by { SettledShape(q); }
    CommandSplits(q.kind, q.text, page);
    BlankLineHasNoName(Command(q, page));
  }

  lemma SettledShape(q: Query)
    requires Settled(q)
    ensures q == Query(BUOY, q.kind, q.text) && (q.kind == SEARCH || q.kind == LIST)
  {
  }

  lemma BlankLineHasNoName(line: string)
    ensures TrimSpace(line) == "" ==> SplitCommandLine(line).0 == ""
  {
    hide RunLength, TrimRight;
    TrimmedStays("");
  }

  /** One "more": the pending page is shown, and the one after it becomes pending. */
  lemma MoreTurnsThePage(c: Catalog, q: Query, page: nat, requester: string, now: int, t: Table)
    requires Sound(t) && Settled(q) && 1 <= page <= PagesOf(c, q) && page <= MAX_INT
    requires var key := Key(TrimSpace(requester));
             && key.hash != ""
             && key in t.entries
             && t.entries[key].next == PagerNext(Command(q, page), [])
             && !Stale(t.entries[key], now, t.ttl)
    ensures var (answer, t') := RunMore(c, requester, now, t);
            var key := Key(TrimSpace(requester));
            && answer == PageAnswer(c, q, page)
            && Sound(t') && t'.ttl == t.ttl
            && PendingPage(t', key) == (if page < PagesOf(c, q)
                                    then Some(Entry(PagerNext(Command(q, page + 1), []), now)) else None)
  {
    hide Run, RenderCatalogPage, PopNext, Command, TrimSpace, PageAnswer, Settled;
    var key := Key(TrimSpace(requester));
    PopTakes(t, key, now);
    var t1 := PopNext(t, key, now).1;
    CommandIsNotBlank(q, page);
    RowsExist(c, q);
    CommandRendersItsPage(c, q, page, requester, now, t1);
    RenderedPage(c, q, page, key, now, t1);
  }

  lemma RowsExist(c: Catalog, q: Query)
    requires PagesOf(c, q) >= 1
    ensures RowsOf(c, q) != []
  {
    hide RowsOf;
    PageStartsInside(|RowsOf(c, q)|, PageSize(c), 1);
  }

  lemma MoreWithNothingPending(c: Catalog, requester: string, now: int, t: Table)
    requires Sound(t)
    requires var key := Key(TrimSpace(requester)); key in t.entries ==> Stale(t.entries[key], now, t.ttl)
    ensures RunMore(c, requester, now, t).0 == NoMorePages
  {
    hide PopNext, TrimSpace;
    PopTakes(t, Key(TrimSpace(requester)), now);
  }

  /** One "more" of the walk: what other requesters did before it, the clock, its answer,
      and the table it leaves. */
  datatype Turn = Turn(others: seq<Op>, now: int, answer: Answer, after: Table)

  /** A requester's page turns after a first answer at time `from`. Between two of them
      other requesters may save and pop as they like, as long as nobody is evicted, and no
      turn comes later than the time to live. */
  ghost predicate Turns(c: Catalog, requester: string, first: Table, from: int, turns: seq<Turn>) {
    && (turns != [] ==> Follows(c, requester, first, from, turns[0]))
    && (forall i :: 1 <= i < |turns| ==> Follows(c, requester, turns[i - 1].after, turns[i - 1].now, turns[i]))
  }

  ghost predicate Follows(c: Catalog, requester: string, last: Table, at: int, turn: Turn) {
    && OfOthers(last, Key(TrimSpace(requester)), turn.others, turn.now)
    && at <= turn.now && (last.ttl > 0 ==> turn.now <= at + last.ttl)
    && (turn.answer, turn.after) == RunMore(c, requester, turn.now, Later(last, turn.others))
  }

  /** The page turn finds the page the walk left pending. */
  lemma PageIsStillThere(c: Catalog, q: Query, page: nat, requester: string, last: Table, at: int, turn: Turn)
    requires WalkedTo(c, q, page, Key(TrimSpace(requester)), last, at)
    requires Follows(c, requester, last, at, turn)
    ensures var before := Later(last, turn.others);
            && Sound(before) && before.ttl == last.ttl
            && PendingPage(before, Key(TrimSpace(requester))) == PendingPage(last, Key(TrimSpace(requester)))
  {
    hide RunMore, PagesOf, Command, TrimSpace, Sound, OfOthers;
    OthersLeaveItAlone(last, Key(TrimSpace(requester)), turn.others, turn.now);
  }

  /** The state of the walk after its first n turns, the first page being `page`. */
  ghost predicate WalkedTo(c: Catalog, q: Query, page: nat, key: Key, t: Table, at: int) {
    && Sound(t)
    && PendingPage(t, key) == (if page < PagesOf(c, q)
                           then Some(Entry(PagerNext(Command(q, page + 1), []), at)) else None)
  }

  /** One page turn of the walk. */
  lemma TurnShowsTheNextPage(c: Catalog, q: Query, page: nat, requester: string, last: Table, at: int, turn: Turn)
    requires Settled(q) && page < PagesOf(c, q) <= MAX_INT && TrimSpace(requester) != ""
    requires WalkedTo(c, q, page, Key(TrimSpace(requester)), last, at) && Follows(c, requester, last, at, turn)
    ensures turn.answer == PageAnswer(c, q, page + 1)
    ensures WalkedTo(c, q, page + 1, Key(TrimSpace(requester)), turn.after, turn.now) && turn.after.ttl == last.ttl
  {
    hide RunMore, PageAnswer, PagesOf, Settled, TrimSpace, Sound, Command, PendingPage, Later, OfOthers;
    PageIsStillThere(c, q, page, requester, last, at, turn);
    PendingIsStored(Later(last, turn.others), Key(TrimSpace(requester)));
    MoreTurnsThePage(c, q, page + 1, requester, turn.now, Later(last, turn.others));
  }

  lemma {:induction false} WalkProgress(c: Catalog, q: Query, page: nat, requester: string,
                                        first: Table, from: int, turns: seq<Turn>, n: nat)
    requires Settled(q) && 1 <= page <= PagesOf(c, q) <= MAX_INT
    requires TrimSpace(requester) != "" && WalkedTo(c, q, page, Key(TrimSpace(requester)), first, from)
    requires Turns(c, requester, first, from, turns) && n <= |turns| && page + n <= PagesOf(c, q)
    ensures n > 0 ==> turns[n - 1].answer == PageAnswer(c, q, page + n)
    ensures var (t, at) := if n == 0 then (first, from) else (turns[n - 1].after, turns[n - 1].now);
            WalkedTo(c, q, page + n, Key(TrimSpace(requester)), t, at) && t.ttl == first.ttl
  {
    hide PageAnswer, PagesOf, Settled, TrimSpace, WalkedTo, Follows;
    if n > 0 {
      WalkProgress(c, q, page, requester, first, from, turns, n - 1);
      var turn := turns[n - 1];
      var (last, at) := if n == 1 then (first, from) else (turns[n - 2].after, turns[n - 2].now);
      assert Follows(c, requester, last, at, turn);
      TurnShowsTheNextPage(c, q, page + n - 1, requester, last, at, turn);
    }
  }

  lemma PendingIsStored(t: Table, key: Key)
    ensures PendingPage(t, key) == if key in t.entries then Some(t.entries[key]) else None
  {
  }

  /** The rows shown by the first answer and the turns after it. */
  ghost function Shown(turns: seq<Turn>): seq<Row> {
    if turns == [] then []
    else
      var answer := turns[|turns| - 1].answer;
      Shown(turns[..|turns| - 1]) + (if answer.Page? then answer.rows else [])
  }

  /** The rows shown from page 1 on are the pages in order. */
  lemma {:induction false} ShownAreThePages(c: Catalog, q: Query, turns: seq<Turn>, n: nat)
    requires n <= |turns|
    requires forall i :: 0 <= i < n ==> turns[i].answer == PageAnswer(c, q, i + 2)
    ensures PageAnswer(c, q, 1).rows + Shown(turns[..n]) == FirstPages(RowsOf(c, q), PageSize(c), n + 1)
  {
    hide PaginateSlice, RowsOf, PagesOf, PageSize;
    if n == 0 {
      assert FirstPages(RowsOf(c, q), PageSize(c), 0) == [];
    } else {
      ShownAreThePages(c, q, turns, n - 1);
      assert turns[..n][..n - 1] == turns[..n - 1];
      assert turns[..n][n - 1].answer == PageAnswer(c, q, n + 1);
    }
  }

  /** A rendered page is one of the pages of its query. */
  lemma PageIsOnePage(c: Catalog, q: Query, page: int, key: Key, now: int, t: Table)
    requires var answer := RenderCatalogPage(c, q, RowsOf(c, q), page, key, now, t).0;
             answer.Page? && answer.page == page
    ensures 1 <= page <= PagesOf(c, q)
    ensures RenderCatalogPage(c, q, RowsOf(c, q), page, key, now, t).0.totalPages == PagesOf(c, q)
  {
    hide RowsOf, Save, Command, PageSize;
  }

  /** The first answer leaves the walk where its page turns expect it. */
  lemma FirstAnswer(c: Catalog, kind: string, text: string, key: Key, now: int, t: Table)
    requires Sound(t) && key.hash != ""
    requires RunDiscovery(c, kind, text, key, now, t).0.Page?
    requires kind == SEARCH ==> All(text, BlankSpace)
    ensures var (answer, t') := RunDiscovery(c, kind, text, key, now, t);
            var q := answer.query;
            && Settled(q) && answer == PageAnswer(c, q, answer.page)
            && 1 <= answer.page <= PagesOf(c, q) == answer.totalPages
            && t'.ttl == t.ttl
            && (answer.page < answer.totalPages || PendingPage(t, key).None? ==>
                  WalkedTo(c, q, answer.page, key, t', now))
            && (answer.page == answer.totalPages ==> t' == t)
  {
    hide RunDiscovery, RowsOf, Settled, Sound, PageSize, PagesOf, PageAnswer, PendingPage, RenderCatalogPage;
    var (answer, t') := RunDiscovery(c, kind, text, key, now, t);
    PageAnswersAreSettled(c, kind, text, key, now, t);
    PageIsOnePage(c, answer.query, answer.page, key, now, t);
    RenderedPage(c, answer.query, answer.page, key, now, t);
  }

  lemma WalkEnds(c: Catalog, q: Query, page: nat, requester: string, first: Table, from: int, turns: seq<Turn>)
    requires Settled(q) && 1 <= page <= PagesOf(c, q) <= MAX_INT && PagesOf(c, q) - page < |turns|
    requires TrimSpace(requester) != "" && WalkedTo(c, q, page, Key(TrimSpace(requester)), first, from)
    requires Turns(c, requester, first, from, turns)
    ensures turns[PagesOf(c, q) - page].answer == NoMorePages
  {
    hide RunMore, PagesOf, Settled, TrimSpace, Sound, Command;
    var left := PagesOf(c, q) - page;
    WalkProgress(c, q, page, requester, first, from, turns, left);
    var turn := turns[left];
    var (last, at) := if left == 0 then (first, from) else (turns[left - 1].after, turns[left - 1].now);
    assert Follows(c, requester, last, at, turn);
    PageIsStillThere(c, q, page + left, requester, last, at, turn);
    hide OfOthers, Later;
    MoreWithNothingPending(c, requester, turn.now, Later(last, turn.others));
  }

  /** A search or list answer followed by "more" and nothing else of that requester,
      whatever other requesters do without evicting, shows every later page in order, from
      page 1 all rows exactly once, and then says that nothing is left. */
  lemma WalkShowsEveryPage(c: Catalog, kind: string, text: string, requester: string,
                           now: int, t: Table, turns: seq<Turn>)
    requires Sound(t) && TrimSpace(requester) != ""
    requires kind == SEARCH ==> All(text, BlankSpace)
    requires var (answer, t') := RunDiscovery(c, kind, text, Key(TrimSpace(requester)), now, t);
             && answer.Page? && answer.totalPages <= MAX_INT
             && (answer.page == answer.totalPages ==> PendingPage(t, Key(TrimSpace(requester))).None?)
             && Turns(c, requester, t', now, turns)
    ensures var answer := RunDiscovery(c, kind, text, Key(TrimSpace(requester)), now, t).0;
            var left := answer.totalPages - answer.page;
            && 0 <= left
            && (forall i :: 0 <= i < |turns| && i < left ==>
                  turns[i].answer == PageAnswer(c, answer.query, answer.page + 1 + i))
            && (left < |turns| ==> turns[left].answer == NoMorePages)
            && (answer.page == 1 && left <= |turns| ==>
                  answer.rows + Shown(turns[..left]) == RowsOf(c, answer.query))
  {
    hide Run, RunMore, RunDiscovery, TrimSpace, PendingPage, RowsOf, Sound, Settled;
    hide WalkedTo, Turns, PaginateSlice, FirstPages, Shown;
    var key := Key(TrimSpace(requester));
    var (answer, t') := RunDiscovery(c, kind, text, key, now, t);
    FirstAnswer(c, kind, text, key, now, t);
    var q, page := answer.query, answer.page;
    var left := answer.totalPages - page;
    forall i | 0 <= i < |turns| && i < left
      ensures turns[i].answer == PageAnswer(c, q, page + 1 + i)
    {
      WalkProgress(c, q, page, requester, t', now, turns, i + 1);
    }
    if left < |turns| {
      WalkEnds(c, q, page, requester, t', now, turns);
    }
    if page == 1 && left <= |turns| {
      ShownAreThePages(c, q, turns, left);
      PagesPartitionTheList(RowsOf(c, q), PageSize(c));
    }
  }

  /** An answer that fits one page clears nothing: the next "more" shows the page of an
      older query that is still pending. */
  lemma OnePageAnswerLeavesTheOldPage(c: Catalog, kind: string, text: string, requester: string,
                                      now: int, t: Table, later: int, q: Query, page: nat)
    requires Sound(t) && Settled(q) && 1 <= page <= PagesOf(c, q) && page <= MAX_INT
    requires var key := Key(TrimSpace(requester));
             && key.hash != ""
             && key in t.entries
             && t.entries[key].next == PagerNext(Command(q, page), [])
             && !Stale(t.entries[key], later, t.ttl)
    requires var answer := RunDiscovery(c, kind, text, Key(TrimSpace(requester)), now, t).0;
             answer.Page? && answer.page == answer.totalPages
    ensures var t' := RunDiscovery(c, kind, text, Key(TrimSpace(requester)), now, t).1;
            RunMore(c, requester, later, t').0 == PageAnswer(c, q, page)
  {
    OnePageAnswerSavesNothing(c, kind, text, Key(TrimSpace(requester)), now, t);
    hide RunMore, RunDiscovery, Command, Settled, Sound, PagesOf, PageAnswer, TrimSpace;
    MoreTurnsThePage(c, q, page, requester, later, t);
  }

  lemma OnePageAnswerSavesNothing(c: Catalog, kind: string, text: string, key: Key, now: int, t: Table)
    requires var answer := RunDiscovery(c, kind, text, key, now, t).0;
             answer.Page? && answer.page == answer.totalPages
    ensures RunDiscovery(c, kind, text, key, now, t).1 == t
  {
    hide FilterCatalogRegion, SearchWords, SplitPageArgument, SplitListArgument, ListText, Join, Save;
  }

  /** So after a one-page answer "more" says that nothing is left exactly when no older
      page of the requester is still alive. */
  lemma NothingLeftExactlyWhenNoneWasPending(c: Catalog, q: Query, page: nat, requester: string, now: int, t: Table)
    requires Sound(t) && Settled(q) && 1 <= page <= PagesOf(c, q) && page <= MAX_INT && TrimSpace(requester) != ""
    requires var key := Key(TrimSpace(requester));
             key in t.entries ==> t.entries[key].next == PagerNext(Command(q, page), [])
    ensures RunMore(c, requester, now, t).0 == NoMorePages
       <==> var key := Key(TrimSpace(requester)); key !in t.entries || Stale(t.entries[key], now, t.ttl)
  {
    hide RunMore, TrimSpace, Command, Settled, PagesOf, Sound;
    var key := Key(TrimSpace(requester));
    if key !in t.entries || Stale(t.entries[key], now, t.ttl) {
      MoreWithNothingPending(c, requester, now, t);
    } else {
      MoreTurnsThePage(c, q, page, requester, now, t);
    }
  }

  // --------------------------------------------- one input that leaves an old page

  const ROW := Row("id", "name", "region")

  /** A catalog in which "a" finds five rows, two pages, and "b" finds one. */
  function TwoSearches(): Catalog {
    Catalog([ROW], text => if text == "a" then [ROW, ROW, ROW, ROW, ROW] else if text == "b" then [ROW] else [],
            map[], None)
  }

  /** A one-letter search asks for its first page. */
  lemma OneLetterSearch(c: char)
    requires 'a' <= c <= 'z'
    ensures SplitPageArgument([c]) == ([c], 1) && SearchWords([c]) == [[c]] && Join([[c]], " ") == [c]
    ensures All([c], BlankSpace)
  {
    var w := [c];
    assert ToLower(w) == w;
    SingleRun(w, NotSpace);
    SingleRun(w, NotSeparator);
    TrimmedStays(w);
    assert HasAlnum(w) by { assert IsAlnum(w[0]); }
    OneKeptWord(w);
  }

  /** A one-letter search renders the first page of what it finds. */
  lemma LetterIsSearched(c: Catalog, letter: char, key: Key, now: int, t: Table)
    requires 'a' <= letter <= 'z' && c.search([letter]) != []
    ensures RunDiscovery(c, SEARCH, [letter], key, now, t)
         == RenderCatalogPage(c, Query(BUOY, SEARCH, [letter]), c.search([letter]), 1, key, now, t)
  {
    hide SplitPageArgument, SearchWords, Join, RenderCatalogPage;
    OneLetterSearch(letter);
  }

  /** The first page of up to eight rows, four to a page. */
  lemma FirstOfTwo(c: Catalog, q: Query, rows: seq<Row>, key: Key, now: int, t: Table)
    requires c.maxReplyLines.None? && 1 <= |rows| <= 8
    ensures var answer := RenderCatalogPage(c, q, rows, 1, key, now, t).0;
            answer.Page? && answer.query == q && answer.page == 1 && answer.totalPages == if |rows| <= 4 then 1 else 2
  {
    hide Save, Command;
  }

  /** A search for "a", then one for "b" that fits its page, then "more": the second page of
      "a" is shown. */
  lemma OldPageIsShown()
    ensures var c, key := TwoSearches(), Key("r");
            var (first, t1) := RunDiscovery(c, SEARCH, "a", key, 0, EMPTY);
            var (second, t2) := RunDiscovery(c, SEARCH, "b", key, 1, t1);
            && first.Page? && first.totalPages == 2
            && second.Page? && second.page == second.totalPages == 1
            && RunMore(c, "r", 2, t2).0 == PageAnswer(c, Query(BUOY, SEARCH, "a"), 2)
  {
    hide RunMore, RunDiscovery, RenderCatalogPage, Settled, PageAnswer, TrimSpace, PagesOf, Command;
    var c, key := TwoSearches(), Key("r");
    TrimmedStays("r");
    OneLetterSearch('a');
    LetterIsSearched(c, 'a', key, 0, EMPTY);
    FirstOfTwo(c, Query(BUOY, SEARCH, "a"), c.search("a"), key, 0, EMPTY);
    var (first, t1) := RunDiscovery(c, SEARCH, "a", key, 0, EMPTY);
    LetterIsSearched(c, 'b', key, 1, t1);
    FirstOfTwo(c, Query(BUOY, SEARCH, "b"), c.search("b"), key, 1, t1);
    EmptyIsSound();
    FirstAnswer(c, SEARCH, "a", key, 0, EMPTY);
    hide Sound;
    PendingIsStored(t1, key);
    OnePageAnswerLeavesTheOldPage(c, SEARCH, "b", "r", 1, t1, 2, first.query, 2);
  }

  lemma EmptyIsSound()
    ensures Sound(EMPTY)
  {
  }

  /** A page past the last one is missing; any other is shown. */
  lemma RenderAnswers(c: Catalog, q: Query, page: int, key: Key, now: int, t: Table)
    ensures var shown := Max(page, 1);
            RenderCatalogPage(c, q, RowsOf(c, q), page, key, now, t).0
            == if shown > PagesOf(c, q) then PageMissing(shown, PagesOf(c, q)) else PageAnswer(c, q, shown)
  {
    hide Save, Command, PageSize, TotalPages, RowsOf;
  }

  lemma NoWordsNoText(words: seq<string>)
    requires forall i :: 0 <= i < |words| ==> SearchWord(words[i])
    ensures Join(words, " ") == "" <==> words == []
  {
    hide Join, Runs;
    if words == [] { JoinOfNothing(words); }
    else {
      SearchTextHasFields(words);
      assert Fields("") == [] by { NoRuns("", NotSpace); }
    }
  }

  /** What a search request is answered with: the usage when it has no search word, nothing
      found when the catalog search finds nothing, a missing page past the last one, and
      else the page it asks for. */
  lemma SearchIsAnswered(c: Catalog, text: string, key: Key, now: int, t: Table)
    ensures var (query, page) := SplitPageArgument(text);
            var q := Query("buoy", "search", Join(SearchWords(query), " "));
            var answer := RunDiscovery(c, "search", text, key, now, t).0;
            var shown := Max(page, 1);
            if SearchWords(query) == [] then answer == Usage
            else if c.search(q.text) == [] then answer == NoMatches
            else if shown > PagesOf(c, q) then answer == PageMissing(shown, PagesOf(c, q))
            else answer == PageAnswer(c, q, shown)
  {
    hide SplitPageArgument, RenderCatalogPage, SearchWords, Join, PagesOf, PageAnswer;
    var (query, page) := SplitPageArgument(text);
    SearchWordsShape(query);
    NoWordsNoText(SearchWords(query));
    RenderAnswers(c, Query(BUOY, SEARCH, Join(SearchWords(query), " ")), page, key, now, t);
  }

  /** The words `more` and `next` turn the page; `buoy` asks the catalog, whose search and
      list words are those of the sub-commands; any other command is not of this model. */
  lemma LineIsDispatched(c: Catalog, word: string, rest: string, requester: string, now: int, t: Table)
    requires IsWord(word) && word[0] != '/' && rest != [] && Trimmed(rest)
    ensures var name, line := ToLower(word), word + " " + rest;
            var key := Key(TrimSpace(requester));
            && (name == "more" || name == "next" ==> Run(c, line, requester, now, t) == RunMore(c, requester, now, t))
            && (name !in {"more", "next", "buoy"} ==> Run(c, line, requester, now, t) == (OtherCommand, t))
            && (name == "buoy" ==>
                  Run(c, line, requester, now, t)
                  == RunDiscovery(c, SplitDiscovery(rest).0, SplitDiscovery(rest).1, key, now, t))
  {
    hide SplitCommandLine, RunMore, RunDiscovery, SplitDiscovery, ToLower, TrimSpace;
    SplitWordAndRest(word, rest);
    assert "more"[0] != "buoy"[0] && "next"[0] != "buoy"[0];
  }

  /** A bare `more` or `next` turns the page too. */
  lemma BareWordTurnsThePage(c: Catalog, word: string, requester: string, now: int, t: Table)
    requires IsWord(word) && word[0] != '/' && ToLower(word) in {"more", "next"}
    ensures Run(c, word, requester, now, t) == RunMore(c, requester, now, t)
  {
    hide SplitCommandLine, RunMore, RunDiscovery, SplitDiscovery, ToLower;
    WordAlone(word);
    assert "more"[0] != "buoy"[0] && "next"[0] != "buoy"[0];
  }
}
