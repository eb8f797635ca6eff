# Verification of the bot package

A Dafny model of the stateful and language-like parts of the `bot` package, with proofs of
what they promise. `dafny verify dfyconfig.toml` checks the whole project.

Each module follows one component. Code that computes a value is a function; code that
changes state is a class or a method, proved equal to a function on values; the properties
of whole runs are lemmas about those functions.

- `LxmfBudget` (`bot/lxmf.go`): the two sliding windows of the rate limiter and the bounded
  table of askers. The limit holds although the table forgets, because the bot-wide limit
  leaves too few live askers to fill it.
- `KjvTokens`, `KjvQuery`, `KjvWildcard`, `KjvMatch`, `KjvPhrase` (`bot/kjv-query.go`):
  tokenizer, group parser, wildcard compiler and evaluator of the query language, and what
  quoted phrases find. The regexp package is a parameter; where a result depends on it, the
  lemma says what it must honour.
- `Pager`, `Discovery`, `PageWalk` (`bot/paginate.go`, `bot/discovery.go`,
  `splitCommandLine`, `runBuoyDiscovery`): the table of pending pages, the printed page
  commands and their parsing, and the walk through a list with `more`. The ranking of a
  catalog search is a parameter: any function from a query to rows.
- `HubSession` (`bot/hub.go`): link, join and greet, as a state machine whose steps are the
  lock-protected regions, in every interleaving of callbacks and syncs.
- `Checkin` (`bot/checkin.go`): the timer store, its watchdog, and a ledger of every
  timer's fate.
- `Dispatch` (`bot/bot.go`, `bot/announce.go`): the bounded inbound queues with producers,
  consumer and stop.
- `MoonSearch` (`bot/moon.go`): scan and bisection over any value function.
- `Morse` (`bot/morse.go`): the code tables and both translators.
- `NmeaFrame`, `NmeaNumbers`, `NmeaPosition`, `NmeaTime`, `NmeaFix`, `NmeaRoundTrip`
  (`bot/nmea-emit.go`, `bot/gps.go`): sentences, fields, the emitters and the merging reader.
- `Caches`, `Announces` (`bot/provider.go`, `bot/flight.go`, `bot/announce.go`): the bounded
  first-in-first-out tables.
- `Text`, `Listing`: the string helpers and eviction orders the others share.

Times are integer nanoseconds and a clock reading is a parameter. Angles are exact reals.
Text is a sequence of characters; case mapping is ASCII only. An NMEA line is a sequence of
bytes, one character each.

Where a property one would expect is false of the code, the code is kept, a lemma shows an
input on which it fails, and another says exactly when it holds:

| property | fails | holds exactly when |
|---|---|---|
| the windows map holds only listed askers | `WindowsMapIsUnbounded` | `ListedKeptExactlyWhen` |
| joining concatenates tokens | `OpenQuoteSwallows` | `TokensJoinExactlyWhen` |
| joining concatenates parsed queries | `PipeAtTheJoin` | `QueriesJoinExactlyWhen` |
| the pager order is that of age | `RepeatedSaveIsEvictedFirst` | `AgeOrderKeptExactlyWhen` |
| a printed search command asks the same again | `NewlineReadsDifferently` | `SearchReadsBackExactlyWhen` |
| "more" after the last page says nothing is left | `OldPageIsShown` | `NothingLeftExactlyWhenNoneWasPending` |
| a greeting mark finds its room confirmed | `GreetingCanMissItsLink` | `MarkIsSoundExactlyWhen` |
| everything accepted is handled | `LateSendIsStranded` | `AllHandledExactlyWhen` |
| the phase search answers with the crossing | `ZeroSampleIsAnsweredLate` | `PhaseIsFoundExactlyWhen` |
| a valid fix rests on a position that was heard | `ActiveWithoutCoordinates`, `QualityWithoutCoordinates` | `ValidRestsOnAPositionExactlyWhen` |

## Model

| member | source | states |
|---|---|---|
| LxmfBudget.PruneTimes | bot/lxmf.go:296-304 | the loop keeps exactly the timestamps strictly after the cutoff, in order |
| LxmfBudget.Limiter.constructor | bot/lxmf.go:244-252 | a new budget has no windows and lists no asker |
| LxmfBudget.Limiter.TouchLocked | bot/lxmf.go:278-290 | the asker moves to the back of the order and the front is forgotten while the order is over 256 |
| LxmfBudget.Limiter.EvictOldest | bot/lxmf.go:286-289 | the eviction loop removes windows and order entries together, front first |
| LxmfBudget.Limiter.AdmitAsk | bot/lxmf.go:256-274 | verdict and new state of one ask: the asker budget is tried before the bot budget, both refusals store the pruned window |
| LxmfBudget.CappedBoundsEveryWindow | bot/lxmf.go:259-268 | if every append found room in its own window, no window of one minute, wherever it ends, holds more than the limit |
| LxmfBudget.LiveAskersAreFew | bot/lxmf.go:263-271 | pigeonhole: askers with a live admission are at most as many as the live admissions of the whole bot |
| LxmfBudget.VictimHasAgedOut | bot/lxmf.go:286-289 | an asker pushed out of a table of more than 20 has no admission inside the window |
| LxmfBudget.EvictionKeeps | bot/lxmf.go:278-290 | eviction from a table one over its bound loses no live timestamp and keeps the order sorted by last admission |
| LxmfBudget.AdmittedStep | bot/lxmf.go:256-274 | an admitted ask keeps the whole invariant between table and history |
| LxmfBudget.RefusedStep | bot/lxmf.go:263-269 | a refused ask keeps the whole invariant with the history unchanged |
| LxmfBudget.RateLimitHolds | bot/lxmf.go:237-304 | in every run with a clock that never goes back and for every instant t, at most 5 asks of one asker and 20 in all are admitted in (t-60s, t], although the table forgets askers |
| LxmfBudget.NothingLiveIsForgotten | bot/lxmf.go:256-290 | after every run the next verdict is the one computed from the whole admission history, with no table at all |
| LxmfBudget.AdmittedExactlyWhen | bot/lxmf.go:256-274 | after every run an ask is admitted if and only if fewer than 5 of its asker and fewer than 20 in all were admitted in the minute up to now, counted on the history, and a refusal names the budget of the asker if and only if that one is spent |
| LxmfBudget.TableShape | bot/lxmf.go:276-290 | after every run the order is duplicate-free, at most 256 long, sorted by last admission and lists every asker whose stored window is not empty |
| LxmfBudget.ListedKeptExactlyWhen | bot/lxmf.go:266-268 | a call keeps the windows map inside the listed askers if and only if the asker is listed or the bot-wide window has room |
| LxmfBudget.WindowsMapIsUnbounded | bot/lxmf.go:266-268 | counterexample family: for every bound there is a run after which the windows map is larger |
| KjvTokens.ReadWord | bot/kjv-query.go:226-233 | the word loop stops at the first character outside a word and returns the text before it |
| KjvTokens.PhraseLoop | bot/kjv-query.go:243-285 | the quoted-phrase loop consumes up to the next quote and emits the words in between |
| KjvTokens.ReadPhrase | bot/kjv-query.go:240-294 | a quoted phrase, plain or excluded, with its start and end tokens and its closing quote, if any, consumed |
| KjvTokens.Turn | bot/kjv-query.go:234-314 | one turn of the outer loop emits and consumes what the tokenizer step says, and always advances |
| KjvTokens.Tokenize | bot/kjv-query.go:222-316 | the loop terminates on every input with the token list of the recursive tokenizer |
| KjvTokens.TokensJoin | bot/kjv-query.go:222-316 | a first query with paired quotes: tokenizing q1 + space + q2 concatenates the two token lists |
| KjvTokens.OpenQuoteEnds | bot/kjv-query.go:240-294 | an unpaired quote opens a phrase that ends the token list |
| KjvTokens.OpenQuoteSwallows | bot/kjv-query.go:240-294 | counterexample family: every query with an unpaired quote swallows a word joined to it |
| KjvTokens.TokensJoinExactlyWhen | bot/kjv-query.go:222-316 | joining concatenates the tokens for every second query if and only if the quotes of the first are paired |
| KjvTokens.SingleStep | bot/kjv-query.go:301-314 | a text of word characters that starts no operator is one word token |
| KjvQuery.SplitVerse | bot/kjv-query.go:155-176 | the buffer loop yields the maximal runs of letters and digits, lower-cased |
| KjvQuery.ParsePhrase | bot/kjv-query.go:354-367 | the phrase loop collects the nodes up to the phrase end and whether any word was excluded |
| KjvQuery.ParseElement | bot/kjv-query.go:340-382 | the switch over one token returns the element of the recursive parser |
| KjvQuery.ParseGroup | bot/kjv-query.go:337-386 | the OR loop collects alternatives while pipes join them, and always advances |
| KjvQuery.Parse | bot/kjv-query.go:328-401 | the parser loop terminates on every input with the include and exclude lists of the recursive parser |
| KjvWildcard.WriteOne | bot/kjv-query.go:99-124 | one turn of the loop writes, advances and switches the class mode as the translation says |
| KjvWildcard.WildcardToRegexp | bot/kjv-query.go:94-127 | the index loop writes the translation of the pattern |
| KjvWildcard.ReadBody | bot/kjv-query.go:94-127 | reading the emitted text in the regexp fragment gives back one atom per pattern element |
| KjvWildcard.AnyRunAccepts | bot/kjv-query.go:107-111 | `.*` accepts exactly a run of any length before the rest |
| KjvWildcard.WildcardKeepsMeaning | bot/kjv-query.go:90-127 | for every pattern whose classes are closed, the emitted text is a regexp of the fragment and accepts exactly the words the pattern stands for |
| KjvWildcard.NoClassesIsWellFormed | bot/kjv-query.go:94-127 | every pattern without an opening bracket is covered |
| KjvWildcard.ClassMembersMean | bot/kjv-query.go:100-118 | a class takes a character of its list, or of a range, in either case, and nothing else |
| KjvWildcard.GlobOfClass | bot/kjv-query.go:112-118 | a class stands for one of its members, and behind ! or ^ for one character that is none of them |
| KjvMatch.ParseExtends | bot/kjv-query.go:328-401 | closed tokens parse the same whatever follows them, so parsing concatenates |
| KjvMatch.GroupMerges | bot/kjv-query.go:339-386 | a pipe at the join merges the last group of one token list with the first group of the next, node by node and with both exclude marks |
| KjvMatch.MergeExactlyWhen | bot/kjv-query.go:387-398 | a merged group contributes what the two contribute if and only if one of them has no nodes |
| KjvMatch.ParseJoinsExactlyWhen | bot/kjv-query.go:328-401 | parsing joined tokens concatenates if and only if no pipe stands at the join, or the last group before it or the first group after it has no nodes |
| KjvMatch.QueriesJoinExactlyWhen | bot/kjv-query.go:222-401 | the same for query texts whose first one has its quotes paired |
| KjvMatch.JoinIntersects | bot/kjv-query.go:222-486 | for a first query with paired quotes, as long as no pipe merges a group of each, parsing the join concatenates include and exclude lists, and a verse matches the join exactly when it matches both |
| KjvMatch.PipeAtTheJoin | bot/kjv-query.go:339-386 | counterexample family: with a pipe at the join a verse is found that the second query alone refuses |
| KjvMatch.PlainTermNode | bot/kjv-query.go:181-205 | a plain term becomes the word, or the phrase of the words, that splitting a verse would make of it |
| KjvMatch.PlainTermFinds | bot/kjv-query.go:404-486 | a plain term finds a verse if and only if its words occur consecutively in it |
| KjvMatch.CopiedTermFindsItsVerse | bot/kjv-query.go:155-205 | a plain term copied out of a verse at word boundaries always finds that verse, hyphens included |
| KjvMatch.WildcardTermFinds | bot/kjv-query.go:404-470 | with a regexp package that compiles and matches the texts written for ASCII patterns as the fragment means them, a wildcard term of ASCII characters finds exactly the verses with a word the pattern stands for |
| KjvMatch.SomeEngineHonours | bot/kjv-query.go:90-127 | what is asked of the regexp package can be met |
| KjvMatch.PipeUnites | bot/kjv-query.go:449-486 | two plain terms with a pipe find the union |
| KjvMatch.HyphenNegates | bot/kjv-query.go:474-486 | a hyphen before a plain term finds exactly the verses the term does not |
| KjvMatch.StripsPunctuation | bot/kjv-query.go:81-83 | punctuation is taken off in front of a term up to a letter, a digit or one of _*?[ and behind it down to a letter, a digit or one of _*] |
| KjvMatch.VerseOfWords | bot/kjv-query.go:155-176 | words of letters and digits with spaces between them are split into themselves, in lower case |
| KjvMatch.UncompiledFindsNothing | bot/kjv-query.go:186-190 | a wildcard term whose pattern the regexp package refuses finds no verse |
| KjvMatch.WordlessTermFindsNothing | bot/kjv-query.go:182-195 | a term without a letter, a digit or a wildcard finds no verse |
| KjvMatch.ParsedIsFlat | bot/kjv-query.go:209-219 | whatever was typed, no phrase of the parsed query holds a phrase and no alternative holds another, so the default of the word matcher is never asked |
| KjvPhrase.QuotedPhraseFinds | bot/kjv-query.go:240-316 | a quoted list of plain terms and stars finds a verse if and only if their words stand in it in a row, a star standing for any one word |
| KjvPhrase.ExcludedPhraseFinds | bot/kjv-query.go:353-398 | a hyphen before the quote finds exactly the verses the phrase does not; a star then needs a regexp package that honours it |
| KjvPhrase.StarFindsEveryVerse | bot/kjv-query.go:376-398 | a bare star, quoted or not, and an empty pair of quotes find every verse, the one without words included |
| Pager.PagerSession.constructor | bot/paginate.go:143-150 | an empty table with the 5 minute TTL and the cap of 256 |
| Pager.PagerSession.ExpireLocked | bot/paginate.go:192-210 | entries older than the TTL leave map and order together |
| Pager.PagerSession.EvictLocked | bot/paginate.go:214-223 | front keys leave until the table is within its cap |
| Pager.PagerSession.SavePage | bot/paginate.go:156-169 | expire, record under the trimmed identity, evict; a blank identity is refused |
| Pager.PagerSession.PopPage | bot/paginate.go:174-189 | expire, then return and remove the entry of the identity |
| Pager.PoppedPagesAreTheRequesters | bot/paginate.go:156-235 | in every run a popped page is the latest unpopped save of that requester and no older than the TTL |
| Pager.TableIsExactWhileItFits | bot/paginate.go:156-235 | while the unexpired requesters of an unbounded map fit the cap, every answer of the table is the answer of that map |
| Pager.TableShape | bot/paginate.go:156-235 | after every run the order is a duplicate-free listing of exactly the stored keys, and a save leaves at most the cap |
| Pager.AgeOrderKeptExactlyWhen | bot/paginate.go:164-167 | recording keeps the order sorted by age if and only if every save behind the requester has the same instant, since a repeated save stays in place; a new or a last requester has none behind it |
| Pager.VictimIsTheFront | bot/paginate.go:214-223 | a full table makes room for a new requester by dropping the front of its order and nothing else |
| Pager.SaveIsPending | bot/paginate.go:156-169 | a save is always pending afterwards, even when it evicts |
| Pager.PopTakes | bot/paginate.go:174-189 | popping returns the unexpired entry of the requester and leaves none pending |
| Pager.OthersLeavePending | bot/paginate.go:156-189 | one operation of another requester leaves an unexpired page alone while the table has room |
| Pager.OthersLeaveItAlone | bot/paginate.go:156-189 | so does every sequence of saves and pops of other requesters that evicts nobody |
| Pager.RepeatedSaveIsEvictedFirst | bot/paginate.go:164-167 | counterexample: 256 requesters save, the first saves again and keeps its place, and one more requester pushes out that newest save and no other |
| Pager.PageLivesFiveMinutes | bot/paginate.go:156-210 | a saved page can be turned to for five minutes, and not after |
| Pager.PageLivesItsLifetime | bot/paginate.go:192-210 | the same for every lifetime of the table, and a lifetime of zero or less never ends |
| Discovery.CollectSearchWords | bot/discovery.go:105-117 | the loop keeps the trimmed fields that hold a letter or digit, lower-cased |
| Discovery.SearchWordsOfJoin | bot/discovery.go:105-117 | splitting a joined list of search words gives the list back |
| Discovery.SearchReadsBackExactlyWhen | bot/discovery.go:306-317 | the printed page command of a search asks again for the same query and page if and only if the white space of the query is plain spaces |
| Discovery.NewlineReadsDifferently | bot/discovery.go:105-117 | counterexample: a search text with a newline is one search word, and its printed command asks for something else |
| Discovery.ListReadsBack | bot/discovery.go:322-339 | the printed page command of a list asks again for the same region text and page |
| Discovery.CommandSplits | bot/paginate.go:272-285 | a printed page command splits into its command name, its sub-command and its arguments |
| Discovery.SearchArgumentReads | bot/discovery.go:306-317 | a search text of two or more fields asks for the page its last field numbers, if that is a positive number, of the fields before it, and otherwise for page 1 of all of them |
| Discovery.ListArgumentReads | bot/discovery.go:322-339 | the same for a list, where a number alone asks for that page of the whole list |
| Discovery.SubCommands | bot/discovery.go:294-303 | a first word search, near or list, in any case, is the sub-command and the rest its arguments; any other leaves the arguments whole |
| Discovery.SlashIsOptional | bot/commands.go:608-620 | a leading slash makes no difference to a command line |
| Discovery.WordAlone | bot/commands.go:608-620 | a word alone is a command without arguments |
| Discovery.SeparatorsSplit | bot/discovery.go:105-117 | a space, tab, comma, period or slash separates the search words before it from those after it |
| Discovery.OneSearchWord | bot/discovery.go:105-117 | a text without separators is one search word, in lower case, if and only if it holds a letter or a digit |
| Discovery.OtherCommandTexts | bot/paginate.go:272-285 | the printed command of a page without a sub-command, and of a nearness query, which has no page number |
| PageWalk.PaginateSlice | bot/paginate.go:84-100 | a page is served if and only if it exists, and then it has at least one row and at most a page full; a page number below one counts as one |
| PageWalk.PageSize | bot/paginate.go:309-315 | a page has one to four rows, whatever the reply budget, and four without one |
| PageWalk.PagesPartitionTheList | bot/paginate.go:84-100 | the pages in order hold every item exactly once, for every list and page size |
| PageWalk.FilterRegion | bot/discovery.go:222-246 | the loop keeps exactly the matching rows in order |
| PageWalk.RegionListHolds | bot/discovery.go:222-246 | a region list holds a row if and only if the catalog does and the region is that of the row, as often as the catalog does; a blank region holds the whole catalog |
| PageWalk.RegionListKeepsOrder | bot/discovery.go:222-246 | the rows of a region list stand in the order of the catalog |
| PageWalk.DiscoveryPageSize | bot/paginate.go:106-108 | a page has one to four rows; with its two other lines it fits a reply budget of three or more, and no larger page of up to four rows does |
| PageWalk.SearchIsAnswered | bot/buoy.go:314-342 | a search is answered with the usage when it has no search word, with no matches when nothing is found, with the missing page past the last one, and else with the page it asks for |
| PageWalk.LineIsDispatched | bot/commands.go:1253-1262 | more and next turn the page, buoy asks the catalog, in any case of the letters, and nothing else does |
| PageWalk.BareWordTurnsThePage | bot/paginate.go:419-439 | a bare more or next turns the page |
| PageWalk.CommandRendersItsPage | bot/buoy.go:314-342 | running the printed command of a settled query renders the page it names |
| PageWalk.PageAnswersAreSettled | bot/buoy.go:314-342 | every page answer names a query its printed command reproduces, when the search text has only spaces and tabs |
| PageWalk.MoreTurnsThePage | bot/paginate.go:419-439 | one "more" shows the pending page and leaves the one after it pending |
| PageWalk.MoreWithNothingPending | bot/paginate.go:419-439 | "more" with nothing pending, or with a page that has expired, says so |
| PageWalk.PageIsStillThere | bot/paginate.go:156-189 | between two page turns other requesters, evicting nobody, leave the pending page of the walk as it was |
| PageWalk.WalkShowsEveryPage | bot/paginate.go:333-439 | an answer followed only by "more" shows the later pages in order, from page 1 every row exactly once, and then says nothing is left, whatever other requesters save and pop in between without evicting |
| PageWalk.OnePageAnswerLeavesTheOldPage | bot/paginate.go:333-338 | after an answer that fits one page, "more" shows the page of an older query that is still pending |
| PageWalk.OldPageIsShown | bot/paginate.go:333-338 | counterexample: a search with two pages, then one that fits its page, then "more", shows the second page of the first |
| PageWalk.NothingLeftExactlyWhenNoneWasPending | bot/paginate.go:419-439 | "more" says nothing is left if and only if no page of the requester is pending and unexpired |
| HubSession.Hub.constructor | bot/hub.go:114-123 | a new session has no link, no attempts and no rooms |
| HubSession.Hub.ObserveJoin | bot/hub.go:178-192 | a system message of a room is recorded only while a link is up |
| HubSession.Hub.OnLinkEstablished | bot/hub.go:203-213 | a new link clears attempts, confirmations and greetings |
| HubSession.Hub.LinkLost | bot/hub.go:217-228 | a lost link clears the same and marks no link |
| HubSession.Hub.AllRoomsConfirmed | bot/hub.go:320-327 | the loop answers whether every configured room is confirmed |
| HubSession.Hub.TryJoin | bot/hub.go:301-315 | a round begins only under the attempt limit, after the retry pause, and while a room is unconfirmed |
| HubSession.Hub.Greet | bot/hub.go:427-429 | a room is marked greeted and nothing else changes |
| HubSession.RunInv | bot/hub.go:178-327 | one invariant over session, rounds, sends and marks is kept by every event of every interleaving |
| HubSession.JoinRoundsAreBounded | bot/hub.go:258-327 | in every interleaving a link-up period has at most 3 JOIN rounds, all in CONNECTED syncs, at least the retry pause apart, repeated only while a room is unconfirmed |
| HubSession.JoinGoesOutExactlyWhen | bot/hub.go:301-327 | in every interleaving a supervisor about to join begins a round if and only if the period has none yet, or has fewer than 3, a configured room is unconfirmed and the retry pause since every one of them is over |
| HubSession.StatusIsActedOn | bot/hub.go:258-290 | an idle supervisor that reads DISCONNECTED or FAILED drops link, confirmations and greetings, one that reads CONNECTED goes on to join, on a link it brings up itself if none is, and CONNECTING changes nothing |
| HubSession.SendsAreBounded | bot/hub.go:385-408 | at most 3 rounds reach the hub in a period, and one more only when it was begun before the link of the period came up |
| HubSession.GreetingsAreOncePerPeriod | bot/hub.go:412-439 | in every interleaving a room is marked greeted at most once per period, and a mark made in the period of its check finds the room confirmed |
| HubSession.CheckSawTheConfirmation | bot/hub.go:416-422 | in every interleaving a supervisor that stands before a mark made its check when the room was confirmed and not yet greeted |
| HubSession.EveryMarkWasChecked | bot/hub.go:412-439 | every mark of every run was made by a standing supervisor after a check that saw the confirmation of its room |
| HubSession.ConfirmedRoomsAreGreeted | bot/hub.go:412-439 | in every interleaving a supervisor that joins or turns to its greetings and runs on undisturbed ends with every confirmed room greeted |
| HubSession.NoConfirmationWithoutALink | bot/hub.go:178-192 | a confirmation that arrives while no link is up is never recorded |
| HubSession.MarkIsSoundExactlyWhen | bot/hub.go:412-439 | in every interleaving a mark finds its room confirmed if and only if no link came up since its check, or the room was confirmed again after the last link-up |
| HubSession.StandsSinceTheCheck | bot/hub.go:416-429 | from the check of a mark on, and not before it, the supervisor stands between check and mark |
| HubSession.MarksAreMadeStanding | bot/hub.go:427-429 | a mark is only made by a supervisor that stands between check and mark |
| HubSession.GreetingCanMissItsLink | bot/hub.go:412-439 | counterexample: a link that comes up between the check and the mark leaves the room greeted on a link that never was |
| Checkin.Drop | bot/checkin.go:206-215 | the loop removes every timer of one identity and keeps the rest in order |
| Checkin.Store.constructor | bot/checkin.go:98-104 | an empty store |
| Checkin.Store.SetTimer | bot/checkin.go:136-149 | the timer replaces the older one of its identity, is stamped, and the oldest leave beyond 100 |
| Checkin.Store.CancelTimer | bot/checkin.go:152-165 | the first timer of the identity is removed, and reported only when the state could be written |
| Checkin.Store.DueTimers | bot/checkin.go:183-203 | the timers at or past their deadline are returned and the others stay, both in order |
| Checkin.Store.List | bot/checkin.go:168-179 | the in-place insertion sort of a copy yields the timers by deadline |
| Checkin.SinkInto | bot/checkin.go:173-177 | the inner loop inserts one element into the sorted prefix of the array and leaves the rest alone |
| Checkin.ListingIsAStableSort | bot/checkin.go:168-179 | the listing is sorted by deadline, holds the same timers, and keeps equal deadlines in registration order |
| Checkin.RemoveKeepsOthers | bot/checkin.go:206-215 | removing an identity takes out its timers and keeps every timer of every other |
| Checkin.OfSenderIsTheSenders | bot/checkin.go:143-143 | what a registration replaces is exactly the timers of its own identity |
| Checkin.StoreIsByRegistration | bot/checkin.go:136-203 | after every run the store lists the timers by the last registration of their identity |
| Checkin.EveryTimerHasOneFate | bot/checkin.go:136-241 | in every run each registered timer is exactly one of pending, replaced by its own identity, cancelled, evicted and fired, one pending timer per identity, at most 100 in all, and no alarm is early |
| Checkin.AlarmFiresAtMostOnce | bot/checkin.go:183-241 | a timer fires at most once, and never after it was replaced, cancelled or evicted |
| Checkin.CheckLeavesNothingOverdue | bot/checkin.go:183-241 | after a check nothing pending is overdue and every timer that was has raised its alarm |
| Checkin.NewcomerEvictsOnlyTheEarliest | bot/checkin.go:136-149 | after every run a registration costs another identity its timer if and only if the store is full and the identity is new to it, and then it is the timer that was registered before all others |
| Checkin.SetIsPending | bot/checkin.go:136-149 | after a registration the pending timer of the identity is the new one and no other |
| Checkin.RegisteredIsPending | bot/checkin.go:136-149 | after a registration the store holds the timer as it was registered: sender, deadline and payload, and the time it was made |
| Checkin.AlarmIsTheRegistered | bot/checkin.go:183-241 | as long as nothing replaces, cancels, evicts or reaches a registered timer, a check raises an alarm for its identity if and only if the deadline has come, and the alarm carries exactly what was registered |
| Dispatch.Inbox.constructor | bot/announce.go:111-118 | an empty queue of a given depth |
| Dispatch.Inbox.Offer | bot/bot.go:347-353 | the non-blocking send accepts in order while there is room, and counts a drop otherwise |
| Dispatch.Inbox.Drain | bot/announce.go:208-219 | the receive loop handles everything queued, in order, and counts it |
| Dispatch.RunInv | bot/bot.go:338-375 | conservation and order are kept by every step of every interleaving |
| Dispatch.NothingIsLostOrReordered | bot/bot.go:338-375 | in every interleaving the offered messages are the accepted, the dropped and those in flight; handled messages followed by the queue are the accepted ones in order; the queue never exceeds its depth |
| Dispatch.QueuedAtStopIsHandled | bot/bot.go:359-375 | when the dispatcher returns, everything accepted before the stop has been handled |
| Dispatch.AllHandledExactlyWhen | bot/bot.go:338-375 | whether anything can be stranded is decided at the return: every continuation without new producers handles all that is accepted if and only if the queue is empty and nothing is in flight, and every continuation at all if and only if producers are turned away besides; a drained queue is empty |
| Dispatch.BotStrandsNothingExactlyWhen | bot/bot.go:338-375 | the dispatcher strands nothing in any continuation if and only if no producer stands between its stop check and its send as it returns |
| Dispatch.AnnouncesStrandNothingExactlyWhen | bot/announce.go:157-203 | the announce consumer can always strand a later announce, and handles all that were offered if and only if none is queued or in flight as it returns |
| Dispatch.LateSendIsStranded | bot/bot.go:339-353 | counterexample: a send that passed the stop check can land after the last drain and is never handled |
| Dispatch.ConsumerCatchesUp | bot/bot.go:359-375 | from every state a consumer that has not returned handles all that is queued, in order, in as many receives |
| Dispatch.BotCanFinish | bot/bot.go:359-375 | from every state of the running dispatcher a stop can be carried out so that all that was accepted is handled |
| Dispatch.DroppedExactlyWhen | bot/bot.go:347-353 | a send is appended to the queue if and only if it holds fewer than 64 messages, 256 for announces, and is dropped otherwise |
| Dispatch.StopTurnsAwayExactlyWhen | bot/bot.go:338-344 | a producer is turned away if and only if the dispatcher has been stopped; the announce cache turns none away |
| Dispatch.AnnounceIsLeftQueued | bot/announce.go:157-203 | counterexample: the announce consumer returns without emptying its queue |
| MoonSearch.RefineCrossing | bot/moon.go:336-350 | the bisection loop returns the instant of the recursive bisection |
| MoonSearch.NarrowClosesIn | bot/moon.go:337-348 | a bracket no wider than 2^n whose ends differ on the test closes in n halvings to two neighbouring instants on its two sides |
| MoonSearch.RefinedIsTheCrossing | bot/moon.go:336-350 | for every value function and bracket no wider than 2^60 ns whose ends differ, the answer is in the bracket, on the side of the low end, and one nanosecond later is on the other |
| MoonSearch.RefinedWithoutCrossing | bot/moon.go:336-350 | without a change of side the answer is the end of the bracket |
| MoonSearch.NextElongation | bot/moon.go:415-431 | the scan refines the first rising pair of samples, and reports none only when no pair rises |
| MoonSearch.ScanIsFortyDays | bot/moon.go:415-431 | the scan takes 160 steps of six hours |
| MoonSearch.ZeroSampleIsAnsweredLate | bot/moon.go:420-429 | counterexample: a distance that is zero at the first sample and positive after it is answered a whole scan step late |
| MoonSearch.PhaseIsFoundExactlyWhen | bot/moon.go:420-429 | for a rising pair the answer is the last instant below zero before one that is not, if and only if the first sample is below zero |
| Morse.CodesAreUnique | bot/morse.go:38-53 | no two characters share a code |
| Morse.TablesAgree | bot/morse.go:55-63 | the reverse table gives a character for a code if and only if the alphabet gives the code for the character |
| Morse.EncodeMorse | bot/morse.go:67-85 | the loops return the translation, or name the first character that has no code |
| Morse.DecodeMorse | bot/morse.go:90-113 | the loops return the text, or name the first unknown code |
| Morse.AcceptedExactlyWhen | bot/morse.go:67-85 | a text is accepted if and only if it has a word and every upper-cased character has a code |
| Morse.DecodeUndoesEncode | bot/morse.go:67-113 | every accepted text decodes to its upper-cased words joined by single spaces, through the slash split, the space split and the three-space rewriting |
| Morse.SpacedWordsComeBack | bot/morse.go:90-113 | the encoded words of every accepted text decode as well with three spaces between them in place of the slash |
| Morse.WordsFailAt | bot/morse.go:67-85 | a refused text is refused for the first character that has no code |
| Morse.DecodedExactlyWhen | bot/morse.go:90-113 | a code text is accepted if and only if the table carries every code between the breaks and there is one |
| Morse.CodesFailAt | bot/morse.go:90-113 | a refused word of codes is refused for its first unknown code |
| Morse.DigitCodes | bot/morse.go:45-46 | the code of a digit has five marks: up to five it starts with that many dots, and above with as many dashes as it is over five |
| NmeaFrame.ComputeXor | bot/gps.go:312-318 | the accumulating loop computes the exclusive-or of the bytes |
| NmeaFrame.XorSeesOneByte | bot/gps.go:312-318 | changing one byte to another changes the checksum |
| NmeaFrame.XorIsParity | bot/gps.go:312-318 | every bit of the checksum says whether an odd number of bytes have it set |
| NmeaFrame.FramedBody | bot/gps.go:278-308 | a framed body is read exactly when the printed checksum is its own, whatever the body holds |
| NmeaFrame.SentenceReadsBack | bot/nmea-emit.go:180-184 | every sentence of at least two comma-free fields with a tag of at least five characters parses back to exactly those fields, its talker and its kind |
| NmeaFrame.OneWrongByteIsRefused | bot/gps.go:286-294 | changing any one byte of the body to another byte makes the parser report a checksum error |
| NmeaFrame.AcceptedIsWrittenAgain | bot/gps.go:278-308 | the fields of any accepted line, written out again, are read as the same sentence |
| NmeaFrame.HexDigits | bot/nmea-emit.go:180-184 | checksum digits are written in capitals and read in either case |
| NmeaFrame.FrameReads | bot/gps.go:278-308 | a line with either start character and a star before two hexadecimal digits is accepted if and only if the digits are the checksum of the body and it has at least two fields, the first of five characters or more |
| NmeaNumbers.NumberReadsBack | bot/nmea-emit.go:258-263 | every written number reads back exactly, sign and places included |
| NmeaNumbers.NumberReads | bot/gps.go:483-493 | digits around a point, with a sign or without, are read as the number they spell |
| NmeaPosition.EmitCoordinate | bot/nmea-emit.go:225-245 | the steps of rounding and carrying yield the printed field and marker, both empty outside the limit |
| NmeaPosition.Scaled | bot/nmea-emit.go:234-242 | the printed number never has 60 minutes, and stands for an angle within half of 0.0001 minute |
| NmeaPosition.CoordinateReadsBack | bot/gps.go:458-479 | every coordinate within its limit is written as a field the parser accepts, and what is read is within the limit and half of 0.0001 minute |
| NmeaPosition.PositionReadsBack | bot/gps.go:428-451 | a written position is always accepted, with its hemispheres, within half a step on both axes |
| NmeaPosition.OutOfRangeIsNotRead | bot/nmea-emit.go:226-228 | a coordinate outside its limit leaves no position to read |
| NmeaPosition.WrittenAgain | bot/nmea-emit.go:229-244 | writing what was read prints the same digits, and the same marker if and only if the angle is not a negative one that rounds to zero |
| NmeaPosition.PositionReads | bot/gps.go:428-451 | a position is read if and only if both angles are readable and within 90 and 180 degrees and the markers are N or S and E or W in either case; south and west are negative, north and east positive |
| NmeaPosition.CoordinateMarkers | bot/nmea-emit.go:225-245 | a latitude is marked S if and only if it is negative and N otherwise, a longitude W and E, in nine and ten characters, all empty beyond 90 and 180 degrees |
| NmeaPosition.DegreesRead | bot/gps.go:458-479 | two or three digits of degrees and two of minutes with any fraction are the degrees plus a sixtieth of the minutes, and refused from 60 minutes on |
| NmeaPosition.OnlyDegreeTextsRead | bot/gps.go:458-479 | nothing but such a text, between white space, is read as an angle |
| NmeaTime.TimeReadsBack | bot/gps.go:497-517 | a written time reads back on any day, cut to the millisecond |
| NmeaTime.DateText | bot/gps.go:522-537 | a written date of any year keeps its month and day and comes back around 2000, leap days included, except that a negative year of two digits is not read |
| NmeaTime.DateReadsBackExactlyWhen | bot/nmea-emit.go:208-214 | a written date reads back as itself if and only if its year is 2000 to 2099 |
| NmeaTime.EmptyFieldsAreAbsent | bot/nmea-emit.go:197-214 | an unknown time is written as fields that read as absent |
| NmeaTime.MonthLength | bot/gps.go:522-537 | every month is as long as the count of days of the Gregorian calendar says |
| NmeaTime.TimeReads | bot/gps.go:497-517 | a time of two digits each and milliseconds is read if and only if hour, minute and second are at most 23, 59 and 60, and is then that long after the midnight of its day |
| NmeaTime.ClockRounds | bot/gps.go:502-507 | seconds are rounded to the nanosecond, and a full second is carried |
| NmeaTime.DateReads | bot/gps.go:522-537 | six digits are read if and only if the first two are 1 to 31 and the next two 1 to 12, as that day of the month counted on into the next month, of the years 2000 to 2099 |
| NmeaFix.EmitRmc | bot/nmea-emit.go:81-101 | the field list of a void sentence, filled in place when the fix is valid |
| NmeaFix.EmitGga | bot/nmea-emit.go:111-140 | each measured field is written only when the fix carries it |
| NmeaFix.Reader.constructor | bot/gps.go:172-174 | a reader that has heard nothing |
| NmeaFix.Reader.MergeRmc | bot/gps.go:322-344 | the merge of a recommended-minimum sentence, field by field, absent fields keeping what was known |
| NmeaFix.Reader.MergeGga | bot/gps.go:348-378 | the merge of a fix-quality sentence, dated by the last dated sentence |
| NmeaFix.Reader.MergeGst | bot/gps.go:388-396 | the time of a position-error sentence is merged |
| NmeaFix.Reader.ConsumeLine | bot/gps.go:260-273 | a line is dropped or merged by its kind |
| NmeaRoundTrip.RmcReadsBack | bot/nmea-emit.go:81-101 | an emitted recommended-minimum sentence sets day, time, position, speed and course of any reader |
| NmeaRoundTrip.GgaReadsBack | bot/nmea-emit.go:111-140 | an emitted fix-quality sentence borrows the day of the last dated sentence and sets what the fix carries |
| NmeaRoundTrip.FixReadsBack | bot/nmea-emit.go:64-140 | a valid fix in range, of quality above 0, with nonnegative satellites and HDOP and a year 2000 to 2099, emitted as RMC then GGA and read by a fresh reader, comes back: validity, quality, satellites, speed, course and altitude flag equal, altitude, HDOP and geoid equal where they are written and zero where not, the day kept, the time cut to the millisecond, the position within half a step |
| NmeaRoundTrip.VoidFixStaysVoid | bot/nmea-emit.go:73-76 | the sentences of a fix that is not valid never make a reader valid and never move its position |
| NmeaRoundTrip.VoidSentences | bot/nmea-emit.go:73-76 | a fix without position and time is written as empty fields, with status V and quality 0 |
| NmeaRoundTrip.QualityReads | bot/gps.go:360-361 | a quality field of a sign and digits counts as its number, or as the nearest 64-bit integer |
| NmeaRoundTrip.UnreadableQuality | bot/gps.go:360-361 | a quality field that is no number counts as zero |
| NmeaRoundTrip.RunMerges | bot/gps.go:260-420 | after every run each field of the fix is the last readable value that a sentence of the right kind carried, the time on the last date heard up to its line or else on the day the line was heard, and zero or absent when there was none |
| NmeaRoundTrip.PositionIsAlwaysInRange | bot/gps.go:422-451 | after every run of lines the position of the reader is in range |
| NmeaRoundTrip.StatusAloneDecides | bot/gps.go:343-377 | so after every run an RMC sentence makes the fix valid if and only if its status is A, and a GGA sentence if and only if its quality is above zero |
| NmeaRoundTrip.RunDecides | bot/gps.go:322-378 | after every run validity is what the last position sentence claims and the position is the last readable one, or (0, 0) |
| NmeaRoundTrip.ValidRestsOnAPositionExactlyWhen | bot/gps.go:322-424 | after every run a valid fix rests on a position that was heard if and only if some line carried a readable one or the last position sentence claims no fix |
| NmeaRoundTrip.QualityWithoutCoordinates | bot/gps.go:377-378 | counterexample: a fix-quality sentence of quality 1 without coordinates gives a fresh reader a valid fix at (0, 0) |
| NmeaRoundTrip.ActiveWithoutCoordinates | bot/gps.go:343-344 | counterexample: an active sentence without coordinates gives a fresh reader a valid fix at (0, 0) |
| Caches.AnswerCache.constructor | bot/provider.go:430-436 | an empty cache with its lifetime and capacity |
| Caches.AnswerCache.Find | bot/provider.go:439-450 | a stored answer is returned while it has not expired |
| Caches.AnswerCache.Store | bot/provider.go:454-471 | a known key is replaced in place, a new one evicts from the front and goes to the back, and a capacity of zero stores nothing |
| Caches.EvictedIs | bot/flight.go:611-615 | a full table loses the oldest key and no other |
| Caches.PutIs | bot/flight.go:600-618 | a put keeps the listing valid, replaces in place or keeps the newest keys, and touches no other answer |
| Caches.CacheHoldsTheNewestArrivals | bot/flight.go:584-618 | after every run of puts the cache holds exactly the newest arrivals up to its capacity, defined without a table, each with the last answer put for it |
| Caches.HitExactlyWhen | bot/provider.go:439-471 | a lookup hits if and only if the key is among the newest arrivals and its last answer has not expired, and then gives that answer |
| Caches.CacheStaysWithin | bot/provider.go:454-471 | after every run the cache is within its capacity |
| Announces.AnnounceTable.constructor | bot/announce.go:111-118 | an empty table |
| Announces.AnnounceTable.StoreOne | bot/announce.go:267-279 | a known destination is replaced in place, a new one evicts from the front of a full table and goes to the back |
| Announces.AnnounceTable.PruneOld | bot/announce.go:282-298 | the loop drops what is older than a day from map and order together |
| Announces.AnnounceTable.Lookup | bot/announce.go:322-355 | the answer is a stored announce that matches the token, none that matches is newer, and there is none if and only if nothing matches, whatever the order of the visit |
| Announces.TableIsSound | bot/announce.go:267-298 | after every run of stores and prunes the order is a duplicate-free listing of at most 4096 destinations, each with its latest unpruned announce |
| Announces.TableIsExactWhileItFits | bot/announce.go:267-298 | while an unbounded table would fit, the table holds exactly the same announces |
| Announces.PruneKeepsExactly | bot/announce.go:282-298 | after every run a prune keeps an announce, as it was, if and only if it is less than 24 hours old |
| Announces.TableIsBounded | bot/announce.go:267-279 | after every run the table stores at most 4096 destinations and lists exactly those |
| Announces.FoundExactlyWhen | bot/announce.go:322-355 | a token of 1 to 64 characters finds an announce if and only if in lower case it is part of the lower-cased name, or is two or more hexadecimal digits the destination or identity hash starts with |
| Announces.OrderIsByArrival | bot/announce.go:267-298 | after every run of stores and prunes the order lists the destinations by the start of their present stay |
| Announces.FullTableForgetsTheFirst | bot/announce.go:270-276 | a full table forgets nothing for a destination it holds, and for a new one the destination whose present stay is the longest |

## Left out

- Pager.PagerSession.SavePage: the two clock readings of a save (one for expiry, one for the stamp) are one instant.
- LxmfBudget.PruneTimes: returns a new sequence; the reuse of the storage of its argument is not modelled.
- Discovery.CollectSearchWords: letters and digits are the ASCII ones.
- Checkin.Drop: returns a new sequence; the reuse of the storage of its argument is not modelled.
- Checkin.Store.CancelTimer: the state file is only a flag that says whether it could be written.
- NmeaFix.Reader.MergeGst: only the time is merged; the accuracy is a square root of binary floating point.
- NmeaNumbers.NumberReadsBack: a number is held as its shortest decimal, so exponents, hexadecimal notation, infinities and NaN are not modelled.
- NmeaPosition.EmitCoordinate: works on exact reals, so the rounding of binary floating point and the NaN test are not modelled.
- Dispatch.Inbox.Offer: the send alone; the stop check before it is the Arrive step of the interleaving model.
- KjvMatch.WildcardTermFinds: patterns of ASCII characters; beyond them the regexp package folds case by Unicode.
- Morse.EncodeMorse: upper-casing is ASCII only.
- Morse.AcceptedExactlyWhen: a character outside ASCII whose upper case has a code counts as unsupported.
- Announces.AnnounceTable.Lookup: name matching is ASCII case folding, and token lengths count characters.
- The scan loop of the GPS reader with its line limit, `SetFix` and the static provider.
- The GST and heading sentences of the emitters, and everything of the compass.
- White space beyond the characters of Go's `unicode.IsSpace`, and trimming of multi-byte white space from an NMEA line.
- Non-ASCII case mapping in every text component.
- The regexp package itself: patterns compile and match through a parameter.
- The ranking of `searchCatalog`, the near answers, and the wording of headers, rows and footers.
- Catalog commands other than `buoy`: they differ in name and catalog only.
- The watch table an announce is fanned out to, `matchingAnnounces`, and the cleaning of announced names.
- The status lines of the hub session (`noteStatus`), its dialer, and the text of greetings.
- Delivery of overdue notices, command parsing and formatting of the check-in command.
- The astronomy behind the moon search, and the magnetic model.
- HTTP, sockets, serial ports, files, JSON state, logging, configuration, and the offline portal.
- The `rns`, `rrc`, `lxmf`, `geo`, `qr` and `toml` packages.
- Static data and text cards, METAR decoding and unit conversion: one-branch facts.
