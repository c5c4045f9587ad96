# Elastic Explorer: a verified model

Elastic Explorer is a small server that shows an Elasticsearch cluster in the browser. It keeps
endpoints, passwords and a console history in SQLite, its files in one application directory, and
does its filtering, sorting, paging and formatting itself. This project models those parts in
Dafny and proves what they promise, or exactly when they keep it.

`dafny verify dfyconfig.toml` checks everything.

## What is modelled

- **ShardPatterns** – the wildcard filter of the shards page. The greedy scan with its cursor is
  proved against a declarative description of what it accepts, and that against the backtracking
  meaning of `*`: a scan never misses a match, and its verdict differs from the meaning exactly
  when a star-free pattern is a proper prefix of the name, or when the tail it compares starts
  before the cursor. **ShardExactness** – for which patterns it is exact on every name, decided on
  the pattern. **ShardGroups** – filtering, grouping by node and counting.
- **LegacyMerge**, **AppFiles** – the recursive merge of the legacy directory and the rest of
  start-up. Every rename, copy and removal the environment may refuse is a free choice. The
  overlay of what is left on what has arrived never changes, so the outcome does not depend on
  which renames worked and nothing is lost by a move that stops halfway. **Restarts** – a start
  may succeed with leftovers in the legacy directory, which the next one merges again: exactly
  when the second start leaves directory, key and database alone. **KeyPairs** – exactly when the
  database and the key in use after a merge belong together.
- **Endpoints** – the schema guard, the key, and create, update, delete, restart and failed start,
  on the directories and the database file: the password read is the last non-blank one supplied,
  over every run, if and only if the first start left no legacy database behind. Encryption,
  base64, UTF-8 and the database library are arbitrary functions of which only "reading undoes
  writing" is assumed (and that ids lie below the AUTOINCREMENT counter).
- **HistoryTable**, **HistoryRecorded**, **HistoryLru**, **HistoryProtocol**, **HistoryBounds** – the
  console history. The statements are relations on a table, with the choices SQL leaves open
  (`LIMIT 1`, ties in `created_at`). One request at a time, with endpoints coming and going, they
  refine a least-recently-used list; interleaved statement by statement, with failing statements
  and vanishing clients, they keep weaker bounds, each proved to be attained, together with the
  exact condition for the stronger one. Which executed requests are recorded at all is decided
  exactly.
- **Sizes**, **Decimals**, **FormatNumber** – printing and parsing sizes and numbers, down to the
  characters. **Escapes** – the two escapers, and what becomes of a request body that is escaped
  for a script but stands in an attribute. **Strings**, **IndexPatterns**, **PatternLists** –
  normalising index patterns, which patterns come out of what was typed, and the cookie that
  remembers them.
- **StableSort**, **Listing** – the index list: aliases, hiding, stable sorting, pages; the page
  arithmetic of the search.
- **Colors** – HSL to RGB against section 4.2.4 of CSS Color Module Level 3.
- **Trends** – the four sample series of the node page, whatever the clock does, and the window
  they hold as long as it does not go back.

Proofs that do not need the body of a function hide it (`hide`), which keeps them quick and
independent of the solver's choices.

## Where the code and its intention part company

- `logs` accepts `logs-2024`, and `ab*b` accepts `ab` (`ShardPatterns.ScanIsNotGlob`); exactly which
  patterns are exact on every name: `ShardExactness.AlwaysExact`.
- Two requests that both look before either inserts are both stored
  (`HistoryBounds.NoDuplicatesIffSequential`).
- A method is compared in upper case when it is executed but stored as typed, so `get` runs and is
  never recorded, because the CHECK constraint refuses it (src/handlers/console.rs:242, 314;
  `HistoryRecorded.LowerCaseGetIsLost`). A request is also lost to its own cleanup when 200 rows are
  newer, as after the clock has been set back (`HistoryRecorded.ClockSetBack`), and may be lost when 200
  are as new. Exactly when an executed request on a live endpoint is recorded, whatever the database
  chooses: its method was typed in upper case and fewer than 200 other rows are at least as new
  (`HistoryRecorded.ExecutedIsRecorded`, on any table; `HistoryRecorded.RecordedExactly`).
- Removals in the legacy directory may fail without the start failing (src/config/mod.rs:101, 105,
  120), and the next start merges what is left once more: a `data/elastic-explorer.db` comes back
  (`Restarts.LeftoverDataReturns`), and an `elastic-explorer.db` replaces the database written since
  (`Restarts.LeftoverDbReverts`). Exactly when this happens: `Restarts.SecondStartAtOnce`,
  `Restarts.SecondStartAfterUse`, and for passwords `Endpoints.PasswordsLastExactly`.
- A key file cut short by a failed write makes every later start fail (`Endpoints.StuckForever`).
- A legacy `db.key` replaces the key of a directory whose own database stays in use
  (`KeyPairs.LegacyKeyReplacesKey`), and a legacy database without a key meets the key that was
  there (`KeyPairs.LegacyDbMeetsForeignKey`); exactly when this happens:
  `KeyPairs.PairFromOneDirectory`.
- The escaping of request bodies is meant for a script in an attribute (src/handlers/console.rs:72-73),
  but the history table writes the body into a double-quoted attribute as it is (195-206): a body
  with a double quote, which every JSON object with a key has, ends the attribute, and a character
  reference is decoded before the script is read (`Escapes.NumericQuoteBreaks`: `&#39;`). Exactly
  which bodies survive, whatever references the browser knows: `Escapes.BodySurvives`.
- When the clock has been set back, old samples stay in the trend series behind one from the future
  (`Trends.ClockSetBack`); exactly when trimming leaves the window, read off the list it is given:
  `Trends.TrimmedIsWindow`.
- Sizes from 1024^5 bytes on are printed in `PB`, which the parser does not know
  (`Sizes.RoundTripError`).
- `or` inside a name separates it: `orders` is not kept (`IndexPatterns.NameKept`). ` Or ` and ` oR `
  are meant as separators too, but take part of a neighbouring name: `x, Or b` becomes `x,b`, while
  ` Or b` alone becomes `Or b` (`PatternLists.LooseIsCut`, `PatternLists.Spellings`).
- The documentation places the data below `~/.elastic-explorer` (README.md:66-78); the code treats that
  directory as the legacy one and uses the platform's configuration directory (src/config/mod.rs:8-14,
  79-81), which is what the model does.
- The cap of 500 pages is meant to stay within 10,000 results, but does so only for pages of at
  most 20 (`Listing.SearchWindow`).

## Model

| member | source | states |
|---|---|---|
| ShardPatterns.MatchesPattern | src/handlers/shards.rs:82-123 | The scan accepts exactly: without a star the names the pattern is a prefix of; with one, the names that glob up to the last star and end with the tail |
| ShardPatterns.GlobConcat | src/handlers/shards.rs:83-84 | The meaning of `*` is compositional: a concatenated pattern matches exactly the concatenations |
| ShardPatterns.LeastEndStep | src/handlers/shards.rs:114-116 | The cursor is always the end of the shortest match of the parts so far |
| ShardPatterns.FloatingOccurrence | src/handlers/shards.rs:114-119 | Exchange argument: any placement of the next part lies at or after the cursor |
| ShardPatterns.GlobByCursor | src/handlers/shards.rs:109-112 | Holding the tail to the text after the cursor would give exactly the glob meaning |
| ShardPatterns.ScanIsGlobExactly | src/handlers/shards.rs:100-112 | Every glob match is accepted; acceptance and meaning agree if and only if the branch conditions that ignore the end of the name or the cursor do not bite |
| ShardPatterns.TrailingStarExact | src/handlers/shards.rs:109-110 | Patterns ending in a star are matched exactly |
| ShardPatterns.ScanIsNotGlob | src/handlers/shards.rs:100-112 | Two concrete patterns that are matched too generously |
| ShardExactness.GlobNeeds | src/handlers/shards.rs:83-84 | No name shorter than the literal text of a pattern matches it |
| ShardExactness.EarlyExactly | src/handlers/shards.rs:109-119 | Some name has its tail before the cursor if and only if an end of the last piece starts the tail, or a piece behind a star occurs in it |
| ShardExactness.TailAlwaysExact | src/handlers/shards.rs:100-119 | A pattern with any number of stars is matched exactly for every name if and only if its tail fits the last piece before the last star |
| ShardExactness.SingleStarExact | src/handlers/shards.rs:100-112 | `a*b` is matched exactly for every name if and only if no end of `a` is a start of `b` |
| ShardExactness.AlwaysExact | src/handlers/shards.rs:82-123 | The same for every pattern: without a star none is |
| ShardGroups.EmptyAndStarAcceptAll | src/handlers/shards.rs:213-218 | Skipping the match for the empty pattern and `*` changes nothing |
| ShardGroups.FilterShards | src/handlers/shards.rs:207-233 | Exactly the rows whose index name is accepted, in order |
| ShardGroups.FilteredOne | src/handlers/shards.rs:211-231 | An accepted item gives one row with its eight fields, and for a missing one the empty text, `0`, `0b` or `UNASSIGNED`; any other gives none |
| ShardGroups.FilteredKeepsOrder | src/handlers/shards.rs:211-232 | The rows of two lists of items are those of the first, then those of the second |
| ShardGroups.GroupByNode | src/handlers/shards.rs:235-241 | One non-empty group per node that has shards, and no other |
| ShardGroups.GroupKeepsOrder | src/handlers/shards.rs:237-241 | A group keeps the original order |
| ShardGroups.GroupMembers | src/handlers/shards.rs:237-241 | A group holds all shards of its node and no others |
| ShardGroups.GroupsPartition | src/handlers/shards.rs:235-255 | In any order of the map the groups are a permutation of the shards and each statistic is the sum over the groups |
| ShardGroups.LoadShards | src/handlers/shards.rs:207-262 | List, groups and all six statistics of one response, each the number of shards with the role or state it names |
| LegacyMerge.MoveLegacyDir | src/config/mod.rs:83-112 | Conservation of the overlay in every outcome, what is left being part of what was there; success builds the overlay and empties the source; without a fault success is equivalent to compatibility |
| LegacyMerge.MoveEntries | src/config/mod.rs:89-109 | The loop over the entries, in any order |
| LegacyMerge.MoveEntry | src/config/mod.rs:95-108 | The same for one entry, whether renamed, copied or copied in part |
| LegacyMerge.OverlayFiles | src/config/mod.rs:83-112 | Path by path the overlay holds the source's file, else the target's |
| LegacyMerge.NothingLost | src/config/mod.rs:83-112 | After any move, even a failed one, every source file is in the source or in the target |
| AppFiles.KeyRoundTrip | src/config/mod.rs:46-60 | A key written in hexadecimal is read back unchanged |
| AppFiles.EditedKeyRead | src/config/mod.rs:46-55 | A key file with spaces or line breaks around the 64 digits, or with capitals, holds the same key |
| AppFiles.CutKeyRefused | src/config/mod.rs:46-63 | A key file cut short, the empty one included, is refused; only the whole text is read |
| AppFiles.Disk.LoadOrCreateKey | src/config/mod.rs:42-77 | An existing key is loaded and the file left alone; only a missing one is created; a failure leaves at most part of its text |
| AppFiles.Disk.InitDirectories | src/config/mod.rs:115-153 | On success the application directory is the settled overlay, its key is the one loaded and what is left of the legacy directory is in the overlay already; without a refused removal or reading nothing is left; a failure keeps key and database; without a fault success is equivalent to the trees being startable |
| AppFiles.Disk.Settle | src/config/mod.rs:135-150 | The key and the move of the database one level up, in every outcome |
| AppFiles.SettledDb | src/config/mod.rs:22-33 | After a start the database is at the root and is the one that was resolved before |
| AppFiles.DbAfterMerge | src/config/mod.rs:115-144 | Which of the four possible databases is in use after merging; a legacy one without a rival always is |
| AppFiles.KeyAfterMerge | src/config/mod.rs:115-135 | The key in use after merging: the legacy one, else the present one, else the one drawn, now and at later starts |
| Restarts.SecondStart | src/config/mod.rs:115-153 | For any leftovers and any change of the database: when a second start keeps the key, the database and the whole directory |
| Restarts.SecondStartAtOnce | src/config/mod.rs:115-153 | At once a second start keeps key and database, and leaves the directory alone if and only if no leftover database returns to the data directory and no empty one was left |
| Restarts.SecondStartAfterUse | src/config/mod.rs:115-153 | After use it still finds the database written if and only if no other database file is left at the root of the legacy directory |
| Restarts.LeftoverDataReturns | src/config/mod.rs:95-106 | A leftover that makes the second directory differ |
| Restarts.LeftoverDbReverts | src/config/mod.rs:95-106 | A leftover that replaces what has been written |
| KeyPairs.PairFromOneDirectory | src/config/mod.rs:95-144 | The database and the key in use come from one directory if and only if a condition on the four database paths and the two key files holds |
| KeyPairs.PairKept | src/config/mod.rs:95-144 | Under that condition both are, content for content, what that directory alone would have given |
| KeyPairs.LegacyKeyReplacesKey | src/config/mod.rs:95-135 | A case in which the key is replaced and the database is not |
| KeyPairs.LegacyDbMeetsForeignKey | src/config/mod.rs:95-135 | A case in which the database is replaced and the key is not |
| Endpoints.Crypto.DecryptEncrypt | src/db/mod.rs:226-259 | The nonce-and-ciphertext framing loses nothing |
| Endpoints.InspectColumns | src/db/mod.rs:66-80 | The column loop decides whether a legacy column and the encrypted one are there |
| Endpoints.RunMigrations | src/db/mod.rs:48-92 | Row by row, name, address, checkbox and user name stay; the password is cleared, the schema the current one and the counter the largest id exactly when migration 004 is due, else nothing changes; it fails exactly when one of the seven copied columns is missing |
| Endpoints.Application.Start | src/main.rs:54-59 | A start that succeeds has merged and settled the directories, migrated the database the path resolves to and uses the key found or made at the beginning; one that fails, wherever, loses neither key nor database |
| Endpoints.Application.OpenDatabase | src/db/mod.rs:22-45 | The database is the one at the path, migrated; the key is loaded once more |
| Endpoints.Application.CreateEndpoint | src/db/mod.rs:120-152 | A new row under a new id that shows what the form said, with the password sealed if one is given |
| Endpoints.Application.UpdateEndpoint | src/db/mod.rs:168-201 | The row shows what the form says; a blank password keeps the old one; an unknown id changes nothing |
| Endpoints.Application.DeleteEndpoint | src/db/mod.rs:155-165 | The row and nothing else goes |
| Endpoints.FirstStart | src/db/mod.rs:48-92 | What a start keeps of an older installation: every endpoint field by field, and its password as far as the key opens it, unless migration 004 is due |
| Endpoints.StartIsReady | src/main.rs:54-59 | A start that leaves no legacy database behind makes the installation ready, whatever else it leaves |
| Endpoints.LaterStart | src/db/mod.rs:65-88 | A later start of a ready installation finds the same key and tables, whatever leftovers it merges: migration 004 does not clear again |
| Endpoints.PasswordStep | src/db/mod.rs:120-224 | The effect of one event, restarts and failed starts included, on everything that can be read back |
| Endpoints.PasswordIsLastSupplied | src/handlers/endpoints.rs:178-269 | Over every run of a ready installation the password read for an endpoint is the last non-blank one supplied |
| Endpoints.RestartReverts | src/config/mod.rs:95-106 | A legacy database left behind is the one in use after a restart, as it was at first |
| Endpoints.PasswordsLastExactly | src/main.rs:54-59 | From the first start of any installation on, every run reads back the last passwords supplied if and only if that start left no database file at the root of the legacy directory |
| Endpoints.CutKeyIsStuck | src/config/mod.rs:62-73 | A new key file cut short leaves an installation whose merged key cannot be read, whatever is left of the legacy directory |
| Endpoints.StuckForever | src/main.rs:54-59 | From there no run contains a start that succeeds |
| HistoryTable.OrderByCreatedDesc | src/db/mod.rs:361-361 | Some order by time, ties in any order |
| HistoryTable.ConsoleHistory.SaveConsoleHistory | src/db/mod.rs:281-330 | Refresh a matching row or insert one; the error case changes nothing |
| HistoryTable.ConsoleHistory.CleanupConsoleHistory | src/db/mod.rs:357-370 | Keeps a newest part of the rows |
| HistoryTable.ConsoleHistory.GetConsoleHistory | src/db/mod.rs:333-354 | The newest rows of the endpoint asked, at most the limit |
| HistoryTable.ConsoleHistory.RecordExecution | src/handlers/console.rs:311-328 | Saving and cleaning up; every row afterwards is as it was or holds endpoint, method, path, body (none for an empty one), response and time of the request typed, and one does if the schema accepts it and fewer than 200 rows are at least as new |
| HistoryTable.ConsoleHistory.ExecuteRequest | src/handlers/console.rs:242-328 | An unknown method is refused and leaves the table alone; any other is recorded as it was typed |
| HistoryTable.RecordedIsKept | src/handlers/console.rs:312-329 | For any choice of the database, what an execution writes and leaves, in terms of what was typed |
| HistoryTable.SameRequest | src/db/mod.rs:283-293 | Two requests share a row if and only if endpoint, method, path and body agree |
| HistoryTable.SupportedInAnyCase | src/handlers/console.rs:242-306 | A method is carried out if and only if it is one of five, letter by letter in either case, a long s counting as `s` |
| HistoryTable.StorableVerb | src/handlers/console.rs:242-314 | A supported method can be stored if and only if it was typed in upper case |
| HistoryRecorded.KeptExactly | src/db/mod.rs:357-370 | A cleanup keeps a row in every outcome if and only if fewer others than the limit are at least as new, and drops it in every outcome if and only if that many are newer |
| HistoryRecorded.RowSurvivesExactly | src/handlers/console.rs:311-328 | On any table: the row an execution writes survives its own cleanup, in every outcome, if and only if the schema accepts the request and, whichever row is picked, fewer than 200 others are at least as new |
| HistoryRecorded.RecordedExactly | src/handlers/console.rs:311-328 | With one row per request: when a request is found afterwards in every outcome, and when it is gone in every outcome |
| HistoryRecorded.RecordedIffInsertable | src/handlers/console.rs:311-328 | When all rows are older, a request is in the history afterwards if and only if the schema accepts it |
| HistoryRecorded.ExecutedIsRecorded | src/handlers/console.rs:242-328 | On any table, an executed request on a live endpoint is recorded in every outcome if and only if its method was typed in upper case and fewer than 200 other rows are at least as new |
| HistoryRecorded.LowerCaseGetIsLost | src/handlers/console.rs:242-314 | `get` is carried out and leaves no row, on any table |
| HistoryRecorded.ClockSetBack | src/db/mod.rs:357-370 | With 200 newer rows a request typed in upper case is stored and lost again in every outcome |
| HistoryTable.ConsoleHistory.EndpointDeleted | migrations/003_console_history.sql:13-13 | Deleting an endpoint takes its history with it |
| HistoryTable.CleanedKeepsNewest | src/db/mod.rs:357-370 | Exactly the smaller of limit and table size is kept, unchanged, and no kept row is older than a dropped one |
| HistoryLru.SavedRepresents | src/db/mod.rs:281-330 | A hit moves to the front, a miss is pushed |
| HistoryLru.CleanedRepresents | src/db/mod.rs:357-370 | A cleanup drops the oldest entries |
| HistoryLru.ExecutionStep | src/handlers/console.rs:321-328 | One execution is one touch of a list of capacity 200 |
| HistoryLru.CascadeRepresents | migrations/003_console_history.sql:13-13 | Deleting an endpoint filters the list |
| HistoryLru.RunRefinesLru | src/handlers/console.rs:321-328 | Under strictly increasing times the rows, newest first, are the LRU list after every execution, creation and deletion of every run |
| HistoryLru.ListedIsPrefix | src/db/mod.rs:333-354 | Reading returns the first entries of the list for the endpoint asked |
| HistoryProtocol.UndisturbedExecution | src/db/mod.rs:281-330 | Statement by statement, an undisturbed request does what the sequential operation does |
| HistoryProtocol.RunKeepsInv | src/db/mod.rs:281-370 | The invariant of every reachable state of the interleaved protocol |
| HistoryProtocol.RowsBounded | src/handlers/console.rs:325-328 | At most 200 rows plus the requests that inserted and have not cleaned up; at most 200 at rest when no cleanup was missed |
| HistoryBounds.RowsExactly | src/handlers/console.rs:325-328 | The bound is attained, for any numbers of requests owing a cleanup and lost, if and only if that many can be in flight |
| HistoryProtocol.RowsPerKey | src/db/mod.rs:283-329 | With at most n requests in flight, rows and pending inserts of one request are at most n |
| HistoryBounds.DuplicatesExactly | src/db/mod.rs:283-329 | The bound is exact: with n in flight the same request can come to be stored m times if and only if m <= n |
| HistoryBounds.NoDuplicatesIffSequential | src/db/mod.rs:279-329 | The history is free of duplicates in every run if and only if requests come one at a time |
| HistoryProtocol.RowsNameLiveEndpoints | migrations/003_console_history.sql:7-13 | Every history row names a live endpoint and an allowed method |
| HistoryProtocol.GoneStaysGone | migrations/001_init.sql:4-4 | Endpoint ids are not reused |
| HistoryProtocol.CookieResolvesToChosen | src/handlers/endpoints.rs:272-308 | An id kept in the cookie resolves to the endpoint chosen or to none |
| Sizes.ParseSizeToBytes | src/utils/format.rs:42-72 | The character loop computes the parsed size, whose meaning the next four rows give |
| Sizes.SizeRead | src/utils/format.rs:42-72 | Any decimal, with or without a point, followed by `b`, `kb`, `mb`, `gb` or `tb` in either case, by another unit or by none, with spaces anywhere around them, is read as the decimal times the bytes of the unit, rounded down and capped at 64 bits |
| Sizes.BytesRead | src/handlers/indices.rs:263-264 | The plain number of bytes that the index list asks for is read as it is |
| Sizes.SizeZero | src/utils/format.rs:45-60 | A blank text, a dash, a unit alone and a malformed number count as 0 |
| Sizes.ParsedFormat | src/utils/format.rs:18-72 | Parsing printed text recovers the digits shown, times the unit if it is known |
| Sizes.FormatShows | src/utils/format.rs:18-38 | A size is printed in the largest unit it reaches, to the nearest, with two decimals below ten units, one below a hundred, else none |
| Sizes.NodeFormatShows | src/models/node.rs:32-49 | The node page prints whole bytes below 1024, else two decimals, in at most terabytes |
| Sizes.RoundTripError | src/utils/format.rs:18-72 | For every u64 the size read back is within half a percent and one byte if and only if it is below 1024^5; exact below 1024 |
| Sizes.DisplayMonotone | src/utils/format.rs:25-38 | Larger sizes are never shown as smaller, across units, precisions and rounding |
| Sizes.NodeRoundTripError | src/models/node.rs:32-49 | The node page's formatter can be read back over all of u64 |
| Sizes.SameUnit | src/models/node.rs:38-48 | The two formatters print the same unit if and only if the size is below 1024^5 |
| Decimals.ValueOfNatText | src/utils/format.rs:4-4 | Decimal text denotes the number |
| Decimals.NatTextOfValue | src/utils/format.rs:4-4 | Of all digit strings of a number the one without leading zeros is printed |
| FormatNumber.FormatNumber | src/utils/format.rs:3-14 | Groups of three, the first of one to three; without spaces the decimal text, which parses back |
| FormatNumber.GroupingUnique | src/utils/format.rs:3-14 | Shape and digits determine the text |
| FormatNumber.FormatInjective | src/utils/format.rs:3-14 | Different numbers have different texts |
| Escapes.EscapedIsOnePass | src/handlers/console.rs:74-79 | The five replaces are one pass over the characters |
| Escapes.LiteralOfEscaped | src/handlers/console.rs:74-79 | The escaped text stays inside its literal, which denotes the original |
| Escapes.BodyReadBack | src/handlers/console.rs:71-80 | The same for a history entry, whose missing body counts as empty |
| Escapes.EscapedInjective | src/handlers/console.rs:74-79 | Different bodies have different escaped texts |
| Escapes.ReceivedBody | src/handlers/console.rs:195-206 | What the handler in the attribute receives, for any character references: nothing for a body with a double quote, the decoded body if its references are harmless, never more than the body and less if it contains a reference |
| Escapes.BodySurvives | src/handlers/console.rs:195-206 | For every table of character references, given as any function of the word after an ampersand, a body survives attribute and literal if and only if it has no double quote and no reference begins in it |
| Escapes.BodySurvivesTable | src/handlers/console.rs:195-206 | The same for a finite table: no entry occurs in the body |
| Escapes.QuoteReferenceBreaks | src/handlers/console.rs:195-206 | A body that begins with a reference to a single quote does not arrive |
| Escapes.NumericQuoteBreaks | src/handlers/console.rs:195-206 | `&#39;` passes the escaping unchanged and breaks the call |
| Escapes.AttrIsOnePass | src/handlers/endpoints.rs:20-26 | The four replaces are one pass over the characters |
| Escapes.NoDelimiters | src/handlers/endpoints.rs:20-26 | The escaped value contains no quote or angle bracket |
| Escapes.DecodedAttr | src/handlers/endpoints.rs:20-26 | Decoding gives the value back, whatever other references are known |
| IndexPatterns.ReplaceLeaves | src/handlers/search.rs:97-102 | Replacing by commas creates no new text between commas |
| IndexPatterns.ReplaceRemoves | src/handlers/search.rs:97-102 | The replaced text is gone |
| IndexPatterns.NormalizeIsTidy | src/handlers/search.rs:92-113 | The result is a list of non-empty, trimmed segments free of `OR`, `or`, ` Or ` and ` oR `; which ones, PatternLists says |
| IndexPatterns.TidyIsKept | src/handlers/search.rs:92-113 | Such a list is left as it is |
| IndexPatterns.NormalizeIdempotent | src/handlers/indices.rs:38-59 | Normalising twice is normalising once |
| IndexPatterns.NameKept | src/handlers/search.rs:97-102 | A single name survives if and only if it is clean |
| IndexPatterns.NameWithOrIsCut | src/handlers/search.rs:102-102 | A name that does not survive |
| PatternLists.ListNormalizes | src/handlers/search.rs:92-113 | A comma list of any texts normalises to the comma list of their normal forms, blank ones left out, `*` if none is left, unless spaces leave an `or` loose at an end of one |
| PatternLists.LooseIsCut | src/handlers/search.rs:97-102 | Names for which that condition is needed |
| PatternLists.PaddedName | src/handlers/search.rs:93-93 | A clean name comes out of any spaces around it |
| PatternLists.Spellings | src/handlers/search.rs:92-113 | For clean names `a OR b` and `a or b` give `a,b`; `a, b`, `a Or b` and `a oR b` all do if and only if `a` does not end with ` Or` or ` oR` and `b` does not begin with `Or ` or `oR ` |
| IndexPatterns.TypedPatternWins | src/handlers/search.rs:141-173 | A typed pattern is searched for whatever the cookie says; the cookie is used only if nothing was typed and replaced unless everything is searched |
| IndexPatterns.StoredPatternSticks | src/handlers/search.rs:141-173 | A stored pattern is found again by every request without one, and stays stored |
| StableSort.SortIsStable | src/handlers/indices.rs:292-330 | In order, and the items of each key as they were |
| StableSort.StableSortUnique | src/handlers/indices.rs:292-330 | There is only one such list |
| StableSort.LexIsAtMost | src/handlers/indices.rs:293-310 | The order of names is by the first position where they differ, a beginning first |
| Listing.AliasMap | src/handlers/indices.rs:270-277 | Each index's aliases in the order reported |
| Listing.AssignAliases | src/handlers/indices.rs:279-284 | Every index gets its own aliases |
| Listing.Retain | src/handlers/indices.rs:286-289 | Internal indices, whose names begin with a dot, are dropped if asked, and no others; the order is kept |
| Listing.ArrangedIsStableSort | src/handlers/indices.rs:291-330 | The list shown is a stable sorting, and a permutation, of the visible indices by the key of the column |
| Listing.ShownInOrder | src/handlers/indices.rs:291-330 | `index`, `health`, `docs_count` and `store_size` each put the list in the order of that field, `desc` the other way; any other column leaves it as reported |
| Listing.TiesAsReported | src/handlers/indices.rs:291-330 | Indices with the same value of that field stay in the order reported |
| Listing.ParseU64Reads | src/models/index.rs:34-36 | A number of documents is what its digits say, with an optional plus sign, and 0 if unreadable or out of range |
| Listing.LoadIndices | src/handlers/indices.rs:270-347 | One page of the list, itself in the order asked for, the total and the number of pages |
| Listing.PagesAreTheList | src/handlers/indices.rs:332-340 | The pages put together are the whole list |
| Listing.RangesTile | src/models/index.rs:66-75 | The announced ranges are as long as the pages and tile 1 to the total |
| Listing.SortedSizesShowSorted | src/handlers/indices.rs:320-327 | A table sorted by size, either way, shows sizes in that order |
| Listing.SearchWindow | src/handlers/search.rs:264-309 | Every page offered stays within 10,000 results, whatever the total, if and only if the page size is at most 20 |
| Listing.SearchPages | src/handlers/search.rs:264-309 | At most 100 results a page, at least one page and at most 500, and below that as many as the results need |
| Listing.SearchRangesTile | src/handlers/search.rs:73-90 | The ranges the search announces are as long as its pages and follow one another |
| Listing.AllHitsOffered | src/handlers/search.rs:308-309 | Every hit is on a page offered if and only if the cap allows for all of them |
| Colors.AgreesWithCss | src/utils/color.rs:69-86 | The conversion is the algorithm of section 4.2.4 of CSS Color Module Level 3 |
| Colors.Components | src/utils/color.rs:69-86 | Components are proportions; their extremes have mean `l` and distance `c` |
| Trends.WindowIsLongest | src/templates/node_detail.html:407-421 | The window is the longest end inside both limits |
| Trends.WindowStep | src/templates/node_detail.html:423-430 | Trimming what is kept plus a new point equals the window of everything pushed |
| Trends.FrontDropped | src/templates/node_detail.html:409-420 | What is shifted out belongs to no window |
| Trends.TrimmedExactly | src/templates/node_detail.html:407-421 | Trimming keeps the whole window, and nothing else if no sample left is too old |
| Trends.TrimmedIsWindow | src/templates/node_detail.html:407-421 | Trimming leaves exactly the window if and only if, in the list it is given, none of the last 180 samples is too old with one in time before it |
| Trends.SteadyKeepsWindow | src/templates/node_detail.html:423-430 | As long as the clock does not go back, the series hold the window of everything pushed since the last clear |
| Trends.ClockSetBack | src/templates/node_detail.html:407-421 | A case in which an old sample stays |
| Trends.HistoryData.TrimHistory | src/templates/node_detail.html:407-421 | The two loops shift all four series in step, whatever the clock says, and drop only points older than ten minutes or beyond 180 |
| Trends.HistoryData.PushPoint | src/templates/node_detail.html:423-430 | Each series gets its own value, all lose as many points in front, and what they then hold is what the pushes since the last clear leave |
| Trends.HistoryData.ClearTrends | src/templates/node_detail.html:586-592 | Nothing is kept |

## Left out

- HTTP routing, templates, command line, logging, the Elasticsearch client: responses are arbitrary input.
- Migration 004's rename of the referenced table, and what dropping the old table does to the history: SQLite internals.
- Time stamps of endpoints and the saved queries table: nothing reads them.
- Legacy directories that contain, or are contained in, the application directory; symbolic links.
- Version parsing, percentages, previews, badges, bulk actions, `parse_hsl`, the index colour hash and the luminance formula: single-branch facts, a hash function and floating-point powers.
- LegacyMerge.MoveEntry: `rename` follows POSIX; permissions and time stamps of files are left out.
- Sizes.FormatBytes: `f64` values are exact rationals, and the unit is the exact integer logarithm, which `ln` may miss by rounding next to a power of 1024.
- Sizes.BytesRead: for the same reason exact on all of `u64`, where `f64` rounds numbers above 2^53.
- PatternLists.ListNormalizes: a text with a loose `or` counts in a list not by its normal form but by the one it has between commas of its own, to which the law does apply.
- Sizes.ParseSizeToBytes: digits, letters and letter case are ASCII; other numeric or alphabetic characters are ignored.
- ShardPatterns.MatchesPattern: positions count characters where the source counts UTF-8 bytes; every cursor lies on a character boundary.
- HistoryLru.RunRefinesLru: needs strictly increasing times, while `CURRENT_TIMESTAMP` has a resolution of one second; with ties HistoryTable.CleanedKeepsNewest and HistoryProtocol.RowsPerKey still hold.
- Listing.LoadIndices: page and page size are at least 1; with page size 0 the source divides by zero and with page 0 it underflows.
- HistoryRecorded.ExecutedIsRecorded: upper-casing covers the characters whose upper case is made of letters of a method (ASCII, long s and its ligatures); any other character leaves a method unsupported.
- Endpoints.Application.Commit: the database file is a function of the endpoints table (SQLite's journal files and the other tables are left out); HistoryProtocol follows ids and history, Endpoints the passwords.
- Endpoints.PasswordsLastExactly: nothing but the application writes to its directories between starts.
- KeyPairs.PairFromOneDirectory: no directory stands where a key or database file would be; a start on such trees fails.
- Escapes.LiteralOfEscaped: the escapes the code produces; any other escape, which only a decoded backslash can begin, counts as an error in Escapes.Received.
- Escapes.BodySurvives: method and path in the same attribute are taken to be plain. The page template, which its engine escapes, is not modelled.
- Colors.HslToRgb: `f32` values are reals.
