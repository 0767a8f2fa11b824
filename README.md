# Mapa Cultural event sync — a Dafny model

This project models the synchronisation engine of the "Mapa Eventos CE"
dashboard and proves properties of that model. The engine copies the
events of the Ceará *Mapa Cultural* API into a local MySQL store, and the
dashboard serves them from the store through a Redis cache. The model
covers:

- **`SyncService`** (`services/SyncService.php`).
  - `extractEventData` turns an API event into an `eventos` row.
  - `processEvent` skips the event, updates the row with the same `external_id`, or inserts a new row.
  - `syncEventLanguages` and `getOrCreateLanguage` replace the event's language links, creating language rows on first use.
  - `syncEvents` keeps the run ledger in `sync_logs` (`iniciado` → `em_progresso` → `concluido`/`erro`), counts per-event outcomes and clears the cached listings.
  - `getLastSyncLog` reads the latest ledger row.
- **`MapaCulturalAPI`** (`services/MapaCulturalAPI.php`).
  - The request parameters of `getEvents` and `getEventsPaginated`.
  - The paging loop of `getAllEvents`.
  - The cache-aside `getTerms`.
- **The seal script** (`cron/sync_selos.php`). It upserts every seal by external id, or by name when the seal has none, and keeps three counters.
- **The listing endpoint** (`api/eventos.php`). It clamps page and limit, computes offset and page count, assembles the filters and the count query, and answers from the cache or stores its answer there.
- **The log endpoint** (`api/logs.php`). It clamps `lines`, falls back to slicing the file when `tail` is unavailable, and picks the response.
- **The dashboard script** (`assets/script.js`). It covers the sort state, the comparator and the sort of a copy, the tag cell, the CSV export, and the elapsed-time texts.

The store is a value `Store.Db`: one table per MySQL table, each a map
from auto-increment id to row plus the next id. `Store.Database` is the
live connection: each method performs one SQL statement on that value.
The class methods of `SyncService`, `MapaCulturalApi`, `RedisCache`,
`DashboardState` and the seal loop change that live state step by step.
Each is proved to leave exactly the state that a function of the model
describes, and the properties are proved about those functions.

Things outside the program become inputs:
- the API pages are a sequence of page-or-failure answers;
- which events or seals throw inside the per-item `try` is a set of indices;
- where the outer `try` of `syncEvents` throws, and whether its handler's own UPDATE throws too, is a `LedgerFault`;
- the log file is described by a `LogFile` value;
- whether the database connection opens is a boolean, and the database's answer to the listing query is an `Answer`;
- the clock is a number of milliseconds.

## Model

| member | source | states |
|---|---|---|
| Text.Trim | services/SyncService.php:123 | no trim character is left at either end, the result is empty exactly when every character is one, and a string already clean is kept |
| Text.Take | services/SyncService.php:118-121 | `mb_substr($s, 0, n)` is the prefix of length min(\|s\|, n) |
| Text.Split | api/logs.php:120 | `explode` gives at least one piece, no piece holds the separator, and joining the pieces gives back the input |
| Text.SplitJoin | api/logs.php:120 | splitting pieces that were joined on a character they do not contain gives back the pieces |
| Text.LeadingDigits | api/eventos.php:21-22 | the digits the cast reads are the longest leading run of digits |
| Text.PhpIntval | api/eventos.php:21-22 | the `(int)` cast lies in the 64-bit range, and is 0 when the string does not start with a number |
| Text.IntvalOfNatString | api/eventos.php:21-22 | the `(int)` cast of a decimal numeral is its value, saturated at 2^63 − 1 |
| Text.IntvalOfScientific | api/eventos.php:21-22 | a numeral with an exponent, such as `1e2`, reads as m · 10^k, saturated to 64 bits |
| Text.IntvalTruncatesFraction | api/eventos.php:21-22 | the fraction after a point is dropped, so `2.75` reads as 2 |
| Text.DecimalValueZeros | api/eventos.php:21-22 | appending n zero digits multiplies a numeral's value by 10^n |
| Cache.WithoutPrefix | config/redis.php:102-115 | the keys left are exactly those without the prefix, each with its old value |
| Cache.RedisCache.Get | config/redis.php:73-83 | a disconnected cache or a missing key gives null; otherwise the stored value, with a stored `false` read as null |
| Cache.RedisCache.Set | config/redis.php:59-68 | it succeeds exactly when connected and then stores the value with its TTL; otherwise nothing changes |
| Cache.RedisCache.DeletePattern | config/redis.php:102-115 | when connected, every key with the prefix is removed and no other key changes; otherwise nothing changes |
| Store.Insert | services/SyncService.php:195-197 | an INSERT stores the row under the next auto-increment id, which was unused, and advances the counter |
| Store.Find | services/SyncService.php:89-92 | the lookup finds a matching row exactly when the table has one |
| Store.LatestId | services/SyncService.php:340-343 | the id returned is present, and no larger id below the bound is |
| Store.LastSyncLog | services/SyncService.php:340-343 | there is a latest ledger row exactly when the ledger is not empty, and it is one of its rows |
| Store.Database.InsertEvento | services/SyncService.php:165-198 | the event row is inserted and its new id returned |
| Store.Database.UpdateEvento | services/SyncService.php:203-242 | the row with that id is replaced in full |
| Store.Database.DeleteLinks | services/SyncService.php:249-250 | every link of the event is deleted |
| Store.Database.InsertIgnoreLink | services/SyncService.php:257-260 | the link is added, and a duplicate pair changes nothing |
| Store.Database.InsertLinguagem | services/SyncService.php:277-280 | a language row is inserted and its new id returned |
| Store.Database.InsertSyncLog | services/SyncService.php:286-290 | a ledger row with status `iniciado` is inserted and its id returned; the status history gains (id, `iniciado`) |
| Store.Database.SetSyncLogStatus | services/SyncService.php:295-298 | only that ledger row's status changes; the status history gains (id, status) |
| Store.Database.FinalizeSyncLog | services/SyncService.php:303-324 | that ledger row gets the status, the counters (0 when no stats are given) and the message; the status history gains (id, status) |
| Store.Database.InsertSelo | cron/sync_selos.php:55-58 | a seal row is inserted and its new id returned |
| Store.Database.UpdateSelo | cron/sync_selos.php:49-50 | only `nome` and `descricao` of that seal row change, and its external id stays |
| EventNormalizer.Truncate | services/SyncService.php:118-121 | null stays null; otherwise the result is the prefix of length min(\|s\|, n) |
| EventNormalizer.ExtractEventData | services/SyncService.php:116-160 | covers the whole row: external id; the trimmed name, or 'Sem nome', cut to 255; the trimmed municipality, or 'Não informado', cut to 100; the address, CEP, phone, e-mail, site and age rating each cut to its column's width, null staying null; the description fallback; the 0/1 accessibility flag; coordinates present exactly when truthy; dates from the first occurrence with the end falling back to the start |
| EventNormalizer.SkipRule | services/SyncService.php:84-87 | an event is skipped exactly when its name is missing or trims to '', '0' or 'Sem nome' |
| EventNormalizer.KeptNameIsUsable | services/SyncService.php:84-87 | a row that is not skipped carries the trimmed, truncated API name, which is neither blank nor the placeholder |
| EventNormalizer.TakeOfTrimmedIsNotBlank | services/SyncService.php:123-126 | cutting a trimmed, non-empty name to a positive width leaves it non-blank |
| EventNormalizer.TakeShortEquals | services/SyncService.php:145 | cutting to 255 equals a short word only when the name is that word |
| SyncModel.GetOrCreateLanguage | services/SyncService.php:267-281 | returns the id of a row with that name; an existing name writes nothing, and a new one inserts exactly one row under the next id |
| SyncModel.GetOrCreateKeepsNamesUnique | services/SyncService.php:267-281 | language names stay unique |
| SyncModel.GetOrCreateTwice | services/SyncService.php:267-281 | a second call with the same name returns the same id and writes nothing |
| SyncModel.AddLanguages | services/SyncService.php:253-261 | the language table stays well formed |
| SyncModel.AddLanguagesNext | services/SyncService.php:253-261 | one more name is one more find-or-create followed by one INSERT IGNORE |
| SyncModel.AddLanguageStep | services/SyncService.php:255-259 | one name keeps the old rows and the unique names, and links the event to that name's row |
| SyncModel.AddLanguagesFrame | services/SyncService.php:253-261 | the loop changes only languages and links; old language rows stay, new rows carry given names, and other events' links are untouched |
| SyncModel.AddLanguagesNamed | services/SyncService.php:253-261 | afterwards every given name has a language row |
| SyncModel.AddLanguagesLinks | services/SyncService.php:253-261 | afterwards the event is linked to a language exactly when it was before or that language's name is among the given names |
| SyncModel.LinkStepAt | services/SyncService.php:257-259 | one INSERT IGNORE keeps the link characterisation true |
| SyncModel.AddLanguagesEffect | services/SyncService.php:253-261 | the frame, naming and link facts of the loop together |
| SyncModel.LanguageLinksExact | services/SyncService.php:247-262 | after the delete and the loop, the event's links are exactly the rows of the given names, with repeats collapsed; other events' links are untouched, and language rows only grow and stay unique |
| SyncModel.AddKnownLanguages | services/SyncService.php:267-274 | when every name already has a row, no language row is created |
| SyncModel.SyncEventLanguagesIdempotent | services/SyncService.php:247-262 | replacing the links a second time with the same names changes nothing |
| SyncModel.NoLanguagesKeepLinks | services/SyncService.php:105-108 | an event without languages keeps its existing links |
| SyncModel.RowWrittenEffect | services/SyncService.php:89-103 | the row is written under the existing id of that external id or under the next id, and nothing else changes |
| SyncModel.LinkLanguagesValid | services/SyncService.php:105-108 | replacing the links keeps every link pointing at existing rows |
| SyncModel.ProcessRowValid | services/SyncService.php:80-111 | processEvent keeps the store's integrity (unique external ids and names, resolving links) |
| SyncModel.ProcessRow | services/SyncService.php:84-111 | 'ignorado' exactly when the normalised row is skipped, leaving the store as it was; 'atualizado' exactly when a row with its external id is stored; 'novo' otherwise |
| SyncModel.ProcessEvent | services/SyncService.php:80-111 | processEvent of a fetched event: 'ignorado' exactly when its normalised row is skipped, 'atualizado' exactly when an event row has its id |
| SyncModel.UpsertByExternalId | services/SyncService.php:84-103 | skipped exactly when 'ignorado', writing nothing; for a known external id, 'atualizado' with a full update under the same id; otherwise 'novo' with exactly one row inserted under the next id |
| SyncModel.ProcessRowSummary | services/SyncService.php:80-111 | only 'novo' advances the counter; no row is lost and no external id changes; a row that is not skipped is stored afterwards |
| SyncModel.ProcessRowTwice | services/SyncService.php:89-108 | processing the same row again answers 'atualizado' and leaves the store exactly as it was |
| SyncModel.ProcessEventTwice | services/SyncService.php:80-111 | processing the same usable event twice leaves one row and the same links |
| SyncModel.StoredRowFound | services/SyncService.php:89-92 | a stored row is found by its external id |
| SyncModel.StoredRowRewrite | services/SyncService.php:203-242 | rewriting a row with its own values changes nothing |
| SyncModel.ProcessAll | services/SyncService.php:47-61 | the loop over the events keeps the store's integrity |
| SyncModel.ProcessAllNext | services/SyncService.php:47-61 | one more event either counts an error and writes nothing, or processes the event and counts its outcome |
| SyncModel.FaultsBelowNone | services/SyncService.php:57-60 | with no failing event no error is counted |
| SyncModel.ProcessAllCounters | services/SyncService.php:44-61 | novos + atualizados + erros ≤ total; erros is the number of failing events; the id counter grows by novos; the ledger and seals are untouched; no row is lost |
| SyncModel.CountSummary | services/SyncService.php:49-55 | one processed event raises at most one counter, never `erros` |
| SyncModel.HasEventoKept | services/SyncService.php:47-61 | an event stored earlier in the run stays stored |
| SyncModel.ProcessAllLastKeepsRows | services/SyncService.php:47-61 | the last event keeps every row, and stores its own unless it failed or was skipped |
| SyncModel.StoredKept | services/SyncService.php:47-61 | events that were stored stay stored as the run goes on |
| SyncModel.ProcessAllStoresEvents | services/SyncService.php:47-61 | after the loop, every event that neither failed nor was skipped has its row |
| SyncModel.ProcessAllKnownEvents | services/SyncService.php:89-103 | when every event is already stored, a run inserts nothing |
| SyncModel.SecondPassInsertsNothing | services/SyncService.php:25-75 | re-running over the same events inserts no row and counts no error |
| SyncEngine.Invalidated | services/SyncService.php:329-335 | the entries left are exactly those under none of `eventos:`, `stats:` and `linguagens:`, each unchanged |
| SyncEngine.LedgerWritesValid | services/SyncService.php:286-324 | the ledger statements keep the store's integrity |
| SyncEngine.SyncRun | services/SyncService.php:25-75 | the run takes the next ledger id; it returns its counters and clears the cache exactly when no ledger statement throws, and otherwise throws that statement's message |
| SyncEngine.RunLedger | services/SyncService.php:25-75 | a run adds exactly one ledger row and touches no other. Success: 'concluido' with total = number of fetched events, counters bounded, cache cleared. Failure: the error rethrown and the cache kept; the row is 'erro' with zero counters and the message, unless the handler's own UPDATE throws too, which leaves it 'em_progresso' without counters |
| SyncEngine.LedgerClosed | services/SyncService.php:303-324 | closing the run's ledger row leaves exactly the old rows plus that one, with the given status, counters and message |
| SyncEngine.RunReleasesLedger | services/SyncService.php:25-75 | after a run its row is the latest. It is left 'em_progresso', so that every later run is refused, exactly when the handler's own UPDATE throws; otherwise it is 'concluido' or 'erro' and a new run is accepted |
| SyncEngine.LedgerTraceLegal | services/SyncService.php:27-73 | the statuses a run writes follow iniciado → em_progresso → concluido/erro; they close the row unless the handler's UPDATE throws, and end in 'concluido' exactly when nothing threw |
| SyncEngine.SyncService.CreateSyncLog | services/SyncService.php:286-290 | a new 'iniciado' ledger row, whose id is returned and whose status is recorded in the history |
| SyncEngine.SyncService.UpdateSyncLog | services/SyncService.php:295-298 | the run's ledger row gets the status, recorded in the history |
| SyncEngine.SyncService.FinalizeSyncLog | services/SyncService.php:303-324 | the run's ledger row is closed with status, counters and message, the status recorded in the history |
| SyncEngine.SyncService.InvalidateCache | services/SyncService.php:329-335 | a connected cache loses the three prefixes; a disconnected one is untouched |
| SyncEngine.SyncService.GetOrCreateLanguage | services/SyncService.php:267-281 | performs the find-or-create on the live store exactly as the model describes |
| SyncEngine.SyncService.LinkLanguage | services/SyncService.php:255-259 | one name: find-or-create, then INSERT IGNORE of the link |
| SyncEngine.SyncService.SyncEventLanguages | services/SyncService.php:247-262 | the delete and the loop leave the store as the model's replacement of links |
| SyncEngine.SyncService.ProcessEvent | services/SyncService.php:80-111 | the answer and the new store are the model's processEvent |
| SyncEngine.SyncService.CountOne | services/SyncService.php:48-60 | one turn of the foreach: a failing event raises `erros`; otherwise the outcome picks the counter |
| SyncEngine.SyncService.ProcessEvents | services/SyncService.php:44-61 | the foreach leaves the counters and the store of the model's run loop |
| SyncEngine.SyncService.CloseRun | services/SyncService.php:63-73 | success closes the row 'concluido' with the stats and clears the cache; a failing UPDATE closes it 'erro' and rethrows; each adds that one closing status to the history. When the handler's UPDATE fails too, the store, the history and the cache are unchanged and that error propagates |
| SyncEngine.SyncService.SyncEvents | services/SyncService.php:25-75 | the store, the result, the ledger id and the cache are those of the model's run; the ledger statements of the run append to the live store's status history exactly LedgerTrace(fault) on the run's row |
| SyncEngine.SyncService.GetLastSyncLog | services/SyncService.php:340-343 | no row exactly when the ledger is empty; otherwise one of its rows |
| ApiClient.EventsParams | services/MapaCulturalAPI.php:25-32 | the keys are the defaults' and the caller's, and a caller's value wins |
| ApiClient.PaginatedParams | services/MapaCulturalAPI.php:111-115 | `@page` and `@limit` override the filters, and other filters stay |
| ApiClient.PageRequestParams | services/MapaCulturalAPI.php:24-35 | a paged request carries the page, limit 100 and every default, `@seals` = '32' included, and nothing else |
| ApiClient.CallerOverridesDefault | services/MapaCulturalAPI.php:32 | a caller's parameter overrides the default with the same key |
| ApiClient.Appended | services/MapaCulturalAPI.php:128-152 | the pages the do-while appends from a given page on; never more of them than there are remote answers from that page on |
| ApiClient.Fetched | services/MapaCulturalAPI.php:123-154 | the records getAllEvents returns; none when the first request fails or answers an empty page |
| ApiClient.AppendedUnfold | services/MapaCulturalAPI.php:128-152 | one turn of the do-while: a failure or empty page stops; a page is appended, and the loop goes on only when it was full |
| ApiClient.FetchEnds | services/MapaCulturalAPI.php:132-134 | a failure or an empty page appends nothing more |
| ApiClient.FetchAdvances | services/MapaCulturalAPI.php:136-152 | a non-empty page is appended, and the rest is fetched only after a full page |
| ApiClient.ProgressOf | services/MapaCulturalAPI.php:138-140 | one progress call per appended page |
| ApiClient.ProgressOfAt | services/MapaCulturalAPI.php:138-140 | the k-th call reports page k+1, that page's size and the running total |
| ApiClient.ProgressOfAppend | services/MapaCulturalAPI.php:138-140 | appending a page adds its call at the end |
| ApiClient.AppendedAt | services/MapaCulturalAPI.php:128-152 | the k-th appended page is the answer to request page+k, is non-empty, and is full unless last |
| ApiClient.AppendedShape | services/MapaCulturalAPI.php:152 | appended pages answer consecutive requests, none is empty, and all but the last hold exactly 100 records |
| ApiClient.AppendedStops | services/MapaCulturalAPI.php:132-134 | when the last appended page was full, or none was, the next answer failed or was empty |
| ApiClient.FailureKeepsGathered | services/MapaCulturalAPI.php:147-150 | a failure after full pages returns exactly the records gathered so far, without rethrowing |
| ApiClient.ThreePagesScenario | services/MapaCulturalAPI.php:123-154 | two full pages and a page of 40 give 240 events |
| ApiClient.MapaCulturalApi.GetAllEvents | services/MapaCulturalAPI.php:123-155 | returns the in-order concatenation of the appended pages, one progress call per page, and the number of requests: one more than the pages appended when the last one was full or none was |
| ApiClient.MapaCulturalApi.GetTerms | services/MapaCulturalAPI.php:47-62 | a truthy cached value is returned without a request; otherwise the terms are requested and, when connected, stored under `api:terms:<taxonomy>` for 86400 s |
| SealSync.LookupSeal | cron/sync_selos.php:37-45 | by external id when it is truthy, otherwise by name; no name fallback for an unknown external id |
| SealSync.ProcessSeal | cron/sync_selos.php:47-58 | 'atualizado' exactly when found, then only that row's name and description change; otherwise one row (externalId, nome, descricao) is inserted |
| SealSync.SealTurn | cron/sync_selos.php:31-64 | one turn keeps the seal table well formed |
| SealSync.SealRun | cron/sync_selos.php:30-65 | the loop keeps the seal table well formed |
| SealSync.SealCounters | cron/sync_selos.php:30-65 | novos + atualizados + erros = number of seals, and erros = number of failing seals |
| SealSync.SealRowsAdded | cron/sync_selos.php:30-65 | novos is exactly the number of rows added; none goes away and no external id changes |
| SealSync.ProcessSealKeepsExternal | cron/sync_selos.php:47-58 | one seal never removes a stored external id |
| SealSync.ProcessSealStoresExternal | cron/sync_selos.php:37-58 | a seal with an external id is stored under it afterwards |
| SealSync.SealRunKeepsExternal | cron/sync_selos.php:30-65 | a run never removes a stored external id |
| SealSync.SealRunStoresExternal | cron/sync_selos.php:30-65 | every non-failing seal with an external id is stored afterwards |
| SealSync.SealRunUpdatesOnly | cron/sync_selos.php:37-58 | seals whose external ids are all stored insert nothing |
| SealSync.SealReRunInsertsNothing | cron/sync_selos.php:37-58 | re-running over the same seals with external ids inserts no row |
| SealSync.SealRunNext | cron/sync_selos.php:30-65 | one more seal is one more turn of the loop |
| SealSync.SyncSeal | cron/sync_selos.php:31-64 | one turn on the live table: a failing seal counts an error, otherwise update or insert with its counter |
| SealSync.SyncSeals | cron/sync_selos.php:30-65 | the loop leaves the seal table and the counters of the model's run |
| EventosEndpoint.ClampPage | api/eventos.php:21 | page = max(1, requested), default 1 |
| EventosEndpoint.ClampLimit | api/eventos.php:22 | limit clamped to [10, 100], default 50 |
| EventosEndpoint.ParseQuery | api/eventos.php:18-22 | the filters as given, period default 'todos', page and limit clamped |
| EventosEndpoint.Offset | api/eventos.php:23 | the offset is the multiple (page − 1) · limit, 0 on page 1 |
| EventosEndpoint.OffsetNext | api/eventos.php:23 | the next page starts one limit further |
| EventosEndpoint.Pages | api/eventos.php:108 | pages = ⌈total / limit⌉: zero exactly for no rows, enough pages and no spare one |
| EventosEndpoint.PageInRange | api/eventos.php:23-108 | a page's offset is below the total exactly when the page is at most `pages` |
| EventosEndpoint.Clauses | api/eventos.php:45-64 | one clause per given filter (PHP truthiness), 'futuros' and 'passados' give their clause and any other period none, in the order municipio, linguagem, periodo |
| EventosEndpoint.Params | api/eventos.php:49-57 | a bound parameter exactly for each given text filter, with its value |
| EventosEndpoint.PlaceholdersBound | api/eventos.php:49-57 | every placeholder in the clauses has its parameter |
| EventosEndpoint.BuildFilters | api/eventos.php:45-64 | the appends build the clause list and the parameter map of the model |
| EventosEndpoint.ClauseTexts | api/eventos.php:50-63 | one SQL text per clause, in order |
| EventosEndpoint.WhereSql | api/eventos.php:66-68 | no WHERE exactly when there is no clause |
| EventosEndpoint.SelectSql | api/eventos.php:38-70 | the page query carries the language joins whatever the filters |
| EventosEndpoint.CountSql | api/eventos.php:84-91 | the count query starts with the `COUNT(DISTINCT e.id)` head |
| EventosEndpoint.CountSqlShape | api/eventos.php:84-91 | the count query has the language joins exactly when the language filter is given, and both queries end with the same WHERE |
| EventosEndpoint.CountJoins | api/eventos.php:85-88 | the joins are added exactly for the language filter |
| EventosEndpoint.JoinsIsNotWhere | api/eventos.php:84-91 | a WHERE right after the head is not mistaken for the joins |
| EventosEndpoint.CacheKey | api/eventos.php:26 | the key lies under `eventos:` |
| EventosEndpoint.ListingsInvalidatedBySync | api/eventos.php:26 | a sync removes every cached listing |
| EventosEndpoint.SuccessBody | api/eventos.php:101-110 | the response stored is truthy, so it is a hit next time |
| EventosEndpoint.Serve | api/eventos.php:13-125 | a failed database connection answers 500 with the connection message, before the cache is read, and writes nothing; then a hit answers the stored response with no query; a failing query answers 500 and caches nothing; otherwise the response is sent and, when connected, cached for 3600 s under the key |
| EventosEndpoint.RepeatIsCached | api/eventos.php:13-115 | after a successful listing with a connected cache, the same request gets the first response again whatever the queries would answer, or 500 when the database connection fails; the cache stays as the first request left it |
| EventosEndpoint.OtherKeysUntouched | api/eventos.php:113-115 | only the request's own key is written |
| EventosEndpoint.Lookup | api/eventos.php:29-31 | a hit exactly when connected with a truthy value under the key, which it returns |
| EventosEndpoint.HandleRequest | api/eventos.php:13-125 | the response and the cache left are those of Serve, the connection failure included |
| LogsEndpoint.ClampLines | api/logs.php:22-23 | lines default 200, clamped to [1, 1000] |
| LogsEndpoint.TailSlice | api/logs.php:60-62 | the last min(n, total) lines, as a suffix in their order |
| LogsEndpoint.GetLastLines | api/logs.php:29-65 | null for a missing file, false for an unreadable one, '' when empty, tail's output when it succeeded, otherwise the slice joined by "\n" or false when `file()` fails |
| LogsEndpoint.LineCountOfJoin | api/logs.php:120 | lines without a newline joined by "\n" count as themselves |
| LogsEndpoint.FallbackLineCount | api/logs.php:60-120 | the fallback reports min(n, total) lines unless its text is empty |
| LogsEndpoint.LogInfo | api/logs.php:70-87 | `exists` and `readable` tell the truth about the file |
| LogsEndpoint.Respond | api/logs.php:94-129 | 500 exactly when reading failed, otherwise 200 with success, logs and lineCount; a missing file answers empty logs and 0 lines |
| LogsEndpoint.EmptyFileHasNoLines | api/logs.php:39-120 | an empty file answers 200 with empty logs and 0 lines |
| LogsEndpoint.RespondText | api/logs.php:119-129 | read text is sent as logs with its line count and the clamped request |
| LogsEndpoint.FallbackResponse | api/logs.php:54-129 | without tail, the response shows the last min(n, total) lines and counts them |
| Dashboard.NextSort | assets/script.js:438-447 | the clicked column becomes the sort field; the same column flips the direction, a new one starts ascending |
| Dashboard.NextSortTwice | assets/script.js:438-447 | two clicks on the sort column restore it; two on a new column leave it descending |
| Dashboard.Key | assets/script.js:457-466 | null and undefined are read as '' and strings lower-cased (Basic Latin and Latin-1 letters), so a key is never missing |
| Dashboard.AscCompare | assets/script.js:468-471 | −1 exactly when b's key is greater, 1 exactly when a's is greater and b's is not, 0 otherwise |
| Dashboard.KeyOrderAntisymmetric | assets/script.js:468-471 | swapping two keys negates the comparison |
| Dashboard.Compare | assets/script.js:474 | in {−1, 0, 1}; 'desc' negates 'asc' |
| Dashboard.AfterAsymmetric | assets/script.js:470-471 | two keys are never each greater than the other |
| Dashboard.CompareAntisymmetric | assets/script.js:456-475 | swapping the events negates the comparator |
| Dashboard.NotAfterTransitive | assets/script.js:470-471 | on keys of one kind, "not greater" is transitive |
| Dashboard.InOrderTransitive | assets/script.js:456-475 | on a column of one kind, the comparator's order is transitive |
| Dashboard.InOrderTotal | assets/script.js:456-475 | any two events are in order one way or the other |
| Dashboard.Insert | assets/script.js:456 | inserting keeps every event and adds the new one |
| Dashboard.SortEvents | assets/script.js:453-476 | the sorted rows are a permutation of the input |
| Dashboard.PrecedesInsert | assets/script.js:456 | an event before all others stays before them after an insertion |
| Dashboard.InsertSorted | assets/script.js:456 | inserting into a sorted list of one kind keeps it sorted |
| Dashboard.ConsSorted | assets/script.js:456 | putting an event in front of a sorted list it precedes keeps it sorted |
| Dashboard.SameKindPrefix | assets/script.js:456 | a prefix of a column of one kind is of that kind |
| Dashboard.SortEventsSorted | assets/script.js:453-476 | on a column of one kind, the result is sorted by the comparator and is a permutation of the input |
| Dashboard.WithKeyAppend | assets/script.js:453-476 | picking the events with one key distributes over concatenation |
| Dashboard.NoEqualKeyAfter | assets/script.js:468-471 | events with equal keys compare equal, so none lies behind a sorted head that must follow the event |
| Dashboard.InsertStable | assets/script.js:456 | inserting into a sorted list places the event after every event with the same key |
| Dashboard.SortEventsStable | assets/script.js:453-476 | on a column of one kind the sort is stable: the events with any one key keep their relative order |
| Dashboard.DashboardState.constructor | assets/script.js:10-13 | the dashboard starts sorted by `data_inicio`, descending |
| Dashboard.DashboardState.HandleSort | assets/script.js:438-447 | the sort state becomes NextSort of the old one, and nothing else changes |
| Dashboard.DashboardState.SortedRows | assets/script.js:301 | the rows shown are the sorted copy, and `filteredEvents` keeps its order |
| Dashboard.SplitTrim | assets/script.js:327 | one tag per comma-separated piece |
| Dashboard.SplitTrimPieces | assets/script.js:327 | a tag holds no comma, is not longer than its piece and has no blank at either end |
| Dashboard.Tags | assets/script.js:305-327 | no tags exactly when neither `tags` nor `linguagens` is a non-empty string; with `tags`, one tag per comma-separated piece |
| Dashboard.TagDisplay | assets/script.js:341-346 | no tags gives '-'; otherwise the first min(2, n) are shown, and `+k` with k = n − 2 only when there are more than 2 |
| Dashboard.DoubleQuotes | assets/script.js:402-404 | doubling quotes never shortens the text |
| Dashboard.QuoteCsv | assets/script.js:402-404 | a quoted field starts and ends with '"' |
| Dashboard.UndoubleDoubleQuotes | assets/script.js:402-404 | undoing the doubling gives back the text |
| Dashboard.QuoteCsvRoundTrip | assets/script.js:402-404 | unquoting a quoted field gives back the text |
| Dashboard.CsvRow | assets/script.js:399-407 | seven fields: the id, the quoted name and languages that unquote to the originals, the municipality, and empty dates when absent |
| Dashboard.RowLines | assets/script.js:409 | one line per event |
| Dashboard.RowLinesAt | assets/script.js:409 | the i-th line is the i-th event's fields joined by ',' |
| Dashboard.CsvLines | assets/script.js:409 | the header line and one line per event |
| Dashboard.ExportCsv | assets/script.js:392-410 | no events gives the 'Nenhum dado para exportar' error; otherwise the text starts with the byte-order mark |
| Dashboard.ExportFilename | assets/script.js:412-414 | 'eventos-culturais-', then the date and '.csv', nine characters longer ('filtrado-') exactly when a municipality or language filter is set |
| Dashboard.JoinAvoids | assets/script.js:409 | joining never introduces a character the parts and separator lack |
| Dashboard.HeaderLineHasNoBreak | assets/script.js:398 | the header line holds no newline |
| Dashboard.RowLinesHaveNoBreak | assets/script.js:409 | rows whose fields hold no newline give lines without one |
| Dashboard.CsvLinesHaveNoBreak | assets/script.js:409 | no CSV line holds a newline when no field does |
| Dashboard.CsvLineCount | assets/script.js:409-410 | after the byte-order mark, the text splits on "\n" into exactly the header and one line per event |
| Dashboard.JsRem | assets/script.js:207 | JavaScript's `%`: Euclidean on non-negative operands, and in (−d, 0] for negative ones |
| Dashboard.SplitSpan | assets/script.js:206-227 | hours = ⌊ms / 3600000⌋ and minutes < 60, with ms within that minute |
| Dashboard.ElapsedText | assets/script.js:206-217 | reads 'Agora mesmo' exactly when less than a minute has passed or the time lies ahead |
| Dashboard.ElapsedTextCases | assets/script.js:209-217 | under a minute 'Agora mesmo', under an hour 'Há Ym', otherwise starting 'Há Xh' |
| Dashboard.NextSyncText | assets/script.js:222-230 | the next sync is shown exactly while it is still in the future |
| Dashboard.NextSyncBounded | assets/script.js:223-227 | the remaining time splits into at most 6 h, with 6 h only at the instant of the sync, and minutes below 60 |

## Left out

- HTTP and cURL in `makeRequest`, and the half-second `usleep` between pages, are network and timing. The API answers are an input sequence, and an answer past its end is an empty page.
- The SQL engine is not modelled. SELECT ... WHERE is a scan in id order, and INSERT IGNORE is set insertion.
  - `NOW()`, `created_at`, `updated_at`, `started_at` and `finished_at` are clocks and are left out.
  - The `utf8mb4_unicode_ci` collation is not modelled: names are compared exactly.
- The singletons in config/database.php and config/redis.php, Redis TTL expiry and phpredis's JSON serialisation are left out. The cache is a map plus a `connected` flag, and each entry records its TTL.
- EventNormalizer.ExtractEventData: the float conversion of latitude and longitude is not modelled; the model states only that a coordinate is present exactly when the source is truthy.
- SyncModel.ProcessAll: an event whose processing throws writes nothing in the model. A statement that succeeded before the exception in the source stays written; the model leaves that out.
- SyncEngine.SyncService.SyncEvents: an exception from `createSyncLog` itself is raised before the `try` and is not modelled. The ledger faults modelled are the first UPDATE, the closing UPDATE, and the closing UPDATE followed by a failing UPDATE in the handler. A failing first UPDATE followed by a failing handler UPDATE is not modelled; it would leave the row 'iniciado', which refuses nothing.
- SyncEngine.RunReleasesLedger: a run that PHP stops in the middle of its work, through `set_time_limit(300)` in api/sync.php or a fatal error, leaves its row 'em_progresso' after whatever events it had written, and api/sync.php then refuses every later run. Such a partial run is not modelled; only the failing handler UPDATE (the `HandlerFails` fault) is.
- Runs are modelled one at a time. cron/sync_eventos.php calls `syncEvents()` without consulting the ledger, and the 409 check of api/sync.php is not atomic with the run it guards. Two overlapping runs can both miss an external id in processEvent's SELECT and both insert it. Store.Valid's unique external ids, and SyncModel.UpsertByExternalId, SyncModel.ProcessRowTwice and SyncModel.SecondPassInsertsNothing, hold for runs that do not overlap.
- Store.LastSyncLog: the latest row is the one with the highest id. `ORDER BY started_at DESC` agrees with it unless two runs start within the same second, and those ties are left out.
- ApiClient.MapaCulturalApi.GetAllEvents: it reports the number of requests made, pages 1 to that number, rather than each request map. The parameters of a page request are stated by ApiClient.PageRequestParams. The progress callback's `echo` is its list of calls.
- `getSeals()` is called by the seal script but is not defined in the client. The seals are an input sequence. The script's outer `try` and its exit codes are left out.
- `getEvent` ignores its argument and is not used by the engine, so it is not modelled.
- Text.PhpIntval: the numeral's exact decimal value is truncated. PHP converts a numeral with a point or an exponent through a double first, so one with more than about 15 significant digits may land on a neighbouring integer. A numeral beyond the double range, such as `1e400`, reads as 0 in PHP; the model saturates it.
- EventosEndpoint.Offset: the offset is exact only while (page − 1) · limit ≤ 2^63 − 1. A larger page, such as the saturated `(int)` of a huge `page` parameter, makes PHP's integer product overflow to a float before `bindValue`; the model does not follow that conversion.
- EventosEndpoint.CacheKey: the key is `eventos:` followed by the JSON text of the five parameters; the md5 digest is left out.
- EventosEndpoint.HandleRequest: whether `Database::getInstance()` connects is the input `dbUp`, and the database's answer to the listing and count queries is the input `answer`. The query texts are built by SelectSql and CountSql, and their exact whitespace is not reproduced. `pages` is an integer ceiling, where PHP computes a float.
- LogsEndpoint.Respond: the output of `tail` and the file system are inputs, and `date()` is the `timestamp` parameter. The catch-all 500 of logs.php guards nothing the model can raise, so it is left out.
- Dashboard.Key: `toLowerCase` is modelled for the Basic Latin and Latin-1 capitals only; other scripts keep their case. In a comparison of a string with a number, Number() is modelled for integer numerals; a string such as "1.5", "1e3" or "0x10" is read as NaN, where JavaScript reads a number.
- Dashboard.SortEventsSorted: `Array.prototype.sort` is modelled as a stable insertion sort on a copy. Sortedness is proved for columns whose values are all text or all numbers. On a mixed column, JavaScript's `<` is not a consistent order and the result depends on the engine.
- The dashboard's locale date formatting is the `formatDate` parameter; `toLocaleString`, the DOM, `fetch`, `alert`, the Blob download and the chart sizes are left out.
- JavaScript strings are sequences of UTF-16 code units, and PHP's `mb_substr` counts code points. Both are modelled as sequences of characters.
- api/sync.php, api/stats.php, api/selos.php, cron/sync_eventos.php and cron/benchmark_sync.php are request and command-line glue. The 409 check of api/sync.php is the predicate SyncEngine.SyncRefused.
- The engine writes each event with statements of its own, inside a per-event `try`; it uses no batches and no transactions. Language names are looked up in the table on every use. No link between seals and events is written. An event's dates are `startsOn` and `endsOn` of its first occurrence.
- The seal script looks a seal that has an external id up by that id only; the name is used only for a seal without one.
