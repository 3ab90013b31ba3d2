# Verified models of the shared libraries

The monorepo is a set of small TypeScript libraries. This project models the algorithms in them that carry
real invariants, one Dafny module each, and proves what callers rely on. Pure code is modelled by datatypes,
functions and lemmas; code that updates fields or runs loops is modelled by classes and methods, each proved
against a function of its inputs and old state, and the properties are then lemmas about that function.
I/O, clocks and randomness are parameters: an outcome per attempt, a shared store with a clock, the number a
random source returned. Statements are over all inputs or all runs; where the code misses a property on some
inputs there is a lemma with such an input and a lemma saying exactly when the property holds.

| file | what it models |
|---|---|
| `BulkUpdate.dfy` | many keyed updates compiled into one `UPDATE ... FROM (VALUES ...)`, and the meaning of that statement |
| `SseStream.dfy` | the incremental Server-Sent Events reader, over any chunking |
| `SnapshotDiff.dfy` | the recursive schema differ, its deep equality, and the path printer |
| `PeriodicLock.dfy` | the single-consumer lease of periodic jobs, over all interleavings of any number of instances |
| `ContractResponses.dfy` | the server's and the client's response lookups and the SSE schema lookup |
| `ODataFilter.dfy`, `ODataExtract.dfy` | the filter transformation with a three-valued meaning; flattening, index, extraction |
| `CursorCodec.dfy`, `Pagination.dfy` | base64url cursors (sections 4, 5 and 10 of RFC 4648); collecting all pages |
| `HttpRetry.dfy`, `Polling.dfy`, `TransactionRetry.dfy` | three retry loops over all outcome sequences |
| `MysqlCatalog.dfy` | index and foreign-key snapshots accumulated from catalogue rows |
| `NtcRegions.dfy` | the lazy non-translatable-region pattern and the operations and counts built on it |
| `JsText.dfy`, `LexOrder.dfy`, `SeqFacts.dfy` | shared string operations, the default sort order, sequence facts |

Where comments and code disagree the model follows the code. The polling strategy's comment says a delay is
always positive; it can be 0 (`Polling.DelayCanBeZero`, and `Polling.DelayIsAlwaysPositiveIff` says when not).
The lock configuration's comment gives twice the interval as the default lease; with a cron schedule, or an
interval of 0, it is 120000 ms (`PeriodicLock.DefaultLeaseIsTwiceTheInterval`).

The delay function of the retry client always receives the number of the retry it is asked about, as its comment says
(`HttpRetry.DelayIsAskedAbout`), but the numbers need not be consecutive: a retry on a `Retry-After` header is
skipped (`HttpRetry.RetryAfterSkipsANumber`), which the default configuration allows
(`HttpRetry.AlwaysCountsUpIff` says which configurations do not).

Status keys, media types and SQL identifiers are plain strings.

## Model

| member | source | states |
|---|---|---|
| BulkUpdate.CompileAcceptsExactly | packages/app/prisma-utils/src/bulk-update/prismaBulkUpdate.ts:84-142 | the guards accept an entry list if and only if it is within the limits, non-empty in where and data, typed, where/data-disjoint, and every entry has the columns of the first; the accepted list compiles to aligned columns and rows |
| BulkUpdate.PrepareSpec | packages/app/prisma-utils/src/bulk-update/prismaBulkUpdate.ts:181-220 | the length and presence checks of one entry succeed if and only if its where and defined data columns are exactly those of the first entry |
| BulkUpdate.ShapeErrorNamesFirstMisfit | packages/app/prisma-utils/src/bulk-update/prismaBulkUpdate.ts:140-142 | a shape error carries the index of the first entry that deviates |
| BulkUpdate.SameLengthAndPresence | packages/app/prisma-utils/src/bulk-update/prismaBulkUpdate.ts:187-198 | equal length plus presence of every expected key forces equal key sets |
| BulkUpdate.BoundCells | packages/app/prisma-utils/src/bulk-update/prismaBulkUpdate.ts:119-126 | the VALUES list has exactly entries times columns bound cells, at most 65535 |
| BulkUpdate.CompiledCells | packages/app/prisma-utils/src/bulk-update/prismaBulkUpdate.ts:136-146 | the aliases are the where keys of the first entry and then its defined data names; each row holds its own entry's values under them, null as SQL NULL whatever the type, any other value cast to the column type and JSON only for json and jsonb |
| BulkUpdate.CompileErrorsTell | packages/app/prisma-utils/src/bulk-update/prismaBulkUpdate.ts:86-126 | each error says what is wrong with the entries: none, more than 1000, a column without a type, no where or data columns, an undefined where value, an overlap, more than 65535 parameters, or how an entry deviates |
| BulkUpdate.RowJoinsExactly | packages/app/prisma-utils/src/bulk-update/prismaBulkUpdate.ts:154-158 | a VALUES row joins a table row if and only if each of its entry's where values is in its column, rendered and cast; an entry with a null where value joins nothing |
| BulkUpdate.RowStoresExactly | packages/app/prisma-utils/src/bulk-update/prismaBulkUpdate.ts:144-152 | a joined row stores SQL NULL for data given as null, the cast value for a value, and what it had in every other column |
| BulkUpdate.JoinsIsMatches | packages/app/prisma-utils/src/bulk-update/prismaBulkUpdate.ts:148-158 | a VALUES row joins a table row if and only if the entry it came from matches that row by its own where record, null never matching |
| BulkUpdate.AssignIsUpdated | packages/app/prisma-utils/src/bulk-update/prismaBulkUpdate.ts:136-146 | the SET list, read through the column aliases, writes exactly the entry's defined data values |
| BulkUpdate.MatchSurvivesUpdate | packages/app/prisma-utils/src/bulk-update/prismaBulkUpdate.ts:110-117 | because where and data columns are disjoint, applying one entry changes no entry's match |
| BulkUpdate.BulkMeansSequential | packages/app/prisma-utils/src/bulk-update/prismaBulkUpdate.ts:152-159 | with distinct where tuples, the only table the single statement can produce is the one the entries leave when applied one at a time, in any order |
| BulkUpdate.BulkIsSequentialIffConsistent | packages/app/prisma-utils/src/bulk-update/prismaBulkUpdate.ts:152-159 | for any accepted list, repeated where tuples included, the statement has one outcome on every table, and means the updates in every order, if and only if entries with equal null-free where tuples write equal values |
| SseStream.SseParser.constructor | packages/app/frontend-http-client/src/utils/sseUtils.ts:7-8 | a new parser has the default event name and no data |
| SseStream.SseParser.ProcessLine | packages/app/frontend-http-client/src/utils/sseUtils.ts:10-32 | the fields and the yielded event after one line, as a function of the old fields |
| SseStream.ProcessLines | packages/app/frontend-http-client/src/utils/sseUtils.ts:55-60 | feeding completed lines folds them over the parser state in order |
| SseStream.ParseSseStream | packages/app/frontend-http-client/src/utils/sseUtils.ts:35-65 | for every cut into chunks the events are those of the complete lines of the text read, and the buffer its unfinished tail: of all chunks when not aborted, of the first k when aborted after k; emitted frames come out as the emitted events, all of them when not aborted |
| SseStream.BlockMeaning | packages/app/frontend-http-client/src/utils/sseUtils.ts:11-31 | a block of lines ended by a blank one is one event with the last event name and the newline-joined data, leading empty data dropped; without data it yields nothing and the name stays pending |
| JsText.TrimDropsSpaceOnly | packages/app/frontend-http-client/src/utils/sseUtils.ts:13-18 | trimming drops white space at the two ends, all of it and nothing else |
| JsText.SplitJoins | packages/app/frontend-http-client/src/utils/sseUtils.ts:52-53 | joining the pieces of a split gives the text back |
| SseStream.LaterTextOnlyAppends | packages/app/frontend-http-client/src/utils/sseUtils.ts:48-60 | reading further text only appends events |
| SseStream.YieldedEventsAreClean | packages/app/frontend-http-client/src/utils/sseUtils.ts:12-25 | every yielded event has a trimmed one-line name and non-empty data |
| SseStream.EmittedFramesRoundTrip | packages/app/universal-testing-utils/src/MswHelper.ts:685-689 | a sequence of emitted frames with trimmed one-line names and non-empty trimmed one-line data parses to exactly the emitted events, nothing pending |
| SseStream.EmittedEventsUnderAnyChunking | packages/app/universal-testing-utils/src/MswHelper.ts:685-689 | under any chunking the chunks read so far give a prefix of the emitted events, and all chunks give all events |
| SseStream.FrameRoundTripsExactly | packages/app/universal-testing-utils/src/MswHelper.ts:686-687 | a frame comes back as its event if and only if name and data are trimmed, one-line and the data non-empty |
| SnapshotDiff.DeepEqual | packages/app/drizzle-utils/src/diffSchemaSnapshots.ts:106-111 | deep equality holds if and only if the values are the same value |
| SnapshotDiff.DeepEqualObjects | packages/app/drizzle-utils/src/diffSchemaSnapshots.ts:113-123 | the sorted key walk decides equality of objects |
| SnapshotDiff.DeepEqualArrays | packages/app/drizzle-utils/src/diffSchemaSnapshots.ts:125-131 | the index walk decides equality of arrays |
| SnapshotDiff.DiffValue | packages/app/drizzle-utils/src/diffSchemaSnapshots.ts:34-58 | appends to the shared list exactly the differences of the two values, printed under the given path |
| SnapshotDiff.DiffObjects | packages/app/drizzle-utils/src/diffSchemaSnapshots.ts:60-84 | the same for two objects, key by sorted key |
| SnapshotDiff.DiffArrays | packages/app/drizzle-utils/src/diffSchemaSnapshots.ts:86-97 | two arrays are one change or none |
| SnapshotDiff.DiffSchemaSnapshots | packages/app/drizzle-utils/src/diffSchemaSnapshots.ts:28-32 | `equal` if and only if the snapshots are the same value |
| SnapshotDiff.EmptyIffEqual | packages/app/drizzle-utils/src/diffSchemaSnapshots.ts:34-58 | no difference is reported if and only if the values are equal |
| SnapshotDiff.DifferencesDescribe | packages/app/drizzle-utils/src/diffSchemaSnapshots.ts:47-57 | each difference carries the two values found at its key path, and its kind tells which is missing |
| SnapshotDiff.PatchIsComplete | packages/app/drizzle-utils/src/diffSchemaSnapshots.ts:60-84 | applying the differences to `before` gives `after` if and only if no object key turns into an own undefined |
| SnapshotDiff.OwnUndefinedIsLost | packages/app/drizzle-utils/src/diffSchemaSnapshots.ts:52-55 | an input on which the patch is not complete |
| SnapshotDiff.PathsArePrefixFree | packages/app/drizzle-utils/src/diffSchemaSnapshots.ts:66-83 | no reported key path is a prefix of another |
| SnapshotDiff.DifferencesInOrder | packages/app/drizzle-utils/src/diffSchemaSnapshots.ts:66-67 | differences are reported in ascending order of their paths, by the default sort order |
| LexOrder.StrLeqIsLexicographic | packages/app/drizzle-utils/src/diffSchemaSnapshots.ts:66-67 | that order puts a prefix first, and else lets the first differing unit decide |
| SnapshotDiff.PathsAreWritten | packages/app/drizzle-utils/src/diffSchemaSnapshots.ts:133-144 | a key is written after a dot, or in brackets and quotes when it has a dot or a space |
| SnapshotDiff.RenderInjective | packages/app/drizzle-utils/src/diffSchemaSnapshots.ts:133-144 | two lists of non-empty keys free of brackets, double quotes and backslashes print alike only if equal |
| SnapshotDiff.UncleanKeysCollide | packages/app/drizzle-utils/src/diffSchemaSnapshots.ts:133-144 | two paths that print alike when a key has brackets |
| SnapshotDiff.ReportedPathsAreDistinct | packages/app/drizzle-utils/src/diffSchemaSnapshots.ts:69-82 | with such keys no two reported differences share a path string |
| PeriodicLock.LockStore.TryAcquire | packages/app/background-jobs-common/src/periodic-jobs/AbstractPeriodicJob.ts:244-248 | takes the key if and only if no unexpired lease exists |
| PeriodicLock.LockStore.TryRefresh | packages/app/background-jobs-common/src/periodic-jobs/AbstractPeriodicJob.ts:251-258 | extends the lease if and only if this identity holds it |
| PeriodicLock.PeriodicJob.TryFresh | packages/app/background-jobs-common/src/periodic-jobs/AbstractPeriodicJob.ts:243-248 | first acquisition attempt of a run |
| PeriodicLock.PeriodicJob.TryRefresh | packages/app/background-jobs-common/src/periodic-jobs/AbstractPeriodicJob.ts:250-265 | second attempt as the same identity; the run is skipped when it fails |
| PeriodicLock.PeriodicJob.UpdateLockPostExecution | packages/app/background-jobs-common/src/periodic-jobs/AbstractPeriodicJob.ts:203-217 | shortens the lease to the post-execution time, if still held, and ends the run |
| PeriodicLock.PeriodicJob.Dispose | packages/app/background-jobs-common/src/periodic-jobs/AbstractPeriodicJob.ts:140-143 | releases the key if this identity holds it |
| PeriodicLock.StepKeepsRunnersHolding | packages/app/background-jobs-common/src/periodic-jobs/AbstractPeriodicJob.ts:147-217 | a step preserves "whoever runs holds the unexpired lease" if and only if time does not run past a running holder's lease and nobody is disposed of mid-run |
| PeriodicLock.AtMostOneRunsFromStart | packages/app/background-jobs-common/src/periodic-jobs/AbstractPeriodicJob.ts:147-217 | in every such run of any number of instances at most one executes at a time |
| PeriodicLock.OthersLeaseIsUntouched | packages/app/background-jobs-common/src/periodic-jobs/AbstractPeriodicJob.ts:268-294 | no action of one identity, the shrink included, changes a lease another identity holds |
| PeriodicLock.PostLeaseProtectsFromOthers | packages/app/background-jobs-common/src/periodic-jobs/AbstractPeriodicJob.ts:203-217 | after a run ends no other executor runs before the post-execution lease is over, unless the executor is disposed of |
| PeriodicLock.OthersStartAfterReserve | packages/app/background-jobs-common/src/periodic-jobs/AbstractPeriodicJob.ts:203-217 | after a run that held the key, an idle instance can start if and only if lockTimeoutAfterSuccess, else the interval, else 120 seconds have passed |
| PeriodicLock.OthersStartAfterLease | packages/app/background-jobs-common/src/periodic-jobs/AbstractPeriodicJob.ts:50-58 | after a start or refresh, an idle instance can start if and only if the lock timeout, else two non-zero intervals, else 120 seconds have passed |
| PeriodicLock.HolderRunsAgain | packages/app/background-jobs-common/src/periodic-jobs/AbstractPeriodicJob.ts:250-258 | an instance still holding the key gets to run again by the second attempt |
| PeriodicLock.ViolationBreaksExclusion | packages/app/background-jobs-common/src/periodic-jobs/AbstractPeriodicJob.ts:147-217 | after a step that leaves one instance running, an idle one starting makes two run at once if and only if the step let the lease run out or disposed of the running instance |
| PeriodicLock.FirstBreachBreaksExclusion | packages/app/background-jobs-common/src/periodic-jobs/AbstractPeriodicJob.ts:147-217 | the same from the initial state after every history that kept the two assumptions |
| PeriodicLock.LateRefreshBreaksExclusion | packages/app/background-jobs-common/src/periodic-jobs/AbstractPeriodicJob.ts:250-258 | a run with a late refresh in which two instances execute at once |
| PeriodicLock.DisposeMidRunBreaksExclusion | packages/app/background-jobs-common/src/periodic-jobs/AbstractPeriodicJob.ts:140-143 | a run with a mid-run dispose in which two instances execute at once |
| ContractResponses.RangeKeysAgree | packages/app/api-contracts/src/new/contractResponse.ts:287-294 | the client's range key by intervals is the server's by division |
| ContractResponses.GetSseSelections | packages/app/fastify-api-contracts/src/api-contracts/buildFastifyApiRoute.ts:89-104 | the nested loops collect every SSE descriptor with its status key and media type, in order |
| ContractResponses.SelectionsExactly | packages/app/fastify-api-contracts/src/api-contracts/buildFastifyApiRoute.ts:89-104 | the collected selections are exactly the declared SSE bodies, each once |
| ContractResponses.ClientEntry | packages/app/api-contracts/src/new/contractResponse.ts:301-326 | the client's exact, range, default lookup finds the entry the server's does |
| ContractResponses.StatusTextSpells | packages/app/api-contracts/src/new/contractResponse.ts:307-310 | exactly one key spells a status: its decimal numeral without leading zeros |
| ContractResponses.EntryIsFound | packages/app/api-contracts/src/new/contractResponse.ts:301-326 | both lookups find the entry of the key that spells the status, else of its range key, else of "default" |
| ContractResponses.ServerAnswers | packages/app/fastify-api-contracts/src/api-contracts/buildFastifyApiRoute.ts:137-180 | the server's answer, from the entry for the status, in every case of every handler result |
| ContractResponses.UndeclaredStatusIsRejected | packages/app/fastify-api-contracts/src/api-contracts/buildFastifyApiRoute.ts:137-160 | a status is rejected if and only if the contract has no such entry |
| ContractResponses.ClientReads | packages/app/api-contracts/src/new/contractResponse.ts:224-278 | what the strict client reads from the entry for the status: JSON for its media type, a declared body's own kind, or no content |
| ContractResponses.AcceptedResultSelects | packages/app/fastify-api-contracts/src/api-contracts/buildFastifyApiRoute.ts:137-180 | every accepted handler result selects a definite kind, is marked SSE exactly when that kind is, and is body-less only for a null body |
| ContractResponses.AgreementIff | packages/app/api-contracts/src/new/contractResponse.ts:224-252 | for one status, strict client and server agree on all accepted results and headers if and only if declared media types equal after normalisation have bodies of one kind |
| ContractResponses.JsonSpellingsDisagree | packages/app/api-contracts/src/new/contractResponse.ts:224-252 | a contract declaring two spellings of JSON on which client and server disagree |
| ContractResponses.ServerAndClientAgree | packages/app/fastify-api-contracts/src/api-contracts/buildFastifyApiRoute.ts:137-180 | with media types distinct after normalisation the strict client reads exactly the kind the server selected |
| ContractResponses.NonStrictExtendsStrict | packages/app/api-contracts/src/new/contractResponse.ts:248-252 | the non-strict client reads what the strict one reads, else the entry's only descriptor |
| ContractResponses.NormalizationIgnoresCaseAndParameters | packages/app/api-contracts/src/new/contractResponse.ts:195-196 | letter case and appended parameters do not change the normalised media type |
| ContractResponses.NormalFormIsKept | packages/app/api-contracts/src/new/contractResponse.ts:195-196 | a trimmed lower-case media type without parameters is its own normal form |
| ContractResponses.FindInContract | packages/app/fastify-api-contracts/src/api-contracts/sseUtils.ts:103-108 | searching the collected selections is looking up status key and media type in the contract |
| ContractResponses.SseSelectionIsTheSelectedDescriptor | packages/app/fastify-api-contracts/src/api-contracts/sseUtils.ts:79-116 | whenever a handler result selects an SSE representation, starting the session succeeds with the event schemas of that very descriptor |
| ContractResponses.SseSessionStarts | packages/app/fastify-api-contracts/src/api-contracts/sseUtils.ts:79-116 | every outcome of starting a session for a numeric status: none declared, the only one, incomplete selection, the one by exact key, range key or default, or undeclared |
| ODataFilter.FieldPathRoundTrip | packages/app/odata-mapper/src/filterTransformer.ts:50-55 | splitting a printed field path at slashes gives back its names |
| ODataFilter.BindsResolve | packages/app/odata-mapper/src/bindResolver.ts:9-37 | a bind resolves to what it stands for by its tag: the raw value for Text, Real, Boolean, Duration and lists, null for Null, a moment for Date and Date Time; a missing one is invalid |
| ODataFilter.BoundComparison | packages/app/odata-mapper/src/filterTransformer.ts:157-183 | the whole outcome of comparing a field with a reference, for every bind there may be |
| ODataFilter.UnknownIsRejected | packages/app/odata-mapper/src/filterTransformer.ts:349-379 | operators and functions outside the known ones are rejected as such |
| ODataFilter.InValuesAreListed | packages/app/odata-mapper/src/filterTransformer.ts:188-217 | the extracted members of an in-list are exactly the values it lists, for references, a bound list of typed tuples or plain values, and a single value |
| ODataFilter.ExtractedItems | packages/app/odata-mapper/src/bindResolver.ts:112-124 | a bound list of tuples or of plain values is unwrapped item by item |
| ODataFilter.ComparisonKeepsMeaning | packages/app/odata-mapper/src/filterTransformer.ts:157-183 | a comparison keeps its meaning, with the field on either side for eq and ne |
| ODataFilter.StringFunctionKeepsMeaning | packages/app/odata-mapper/src/filterTransformer.ts:222-308 | a string function in regular argument order keeps its meaning, substringof included |
| ODataFilter.TransformKeepsMeaning | packages/app/odata-mapper/src/filterTransformer.ts:349-379 | every regular tree is transformed and has, on every row, the same three-valued truth as its transformation |
| ODataFilter.ReversedKeepsMeaningIff | packages/app/odata-mapper/src/filterTransformer.ts:157-183 | gt, ge, lt and le with the value on the left and the field on the right keep their meaning on every row if and only if the value is null or the order has every non-null value on both sides of it or on neither |
| ODataFilter.ReversedOrderIsNotFlipped | packages/app/odata-mapper/src/filterTransformer.ts:170-172 | an input outside the regular trees whose meaning changes |
| ODataExtract.CreateFilterMap | packages/app/odata-mapper/src/filterExtractor.ts:233-257 | the index has exactly the non-empty filtered names, each with the field scan's filters in order |
| ODataExtract.GetFilteredFieldNames | packages/app/odata-mapper/src/filterExtractor.ts:189-205 | lists each field with a filter exactly once |
| ODataExtract.FlattenedAreLeaves | packages/app/odata-mapper/src/filterExtractor.ts:17-25 | flattening leaves no logical and no negation node |
| ODataExtract.FlattenedExactly | packages/app/odata-mapper/src/filterExtractor.ts:17-25 | flattening lists exactly the leaves, at any depth and under negation |
| ODataExtract.FlattenedInOrder | packages/app/odata-mapper/src/filterExtractor.ts:17-25 | in the order in which they are written |
| ODataExtract.CollectedConjunction | packages/app/odata-mapper/src/filterExtractor.ts:211-216 | the collected filters, conjoined, mean the filter, and none is a conjunction |
| ODataExtract.CollectedDisjunction | packages/app/odata-mapper/src/filterExtractor.ts:222-227 | the collected filters, disjoined, mean the filter, and none is a disjunction |
| ODataExtract.AcceptedMeaning | packages/app/odata-mapper/src/filterExtractor.ts:93-108 | a filter combining (in)equalities and lists on one field by and, or and not is satisfied by a row if and only if the field's value is in the value set computed from its leaves |
| ODataExtract.SatisfyingValuesAreExtracted | packages/app/odata-mapper/src/filterExtractor.ts:93-108 | for every such filter, empty conjunctions included, all satisfying rows have their value extracted if and only if that set is finite and each of its values is written in the first list among the leaves or, where no leaf is a list, in an equality leaf |
| ODataExtract.ExtractedIsWritten | packages/app/odata-mapper/src/filterExtractor.ts:68-108 | the extracted values are exactly those written there |
| ODataExtract.ListHidesEqualities | packages/app/odata-mapper/src/filterExtractor.ts:93-108 | an input whose list hides a value accepted by an equality beside it |
| ODataExtract.EqualitiesAreExtracted | packages/app/odata-mapper/src/filterExtractor.ts:93-108 | for equalities on one field under disjunctions and non-empty conjunctions every satisfying row has its value among the extracted ones |
| ODataExtract.EmptyConjunctionYieldsNothing | packages/app/odata-mapper/src/filterExtractor.ts:93-108 | why conjunctions must be non-empty there |
| ODataExtract.TransformerBuildsNonEmptyLogic | packages/app/odata-mapper/src/filterTransformer.ts:314-328 | the transformer only builds logical nodes with operands |
| CursorCodec.BytesOfSextets | packages/app/api-common/src/cursorCodec.ts:29-37 | regrouping bytes into sextets loses nothing |
| CursorCodec.Base64RoundTrip | packages/app/api-common/src/cursorCodec.ts:26-28 | padded base64 of any bytes decodes to them |
| CursorCodec.CodecRoundTrip | packages/app/api-common/src/cursorCodec.ts:19-40 | in atob/btoa mode exactly the Latin-1 strings are encoded, into unpadded URL-safe characters, and decoded back, the padding added being exactly the one stripped |
| CursorCodec.ModesAgreeOnAsciiOnly | packages/app/api-common/src/cursorCodec.ts:31-40 | the two modes encode a Latin-1 string alike if and only if it is ASCII |
| CursorCodec.Utf8DecodesExactly | packages/app/api-common/src/cursorCodec.ts:20-21 | bytes decode to a string if and only if they are its UTF-8 encoding |
| CursorCodec.BufferRoundTrip | packages/app/api-common/src/cursorCodec.ts:19-34 | in Buffer mode every string is decoded from its URL-safe encoding |
| CursorCodec.CrossModeIsAsciiOnly | packages/app/api-common/src/cursorCodec.ts:19-40 | what one mode encodes the other decodes back if and only if the string is ASCII, in both directions |
| CursorCodec.Rfc4648Vectors | packages/app/api-common/src/cursorCodec.ts:36-39 | test vectors of section 10 of RFC 4648, and one with both URL-safe signs |
| CursorCodec.AlphabetIs | packages/app/api-common/src/cursorCodec.ts:36-39 | the alphabet of section 4 of RFC 4648, in order, each character read as its own value |
| CursorCodec.Utf8Vectors | packages/app/api-common/src/cursorCodec.ts:31-33 | UTF-8 of characters of one to four bytes |
| Pagination.Pick | packages/app/api-common/src/paginationUtils.ts:4-19 | copies exactly the named properties that exist |
| Pagination.GetMetaForNextPage | packages/app/api-common/src/paginationUtils.ts:23-52 | count, cursor of the last kept item and hasMore, for every cursor specification and error case |
| Pagination.CreatePaginatedResponse | packages/app/api-common/src/paginationUtils.ts:91-100 | the page cut to the limit with the metadata of its last item; its cursor is that item's id, the value of the single key, the encoding of exactly the named properties, or what the builder says |
| Pagination.ApiCall | packages/app/api-common/src/paginationUtils.ts:91-100 | a backend fetching one item more than the limit answers the page at the position after the cursor, for any items and cursors |
| Pagination.GetPaginatedEntries | packages/app/api-common/src/paginationUtils.ts:121-139 | for every backend on which collecting stops, what is returned or thrown and after how many calls; it is exactly the items after the start cursor if and only if every page but the last ends in an item whose cursor exists, is not empty and belongs to no earlier item |
| Pagination.CollectsSuffixIff | packages/app/api-common/src/paginationUtils.ts:121-139 | the same condition decides whether collecting stops with exactly those items at all |
| Pagination.AlignedCollects | packages/app/api-common/src/paginationUtils.ts:121-139 | under it collecting stops with them after just the calls needed |
| Pagination.PagesAreRoundedUp | packages/app/api-common/src/paginationUtils.ts:127-136 | those are max(1, ceil(n / limit)) |
| Pagination.GoodCursorsCollect | packages/app/api-common/src/paginationUtils.ts:121-139 | existing, non-empty, pairwise distinct cursors meet it for every start and page size |
| Pagination.DistinctIdsCollect | packages/app/api-common/src/paginationUtils.ts:121-139 | over a list with distinct non-empty ids and the default cursor, collecting stops in max(1, ceil(n / limit)) calls with all items from its start on, in order |
| Pagination.StartsAfterId | packages/app/api-common/src/paginationUtils.ts:121-130 | without a cursor the list starts at its first item, after an item's id at the next one |
| Pagination.StopsWithin | packages/app/api-common/src/paginationUtils.ts:127-136 | collecting stops if and only if it does within one call more than there are items |
| Pagination.StopsEverywhereIff | packages/app/api-common/src/paginationUtils.ts:127-136 | it stops for every start and page size if and only if every item but the last has a non-empty cursor that no earlier item has |
| Pagination.MissingIdNeverStops | packages/app/api-common/src/paginationUtils.ts:127-136 | a backend whose items have no id, on which it never stops |
| HttpRetry.WithRetry | packages/app/backend-http-client/src/api-contract/retry.ts:191-246 | outcome and event log of the loop, as a function of the configuration and the outcomes |
| HttpRetry.OneAttempt | packages/app/backend-http-client/src/api-contract/retry.ts:199-245 | whether one attempt ends the loop, and what it does |
| HttpRetry.AttemptsAreBounded | packages/app/backend-http-client/src/api-contract/retry.ts:196-200 | attempts are numbered consecutively, at most maxRetries + 1 and at least one |
| HttpRetry.NextAttemptIff | packages/app/backend-http-client/src/api-contract/retry.ts:196-244 | there is a next attempt if and only if retries are left, the outcome is one the configuration retries, the delay is known and the pause undisturbed |
| HttpRetry.LastAttemptDecides | packages/app/backend-http-client/src/api-contract/retry.ts:196-246 | how a run ends is decided by its last attempt: returned, rethrown, delay function thrown, wait aborted or dump failed |
| HttpRetry.WaitIsChosen | packages/app/backend-http-client/src/api-contract/retry.ts:158-176 | a wait is the Retry-After value, if it counts, else the configured delay, with its random part of the jitter, capped |
| HttpRetry.ResponsesAreAccounted | packages/app/backend-http-client/src/api-contract/retry.ts:229-244 | a response is returned with its body left alone, or its body is dumped exactly once, if and only if its attempt ends the loop or its delay can be computed |
| HttpRetry.NothingLeaks | packages/app/backend-http-client/src/api-contract/retry.ts:229-244 | no run loses a response body if and only if no status is retried or the delay function throws for none of the retries 1 to maxRetries |
| HttpRetry.ThrowingDelayLeaks | packages/app/backend-http-client/src/api-contract/retry.ts:230-233 | a throwing delay function that loses a body |
| HttpRetry.WaitsAreBounded | packages/app/backend-http-client/src/api-contract/retry.ts:158-160 | every wait is positive and at most maxDelay, never follows the last attempt, and is followed by an attempt unless the wait is aborted or the dump beside it rejects |
| HttpRetry.DelayIsAskedInOrder | packages/app/backend-http-client/src/api-contract/retry.ts:162-176 | the delay function sees strictly increasing numbers |
| HttpRetry.DelayIsAskedAbout | packages/app/backend-http-client/src/api-contract/retry.ts:162-176 | it is asked about exactly the retried attempts without a Retry-After value |
| HttpRetry.AlwaysCountsUpIff | packages/app/backend-http-client/src/api-contract/retry.ts:162-176 | the delay function sees 1, 2, 3, ... in every run if and only if the configuration ignores Retry-After, retries no status, or allows one retry at most |
| HttpRetry.DelayCountsUp | packages/app/backend-http-client/src/api-contract/retry.ts:162-176 | in one run it does if and only if no attempt retried on its Retry-After value precedes one it is asked about |
| HttpRetry.DelayCountsUpWithoutHeader | packages/app/backend-http-client/src/api-contract/retry.ts:162-176 | in particular without Retry-After handling, or when no header arrives |
| HttpRetry.RetryAfterSkipsANumber | packages/app/backend-http-client/src/api-contract/retry.ts:162-176 | a run in which it sees 2 only |
| HttpRetry.ReturnedRetryableIsLast | packages/app/backend-http-client/src/api-contract/retry.ts:229-244 | a returned retryable status implies that the retries were used up |
| Polling.DelayInRange | packages/app/polling/src/strategies/ExponentialBackoffStrategy.ts:185-196 | for every valid configuration a wait lies in [0, maxDelayMs] and within jitter and rounding of the base delay |
| Polling.DelayIsNearest | packages/app/polling/src/strategies/ExponentialBackoffStrategy.ts:185-196 | a wait is the base delay moved by the random part of the jitter factor (0.2 by default), rounded to the nearest integer, or the cap |
| Polling.BaseDelaysMultiply | packages/app/polling/src/strategies/ExponentialBackoffStrategy.ts:186-189 | base delays start with the initial one and are each the one before times the multiplier, capped |
| Polling.DelayIsAlwaysPositiveIff | packages/app/polling/src/strategies/ExponentialBackoffStrategy.ts:185-196 | a wait is positive for every random number if and only if the base delay less half its jitter is at least half a millisecond |
| Polling.DelayCanBeZero | packages/app/polling/src/strategies/ExponentialBackoffStrategy.ts:194-195 | a valid configuration that can wait 0 |
| Polling.BaseDelaysGrow | packages/app/polling/src/strategies/ExponentialBackoffStrategy.ts:186-189 | base delays never decrease when the multiplier is at least 1 |
| Polling.ExponentialBackoffStrategy.Create | packages/app/polling/src/strategies/ExponentialBackoffStrategy.ts:36-90 | a strategy is created exactly for configurations within the documented ranges; any other is rejected as INVALID_CONFIG with no attempt made |
| Polling.ExponentialBackoffStrategy.Execute | packages/app/polling/src/strategies/ExponentialBackoffStrategy.ts:92-183 | ending and hook log of a run |
| Polling.HookGrammar | packages/app/polling/src/strategies/ExponentialBackoffStrategy.ts:98-133 | every run, one aborted at the start included, is incomplete attempts each followed by one wait, and then one of four endings |
| Polling.BlocksAt | packages/app/polling/src/strategies/ExponentialBackoffStrategy.ts:103-123 | the events of each incomplete attempt, in their places, and what its wait is |
| Polling.RunEndsAt | packages/app/polling/src/strategies/ExponentialBackoffStrategy.ts:92-183 | which attempt ends a run, and how, if and only if what happens around the attempts says so |
| Polling.OneTerminalHook | packages/app/polling/src/strategies/ExponentialBackoffStrategy.ts:98-183 | at most maxAttempts polls; unless a poll throws, exactly one of onSuccess and onFailure fires, last, with the number of polls; the ending is what the last poll said |
| TransactionRetry.PrismaTransaction | packages/app/prisma-utils/src/transaction/prismaTransaction.ts:43-75 | all tries but the last failed with a retriable code, and the last one did not or tries are used up; each wait doubles the one before, capped; each timeout is the one before, doubled and capped after a try that ran out of time |
| TransactionRetry.VerdictIs | packages/app/prisma-utils/src/transaction/prismaTransaction.ts:114-137 | retriable are the codes P2034, P1017 and P2028, and on CockroachDB the SQLSTATE 40001; more time is given for P2028 when the transaction was already closed |
| TransactionRetry.TimeoutClosedForm | packages/app/prisma-utils/src/transaction/prismaTransaction.ts:64-70 | after k >= 1 closed-transaction failures the timeout is min(t * 2^k, maxTimeout) |
| TransactionRetry.TotalWait | packages/app/prisma-utils/src/transaction/prismaTransaction.ts:104-112 | r waits add up to at most base * (2^r - 1) and at most r * maxDelay |
| MysqlCatalog.SplitInvertsJoin | packages/app/drizzle-utils/src/snapshot-schema/mysql.ts:333-339 | splitting inverts the key join if and only if table and index name are dot-free, whatever the schema name |
| MysqlCatalog.DottedNamesCollide | packages/app/drizzle-utils/src/snapshot-schema/mysql.ts:166-167 | two different triples with one key when names have dots |
| MysqlCatalog.AccumulateIndexRow | packages/app/drizzle-utils/src/snapshot-schema/mysql.ts:159-180 | the Map holds, per key in order of first occurrence, the attributes of its first row and the columns of all its rows |
| MysqlCatalog.LoadIndexesAndKeys | packages/app/drizzle-utils/src/snapshot-schema/mysql.ts:125-157 | the accumulate and apply loops compute the fold over the keys |
| MysqlCatalog.KeysFillSlots | packages/app/drizzle-utils/src/snapshot-schema/mysql.ts:182-196 | each index fills exactly its own primary key, unique constraint and index entry |
| MysqlCatalog.SortAscends | packages/app/drizzle-utils/src/snapshot-schema/mysql.ts:187-187 | sorting strictly orders columns with distinct sequence numbers |
| MysqlCatalog.ColumnsInSequenceOrder | packages/app/drizzle-utils/src/snapshot-schema/mysql.ts:182-196 | a loaded primary key, index or unique constraint lists all its columns, and only those, strictly by sequence number |
| MysqlCatalog.IndexSnapshotForgetsOrder | packages/app/drizzle-utils/src/snapshot-schema/mysql.ts:146-196 | any permutation of the catalogue rows gives the same tables |
| MysqlCatalog.AccumulateFkRow | packages/app/drizzle-utils/src/snapshot-schema/mysql.ts:256-283 | the same Map invariant for foreign keys |
| MysqlCatalog.LoadForeignKeys | packages/app/drizzle-utils/src/snapshot-schema/mysql.ts:209-254 | the foreign-key loops compute the fold over the keys |
| MysqlCatalog.KeysFillForeignKeys | packages/app/drizzle-utils/src/snapshot-schema/mysql.ts:241-253 | each constraint fills exactly its own entry |
| MysqlCatalog.ActionIs | packages/app/drizzle-utils/src/snapshot-schema/mysql.ts:256-283 | a referential action is one of the five, recognised in any letter case, and NO ACTION for anything else |
| MysqlCatalog.ForeignKeyColumnsInOrder | packages/app/drizzle-utils/src/snapshot-schema/mysql.ts:241-253 | the k-th column and referenced column of a loaded foreign key are the k-th pair by ordinal position |
| MysqlCatalog.ForeignKeySnapshotForgetsOrder | packages/app/drizzle-utils/src/snapshot-schema/mysql.ts:237-283 | any permutation of the catalogue rows gives the same foreign keys |
| NtcRegions.MatchEndSpec | packages/app/non-translatable-markup/src/methods/utils.ts:3-5 | the scanner finds the shortest match at a position, and none only when there is none |
| NtcRegions.RegionVectors | packages/app/non-translatable-markup/src/methods/utils.ts:3-8 | the tags are U+E101 and U+E102; a region holds at least one unit and no line terminator |
| NtcRegions.RegionsAreDisjoint | packages/app/non-translatable-markup/src/methods/utils.ts:3-8 | the regions found are matches of the pattern, ordered and disjoint |
| NtcRegions.EveryMatchIsInARegion | packages/app/non-translatable-markup/src/methods/utils.ts:3-8 | every place where the pattern can match starts inside a region |
| NtcRegions.RegExpG.Exec | packages/app/non-translatable-markup/src/methods/isAttemptToEditNonTranslatableContent.ts:36-39 | the next match from lastIndex, which moves past it or resets |
| NtcRegions.ExtractNTCTagsWithContent | packages/app/non-translatable-markup/src/methods/isAttemptToEditNonTranslatableContent.ts:33-43 | collects the texts of all regions and leaves the shared expression reset |
| NtcRegions.SortedEqualIffSameMultiset | packages/app/non-translatable-markup/src/methods/isAttemptToEditNonTranslatableContent.ts:21-28 | sorted lists are equal if and only if they have the same elements equally often |
| NtcRegions.IsAttemptToEditNonTranslatableContent | packages/app/non-translatable-markup/src/methods/isAttemptToEditNonTranslatableContent.ts:7-31 | false if and only if the two texts have equal multisets of regions |
| NtcRegions.TextIsWoven | packages/app/non-translatable-markup/src/methods/removeNonTranslatableTags.ts:6-7 | the pieces woven with the regions are the text, and woven with the region contents the text without tags |
| NtcRegions.TagsAreWoven | packages/app/non-translatable-markup/src/methods/extractTextBetweenTags.ts:34-35 | the pieces between HTML-like tags woven with the tags are the text, the tags are whole, and no piece contains one |
| NtcRegions.ExtractedPiecesAreClean | packages/app/non-translatable-markup/src/methods/extractTextBetweenTags.ts:27-40 | for all options no extracted piece is empty, none contains a region or tag that is not kept, and each is trimmed unless spacing is preserved |
| NtcRegions.ExtractedPiecesAreComplete | packages/app/non-translatable-markup/src/methods/extractTextBetweenTags.ts:27-40 | for all options the text is woven of pieces and of whole regions and tags that are not kept, and exactly those pieces are extracted, in order, trimmed unless spacing is preserved, without the empty ones |
| NtcRegions.CutLength | packages/app/non-translatable-markup/src/methods/extractTextBetweenTags.ts:31-33 | cutting drops exactly the regions |
| NtcRegions.TextsOfRegions | packages/app/non-translatable-markup/src/methods/extractTextBetweenTags.ts:31-33 | splitter and comparison see the same regions |
| NtcRegions.CountsAgree | packages/app/text-measure/src/methods/countCharacters.ts:29-47 | the default UTF-16 count is the length less two units per region, the other the length less the regions |
| NtcRegions.CodePointCounts | packages/app/text-measure/src/methods/countCharacters.ts:29-47 | the code point counts are the units of the same texts less one for every surrogate pair |

## Left out

- Compile: the SQL text, identifier quoting, the RETURNING clause, and property names inherited from `Object.prototype`; cell values are compared as bound and cast, not by the database's own equality of a type.
- ParseSseStream: byte decoding of the chunks (it starts from decoded text) and a consumer that stops the generator early.
- SnapshotDiff: NaN, negative zero and sparse arrays; shared references then make no difference to either function.
- StrLeq: compares characters, which differs from UTF-16 code units only between supplementary characters and those above U+D7FF.
- PeriodicJob: jobs without single-consumer mode, clock drift between instances, failing store calls, and the internals of the lock library; shortening the lease and stopping the refresh timer are one step.
- ResolveResponseRepresentation: non-integer status codes, and inherited property names as content types.
- NormalizeMediaType: lower-cases ASCII letters only.
- SSE route: `Accept` negotiation, header validation, and the streaming session after its schemas are chosen; `formatSseResponse`.
- TransformKeepsMeaning: field-to-field comparisons and swapped arguments of contains, startswith and endswith, which the code does not flip; no meaning is claimed for them. Reversed ordered comparisons have a condition of their own.
- ExtractBindTupleValues: a list mixing typed tuples with plain values is an error here, while the code takes the plain value apart as if it were a tuple.
- Atob: skips no ASCII whitespace and takes no unpadded text, neither of which the encoder produces.
- Base64urlToStringBuffer: gives no text for characters outside the alphabet, which the source skips, and for malformed UTF-8, where it puts replacement characters; JSON in cursors.
- Pagination: fractional limits, a list that changes between calls, and backends other than one that fetches after the first item with the cursor (and nothing for a cursor no item has).
- HttpRetry: parsing of the Retry-After header, NaN delays, an aborted fn call as such (it is one of the rejections), and anything about a pause beyond what rejects in it first.
- Polling: rounding of floating point other than the final Math.round, and hooks that throw.
- TransactionRetry: options set to undefined explicitly, and the recognition of errors beyond code, message and SQLSTATE.
- MysqlCatalog: column, table and check-constraint rows, which are plain copies, and the SQL that fetches the rows.
- CountCharacters: no closed form for code points in terms of the original text, since stripping a tag between two surrogates can make a pair.
- Deprecated contract builders, resolvers of cloud options, telemetry, metrics and authentication wrappers, and migration marking: plumbing that would add only easy members.
