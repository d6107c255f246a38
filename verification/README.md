# Verified models of Recat's protocols, parsers and limiters

This project models the parts of Recat whose correctness depends on whole runs, on arbitrary input
or on arbitrary interleavings, and proves what those parts promise. `dafny verify dfyconfig.toml`
checks everything.

| file | what it models |
|---|---|
| `Sequences.dfy` | split, join and concatenation, shared by the text components |
| `SseStream.dfy` | the streaming rewriter of `text/event-stream` responses, on UTF-16 code units |
| `RateLimit.dfy`, `RateLimitRuns.dfy` | the bounded fixed-window limiter, and its behaviour over whole runs |
| `TraceContext.dfy`, `Baggage.dfy`, `TraceCarrier.dfy` | reading and printing W3C trace context and baggage, and one hop of both |
| `TraceGrammar.dfy` | the grammars of those headers on characters and concatenations, and what the parsers and printers mean in terms of them |
| `DailyRun.dfy`, `PostingSweep.dfy` | the once-a-day claim and the stuck-POSTING sweep, as protocols of many instances |
| `Json.dfy`, `JsonWalk.dfy` | JSON trees, JSON in a possibly cyclic heap, and the bounded walk over it |
| `SchemaCount.dfy`, `BoundedInput.dfy` | the count of schema positions, and the bounded checks of schemas, bodies and tool calls |
| `Sanitizer.dfy` | the sanitizer of JSON-RPC responses |
| `TaxMutation.dfy` | the write lifecycle of a queue row: commit, undo, reconcile, resume, replay |
| `Salvage.dfy`, `RetryLoop.dfy`, `BodyReplay.dfy` | salvage of a model response, the retry loop, and the request guard of the extraction service |
| `SplitAmounts.dfy` | the arithmetic of a split transaction |

Code that updates state is modelled by classes and loops, each proved against a specification that
does not mention the updates: the rewriter against a split-map-join of the whole text, the limiter
against a least-recently-used cache around an ideal per-key limiter whose window is described by the
calls themselves, the header parsers against grammars, the walker against the tree the
heap unfolds to, the counter against a set of paths. Protocols with several actors are step
relations, and their theorems quantify over all runs.

Three results differ from what the surrounding text or a first reading suggests.

- `scheduler.ts` says that a daily job runs at most once per day. It does not: `FinishedDayFiresAgain`
  is a run in which a finished day is claimed again after another day's claim, and `OverrunFiresAgain`
  one in which a second instance claims the day while the first, past its 15-minute lease, is still
  at work. `DailyRun.FiresAgainIff` gives the exact condition for every run: a claimed day is claimed
  again if and only if some instance attempts it after another day's claim has landed, or when the
  lease is over and no completion has been recorded.
- A trace context does not always survive a hop: a baggage value is dropped when its re-encoding is
  longer than 256 characters. `TraceCarrier.RoundTrip` gives the exact condition and
  `TraceCarrier.LongValueIsLost` a value that is lost.
- The error after the retry loop is reachable, but only with a retry count outside the range the
  request contract allows (`RetryLoop.ExtractDocument`).

Assumptions that are part of the statements: the SSE slice size exceeds one unit; JSON values that
are counted or sanitized have distinct keys per object; server results for a verified write report
the status that write leads to (POSTED or REVERTED); one clock orders the steps of the sweep, and the
database's clock orders those of the daily claim.

## Model

| member | source | states |
|---|---|---|
| SseStream.RewriteStream | server/src/mcp/server.ts:231-331 | for every chunking the output is the whole text line by line, a data field within the limit sanitized behind one space and every other line as it is; `buffered` never exceeds the limit plus the larger of one slice and the decoder's last text, and if no chunk boundary cuts a pair the encoded pieces are the encoded output (`LineByLine`) |
| SseStream.SseRewriter.Transform | server/src/mcp/server.ts:298-318 | a chunk is consumed completely in slices that cut no pair; between calls at most the limit is buffered |
| SseStream.SseRewriter.TransformSlice | server/src/mcp/server.ts:302-317 | one slice advances, is written completely and does not end inside a pair |
| SseStream.SseRewriter.SliceEnd | server/src/mcp/server.ts:302-311 | every slice advances, is within the slice size and ends on no high surrogate followed by a low one |
| SseStream.SseRewriter.WriteDecoded | server/src/mcp/server.ts:258-297 | the state after a slice is the one determined by all text received so far |
| SseStream.SseRewriter.WriteFragment | server/src/mcp/server.ts:263-295 | a fragment goes through exactly one of the two branches, and the state follows the text received |
| SseStream.SseRewriter.PassThrough | server/src/mcp/server.ts:264-273 | the pass-through branch copies its fragment and leaves the mode at the line feed |
| SseStream.SseRewriter.Accumulate | server/src/mcp/server.ts:275-296 | the buffering branch emits exactly the completed or over-long line and enters the mode only then |
| SseStream.SseRewriter.EnqueueLine | server/src/mcp/server.ts:241-257 | one line of at most the limit is emitted, a data field as `data: ` and its sanitized value, any other as it is, with its line end |
| SseStream.SseRewriter.Flush | server/src/mcp/server.ts:319-322 | the unterminated last line completes the per-line map, with the bound on `buffered` |
| SseStream.EmitStep | server/src/mcp/server.ts:258-297 | what a fragment adds to the output depends only on the text received before it |
| SseStream.EmitLast | server/src/mcp/server.ts:319-322 | the emitted prefix and the buffered tail make up the per-line map |
| SseStream.RewrittenIsLineByLine | server/src/mcp/server.ts:241-257 | the specification puts every data field through the sanitizer, one optional space dropped, and copies every other line |
| SseStream.LineByLineIsUnique | server/src/mcp/server.ts:241-257 | that meaning leaves no choice: one text has one rewriting |
| SseStream.ScalarsStandForText | server/src/mcp/server.ts:251-256 | the scalar values that are encoded stand for the text unit by unit, lone surrogates replaced by U+FFFD |
| SseStream.ScalarsOfPieces | server/src/mcp/server.ts:303-311 | encoding two pieces equals encoding their concatenation when no pair is cut |
| SseStream.LinesAreKept | server/src/mcp/server.ts:241-257 | the rewriter keeps the line structure when the sanitizer introduces no line feed |
| SseStream.RewriteIsIdempotent | server/src/mcp/server.ts:231-331 | rewriting a rewritten stream changes nothing when sanitizing is idempotent |
| RateLimit.BoundedRateLimiter.Acquire | server/src/mcp/rateLimit.ts:51-82 | table and answer are those of a `maxKeys`-slot least-recently-used cache around the ideal fixed-window limiter |
| RateLimit.OpensWindow | server/src/mcp/rateLimit.ts:53-67 | a call that opens a window is admitted, and evicting the first key of a full table is what the cache does |
| RateLimit.StaysInWindow | server/src/mcp/rateLimit.ts:69-82 | within a window the key moves to the end, and is counted unless the limit is reached |
| RateLimit.BoundedRateLimiter.Create | server/src/mcp/rateLimit.ts:28-45 | exactly the configurations within the bounds are accepted |
| RateLimit.BoundedRateLimiter.Size | server/src/mcp/rateLimit.ts:47-49 | at most `maxKeys` entries |
| RateLimit.RunIsDistinct | server/src/mcp/rateLimit.ts:60-70 | over every run the keys of the table are distinct and at most `maxKeys` |
| RateLimitRuns.OrderIsRecency | server/src/mcp/rateLimit.ts:60-70 | the map's order is the order of last acquires, cut to the last `maxKeys` keys |
| RateLimitRuns.Remembered | server/src/mcp/rateLimit.ts:60-63 | a key is remembered if and only if fewer than `maxKeys` distinct keys followed its last acquire |
| RateLimitRuns.BoundedAnswer | server/src/mcp/rateLimit.ts:51-82 | the exact answer to every call after every history |
| RateLimitRuns.AgreesWithIdeal | server/src/mcp/rateLimit.ts:51-82 | a key that always returned in time gets the answers of a limiter that never forgets |
| RateLimitRuns.CountsAreBounded | server/src/mcp/rateLimit.ts:72-80 | every count lies between 1 and `limit` |
| RateLimitRuns.WindowBound | server/src/mcp/rateLimit.ts:53-81 | at most `2 * limit - 1` admissions in any half-open interval of one window length |
| RateLimitRuns.WindowBoundIsSharp | server/src/mcp/rateLimit.ts:53-81 | that many are reached for every configuration with a window of at least two ticks |
| RateLimitRuns.RetryAfterIsHonest | server/src/mcp/rateLimit.ts:72-79 | a denial names at least one second and less than one more than the window, and the key's next call after that long is admitted |
| RateLimitRuns.RetryAfterIsLeast | server/src/mcp/rateLimit.ts:71-77 | the seconds named are the least whole number that covers the rest of the window |
| RateLimitRuns.IdealWindow | server/src/mcp/rateLimit.ts:53-66 | the window of a key in terms of its calls: which call opened it, that all later ones fell into it, and how many it counted |
| RateLimitRuns.IdealAdmits | server/src/mcp/rateLimit.ts:53-81 | a call is admitted exactly when it falls outside the window or the window has seen fewer than `limit` calls |
| TraceContext.TraceparentRoundTrip | server/src/mcp/trace.ts:31-48 | exactly the printed forms of valid parents are accepted, each giving its parent back |
| TraceContext.JoinMembers | server/src/mcp/trace.ts:60-83 | the loop returns the trimmed members, or nothing if any member is invalid or a key repeats |
| TraceContext.ParseTracestate | server/src/mcp/trace.ts:50-83 | a header is accepted exactly when it is trimmed, within the bounds, and its members are valid with distinct keys |
| TraceContext.TracestateIsNormal | server/src/mcp/trace.ts:50-83 | a normalized tracestate is a fixed point with distinct valid keys |
| TraceGrammar.TraceparentMeans | server/src/mcp/trace.ts:31-48 | the accepted headers and their parts, character by character |
| TraceGrammar.TrimMeans | server/src/mcp/trace.ts:50-64 | trimming removes exactly the white space around |
| TraceGrammar.MemberMeans | server/src/mcp/trace.ts:63-79 | a member is accepted exactly when it is a key and a value of the grammar around an equals sign |
| TraceGrammar.TracestateMeans | server/src/mcp/trace.ts:50-83 | which headers are accepted, by grammar, and what is returned for them |
| Baggage.ParseBaggage | server/src/mcp/trace.ts:85-120 | the loop keeps the first acceptable item of each allow-listed name |
| Baggage.ReadItemsAreGood | server/src/mcp/trace.ts:107-115 | every value read is 1 to 256 baggage octets |
| Baggage.DecodeOfEncode | server/src/mcp/observability.ts:57-58 | percent decoding undoes the encoding, which is at most three times as long and free of commas |
| TraceGrammar.DecodeMeans | server/src/mcp/trace.ts:107-115 | decoding gives a value exactly when the text consists of characters and escapes, in either case of digits, of its characters |
| TraceGrammar.EncodeMeans | server/src/mcp/observability.ts:57-58 | letters, digits and nine marks stand for themselves, everything else is escaped in upper case |
| TraceGrammar.ReadItemMeans | server/src/mcp/trace.ts:93-115 | which items are acceptable: an allow-listed name in either case with white space around, and an encoded value |
| TraceGrammar.ReadItemsMeans | server/src/mcp/trace.ts:93-115 | of several acceptable items of one name the first counts |
| TraceGrammar.BaggageMeans | server/src/mcp/trace.ts:85-120 | what is read from a header, for all headers |
| TraceGrammar.PrintedBaggage | server/src/mcp/observability.ts:54-60 | the printed header: the names in order, each with its encoded value |
| Baggage.BaggageRoundTrip | server/src/mcp/trace.ts:85-120 | printing and reading keeps exactly the entries whose encoding fits, or none if the header is too long |
| Baggage.SurvivesWholeIffFits | server/src/mcp/trace.ts:98-105 | nothing is lost if and only if every encoded value fits; what survives once survives always |
| TraceCarrier.Hop | server/src/mcp/trace.ts:122-138 | for all headers: what one hop does to every part of the context |
| TraceCarrier.WithoutParent | server/src/mcp/trace.ts:122-138 | without a valid parent there is no span, no flags and no tracestate, neither in the context nor in its carrier, and the trace id is the random one |
| TraceCarrier.WithParent | server/src/mcp/trace.ts:122-138 | with one, trace id, span and flags are its parts, the tracestate is read, and the carrier prints both |
| TraceCarrier.RoundTrip | server/src/mcp/observability.ts:42-62 | with a valid parent the round trip is exact if and only if every re-encoded value has at most 256 characters |
| TraceCarrier.NeverADifferentValue | server/src/mcp/observability.ts:42-62 | a hop never changes a baggage value, and a second hop drops nothing more |
| TraceCarrier.TraceparentIsReproduced | server/src/mcp/observability.ts:46-52 | the parent header is reproduced character by character |
| TraceCarrier.LongValueIsLost | server/src/mcp/trace.ts:98-105 | a concrete accepted value that one hop drops |
| DailyRun.AppConfigRow.Upsert | server/src/jobs/scheduler.ts:103-119 | the claim wins unless the row is this day's and done or still leased; losing changes nothing |
| DailyRun.AppConfigRow.UpdateDone | server/src/jobs/scheduler.ts:121-126 | only a running row of that day becomes done |
| DailyRun.ClaimsAreALeaseApart | server/src/jobs/scheduler.ts:103-146 | two claims of a day undisturbed by other days are more than 15 minutes apart, with no completion between |
| DailyRun.ClaimsAreSpread | server/src/jobs/scheduler.ts:103-146 | n such claims span more than n - 1 leases |
| DailyRun.DoneIsFinal | server/src/jobs/scheduler.ts:108-115 | a finished day is not claimed again until another day's claim lands |
| DailyRun.WinsAfterLastClaim | server/src/jobs/scheduler.ts:103-119 | which attempt wins, for every run, from the last claim before it |
| DailyRun.FiresAgainIff | server/src/jobs/scheduler.ts:128-146 | a claimed day is claimed again if and only if it is attempted after another day's claim, or after its lease without a completion |
| DailyRun.FinishedDayFiresAgain | server/src/jobs/scheduler.ts:108-115 | a concrete run in which a finished day is claimed again |
| DailyRun.OverrunFiresAgain | server/src/jobs/scheduler.ts:108-115 | a concrete run in which two instances work on the same day, with no other day's claim |
| DailyRun.OtherDayReopens | server/src/jobs/scheduler.ts:108-115 | after another day's claim every next attempt on the old day wins, finished or not |
| DailyRun.OldCompletionIsHarmless | server/src/jobs/scheduler.ts:121-126 | finishing an old day leaves a newer day's row alone |
| DailyRun.DoneWasWorkedOn | server/src/jobs/scheduler.ts:134-146 | a row that says done was completed by an instance that had won a claim of that day |
| DailyRun.SettledMeansDone | server/src/jobs/scheduler.ts:116-118 | a refused instance settles a day only when it is done, or another day's claim landed meanwhile |
| DailyRun.CrashDoesNotSkipTheDay | server/src/jobs/scheduler.ts:92-99 | an abandoned claim can be taken over exactly when its lease is over |
| DailyRun.OutcomeOfStep | server/src/jobs/scheduler.ts:134-146 | finishing, or a read-back of a row that does not say running, settles the day; a busy row and failed work leave it open |
| DailyRun.SettledIsNotAttempted | server/src/jobs/scheduler.ts:169-183 | a settled day is not attempted again by that instance before it crashes or turns to another day |
| DailyRun.CrashForgets | server/src/jobs/scheduler.ts:30-31 | a crash leaves the row and the other instances alone, and any day can be attempted afterwards |
| PostingSweep.TransactionTable.SweepStuckPosting | server/src/jobs/scheduler.ts:56-90 | alone, one sweep turns exactly the stuck rows whose audit record could be written into errors, with one record each |
| PostingSweep.TransactionTable.SweepOne | server/src/jobs/scheduler.ts:63-83 | the row is re-checked in the write; a failing audit write takes the row back too |
| PostingSweep.StuckRowIsSwept | server/src/jobs/scheduler.ts:63-83 | update, audit and commit move an unlocked stuck row and write its record; nothing shows before, and a rollback undoes both |
| PostingSweep.OtherRowIsSkipped | server/src/jobs/scheduler.ts:66-71 | a row that is no longer stuck is passed over |
| PostingSweep.LockedRowWaits | server/src/jobs/scheduler.ts:63-71 | while a transaction has the row, other writers and sweeps wait |
| PostingSweep.RunKeepsInv | server/src/jobs/scheduler.ts:63-83 | under any interleaving of statements the row an open transaction will overwrite is still stuck, and it has written at most its own audit record |
| PostingSweep.AuditsMatchMoves | server/src/jobs/scheduler.ts:56-90 | under any interleaving of statements, with failing audit writes and crashes, the audit records of a transaction equal the changes from POSTING to ERROR seen at steps of sweeps |
| PostingSweep.NeverOverwrites | server/src/jobs/scheduler.ts:64-70 | whatever a sweep changes, it changes from stuck to ERROR, by a commit, and the row is stuck at that moment |
| PostingSweep.MovesOnlyUntouched | server/src/jobs/scheduler.ts:66-70 | every other writer's write to a moved row happened before the sweep's cutoff |
| PostingSweep.OneAuditPerStuckPost | server/src/jobs/scheduler.ts:56-90 | between two sweeps of a transaction it was posted again and then left alone for over five minutes |
| Json.InsideIsSmaller | server/src/mcp/schemaBounds.ts:72-81 | nesting, keys and serialized length never grow when passing to a sub-value |
| Json.BytesIsLength | server/src/mcp/schemaBounds.ts:72-81 | the byte count is the length of the serialized text |
| Json.NestingIsLongestPath | server/src/mcp/schemaBounds.ts:108-117 | nesting is the length of the longest path of containers |
| Json.CycleNeverUnfolds | server/src/mcp/schemaBounds.ts:113-115 | what lies on a cycle stands for no finite tree |
| Json.RepresentedIffAcyclic | server/src/mcp/schemaBounds.ts:105-117 | in a finite heap a value stands for a tree if and only if no path from it repeats a container |
| JsonWalk.Walker.Visit | server/src/mcp/schemaBounds.ts:108-131 | the recursion ends on every heap, accepts exactly the trees within the remaining bounds, and restores `ancestors`, which is the current path |
| JsonWalk.Walker.VisitAll | server/src/mcp/schemaBounds.ts:118-129 | the loop over the children accepts exactly when all of them fit together |
| JsonWalk.Walker.CheckObject | server/src/mcp/schemaBounds.ts:121-127 | an object passes exactly when its keys fit the budget and its references are local |
| JsonWalk.Walker.VisitContainer | server/src/mcp/schemaBounds.ts:117-130 | a container below the depth bound that is no ancestor is accepted exactly when its keys, references and children fit |
| JsonWalk.KeywordFaultMeans | server/src/mcp/schemaBounds.ts:244-262 | a reference that is no string, or does not start with `#`, is the fault it is |
| JsonWalk.LocalRefsMeans | server/src/mcp/schemaBounds.ts:244-262 | references are local exactly when every object inside has only strings starting with `#` |
| JsonWalk.WalkJsonValue | server/src/mcp/schemaBounds.ts:96-135 | it returns normally exactly when the value is a finite tree within depth, keys and reference rules; the cycle and depth errors are never spurious |
| SchemaCount.CountJsonSchemaPositions | server/src/mcp/schemaBounds.ts:173-214 | the loops over the keyword tables compute the edge-by-edge count |
| SchemaCount.CountIsCardinality | server/src/mcp/schemaBounds.ts:173-214 | that count is the number of distinct paths |
| SchemaCount.PositionsAreExact | server/src/mcp/schemaBounds.ts:137-160 | those paths are exactly the schema positions by membership of each keyword in the tables |
| SchemaCount.KindIsTable | server/src/mcp/schemaBounds.ts:137-160 | the table a keyword is in decides how its value is read |
| SchemaCount.ValueKeyword | server/src/mcp/schemaBounds.ts:183-190 | a value keyword holds one schema |
| SchemaCount.ArrayKeyword | server/src/mcp/schemaBounds.ts:183-196 | an array keyword, and `items` with an array, hold one schema per element |
| SchemaCount.MapKeyword | server/src/mcp/schemaBounds.ts:198-211 | a map keyword holds one schema per field, and so does `dependencies` where the field is no array |
| SchemaCount.NoOtherPositions | server/src/mcp/schemaBounds.ts:173-214 | no other name and no other kind of value holds a schema |
| SchemaCount.NamesAreDistinct | server/src/mcp/schemaBounds.ts:137-160 | no keyword is looked at twice |
| BoundedInput.ParseBoundedMcpInput | server/src/mcp/schemaBounds.ts:301-334 | exactly the finite trees within the depth, key and byte bounds pass |
| BoundedInput.AssertBoundedJsonSchema | server/src/mcp/schemaBounds.ts:225-282 | exactly the schemas with local references within all four bounds pass, the last on the number of distinct schema positions |
| BoundedInput.SchemaFitsMeans | server/src/mcp/schemaBounds.ts:225-282 | what fits: an object or boolean, local references in every object, and four bounds |
| BoundedInput.IdKeysAreDistinct | server/src/mcp/server.ts:45-49 | different ids, also of different types, have different keys |
| BoundedInput.IdHasKey | server/src/mcp/server.ts:45-49 | exactly the strings and the finite numbers have a key |
| BoundedInput.RecordedMeans | server/src/mcp/server.ts:116-132 | which entries are recorded: tool calls with a usable id, and with matching modern metadata where it is required |
| BoundedInput.FailsMeans | server/src/mcp/server.ts:132-149 | a recorded entry fails exactly when its arguments, or an empty object, exceed a bound |
| BoundedInput.PreparedEntryMeans | server/src/mcp/server.ts:132-149 | a failing entry has its arguments nulled and every other field kept; any other is unchanged |
| BoundedInput.PrepareBoundedToolCalls | server/src/mcp/server.ts:116-155 | entry by entry exactly the failing arguments are blanked, and failure is reported if there was one |
| BoundedInput.RecordedIdsAreExact | server/src/mcp/server.ts:123-132 | exactly the keys of the checked tool calls are recorded |
| BoundedInput.SecondCheckCannotFail | server/src/mcp/server.ts:456-470 | once the whole body fits, no tool call's arguments fail and the body is passed on unchanged |
| Sanitizer.SanitizedIsSafe | server/src/mcp/server.ts:163-198 | afterwards a response to a recorded call has no raw -32602 error and no unsafe error result |
| Sanitizer.SanitizingIsIdempotent | server/src/mcp/server.ts:163-198 | exactly the unsafe responses change, and sanitizing twice is sanitizing once |
| Sanitizer.RawErrorIsReplaced | server/src/mcp/server.ts:174-183 | field by field: the raw error goes, the result is exactly the public failure, all else is kept |
| Sanitizer.RawFailureIsReplaced | server/src/mcp/server.ts:184-197 | field by field: flag, content and structured content carry the public failure, every other field of the result and of the response is kept |
| Sanitizer.OthersAreUntouched | server/src/mcp/server.ts:163-192 | every other response is unchanged |
| Sanitizer.FailureIsSafe | server/src/mcp/result.ts:286-319 | the failure that is written passes `isSafeToolFailure` |
| Sanitizer.SanitizeToolPayload | server/src/mcp/server.ts:163-198 | the in-place edit yields the sanitized response and reports whether it was unsafe |
| Sanitizer.SanitizeBatch | server/src/mcp/server.ts:217-221 | the loop sanitizes every item and reports whether any was unsafe |
| Sanitizer.ReparsedIsAsSafe | server/src/mcp/server.ts:163-198 | printing and parsing again, which turns numbers that are not finite into null, makes no response unsafe |
| Sanitizer.SanitizedTextMeans | server/src/mcp/server.ts:210-229 | a text is printed again only if some response in it changes, with each one sanitized; otherwise it is returned as it is |
| Sanitizer.TextIsIdempotent | server/src/mcp/server.ts:210-229 | the same fixed point on the level of text, for single responses and batches |
| TaxMutation.InitialInv | client/src/pages/Queue.tsx:169-200 | a loaded row satisfies the invariant |
| TaxMutation.StepKeepsInv | client/src/pages/Queue.tsx:836-1177 | every handler and every answer keeps it |
| TaxMutation.MintsOnlyWhenSettled | client/src/pages/Queue.tsx:904-930 | a fresh id is minted only when no earlier id is unresolved |
| TaxMutation.StepKeepsId | client/src/pages/Queue.tsx:944-1147 | while an id is unresolved only that id is sent, and only a final answer resolves it |
| TaxMutation.SameIdUntilSettled | client/src/pages/Queue.tsx:944-1147 | over whole runs with lost responses every request carries the same id until a final answer is recorded |
| TaxMutation.MintsAreSeparated | client/src/pages/Queue.tsx:904-1177 | between two mints the first id was settled, and the ids differ |
| TaxMutation.ReachableCell | client/src/pages/Queue.tsx:1862-2014 | busy means not idle, and the cell offers no new write exactly while an id is unresolved |
| TaxMutation.LoadedCell | client/src/pages/Queue.tsx:169-200 | what a freshly loaded row offers, by status or by the reported attempt |
| TaxMutation.PostButtonCommits | client/src/pages/Queue.tsx:1999-2010 | an enabled Post button means a commit would be sent |
| TaxMutation.WriteShowsBusy | client/src/pages/Queue.tsx:914-930 | while a write is out the row is busy, and a commit shows as posting |
| TaxMutation.RejectedWriteIsUndone | client/src/pages/Queue.tsx:868-902 | a rejected write leaves the row as it was before the click |
| TaxMutation.LostWriteIsUncertain | client/src/pages/Queue.tsx:868-902 | after a lost response the row offers to reconcile about the id that was sent |
| TaxMutation.ReconcileRound | client/src/pages/Queue.tsx:944-972 | an unanswered or rejected question changes nothing; an answer is recorded for the id asked about |
| TaxMutation.AnswerDecidesCell | client/src/pages/Queue.tsx:836-866 | what the row offers after each kind of answer |
| TaxMutation.AnswerDecidesAttempt | client/src/pages/Queue.tsx:836-866 | what is known of the attempt after each kind of answer |
| TaxMutation.ResumeAfterLoss | client/src/pages/Queue.tsx:974-1147 | resume, lost response, reload: replay of the same id, the state found, or unresolved |
| TaxMutation.ResumeAndReplayFail | client/src/pages/Queue.tsx:974-1147 | a rejected resume leaves the row as it was; a failed replay leaves it unresolved |
| TaxMutation.StageAnswers | client/src/pages/Queue.tsx:675-760 | what the answers of the stage coordinator do to the row |
| TaxMutation.RestageReopensRow | client/src/pages/Queue.tsx:1981-1997 | restaging forgets the old mutation, and the row can be posted once the stage is ready |
| Salvage.ChooseObject | receipt-extractor/recat_receipt_extractor/extract.py:136-189 | the leading object, or the first of the highest-scoring candidates; none exactly when nothing decodes |
| Salvage.ScanBraces | receipt-extractor/recat_receipt_extractor/extract.py:158-167 | the scan visits the first thousand `{` and keeps the first best |
| Salvage.OneMorePlace | receipt-extractor/recat_receipt_extractor/extract.py:163-166 | a candidate replaces the best exactly when its score is higher |
| Salvage.CandidateMeans | receipt-extractor/recat_receipt_extractor/extract.py:96-110 | a candidate is an object behind white space with at least two of the expected keys |
| Salvage.ScoreMeans | receipt-extractor/recat_receipt_extractor/extract.py:151-166 | its score is the number of expected keys it has |
| Salvage.FirstThousandMeans | receipt-extractor/recat_receipt_extractor/extract.py:156-167 | the scanned places: braces in order, none skipped, at most a thousand |
| RetryLoop.Judge | receipt-extractor/recat_receipt_extractor/extract.py:380-420 | what one response decides, or that it is a plain parse failure |
| RetryLoop.VerdictMeans | receipt-extractor/recat_receipt_extractor/extract.py:380-420 | which outcome a response forces, and that only a whole response that does not parse leaves it open |
| RetryLoop.TokensAddUp | receipt-extractor/recat_receipt_extractor/extract.py:371-379 | the totals are sums over the calls |
| RetryLoop.ExtractDocument | receipt-extractor/recat_receipt_extractor/extract.py:360-433 | number of calls, which response decides, token totals, no salvage at the token limit, and when the final error is reached |
| BodyReplay.BufferBody | receipt-extractor/recat_receipt_extractor/app.py:127-149 | which message ends the buffering and how; a complete body is the received bytes within the limit |
| BodyReplay.BodyIsJoined | receipt-extractor/recat_receipt_extractor/app.py:127-149 | the body is the bodies of its messages, one after the other |
| BodyReplay.Spool.ReplayReceive | receipt-extractor/recat_receipt_extractor/app.py:153-159 | the next chunk within the chunk size, with `more_body` false exactly at the end |
| BodyReplay.ReplayAll | receipt-extractor/recat_receipt_extractor/app.py:153-161 | the replayed chunks are the body, ended by one empty message |
| BodyReplay.GuardedBody | receipt-extractor/recat_receipt_extractor/app.py:127-161 | the application reads exactly the received body in chunks within the chunk size, closed by one empty message, and passes the guard's own test again; nothing is replayed exactly when no message ends a body within the limit |
| BodyReplay.ReadBounded | receipt-extractor/recat_receipt_extractor/app.py:330-350 | the whole upload, or the exact reason for refusing it |
| SplitAmounts.SavedIsClose | client/src/components/SplitEditor.tsx:104-126 | the saved cents of n accepted lines miss the total by less than (n + 1) / 2 |
| SplitAmounts.AcceptedMeans | client/src/components/SplitEditor.tsx:123-126 | what is accepted: less than half a cent of remainder, every line with a category and a positive amount |
| SplitAmounts.BoundIsSharp | client/src/components/SplitEditor.tsx:123-126 | no smaller bound holds for any number of lines |
| SplitAmounts.WholeTotalIsClose | client/src/components/SplitEditor.tsx:123-126 | a total in whole cents is missed by at most n / 2 |
| SplitAmounts.WholeTotalBoundIsReached | client/src/components/SplitEditor.tsx:123-126 | by exactly that many for some accepted split of n lines |
| SplitAmounts.SavedIsExact | client/src/pages/Queue.tsx:1313-1328 | with whole cents nothing is missed |
| SplitAmounts.StagedBalances | client/src/pages/Queue.tsx:202-207 | staging recovers the saved cents, with the transaction's sign |

## Left out

- The JSON sanitizer inside an SSE line is a parameter of the rewriter; `Sanitizer.dfy` models it on characters, not on UTF-16 units.
- Byte decoding and encoding of streams: the rewriter is fed decoded text, and encoding is modelled up to scalar values.
- `createRecatMcpHandler().fetch` beyond its bounded check: header guards, the SDK call and the 405 and 400 answers.
- Wall-clock validation limits, Zod validation, logging, metrics and random ids.
- The other entries of the public error table and `safeToolFailure`: the table is a parameter.
- Decoded baggage bytes from 0x80 up are treated as discarding the value, which is what the octet check does to them.
- The white space that `trim` removes is limited to what a header can contain.
- The write of `completeDailyRun` and the in-process date guard are one step; the jobs themselves, `runSync` and its in-flight set, polling and mail are not modelled.
- Clock differences between instances of the sweep, and the inside of other writers' transactions: each is one step, with the time of its last write.
- `rowStageCoordinator`: it reports ready only in answer to an accepted request; its retries and revisions are not modelled.
- Full reloads of the queue that replace a row while a write is in flight, and the unmounting of the page.
- `TaxMutation`: the handlers replace React state by copies, so the model is a state machine on values; the batching of React updates is not modelled.
- Binary floating point in amounts; `exactCents` without its bound on safe integers.
- The declared content length, the token check and the semaphore of the request guard; page rendering, prompts, costs and durations of an extraction.
- Trailing-data warnings and the confidence factor of a salvaged document.
- Tool annotations, DTO types, sessions, mail, OAuth and everything in the write-back services.
