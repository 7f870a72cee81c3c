# Verified model of AetherCore

A Dafny model of the parts of AetherCore that carry protocols, formats and searches, with proofs of what
those parts are for. Code that updates state is modelled as classes and methods, each proved against a
function that specifies it; the properties are lemmas about those functions, over all inputs and all runs.

| module | file | models |
|---|---|---|
| `Bytes`, `WebSocket` | `Bytes.dfy`, `WebSocket.dfy` | the frame codec and message reassembly of the Discord gateway |
| `Bitset`, `Text`, `CronSyntax`, `Cron` | files of these names | the cron language and its parser |
| `Calendar`, `CronTime` | files of these names | the civil calendar, matching, and the bounded search for the next firing |
| `Scheduling` | `Scheduler.dfy` | the job table and its evaluation |
| `EngineProtocol` | `Engine.dfy` | the worker pool, its queues, pools and shutdown |
| `AgentLoop` | `AgentLoop.dfy` | the loop between model and tools inside one task |
| `Timestamps`, `EventJson`, `AuditChain` | `Timestamp.dfy`, `EventJson.dfy`, `AuditChain.dfy` | the hash chain of audit blocks and the text it hashes |
| `RotatingLog` | `LocalAppender.dfy` | the rotating audit log |
| `VectorMemory` | `VectorStore.dfy` | the vector store and its cosine search |
| `SignedMemory` | `SignedStore.dfy` | signed query tokens |
| `Polling` | `Poller.dfy` | the Telegram polling loop and its server |

`dafny verify dfyconfig.toml` checks the whole project.

## How the outside world appears

- A WebSocket connection holds the bytes still to be read, the mask keys still to be drawn and how many more
  bytes the peer accepts; running out of keys or room is the failure of the random source or of a write.
- The engine is a state machine whose steps are single channel or pool operations; `select` and `sync.Pool`
  choose freely, and objects shared by pointer are references into a heap. What a client must not do (submit
  after `Stop`, submit a task it no longer owns, recycle twice) is the enabling condition of its steps.
- The language model, the tools and the guard are unknown functions that also see when they are asked.
- Hash, certificates and signatures are parameters. A result that needs a collision-free hash is stated as:
  the property holds or here is a collision.
- The JSON text of an event starts with `{"id":`; quotes in its strings are escaped, and a nested object is
  followed by a further brace. This is why it cannot end in a colon followed by another such text, and why the
  colons between the parts of a record do no harm.
- Clocks are parameters. Instants count from Go's zero time.

## Where code and comments disagree

- `modules/scheduler/cron.go:142` says the search never fails for valid expressions. It does; the exact
  conditions are `CronTime.AlwaysFindsAnyWeekday`, `CronTime.AlwaysFindsAnyMonthDay` and
  `CronTime.AlwaysFindsIfIn28Years`.
- `modules/scheduler/cron.go:208` and `modules/scheduler/cron.go:228` wrap around for steps near 2^63 and then
  set bit 0; `CronSyntax.LoopBitsExact` gives the exact condition.
- `memory/vector_store.go:79` says callers cannot mutate internal state through `Get`; they can, see
  `VectorMemory.WriteThroughGet`.
- `core/audit/chain.go:67` promises a sweep over all history; of the genesis block it sees only the stored
  hash, see `AuditChain.GenesisIsUnchecked`.
- `modules/scheduler/scheduler.go:298` means to fire a job once per minute; a clock that comes back to a minute
  makes it fire again, see `Scheduling.AtMostOnceExactly`.
- `core/event_loop.go:118` calls the shutdown graceful; without a consumer of results it can wait forever, see
  `EngineProtocol.NeverStuckExactly`.

## Model

| member | source | states |
|---|---|---|
| `WebSocket.FrameRoundTrip` | gateway/discord/websocket.go:188-283 | Reading a written frame, followed by any bytes, yields FIN, the same opcode (0 to 15) and payload for every length below 2^63, and leaves the following bytes untouched |
| `WebSocket.EncodingIsShortest` | gateway/discord/websocket.go:258-267 | No masked frame that is read as a payload of the same length is shorter than the one `writeFrame` produces: the length form chosen is the shortest |
| `WebSocket.RfcLengthExamples` | gateway/discord/websocket.go:258-267 | Length fields of 5, 256 and 65536 bytes are those of RFC 6455, section 5.7, byte for byte |
| `WebSocket.RfcWrittenFrames` | gateway/discord/websocket.go:246-283 | The masked "Hello" of RFC 6455, section 5.7, as a text and as a Pong, is written byte for byte |
| `WebSocket.RfcReadFrames` | gateway/discord/websocket.go:188-242 | The unmasked, masked and fragmented "Hello" and the Ping of that section are read as what they are |
| `WebSocket.ShortServerFrameIsRead` | gateway/discord/websocket.go:188-242 | Every unmasked frame with up to 125 bytes is read as its FIN bit, opcode and payload |
| `WebSocket.MediumServerFrameIsRead` | gateway/discord/websocket.go:206-211 | The same for a 16-bit length, shortest form or not |
| `WebSocket.LongServerFrameIsRead` | gateway/discord/websocket.go:212-221 | The same for a 64-bit length |
| `WebSocket.OverlongLengthIsRefused` | gateway/discord/websocket.go:217-219 | A 64-bit length beyond an int64 is refused right after the length field |
| `WebSocket.FrameIsSelfDelimiting` | gateway/discord/websocket.go:188-242 | Any frame the reader accepts, masked or not and in any length form, is recognised by its own bytes alone whatever follows them |
| `WebSocket.CutFrameIsBroken` | gateway/discord/websocket.go:188-242 | Every proper prefix of a frame fails with an end-of-input error and uses up the input; it never yields a frame |
| `WebSocket.ContinuingFramesAreConsumed` | gateway/discord/websocket.go:132-160 | Frames 0x0, 0x1 and 0x2 without FIN leave their payloads, 0x3 to 0x7 and 0xA to 0xF leave nothing, and each 0x9 leaves one 0xA frame with the same payload behind |
| `WebSocket.MessageIsReassembled` | gateway/discord/websocket.go:129-161 | Frames 0x0, 0x1 or 0x2 up to the first with FIN, with Pings, Pongs and reserved opcodes anywhere between them, are returned as exactly their concatenated payloads, consumed exactly up to the FIN frame, each Ping answered in order by one masked Pong with the same payload |
| `WebSocket.StandardMessageIsRead` | gateway/discord/websocket.go:129-161 | Every message of RFC 6455, section 5.4 (a 0x1 or 0x2 frame, then 0x0 frames until FIN, control frames anywhere), is read as its payloads one after the other |
| `WebSocket.RfcFragmentsAreRead` | gateway/discord/websocket.go:129-161 | The two fragments of "Hello" with a Ping between them give the text "Hello" and exactly the Pong of the standard on the wire |
| `WebSocket.TextComesFromMessage` | gateway/discord/websocket.go:129-161 | Conversely, whenever a text is returned the consumed bytes are encoded frames that form one message with that data |
| `WebSocket.CloseEndsTheRead` | gateway/discord/websocket.go:139-141 | A 0x8 frame inside a message ends the read with EOF and no partial text, after the Pongs due and one empty Close frame were written |
| `WebSocket.UnansweredPingEndsTheRead` | gateway/discord/websocket.go:143-146 | A Ping whose Pong cannot be written ends the read there, with the reason |
| `WebSocket.BrokenFrameEndsTheRead` | gateway/discord/websocket.go:133-136 | A frame that cannot be read ends the read with its error and no partial text |
| `WebSocket.TextsAreSent` | gateway/discord/websocket.go:165-167 | Successive `WriteText` calls put exactly the masked frames of the texts on the wire, in order, each under its own key |
| `WebSocket.TextsAreReadBack` | gateway/discord/websocket.go:129-167 | A list of written texts, under any keys, is read back by as many reads as exactly that list, and nothing beyond it is consumed |
| `WebSocket.CutStreamEndsInError` | gateway/discord/websocket.go:129-242 | If the stream is cut inside a frame, all texts before it are still read and the next read is an error |
| `WebSocket.WsConn.ReadFrame` | gateway/discord/websocket.go:188-242 | The byte-by-byte reader with its in-place unmasking computes the specified parse and leaves exactly the specified rest, errors included |
| `WebSocket.WsConn.WriteFrame` | gateway/discord/websocket.go:246-283 | The header and mask loops put the specified frame on the wire, or as much of it as the peer accepts, or nothing when no key can be drawn |
| `WebSocket.WsConn.ReadText` | gateway/discord/websocket.go:129-161 | The read loop has exactly the specified outcome: result, bytes left and bytes sent |
| `WebSocket.Unmask` | gateway/discord/websocket.go:234-238 | The in-place loop XORs byte i with key byte i mod 4 |
| `Calendar.NextDay` | modules/scheduler/cron.go:132-138 | The calendar that `Matches` reads: after the last day of a month, the 31st, the 30th, or in February the 28th or 29th, comes the first of the next month or year, else the next day of the month |
| `Calendar.YearLengths` | modules/scheduler/cron.go:132-138 | A year has 366 days if it divides by 400, or by 4 and not by 100, and 365 otherwise |
| `Calendar.CalendarRepeats` | modules/scheduler/cron.go:132-138 | Dates and weekdays repeat after 400 years, which have 146097 days |
| `Calendar.DateOfDay` | modules/scheduler/cron.go:132-138 | Every civil date, leap years included, is the date of its day number |
| `Calendar.DayZero` | modules/scheduler/cron.go:132-138 | Day 0 is Monday, 1 January of year 1, and weekdays follow one another |
| `CronTime.MatchesCivilTime` | modules/scheduler/cron.go:132-138 | A civil date, hour and minute match exactly if the five bitsets hold minute, hour, day, month and weekday |
| `CronTime.NextAfter` | modules/scheduler/cron.go:143-157 | Returns the first matching minute after `t` if one lies within the next 527040 minutes, and the zero time exactly when none does |
| `CronTime.AlwaysFindsByDays` | modules/scheduler/cron.go:143-157 | The search succeeds from every instant if and only if some time of day matches and every 366 consecutive days hold a matching day |
| `CronTime.AlwaysFindsAnyWeekday` | modules/scheduler/cron.go:140-157 | With every weekday selected, the search succeeds from every instant if and only if some selected month and day meet in every year |
| `CronTime.AlwaysFindsAnyMonthDay` | modules/scheduler/cron.go:140-157 | With every day of month selected, it succeeds from every instant if and only if a time, a month and a weekday are selected |
| `CronTime.AlwaysFindsIfIn28Years` | modules/scheduler/cron.go:140-157 | For any expression whatever, it succeeds from every instant of all time if and only if it does from each day of 2001 to 2028 |
| `CronTime.February30Fails` | modules/scheduler/cron.go:141-142 | An expression for 30 February is never found, contrary to the comment in the source |
| `CronTime.LeapDayAloneFails` | modules/scheduler/cron.go:141-142 | An expression for 29 February alone is not found from 1 March 2021 |
| `CronTime.FridayThe13thFails` | modules/scheduler/cron.go:141-142 | An expression for Friday the 13th is not found from 14 July 2001 |
| `Bitset.MembersOfSetBit` | modules/scheduler/cron.go:246 | `setBit` adds exactly its position to the set that `hasBit` tests |
| `Bitset.MembersDetermineBits` | modules/scheduler/cron.go:246-247 | Two bitsets that `hasBit` cannot tell apart are equal |
| `CronSyntax.LoopBitsExact` | modules/scheduler/cron.go:206-231 | The stepping loop, with Go's wrapping addition, sets exactly the stepped range if and only if its first addition stays in an int64; once it wraps, bit 0 is set as well |
| `CronSyntax.PartBitsExact` | modules/scheduler/cron.go:180-244 | The bits of a wildcard, range or single part are the set it denotes if and only if its step fits |
| `CronSyntax.FieldBitsExact` | modules/scheduler/cron.go:166-178 | If the steps fit, a field's bits are exactly the union of what its comma-separated parts denote, inside [lo, hi] |
| `CronSyntax.FieldBitsExactFromOne` | modules/scheduler/cron.go:166-178 | For days of month and months the bits are that union if and only if every step fits: a wrapped part sets bit 0, which nothing denotes |
| `CronSyntax.FieldBitsBounds` | modules/scheduler/cron.go:166-178 | Every field, wrapped or not, sets some bit in [lo, hi] and none above hi |
| `CronSyntax.PartRoundTrip` | modules/scheduler/cron.go:180-203 | Reading a printed part, with its stride, yields that part |
| `CronSyntax.FieldRoundTrip` | modules/scheduler/cron.go:166-203 | Every list of valid parts is read back from its comma-separated print |
| `CronSyntax.ValueText` | modules/scheduler/cron.go:235-244 | A value is taken if it is an integer of its range; otherwise the error says which of the two fails |
| `CronSyntax.RangeText` | modules/scheduler/cron.go:215-227 | A range is taken if both ends are integers, in order and in range; otherwise the first thing wrong is reported |
| `CronSyntax.StepText` | modules/scheduler/cron.go:182-190 | A step must be a positive integer, is looked at first, and else changes only the stride |
| `CronSyntax.FieldOfParts` | modules/scheduler/cron.go:166-178 | A field is its comma-separated parts, or the error of the first malformed one |
| `Text.AtoiOfNumber` | modules/scheduler/cron.go:185 | Numbers are read with or without a sign exactly as far as they fit 64 bits |
| `Cron.ParseWildcard` | modules/scheduler/cron.go:206-212 | The wildcard loop sets exactly the positions of the wrapping loop from lo to hi, and terminates for every step |
| `Cron.ParseRange` | modules/scheduler/cron.go:215-232 | Accepts exactly two integers lo <= first <= last <= hi, names the first thing wrong otherwise, and sets the loop's positions |
| `Cron.ParsePart` | modules/scheduler/cron.go:180-203 | Refuses or accepts a part as the language says and sets its positions; the step of a single value has no effect |
| `Cron.ParseField` | modules/scheduler/cron.go:166-178 | The bits are the union over all parts, or the error is that of the first malformed part |
| `Cron.ParseCron` | modules/scheduler/cron.go:71-129 | Parses exactly as specified: the error of the first bad field, or the five bitsets and the trimmed, alias-expanded text |
| `Cron.ParseIsDetermined` | modules/scheduler/cron.go:71-129 | The text determines the outcome, bitsets included |
| `Cron.CronOfWords` | modules/scheduler/cron.go:91-119 | What is not an alias is five words, each read in its own range; another count and the first malformed word are reported |
| `Cron.SpacingDoesNotMatter` | modules/scheduler/cron.go:72-91 | How the words are spaced and what white space stands around them makes no difference |
| `Cron.BlankIsEmpty` | modules/scheduler/cron.go:72-75 | White space alone is the empty expression |
| `Cron.StringOfAlias` | modules/scheduler/cron.go:78-89 | `String()` of a parsed alias is the text it stands for |
| `Cron.ReparseOfString` | modules/scheduler/cron.go:71-162 | Parsing `String()` of any parsed expression, aliases included, gives the same expression |
| `Cron.CronRoundTrip` | modules/scheduler/cron.go:71-129 | Every well-formed list of five fields is read back from its print, so the grammar is unambiguous |
| `Cron.CanonicalRoundTrip` | modules/scheduler/cron.go:71-129 | Any five non-empty in-range bitsets are what their comma lists parse to |
| `Cron.MatchesIsMembership` | modules/scheduler/cron.go:132-138 | A parsed expression whose steps fit matches a minute exactly when each of the five civil fields is among the values its parts denote |
| `Cron.ParsedAlwaysFinds` | modules/scheduler/cron.go:140-157 | A parsed expression that leaves the day of month open is found from every instant; one that leaves the weekday open is if and only if some selected date is yearly |
| `Cron.AliasesAreRead` | modules/scheduler/cron.go:79-88 | Each of the seven aliases is read as the five fields it stands for |
| `Cron.February30TextFails` | modules/scheduler/cron.go:140-157 | The text for 30 February is accepted, yet the search fails for it from every instant |
| `Cron.LeapDayTextFails` | modules/scheduler/cron.go:140-157 | The text for 29 February is accepted, yet the search fails for it from 1 March 2021 |
| `Cron.StarsMatchEveryMinute` | modules/scheduler/cron.go:132-138 | What `* * * * *` parses to matches every minute of all time |
| `Cron.FridayThe13thTextFails` | modules/scheduler/cron.go:140-157 | The text for Friday the 13th is accepted, yet the search fails for it from 14 July 2001 |
| `Scheduling.AtMostOnce` | modules/scheduler/scheduler.go:287-307 | Under any run of add, remove, enable, disable and tick, a registration is marked at most once in a minute that does not recur after another minute was ticked; steps back inside a minute are harmless |
| `Scheduling.AtMostOnceExactly` | modules/scheduler/scheduler.go:287-307 | Exactly which clocks keep the promise: no job of any table is marked twice in a minute if and only if that minute does not recur after another was ticked |
| `Scheduling.ExactlyOnce` | modules/scheduler/scheduler.go:32-36 | With ticks at most 60 s apart, a job registered and enabled throughout a matching minute is marked in it exactly once |
| `Scheduling.MarkedOnlyWhenLive` | modules/scheduler/scheduler.go:294-306 | Whatever the run, a mark comes from a tick of that minute that finds the job present, enabled and matching |
| `Scheduling.DisabledIsNotMarked` | modules/scheduler/scheduler.go:209-219 | Once disabled, a job is not marked again unless it is enabled, or removed and added anew |
| `Scheduling.RecurringMinuteMarksTwice` | modules/scheduler/scheduler.go:298-305 | Whenever a minute recurs, a fresh job on `* * * * *` is marked at least twice in it |
| `Scheduling.Scheduler.AddJob` | modules/scheduler/scheduler.go:152-179 | Refuses a bad expression or a taken name without a change; otherwise adds exactly the parsed job, enabled and not yet fired |
| `Scheduling.Scheduler.RemoveJob` | modules/scheduler/scheduler.go:182-193 | Removes exactly the named job or reports that it is absent |
| `Scheduling.Scheduler.EnableJob` | modules/scheduler/scheduler.go:196-206 | Enables exactly the named job |
| `Scheduling.Scheduler.DisableJob` | modules/scheduler/scheduler.go:209-219 | Disables exactly the named job |
| `Scheduling.Scheduler.EvaluateAndDispatch` | modules/scheduler/scheduler.go:287-334 | In whatever order the map is walked, exactly the enabled jobs that match this minute and have not fired in it are marked, and one task each, with the name, goal and expression of its job, is dispatched; without a dispatcher they are marked all the same |
| `EngineProtocol.EveryInterleaving` | core/event_loop.go:118-213 | Over every interleaving the accepted tasks are, as a multiset of IDs, those queued, in flight, finished and consumed; both queues keep their bound; no pointer is in two places; workers leave only once quit is closed, and the queues are closed only after all have left; and no worker can receive nil or send to a closed queue |
| `EngineProtocol.SubmitExactly` | core/event_loop.go:151-158 | A submission is queued and counted exactly if the task queue has room, and otherwise changes nothing |
| `EngineProtocol.OwnedAfter` | core/event_loop.go:133-175 | Every step keeps each task and result pointer in at most one queue, worker, pool or client, pooled results blank, and pooled tasks free of the ID, system and input of their last use (not of its creation time) |
| `EngineProtocol.GottenTaskIsExclusive` | core/event_loop.go:133-139 | `GetTask` hands out a task without ID, system and input that nobody else refers to; it is blank if and only if it is new or its last creation time was never set |
| `EngineProtocol.RecycledTaskKeepsItsTime` | core/event_loop.go:207-211 | A recycled task keeps its creation time and is handed out again with it |
| `EngineProtocol.WorkersUseOpenChannels` | core/event_loop.go:118-130 | The steps in which a worker receives nil from, or sends to, a closed queue are never possible, and workers touch the queues only while both are open |
| `EngineProtocol.DrainDecreases` | core/event_loop.go:180-213 | Every step of a worker or of the result consumer brings shutdown strictly nearer |
| `EngineProtocol.DrainedShutdownFinishes` | core/event_loop.go:118-130 | Once quit is closed and submissions have ceased, in every run, whatever clients and pools do, workers and consumer make at most a computed number of steps, and when none can move all workers have exited and `Stop` goes on |
| `EngineProtocol.FittingShutdownFinishes` | core/event_loop.go:118-130 | In every run without a consumer `Stop` still finishes if queued, in-flight and finished work fits the result queue |
| `EngineProtocol.RunIntoBlock` | core/event_loop.go:124-205 | If it does not fit and a worker is left, some run of the workers comes to a standstill with a worker that has not exited |
| `EngineProtocol.NeverStuckExactly` | core/event_loop.go:118-130 | Without a consumer no run gets stuck if and only if outstanding work fits the result queue or all workers have exited |
| `EngineProtocol.StopNeedsNoConsumerExactly` | core/event_loop.go:118-130 | The same condition, read off before `Stop` is called |
| `EngineProtocol.FullResultQueueBlocksStop` | core/event_loop.go:124-205 | In every run without a consumer, a worker facing a full result queue never exits and `Stop` waits forever |
| `EngineProtocol.Engine.Submit` | core/event_loop.go:151-158 | No error means the task is at the end of the queue, its ID is counted as accepted and it has left the client; an error means nothing has changed |
| `EngineProtocol.Engine.GetTask` | core/event_loop.go:133-139 | Whichever object the pool yields, it is exclusive and without ID, system and input; it is blank exactly if new or if its creation time was never set |
| `EngineProtocol.Engine.FinishTask` | core/event_loop.go:190-203 | The result carries the ID of the worker's task, the outcome and nothing of the object's last use |
| `EngineProtocol.Engine.RecycleTask` | core/event_loop.go:208-211 | The task returns to the pool with its creation time and nothing else of its use |
| `EngineProtocol.Engine.StopEnd` | core/event_loop.go:124-128 | Both queues are closed, in order, only after all workers have exited |
| `AgentLoop.HistoryShape` | core/event_loop.go:220-294 | At the k-th adapter call, of at most ten, the history is the system prompt, the input and k assistant/tool pairs and extends all earlier ones; every tool message answers its calls one to one, in order and by ID; unsafe input means no call at all and the guard's description |
| `AgentLoop.LastAnswerDecides` | core/event_loop.go:237-293 | Every answer but the last lets the loop go on, and the last alone decides the outcome |
| `AgentLoop.RejectedOutputEndsTheRun` | core/event_loop.go:297-394 | Tool output that the guard rejects ends the run in a violation with no further adapter call |
| `AgentLoop.ToolsStopOnViolation` | core/event_loop.go:267-285 | The tool calls of one turn end the run exactly with the first that yields output the guard rejects or an error that contains "security_violation", and with that error |
| `AgentLoop.ResultsAnswerCalls` | core/event_loop.go:266-290 | The results of a turn answer its calls one to one, in order and by ID: one is no error exactly if the tool is registered, succeeded and passed the guard, and then it is that output; else it is the tool's error, the refusal of the sandbox or tool_not_found with the name |
| `AgentLoop.DispatchEndsOrAnswers` | core/event_loop.go:297-394 | Every dispatch either ends the run with a violation or is answered with such a result |
| `AgentLoop.ExecuteEphemeral` | core/event_loop.go:220-294 | The loop has exactly the specified outcome and sends exactly the specified histories |
| `AgentLoop.ExecuteTools` | core/event_loop.go:266-285 | The inner loop collects the results in order and stops at the first violation |
| `AuditChain.AuditLogIsTamperEvident` | core/audit/chain.go:68-85 | Two accepted chains of audit events of equal length with the same last hash agree on every block after genesis, unless they exhibit a hash collision; nothing is assumed of the encoding or of the genesis hashes |
| `AuditChain.SameLastHashSameChain` | core/audit/chain.go:68-85 | The same for any event encoding that is injective and never ends in a colon followed by another encoding |
| `AuditChain.RecordInjective` | core/audit/chain.go:25 | The colon-joined record determines index, timestamp, previous hash and event, although timestamp, event and even previous hash may contain colons |
| `AuditChain.RecordExample` | core/audit/chain.go:25 | The hashed text of a block: index, UTC time, previous hash and event, joined by colons |
| `AuditChain.RecordsDetermineBlocksExactly` | core/audit/chain.go:25 | Records determine blocks if and only if the encoding is injective and never ends in a colon followed by another encoding |
| `AuditChain.EventsEncodeSafely` | core/audit/chain.go:20-25 | The JSON text of events is such an encoding |
| `EventJson.NoEventInTail` | core/audit/event.go:6-12 | No event's JSON text ends in a colon followed by an event's JSON text, whatever its strings and metadata hold |
| `EventJson.EventTextUnique` | core/audit/event.go:6-12 | Different events have different JSON texts: escaped strings, nested metadata and all |
| `EventJson.EventTextSpelledOut` | core/audit/event.go:6-12 | An event's text has its five fields by name and in this order, strings quoted |
| `EventJson.EscapeExamples` | core/audit/chain.go:20 | Quotes, backslashes, control characters, `<` and line separators are escaped, other characters are not |
| `AuditChain.GenesisIsUnchecked` | core/audit/chain.go:72-83 | Replacing the genesis block of an accepted chain is accepted if and only if no block follows or the stored hash is the same; a chain of one block is always accepted |
| `AuditChain.ChainManager.constructor` | core/audit/chain.go:31-42 | A new chain is one genesis block that carries the hash of its own record |
| `AuditChain.ChainManager.Append` | core/audit/chain.go:45-60 | Appends exactly one linked block, leaves the chain so far untouched and keeps the whole accepted and numbered |
| `AuditChain.ChainManager.VerifyChain` | core/audit/chain.go:68-85 | Accepts exactly the linked chains; of others it names the first faulty block's fault: a broken link if its previous hash differs, and a tampered payload otherwise |
| `Timestamps.TimestampInjective` | core/audit/chain.go:25 | Different UTC instants have different RFC 3339 texts, to the nanosecond |
| `Timestamps.NoInnerZ` | core/audit/chain.go:25 | The only Z of a timestamp is its last character |
| `Timestamps.TimestampExamples` | core/audit/chain.go:25 | Two instants in RFC 3339 notation, with and without a fraction, whose trailing zeros are dropped |
| `RotatingLog.RunHoldsExactlyItsLines` | core/audit/local_appender.go:54-100 | With fresh names, the rotated files in order and the live file hold what the live file held at first and then exactly the appended lines in order, and the bookkeeping stays valid |
| `RotatingLog.AppendKeepsHistory` | core/audit/local_appender.go:78-100 | One append adds exactly its line at the end, keeps `currentSize` equal to the live file, and lets a file exceed the limit only if it is one line |
| `RotatingLog.AppendSpelledOut` | core/audit/local_appender.go:78-100 | An append rotates exactly if the size so far plus the line exceeds the limit, onto which name, and what the disk holds afterwards |
| `RotatingLog.CollidingRotationLosesFile` | core/audit/local_appender.go:62-72 | A rotation onto an existing log file replaces it; nothing is lost if and only if that file was empty |
| `RotatingLog.LocalAppender.AppendBlock` | core/audit/local_appender.go:78-100 | Rotates if the line would not fit, then appends; with a fresh name the history grows by exactly the line |
| `RotatingLog.LocalAppender.Rotate` | core/audit/local_appender.go:54-76 | Moves the live file to its rotated name and starts an empty one |
| `VectorMemory.CauchySchwarz` | memory/vector_store.go:127-138 | For vectors of every length the accumulated sums satisfy dot * dot <= normA * normB |
| `VectorMemory.ScoreInRange` | memory/vector_store.go:27 | Every score lies between -1 and 1 |
| `VectorMemory.SelfScore` | memory/vector_store.go:127-139 | A vector that is not zero scores 1 against itself |
| `VectorMemory.OppositeScore` | memory/vector_store.go:127-139 | Reversing a vector reverses its scores, and it scores -1 against its opposite |
| `VectorMemory.ScaledScore` | memory/vector_store.go:127-139 | Scaling a vector by a positive factor changes no score |
| `VectorMemory.OrthogonalScore` | memory/vector_store.go:127-139 | Vectors without a common component score 0 |
| `VectorMemory.DotAppend` | memory/vector_store.go:129-133 | One more component adds the product of the two, which with the empty vectors determines every sum of products |
| `VectorMemory.CosineSimilarity` | memory/vector_store.go:127-139 | The one-pass loop computes the cosine of the two vectors, and 0 if one of them is zero |
| `VectorMemory.VectorStore.Query` | memory/vector_store.go:95-123 | Returns min(topK, candidates) distinct entries of the query's dimension with their scores, best first, none better left out; nothing for topK <= 0 or an empty query |
| `VectorMemory.TopKSpelledOut` | memory/vector_store.go:95-123 | What the answers to a query are, without any of the store's own notions: an if-and-only-if |
| `VectorMemory.TopKScoresAreDetermined` | memory/vector_store.go:95-123 | Whatever the map order and however ties fall, the scores returned are the same |
| `VectorMemory.SelfQueryScoresOne` | memory/vector_store.go:95-123 | A stored vector queried by its own embedding yields the top score 1 |
| `VectorMemory.VectorStore.Store` | memory/vector_store.go:45-57 | Inserts or replaces exactly this entry with a copy of the embedding |
| `VectorMemory.VectorStore.Delete` | memory/vector_store.go:61-69 | Removes exactly this entry and reports whether it was there |
| `VectorMemory.WriteThroughGet` | memory/vector_store.go:79-81 | The copy `Get` returns shares its embedding with the store, contrary to the comment: a write through it changes that one component and nothing else |
| `VectorMemory.GetLeaksExactly` | memory/vector_store.go:79-81 | A caller of `Get` can change the store if and only if the entry exists and its embedding is not empty |
| `SignedMemory.TokenBytesInjective` | memory/signed_store.go:142-163 | The hashed bytes determine node ID, issue time, topK and every embedding word, despite two variable-length parts |
| `SignedMemory.TokenLayout` | memory/signed_store.go:143-159 | Where each part of the hashed bytes stands and how it is encoded |
| `Bytes.BigEndianAt` | memory/signed_store.go:147-157 | The byte at index i of a big-endian integer |
| `SignedMemory.TokenDigestInput` | memory/signed_store.go:144-159 | Writing through the reused buffers yields exactly the specified bytes |
| `SignedMemory.SignedTokenIsAdmitted` | memory/signed_store.go:72-107 | With ideal signatures a token signed with a trusted leaf is admitted until thirty seconds after its issue time, even if that lies in the future, and then expires |
| `SignedMemory.AdmittedClaimsWereIssued` | memory/signed_store.go:99-103 | Claims admitted under a key were issued under it, every field alike, unless two byte strings share a hash |
| `SignedMemory.SignQuery` | memory/signed_store.go:112-140 | Signs the digest of exactly these claims with the first certificate's key, or reports what is missing |
| `SignedMemory.SignedMemoryStore.AuthorisedQuery` | memory/signed_store.go:72-107 | Answers as the plain store exactly if the token is at most 30 s old, the certificate readable, trusted and with an ECDSA key, and the signature verifies under it; each of the five errors has its own exact condition |
| `SignedMemory.SignedMemoryStore.SignThenQuery` | memory/signed_store.go:72-140 | `SignQuery` with a trusted leaf followed by `AuthorisedQuery` answers as the plain store until thirty seconds after signing, and then reports an expired token |
| `Polling.AlwaysExactlyOnce` | gateway/telegram/poller.go:42-88 | Over any interleaving of arrivals, failed and successful polls the dispatched updates are exactly the server's below the offset, in order, none twice or missing, and the back-off stays within 2 s and 60 s |
| `Polling.StartIsExactlyOnce` | gateway/telegram/poller.go:43-46 | A fresh poller has dispatched nothing and owes the server's whole list |
| `Polling.PollAdvances` | gateway/telegram/poller.go:81-86 | A successful poll moves exactly the updates it returns from pending to dispatched |
| `Polling.FullPollsDeliverEverything` | gateway/telegram/poller.go:58-86 | With nothing new arriving, one full poll per hundred pending updates delivers all of them |
| `Polling.BackoffAfterFailures` | gateway/telegram/poller.go:59-76 | After k more failures the wait is min(2^(j+k+1), 60) seconds |
| `Polling.SuccessResetsBackoff` | gateway/telegram/poller.go:58-79 | Whatever came before, a successful poll, even an empty one, sets the wait back to 2 s, and failures after it double it up to 60 s |
| `Polling.BackoffStaysBounded` | gateway/telegram/poller.go:59-79 | The wait stays within 2 s and 60 s over any polls |
| `Polling.Poller.Run` | gateway/telegram/poller.go:42-88 | The loop ends in the specified offset, back-off and dispatched sequence |
| `Polling.Poller.Receive` | gateway/telegram/poller.go:78-86 | A batch is dispatched in order, the offset moves past its last update and the back-off is reset |

## Left out

- Sockets, TLS, the HTTP upgrade, deadlines, `generateWSKey` and closing the connection: input and output.
- The allocation of a payload as long as its announced length: Go may run out of memory where the model reads on.
- The wall-clock parts of the scheduler (`tickLoop`, `Start`, `Stop`, the goroutine per dispatch) and its logging:
  ticks are events of a run; task IDs and the metadata map are reduced to job name, instant, goal, expression and minute.
- Job objects behind pointers: jobs are values in the map, since their dispatch reads only fields that never change.
- Text that is not valid UTF-8: strings are sequences of Unicode scalar values.
- CronSyntax.FieldBitsExact: for a whole field that starts at 0 (minute, hour, day of week) the fitting of all
  steps is only sufficient, because the extra bits of a wrapped part can happen to be denoted by another part;
  part by part, and for fields that start at 1, the condition is exact.
- Unbuffered engine queues (queue size 0), where a submission meets a waiting worker directly.
- Engine start-up, audit events, logging and the five-minute context of a task.
- A tool registry that changes while a task runs.
- Event metadata that encodes itself or cannot be encoded, and the fallback hash for the latter.
- I/O errors of the rotating log, and `Close`.
- Floating point: scores are real numbers, and embeddings with NaN or infinite components are not modelled.
- Locks: each critical section is one step.
- X.509 and ECDSA themselves, and the network server around the signed store.
- The LLM providers, their router and adapters, the Telegram and Discord REST clients, the bots built on them, the
  command line, the SDK, the module scaffolding, the mesh network, the security scanners' patterns and the Rust
  runtime are not part of this model.
