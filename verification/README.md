# Verification of the Teslatlas client's stateful core

This project models the parts of the TypeScript client whose correctness does not show in any single function, and
proves what they are for. Run `dafny verify dfyconfig.toml` to check it.

**Server-sent events.** `EventStream.dfy` is the whole-text algorithm of sections 9.2.5 and 9.2.6 of the WHATWG HTML
Living Standard, with the retry and checkpoint items and the two byte budgets of the client, and knows nothing of chunks.
`StreamAutomaton.dfy` reads the same language one code unit at a time, `SseParser.dfy` is the incremental parser with its
fragments and counters, and `Utf8Decoder.dfy` the streaming decoder in front of it. The class refines the automaton, the
automaton refines the whole text, so that no cut of the bytes shows in the items or in the verdict on the limits.
`SseTheorems.dfy` and `SseBodies.dfy` send events through all of it, one and then any number of them, `SseLines.dfy` says
in the units of the wire what every other line does, and `Utf8Table.dfy` what the decoder makes of any bytes.

**Subscriptions.** `SseSubscription.dfy` is the reconnecting loop between a server that resumes strictly after an id, a
checkpoint store and a consumer that pulls or stops. A run is driven by a list with one answer of the environment per
`await`, each of the kind that is awaited, and the theorems hold for all lists; those about positions ask that each
checkpoint item of the server resumes where its stream is by then, which `Orderly` reads off the log and the list.

**The Hub client.** `HubClient.dfy` is the session object with one method per stretch of code between two awaits, proved
against the steps on values of `HubState.dfy`; `HubRuns.dfy` runs any interleaving of them. `HubTrace.dfy` says what the
order of the recorded events implies, `HubDrives.dfy` covers the drives query, and `DrivesPage.dfy` follows its response
from the wire to the accepted page, through the decoder of `HubValidate.dfy` and the renaming of `Camelize.dfy`.

**JSON.** `Json.dfy` is the grammar of RFC 8259 as tokens and values, used by everything that follows, and
`JsonGrammar.dfy` shows that it accepts exactly what the RFC writes down, unit by unit.
`NumericMirror.dfy` and `MirrorTheorem.dfy` are the rewriter that quotes numbers, `ObjectGraph.dfy`, `VisitJson.dfy`,
`JsonTree.dfy` and `TreeWalk.dfy` the walk over object graphs and parse trees, `ExactInteger.dfy` (over `Powers.dfy` and
`Decimals.dfy`) the decision whether a number is exactly its wire text, `JsonNumbers.dfy` and `ProtocolJson.dfy` the
parser that joins them, and `HubValidate.dfy` the worklist check. `BoundedReader.dfy` is the growing buffer.
`JsonQuote.dfy`, `JsonPrint.dfy`, `JsonRoundTrip.dfy`, `RequestGraph.dfy` and `JsonSnapshot.dfy` are the request printer
and what a reader makes of its output. `IteratePages.dfy` is cursor pagination.

Text is a sequence of UTF-16 code units (`Utf16.dfy`), numbers are exact reals with a separate negative zero, and sizes
are unbounded.

One documented promise is not met by the code: the request printer calls its output lossless, but a negative zero is
printed as `0`. `JsonSnapshot.NegativeZeroIsLost` passes such an array through the snapshot, and
`JsonRoundTrip.LosslessExactly` shows that it is the only loss. The check of a drives query against the recorded cursors
holds when it is made, but the query waits for its authorization afterwards and leaves without another check:
`HubTrace.StaleDispatchExactly` says exactly when it then leaves with a cursor of another query, and
`HubRuns.StaleDispatch` is such a run. A third limit is exact as well: the line budget leaves room for a full event on
one `data: ` line, but such an event also needs a byte for its line feed, so that a value of exactly the full budget is
refused for its event size and never for its line length (`SseTheorems.FullDataLine`).

## Model

| member | source | states |
|---|---|---|
| SseParser.ParseSseStream | src/events/sse-parser.ts:36-103 | however the bytes are cut into transport chunks, the yielded items and the final error are those that the whole-text algorithm assigns to the decoded text: all items without an error or with the read error; or a prefix of them and the one limit error of the text, and then everything that was complete at most 4096 bytes before the limit was hit. If the caller's signal fires or the consumer leaves, the items are the first ones of these, and the loop stops at the first chance |
| SseParser.WithinOneWindow | src/events/sse-parser.ts:72-90 | at most the items of the last 4096 bytes before a limit are withheld |
| SseParser.IncrementalSseParser.Feed | src/events/sse-parser.ts:124-157 | one chunk takes the parser's abstract state, items and limit verdict to where the per-unit automaton goes on the same text, and keeps the representation invariant |
| SseParser.IncrementalSseParser.HandleLine | src/events/sse-parser.ts:168-215 | a complete line changes the buffers and yields items as the standard prescribes for that line, or reports the event-size error |
| SseParser.IncrementalSseParser.DataField | src/events/sse-parser.ts:184-194 | a data line appends its value and one line feed to the represented buffer, lazily for empty values, with the byte count kept equal to the UTF-8 length of the buffer |
| SseParser.AppendSegments | src/events/sse-parser.ts:217-241 | the fragments and the pending segment stay the represented text in pieces of exactly 4096 units with a shorter rest |
| SseParser.IncrementalSseParser.EmitBlock | src/events/sse-parser.ts:250-261 | dispatch yields the event of the represented buffer without its one final line feed, and the default type for an empty one |
| SseParser.IncrementalSseParser.SegmentsBounded | src/events/sse-parser.ts:146-153 | in every valid state the numbers of line and data fragments are bounded by the byte budgets divided by 4096 |
| StreamAutomaton.RunConcat | src/events/sse-parser.ts:124-157 | reading two texts one after the other is reading their concatenation, wherever the cut is (between CR and LF, after a BOM, empty texts) |
| StreamAutomaton.RunIsInterpret | src/events/sse-parser.ts:124-157 | on every text the automaton emits the items of the whole-text algorithm and stops exactly if the text exceeds a limit, with that limit |
| Utf8Decoder.DecodeConcat | src/events/sse-parser.ts:42-80 | streaming decoding is a homomorphism: the calls' results add up to the decoding of all the bytes |
| Utf8Decoder.DecodeEncode | src/events/sse-parser.ts:42-80 | the decoder reads back what a UTF-8 encoder writes for any well-formed text |
| SseTheorems.FullDataLine | src/events/sse-parser.ts:4-7 | a single data line of up to the event budget never exceeds the line budget; it is refused for its event size exactly if the line feed does not fit |
| SseTheorems.WireRoundTrip | src/events/sse-parser.ts:168-261 | the wire form of any event within the limits is read as exactly that event, an empty type becoming the default |
| SseTheorems.ReceiveEvent | src/events/sse-parser.ts:36-103 | so it is for its bytes in any chunks, through decoder and parser |
| SseBodies.AllArrive | src/events/sse-parser.ts:168-261 | the wire forms of any events within the limits, one after the other, call for exactly these events and for no limit error |
| SseBodies.ReceiveEvents | src/events/sse-parser.ts:36-103 | a complete body of any number of events, in any chunks, yields all of them and no error; a body cut off anywhere, whether its stream then ends or fails, yields the first of them and nothing else, at least those that are complete in it unless a limit is hit |
| SseLines.CommentsChangeNothing | src/events/sse-parser.ts:173-175 | a comment line anywhere in a text changes neither the items nor, within the line budget, the verdict |
| SseLines.EventsAmongComments | src/events/sse-parser.ts:168-215 | so comments may stand between any lines of any events, and exactly the events arrive |
| SseLines.UnknownFieldsChangeNothing | src/events/sse-parser.ts:212-214 | nor does a field of another name than the four |
| SseLines.NulIdsChangeNothing | src/events/sse-parser.ts:197-202 | nor an id that holds a NUL |
| SseLines.RetryHints | src/events/sse-parser.ts:203-211 | a retry hint is passed on where it stands, up to 9007199254740991, and a larger one is ignored; everything around it stays as it was |
| SseLines.BadRetryHints | src/events/sse-parser.ts:203-211 | a hint that is empty or not all digits is ignored |
| SseLines.FieldForms | src/events/sse-parser.ts:177-182 | the space after the colon, and for an empty value the colon, may be left out |
| SseLines.LineTerminators | src/events/sse-parser.ts:133-155 | a line may end with CR LF, LF, or a CR that no LF follows, with the same items and verdict |
| SseLines.UnfinishedLine | src/events/sse-parser.ts:139-150 | a line without terminator yields nothing, and is refused above 8388614 bytes |
| SseLines.OneByteOrderMark | src/events/sse-parser.ts:126-131 | a byte order mark at the start is dropped, and only one |
| SseLines.DataBlock | src/events/sse-parser.ts:250-259 | a block of one data line is an event of type `message` under the id in force |
| SseLines.IdBlock | src/events/sse-parser.ts:250-262 | a block of one id line is a checkpoint, and the id stays in force |
| SseLines.EmptyBlocks | src/events/sse-parser.ts:250-269 | a blank line alone, and a block with only a type, are nothing, and the type does not stay |
| SseLines.EventOnTheWire | src/events/sse-parser.ts:168-261 | an event in the units of the wire: its fields, their names and the default type |
| SseLines.DataAddsUp | src/events/sse-parser.ts:185-187 | the data lines of an event count together, each with its line feed, against 8388608 bytes |
| Utf8Table.SingleBytes | src/events/sse-parser.ts:42-80 | a byte of ASCII is its character, and a byte that starts no sequence a replacement character |
| Utf8Table.TwoBytes | src/events/sse-parser.ts:42-80 | a well-formed sequence of two bytes is its code point |
| Utf8Table.ThreeBytes | src/events/sse-parser.ts:42-80 | and so is one of three |
| Utf8Table.FourBytes | src/events/sse-parser.ts:42-80 | and one of four, as a surrogate pair |
| Utf8Table.OneOfTwoBytes | src/events/sse-parser.ts:42-80 | a sequence of two that is cut short is one replacement character, and the byte that cuts it is read afresh |
| Utf8Table.PartOfThreeBytes | src/events/sse-parser.ts:42-80 | the same for sequences of three, after the first and after the second byte |
| Utf8Table.PartOfFourBytes | src/events/sse-parser.ts:42-80 | the same for sequences of four, after the first and after the second byte |
| Utf8Table.ThreeOfFourBytes | src/events/sse-parser.ts:42-80 | and after the third |
| SseSubscription.SubscribeToSse | src/events/sse-subscription.ts:96-240 | over any number of reconnects a subscription delivers the mapped log from its checkpoint up to some event, without gap or repetition, as long as the checkpoint items of the server, whatever ids they carry, resume where its stream is by then; the answers are taken one by one for what is awaited; and the sleeps are always the policy's delays or the clamped hints. The next rows read its parts |
| SseSubscription.WhatIsLeft | src/events/sse-subscription.ts:96-240 | what a subscription leaves: the mapped log from its start up to some event is delivered, and the checkpoint is there, or one event before after a departure (or perhaps a failed save) |
| SseSubscription.ConsumerFirst | src/events/sse-subscription.ts:184-194 | a commit comes only after the consumer has come back, for an event that the mapper dropped, or for a checkpoint item; and the consumer is waited for exactly when an event has been yielded |
| SseSubscription.ToldAsFailed | src/events/sse-subscription.ts:200-219 | each time the policy is asked, it is told of an error exactly if the last answer of the connection was not the end of its stream: a refused request, a failed read, a failed mapper or anything else; and it is told the last hint of this connection |
| SseSubscription.ToldInOrder | src/events/sse-subscription.ts:212-219 | the policy is asked once for each delay and at most once more, with attempts that count up from one |
| SseSubscription.HowItEnds | src/events/sse-subscription.ts:140-224 | a subscription returns exactly after a terminal response or when the policy gives up after the end of a stream, and throws the connection's error exactly when it gives up after anything else; a limit, a departing consumer, a failed load or save and a bad delay end it in their own way |
| SseSubscription.FailsOnlyThen | src/events/sse-subscription.ts:200-224 | a subscription fails only where the policy is asked: not once a stream has opened, unless the server does not hold the checkpoint, and not at an event that the log has |
| SseSubscription.AbortsOnlyThen | src/events/sse-subscription.ts:104-239 | it is aborted only where an answer to what it awaits has not come, so that every other answer moves it on |
| SseSubscription.HintIsSlept | src/events/sse-subscription.ts:226-237 | the last hint of a connection, brought between the bounds, is slept instead of the delay of the policy |
| SseSubscription.PolicyIsSlept | src/events/sse-subscription.ts:116-116 | a hint counts for its connection only |
| SseSubscription.ClampBetween | src/events/sse-subscription.ts:340-342 | a clamped hint lies between the bounds, and one between them is unchanged |
| SseSubscription.ReadStream | src/events/sse-subscription.ts:159-195 | one connection: an event is yielded first and committed only after the consumer comes back, a checkpoint item commits the id that it carries, a retry hint counts for this connection only, and the connection has failed exactly if its last answer is not the end of the stream |
| SseSubscription.Commit | src/events/sse-subscription.ts:253-283 | a commit succeeds exactly for an id of at most 2048 units, each of one byte and no control character, and a successful save; an empty id is saved as no checkpoint, and a failed commit leaves the old or the new checkpoint |
| SseSubscription.SubscribeAgain | src/events/sse-subscription.ts:105-109 | subscribing again from the same store, any number of times, repeats at most one event each time, up to the first run with a checkpoint item that is out of order |
| SseSubscription.NothingLost | src/events/sse-subscription.ts:201-210 | every event before the last checkpoint was delivered by one of these subscriptions |
| SseSubscription.DefaultSleep | src/events/sse-subscription.ts:344-367 | a completed delay was slept in timers that add up to it, each positive and within the native bound, and no more of them than needed; it is cut short exactly at the first moment the signal has fired, before or during a timer |
| SseSubscription.NativeTimers | src/events/sse-subscription.ts:351-351 | the native bound is 2147483647 milliseconds |
| HubClient.StaticHubClient.BeginOperation | src/hub/client.ts:634-642 | an operation belongs to the generation it begins in, and none begins on a disposed client or with a signal that has fired |
| HubClient.StaticHubClient.Discover | src/hub/client.ts:162-201 | a caller joins the recorded discovery or starts and records one, and is counted as a waiter either way |
| HubClient.StaticHubClient.Finish | src/hub/client.ts:203-223 | a caller that leaves is counted out once, and the last to leave the recorded discovery detaches and aborts it |
| HubClient.StaticHubClient.DiscoveryFetched | src/hub/client.ts:175-182 | only the unaborted discovery of the current session with the expected hub id writes the cache, and it is the recorded one |
| HubClient.StaticHubClient.DiscoveryRejected | src/hub/client.ts:183-193 | a failure drops the cache and the bindings exactly if it is the recorded discovery of the current session |
| HubClient.StaticHubClient.DiscoverySettled | src/hub/client.ts:194-196 | a settled discovery is no longer recorded |
| HubClient.StaticHubClient.SettleCaller | src/hub/client.ts:226-237 | a caller's promise resolves exactly if the discovery succeeded and the caller is still live |
| HubClient.StaticHubClient.AbortOperation | src/hub/client.ts:223-225 | an aborted caller leaves its discovery at once, and takes it down if it was the last |
| HubClient.StaticHubClient.Logout | src/hub/client.ts:447-456 | a logout aborts everything of the session, opens a new generation without cache, discovery or bindings, and queues a clear behind all earlier mutations; a disposed client refuses and changes nothing |
| HubClient.StaticHubClient.Dispose | src/hub/client.ts:458-466 | disposal does the same for good, and queues nothing; a second one changes nothing |
| HubClient.StaticHubClient.QueueSave | src/hub/client.ts:301-305 | only a live operation queues its credential, behind all earlier mutations |
| HubClient.StaticHubClient.StartMutation | src/hub/client.ts:491-508 | the oldest mutation starts; a save whose operation is no longer live is skipped and never calls the store |
| HubClient.StaticHubClient.ApplyMutation | src/hub/client.ts:491-508 | the store then holds the credential of the operation, or nothing |
| HubClient.StaticHubClient.FinishMutation | src/hub/client.ts:504-508 | a settled mutation, failed or not, makes way for the next; a save leaves its operation done exactly if it was fulfilled, and no other operation is touched |
| HubClient.StaticHubClient.CompleteSave | src/hub/client.ts:304-307 | a claim or rotation succeeds exactly if its save did and it is still live afterwards |
| HubClient.StaticHubClient.CheckQuery | src/hub/client.ts:368-378 | a live drives query goes on exactly if its cursor is not recorded for another binding, and the trace says what was checked |
| HubClient.StaticHubClient.DispatchQuery | src/hub/client.ts:384-392 | an authorized query leaves exactly if its operation is still live; the cursor is not looked at again |
| HubClient.StaticHubClient.RecordPage | src/hub/client.ts:442-442 | the page of a live query records its next cursor for the binding of this query |
| HubTrace.SaveIsCurrent | src/hub/client.ts:491-502 | no logout or disposal lies between the start of an operation and its call of `save` |
| HubTrace.SuccessIsCurrent | src/hub/client.ts:304-307 | nor between the start of a claim or rotation and its success, and by then its credential has been written |
| HubTrace.StoredIsSaved | src/hub/client.ts:491-502 | every credential that a run has put into the store was written by an operation that called `save` before, and no session end lies between the start of that operation and the call |
| HubTrace.EmptyAfterLogout | src/hub/client.ts:447-456 | once a logout has cleared the store, it stays empty until an operation that began after this logout saves |
| HubTrace.CacheIsCurrent | src/hub/client.ts:166-181 | no logout or disposal lies between the start of a discovery and its write of the cache, and it has not been abandoned |
| HubTrace.StaleNeverWrites | src/hub/client.ts:176-181 | a discovery whose session ends, or that is abandoned, never writes the cache afterwards |
| HubTrace.AbandonedNeverWrites | src/hub/client.ts:214-221 | so an abandoned discovery does not, whenever it started |
| HubTrace.BindingIsCurrent | src/hub/client.ts:442-456 | every recorded cursor was set by a page of the current generation, and nothing has cleared the bindings or set it again since |
| HubTrace.CheckedForItsBinding | src/hub/client.ts:370-378 | after a page has recorded a cursor, and until something clears or rebinds it, every check that a query with this cursor passes is for the binding of the page |
| HubTrace.DispatchIsChecked | src/hub/client.ts:368-392 | a query leaves only after its check, and no logout or disposal lies between the start of its operation and its dispatch |
| HubTrace.StaleDispatchExactly | src/hub/client.ts:370-392 | a query leaves while its cursor is recorded for another binding exactly if a page has rebound the cursor between its check and its dispatch, and this still stands |
| HubRuns.Run | src/hub/client.ts:134-156 | every interleaving of every operation keeps the invariant and leaves a lawful trace, to which the previous rows apply, with store, bindings and generation as the trace says, and a safe state of the discovery machinery |
| HubRuns.Take | src/hub/client.ts:134-156 | every step of a schedule that is enabled is taken, with its effect, and one that is not does nothing |
| HubRuns.ClaimSucceeds | src/hub/client.ts:491-508 | for any live operation with an idle chain: its save is called, the store holds its credential, and the claim succeeds |
| HubRuns.ClaimFails | src/hub/client.ts:491-508 | if the store rejects the save instead, the claim fails, the store keeps what it held, and the chain is free |
| HubRuns.LogoutEmpties | src/hub/client.ts:447-456 | a logout with an idle chain empties the store |
| HubRuns.StaleDispatch | src/hub/client.ts:384-392 | a run in which a query passes its check, another query's page rebinds its cursor, and the first query leaves nevertheless |
| HubRuns.DiscoveryIsSafe | src/hub/client.ts:162-240 | in every reachable state an unaborted discovery in flight is the recorded one and belongs to the current session, waiters count the waiting callers, a discovery without waiters is detached and aborted (or settled), and a cached discovery has the expected hub id, was started in the current session and was written to the cache by this discovery, so that `CacheIsCurrent` applies to it |
| HubDrives.BindingInjective | src/hub/client.ts:848-854 | two queries share a binding exactly if vehicle and range agree, absent bounds meaning their defaults |
| HubDrives.AcceptedPage | src/hub/client.ts:415-441 | the page checks accept exactly the pages of the vehicle within limit and half-open range whose drives strictly descend by start time and id, any two of them |
| HubDrives.FirstError | src/hub/client.ts:415-441 | a refused page is refused for the first of: a drive of another vehicle, more than the limit (100 without one), a start out of range, the order |
| DrivesPage.AcceptedOnTheWire | src/hub/client.ts:415-441 | for a response that decoding has accepted, the checks accept exactly if this holds of the exact numbers on the wire, so that no two drives of the response agree in start time and id |
| DrivesPage.PageIsWirePage | src/hub/validate.ts:91-120 | the fields that the checks read under `id`, `vehicleId`, `startDateMs` and `items` from the renamed response are the exact numbers on the wire |
| DrivesPage.ReceivePage | src/hub/client.ts:408-441 | the whole way from the body of a 200 response to an accepted page, or to the error that the body calls for: which decoding error, or which check of the page |
| DrivesPage.OneDrive | src/hub/client.ts:408-441 | pages of the shape that the schema guarantees exist |
| IteratePages.Iterate | src/client/operations.ts:67-91 | no cursor is loaded twice, the modified pages are yielded in load order, all other options stay the same, and there is at most one load more than there are cursors; it ends at an unmodified answer, a failing load, a last page or a repeated cursor, or when the consumer leaves |
| BoundedReader.ReadBounded | src/http/bounded-json.ts:7-64 | the result is the decoding of exactly the bytes received, or the error of the first read that breaks a limit, fails or is aborted; the buffer never exceeds the maximum, grows only by doubling, and the loop ends within a number of reads that depends on the maximum alone |
| BoundedReader.EmptyRunIs | src/http/bounded-json.ts:41-42 | only empty chunks in a row count, since the last one that was not empty |
| BoundedReader.LimitsAre | src/http/bounded-json.ts:37-42 | a read within the limits is a chunk that keeps the body within the maximum and is at most the 1024th empty one in a row |
| BoundedReader.Expand | src/http/bounded-json.ts:40-48 | a new buffer keeps the bytes collected, and is twice as large or as large as needed, whichever is more, but never larger than the maximum |
| NumericMirror.ParityTest | src/http/bounded-json.ts:115-126 | the backward count of backslashes at the next quote agrees with the forward escape automaton |
| NumericMirror.NumericMirror | src/http/bounded-json.ts:108-140 | the loop over pieces computes the mirror of any text: strings untouched, each number quoted |
| MirrorTheorem.MirrorParses | src/http/bounded-json.ts:87-90 | the mirror of a JSON text is a JSON text whose value is the original one with each number replaced by the string of its lexeme |
| ExactInteger.SplitRender | src/http/bounded-json.ts:150-152 | the pattern takes every number of the grammar apart into the sign, digits and exponent it was written with |
| ExactInteger.ExactnessDecided | src/http/bounded-json.ts:143-159 | for every number of the grammar and the binary64 number nearest to it, the answer is true exactly if the two are the same integer |
| ExactInteger.WithoutLexeme | src/http/bounded-json.ts:144-149 | a number without a recorded lexeme passes exactly if it is an integer, and one that is not finite never passes |
| ExactInteger.DenotesWhole | src/http/bounded-json.ts:150-152 | what a lexeme denotes: its digits in base ten, |
| ExactInteger.DenotesFraction | src/http/bounded-json.ts:150-152 | its fraction after the point, |
| ExactInteger.DenotesExponent | src/http/bounded-json.ts:150-154 | ten to its exponent as a factor, |
| ExactInteger.DenotesSign | src/http/bounded-json.ts:150-152 | and its sign |
| Decimals.DecimalReads | src/http/bounded-json.ts:150-154 | digits are read from the left in base ten |
| ExactInteger.DenotesUnique | src/http/bounded-json.ts:150-152 | a text denotes one number only |
| ExactInteger.NotIntegral | src/http/bounded-json.ts:155-156 | a negative scale after stripping zeros never denotes an integer |
| ExactInteger.TooManyDigits | src/http/bounded-json.ts:156-156 | more than 309 digits exceed every finite binary64 number |
| Powers.DoubleRange | src/http/bounded-json.ts:156-156 | two to the 1024th is less than ten to the 309th |
| JsonNumbers.ParseGrammatical | src/http/bounded-json.ts:108-109 | every number of a parsed text is a lexeme of the grammar |
| JsonNumbers.LexemeLength | src/http/bounded-json.ts:108-109 | the greedy pattern matches all of a lexeme and nothing after it |
| JsonGrammar.WordsExactly | src/http/bounded-json.ts:87-90 | a text is parsed as null, true or false exactly if it is that word with white space around it |
| JsonGrammar.NumbersExactly | src/http/bounded-json.ts:87-90 | as a number exactly if it is a lexeme of the grammar with white space around it |
| JsonGrammar.LexemesInUnits | src/http/bounded-json.ts:108-109 | the lexemes of the grammar in units |
| JsonGrammar.StringsExactly | src/http/bounded-json.ts:87-90 | as a string exactly if it is its contents between two quotes |
| JsonGrammar.PlainCharacters | src/http/bounded-json.ts:87-90 | which units stand for themselves in a string, and which may not occur |
| JsonGrammar.ShortEscapes | src/http/bounded-json.ts:87-90 | the eight escapes of two units, and that there are no others |
| JsonGrammar.UnicodeEscapes | src/http/bounded-json.ts:87-90 | the escapes of four hexadecimal digits, in either case |
| JsonGrammar.NoUnicodeEscape | src/http/bounded-json.ts:87-90 | anything else after a backslash and a `u` is no string |
| JsonGrammar.ArraysExactly | src/http/bounded-json.ts:87-90 | as an array exactly if it is written forms of its elements with commas between them, between brackets |
| JsonGrammar.ObjectsExactly | src/http/bounded-json.ts:87-90 | as an object exactly if it is written forms of names and values, a later member replacing an earlier one of its name, between braces |
| JsonGrammar.MarksInUnits | src/http/bounded-json.ts:87-90 | white space, commas and colons in units |
| JsonGrammar.AssignInPlace | src/http/bounded-json.ts:81-82 | a later member takes the place of the earlier one of its name |
| VisitJson.VisitJson | src/http/bounded-json.ts:169-219 | on any finite graph, cycles included, the explicit stack ends and makes the visits of the recursive walk in its order, up to the first number that is not finite |
| VisitJson.OutcomeMeans | src/http/bounded-json.ts:87-100 | what the loop visits: all of the walk if every number is finite, and otherwise its first visits up to a number that is not |
| VisitJson.AssertFiniteNumbers | src/http/bounded-json.ts:161-165 | rejects exactly if a number that is not finite can be reached |
| ObjectGraph.SeenIffReachable | src/http/bounded-json.ts:161-219 | skipping nodes that are on the stack already hides no reachable number |
| TreeWalk.WalkTree | src/http/bounded-json.ts:91-100 | on a parse tree beside its mirror each number is visited once, in document order, with its own lexeme |
| TreeWalk.RecordTree | src/http/bounded-json.ts:91-100 | recording the visits leaves every number's lexeme under its own object and key, and nothing else is overwritten |
| ProtocolJson.ParseProtocolJson | src/http/bounded-json.ts:87-106 | succeeds exactly on the JSON texts whose numbers are all finite, with the parsed value and the lexeme of every number in it |
| HubValidate.TestDecides | src/hub/validate.ts:95-106 | the test on a recorded lexeme accepts exactly the numbers whose wire text denotes the 64-bit integer that they are read as |
| HubValidate.WireIntegers | src/hub/validate.ts:89-106 | such a number: it denotes an integer from -2^63 up to below 2^63, and is read as exactly that |
| HubValidate.IntegerFields | src/hub/validate.ts:53-87 | the names of the integer fields |
| HubValidate.RejectInexactIntegerFields | src/hub/validate.ts:91-109 | the worklist accepts a tree exactly if every number with a listed name, at any depth, is such an integer |
| HubValidate.DecodeHubJson | src/hub/validate.ts:42-51 | a response is refused for the first of: no JSON, an overflowing number, an inexact integer field, the schema; and is otherwise the parsed value under its JavaScript names |
| Camelize.NoMemberLost | src/hub/validate.ts:111-120 | renaming keeps every member, in its place and with its renamed value, exactly if no two members of the object get the same name |
| Camelize.NameThenCapital | src/hub/validate.ts:115-117 | an underscore before a letter from a to z goes, and the letter becomes the capital one, wherever it stands |
| Camelize.UnderscoreStays | src/hub/validate.ts:115-117 | an underscore before anything else stays |
| Camelize.CamelShape | src/hub/validate.ts:111-114 | arrays are renamed element by element, and everything else but objects stays |
| JsonQuote.UnescapeEscape | src/http/json-request-snapshot.ts:41-43 | reading a quoted string gives back any sequence of code units, lone surrogates included |
| JsonQuote.EscapedUnits | src/http/json-request-snapshot.ts:41-43 | which units are escaped, and how |
| JsonQuote.QuoteIsToken | src/http/json-request-snapshot.ts:100-100 | a quoted string is one token, whatever follows it |
| JsonPrint.PrintScans | src/http/json-request-snapshot.ts:81-102 | a printed value scans into the tokens of its structure |
| JsonRoundTrip.RoundTrip | src/http/json-request-snapshot.ts:40-103 | a printed value is a JSON text that reads as the value with its zeros made positive |
| JsonRoundTrip.LosslessExactly | src/http/json-request-snapshot.ts:10-17 | it reads as the value itself exactly if the value holds no negative zero |
| JsonRoundTrip.NegativeZeroComesBack | src/http/json-request-snapshot.ts:44-46 | the bytes of an array with a negative zero read as an array with a positive one |
| RequestGraph.PlainExactly | src/http/json-request-snapshot.ts:40-57 | an object graph has a plain JSON value exactly if no path through it ends in something JSON does not have or closes a cycle; shared nodes are no obstacle |
| RequestGraph.Unique | src/http/json-request-snapshot.ts:40-57 | and it has at most one |
| RequestGraph.LeavesAre | src/http/json-request-snapshot.ts:40-49 | which values that are no objects are plain |
| RequestGraph.ObjectsAre | src/http/json-request-snapshot.ts:87-103 | an object is plain exactly if its prototype is the usual one or none and its own keys name enumerable data properties with plain values |
| RequestGraph.ArraysAre | src/http/json-request-snapshot.ts:59-85 | an array is plain exactly if its prototype is the usual one and its own keys are `length` and all the indices below it, each an enumerable data property with a plain value |
| RequestGraph.LengthKey | src/http/json-request-snapshot.ts:66-69 | the one key of an array that is no index is `length` |
| JsonSnapshot.AllFilled | src/http/json-request-snapshot.ts:66-80 | one key more than the length and only canonical indices below it: every array slot is filled, once |
| JsonSnapshot.RegularKey | src/http/json-request-snapshot.ts:66-77 | conversely every key of a dense array passes the index checks |
| JsonSnapshot.Copier.CopyJsonValue | src/http/json-request-snapshot.ts:40-57 | the copy ends on any finite graph, restores the set of ancestors, and gives the value and its text, or nothing exactly for a reason that can be pointed to |
| JsonSnapshot.Copier.CopyJsonArray | src/http/json-request-snapshot.ts:59-85 | the same for arrays, with each element in the slot of its key whatever the order of the keys |
| JsonSnapshot.Copier.CopyJsonObject | src/http/json-request-snapshot.ts:87-103 | the same for objects, with the members in key order |
| JsonSnapshot.SnapshotJsonRequest | src/http/json-request-snapshot.ts:20-34 | accepts exactly the graphs with a plain value whose text fits the byte limit, and gives that value and its text |
| JsonSnapshot.SnapshotRoundTrip | src/http/json-request-snapshot.ts:20-34 | whoever decodes and parses the bytes of a snapshot has the caller's value, exactly if it holds no negative zero |
| JsonSnapshot.NegativeZeroIsLost | src/http/json-request-snapshot.ts:44-46 | a caller's array with a negative zero is accepted, and its bytes come back as one with a positive zero |

## Left out

- Fetching, TLS, timers, real streams and the clock: they are steps or answers of the environment.
- SseSubscription.SubscribeToSse: event ids are unique and not empty, which is what the protocol client checks of its server. Once the server has sent a checkpoint item that does not resume where its stream is, nothing is said about positions: the next connection resumes from that item, and what lies between is skipped or repeated.
- SseSubscription.SubscribeToSse: the checks on content type, status and protocol version are one answer (refused). The environment may abort at every await, but a consumer cannot inject an error into the generator.
- SseSubscription.ReadStream: positions after a checkpoint item that is out of order, as for `SubscribeToSse`. Taking one event and settling it are methods of their own (`TakeEvent`, `Settle`), as one connection and the decision after it are for `SubscribeToSse` (`Attempt`, `Connect`, `DecideReconnect`).
- SseSubscription.SubscribeToSse: the case without a store is that of a store that nobody reads again.
- HubClient.StaticHubClient.QueueSave: the requests, responses and credential checks before it in claims and rotations are part of the environment.
- HubValidate.RejectInexactIntegerFields: the loop over the children of an object is a method of its own, `CheckChildren`.
- HubValidate.DecodeHubJson: the generated schema validators are an opaque predicate.
- DrivesPage.ReceivePage: the schema is taken to let only drives pages through: objects with the members that the checks read, none of whose names collide after renaming. The headers, the entity tag and the unmodified answer are not part of this model.
- HubDrives.BindingInjective: vehicle ids are the canonical UUIDs that `validateUuid` demands before a binding is formed.
- ExactInteger.ExactnessDecided: the exponent is an unbounded integer; the source converts it to a Number, which is exact for every exponent that a response of 16 MiB could make matter.
- VisitJson.VisitJson: members are visited in insertion order; JavaScript enumerates integer-like names first, which changes neither the set of visits nor what is recorded.
- JsonRoundTrip.RoundTrip: how JavaScript writes and reads numbers is a parameter, with the promise of ECMAScript that a finite number is written as a JSON number that reads as itself.
- JsonSnapshot.SnapshotJsonRequest: freezing, the set of known snapshots, proxies, property getters with effects and the depth of the call stack are not modelled. Prototypes are a flag of a node, and the text of an array index is its decimal digits.
- JsonSnapshot.Copier.CopyJsonArray: the loop over the keys is a method of its own, `CopyElements`.
- SseParser.ParseSseStream: cancelling and releasing the reader, and a stream that is locked from the start, are left to the environment.
- BoundedReader.ReadBounded: taking one chunk into the buffer is a method of its own, `Store`. Releasing and cancelling the reader are left to the environment.
- Field checks and plumbing of the other clients, version negotiation and the remaining Hub reads would only add easy members.
