# A Redis client, modelled and proved

This project models the core of an asynchronous Redis client written in Rust: the RESP parser and
serializer, the connection pool, and the batch exchanges (single commands, pipelines,
transactions) built on both. `dafny verify dfyconfig.toml` checks everything.

**The protocol codec.** `Parser.dfy` is the reply parser on a flat byte string, where the end of
the string is the end of the stream. `Resp.dfy` writes replies as the RESP2 protocol
specification does (sections "Simple strings", "Simple errors", "Integers", "Bulk strings", "Null
bulk strings", "Arrays", "Null arrays", "Null elements in arrays"). The two undo each other, for
every reply tree and everything that may follow it; `Outcome` says what the client makes of a
reply, `Leftover` what an error nested in an array leaves unread. On that rest: frames delimit
themselves (`Frames.dfy`), every parsed value has a canonical text (`Canonical.dfy`), and a reply
cut short is noticed exactly when it does not end in a bare line (`Truncation.dfy`). `Reader.dfy`
and `ReplyReader.dfy` hold the imperative reader and parser over a buffered socket that delivers
bytes in arbitrary pieces; each method agrees with the flat parser whatever the pieces are. A
fused decoder (`Streaming.dfy`) refines parsing first and decoding then (`Decode.dfy`), which is
what the command objects do (`Cmds.dfy`). Strings are well-formed UTF-8 byte sequences and the
lossy conversion of the standard library is modelled in full (`Utf8.dfy`) and measured against the
encoding of code points (`Unicode.dfy`). What goes over the wire is stated once more as string
literals (`Characters.dfy`, `Literals.dfy`).

**The pool.** `Pool.dfy` is an interleaving of callers of `get` with their guards, the put tasks
that dropped guards spawn, and callers of `close`, over the shared semaphore, idle stack and
`closed` flag; each step is what a task does between two points where it can be suspended. The
theorems hold in every reachable state of every run: permits are conserved, every connection has
one owner, the number of live connections is bounded, close is final, hand-out after close is
bounded, the pool never blocks itself, and connections change hands clean. `Witnesses.dfy` gives
runs that show why the hypotheses are needed and that the bound is met. `PoolObject.dfy` is the
pool as a class, as one undisturbed caller sees it, and `Undisturbed.dfy` relates the two: what
the class does is a run of the transition system in which nobody else moves. The stack of idle
connections, its expiry and its order are defined once, in `IdleStack.dfy`.

**The exchanges.** `Exchange.dfy` says what batches of commands and replies mean, `Client.dfy`
has `process_cmd`, `Pipeline` and `Multi` as methods over the sequential pool, `Handshake.dfy`
the greeting of a new connection, `Queue.dfy` the shared command queue under every interleaving
of its callers, and `Delivery.dfy` when an exchange leaves its connection fit for reuse: if the
pieces received end where the replies end, the buffer is empty whatever comes later.

Properties one would expect do not hold of the code; in each case the exact condition is proved,
and an input or a run on which the property fails. Truncated replies are not always rejected,
because an unterminated line is accepted at the end of the stream
(`Truncation.TruncationDetectedIff`). A connection dropped with an empty buffer is not always
clean, because replies, or the rest of an array with an error in it, may still be on their way
(`Reuse.DropIsCleanIff`, `Reuse.PoliteIff`, `Witnesses.StaleReply`, `Witnesses.TornReply`). The
loop of `hget_all` does not always end (`ClientReplies.HGetAllTerminates`,
`ClientReplies.HGetAllHangs`). Live connections may exceed the pool size (`Capacity.ExceedsIff`,
`PoolRuns.DialExceedsIff`, `Witnesses.Overtaken`). The idle stack is ordered by age only as long as
no put is stamped while another is on its way (`PoolRuns.ExpiryFromTheTop`, `Witnesses.Disordered`).

## Model

| member | source | states |
|---|---|---|
| Decimal.DecimalLen | src/parser.rs:14-25 | repeated division counts the characters of a number's decimal text |
| Decimal.I64RoundTrip | src/parser.rs:151-154 | the integer parser gives back every 64-bit integer from its printed text |
| Decimal.UsizeRoundTrip | src/parser.rs:162-165 | the length parser gives back every length from its printed text |
| Decimal.I64Texts | src/parser.rs:151-154 | the integer parser accepts exactly an optional `+` or `-` and decimal digits, as the number they stand for, between -9223372036854775808 and 9223372036854775807 |
| Decimal.UsizeTexts | src/parser.rs:162-165 | the length parser accepts exactly an optional `+` and decimal digits, up to 18446744073709551615 |
| Decimal.DigitsText | src/parser.rs:44-50 | printed numbers are decimal text over the digits 0 to 9 |
| Utf8.LossyFixesOnlyInvalid | src/parser.rs:145-149 | lossy conversion leaves a line alone exactly when it is well-formed UTF-8 |
| Unicode.ValidIff | src/parser.rs:169-171 | the UTF-8 check accepts exactly the encodings of sequences of code points that are no surrogates |
| Unicode.BadFrontIsMaximal | src/parser.rs:145-149 | what lossy conversion replaces as one is as many bytes as still could begin a code point, or one byte |
| Unicode.LossyRepairs | src/parser.rs:145-149 | lossy conversion keeps the code points in front, writes U+FFFD for the first ill-formed part, and goes on behind it |
| Commands.AppendArgs | src/parser.rs:40-55 | appends `*`, the count, `\r\n`, and for each argument `$`, its length, `\r\n`, its bytes, `\r\n`; that is the RESP2 array of bulk strings of the arguments |
| Commands.WireAsText | src/parser.rs:40-55 | that array's RESP2 encoding is the text of literals and decimal numbers |
| Commands.StorableIff | src/parser.rs:43-51 | the commands whose text is promised to be read back: those whose counts and lengths fit the 64-bit lengths of the protocol |
| Commands.EstimateRespSize | src/parser.rs:28-35 | one more than the number of bytes `append_args` adds, for every argument list |
| Reader.BufReader.Receive | src/connection.rs:28 | a socket read gives a piece of what is still to come, and nothing only at end of stream |
| Reader.BufReader.FillBuf | src/parser.rs:66-67 | bytes become visible without being lost; nothing is visible only at end of stream |
| Reader.BufReader.Consume | src/parser.rs:88 | drops exactly the first bytes of what is unread |
| Reader.BufReader.Read | src/parser.rs:108 | moves a prefix of the unread bytes into the caller's buffer, around its own buffer for large reads |
| Reader.Scan | src/parser.rs:73-86 | takes bytes from the buffer up to the first line feed or the end, or stops at the limit of 65536 bytes |
| Reader.Drained | src/parser.rs:66-88 | a reader that has read exactly what the first pieces held has an empty buffer and has not touched the pieces behind them |
| Reader.ReadLine | src/parser.rs:62-100 | whatever pieces arrive: the flat parser's line or error, and the same rest; after a line that is too long at most one line's worth is consumed and bytes stay in the buffer |
| Reader.ReadN | src/parser.rs:103-115 | whatever pieces arrive: exactly the next `n` bytes, or an error with everything consumed |
| ReplyReader.ParseReply | src/parser.rs:134-186 | terminates on any bytes and any schedule; result and rest agree with the flat parser; no piece is read before its bytes are needed; a line that is too long leaves bytes in the buffer |
| ReplyReader.ParseBulk | src/parser.rs:157-172 | a bulk payload of the announced length, its two trailing bytes unchecked, or the error case |
| ReplyReader.ParseSliceInner | src/parser.rs:189-206 | all elements with nil as a value, or the first other error, agreeing with the flat parser |
| Resp.RoundTrip | src/parser.rs:134-206 | parsing a reply's RESP2 encoding before any tail gives its outcome and leaves the tail, behind what a nested error left unread |
| Resp.RoundTripAll | src/parser.rs:189-206 | the element loop on the encodings of any list of replies |
| Resp.NoLeftover | src/parser.rs:199-203 | only an error makes a reply be consumed in part |
| Resp.StrandedText | src/parser.rs:199-203 | what an error nested in an array leaves unread is whole replies: those behind it, at every depth |
| Literals.EncodeText | src/parser.rs:132-206 | the RESP2 text of each kind of reply, as string literals |
| Literals.LineReads | src/parser.rs:57-100 | a line of up to 65536 bytes with its `\r\n` is read without it, a longer one fails |
| Literals.BareLineFeed | src/parser.rs:90-95 | `\n` alone ends a line as well |
| Literals.IntegerReads | src/parser.rs:150-156 | behind `:`, a sign and digits read as the number they stand for, or as an invalid integer outside 64 bits |
| Literals.StatusReads | src/parser.rs:149 | behind `+`, any line reads as a status with that text |
| Literals.ErrorReads | src/parser.rs:145-148 | behind `-`, any line reads as an error with that text |
| Literals.BulkReads | src/parser.rs:157-172 | behind `$` and a length, that many bytes read as they are, and two more are dropped whatever they are |
| Literals.NullsRead | src/parser.rs:159-177 | `$-1` and `*-1` read as the nil error |
| Literals.ArrayReads | src/parser.rs:173-183 | behind `*` and a count, the array of that many replies |
| Literals.ElementsRead | src/parser.rs:196-205 | elements come back in place, nulls as nil values |
| Literals.BadIntegerReads | src/parser.rs:150-154 | behind `:`, what is no 64-bit integer is an error of its own |
| Literals.BadLengthReads | src/parser.rs:162-165 | behind `$`, what is neither a length nor `-1` is an error of its own |
| Literals.BadCountReads | src/parser.rs:178-181 | behind `*`, what is neither a 64-bit integer nor `-1` is an error of its own |
| Literals.NegativeCountReads | src/parser.rs:196 | any other negative count panics |
| Literals.UnknownReads | src/parser.rs:184 | any other first byte is refused, with the line in the error |
| Literals.NothingReads | src/parser.rs:138-141 | no bytes at all are the end of the stream, an empty line is an empty reply |
| Frames.SelfDelimiting | src/parser.rs:62-206 | a parse that leaves something unread gives the same result, and leaves the new tail, whatever tail replaces it |
| Frames.ReplySuffix | src/parser.rs:134-186 | what is left unread is a suffix of what was there |
| Canonical.ParsedIsBounded | src/parser.rs:134-206 | statuses hold no line feed and lengths fit, in every parsed value |
| Canonical.NodesWithinBytes | src/parser.rs:134-206 | a parsed value has at most as many nodes as bytes consumed |
| Canonical.NodesMean | src/parser.rs:117-130 | nodes are counted one by one: an array is one more than its elements, anything else is one |
| Canonical.ReplyMeans | src/parser.rs:117-130 | re-encoding a value and taking its meaning gives the value, nil as the nil error |
| Canonical.CanonicalText | src/parser.rs:62-206 | a parsed value re-parses from its canonical text, before any tail, exactly when its statuses fit the line limit |
| Truncation.TruncationDetectedIff | src/parser.rs:62-206 | every strict prefix of a reply's text is an error other than nil exactly when the reply fails anyway or ends in a bulk string |
| Truncation.CommandsDetected | src/parser.rs:40-206 | every strict prefix of a command's text is an error other than nil exactly when the command is not empty |
| Decode.FusedEach | src/parser.rs:209-240 | decoding element by element off the stream accepts the same bytes with the same value and rest as parsing and then decoding |
| Decode.FusedPairs | src/parser.rs:243-296 | the same for decoding pair by pair |
| Decode.EachMeans | src/commands.rs:294-310 | succeeds exactly when every element decodes, position by position |
| Decode.EachPairMeans | src/commands.rs:406-428 | succeeds exactly when every pair decodes, pair by pair; an odd last element is ignored |
| Decode.StringsMean | src/commands.rs:298-304 | string slices: accepted exactly when all are bulk strings or statuses, each taken as it is |
| Decode.FlagsMean | src/commands.rs:370-376 | bool slices: accepted exactly when all are integers, true for 1 only |
| Decode.PairsMean | src/commands.rs:411-422 | string maps: accepted exactly when all pairs are bulk strings or statuses, key first |
| Decode.ScoresMean | src/commands.rs:457-469 | scored members: member first, score parsed from the text behind it |
| Decode.ScoresFail | src/commands.rs:457-466 | the first pair with a non-text, or a score that is no number, decides the error |
| Decode.TextsMean | src/client.rs:1204-1211 | string filters keep bulk strings and statuses as they are, in order, and drop the rest |
| Decode.ScanMeans | src/commands.rs:501-538 | SCAN: the cursor is the integer or the number in the text, 0 if there is none; the keys are the texts of the second element |
| Decode.LastWriteWins | src/commands.rs:409-422 | the map holds for a key the value of the last pair with that key |
| Decode.KeysWereWritten | src/commands.rs:409-422 | every key of the map occurs in some pair, and some pair is its last |
| Streaming.FusedRefinesDecode | src/parser.rs:209-296 | the four fused decoders refine parsing the array and decoding it as the matching command does |
| Streaming.StringsOffStream | src/parser.rs:209-223 | accepts exactly an array of bulk strings and statuses, and returns their texts and the same rest |
| Streaming.FlagsOffStream | src/parser.rs:226-240 | accepts exactly an array of integers, and returns which are 1 |
| Streaming.PairsOffStream | src/parser.rs:243-263 | accepts exactly pairs of bulk strings and statuses, and returns them in order |
| Streaming.NegativePairs | src/parser.rs:248-254 | a count of -1 decodes no pair, any smaller one panics |
| Streaming.ScoresOffStream | src/parser.rs:275-296 | returns each member with the number in the text behind it |
| Streaming.ParseStringSlice | src/parser.rs:209-223 | over any schedule, agrees with decoding texts off the flat stream |
| Streaming.ParseBoolSlice | src/parser.rs:226-240 | over any schedule, agrees with decoding flags off the flat stream |
| Streaming.ParseStringMap | src/parser.rs:243-263 | over any schedule, agrees with the map of the pairs off the flat stream, counting pairs by truncating division |
| Streaming.ParseZSlice | src/parser.rs:275-296 | over any schedule, agrees with decoding members and scores off the flat stream |
| Streaming.ParseScanReply | src/parser.rs:299-327 | the cursor and keys of the parsed reply, as `ScanCmd` reports them |
| Cmds.StringSliceCmd.Parse | src/commands.rs:294-310 | stores all texts or fails and stores nothing |
| Cmds.BoolSliceCmd.Parse | src/commands.rs:366-382 | stores all flags or fails and stores nothing |
| Cmds.StringMapCmd.Parse | src/commands.rs:406-428 | stores the last-write-wins map of all pairs or fails and stores nothing |
| Cmds.ZSliceCmd.Parse | src/commands.rs:452-475 | stores all members with scores or fails and stores nothing |
| Cmds.ScanCmd.Parse | src/commands.rs:501-538 | a successful parse makes `result` the decoded cursor and keys; a failed one changes nothing |
| ClientReplies.ArrayToZVec | src/client.rs:1214-1239 | the loop returns the pairs of neighbouring texts, skipping everything else |
| ClientReplies.SplitsAtSeparator | src/client.rs:1214-1239 | an element that is no text splits the array into parts decoded one after the other, the first error winning |
| ClientReplies.RunMeans | src/client.rs:1217-1237 | a run of texts yields one pair for every two of them, member and score as they stand, or fails when a score is no number |
| ClientReplies.LenientAgreesWithStrict | src/client.rs:1214-1239 | whenever the strict decoder accepts, the lenient one returns the same |
| ClientReplies.HGetAllTerminates | src/client.rs:534-549 | the loop ends exactly when the strict map decoder accepts the array, and then with its map |
| ClientReplies.HGetAllHangs | src/client.rs:534-549 | an array of two nulls can be received, before any tail, and the loop never ends on it |
| ClientReplies.HGetAllPairs | src/client.rs:534-549 | the loop itself, run for a given number of turns on any array: what it has returned by then, which is the strict decoder's map, and with enough turns it returns whenever that decoder accepts |
| ClientReplies.OptionStringsRefineStrings | src/client.rs:1204-1250 | dropping what is missing from the optional strings gives the plain strings |
| PoolInvariants.PermitsStep | src/pool.rs:86-142 | every step keeps free permits plus permit holders equal to the pool size |
| PoolInvariants.GetterMay | src/pool.rs:86-142 | task by task, what a caller of `get` and its guard may do next, and what they wait for |
| PoolInvariants.OthersMay | src/pool.rs:145-181 | the same for put tasks and closers; only the lock on `closed` makes them wait |
| PoolInvariants.CloserDoes | src/pool.rs:170-181 | the closer that sets the flag goes on to clear the stack, any later one returns at once |
| PoolInvariants.HistoryMeans | src/pool.rs:86-216 | the counts the theorems speak of go up exactly when a guard is handed out, or a dial begins while a put is on its way |
| Ownership.OwnedStep | src/pool.rs:86-216 | every step keeps each dialed connection in exactly the place recorded for it |
| Ownership.OneOwner | src/pool.rs:184-216 | no connection is in two guards, or in a guard and the stack, or twice in the stack |
| Closing.CloseSafeStep | src/pool.rs:145-181 | every step keeps the lock with one put, pushes only into an open pool, and keeps a cleared stack empty |
| Closing.CloseIsFinal | src/pool.rs:158-181 | after the closer that set the flag has cleared the stack, over any run, it stays empty and no getter gets a connection that existed then |
| Closing.BoundedHandOut | src/pool.rs:87-111 | over any run of a closed pool, guards issued and callers that may yet get one never exceed the callers past the check at its start |
| Closing.LateCallersAreRefused | src/pool.rs:87-111 | a caller at the check of a closed pool, or on its way back to it from an expired connection, stays there or is refused, over any run |
| Capacity.LiveStep | src/pool.rs:94-140 | every step keeps live connections within the pool size plus the dials that overtook a return |
| Capacity.ExceedsIff | src/pool.rs:94-140 | live connections exceed the pool size exactly when more connections lack a permit than permits lack a connection |
| Capacity.OrderedStep | src/pool.rs:153-164 | steps without overlapping puts keep the stack ordered by age |
| Capacity.PopMeans | src/pool.rs:101-121 | a pop gives the top of the stack, unless a timeout is set and the top is older than it |
| Capacity.StampMeans | src/pool.rs:153-164 | a put is stamped when it starts, and pushes that stamp however late it comes to push |
| Capacity.StillNoOverlap | src/pool.rs:153-164 | only stamping a put while another is between its stamp and its push makes puts overlap |
| Progress.NoDeadlock | src/pool.rs:86-182 | when nothing of the pool can move, every permit is with a dial, an initialisation or a guard, every put and closer is done, and all work left is callers waiting for a permit |
| Progress.OnlyWorkMoves | src/pool.rs:86-182 | whatever counts as a move of the pool there is work left in it, not a dial or a caller's own doing |
| PoolRuns.EveryRun | src/pool.rs:86-216 | in every reachable state: permits add up, live connections are bounded, every connection is in exactly one place, an emptied closed pool stays empty, and whoever cannot move waits for a permit or for something outside the pool |
| PoolRuns.AfterClose | src/pool.rs:158-181 | from the state where a closed pool was cleared, over any run: the stack is empty and older connections are only with getters that held them already |
| PoolRuns.WithoutOvertaking | src/pool.rs:94-140 | a run in which no dial begins while a return is pending keeps to the pool size |
| PoolRuns.DialExceedsIff | src/pool.rs:124-126 | in every reachable state, a dial makes one connection too many exactly when more returns are pending than there are permits without a connection |
| PoolRuns.ExpiryFromTheTop | src/pool.rs:101-111 | in a run whose puts never overlap, an expired top of the stack means all of it has expired |
| Witnesses.Overtaken | src/pool.rs:203-216 | for every pool size and every k, a run with k dials that overtook a return and exactly k connections more than the pool size: the bound is met |
| Witnesses.Disordered | src/pool.rs:153-164 | a run whose two puts overlap leaves the older connection on top of the newer one |
| Reuse.WiresStep | src/pool.rs:145-216 | every polite step keeps waiting connections without a byte to read and used ones with exactly the replies owed |
| Reuse.ReuseIsSafe | src/client.rs:142-150 | in every polite run, the next reply a guard parses is the answer to its own oldest unanswered command, and whatever waits for reuse is clean |
| Reuse.PoliteIff | src/pool.rs:203-216 | in every state of a polite run, dropping a guard is polite exactly when no connection then on its way back has a byte to read |
| Reuse.StaysPolite | src/pool.rs:203-216 | a run stays polite with every step but a drop of a guard that has an empty buffer and replies owed or left in part |
| Reuse.DropIsCleanIff | src/pool.rs:203-216 | dropped with an empty buffer, a connection goes back clean exactly when every command was answered and every reply read whole |
| Witnesses.StaleReply | src/pipeline.rs:92-95 | a run in which a pipeline stopped by an error makes the next caller read a reply that is not its own |
| Witnesses.TornReply | src/parser.rs:199-203 | a run in which one command whose reply nests an error makes the next caller read an element of that reply instead of its own |
| PoolObject.ConnPool.Get | src/pool.rs:86-142 | without a timeout takes the top of the stack; with one discards only connections older than it, from the top, and takes the first that is not; dials only with none left; within one look more than the stack holds; permits and errors accounted for |
| PoolObject.ConnPool.Put | src/pool.rs:145-166 | stacks the connection exactly when its buffer is empty and the pool open, and keeps the order by age |
| PoolObject.ConnPool.Close | src/pool.rs:170-181 | closes, and empties the stack the first time only |
| IdleStack.ExpiredTop | src/pool.rs:101-111 | in an ordered stack an expired top means everything below has expired, now and later |
| IdleStack.SearchMeans | src/pool.rs:101-121 | without a timeout the top is taken at the first look; with one, all passed over were older than it when looked at and the one taken was not |
| PoolObject.PoolGuard.Drop | src/pool.rs:203-216 | frees the permit and returns the connection exactly when it is still there, its buffer empty and the pool open |
| PoolObject.PoolGuard.Remove | src/pool.rs:198-200 | hands the connection out for good; only the permit goes back |
| Undisturbed.GetRuns | src/pool.rs:86-142 | every call of `get`, refused, served from the stack or dialing, is a run of the transition system in which only its caller moves |
| Undisturbed.DropRuns | src/pool.rs:145-216 | every drop with the put it spawns is a run in which only the two move, and leaves the stack that `put` promises |
| Undisturbed.CloseRuns | src/pool.rs:170-181 | every close is a run in which only its caller moves |
| Undisturbed.GetBoth | src/pool.rs:86-142 | `get` of the pool object and that run, started in the same state, end in the same state with the same outcome and the corresponding connection |
| Undisturbed.DropBoth | src/pool.rs:203-216 | likewise for dropping a guard |
| Undisturbed.CloseBoth | src/pool.rs:170-181 | likewise for closing |
| Undisturbed.MirrorsAtFirst | src/pool.rs:86-216 | a new pool object and the first state of the transition system are the same state |
| Connections.Connection.WriteAll | src/connection.rs:46-56 | appends the bytes to what was sent |
| Connections.Connection.ParseReply | src/connection.rs:60-74 | agrees with the flat parser on the unread bytes |
| Exchange.RepliesInOrder | src/pipeline.rs:91-96 | successful replies come back in order and nothing behind them is read |
| Exchange.FirstFailureEnds | src/pipeline.rs:91-96 | otherwise the first nil or error is returned, the replies before it consumed, those behind it not, however many more replies were awaited |
| Exchange.CommandsDecode | src/pipeline.rs:83-88 | a server reading the bytes written gets exactly the queued commands, in order |
| Exchange.TransactionOutcome | src/multi.rs:60-77 | with every command queued, the reply to EXEC alone decides, and all frames up to it are consumed |
| Exchange.RefusedWhileQueueing | src/multi.rs:60-64 | the first acknowledgement to fail is returned as the error, and everything behind it, the reply to EXEC included, stays unread |
| Exchange.CommittedIff | src/multi.rs:60-77 | against a server that queues all commands: the results exactly when it committed, `TxFailed` on a null, all replies consumed |
| Exchange.ErrorAmongResults | src/multi.rs:66-77 | an error among the results is returned in their place, and what is behind it stays unread |
| Exchange.ExecMeans | src/multi.rs:66-77 | what the caller gets for each kind of reply to EXEC: results, `TxFailed` for a null or an empty array, the error, or an unexpected reply |
| Client.Call | src/client.rs:146-149 | writes the command's text and returns the next reply |
| Delivery.OneIsWhole | src/connection.rs:60-79 | if the next pieces hold exactly one reply, it is the result, the buffer is empty afterwards, and nothing behind it was touched |
| Delivery.AllAreWhole | src/pipeline.rs:91-96 | likewise for the replies to a pipeline |
| Delivery.ExecIsWhole | src/multi.rs:60-77 | likewise for the replies to a transaction |
| Client.ReadAll | src/pipeline.rs:91-96 | one reply for each command, until the first nil or error |
| Client.SerializeAll | src/pipeline.rs:83-87 | one buffer with all commands' texts that never outgrows its capacity, with slack equal to their number |
| Client.SerializeTransaction | src/multi.rs:48-56 | the same for a transaction framed by MULTI and EXEC |
| Client.TransactionDecodes | src/multi.rs:48-58 | a server reading a transaction's bytes gets MULTI, the queued commands in order, and EXEC |
| Client.FrameWords | src/multi.rs:48-56 | the two framing commands are the words `MULTI` and `EXEC` |
| Client.ReadResults | src/multi.rs:60-77 | the replies to MULTI and the commands consumed, the reply to EXEC classified |
| Client.ProcessCmd | src/client.rs:142-150 | on one loaned connection: the command's text sent, the next reply returned, the permit back, the connection on top of the stack exactly when its buffer is empty, which it is when the pieces received end with the reply |
| Client.Pipeline.Cmd | src/pipeline.rs:29-31 | queues the command last |
| Client.Pipeline.Execute | src/pipeline.rs:69-97 | takes the whole queue; nothing happens for an empty one; else all texts sent at once, one reply read for each, loan and permit settled |
| Client.Pipeline.Clear | src/pipeline.rs:100-102 | drops the queue |
| Client.Multi.Cmd | src/multi.rs:28-30 | queues the command last |
| Client.Multi.Exec | src/multi.rs:34-78 | takes the whole queue; nothing happens for an empty one; else MULTI, commands and EXEC sent at once, outcome classified, loan and permit settled |
| Client.Multi.Discard | src/multi.rs:81-83 | drops the queue |
| Queue.TakenOnce | src/pipeline.rs:29-102 | under any interleaving of pushes, executions and clears, the batches taken and the commands still queued are the commands pushed, in order, each once |
| Queue.CallMeans | src/pipeline.rs:29-102 | a push queues its command last; executing and clearing both empty the queue, to run its commands or to drop them |
| Handshake.InitConn | src/client.rs:80-117 | AUTH and SELECT, each only if asked for, the second only once the first was granted; the verdict on the replies |
| Handshake.WhatGrants | src/client.rs:91-96 | a status grants only as `OK`, `Ok`, `oK` or `ok`, an error or a null never, any other reply that parses does; and the error of each refusal |
| Handshake.GreetingSpelled | src/client.rs:86-103 | the greeting is `AUTH` and the password, if one is set, and `SELECT` and the number in decimal, if it is positive |
| Handshake.AcceptedIff | src/client.rs:85-112 | a new connection is accepted exactly when every answer grants, and then all answers and nothing more have been read |
| Handshake.RefusedBy | src/client.rs:91-111 | the first answer that refuses decides the error, and those behind it stay unread |

## Left out

- Reuse.ReuseIsSafe: guards are assumed to be dropped with bytes in the buffer or after one whole reply for each command; a read abandoned by a timeout or a cancelled future (src/connection.rs:49-68) leaves a connection in mid-frame and falls outside that hypothesis.
- Streaming.FusedRefinesDecode: for an odd count the pair decoders read one element less than the array has, so they are compared with parsing one element less.
- ClientReplies.HGetAllPairs: the loop is given a number of turns, since it need not end; `HGetAllTerminates` says when it does.
- Reader.ReadLine: after a line that is too long, how much of the line's worth was consumed depends on the pieces that arrived, so only its bound is stated.
- Connections.Connection.WriteAll: a write that fails or times out (src/connection.rs:46-56) is not modelled; every write is complete.
- Connections.Connection.ParseReply: the read timeout (src/connection.rs:60-67) is not modelled; see the hypothesis of `Reuse.ReuseIsSafe`.
- PoolObject.ConnPool.Get: the caller finds a free permit or a closed pool, and dialing together with initialising the new connection has one given outcome; waiting for a permit belongs to the concurrent pool.
- PoolObject.PoolGuard.Drop: the spawned put runs at once; its interleavings belong to the concurrent pool.
- Panics: a negative array count (a capacity overflow) and a bulk length whose two extra bytes overflow are the outcome `Panicked`; in a release build the latter wraps instead.
- Allocation failure for huge announced counts and lengths.
- Floating point: parsing of scores is a function parameter of the decoders; `format_float` is not modelled.
- Socket errors in the middle of a read or write, and a server that closes the connection during an exchange in the concurrent pool; in the codec the stream may end anywhere.
- Message texts of errors: only the distinctions a caller can make are kept.
- Cancelling a caller of `get`, and fairness among callers waiting for a permit.
- An evicted connection counts as discarded from the moment it is popped.
- doc/architecture.md shows the permit acquired only on the way to a dial; the code acquires it before looking at the stack, and the model follows the code.
- Publish/subscribe, scripts and sentinel failover: single replies classified, a hash of a library, a fallback loop.
- The methods of `Client` that wrap one command each, and the command objects whose `parse` is a single match.
