# Pounce: a verified model of its stateful cores

Pounce is an ASGI server. This project models the parts of it whose guarantees
range over whole runs, all inputs or all interleavings, and proves those
guarantees in Dafny:

- **Priority scheduler** (`Priority`, `PriorityOrder`, `PriorityTurns`,
  `PriorityQueues`): the RFC 9218 write scheduler of an HTTP/2 connection. The
  ready set is refined by the deques, the pick is the least ready stream, calls
  move no stream but their own, incremental streams take turns, a
  non-incremental head stays, and no interleaving with `await_turn` loses a
  wake-up.
- **Rate limiter** (`TokenBuckets`, `RateLimits`, `RateLimitOrder`): the bucket
  admits a request exactly when every window allows it, is the best such policy,
  cleanup is invisible exactly when buckets refill within the idle window, and
  the cap forces out the least recently seen.
- **HTTP/1.1 parser and response framer** (`FastH1`, `FastH1Accepted`,
  `FastH1Wire`, `FastH1Feed`, `ResponseFrame`): what an accepted request
  satisfies, that every well-formed one is read back as it was written, when the
  outcome does not depend on how the bytes were split, and that parser and
  framer undo each other.
- **Static files** (`ByteRanges`, `FileStreaming`, `Mounts`, `StatCache`): the
  range list is the canonical form of the bytes asked for, announced and streamed
  lengths agree, and when exactly the metadata cache cannot be told from uncached
  resolution.
- **Drain protocols** (`DrainBridge`, `AsyncPool`): status grammar, fixed
  deadlines, what each pass has to do, termination, and conservation of handoffs.
- **Accounting and admission** (`H2Bodies`, `RequestQueues`, `Proxy`): body
  bytes of HTTP/2 streams, slots of the request queue, and the client selected
  from a forwarded chain.

`Wrappers`, `Text` and `Lru` hold shared definitions. State that the original
changes in place is a class; each of its methods is proved to take the state to
the value of a function, and the theorems are about that function. A protocol
whose steps interleave is a state machine over events, and its theorems hold of
every sequence of them.

`dafny verify dfyconfig.toml` checks the whole project.

## Conventions

- Bytes are characters. Python's `int()` is a parameter that may refuse.
- Clocks are parameters: every reading the code takes is chosen by the caller.
  Tokens, rates and times of the rate limiter are reals; the drain protocols
  count in whole milliseconds.
- An `asyncio.Event` is a handle into a sequence of flags, because
  `remove_stream` forgets an event that a waiter still holds.

## Where the code and its documentation differ

The model follows the code.

- The method pattern ends in `$`, which also matches before one final line feed;
  `FastH1Accepted.MethodWithLineFeed` shows the accepted input and
  `FastH1Accepted.RequestLineExactly` says exactly which lines pass.
- "Headers too large" on a buffer without blank line is not final when the blank
  line straddles the limit; `FastH1Feed.TooLargeFinalExactly` and
  `FastH1Feed.ChunkingIndependentExactly` give the exact conditions.
- An open range `N-` past the end of the file is ignored, although the docstring
  promises 416 for a start past the end (`ByteRanges.ParseRangeHeader`).
- A body of zero bytes sends no message at all (`FileStreaming.SendFileBody`).
- A forwarded chain shorter than the hop count yields its leftmost entry,
  although `apply_proxy_headers` documents a fall-back to the direct peer
  (`Proxy.ShortChainLeftmost`). So an entry supplied by the client can be selected
  when fewer hops append one than are trusted (`Proxy.ClientCannotChooseExactly`).
- With rate * 300 < burst an idle client gets a fresh burst before it has earned
  it (`RateLimits.CleanupTransparentExactly`).
- A precompressed sibling that appears or becomes newer later is not noticed
  while a cache entry lives (`StatCache.NewVariantUnseen`);
  `StatCache.CacheTransparentExactly` says for which mounts that can happen.
- Control characters other than NUL pass in header names, and a colon without a
  space after it does not always end a name, so the duplicate and smuggling rules
  are about the names as split (`FastH1Accepted.ControlCharacterNames`,
  `FastH1Accepted.NameBeforeColonExactly`, `FastH1Accepted.HiddenName`).

## Model

| member | source | states |
|---|---|---|
| `Priority.PeekIsTop` | src/pounce/_priority.py:227-236 | the walk over urgencies ends at the head of the best non-empty deque, and only there |
| `Priority.NothingReady` | src/pounce/_priority.py:227-236 | nothing is picked exactly when every deque is empty |
| `Priority.CallOnQueue` | src/pounce/_priority.py:120-202 | what each call does to each single deque, whatever the others hold |
| `Priority.CallKeepsInv` | src/pounce/_priority.py:120-202 | every call keeps each ready stream once, in the deque of its current priority, and turn events unshared |
| `Priority.CallRefines` | src/pounce/_priority.py:120-202 | one call changes the set of ready streams as its name says and in no other way |
| `Priority.ReadySetRefinement` | src/pounce/_priority.py:120-202 | after every call sequence the deques hold exactly the streams left scheduled, each once, where its priority says |
| `Priority.PickPrecedesAll` | src/pounce/_priority.py:173-192 | the stream picked is ready and precedes every other ready stream |
| `Priority.NextIsLeastReady` | src/pounce/_priority.py:173-192 | a stream is picked if and only if it is the least ready one by urgency, non-incremental first, queue position; None if and only if nothing is ready |
| `PriorityOrder.DequeAfterRemoval` | src/pounce/_priority.py:265-273 | withdrawing the stream at place k of a deque closes the gap and moves no other; a new priority puts it at the back |
| `PriorityOrder.OthersKeepOrder` | src/pounce/_priority.py:120-202 | no call changes the order in which any two other streams are served |
| `PriorityOrder.ToTheBack` | src/pounce/_priority.py:120-171 | a stream that becomes ready, gets a new priority or has had its turn is served after all of its priority |
| `PriorityOrder.NothingMoves` | src/pounce/_priority.py:120-202 | any other call on a stream it does not withdraw leaves every deque as it was |
| `PriorityTurns.RoundRobinFair` | src/pounce/_priority.py:155-192 | k rounds over k incremental streams serve each once, in order, and restore the deques |
| `PriorityTurns.HeadKeptExactly` | src/pounce/_priority.py:120-192 | a non-incremental head keeps its place through a call on others if and only if no stream of strictly better urgency becomes ready |
| `PriorityTurns.HeadSticks` | src/pounce/_priority.py:120-192 | the same through whole runs of such calls |
| `PriorityTurns.CallsWakeHead` | src/pounce/_priority.py:238-245 | calls only set events, leave the event of the new head set, and touch no other |
| `PriorityTurns.ParksExactly` | src/pounce/_priority.py:204-225 | a task gets past the check if and only if its stream is unregistered or the least ready one; otherwise it parks on a cleared event |
| `PriorityTurns.LeavesExactly` | src/pounce/_priority.py:204-225 | a parked task leaves its wait if and only if its event is set |
| `PriorityTurns.RunKeepsSys` | src/pounce/_priority.py:194-245 | every waiter is awake, about to be released, or parked on the live event of a stream whose turn it is not, in every interleaving |
| `PriorityTurns.NoLostWakeup` | src/pounce/_priority.py:194-245 | in no reachable state is a stream parked that the scheduler would pick: a parked waiter holds the live event of its registered stream, or one that `remove_stream` popped and is about to set |
| `PriorityTurns.WaiterGetsOut` | src/pounce/_priority.py:204-225 | a waiter whose turn has come or whose stream is gone leaves `await_turn` in its next steps |
| `PriorityQueues.FoldParts` | src/pounce/_priority.py:64-80 | the last valid urgency wins, any bare `i` makes the stream incremental |
| `PriorityQueues.ReadPartExactly` | src/pounce/_priority.py:67-80 | blanks aside, a part is an urgency if and only if it is `u=` and a number of 0..7, and asks for turns if and only if it is `i` |
| `PriorityQueues.UrgencyAndIncremental` | src/pounce/_priority.py:67-80 | a value such as `u=1, i` is read as that urgency and the flag |
| `PriorityQueues.ParsePriority` | src/pounce/_priority.py:43-82 | the same for the header value as a whole, with urgency always within 0..7 |
| `PriorityQueues.RemoveFirst` | src/pounce/_priority.py:265-273 | stopping at the first deque that holds the stream removes it from all of them |
| `PriorityQueues.Scheduler.constructor` | src/pounce/_priority.py:111-118 | starts with nothing ready and nobody waiting |
| `PriorityQueues.Scheduler.AddToReady` | src/pounce/_priority.py:259-263 | appends to the deque of its priority unless already there |
| `PriorityQueues.Scheduler.RemoveFromReady` | src/pounce/_priority.py:265-273 | removes the stream from every deque and reports whether it was ready |
| `PriorityQueues.Scheduler.NextStream` | src/pounce/_priority.py:173-192 | returns the pick specified by `Priority.NextIsLeastReady` |
| `PriorityQueues.Scheduler.WakeCurrent` | src/pounce/_priority.py:238-245 | sets the event of the stream picked and no other |
| `PriorityQueues.Scheduler.SetPriority` | src/pounce/_priority.py:120-131 | a scheduled stream moves to its new deque, then the head is woken; the invariant holds |
| `PriorityQueues.Scheduler.Schedule` | src/pounce/_priority.py:138-147 | the stream becomes ready once; the invariant holds |
| `PriorityQueues.Scheduler.Unschedule` | src/pounce/_priority.py:149-153 | the stream is ready no more; the invariant holds |
| `PriorityQueues.Scheduler.MarkWrote` | src/pounce/_priority.py:155-171 | rotates the head of an incremental deque and changes nothing otherwise |
| `PriorityQueues.Scheduler.RemoveStream` | src/pounce/_priority.py:194-202 | forgets the stream and returns the event still to be set |
| `PriorityQueues.Scheduler.AwaitTurn` | src/pounce/_priority.py:204-225 | returns at once for an unregistered or picked stream, otherwise clears the event it will wait on |
| `PriorityQueues.Scheduler.HasPending` | src/pounce/_priority.py:248-251 | true if and only if some stream is ready |
| `TokenBuckets.LevelIsTightest` | src/pounce/_rate_limiter.py:66-87 | the token level is the tightest of all windows, whatever was admitted before |
| `TokenBuckets.AdmissionExact` | src/pounce/_rate_limiter.py:52-87 | a request is admitted if and only if that keeps every window ending at it within burst + rate * length |
| `TokenBuckets.WindowBound` | src/pounce/_rate_limiter.py:52-87 | no interval of time, wherever it starts and ends, sees more than burst + rate * length admissions |
| `TokenBuckets.BucketIsMaximal` | src/pounce/_rate_limiter.py:52-87 | no other policy that respects the same windows admits more, at any point of the run |
| `TokenBuckets.TokenBucket.constructor` | src/pounce/_rate_limiter.py:52-64 | a bucket starts full |
| `TokenBuckets.TokenBucket.Consume` | src/pounce/_rate_limiter.py:66-87 | refills up to the burst, then admits and spends one token if there is one |
| `TokenBuckets.TokenBucket.IsFullAt` | src/pounce/_rate_limiter.py:89-99 | whether a refill now would reach the burst, without changing the bucket |
| `RateLimits.CheckOk` | src/pounce/_rate_limiter.py:167-195 | one check keeps table and recency order in step and within the cap |
| `RateLimits.SizeCapped` | src/pounce/_rate_limiter.py:167-232 | however many addresses ask and whatever the clock does, at most the cap is tracked |
| `RateLimits.IdleIsFull` | src/pounce/_rate_limiter.py:89-111 | a bucket found stale, by its level or by its idle time, has refilled when rate * 300 >= burst |
| `RateLimits.CheckAgrees` | src/pounce/_rate_limiter.py:167-232 | one check answers as a never-forgotten bucket would, and forgets only buckets that are full |
| `RateLimits.RunsAgree` | src/pounce/_rate_limiter.py:167-232 | the same for whole runs |
| `RateLimits.CleanupTransparentExactly` | src/pounce/_rate_limiter.py:89-232 | with the cap unused, cleanup is invisible next to one eternal bucket per address if and only if rate * 300 >= burst |
| `RateLimits.ComebackPasses` | src/pounce/_rate_limiter.py:197-232 | burst, 300 s of silence, burst again: the limiter admits all of it whatever the rate |
| `RateLimits.RateLimiter.constructor` | src/pounce/_rate_limiter.py:134-165 | an empty table; a cap below one is refused |
| `RateLimits.RateLimiter.FindStale` | src/pounce/_rate_limiter.py:214-220 | finds exactly the full and the long idle buckets |
| `RateLimits.RateLimiter.DropStale` | src/pounce/_rate_limiter.py:222-231 | deleting one by one, with the second look, removes exactly those |
| `RateLimits.RateLimiter.MaybeCleanup` | src/pounce/_rate_limiter.py:197-232 | nothing before the interval is over unless the table is full; then all stale buckets go |
| `RateLimits.RateLimiter.EvictForOne` | src/pounce/_rate_limiter.py:186-187 | drops the least recently seen until one more fits |
| `RateLimits.RateLimiter.CheckRateLimit` | src/pounce/_rate_limiter.py:167-195 | cleanup, lookup or eviction, then one token; cap and order kept |
| `RateLimitOrder.CleanupExactly` | src/pounce/_rate_limiter.py:197-232 | cleanup waits out 300 s unless the table is full; then a bucket stays if and only if it is neither full nor idle for 300 s |
| `RateLimitOrder.EvictExactly` | src/pounce/_rate_limiter.py:183-189 | eviction takes as many as it must, from the front, and leaves the rest as it was |
| `RateLimitOrder.RecencyOrder` | src/pounce/_rate_limiter.py:180-192 | over every run the table lists its addresses in the order of their last requests |
| `RateLimitOrder.EvictsLeastRecent` | src/pounce/_rate_limiter.py:183-192 | every address forced out at the cap was last seen before every one that stays |
| `FastH1.BlankStable` | src/pounce/_fast_h1.py:74-76 | a blank line found stays the first one when bytes are appended |
| `FastH1.NoteHeader` | src/pounce/_fast_h1.py:162-207 | one header line appended to the list and noted in the flags, or refused |
| `FastH1.ParseHeaders` | src/pounce/_fast_h1.py:131-207 | the header loop computes the recursive scan of the block, stopping at the first refusal |
| `FastH1.ReadHead` | src/pounce/_fast_h1.py:95-224 | request line, headers and the Content-Length and Transfer-Encoding rule |
| `FastH1.ParseRequest` | src/pounce/_fast_h1.py:50-239 | the parser computes `FastH1.Parse`, the function the theorems below are about |
| `FastH1Accepted.AddAgrees` | src/pounce/_fast_h1.py:162-207 | one header keeps the loop's scalars equal to counts over the list |
| `FastH1Accepted.ScanAgrees` | src/pounce/_fast_h1.py:140-207 | so does the whole loop |
| `FastH1Accepted.HeadAgrees` | src/pounce/_fast_h1.py:131-224 | an accepted head has at most one Content-Length and one Host, never Content-Length with Transfer-Encoding, and the length that header gives |
| `FastH1Accepted.AcceptedBody` | src/pounce/_fast_h1.py:72-239 | the same of every accepted request; the body is exactly the Content-Length bytes after the first blank line, ending at `consumed` |
| `FastH1Accepted.CutLineRejoins` | src/pounce/_fast_h1.py:99-119 | cutting a line at its first two spaces loses nothing |
| `FastH1Accepted.JoinedLineCuts` | src/pounce/_fast_h1.py:99-119 | three parts joined by spaces are cut where they were joined |
| `FastH1Accepted.RequestLineExactly` | src/pounce/_fast_h1.py:95-129 | a request line is accepted and read as method, target and version if and only if it is those written out |
| `FastH1Accepted.AcceptedLine` | src/pounce/_fast_h1.py:95-129 | so it is on every accepted request |
| `FastH1Accepted.MethodWithLineFeed` | src/pounce/_fast_h1.py:41-44 | a method that ends in a bare line feed is accepted whenever the method before it is |
| `FastH1Accepted.NameBeforeColonExactly` | src/pounce/_fast_h1.py:149-160 | a header's name is the text before the first colon, and free of colons, if and only if a space follows that colon or no colon has one after it |
| `FastH1Accepted.HiddenName` | src/pounce/_fast_h1.py:149-207 | otherwise the line is read as an unknown header and touches none of the flags |
| `FastH1Accepted.ControlCharacterNames` | src/pounce/_fast_h1.py:162-174 | of the control characters only NUL keeps a name from being accepted |
| `FastH1Wire.LowerExactly` | src/pounce/_fast_h1.py:166 | capitals become the small letter at the same place of the alphabet, everything else stays |
| `FastH1Wire.ChunkedAnyCase` | src/pounce/_fast_h1.py:194-197 | a value says chunked if and only if it holds that word in some letter case |
| `FastH1Wire.HeaderRefused` | src/pounce/_fast_h1.py:162-174 | a header is refused for its name if and only if that holds a space or NUL, then for the number of headers |
| `FastH1Wire.HeaderNoted` | src/pounce/_fast_h1.py:166-207 | what an admissible header does to the flags and which errors it causes, by its name in any letter case |
| `FastH1Wire.SplitAtPair` | src/pounce/_fast_h1.py:149-153 | a line is cut at its first colon followed by a space, the value taken as it is |
| `FastH1Wire.SplitAtColon` | src/pounce/_fast_h1.py:154-160 | a line without such a pair is cut at its first colon, blanks before the value dropped |
| `FastH1Wire.SplitNothing` | src/pounce/_fast_h1.py:155-158 | a line without colon is skipped |
| `FastH1Wire.TokenCharacters` | src/pounce/_fast_h1.py:41-44 | the characters of a method are the visible ones but the delimiters, as section 5.6.2 of RFC 9110 has it |
| `FastH1Wire.HeadSplits` | src/pounce/_fast_h1.py:95-133 | first line and header block are the head cut at its first line break |
| `FastH1Wire.RequestLineErrors` | src/pounce/_fast_h1.py:107-129 | method, target and version are checked in this order, each with its own error |
| `FastH1Wire.MalformedExactly` | src/pounce/_fast_h1.py:99-105 | a line is malformed if and only if it has fewer than two spaces |
| `FastH1Wire.AdmissibleExactly` | src/pounce/_fast_h1.py:140-207 | the loop's rules on a list of headers, in terms of the names as sent |
| `FastH1Wire.AcceptedOnWire` | src/pounce/_fast_h1.py:72-239 | of every accepted request, whatever the letter case of its header names: at most one Content-Length and Host, no Content-Length with Transfer-Encoding, the body of the length given, the list of the lines sent |
| `FastH1Wire.RequestReadsBack` | src/pounce/_fast_h1.py:72-239 | every well-formed request within the limits is accepted and read back as it was written, whatever follows it |
| `FastH1Wire.PrefixWaitsExactly` | src/pounce/_fast_h1.py:75-90 | every proper prefix of an accepted request waits for more, unless it is over the limit without its blank line |
| `FastH1Feed.ParseStable` | src/pounce/_fast_h1.py:72-239 | an outcome reached with the blank line present, other than need-more, survives appended bytes |
| `FastH1Feed.ParseReadsConsumed` | src/pounce/_fast_h1.py:217-239 | an accepted request depends on its consumed bytes only |
| `FastH1Feed.TooLargeStands` | src/pounce/_fast_h1.py:75-90 | "too large" without blank line stands if and only if the blank line that follows does not straddle the limit |
| `FastH1Feed.TooLargeFinalExactly` | src/pounce/_fast_h1.py:75-90 | which buffers make that verdict final for every continuation |
| `FastH1Feed.DrainExtend` | src/pounce/_fast_h1.py:68-93 | parsing a longer buffer is parsing the shorter one and feeding it the rest |
| `FastH1Feed.ChunkingIndependentExactly` | src/pounce/_fast_h1.py:68-239 | requests, bodies and final state are the same for every split of the stream if and only if no blank line straddles the header limit |
| `FastH1Feed.H1Chunking` | src/pounce/_fast_h1.py:68-239 | that theorem for this parser and its limits |
| `FastH1Feed.DrainLoop` | src/pounce/_fast_h1.py:68-71 | parsing and dropping `consumed` until nothing complete is left |
| `FastH1Feed.Serve` | src/pounce/_fast_h1.py:68-71 | reading chunk by chunk gives what parsing the whole stream gives |
| `ResponseFrame.EmitHeaders` | src/pounce/_response_frame.py:66-77 | text is emitted if and only if no name holds CR, LF or a colon and no value CR or LF |
| `ResponseFrame.Serialize` | src/pounce/_response_frame.py:54-82 | status line, server, date and headers in that order, ended by a blank line; refused if and only if a header is invalid |
| `ResponseFrame.StatusLineCode` | src/pounce/_response_frame.py:66-69 | the status line carries the status code in decimal as its second word |
| `ResponseFrame.NoBlankInside` | src/pounce/_response_frame.py:19-24 | no blank line begins inside validated header lines |
| `ResponseFrame.FirstBlankEndsHead` | src/pounce/_response_frame.py:66-77 | the first blank line of head + body is exactly the end of the head, for any body |
| `ResponseFrame.SplitUndoesLine` | src/pounce/_fast_h1.py:149-160 | the parser splits an emitted line where the framer joined it |
| `ResponseFrame.BlockReadsBack` | src/pounce/_fast_h1.py:140-160 | the parser finds on the emitted lines the headers they were made from |
| `ResponseFrame.AddAllExactly` | src/pounce/_fast_h1.py:162-207 | a list of headers is accepted by the loop if and only if it is within its count, name, length and duplicate rules |
| `ResponseFrame.FramerParserRoundTrip` | src/pounce/_response_frame.py:54-77 | the parser's loop over an emitted head recovers the list with lower-cased names, if and only if the list is within the parser's rules |
| `ByteRanges.CanonicalUnique` | src/pounce/_static.py:816-837 | two canonical lists of the same bytes are equal |
| `ByteRanges.MergeStep` | src/pounce/_static.py:829-836 | one merge keeps the list canonical and adds exactly the new bytes |
| `ByteRanges.Coalesce` | src/pounce/_static.py:816-837 | sorted, disjoint, non-adjacent, the same bytes; a canonical list is left alone |
| `ByteRanges.OrderIrrelevant` | src/pounce/_static.py:816-837 | reordering or repeating ranges cannot change the result |
| `ByteRanges.TotalBounded` | src/pounce/_static.py:816-837 | a canonical list inside the file has at most as many bytes as the file |
| `ByteRanges.SpecForms` | src/pounce/_static.py:764-793 | blanks aside, what a spec means by what stands before and after its first dash, and which are malformed |
| `ByteRanges.NoDashIsBad` | src/pounce/_static.py:767-768 | a spec without dash is malformed |
| `ByteRanges.HeaderSpecs` | src/pounce/_static.py:749-756 | the specs are the texts between the commas after the unit |
| `ByteRanges.WrittenRangeReadsBack` | src/pounce/_static.py:770-777 | a range written out in digits is read as that range |
| `ByteRanges.ParseSpecs` | src/pounce/_static.py:762-814 | ignored if and only if some spec is malformed; else 416, or the canonical list of exactly the bytes wanted |
| `ByteRanges.ParseRangeHeader` | src/pounce/_static.py:727-814 | the same for the header, with the unit, the empty file and the limit of ten parts |
| `FileStreaming.ReadLoop` | src/pounce/_static.py:1148-1167 | the loop sends the requested bytes that exist, in non-empty chunks, all but the last promising more |
| `FileStreaming.SendFileBody` | src/pounce/_static.py:1113-1167 | exactly file[offset..offset+count) as far as it exists; the body is ended if and only if it was all there and count > 0; large bodies go to sendfile |
| `FileStreaming.StreamRange` | src/pounce/_static.py:1043-1058 | one range, every message promising more |
| `FileStreaming.PartHeaderReads` | src/pounce/_static.py:987-996 | a part begins with its boundary and the header lines of its type and range |
| `FileStreaming.PartRangeReadsBack` | src/pounce/_static.py:987-996 | the range a part announces is its own, in decimal, with the size of the file after the slash |
| `FileStreaming.PartsAddUp` | src/pounce/_static.py:985-1003 | the length computed in advance is the length of the parts, less what the file no longer has |
| `FileStreaming.SendMultipart` | src/pounce/_static.py:968-1067 | parts and closing boundary are streamed in order; announced and streamed length agree if and only if every range is still inside the file |
| `Mounts.PrepareMounts` | src/pounce/_static.py:215-250 | the configured mounts, normalised, longest first |
| `Mounts.NormalizeExactly` | src/pounce/_static.py:222-227 | a prefix loses its final slashes and gains a first one if it has none |
| `Mounts.PrepareStable` | src/pounce/_static.py:249-250 | mounts of one length keep their configuration order, none lost and none added |
| `Mounts.SelectIsLongest` | src/pounce/_static.py:437-456 | the mount selected is a longest match; None if and only if none matches |
| `Mounts.LongestUnique` | src/pounce/_static.py:437-456 | matching mounts of equal length have the same prefix |
| `Mounts.FirstConfiguredServes` | src/pounce/_static.py:249-250 | of several mounts with the selected prefix, the one configured first serves the path |
| `Mounts.BelowRoot` | src/pounce/_static.py:438-446 | the root mount serves exactly what starts with a slash, relative to it |
| `Mounts.BelowMount` | src/pounce/_static.py:447-456 | any other mount serves exactly its own path and what follows it after a slash, and which relative path that is |
| `Mounts.CacheBound` | src/pounce/_static.py:205-213 | the largest size asked for by a caching mount, at least one; zero if and only if none caches |
| `StatCache.CachedStep` | src/pounce/_static.py:377-409 | one lookup keeps the cache well-formed and within its bound, and each entry is old or the fresh identity result |
| `StatCache.TouchedIsLast` | src/pounce/_static.py:387-409 | a hit or a new entry becomes the most recent, the others keep their order, and the oldest makes room |
| `StatCache.ResolvesNothing` | src/pounce/_static.py:437-513 | nothing is served for a path that no mount matches, or that leads to no regular file |
| `StatCache.ResolvesFile` | src/pounce/_static.py:515-547 | without a preferable sibling the file itself is served, tagged by its own mtime and size |
| `StatCache.ResolvesSibling` | src/pounce/_static.py:515-591 | otherwise the first acceptable sibling, with its own size and tag and the file's mtime |
| `StatCache.AlwaysCurrent` | src/pounce/_static.py:358-409 | whatever happens to the files, every identity result carries the current mtime and size and their ETag; the bound holds |
| `StatCache.VariantExactly` | src/pounce/_static.py:551-591 | a precompressed sibling is served if and only if the mount and the request allow one and some acceptable sibling is safe, present and not older than the file |
| `StatCache.HitAgreesExactly` | src/pounce/_static.py:377-394 | a confirmed entry is what a fresh resolution gives if and only if no sibling has become preferable to its file |
| `StatCache.SteadyRuns` | src/pounce/_static.py:358-409 | if what is cached at one moment can be trusted at every later one, every run is answered as without cache |
| `StatCache.CacheTransparent` | src/pounce/_static.py:358-409 | over any run that leaves layout and compressed files alone, whatever happens to the other files, the caching resolver answers as the uncached one |
| `StatCache.NewVariantUnseen` | src/pounce/_static.py:377-394 | for any mounts, and any cached path with a possible sibling, a run in which it does not |
| `StatCache.LayoutTransparentExactly` | src/pounce/_static.py:358-591 | on one layout, with all files free to change, the cache is unnoticeable if and only if no cached path has a sibling that could be served |
| `StatCache.CacheTransparentExactly` | src/pounce/_static.py:358-591 | for every site whose paths resolve alike throughout, siblings and stats free, the cache is unnoticeable if and only if no path is served by a mount that both caches and serves siblings |
| `StatCache.StaticFiles.constructor` | src/pounce/_static.py:184-213 | mounts prepared, cache empty, bound from the mounts |
| `StatCache.StaticFiles.ResolveFile` | src/pounce/_static.py:358-409 | for the normalised path and the header, or an empty one, the cache is moved, dropped and evicted in place as specified; uncached when no mount caches |
| `DrainBridge.IicBridge.constructor` | src/pounce/_subinterpreter_bootstrap.py:317-322 | the loop's variables at the start |
| `DrainBridge.IicBridge.StartDraining` | src/pounce/_subinterpreter_bootstrap.py:344-372 | the first drain command announces, closes the acceptor on reload and arms the deadline; later ones do nothing |
| `DrainBridge.IicBridge.CheckDeadline` | src/pounce/_subinterpreter_bootstrap.py:374-394 | stop at the deadline, else announce idleness once |
| `DrainBridge.IicBridge.Poll` | src/pounce/_subinterpreter_bootstrap.py:325-394 | one pass of the loop |
| `DrainBridge.StatusGrammar` | src/pounce/_subinterpreter_bootstrap.py:317-394 | in every run the log is DRAINING, at most one IDLE, at most one more DRAINING |
| `DrainBridge.DeadlineFixed` | src/pounce/_subinterpreter_bootstrap.py:344-383 | once armed the deadline never moves; once stopped nothing is reported any more |
| `DrainBridge.IdleIsTrue` | src/pounce/_subinterpreter_bootstrap.py:379-394 | before the deadline IDLE is reported only by an idle worker whose acceptor has drained |
| `DrainBridge.StopsAtDeadline` | src/pounce/_subinterpreter_bootstrap.py:379-383 | the first pass at or after the deadline is the last |
| `DrainBridge.DrainTerminates` | src/pounce/_subinterpreter_bootstrap.py:325-383 | however busy the worker stays, a drain is over within its budget rounded up to whole passes |
| `DrainBridge.ShutdownReached` | src/pounce/_subinterpreter_bootstrap.py:325-343 | a queued shutdown stops the loop once the commands before it are polled, idle or not |
| `DrainBridge.CommandsInOrder` | src/pounce/_subinterpreter_bootstrap.py:327-329 | commands are taken one a pass, in the order they arrived |
| `DrainBridge.DrainsExactly` | src/pounce/_subinterpreter_bootstrap.py:344-372 | a bridge drains from the pass that takes its first drain command on and only then; that pass arms the deadline, and closes the acceptor on a reload |
| `DrainBridge.StopsExactly` | src/pounce/_subinterpreter_bootstrap.py:330-383 | the loop ends with a pass if and only if it takes a shutdown or finds the deadline over |
| `DrainBridge.ReportsExactly` | src/pounce/_subinterpreter_bootstrap.py:330-394 | exactly what each pass puts on the status queue |
| `DrainBridge.IdleIsReported` | src/pounce/_subinterpreter_bootstrap.py:391-394 | an idle worker with a drained acceptor is reported by the pass that sees it, if not before |
| `DrainBridge.BudgetConserved` | src/pounce/_subinterpreter_bootstrap.py:107-111 | the workers' connection shares add up to the budget, differ by at most one with the first workers ahead, and are positive when there is one each |
| `AsyncPool.HandoffConservation` | src/pounce/async_pool.py:141-238 | in every interleaving each accepted handoff is still queued or was started once, in order; no task runs after `_serve` has returned |
| `AsyncPool.IdleExitExactly` | src/pounce/async_pool.py:194-224 | the queue drain is left early if and only if this pass and the five before it found the queue empty and nothing in flight; then everything accepted was started and done |
| `AsyncPool.SeenExactly` | src/pounce/async_pool.py:203-222 | what each pass of the queue drain finds |
| `AsyncPool.ServingPassExactly` | src/pounce/async_pool.py:163-186 | a serving pass leaves if and only if that is due; otherwise it starts the next handoff if there is one, and arms the safety deadline on the first external shutdown it sees |
| `AsyncPool.DrainPassExactly` | src/pounce/async_pool.py:194-238 | a draining pass starts the next handoff until its deadline, then waits for what is running |
| `AsyncPool.WaitPassExactly` | src/pounce/async_pool.py:226-238 | the wait ends when its tasks are done, or at its deadline with exactly those still running cancelled |
| `AsyncPool.ServingProgress` | src/pounce/async_pool.py:163-186 | without a shutdown the pool goes on serving, and n passes start n of the handoffs accepted before them, or all there are |
| `AsyncPool.PhasesForward` | src/pounce/async_pool.py:149-238 | phases only move forward and their deadlines never move |
| `AsyncPool.PollLeavesOnTime` | src/pounce/async_pool.py:149-238 | the next pass leaves each phase when its time is up or its work is done |
| `AsyncPool.DrainEndsOnTime` | src/pounce/async_pool.py:194-238 | whatever arrives meanwhile, the first pass at or after a drain deadline is past that phase |
| `AsyncPool.ServeReturnsInTime` | src/pounce/async_pool.py:149-238 | whatever arrives after a shutdown was asked for, with passes at most d apart and cancelled tasks obeying, `_serve` has returned after 2 timeouts and 4 d, or 4 timeouts and 5 d for the external shutdown |
| `AsyncPool.HandoffPool.constructor` | src/pounce/async_pool.py:94-116 | nothing accepted, serving |
| `AsyncPool.HandoffPool.AcceptHandoff` | src/pounce/async_pool.py:141-143 | appends to the queue |
| `AsyncPool.HandoffPool.StartHandoff` | src/pounce/async_pool.py:188-192 | the head of the queue gets a running task |
| `AsyncPool.HandoffPool.DrainHandoffs` | src/pounce/async_pool.py:226-238 | returns at once, or begins to wait for exactly the tasks running now |
| `AsyncPool.HandoffPool.AwaitPass` | src/pounce/async_pool.py:226-238 | the wait ends when its tasks are done, or at its deadline with those still running cancelled |
| `AsyncPool.HandoffPool.GatherPass` | src/pounce/async_pool.py:226-238 | returns once the cancelled tasks have settled |
| `AsyncPool.HandoffPool.ServePass` | src/pounce/async_pool.py:163-186 | one pass of the serving loop, with the safety deadline |
| `AsyncPool.HandoffPool.DrainQueuePass` | src/pounce/async_pool.py:194-224 | one pass of the queue drain, with the idle count |
| `H2Bodies.BodyAccounting` | src/pounce/_h2_handler.py:355-427 | for any order of events the bytes queued to an app are a prefix of those received and within the limit; a refused stream declared or sent more than the limit |
| `H2Bodies.RequestAnswered` | src/pounce/_h2_handler.py:117-124 | a new stream gets a task if and only if it declares no length over the limit; else it is refused and marked |
| `H2Bodies.TaskKeptExactly` | src/pounce/_h2_handler.py:393-427 | a task is taken away if and only if by a reset, its own end, or data that takes the body over the limit; only the last refuses the stream |
| `H2Bodies.MarkStays` | src/pounce/_h2_handler.py:157-162 | the mark of a refused stream stays until a reset or the end of its task |
| `H2Bodies.ClosedStays` | src/pounce/_h2_handler.py:393-427 | a stream without a task never gets another byte |
| `H2Bodies.RefusalIsFinal` | src/pounce/_h2_handler.py:126-162 | nothing is queued after a refusal, even once the mark is cleared by clean-up or reset |
| `H2Bodies.StreamTables.constructor` | src/pounce/_h2_handler.py:110-115 | empty tables |
| `H2Bodies.StreamTables.OnRequest` | src/pounce/_h2_handler.py:357-370 | refused on its declared length, or given a task |
| `H2Bodies.StreamTables.OnWebSocketRequest` | src/pounce/_h2_handler.py:372-391 | given a task |
| `H2Bodies.StreamTables.OnBodyReceived` | src/pounce/_h2_handler.py:393-420 | drops, refuses or queues the data, and returns exactly what is queued; nothing for an unknown stream |
| `H2Bodies.StreamTables.OnStreamReset` | src/pounce/_h2_handler.py:422-427 | forgets the stream's entries |
| `H2Bodies.StreamTables.OnTaskDone` | src/pounce/_h2_handler.py:301-306 | the finished task's clean-up |
| `RequestQueues.NextKeepsInv` | src/pounce/_request_queue.py:57-89 | every step keeps semaphore, depth and totals in step with the requests |
| `RequestQueues.AdmissionConservation` | src/pounce/_request_queue.py:57-240 | in every interleaving at most max_depth requests hold slots, the reported depth is the number in flight that have counted themselves, and queued + rejected + those between two steps are all requests seen |
| `RequestQueues.ShedOnlyWhenFull` | src/pounce/_request_queue.py:57-80 | a request is shed if and only if the queue is bounded and all slots are taken |
| `RequestQueues.StepsAdvance` | src/pounce/_request_queue.py:57-240 | each step takes the request it names one stage further when it is there to take, and leaves the others alone |
| `RequestQueues.ArrivalExactly` | src/pounce/_request_queue.py:57-80 | a new request waits if and only if the queue is unlimited with no slot left or somebody waiting, and is let in whenever a bounded queue has a slot |
| `RequestQueues.ReleaseReturnsSlot` | src/pounce/_request_queue.py:82-89 | a release gives back one slot, and the clamp at zero never acts |
| `RequestQueues.RequestQueue.constructor` | src/pounce/_request_queue.py:38-55 | all slots free |
| `RequestQueues.RequestQueue.Acquire` | src/pounce/_request_queue.py:57-80 | takes a slot if and only if one is free, refuses if and only if the bounded queue is full, and waits otherwise |
| `RequestQueues.RequestQueue.Release` | src/pounce/_request_queue.py:82-89 | gives back one slot |
| `RequestQueues.RequestQueue.GetDepth` | src/pounce/_request_queue.py:91-98 | the number of slots held |
| `Proxy.AppendedEntries` | src/pounce/_proxy.py:109-130 | entries appended by hops follow the entries of the chain before them |
| `Proxy.PlainEntry` | src/pounce/_proxy.py:122-123 | an entry loses the blanks around it and, without line breaks inside, nothing else |
| `Proxy.ForwardedChainStable` | src/pounce/_proxy.py:109-130 | whatever the client sent, the client selected is the first of the entries the trusted hops appended |
| `Proxy.EnoughHops` | src/pounce/_proxy.py:109-130 | with at least as many appended entries as trusted hops, the entry that many places from the right is selected, whatever the client sent |
| `Proxy.TooFewHops` | src/pounce/_proxy.py:109-130 | with fewer, the client's own entry is selected |
| `Proxy.ClientCannotChooseExactly` | src/pounce/_proxy.py:81-130 | the selection does not depend on what the client sent if and only if at least as many hops append an entry as are trusted |
| `Proxy.ShortChainLeftmost` | src/pounce/_proxy.py:109-130 | a chain no longer than the hop count yields its leftmost entry; empty if and only if there is none |
| `Proxy.NamePortRoundTrip` | src/pounce/_proxy.py:133-149 | a name and port are split where they were joined |
| `Proxy.BracketRoundTrip` | src/pounce/_proxy.py:133-149 | so is a bracketed address, whatever colons it holds |
| `Proxy.BracketWithoutPort` | src/pounce/_proxy.py:135-142 | what follows the bracket counts only if it is a colon and a port |
| `Proxy.HostWithoutPort` | src/pounce/_proxy.py:144-149 | any other value is a host as it stands: no colon, several, no name before one, or no port after it |
| `Proxy.ReplaceHeader` | src/pounce/_proxy.py:152-169 | exactly one header of that name afterwards, in the place of the first or else last, all others untouched and in order |
| `Proxy.StrippedKeepsOthers` | src/pounce/_proxy.py:172-181 | stripping forwarded headers keeps every other header, in order |
| `Proxy.ScanForwarded` | src/pounce/_proxy.py:66-79 | of several headers of a name, the last one counts |
| `Proxy.LastValueExactly` | src/pounce/_proxy.py:66-79 | the value that counts is that of the last header of the name |
| `Proxy.ApplyProxyHeaders` | src/pounce/_proxy.py:55-106 | an untrusted peer changes nothing; what a trusted one sets, and what stays |
| `Text.SplitJoin` | src/pounce/_proxy.py:122-122 | splitting undoes joining |
| `Text.JoinSplit` | src/pounce/_proxy.py:122-122 | every text is the join of its parts, none of which holds the separator |
| `Text.StripDrops` | src/pounce/_proxy.py:122-122 | blanks around a text are dropped, and nothing else |
| `Text.DecimalReadsBack` | src/pounce/_static.py:993-993 | a number in decimal reads back as that number, without leading zero |
| `Lru.KeepOut` | src/pounce/_rate_limiter.py:192-192 | taking one key out of the order leaves the others in place |

## Left out

- Sockets, TLS, asyncio transports, `loop.sendfile`, threads and executors; they appear only as events or reads that may return any amount.
- The h2, h11 and wsproto state machines, the ASGI bridges, the workers and the supervisor.
- src/pounce/_h3_handler.py: its body limit repeats the HTTP/2 one.
- `_read_frames` in src/pounce/_ws_handler.py: it forwards messages one by one and keeps no state but one flag.
- Path resolution in src/pounce/_static.py (symlinks, hidden files, index files, directory validation, MIME types, `normpath`) and the parsing of Accept-Encoding: a layout answers for it. All files are read at one moment per request.
- Conditional requests, If-Range and the response headers of the static handler.
- `get_stats` and the wait times of the queue metrics.
- Compression, telemetry, logging, debug pages, templates, command line, configuration and reload coordination.
- Floating-point rounding, and the leniency of Python's `int()`; `isdigit()` followed by `int()` is one reader, so digits that `int()` refuses are not told apart.
- RateLimits.RateLimiter: one caller at a time, and the state of each bucket object is kept as a value in the table, so a bucket shared with a concurrent caller is not modelled.
- RateLimits.CleanupTransparentExactly: speaks of runs in which the cap does not force a bucket out; one that is forced out loses its history.
- RequestQueues.RequestQueue.Acquire: a call that has to wait ends with that answer; what happens when a slot frees up is in the state machine. Cancellation inside `acquire` is not modelled.
- AsyncPool.ServeReturnsInTime: cancelled tasks are assumed to settle by the next pass; the original waits for them however long they take.
- Proxy.ApplyProxyHeaders: a scope always has a client and a server.
- H2Bodies.StreamTables: fresh stream ids are demanded of the caller, as the protocol demands them of the peer; the 413 response and the reset sent with it are not modelled.
