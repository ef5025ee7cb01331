# Aviso client: verified models

A Dafny model of the parts of the Aviso client that carry its hardest promises, and proofs of
those promises. `dafny verify dfyconfig.toml` checks everything.

The centre is `finesse`, the push parser for Server-Sent Events. It cuts bytes into lines as they
arrive, classifies each line, decodes late, keeps three buffers, and stops at two bounds. Around
it stand six smaller systems: the close protocol of the asynchronous Python iterators, the
identifier validator, the `listen_many` iterator with its function triggers, `notify_many`, the
C++ JSON string writer, and the C++ replay loop.

## How the parser is proved

Three layers, each defined without the one above it.

1. **The standard.** `EventStream` defines what a decoded stream means (sections 9.2.5 and 9.2.6
   of the WHATWG HTML Living Standard) without any buffer: a frame is what a line means given all
   the lines before it. `Utf8` holds the byte-at-a-time decoder of section 8.1.1 of the WHATWG
   Encoding Standard and, separately, the piece-at-a-time conversion of Rust's standard library.
2. **Whole byte streams with bounds.** `Lines.Split` cuts a whole stream; `Outcome.OutcomeOf` says
   which frames a bounded parser emits and which bound, if any, stops it, as a function of all
   bytes and of whether the stream has ended.
3. **The machine.** `LineSplitter`, `Dispatcher` and `Parser` are classes with the fields and the
   loops of the Rust code. Ghost fields remember all bytes fed, all lines taken and all frames
   queued; each class invariant says the fields are what that history makes them.

The main results: layer 3 refines layer 2 on every call (`Parser.Parser.Feed`, `End`); layer 2
meets layer 1 on every stream within bounds (`Standard.FramesAreTheStandards`); hence any cutting
into chunks and any popping of frames gives the standard's frames (`Streaming.ParseInChunks`), and
the whole parser state depends on the bytes alone (`Streaming.StateIsWhatWasFed`). `Bounds` proves
where exactly an overflow falls, how much is held and when that is more than documented, and what
`end` can add.
`RoundTrip` prints frames and parses them back.

Definitions that the layers share are held to the source by statements on bytes: what a line of any
form is (`Field.ValueIsKept` and the two after it), where a line ends (`Lines.FirstLine`), what
malformed bytes decode to (`Utf8.OnlyEncodingsDecode`), what each line makes
(`EventStream.RetryMakesFrame`, `Dispatcher.DispatchReadsBuffers`).

## Where code and documentation disagree

The model follows the code.

- `end` can report a line overflow. `crates/finesse/src/lib.rs:138-140` names only an event
  overflow, and `crates/finesse/src/limits.rs:18-19` only a line a held CR completes. The code
  reports it exactly when the whole input is an unfinished byte order mark longer than
  `max_line_bytes`, so only for bounds of 0 and 1 (`Bounds.EndOverflowsALine`, with the concrete
  stream in `Bounds.EndCanOverflowALine`). A line completed by a held CR cannot be too long: its
  content was measured when the CR was held (`Bounds.EndDoes`).
- The parser holds "at most a bound plus 64 KiB" (`crates/finesse/src/limits.rs:19-21`,
  `crates/finesse/src/lib.rs:114-117`). Take the line buffer and `max_line_bytes` (pending data, of
  up to `max_event_bytes`, is held besides). The line buffer crosses that exactly when a full 64 KiB
  piece is copied in behind a line whose content is as long as `max_line_bytes` and whose CR is
  held, and then by one byte (`Bounds.StatedBoundIsCrossed`, `Bounds.OnlyAHeldCrCrosses`); under a
  bound of 0 or 1 an unfinished mark can do it too, by two bytes at most. Under every limit some run
  does cross it (`Bounds.FillTheBuffer`). The bound that holds, and is reached, is
  max(max_line_bytes + 1, 2) and one piece (`Bounds.MemoryIsBounded`, `Bounds.HeldWhileIsBounded`).
- "Each byte is examined once" (`crates/finesse/src/line_splitter.rs:18-21`) holds but for one byte:
  between calls, a byte already looked at will be looked at again if and only if all bytes so far end
  in a CR, and then it is that CR (`LineSplitter.LineSplitter.LooksAgainAtLastCr`). So over a run the
  looks are at most the bytes fed and the pieces that end in a CR, and at most the bytes fed when no
  piece does (`Streaming.ParseInChunks`). `LineSplitter.HeldCrIsLookedAtTwice` is three looks at two
  bytes.

Deliberate differences between the code and the standard, kept in the model: a `retry` value beyond
64 bits is ignored (as is an empty one), a last line without terminator is dropped, and the
browser's defaults for an absent event type or id are not applied.

## Model

| member | source | states |
|---|---|---|
| Streaming.ParseInChunks | crates/finesse/src/lib.rs:110-180 | For any limits, any cutting of a stream into `feed` calls and any number of `next_frame` calls after each, what is popped is the frames of the whole stream up to the first crossed bound, that bound is the one reported, and the frames are the start of the standard's interpretation of the decoded stream, all of it with no bound crossed; the scan loop goes round at most once per byte and once more per piece that ends in a CR |
| Streaming.FeedBothWays | crates/finesse/src/lib.rs:110-126 | From equal histories, `feed(a); feed(b)` on one parser and `feed(a ++ b)` on another leave every field equal (buffer, scan index, BOM state, dispatcher buffers, bounds, closed flag, frames popped and queued) and report the same first overflow, across the 64 KiB cut |
| Streaming.StateIsWhatWasFed | crates/finesse/tests/chunk_boundary_property.rs:11-16 | Every field of a parser is a function of its limits, the bytes fed and whether the stream was ended; how the bytes were cut is not in it |
| Standard.FramesAreTheStandards | crates/finesse/src/lib.rs:141-180 | At the end of any stream that crosses no bound the frames emitted are the interpretation of the UTF-8-decoded stream with one leading mark removed |
| Standard.FramesStartAsTheStandards | crates/finesse/src/lib.rs:103-109 | Under any limits the frames are a prefix of that interpretation: a crossed bound only cuts them short |
| Standard.FramesSoFarAreTheStandards | crates/finesse/src/lib.rs:110-126 | Before the end they are the interpretation of the bytes so far, a last CR left out |
| Standard.LinesMeanTheDecodedStream | crates/finesse/src/lib.rs:163-180 | Splitting raw bytes and decoding field by field gives the frames of decoding everything first and splitting characters |
| Standard.SplitIsTextLines | crates/finesse/src/line_splitter.rs:78-111 | The lines cut out of bytes, decoded one by one, are the lines of the decoded text, sequences truncated by a terminator included |
| Standard.OpenSplitWithholdsCr | crates/finesse/src/line_splitter.rs:94-103 | While the stream is open exactly the lines before a last CR are decided |
| Field.LateDecodingIsSound | crates/finesse/src/field.rs:36-58 | Cutting a line's bytes at the first colon and one space and decoding each piece is decoding the line and parsing the text |
| Field.ValueIsKept | crates/finesse/src/field.rs:43-57 | A non-empty name without a colon, the byte 0x3A and anything that does not start with a space is the field with that name and all of that value, decoded |
| Field.OneSpaceIsDropped | crates/finesse/src/field.rs:46-49 | After the colon one space is dropped, never a second |
| Field.OtherLines | crates/finesse/src/field.rs:37-42 | An empty line is blank, a line starting with 0x3A a comment, and a line without 0x3A a field with no value; with the two above these are all lines |
| Utf8.LossyIsDecode | crates/finesse/src/field.rs:54-57 | Rust's conversion with replacement, which takes one maximal malformed piece at a time, is the Encoding Standard's decoder, which takes one byte at a time |
| Utf8.DecodeCutsAtAscii | crates/finesse/src/field.rs:43-53 | Decoding distributes over a cut at any ASCII byte, whatever incomplete sequence stands before it |
| Utf8.DecodedLength | crates/finesse/src/field.rs:54-57 | Replacement makes text at most three times as long as its bytes |
| Utf8.OnlyEncodingsDecode | crates/finesse/src/field.rs:54-57 | Bytes that decode without U+FFFD are the encoding of what they decode to, byte for byte: nothing overlong, no surrogate, nothing cut short passes |
| Utf8.MalformedIsReplaced | crates/finesse/src/field.rs:54-57 | A byte that can start nothing, or a sequence broken off, is U+FFFD and the rest is decoded afresh |
| Lines.SplitExtends | crates/finesse/src/line_splitter.rs:63-111 | Splitting what has arrived and then going on with the leftover and the new bytes is splitting everything, so a CRLF cut in two is one terminator |
| Lines.BreakIsFinal | crates/finesse/src/line_splitter.rs:84-92 | A line end decided on the bytes so far is where it is however the input goes on |
| Lines.RestIsUndecided | crates/finesse/src/line_splitter.rs:109-110 | What is left after splitting holds no decided line |
| Lines.FirstLine | crates/finesse/src/line_splitter.rs:83-97 | Content without 0x0A and 0x0D followed by 0x0A, by 0x0D 0x0A, by 0x0D and another byte, or on a closed stream by a last 0x0D, is the first line, and what follows is split on its own |
| Lines.NoLineYet | crates/finesse/src/line_splitter.rs:94-110 | Content without terminator is no line, and on an open stream neither is content and a last 0x0D |
| Lines.MarkIsDroppedOnce | crates/finesse/src/line_splitter.rs:150-160 | The mark is EF BB BF, the encoding of U+FEFF; one at the front is dropped and nothing else |
| LineSplitter.LineSplitter.Feed | crates/finesse/src/line_splitter.rs:63-68 | Appends to the buffer unless closed, keeping: lines taken, then the lines of the buffer, are the lines of all bytes fed with one mark removed, and nothing before the scan index is a terminator |
| LineSplitter.LineSplitter.End | crates/finesse/src/line_splitter.rs:70-72 | Closes and keeps the same refinement, now with a last CR deciding a line |
| LineSplitter.LineSplitter.NextLine | crates/finesse/src/line_splitter.rs:78-111 | Hands out exactly the first line of the buffer and drops it with its terminator, or leaves no decided line behind, or refuses a line whose content is over the bound; the looks it takes are exactly the bytes from the scan index to the first terminator, and in all at most one per byte and one per held CR, a CR being held exactly when no line comes of an open stream whose bytes end in one |
| LineSplitter.LineSplitter.LooksAgainAtLastCr | crates/finesse/src/line_splitter.rs:97-110 | Between calls the scan index is before the end of the buffer if and only if all bytes so far end in a CR, and then it is at that CR: no other byte is looked at twice |
| Lines.SplitLeavesLastCr | crates/finesse/src/line_splitter.rs:94-103 | A last CR of an open stream is never taken with a line, and nothing left over ends in a CR otherwise |
| LineSplitter.LineSplitter.EndLineAt | crates/finesse/src/line_splitter.rs:83-107 | The LF, CRLF, lone CR and held CR cases: the same three outcomes from the first terminator found |
| LineSplitter.LineSplitter.Scan | crates/finesse/src/line_splitter.rs:81-108 | Finds the first terminator from the scan index on, in as many looks as bytes passed |
| LineSplitter.LineSplitter.TakeLine | crates/finesse/src/line_splitter.rs:130-144 | Takes exactly the first line and its terminator off the buffer, or refuses it and changes nothing |
| LineSplitter.LineSplitter.ResolveBom | crates/finesse/src/line_splitter.rs:146-165 | The mark is resolved exactly when the stream is closed or the bytes so far decide it, and removing it keeps the refinement |
| Dispatcher.Dispatcher.ProcessField | crates/finesse/src/dispatcher.rs:50-84 | Refuses exactly a `data` field whose decoded length plus one plus what is pending is over the bound, changing nothing; otherwise yields what the line means after all lines before it (`EventStream.RetryMakesFrame`, `OtherLinesMakeNone`), and the three buffers stay what that history says |
| Dispatcher.Dispatcher.Dispatch | crates/finesse/src/dispatcher.rs:90-104 | A blank line yields the message of its block: data values joined by LF, the block's last event type, the last NUL-free id anywhere before; a block without data yields nothing, and either way event and data are cleared and the id stays |
| Dispatcher.FieldUpdatesBuffers | crates/finesse/src/dispatcher.rs:55-83 | What one field does to the event, data and id that the history of lines defines, for every field name |
| Dispatcher.BlankClearsBuffers | crates/finesse/src/dispatcher.rs:90-104 | No event type and no data leaks out of a block, with or without data; the id does |
| Dispatcher.DispatchReadsBuffers | crates/finesse/src/dispatcher.rs:90-104 | The buffers start empty, and a blank line yields a message of all three, the last LF of the data off, unless there is no data |
| EventStream.BlankNeedsData | crates/finesse/src/dispatcher.rs:90-94 | A blank line yields a frame if and only if some `data` field came after the last blank line |
| EventStream.RetryMakesFrame | crates/finesse/src/dispatcher.rs:106-111 | A `retry` value that is empty or has anything but ASCII digits yields no frame; a row of digits, leading zeros included, yields its place value if that is at most 18446744073709551615, else nothing |
| EventStream.OtherLinesMakeNone | crates/finesse/src/dispatcher.rs:55-82 | A comment, and a field of any other name, yields no frame |
| Parser.Parser.WithLimits | crates/finesse/src/lib.rs:89-96 | A new parser is open, has emitted nothing and keeps the invariant |
| Parser.Parser.Feed | crates/finesse/src/lib.rs:110-126 | Ignored once closed; otherwise reports the overflow the whole stream so far has, if any, and keeps: frames popped then queued are those of the lines before the crossing, and after an overflow everything held is released; no frame emitted before is lost; the peak of the line buffer is exactly the most it held while the pieces were copied in, and the pieces that ended in a CR are counted |
| Parser.Parser.FeedPiece | crates/finesse/src/lib.rs:118-124 | The same for one piece of at most 64 KiB, between two checks of the bounds; the peak of the line buffer is raised to what was left of the stream plus the piece |
| Parser.Parser.CopyIn | crates/finesse/src/lib.rs:119 | Copies a piece in whole: the buffer then holds what was left of the stream and the piece, which is recorded as a peak |
| Parser.Parser.End | crates/finesse/src/lib.rs:141-152 | Closes the parser, reports the overflow the ended stream has, if any, loses no frame, and does nothing the second time |
| Parser.Parser.NextFrame | crates/finesse/src/lib.rs:159-161 | Pops frames in the order they were queued, none lost or repeated |
| Parser.Parser.DrainLines | crates/finesse/src/lib.rs:163-180 | Terminates, leaves no decided line undelivered, or returns the overflow of the whole stream with the frames before it queued |
| Parser.Parser.Abandon | crates/finesse/src/lib.rs:183-187 | Releases buffer and pending text and closes, leaving the queue |
| Outcome.StoppedIsFinal | crates/finesse/src/lib.rs:103-109 | Once a bound is crossed no later byte and no end of stream changes the frames or the report |
| Outcome.FramesOnlyGrow | crates/finesse/src/lib.rs:103-109 | Frames once emitted stay: whatever bytes follow, and whether the stream ends, the frames so far are a prefix of the frames then |
| Outcome.OutcomeAtRefusedLine | crates/finesse/src/line_splitter.rs:117-139 | A line refused for its length, finished or not, is where the whole stream stops, with the frames of the lines before it |
| Outcome.OutcomeAtRefusedEvent | crates/finesse/src/dispatcher.rs:60-70 | A `data` field refused for its event is where the whole stream stops, with the frames of the lines before it |
| Bounds.OverflowHasOnePoint | crates/finesse/src/lib.rs:103-126 | A stream that crosses a bound does so at one byte: before it every prefix runs, from it on every prefix and the end report the same frames and the same bound |
| Bounds.CrossingStops | crates/finesse/src/line_splitter.rs:113-139 | The first line over a bound stops the parser with that bound and exactly the frames of the lines before it; terminator, held CR and unresolved mark do not count |
| Bounds.OnlyCrossingStops | crates/finesse/src/dispatcher.rs:60-70 | The parser stops if and only if some line is the first over a bound |
| Bounds.EndDoes | crates/finesse/src/lib.rs:128-152 | All that ending a running stream can do: find an unfinished mark too long, complete a held CR's line and queue its frame, or overflow the event with it |
| Bounds.EndOverflowsALine | crates/finesse/src/lib.rs:136-152 | `end` overflows a line if and only if an unfinished mark is longer than the bound, which the documentation does not say |
| Bounds.EndCanOverflowALine | crates/finesse/src/line_splitter.rs:162-164 | A stream of one byte that `feed` accepts and `end` refuses as a line |
| Bounds.MemoryIsBounded | crates/finesse/src/limits.rs:11-21 | Over every run: the line buffer is within max(max_line_bytes + 1, 2) between calls and 64 KiB more at its peak, pending data within max_event_bytes, event type and id each within 3 * max_line_bytes |
| Bounds.HeldWhileIsBounded | crates/finesse/src/lib.rs:114-124 | After any stream and for any chunk, what the buffer holds while the pieces are copied in is within that bound |
| Bounds.StatedBoundIsCrossed | crates/finesse/src/limits.rs:19-21 | The documented bound is crossed if and only if a full piece meets a line exactly as long as the bound with its CR held, or an unfinished mark is longer than the bound by more than the piece is short of full |
| Bounds.OnlyAHeldCrCrosses | crates/finesse/src/line_splitter.rs:97-102 | With a bound of two bytes or more only the first of these does it |
| Bounds.FillTheBuffer | crates/finesse/src/lib.rs:114-124 | Under every limit feeding one particular chunk and then any full piece takes the buffer exactly to the proved bound, over the documented one |
| Bounds.HeldCrCostsOneByte | crates/finesse/src/line_splitter.rs:97-102 | Between calls too the buffer may be one byte over the limit, for a held CR after content as long as the limit |
| LineSplitter.HeldCrIsLookedAtTwice | crates/finesse/src/line_splitter.rs:18-21 | A CR and another byte in two pieces take three rounds of the scan loop, under every line bound, and still one empty line |
| Bounds.MessagesAreBounded | crates/finesse/src/dispatcher.rs:60-72 | The data of every message emitted, for every stream, ended or not, is at most max_event_bytes - 1 bytes long |
| RoundTrip.ParsePrinted | crates/finesse/tests/chunk_boundary_property.rs:63-109 | Frames with CR- and LF-free events, CR-free data, ids without CR, LF and NUL that never go back to absent, and 64-bit retries, printed one field a line and within limits, come back exactly from the parser under any chunking and any popping |
| RoundTrip.PrintParsesBack | crates/finesse/src/lib.rs:110-180 | The same for the whole stream, ended or not: the last blank line needs no end of stream |
| RoundTrip.LinesInterpretBack | crates/finesse/src/dispatcher.rs:50-104 | The printed lines mean exactly the frames printed |
| RoundTrip.DigitsParseBack | crates/finesse/src/dispatcher.rs:106-111 | The decimal digits of a number parse back to it |
| CloseProtocol.StepKeepsInv | crates/aviso-py/src/streams.rs:184-324 | Every step of every task, a cancellation at any await included, keeps mutual exclusion, no lost wake-up, and that a set flag means the stream is taken or some task is bound to take it |
| CloseProtocol.RunsKeepInv | crates/aviso-py/src/streams.rs:184-324 | So does every state of every run of any number of readers, runs and closers |
| CloseProtocol.NoCloserWaitsForever | crates/aviso-py/src/streams.rs:192-203 | When a closer waits behind a parked reader, that reader is woken already or a task that can move right now is about to wake it |
| CloseProtocol.NobodyReadsWhileRunSetsFlag | crates/aviso-py/src/streams.rs:254-258 | `run` may set the flag without waking anyone because no task is reading then |
| CloseProtocol.AtMostOneLateDelivery | crates/aviso-py/src/streams.rs:204-212 | Over any run at most one notification is delivered after the flag is first set |
| CloseProtocol.NothingAfterLateDelivery | crates/aviso-py/src/streams.rs:204-212 | After one item of any kind handed out with the flag set, no task is ever handed another |
| CloseProtocol.TakenAtMostOnce | crates/aviso-py/src/streams.rs:255-274 | Over any run exactly one step of a task has taken the stream to close it if the slot is empty, and none if it is not, whoever got there first |
| CloseProtocol.TakerCloses | crates/aviso-py/src/streams.rs:255-257 | Whoever takes the stream goes on to close it, and nobody else is closing it |
| CloseProtocol.GoneOnceLookedFor | crates/aviso-py/src/streams.rs:270-273 | From the moment any closer, `run` or spawned task has looked into the slot, it is empty for good |
| CloseProtocol.StepLowersRank | crates/aviso-py/src/streams.rs:224-276 | Once the flag is set every step of a task, a late item and a cancellation at any await included, lowers a measure over all tasks, whatever it does to the others |
| CloseProtocol.ClosingIsShort | crates/aviso-py/src/streams.rs:305-324 | After the flag is set every schedule, with late items, cancellations anywhere and newcomers, is no longer than that measure and a constant for each newcomer |
| CloseProtocol.PromiseIsKept | crates/aviso-py/src/streams.rs:233-276 | Along every schedule in which no waiting `aclose` is dropped, the slot is empty or some task is on its way to empty it, if it was so at the start |
| CloseProtocol.ClosingEnds | crates/aviso-py/src/streams.rs:305-324 | A schedule after the close that can go no further has all tasks done; and the slot is empty if it was or some task was on its way to it at the start and no waiting `aclose` was dropped since, whatever was dropped before |
| CloseProtocol.RunCloses | crates/aviso-py/src/streams.rs:225-260 | A `run` whose stream ends or fails, or that is dropped at any await after it started, closes: when nobody can move any more the flag is set, all tasks are done and the stream is taken, whoever else is cancelled |
| CloseProtocol.StartedRunReadsOrCloses | crates/aviso-py/src/streams.rs:233-260 | However a started `run` leaves its loop, it ends in that close; otherwise it still waits for an item or the lock, with the flag unset |
| CloseProtocol.AcloseCloses | crates/aviso-py/src/streams.rs:263-276 | So does every `aclose` that is not itself dropped |
| CloseProtocol.OpenUntilAsked | crates/aviso-py/src/streams.rs:184-253 | Nobody closes unasked: until an `aclose` arrives or a `run` ends or is dropped, the flag stays unset and the stream in its slot over any run |
| CloseProtocol.RunReadsOn | crates/aviso-py/src/streams.rs:234-253 | `run` takes a notification and waits for the next, leaving all else as it was |
| CloseProtocol.RunGetsToRead | crates/aviso-py/src/streams.rs:233-247 | A `run` that starts with the lock free and the stream open gets to wait for an item |
| CloseProtocol.NextGetsToRead | crates/aviso-py/src/streams.rs:188-207 | So does a read that starts |
| CloseProtocol.NextIsDone | crates/aviso-py/src/streams.rs:189-212 | A read hands out one item and is done; one that starts after the close is done at once |
| CloseProtocol.ClosedNeverSticks | crates/aviso-py/src/many.rs:158-201 | Once the flag is set some task can always move until all are done: no deadlock; `many.rs` is the case in which no `run` arrives |
| CloseProtocol.FinishClosing | crates/aviso-py/src/streams.rs:305-324 | Letting tasks move in any order reaches such an end |
| Identifier.ValidateIdentifier | crates/aviso-py/src/values.rs:58-123 | Terminates on every finite object graph and accepts exactly when no chain of nested containers is longer than 100 and every float reached is finite; every refusal points at a path that shows it and before which, at every step, all earlier children are fine, so it is the first fault of the walk; a graph in which no path meets a container twice is never called cyclic |
| Identifier.Validator.Validate | crates/aviso-py/src/values.rs:64-123 | The active set is exactly the containers on the current path and is restored on every return; accepts exactly what fits in the levels left |
| Identifier.Validator.ValidateChildren | crates/aviso-py/src/values.rs:103-120 | The same over a container's children in order: the fault reported is that of the first child at fault |
| Identifier.NestedIsAcceptable | crates/aviso-py/src/values.rs:90-94 | Fitting level by level is the same as the bound on every path |
| Identifier.CycleIsNotNested | crates/aviso-py/src/values.rs:96-101 | A container that contains itself fits in no number of levels, so refusing it early refuses nothing else |
| Functions.CallFunctions | python/pyaviso/_functions.py:74-111 | The verdict is what the triggers come to; every trigger up to the deciding one is called until it settles or its retries are used up, in order, each attempt only after the one before raised and each trigger only after all before it returned or were optional, and nothing else is called |
| Functions.TryFunction | python/pyaviso/_functions.py:82-106 | One function is called until it does not raise, at most retries + 1 times |
| Functions.VerdictIsUnique | python/pyaviso/_functions.py:74-111 | A notification's triggers come to one verdict only |
| Functions.OneTrigger | python/pyaviso/_functions.py:81-111 | The first attempt of a trigger that does not raise decides; if all retries + 1 raise, a required one fails the notification and an optional one does not |
| Functions.OneAfterAnother | python/pyaviso/_functions.py:107-111 | The triggers after the first are asked exactly if the first lets them |
| ListenMany.ReadAll | python/pyaviso/_many.py:159-208 | Under any policy a loop reads some first items: those whose triggers passed come out in order and the failures among them are recorded. Either nothing among them ends the loop, and then they are all items or the last is the first for which one of the caller's functions closed the iterator, items read are yielded plus recorded failures, and the loop ends in an error exactly when every listener failed; or the last is the first item that ends the loop, and its error is what is thrown |
| ListenMany.ContinueGoesOn | python/pyaviso/_many.py:87-103 | Under "continue" the loop goes on if and only if no item is an interrupt or an awaitable handed back by a plain function |
| ListenMany.FailureUnderPolicy | python/pyaviso/_many.py:87-115 | A failed listener or a notification whose required trigger fails is recorded under its listener and kind; "raise" ends the loop with that very error, "continue" goes on, an `on_error` function goes on if it accepts, and otherwise ends it with what it raises or with the error for an awaitable |
| ListenMany.EscapeUnderPolicy | python/pyaviso/_many.py:163-169 | An interrupt, from the source or a function, and an awaitable handed back by a plain function end the loop with their own error under every policy |
| ListenMany.PassedUnderPolicy | python/pyaviso/_many.py:182-187 | A notification whose triggers pass is handed out under every policy |
| ListenMany.GoesOnMeans | python/pyaviso/_many.py:171-192 | The loop goes on past some first items if and only if none of them escapes and every failure among them is one the policy accepts |
| ListenMany.MultiNotificationIterator.Next | python/pyaviso/_many.py:159-169 | Anything but a notification stops the iterator: the source is closed once and never read again, and later calls only stop; an item that ends the loop does so with its own error; a notification whose functions closed the iterator is still handed out, and nothing is read after it |
| ListenMany.MultiNotificationIterator.Read | python/pyaviso/_many.py:171-187 | Reads on past failures the policy accepts, keeps failures and failed listeners those of the items read, and turns the end of the source into "every listener failed" exactly when each name has one |
| ListenMany.MultiNotificationIterator.Handle | python/pyaviso/_many.py:179-187 | One raw item is delivered, recorded or escapes, as its triggers and the policy say, and the iterator is closed after it exactly when a function called for it did so |
| ListenMany.MultiNotificationIterator.Fail | python/pyaviso/_many.py:189-192 | Records the failure under every policy, and gives the error that this item ends the loop with, if any (`FailureUnderPolicy`) |
| ListenMany.MultiNotificationIterator.Close | python/pyaviso/_many.py:204-208 | Closes the raw source once however often it is called |
| ListenMany.Policy.Record | python/pyaviso/_many.py:87-103 | Appends the failure, counts a listener failure under its name, and asks to raise exactly under "raise" |
| ListenMany.EveryItemIsAccountedFor | python/pyaviso/_many.py:171-187 | Items read are delivered plus recorded, under any policy, until one ends the loop |
| ListenMany.DeliveredAreThoseThatPassed | python/pyaviso/_many.py:182-187 | An item is delivered if and only if it is a notification whose triggers passed, and the order is kept |
| NotifyMany.NotifyMany | crates/aviso/src/notify.rs:82-100 | For every completion order: as many results as requests, the i-th being the server's answer to request i, each request sent and answered, within the limit, 16 when 0 is passed |
| NotifyMany.BufferUnordered | crates/aviso/src/notify.rs:92-97 | Sends in order while below the limit, waits for one answer only when nothing more may be sent, and collects the answers in the order they come |
| NotifyMany.NeverOverLimit | crates/aviso/src/notify.rs:67-71 | At no moment of a run are more than the limit in flight |
| NotifyMany.SentOnceInOrder | crates/aviso/src/notify.rs:93-95 | No request is sent twice, and they go out in order |
| NotifyMany.AnsweredOnce | crates/aviso/src/notify.rs:93-95 | No request is answered twice |
| NotifyMany.SortingRestoresOrder | crates/aviso/src/notify.rs:98-99 | Sorting the finished list by index, a permutation of all indices, puts each answer at its request's place |
| JsonString.JsonWriter.AppendJsonString | crates/aviso-ffi/include/aviso.hpp:68-105 | Appends the literal of the value, byte for byte |
| JsonString.JsonWriter.ToIdentifierJson | crates/aviso-ffi/include/aviso.hpp:109-124 | Writes the object of the entries in order, with commas only between members |
| JsonString.LiteralReadsBack | crates/aviso-ffi/include/aviso.hpp:64-105 | Reading the literal by section 7 of RFC 8259 gives back any byte string and stops exactly at its closing quote, so no quote or backslash inside is raw |
| JsonString.ShortForms | crates/aviso-ffi/include/aviso.hpp:72-92 | Quote, backslash and five control bytes have their two-byte forms |
| JsonString.OtherForms | crates/aviso-ffi/include/aviso.hpp:93-101 | Every other control byte is four lower-case hexadecimal digits, and every other byte itself |
| JsonString.ObjectHasNoControl | crates/aviso-ffi/include/aviso.hpp:94-98 | The output has no control byte, so no NUL that would cut it short as a C string |
| JsonString.ObjectReadsBack | crates/aviso-ffi/include/aviso.hpp:109-124 | The object reads back as its entries |
| JsonString.MapJsonIsInjective | crates/aviso-ffi/include/aviso.hpp:109-124 | Every map is iterated in one way only, and two maps have the same JSON if and only if they are the same map |
| JsonString.EveryMapIterates | crates/aviso-ffi/include/aviso.hpp:113 | Every map has an iteration of its entries in key order |
| JsonString.LessMeans | crates/aviso-ffi/include/aviso.hpp:113 | The order is byte by byte, unsigned, with a prefix first |
| ReplayLoop.Replay | examples/cpp/resilience/02_replay_only.cpp:65-103 | For any increasing history and any server that sends the start of what is left and ends cleanly only when that is all of it: ends within one round more than there are notifications; code 0 means the whole history came once and in order and `total` is its length; code 1 exactly when the last batch failed otherwise than at a gap, delivered or not, or at a gap with nothing delivered |
| ReplayLoop.Watch | examples/cpp/resilience/02_replay_only.cpp:35-50 | The counter ends with the number delivered, the last sequence and the failure of the watch |
| ReplayLoop.ResumesWhereItStopped | examples/cpp/resilience/02_replay_only.cpp:72-90 | Asking after the last sequence seen gives exactly the part not seen |
| ReplayLoop.ReplayCapped | examples/cpp/resilience/02_replay_only.cpp:10-16 | Behind a server that caps each replay the loop reads everything, whatever the cap, unless the cap is none |

## What the models take as given

- **Lengths are unbounded.** A Rust buffer is at most `isize::MAX` bytes, so the `saturating_add`s of
  the parser never saturate, and plain addition is what they do.
- **The lock, the wake-up and `select!`** are primitives of `CloseProtocol`: one holder at a time,
  `enable` registers, and a wake-up reaches every task registered at that moment. Setting the flag
  and waking are two steps. A woken reader may still be handed an item, because the wake-up can come
  between the two polls of one `select!`.
- **Oracles.** What a function trigger or an `on_error` function does, what a server answers and
  when, and how much a replay delivers are arbitrary functions. A trigger or an `on_error` function
  may call `close` on the iterator that called it, but does not read from it. The completion order
  in `NotifyMany` and the schedule in `FinishClosing` are arbitrary choices.
- **Library algorithms.** `sort_by_key` is an insertion sort here, of which only "sorted" and
  "permutation" are used. A `std::map` is its entries in key order, bytes compared unsigned.

## Left out

- HTTP, TLS, the SSE transport, tokio, PyO3 and the command line: I/O and glue around the modelled cores.
- The watch supervisor, state stores, the template engine, the FFI watch handle and authentication, and with it the 401 retry inside one `notify`: an answer in `NotifyMany` is whatever `notify` returns in the end.
- The synchronous notification iterators of `streams.rs` and `many.rs`: one lock around a poll with a timeout, without the flag and the wake-up that make closing hard.
- The asynchronous `listen_many` iterator: a notification read before a cancellation may be lost, so only the synchronous one is modelled.
- CloseProtocol.ClosingEnds: says nothing of the slot for a schedule in which an `aclose` is itself cancelled while it waits for the lock; the stream may then stay in it until another closer comes.
- CloseProtocol.NoCloserWaitsForever: assumes of the lock only that a free lock can be taken, not who gets it first, so it bounds waiting behind a reader; `ClosingIsShort` and `ClosingEnds` give the end of all waiting.
- Identifier.ValidateIdentifier: objects are a fixed finite graph, so exceptions raised by a container's own protocol and sequences that make fresh items on each access are not modelled.
- ListenMany.MultiNotificationIterator.Next: log messages and the listener's name put in front of an error's text are not modelled; errors are told apart by what caused them.
- ListenMany.ReadAll: `run` is the same loop with the yielded items dropped and one more `close`.
- ReplayLoop.Replay: `total` is unbounded, not a C++ `int`, and an exception thrown while connecting, which ends the program with code 1, is not modelled.
- Parser.Parser.WithLimits: `Parser::new` is this with the default limits, 16 MiB and 32 MiB, and has no member of its own.
- The text of error messages, `Display` of an overflow, and the examples other than the replay loop: one-branch claims.
