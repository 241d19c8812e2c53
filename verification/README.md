# Verified model of data_commoms

A Dafny model of four C headers: an overwriting ring buffer with its simulated DMA producer
(`include/c_buffer.h`, `dma_th` in `src/main.c`), a command-line flag parser (`include/parser.h`), a
text parameter file printer and parser (`include/file_parser.h`), and the client table that the two
threads of a TCP server share (`include/eth_comms.h`). Check it with `dafny verify dfyconfig.toml`.

## How it is built

- **Ring buffer.** `RingBuffer.CircularBuffer` keeps the C fields, all 64-bit counters that wrap. Its
  history of publications and reads is a ghost field; `Valid` ties the counters to the ledger that
  replaying the history gives, and `Intact` says the bytes between `read` and `write`, modulo the size,
  are the replayed queue. Every method keeps both, so they hold after every run; what the ledger and the
  queue mean is proved in `Fifo`. `Dma.Channel` is the hardware, which writes the same array without
  telling the buffer. `Dma.System` joins the two: its `Valid` holds under every interleaving of
  arrivals, publications, reads and skips to a start byte.
- **Flags.** `FlagFold.Parse` follows the loop step by step and `FlagParser.FlagContext.FlagParse` is
  proved against it, cut tokens included. `FlagGroups.Split` and `FlagFold.Apply` are the declarative
  reading, option groups folded over flags; `ParseIsFold` connects the two, and `FlagResults` states
  what follows for whole command lines.
- **Parameters.** `ParamText.ParseText` follows the nested loops over lines and parameters, with the
  line cut between searches; `ParamFile.ParamContext` is proved against it. Places where C leaves the
  behaviour undefined (a missing bracket, a line too long for the name buffer, an odd number of hex
  digits) are results of their own, not preconditions. `ParamKeys` says which parameters a line belongs
  to, `ParamLines` what the line does to them, and `ParamValues` what each kind makes of its text;
  `ParamAnswers` says when a whole text is accepted, and `ParamRoundTrip` that a saved file restores its
  values.
- **Client table.** `ClientTable.Table` holds the parallel arrays; each method is one section under the
  mutex. `ServerThreads` is the state machine of listener and accepter over the table's contents, with
  one step per mutex section and one per `recv` or `accept`; `Server.Server` performs each step on the
  mutable table. An accepted descriptor may reuse the number of a closed one.

C strings are the characters before the terminator. The conversions of the `strtol` family follow
section 7.22.1.4 of ISO/IEC 9899:2011 with 64-bit `long`; `atoi` out of range is taken to be the
truncated `strtol` result.

## Findings

- Help is asked for with `--h` or `--help`, because the leading dash is stripped before the comparison
  with `-h` and `-help`; `FlagGroups.HelpsExactly` gives exactly the tokens that ask for it. The `-h` and
  `-help` of the printed usage text are ordinary flag names: unknown unless registered, and in need of a
  value when they are (`FlagFold.UsageHelpIsNoHelp`).
- A flag named `-` can be given as `--=value` but not as `-- value`, which ends option parsing
  (`FlagGroups.LegibleExactly`).
- Number flags take the empty text as zero, and unsigned ones take negative numbers modulo 2^64, so
  `-1` is a 64-bit flag's largest value (`FlagValues.EmptyAndNegativeAccepted`; exactly what is taken is
  in `FlagValues.UintAcceptedExactly`).
- A suffix letter with no number before it is a size of zero bytes (`FlagValues.BareSuffixIsZero`).
- A line belongs to a parameter when the first occurrence of its name is followed by `=`, or by a blank
  and later a `=` (`ParamKeys.TakesExactly`, for every line). So lines are not isolated in two ways. A
  name matches the end of a longer key: a line for an unregistered `MAXPINT` sets `PINT`
  (`ParamRoundTrip.MaxPintSetsPint`). And any of several words before the `=` matches
  (`ParamRoundTrip.PintPboolSetsFirst`). What such a line changes depends on the order of registration:
  among the parameters it belongs to, if all are scalars or all are strings, the one registered first
  gets the value and no other (`ParamLines.FirstClaimantDecides`), so that with `MAXPINT` registered as
  well its line sets whichever of the two comes first (`ParamRoundTrip.OrderDecidesMaxPint`); if all are
  lists, each of them gets it (`ParamLines.ListsAllTake`). The exact condition under which a line with
  one `=` changes only parameters of a given name is in `ParamLines.IsolatedExactly`; for a mixture of
  kinds `ParamLines.ParseLineIsChain` says what each parameter finds.
- Deleting the ignored groups of a command line changes no value but can change the answer, because an
  ignored group counts as a mention of a mandatory flag; exactly when is in
  `FlagResults.IgnoredGroupsAnswer`.
- Were a third thread to disconnect a client between a failed `recv` and the removal, the removal could
  take the wrong client or none; exactly when is in `ServerThreads.OutsideDisconnectExactly`.
- An empty list parameter is saved in a form whose parsing is undefined
  (`ParamRoundTrip.EmptyListIsUndefined`).
- An int parameter takes any text, zero when it starts with no number (`ParamValues.IntTakenExactly`,
  `ParamValues.NoIntIsZero`); a list that turns out bad keeps the elements read before, but its parameter
  counts as not given (`ParamValues.ListTakenExactly`, `ParamAnswers.BadListFails`).
- Elements of unsigned lists above INT_MAX do not come back (`ParamRoundTrip.UintListComesBackExactly`),
  though plain unsigned parameters do.
- `CbIsFull` asks whether the count is 1 modulo the size (`RingBuffer.FullIff`), which is a test for
  fullness exactly in buffers of one or two bytes (`RingBuffer.FullTestExactly`).

A saved parameter file comes back when: names are not empty, hold no blank, `=` or newline and do not
start with `#`; no name first occurs in another as its ending, unless the other is registered before it
and both are scalars or both strings; descriptions hold no `=`; strings hold no `=`, quote or newline;
lists have 1 to 32 elements, unsigned ones at most INT_MAX; blobs have their registered size; and each
line is shorter than 256 characters (`ParamRoundTrip.Restorable`). The order of registration matters: a
name that ends the name of a scalar registered after it takes that line.

## Model

| member | source | states |
|---|---|---|
| Machine.CheckSizeExact | include/c_buffer.h:64-68 | the size test accepts exactly the powers of two, one included |
| Machine.AndMask | include/c_buffer.h:79-120 | masking with 2^k - 1 is remainder by 2^k, for every counter value |
| Machine.WrapInvisible | include/c_buffer.h:86-120 | behind an accepted size, the slot of a counter that has wrapped at 2^64 any number of times is the slot of the unbounded counter |
| Machine.WrapInvisibleOnlyFor | include/c_buffer.h:64-68 | for any size at all, wrap-around is invisible if and only if the size divides 2^64 |
| RingBuffer.CountFacts | include/c_buffer.h:94-97 | the wrapped, masked difference of the counters is below the size and leads from the read slot to the write slot, whichever counter is numerically larger |
| RingBuffer.CountIs | include/c_buffer.h:94-97 | it is the only number below the size that does |
| RingBuffer.EmptyIff | include/c_buffer.h:86-88 | the slots coincide exactly when nothing is unread |
| RingBuffer.FullIff | include/c_buffer.h:90-92 | the fullness test asks whether the count is 1 modulo the size, not whether the buffer is full |
| RingBuffer.FullTestExactly | include/c_buffer.h:90-92 | it agrees with fullness for all counters if and only if the size is one or two |
| RingBuffer.Publish | include/c_buffer.h:122-130 | publishing fewer bytes than the size leaves min(count + num, size - 1) unread positions, the newest ones, even though an overrun puts read one ahead of write |
| RingBuffer.PublishOne | include/c_buffer.h:148-156 | the single-byte path, which detects overrun by comparing slots, has the same effect |
| RingBuffer.Consume | include/c_buffer.h:132-137 | advancing read over unread bytes lowers the count by as much |
| RingBuffer.Survivors | include/c_buffer.h:145-167 | after a write the window between the new counters holds the last size - 1 bytes of old queue and new items, though the oldest slots were overwritten before read moved |
| RingBuffer.Advanced | include/c_buffer.h:241-243 | the same for bytes that already lie in memory |
| RingBuffer.DmaDelta | include/c_buffer.h:235-239 | the two masked subtractions give the hardware slot and its distance from the last published slot |
| RingBuffer.DmaSlotIs | include/c_buffer.h:234-238 | the slot is size - ndtr for a countdown inside the buffer, and zero for any other |
| RingBuffer.CircularBuffer.OverrunsBracket | include/c_buffer.h:122-156 | in every reachable buffer the overrun counter is, modulo 2^64, a number with overruns <= dropped <= overruns * max(1, size - 1) |
| RingBuffer.CircularBuffer.Init | include/c_buffer.h:76-81 | a fresh buffer is valid, empty and at slot zero |
| RingBuffer.CircularBuffer.IsEmpty | include/c_buffer.h:86-88 | answers whether the queue is empty |
| RingBuffer.CircularBuffer.IsFull | include/c_buffer.h:90-92 | answers whether the count is 1 modulo the size |
| RingBuffer.CircularBuffer.Available | include/c_buffer.h:94-97 | returns the length of the queue |
| RingBuffer.CircularBuffer.EmptyCount | include/c_buffer.h:108-110 | returns how many bytes fit without loss |
| RingBuffer.CircularBuffer.WriteInc | include/c_buffer.h:122-130 | the new counters, and the publication recorded in the history |
| RingBuffer.CircularBuffer.Advance | include/c_buffer.h:241-243 | appends the bytes found at the write position to the queue and drops the oldest |
| RingBuffer.CircularBuffer.ReadInc | include/c_buffer.h:132-137 | drops min(num, count) bytes from the front of the queue |
| RingBuffer.CircularBuffer.WriteOne | include/c_buffer.h:148-156 | the queue becomes the last size - 1 bytes of itself and the item |
| RingBuffer.CircularBuffer.Fill | include/c_buffer.h:159-165 | stores the items from the write position on, wrapping; a separate counter that wraps at 2^64 drives it |
| RingBuffer.CircularBuffer.WriteBatch | include/c_buffer.h:158-167 | the queue becomes the last size - 1 bytes of itself and the items |
| RingBuffer.CircularBuffer.Write | include/c_buffer.h:145-173 | one byte, or fewer than the size, are written whole; a batch of two or more that is not smaller than the size is refused and changes nothing; an intact buffer stays intact |
| RingBuffer.CircularBuffer.PublishedIntact | include/c_buffer.h:145-173 | publishing onto a queue that equals the replay of the history keeps it equal |
| RingBuffer.CircularBuffer.CopyOut | include/c_buffer.h:193-198 | copies the oldest bytes and touches nothing else of the destination |
| RingBuffer.CircularBuffer.ReadOne | include/c_buffer.h:184-188 | delivers and removes the oldest byte |
| RingBuffer.CircularBuffer.Read | include/c_buffer.h:180-204 | delivers and removes min(n, count) oldest bytes; zero when empty |
| RingBuffer.CircularBuffer.CopyUntil | include/c_buffer.h:211-218 | copies through the first delimiter, or as many bytes as asked for or available |
| RingBuffer.CircularBuffer.ReadUntil | include/c_buffer.h:207-221 | delivers and removes exactly that prefix |
| RingBuffer.CircularBuffer.TakenIntact | include/c_buffer.h:180-221 | consuming from a queue that equals the replay of the history keeps it equal |
| RingBuffer.CircularBuffer.StartsWithout | include/c_buffer.h:229 | the loop condition of the sync search |
| RingBuffer.CircularBuffer.DmaSyncStart | include/c_buffer.h:227-232 | terminates with the suffix of the readable bytes from the first start byte, empty if there is none, and drops as many bytes from the recorded queue, lapped or not |
| RingBuffer.CircularBuffer.DmaWriteInc | include/c_buffer.h:234-244 | for every countdown, clamped into range, publishes exactly the bytes between the last and the present hardware slot |
| Fifo.Conservation | include/c_buffer.h:122-137 | over every run published = consumed + dropped + queued, and the queue is the published stream without its first consumed + dropped bytes |
| Fifo.OverrunsBracketLoss | include/c_buffer.h:122-130 | the same over every run of publications the buffer accepts; that a buffer has accepted all of its own is part of its Valid |
| Fifo.SingleWritesCountLoss | include/c_buffer.h:148-156 | when every write is one byte the overrun counter is the number of bytes lost |
| Fifo.BatchIsSingles | include/c_buffer.h:145-173 | a batch leaves the queue and totals of as many single writes; the singles count each byte lost |
| Fifo.BatchCountsLossOnce | include/c_buffer.h:122-156 | the two overrun counters agree exactly when at most one byte is lost |
| Fifo.FramesCutTheQueue | include/c_buffer.h:207-221 | repeated delimiter reads give frames whose concatenation is the queue, with the delimiter only at frame ends and at every end but the last |
| Fifo.FramingUnique | include/c_buffer.h:207-221 | any sequence of frames with that shape is the one repeated delimiter reads give |
| Fifo.FramesOf | include/c_buffer.h:207-221 | a delimiter read whose limit is at least the count takes the next frame |
| Slots.StoreAt | include/c_buffer.h:159-165 | a store of at most one turn leaves each slot either its new byte or its old one |
| Slots.WindowAfterStore | include/c_buffer.h:159-167 | a store followed by keeping the newest bytes is a window further on |
| Dma.Channel.Start | src/main.c:36-37 | the countdown starts full and nothing has arrived |
| Dma.Channel.StoreChunk | src/main.c:45-60 | the two loops store a chunk at the physical position and wrap at the end of the memory |
| Dma.Channel.Countdown | src/main.c:62-69 | the countdown, with its reload, keeps giving the position of the next byte |
| Dma.CountdownMoves | src/main.c:62-69 | the arithmetic of that, for every countdown and chunk |
| Dma.RecentAfterStore | src/main.c:45-60 | the memory keeps holding the newest bytes of everything that ever arrived |
| Dma.Channel.Arrive | src/main.c:41-69 | an arrival extends the stream by the chunk and keeps countdown and memory consistent with it |
| Dma.WindowOfStream | src/main.c:45-60 | what any window of the memory shows of the stream: its own bytes, or where it has been lapped the bytes one turn later |
| Dma.FreshBytes | include/c_buffer.h:234-243 | what the buffer makes of the countdown is exactly the unpublished bytes of the stream |
| Dma.System.ContentsShown | src/main.c:33-76 | in every reachable state, which bytes of the stream the readable window shows, position by position |
| Dma.System.UnlappedIsIntact | src/main.c:33-76 | while the hardware is at most one turn ahead of the reader, the memory shows exactly the queue |
| Dma.System.Arrive | src/main.c:41-69 | an arrival changes neither the queue nor a counter of the buffer, and leaves the bytes readable intact while unlapped |
| Dma.System.PendingBytes | include/c_buffer.h:234-243 | what the next publication will append |
| Dma.System.Publish | src/main.c:71-72 | a publication appends exactly the unpublished bytes, dropping the oldest, and repairs a lapped queue |
| Dma.System.Tick | src/main.c:39-76 | one round of the hardware loop with a chunk smaller than the buffer: size - ndtr, dma_cnt and write all stay congruent to the total, and the queue gains the chunk |
| Dma.System.ConsumedKeepsValid | include/c_buffer.h:132-137 | moving the read position past any number of the oldest bytes, at any moment, keeps buffer and hardware consistent |
| Dma.System.TakenKeepsValid | include/c_buffer.h:180-221 | a read does just that |
| Dma.System.ReadableShown | src/main.c:33-76 | what a read of any length would deliver, in terms of the stream |
| Dma.System.Read | src/main.c:146 | a read between any two hardware steps delivers the oldest readable bytes, which are those of the stream not yet read, or where lapped the ones a turn later |
| Dma.System.ReadUntil | include/c_buffer.h:207-221 | the same for a delimiter read, whose length is that of the first frame in what the memory shows |
| Dma.System.SyncStart | include/c_buffer.h:227-232 | skipping to a start byte at any moment keeps buffer and hardware consistent and drops the bytes before the first start byte that the memory shows; while unlapped that is the first in the queue |
| CText.SpaceChar | include/parser.h:446 | the characters a conversion skips are blank, tab, newline, vertical tab, form feed and carriage return |
| CText.DigitChars | include/parser.h:446 | the digits of base ten are 0 to 9, and of base sixteen also a to f and A to F |
| CText.DigitValues | include/file_parser.h:534 | what each digit stands for, in either case |
| CText.TruthCases | include/parser.h:419-422 | 1, true, yes and si are true; 0, false and no are false; nothing else is either |
| CText.DecIsShortest | include/file_parser.h:750 | numbers are printed without leading zeros |
| CText.UnsignedExactly | include/parser.h:446 | strtoul consumes a text whole and in range, with value v, if and only if it is empty and v is zero or it is a numeral below 2^64 that stands for v, negated modulo 2^64 by a minus sign |
| CText.SignedExactly | include/parser.h:575 | the same for strtol and 64-bit signed values |
| CText.NothingScanned | include/file_parser.h:489 | a text that does not start with a numeral converts to zero |
| CText.StrtoulOfDecInt | include/parser.h:446 | a printed number is read back whole, modulo 2^64 when negative |
| CText.StrtolOfDecInt | include/parser.h:575 | a printed number in range is read back whole |
| CText.ScannedWholeExactly | include/parser.h:446-447 | a conversion in the base 10 used there consumes a text to its end if and only if the text is empty or is spaces, an optional sign and digits |
| FlagValues.UintAcceptedExactly | include/parser.h:443-556 | an unsigned flag accepts value v if and only if the text stands for v and v fits the flag; a text that is no number is invalid, and any other overflows |
| FlagValues.EmptyAndNegativeAccepted | include/parser.h:443-556 | instances: the empty text is zero, and -1 the largest 64-bit value |
| FlagValues.IntAcceptedExactly | include/parser.h:573-592 | the same for an int flag and the range of int |
| FlagValues.SizeAcceptedExactly | include/parser.h:671-714 | a size is accepted with value v if and only if the text is a base with at most one suffix letter, K for 1024, M for 1048576, G for 1073741824, T for 1099511627776 or P for 1125899906842624 in either case, where the base is a number below 2^64 or nothing, which is zero, and v, the base times that, unwrapped, fits 64 bits |
| FlagValues.SizeIsRead | include/parser.h:704-714 | a size that does not fit overflows |
| FlagValues.SizeRefusedExactly | include/parser.h:674-703 | a text is refused as no number if and only if it denotes no size and does not start with a number out of range |
| FlagValues.BoolAcceptedExactly | include/parser.h:418-427 | a boolean flag is set by 1, true, yes and si, cleared by 0, false and no, and refuses every other text as unknown |
| FlagValues.NumberAcceptedExactly | include/parser.h:430-735 | what each kind accepts, with its limit: 255, 65535, 4294967295, 2^64 - 1, the range of int, and sizes; strings take any text |
| FlagValues.StoreExactly | include/parser.h:402-756 | a list gains its argument at the end and takes any; an ignored boolean takes any argument; everything else is refused when its argument is no value of its kind, ignored or not, with the error of that value |
| FlagValues.BareSuffixIsZero | include/parser.h:674-714 | an instance: a suffix letter alone is zero |
| FlagValues.ProductFits | include/parser.h:705-711 | the 128-bit product never wraps |
| FlagGroups.LegibleExactly | include/parser.h:370-398 | an option token reads back as its group if and only if the name has no =, asks for no help, does not start with / unless ignored, and is not - on its own |
| FlagGroups.HelpsExactly | include/parser.h:378-392 | a token asks for help if and only if it is a dash, an ignore mark or none, -h or -help with its own dash, and possibly a value |
| FlagGroups.SplitRender | include/parser.h:369-398 | rendered groups split back into themselves, in either style, whatever follows them |
| FlagGroups.SplitSound | include/parser.h:369-398 | every command line is the rendering of its groups followed by what remains |
| FlagGroups.SplitUnique | include/parser.h:369-376 | no other cut into legible groups and a terminal rest exists |
| FlagGroups.EndingExactly | include/parser.h:378-414 | how the groups end when a token is no further group: help, an unknown name, or a registered name with no value left |
| FlagFold.DispatchDistinct | include/parser.h:400-764 | with distinct names the search applies one group to one flag |
| FlagFold.DispatchAll | include/parser.h:400-764 | with repeated names a joined value goes to every flag of the name |
| FlagFold.DispatchTwo | include/parser.h:400-764 | without one, two flags of a name take an argument each, in order |
| FlagFold.OptionCut | include/parser.h:385-389 | an option token is left cut at its =, whatever becomes of it |
| FlagFold.StoreKeepsIdentity | include/parser.h:402-756 | a stored group marks its flag, changes at most its value, and not even that when ignored |
| FlagFold.ParseIsFold | include/parser.h:369-773 | for distinct names the loop is the fold: split into groups, apply them in order, stop at the first refusal |
| FlagFold.UsageHelpIsNoHelp | include/parser.h:378-398 | -h and -help end the parse as unknown flags, or as valueless ones when flags of those names are registered and nothing follows |
| FlagResults.FinalValues | include/parser.h:400-764 | each scalar flag ends with the value of its last unignored group or as it was, each list with its unignored arguments appended in order, each mention remembered, nothing else changed |
| FlagResults.AppliedExactly | include/parser.h:400-772 | a command line goes through if and only if each group would on its own |
| FlagResults.FirstRefusal | include/parser.h:415-735 | the parse stops at the first refused value with its error and flag name, and keeps what earlier groups have done |
| FlagResults.HelpSucceeds | include/parser.h:391-397 | help ends the parse with a yes, whatever follows and whatever is mandatory |
| FlagResults.ArgumentsCut | include/parser.h:385-389 | an accepted command line keeps its tokens, except that each joined value is cut off |
| FlagResults.IgnoredGroupsChangeNothing | include/parser.h:378-383 | deleting the ignored groups of an accepted command line changes no value and not where parsing ends |
| FlagResults.IgnoredGroupsAnswer | include/parser.h:378-383 | it keeps the answer if and only if there is a rest, or the answer was no, or every mandatory flag is mentioned by a group that is not ignored or was before |
| FlagResults.MandatoryMet | include/parser.h:774-785 | after accepted groups the check for mandatory flags passes if and only if each was mentioned by them, ignored or not, or before |
| FlagResults.StyleIrrelevant | include/parser.h:385-414 | -name=value and -name value are interchangeable group by group |
| FlagResults.ShownIsRead | include/parser.h:402-735 | every value a flag can take on the command line is read back from its printed form |
| FlagResults.OwnAssignment | include/parser.h:400-764 | in a rendered assignment each flag owns exactly its own groups |
| FlagResults.AssignmentIsParsed | include/parser.h:362-789 | rendered legible groups that give each flag its value parse back to these values, in any order of flags, in any mixture of styles, with any acceptable ignored groups in between, whatever follows them |
| FlagResults.RenderedAssignmentIsParsed | include/parser.h:362-789 | in particular any assignment of values in order of registration |
| FlagResults.SuccessMeans | include/parser.h:365-788 | on success without help the arguments are legible, accepted groups and a terminal rest, and when all were consumed every mandatory flag has been mentioned |
| FlagResults.SuccessExactly | include/parser.h:362-789 | a command line succeeds without help if and only if it is of that form |
| FlagParser.FlagContext.Reset | include/parser.h:141-150 | forgets flags, program name and rest, keeps the error |
| FlagParser.FlagContext.NewFlag | include/parser.h:167-178 | appends a flag with its default as value; distinct names stay distinct |
| FlagParser.FlagContext.Match | include/parser.h:400-765 | the search loop is Dispatch, with its error reports |
| FlagParser.FlagContext.TakeOption | include/parser.h:378-412 | cuts the token at its = in place and dispatches it |
| FlagParser.FlagContext.ParseOption | include/parser.h:369-772 | one turn of the loop is one step of Parse |
| FlagParser.FlagContext.CheckMandatory | include/parser.h:774-785 | succeeds if and only if every mandatory flag is marked, and otherwise names one that is not |
| FlagParser.FlagContext.FlagParse | include/parser.h:362-789 | flags, answer, error, rest, program name and the cut arguments are those of Parse |
| ParamLists.TokensOfJoined | include/file_parser.h:321-328 | tokenising words joined by any separators gives the words |
| ParamLists.ListIsRead | include/file_parser.h:304-400 | valid tokens are stored in order for every mix, repetition, leading or trailing use of separators; with more than 32 the list fails having stored exactly the first 32 |
| ParamLists.ReadMeansValid | include/file_parser.h:324-395 | a list read to its end had only valid tokens and no more than 32 |
| ParamLists.ElemExactly | include/file_parser.h:335-369 | which token is which element of each kind: the seven words, numbers up to UINT_MAX, and numbers in the range of int |
| ParamLists.ReadsLongest | include/file_parser.h:324-395 | any list yields its longest valid front, cut at 32 |
| ParamLists.UintElemIsRead | include/file_parser.h:348-357 | a printed unsigned element comes back if and only if it is at most INT_MAX |
| ParamLists.ElemIsRead | include/file_parser.h:336-368 | every other element in range comes back |
| ParamKeys.FindInLine | include/file_parser.h:428 | a plain name found before the = is found at the same place in the line, and otherwise only behind the = |
| ParamKeys.TakesExactly | include/file_parser.h:427-449 | for every line: looking for a parameter is undefined when its name is first found 256 characters or more before the end; else the parameter is taken, with the text behind the next =, if and only if that occurrence is followed by = or by a blank and later a =; else nothing happens |
| ParamKeys.OwnsIsClaims | include/file_parser.h:427-449 | in a line with one = these are the names whose first occurrence before the = ends there or is followed by a blank |
| ParamKeys.TakesFromComment | include/file_parser.h:427-449 | with a second = the search can land in a comment |
| ParamKeys.TakenCuts | include/file_parser.h:459-547 | a taken value leaves name and kind alone and the line a prefix that still has its key |
| ParamKeys.OnlyOwnersChange | include/file_parser.h:427-549 | parsing any line changes only parameters it belongs to in that sense, despite the cuts between searches |
| ParamKeys.OnlyClaimantsChange | include/file_parser.h:427-549 | the same for a line with one =, in terms of what stands before it |
| ParamLines.FirstClaimantDecides | include/file_parser.h:427-549 | when the parameters a line with one = belongs to are all scalars or all strings, the one registered first decides the result of the line and the others stay as they are |
| ParamLines.ParseLineIsChain | include/file_parser.h:427-549 | for any kinds: searching and cutting a line with one = amounts to its claimants taking turns on the text behind the =, each on what the one before has left |
| ParamLines.ListsAllTake | include/file_parser.h:427-549 | when they are all lists, every one of them takes the same bracketed text |
| ParamLines.IsolatedExactly | include/file_parser.h:427-549 | when they are all scalars or all strings, the line changes only parameters of a given name if and only if the one registered first has that name or does not change by the value |
| ParamKeys.RegisteredWordsAreIsolated | include/file_parser.h:427-549 | when every word before the = is registered and no name is a proper suffix of another, only parameters that these words name change |
| ParamKeys.RegisteredKeyIsIsolated | include/file_parser.h:427-549 | when one registered name is the only word before the =, no other parameter changes |
| ParamValues.ScalarTaken | include/file_parser.h:466-473 | a scalar is the text up to the first blank, or up to the newline when there is none |
| ParamValues.BoolTakenExactly | include/file_parser.h:478-487 | a boolean takes the seven words and refuses any other |
| ParamValues.UintTakenExactly | include/file_parser.h:492-501 | an unsigned value is refused if and only if it is neither a number nor empty; its lowest 32 bits are stored, all ones for 2^64 or more |
| ParamValues.IntTakenExactly | include/file_parser.h:488-491 | an int is the number its text starts with, whatever follows, cut to 32 bits |
| ParamValues.NoIntIsZero | include/file_parser.h:488-491 | and zero when there is none |
| ParamValues.BlobTakenExactly | include/file_parser.h:522-541 | a blob is pairs of hex digits with or without 0x; too many are refused or undefined, an odd number is undefined, and fewer leave the other bytes of the variable |
| ParamValues.StringTakenExactly | include/file_parser.h:463-465 | a string is what lies between its first character, whichever that is, and the next quote |
| ParamValues.ListTakenExactly | include/file_parser.h:304-400 | for any words and separators a list parameter takes the longest valid front, at most 32 elements, keeps its old elements when that is empty, and is marked if and only if it was before or every word was taken |
| ParamValues.NoBracketNoList | include/file_parser.h:306-308 | without an opening bracket a list is left alone |
| ParamAnswers.LineShape | include/file_parser.h:415-418 | a line is what comes up to a newline, the end of the text, or 1023 characters |
| ParamAnswers.LineByLine | include/file_parser.h:418-550 | lines that start with #, a blank or a newline are passed over, any other is searched, and a refused value ends the parse |
| ParamAnswers.UnownedStays | include/file_parser.h:418-550 | a parameter that no searched line of the text belongs to keeps its value and its mark |
| ParamAnswers.MissingMandatoryFails | include/file_parser.h:557-567 | so a text with no line for a mandatory parameter that is not marked is never accepted |
| ParamAnswers.FoundExactly | include/file_parser.h:449-556 | a parse finds something if and only if some searched line belongs to some parameter |
| ParamAnswers.BadListFails | include/file_parser.h:304-400 | a text whose only line for a mandatory list has a word that is no element, or more than 32, is not accepted, though the list holds what was read |
| ParamRoundTrip.ForeignKeyIsTaken | include/file_parser.h:427-449 | a longer word that a name ends for the first time is taken for that name, so isolation fails for keys that are not registered |
| ParamRoundTrip.MaxPintSetsPint | include/file_parser.h:427-449 | an instance: a line for MAXPINT sets PINT |
| ParamRoundTrip.TwoNamesTake | include/file_parser.h:427-549 | an instance of it: two int parameters whose names both claim what stands before the = each match the line, and the one registered first gets the value |
| ParamRoundTrip.PintPboolSetsFirst | include/file_parser.h:427-449 | an instance, PINT and PBOOL, neither name a suffix of the other |
| ParamRoundTrip.OrderDecidesMaxPint | include/file_parser.h:427-549 | an instance, MAXPINT and PINT registered in either order |
| ParamRoundTrip.ListTextJoined | include/file_parser.h:778-789 | the printed list is its elements joined by commas and a closing bracket |
| ParamRoundTrip.LineForm | include/file_parser.h:743-801 | the saved line of each kind, character by character around the name, number, text and description |
| ParamRoundTrip.ElemForm | include/file_parser.h:781-788 | the printed form of each element |
| ParamRoundTrip.HexForm | include/file_parser.h:793-799 | two upper-case hex digits for each byte |
| ParamRoundTrip.UintListComesBackExactly | include/file_parser.h:304-400 | a printed list of unsigned elements comes back if and only if it has at most 32 of them and none is above INT_MAX |
| ParamRoundTrip.HexTextReads | include/file_parser.h:530-538 | a printed blob is read back byte for byte |
| ParamRoundTrip.ValueIsRead | include/file_parser.h:459-541 | every printed value, followed by what follows it in its line, is read back |
| ParamRoundTrip.OwnLineRestores | include/file_parser.h:427-549 | the line of one saved parameter restores that one and no other |
| ParamRoundTrip.TextWithoutEquals | include/file_parser.h:422-434 | further lines of a description are passed over |
| ParamRoundTrip.SavedFileRestores | include/file_parser.h:403-568 | saving and parsing succeeds and restores every value, whatever the receiving variables held |
| ParamRoundTrip.EmptyListIsUndefined | include/file_parser.h:427-473 | an empty list is saved without its closing bracket and parsing that line is undefined, for every plain name |
| ParamFile.ParamContext.Register | include/file_parser.h:173-184 | appends a parameter; lists and blobs are mandatory whatever the caller says |
| ParamFile.ParamContext.Save | include/file_parser.h:731-805 | the text is the lines of all parameters in order; without parameters there is none |
| ParamFile.ParamContext.SaveLine | include/file_parser.h:743-801 | each kind prints as its line |
| ParamFile.ParamContext.SaveList | include/file_parser.h:775-792 | the element loop, with its separators |
| ParamFile.ParamContext.SaveBlob | include/file_parser.h:793-799 | the byte loop |
| ParamFile.ParamContext.ReadTokens | include/file_parser.h:324-395 | the token loop stores elements until the list ends, a token is bad, or 32 are stored |
| ParamFile.ParamContext.ParseListParam | include/file_parser.h:304-400 | a list is replaced by what was read, and marked only when it was read to its end |
| ParamFile.ParamContext.ParseBlob | include/file_parser.h:522-541 | the hex loop, its size check and the cases where it leaves its value or variable |
| ParamFile.ParamContext.TryParam | include/file_parser.h:428-447 | looking for one parameter in what is left of a line |
| ParamFile.ParamContext.TakeParam | include/file_parser.h:459-547 | finding where the value ends and taking it |
| ParamFile.ParamContext.TakeScalarParam | include/file_parser.h:477-541 | the switch over the other kinds, with its comparisons and refusals |
| ParamFile.ParamContext.ParseOneLine | include/file_parser.h:427-549 | the inner loop, cutting the line behind each value |
| ParamFile.ParamContext.ParseLines | include/file_parser.h:418-550 | the outer loop over lines of at most 1023 characters |
| ParamFile.ParamContext.CheckMandatory | include/file_parser.h:557-566 | succeeds if and only if every mandatory parameter is marked |
| ParamFile.ParamContext.Parse | include/file_parser.h:403-568 | parameters, answer and error of a whole parse, or undefined behaviour; the answer is yes if and only if no value was refused, something was found and every mandatory parameter is marked |
| ClientTable.Table.Init | include/eth_comms.h:798-822 | the table of a server set up in a zeroed context |
| ClientTable.Table.Take | include/eth_comms.h:513-516 | a stale index reads a client or an empty slot |
| ClientTable.Table.ShiftDown | include/eth_comms.h:245-248 | the shifting loop |
| ClientTable.Table.RemoveSlot | include/eth_comms.h:242-254 | the client sequence loses exactly that client; slot 0 stays and the slots from the count on are zero |
| ClientTable.Table.Disconnect | include/eth_comms.h:214-265 | refuses an index out of range or an empty slot, and otherwise closes one socket and removes its client |
| ClientTable.Table.Admit | include/eth_comms.h:649-668 | appends a connection with its own address, or closes it when the table is full |
| ServerThreads.StepInv | include/eth_comms.h:486-679 | every step of either thread keeps all invariants |
| ServerThreads.RunInv | include/eth_comms.h:486-679 | so does every interleaving |
| ServerThreads.TableInvariant | include/eth_comms.h:245-254 | in every reachable state the table is in bounds, every client has an open socket of its own, and they stand in accept order |
| ServerThreads.ReceiveOnLiveSocket | include/eth_comms.h:509-520 | recv is only called on an open socket that still belongs to the slot it was read from |
| ServerThreads.RemovedIsTheFailed | include/eth_comms.h:520-540 | after a recv that reported a closed or failed connection, whatever the accepter does in between, the client removed is the one it was made on, and only that one |
| ServerThreads.LeavesOnlyAfterHangup | include/eth_comms.h:520-540 | over every run a client leaves the table only in the removal that follows a recv on it reporting its connection closed or failed |
| ServerThreads.NobodyLeavesHealthy | include/eth_comms.h:521-535 | in a run where recv only ever has data, has none or is interrupted, everyone admitted stays |
| ServerThreads.StoreExactly | include/eth_comms.h:649-668 | with fewer than 255 clients an accepted connection joins them and the accepter goes on; otherwise it is closed and the accepter stops |
| ServerThreads.StoppedForGood | include/eth_comms.h:649-661 | a stopped accepter admits nobody any more |
| ServerThreads.PassCoverage | include/eth_comms.h:502-540 | whenever a pass ends its snapshot is an in-order interleaving of polled and skipped clients, at most one skipped per disconnect, all skipped ones still connected |
| ServerThreads.UnpolledStayConnected | include/eth_comms.h:502-540 | a client present at the start of a pass was polled or is still connected at its end |
| ServerThreads.UndisturbedPassPollsAll | include/eth_comms.h:509-540 | a pass without a disconnect polls exactly its snapshot, each client once, in order |
| ServerThreads.OutsideDisconnectExactly | include/eth_comms.h:214-256 | after a disconnect by a third thread between a failed recv and the removal, the removal takes the failed client and no other if and only if the disconnected one stood behind it, or was the failed one with none behind it |
| Server.Server.Start | include/eth_comms.h:755-846 | the initial state of the machine |
| Server.Server.BeginPass | include/eth_comms.h:502-507 | the listener's snapshot is that step of the machine |
| Server.Server.FinishPass | include/eth_comms.h:509-543 | the end of the loop over slots |
| Server.Server.TakeSlot | include/eth_comms.h:509-518 | reading a slot under the mutex |
| Server.Server.ReceiveFrom | include/eth_comms.h:520-540 | recv outside the mutex, by result |
| Server.Server.DropClient | include/eth_comms.h:528-538 | the disconnect after a failed recv |
| Server.Server.AcceptConnection | include/eth_comms.h:629-647 | accept outside the mutex |
| Server.Server.StoreConnection | include/eth_comms.h:649-668 | entering the connection under the mutex, or closing it and stopping |

## Left out

- RingBuffer.CircularBuffer.Write: takes the bytes as a sequence, so a source that overlaps the buffer's own memory is not modelled.
- RingBuffer.CircularBuffer.Read: the destination is not the buffer's own memory; the same for ReadUntil.
- Dma.System.Tick: chunks are smaller than the buffer, as the hardware loop's always are, and the size is below 2^31 because the countdown is passed as a signed 32-bit number; reads are atomic with respect to arrivals and publications.
- FlagFold.ParseIsFold: needs distinct names; the search itself is modelled for repeated names too, each match taking an argument of its own.
- FlagParser.FlagContext.FlagParse: lists grow without bound; in C an entry past 1024 is written outside its array.
- ParamKeys.TakesExactly: names without blank or `=`; others are never or ambiguously matched.
- ParamLines.IsolatedExactly: not stated for parameters of different kinds, or lists, that claim one line; ListsAllTake says what happens to lists, and ParseLineIsChain what happens to a mixture, where what the later ones find depends on the text of the value.
- ParamText.TakeValue: a string parameter with nothing after its `=`, not even a newline, is undefined here; the source goes on into what an earlier line left in the reused line buffer.
- ParamRoundTrip.SavedFileRestores: gives conditions under which a file comes back; that every one of them is needed is shown only for empty lists, unsigned elements and the order of names that end others.
- ServerThreads.RemovedIsTheFailed: only the listener disconnects; OutsideDisconnectExactly says what a third thread would do.
- ServerThreads.Step: a refused connection is closed in the step that finds the table full, where the source leaves the mutex first; the same in ClientTable.Table.Admit.
- Float and double flags, float parameters and float lists: printing them loses precision.
- CSV files: float data, and no content beyond the tokenising that the list property covers.
- Lists of strings: saved with quotes that the list parser does not strip.
- Values are held in the parameter records: two parameters sharing a variable, and the write of an unsigned parameter through a wider pointer, are not modelled.
- The unset third character of the buffer in the hex loop: the model reads exactly two characters.
- Opening, reading and closing files: a file is its text, or absent; saving always finds its file.
- Contiguous data and free counts of the ring buffer, and its name field: nothing calls them.
- Clocks and random numbers of the hardware loop: arrivals take any bytes at any time.
- UDP, the TCP client, connecting, sending, closing a server and stopping its threads, and IPv6.
- Setting non-blocking mode, address conversion, logging, error and help printing.
- Looking up the name of a flag or parameter by its address.
- include/timers.h and include/logger.h: too small, and pure output.
