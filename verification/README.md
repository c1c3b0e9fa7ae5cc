# Embedded component runtime: a Dafny model

A model of five parts of the repository, and proofs about them.

* **JSON reader.** A resumable pull parser over a text that arrives in any number of buffers.
  `JsonScan` reads the concatenated text; the class in `JsonReader` (with the one-word container
  stack of `BitStack`) keeps the fields of the original and is proved to take exactly those steps
  whatever the division. `JsonGrammar` is the grammar of RFC 8259 as trees with all their
  whitespace, `JsonLexemes` and `JsonRoundTrip` prove that reading inverts printing, in both
  directions, and `JsonErrors` which error each other text ends in.
* **ustream.** Handles over shared immutable data, concatenated into a graph of control blocks.
  `UstreamSpec` gives each handle its text, `UstreamAnswers` says what the operations of an
  instance do to the positions its caller sees, `UstreamRuns` interleaves the lock sections of any
  number of reads, `UstreamOwnership` follows the reference counts over whole operations,
  `UstreamSystem` runs both at once, and the class in `Ustream` updates the memory as the original
  does. `UstreamSolo` is the read loop of one reader on whatever concat leaves behind, also where
  that is not a concatenation.
* **IPC.** A table of ten slots with reference counts, flags and hashes. `IpcSpec` has the lock
  sections as functions, `Ipc` the control block with its loops, `IpcProtocol` every run of the
  lock sections, `IpcAnswers` what each answers and whom it affects, `IpcDefaults` the default
  flags and the registry, `IpcQuery` the paged listing, `Names` the three printers and the parser
  of method names, `MethodNames` the texts that the parser takes.
* **Registry.** A node log and a data log in flash. `Flash` gives a flash its map, `RegistrySpec`
  every single write of an add, `RegistryAnswers` when one has room and what it leaves, `Registry`
  the live registry and its driver.
* **Key vault.** Exclusive or with a rotating key and Base64 (`Base64`, section 4 of RFC 4648, and
  `KeyVault`).

`Common` holds the option type and the test for a digit that several of them need.

`dafny verify dfyconfig.toml` checks the whole project with Dafny 4.11.

## Main results

* Chunk invariance: `JsonReader.ReadDivided`, from one contract per reading method
  (`JsonReader.Reader.NextToken`). The reader accepts a text if and only if it is a printed
  document of at most 64 levels, and then emits the pre-order tokens of its tree
  (`JsonRoundTrip.PrintedIsRead`, `JsonRoundTrip.AcceptsExactlyDocuments`). Otherwise it answers
  UNEXPECTED_END if and only if more text would make a document of it
  (`JsonErrors.UnexpectedEndIsUnfinished`), and NESTING_OVERFLOW if and only if a bracket opens
  where a value is due behind 64 open ones (`JsonErrors.OverflowIsTooDeep`).
* Streams, in one system where any threads read while instances are made, cloned, concatenated,
  split and disposed of (`UstreamSystem`): every completed read returned its own bytes
  (`EveryReadIsRight`), no read is ever on a block whose release callback has been made
  (`ReadsStayOnLiveBlocks`), callbacks are made once and in order (`EveryRunReleasesOnce`), no run
  deadlocks (`EveryRunCanGoOn`), a read ends within the cost of its block in steps of its own
  (`ReadEnds`), and under every schedule all reads end (`EveryScheduleEnds`).
* IPC handle safety, unique names and handle renewal: `IpcProtocol.EveryRunIsGood` and
  `IpcProtocol.RenewalIsSound`. Default flags and registry over every run, and over a reboot:
  `IpcDefaults.EveryRoomyRunAgrees`, `IpcDefaults.RebootRestores`. Unpublish waits more than 15
  rounds if and only if it was asked to wait without end or its 32-bit clock wraps
  (`IpcSpec.WaitingBound`), and while it waits no client is added
  (`IpcAnswers.PendingKeepsClientsOut`).
* The registry is a finite map (`RegistrySpec.RunRefines`), and the ready flag is the commit point
  (`RegistrySpec.PreparationIsInvisible`). An add has room if and only if its words fit what the
  entries on the flash, live and deleted, leave, and a node is left (`RegistryAnswers.AddAnswers`).
* Round trips: `KeyVault.CipherRoundTrip`, `Names.SplitInvertsPrint`, `IpcQuery.ListNames`. The
  parser of method names takes exactly the texts of its form (`MethodNames.NameIsExact`).

## Where the code and its documentation part

For each of these there are inputs at which the promise fails and the exact condition under which
it holds.

* A number may end in a bare exponent mark (`1e`) when something follows it; section 6 of RFC 8259
  asks for a digit, and so does a comment in the code. An accepted text is one of RFC 8259 if and
  only if no number token ends in the mark (`JsonRoundTrip.ReadsExactlyJson`,
  `JsonRoundTrip.BareMarkExample`).
* Clearing one IPC flag is written with a logical not and clears all of them, so an unpublish that
  times out also takes the default flag away, from the slot but not from the registry
  (`IpcDefaults.TimedOutExample`). In every run with registry space the two agree on a slot if and
  only if that has not happened to it since it was last made the default
  (`IpcDefaults.EveryRoomyRunAgrees`), and an old default survives a reboot if and only if no rival
  that lost its flag is published after it (`IpcDefaults.RebootRestores`).
* The IPC header promises a zero continuation token at the end of a listing. The code's token is
  never zero (`IpcQuery.LastTokenExample`); it keeps the promise if and only if the buffer of the
  call is too small for all that is left of the listing (`IpcQuery.TokenPromise`), and otherwise the
  next call is an EOF (`IpcQuery.NextCallEnds`).
* The header promises a handle for every published interface that fits the name. A handle kept from
  before is refused exactly when the interface comes back in a lower slot
  (`IpcProtocol.RepublishedHandle`); in general `IpcProtocol.GetSucceeds`.
* Publish accepts an interface whose registry key does not fit the key buffer; such an interface
  can never be unpublished (`IpcProtocol.PublishedForGood`, `IpcProtocol.NoKeyExample`). An idle one
  goes if and only if it has a key and the registry lets it go (`IpcProtocol.UnpublishFrees`,
  `IpcProtocol.KeyFits`).
* An entry that ends in erased words is overwritten by the next add
  (`RegistrySpec.ValueLostExample`). It survives if and only if that add puts nothing but erased
  words there (`RegistrySpec.FirstSurvives`); before an add that begins with any other word, if and
  only if the value ends marked (`RegistrySpec.MarkedSurvives`).
* The flags of a node are there to restore the registry after a power cycle. An add that breaks off
  behind its first write makes every later add invisible, although it answers AZ_OK
  (`RegistryAnswers.InterruptedExample`); one that breaks off before it leaves the next add visible
  (`RegistryAnswers.InterruptedAdd`).
* Splitting an instance whose first valid position has moved, or a clone with another offset,
  leaves a left half of the wrong length (`UstreamSpec.ReleasedThenSplit`,
  `UstreamSpec.SplitIsExact`). The left half of a split multi reads on past the split
  (`UstreamSpec.SplitMultiReadsOn`).
* Concatenation gives inner positions to its first child as logical ones, and the read does not
  look at whether set_position finds them. One pass at position p delivers from p if and only if
  the first operand's offset is 0, or set_position refuses p while the cursor is there already
  (`UstreamSolo.PassDeliversFrom`). With readers that may leave the cursor anywhere that asks for
  the offset 0 (`UstreamSolo.SharedReadsNeedZeroOffset`). Of a reader alone all reads are in place,
  and then right, if and only if the operand is used up, its offset is 0, or the offset is so far
  off that set_position refuses every position still to be read (`UstreamSolo.ConcatReadAlone`). A
  clone at offset 1 is read wrongly from its second read on (`UstreamSolo.OffsetExample`).
* A concat whose clone is refused, exactly when the two lengths together pass 32 bits, leaves the
  first operand on a half-made multi. It reads on as before if and only if it is asked for no more
  than it has left; a longer read runs into a child slot without an instance
  (`UstreamSolo.RefusedConcatKeepsWhatIsLeft`, `UstreamSolo.RefusedConcatReads`).

## Model

| member | source | states |
|---|---|---|
| `BitStack.WordIsInjective` | deps/azure-core-c/src/azure/core/az_json_private.h:69-109 | up to depth 64, depth and word determine the stack of containers |
| `BitStack.ZeroAboveDepth` | deps/azure-core-c/src/azure/core/az_json_private.h:90-99 | the word of a stack has only zeros at and above its depth |
| `BitStack.PopRestores` | deps/azure-core-c/src/azure/core/az_json_private.h:69-88 | shifting back restores the word of the stack below, and the low bit is the top container, also at depth 64 |
| `BitStack.JsonBitStack.Push` | deps/azure-core-c/src/azure/core/az_json_private.h:90-99 | below depth 64 the word represents the stack with the container on top |
| `BitStack.JsonBitStack.Pop` | deps/azure-core-c/src/azure/core/az_json_private.h:69-88 | the word represents the rest of the stack; the result is the new top, an array when nothing is left |
| `BitStack.JsonBitStack.Peek` | deps/azure-core-c/src/azure/core/az_json_private.h:101-109 | the top container, an array when the stack is empty |
| `JsonScan.NextProgress` | deps/azure-core-c/src/azure/core/az_json_reader.c:880-950 | every successful call moves forward and keeps kind, depth and stack consistent; DONE exactly at the end outside all containers |
| `JsonReader.Reader.constructor` | deps/azure-core-c/src/azure/core/az_json_reader.c:51-88 | a new reader stands at the start of the concatenated text |
| `JsonReader.Reader.GetNextBuffer` | deps/azure-core-c/src/azure/core/az_json_reader.c:127-163 | moves to the next buffer and remembers, once, where a token began; at the last buffer nothing changes |
| `JsonReader.Reader.SkipBlank` | deps/azure-core-c/src/azure/core/az_json_reader.c:165-188 | stands on the first byte of the text that is not whitespace, in whatever buffer that is |
| `JsonReader.Reader.UpdateState` | deps/azure-core-c/src/azure/core/az_json_reader.c:98-125 | the token fields hold the text between the token's start and the new position, straddling or not |
| `JsonReader.Reader.ProcessContainerEnd` | deps/azure-core-c/src/azure/core/az_json_reader.c:190-207 | one step of the flat reader: an end mark must match the innermost container |
| `JsonReader.Reader.ProcessContainerStart` | deps/azure-core-c/src/azure/core/az_json_reader.c:209-226 | one step of the flat reader: one level more, or an overflow at 64 |
| `JsonReader.Reader.ProcessHexDigits` | deps/azure-core-c/src/azure/core/az_json_reader.c:286-317 | four hexadecimal digits of the text, across buffers |
| `JsonReader.Reader.ProcessStringBody` | deps/azure-core-c/src/azure/core/az_json_reader.c:246-361 | ends on the closing quote the flat reader finds, with the length of the whole text up to it |
| `JsonReader.Reader.ProcessString` | deps/azure-core-c/src/azure/core/az_json_reader.c:246-361 | one step of the flat reader on a string |
| `JsonReader.Reader.ProcessPropertyName` | deps/azure-core-c/src/azure/core/az_json_reader.c:363-388 | one step of the flat reader on a name and its colon |
| `JsonReader.Reader.ConsumeDigits` | deps/azure-core-c/src/azure/core/az_json_reader.c:424-463 | stands after the run of digits of the text, across buffers, with their count |
| `JsonReader.Reader.FinishIfDelimited` | deps/azure-core-c/src/azure/core/az_json_reader.c:395-480 | a number ends at a delimiter, or at the end of a text that is one number; else only an expected byte may follow |
| `JsonReader.Reader.ProcessNumber` | deps/azure-core-c/src/azure/core/az_json_reader.c:503-703 | one step of the flat reader on a number |
| `JsonReader.Reader.ProcessLiteral` | deps/azure-core-c/src/azure/core/az_json_reader.c:707-746 | one step of the flat reader on a literal that may straddle buffers |
| `JsonReader.Reader.ProcessValue` | deps/azure-core-c/src/azure/core/az_json_reader.c:748-793 | one step of the flat reader on a value, by its first byte |
| `JsonReader.Reader.ReadFirstToken` | deps/azure-core-c/src/azure/core/az_json_reader.c:795-823 | the first token, and whether the text is more than one scalar |
| `JsonReader.Reader.ProcessNextByte` | deps/azure-core-c/src/azure/core/az_json_reader.c:825-878 | after a value: a comma and the next item, or the right end mark |
| `JsonReader.Reader.NextToken` | deps/azure-core-c/src/azure/core/az_json_reader.c:880-950 | result, kind, size, text and position of one call are those of one step on the undivided text |
| `JsonReader.Reader.SkipChildren` | deps/azure-core-c/src/azure/core/az_json_reader.c:952-971 | skips as the flat reader does, from a container start or a property name |
| `JsonReader.Reader.CopyIntoSpan` | deps/azure-core-c/src/azure/core/az_json_token.c:13-57 | start and end indices rebuild the text of a straddling token |
| `JsonReader.ReadDivided` | deps/azure-core-c/src/azure/core/az_json_reader.c:880-950 | for every division into non-empty buffers: the tokens and the first other result of the one-buffer text |
| `JsonRoundTrip.PrintedIsRead` | deps/azure-core-c/src/azure/core/az_json_reader.c:748-950 | every document, with any whitespace, is read as the pre-order token list of its tree and then DONE |
| `JsonRoundTrip.StrictIsReadable` | deps/azure-core-c/src/azure/core/az_json_reader.c:503-703 | this covers every tree of RFC 8259 values up to depth 64 |
| `JsonRoundTrip.ReadIsPrinted` | deps/azure-core-c/src/azure/core/az_json_reader.c:880-950 | a run that reaches DONE has read a printed document |
| `JsonRoundTrip.AcceptsExactlyDocuments` | deps/azure-core-c/src/azure/core/az_json_reader.c:880-950 | DONE is reached if and only if the text is a printed document |
| `JsonRoundTrip.PrintIsUnambiguous` | deps/azure-core-c/src/azure/core/az_json_reader.c:880-950 | two trees printed alike have the same tokens |
| `JsonRoundTrip.StrictIsOfTheText` | deps/azure-core-c/src/azure/core/az_json_reader.c:503-703 | a readable tree prints a text of RFC 8259, whatever tree that text has there, if and only if its own numbers follow section 6 |
| `JsonRoundTrip.ReadsExactlyJson` | deps/azure-core-c/src/azure/core/az_json_reader.c:649-670 | the texts of RFC 8259 of at most 64 levels are exactly those read to DONE without a number token that ends in an exponent mark |
| `JsonRoundTrip.BareMarkExample` | deps/azure-core-c/src/azure/core/az_json_reader.c:649-670 | "1e " is read to DONE and is no text of RFC 8259 |
| `JsonRoundTrip.SkipLandsOnEnd` | deps/azure-core-c/src/azure/core/az_json_reader.c:952-971 | from a container start, skipping stops on the matching end with the enclosing depth |
| `JsonRoundTrip.SkipFromName` | deps/azure-core-c/src/azure/core/az_json_reader.c:952-971 | from a property name, skipping passes the whole value |
| `JsonErrors.CharacterClasses` | deps/azure-core-c/src/azure/core/az_json_reader.c:286-395 | whitespace, digits, hexadecimal digits, escapes and exponent marks are those of RFC 8259; what may follow a number |
| `JsonErrors.RunGrows` | deps/azure-core-c/src/azure/core/az_json_reader.c:880-950 | more text never takes tokens back, and changes the answer only after UNEXPECTED_END or DONE |
| `JsonErrors.UnexpectedEndIsUnfinished` | deps/azure-core-c/src/azure/core/az_json_reader.c:880-892 | UNEXPECTED_END if and only if the text is no document but more text would make it one |
| `JsonErrors.CutDocument` | deps/azure-core-c/src/azure/core/az_json_reader.c:880-892 | a document cut short ends in DONE or UNEXPECTED_END, and its tokens are the first of the whole |
| `JsonErrors.OverflowIsTooDeep` | deps/azure-core-c/src/azure/core/az_json_reader.c:209-226 | NESTING_OVERFLOW if and only if some bracket opens where a null would be read as a value and 64 containers are open |
| `JsonErrors.SkipValueIsExact` | deps/azure-core-c/src/azure/core/az_json_reader.c:952-971 | on every text and from every token: behind how many tokens skipping lands, or the error of the run |
| `UstreamSpec.ChildPosition` | src/az_ulib_ustream/az_ulib_ustream_aux.c:64-82 | set_position through a child's offset finds the place of the multi's position in that child |
| `UstreamSpec.ChildText` | src/az_ulib_ustream/az_ulib_ustream_aux.c:92-167 | the bytes under a child are the bytes of the multi at those positions |
| `UstreamSpec.InitIsOk` | src/az_ulib_ustream/az_ulib_ustream.c:239-261 | a new leaf instance reads the whole buffer |
| `UstreamSpec.CloneIsOk` | src/az_ulib_ustream/az_ulib_ustream.c:196-222 | a clone reads the rest of the original and starts at the given logical position |
| `UstreamSpec.ConcatIsOk` | src/az_ulib_ustream/az_ulib_ustream_aux.c:313-344 | the first operand then reads its rest and the rest of the second, at its old logical position |
| `UstreamSpec.SplitIsExact` | src/az_ulib_ustream/az_ulib_ustream_aux.c:346-400 | on a leaf the halves append to the old rest if and only if offset_diff is the first valid position and the split lies after the current one |
| `UstreamSpec.SplitMultiReadsOn` | src/az_ulib_ustream/az_ulib_ustream_aux.c:92-167 | the left half of a split multi reads as the unsplit instance; that is its own text if and only if the read stays before the split |
| `UstreamSpec.ReleasedThenSplit` | src/az_ulib_ustream/az_ulib_ustream_aux.c:380-384 | a concrete instance whose left half is a byte short |
| `UstreamSpec.RefusedSplitChangesNothing` | src/az_ulib_ustream/az_ulib_ustream_aux.c:346-400 | a refused split leaves instance and blocks as they were |
| `UstreamSpec.SplitThenConcat` | src/az_ulib_ustream/az_ulib_ustream_aux.c:313-400 | splitting a leaf instance that counts from 0 and joining the halves gives the same positions over the same text |
| `UstreamAnswers.SetPositionAnswers` | src/az_ulib_ustream/az_ulib_ustream.c:85-105 | accepted if and only if the position is that of an inner place in the valid range; get_position then answers it |
| `UstreamAnswers.ResetAnswers` | src/az_ulib_ustream/az_ulib_ustream.c:107-114 | goes to the first valid position: what any valid position can read is the end of what is left after a reset |
| `UstreamAnswers.ReadTakes` | src/az_ulib_ustream/az_ulib_ustream.c:116-163 | a read takes the smaller of wanted and left from the front; EOF exactly when nothing is left |
| `UstreamAnswers.ReleaseAnswers` | src/az_ulib_ustream/az_ulib_ustream.c:174-194 | accepted if and only if the position is valid and read; then exactly the positions up to it are valid no more |
| `UstreamAnswers.ReleasedIsGone` | src/az_ulib_ustream/az_ulib_ustream.c:174-194 | after a release set_position goes to exactly the old positions behind the released one |
| `UstreamAnswers.ClonePositions` | src/az_ulib_ustream/az_ulib_ustream.c:196-222 | a clone goes to its offset and one position for each byte left, over the same bytes |
| `UstreamAnswers.ConcatPositions` | src/az_ulib_ustream/az_ulib_ustream_aux.c:313-344 | the positions of the first operand stay, over the same bytes and then those of the second |
| `UstreamAnswers.SplitAnswers` | src/az_ulib_ustream/az_ulib_ustream_aux.c:346-400 | NOT_FOUND for positions out of range, ARG for the current one, the end and those past 32 bits with the length, else accepted |
| `UstreamSolo.RefusedConcatReads` | src/az_ulib_ustream/az_ulib_ustream_aux.c:92-344 | after a refused concat a read returns bytes of the first operand from where set_position puts its cursor, unless they reach past its end; then it runs into the empty child slot |
| `UstreamSolo.RefusedConcatKeepsWhatIsLeft` | src/az_ulib_ustream/az_ulib_ustream_aux.c:313-344 | an operand that counts from 0 reads on as before if and only if it is asked for no more than it has left, and otherwise runs into the empty child slot; the clone is refused if and only if the two lengths together pass 32 bits |
| `UstreamSolo.PassDeliversFrom` | src/az_ulib_ustream/az_ulib_ustream_aux.c:125-130 | a pass at position p delivers from p if and only if the offset is 0, where set_position finds p, or the cursor is at p, where it refuses p |
| `UstreamSolo.SharedReadsNeedZeroOffset` | src/az_ulib_ustream/az_ulib_ustream_aux.c:125-130 | from every cursor at every valid position the pass delivers from its place if and only if the offset is 0 |
| `UstreamSolo.OutOfTheWay` | src/az_ulib_ustream/az_ulib_ustream_aux.c:125-130 | set_position refuses every position still to be read if and only if the offset lies past the valid range and does not wrap round to it |
| `UstreamSolo.InPlaceIsRight` | src/az_ulib_ustream/az_ulib_ustream_aux.c:92-167 | a read that finds the first child's cursor in its place returns the bytes asked for or left of the joined text and leaves the cursor in place |
| `UstreamSolo.ConcatReadAlone` | src/az_ulib_ustream/az_ulib_ustream_aux.c:92-344 | all reads of one reader on a concatenation, in whatever sizes, are in place if and only if the first operand is used up, its offset is 0, or the offset is so far off that set_position never moves the cursor; then all are right |
| `UstreamSolo.OffsetExample` | src/az_ulib_ustream/az_ulib_ustream_aux.c:92-167 | a clone at offset 1 of 10, 11, 12, 13 joined with 20: the first read of two gives 10, 11, the second 11, 12 |
| `UstreamRuns.AdvanceKeepsConsistent` | src/az_ulib_ustream/az_ulib_ustream_aux.c:92-167 | one lock operation of any read keeps every read of every thread right |
| `UstreamRuns.StepKeepsConsistent` | src/az_ulib_ustream/az_ulib_ustream_aux.c:92-344 | so do init, clone, concat, set_position, reset and release on idle handles in between |
| `UstreamRuns.NoDeadlock` | src/az_ulib_ustream/az_ulib_ustream_aux.c:125-130 | while a read is in progress some thread can take a step |
| `UstreamRuns.AdvanceUsesWork` | src/az_ulib_ustream/az_ulib_ustream_aux.c:92-167 | every own step of a read uses up some of its work |
| `UstreamRuns.StepKeepsWork` | src/az_ulib_ustream/az_ulib_ustream_aux.c:92-344 | every step of another thread, on whatever instance, leaves a read in progress exactly the work it had |
| `UstreamRuns.StartWork` | src/az_ulib_ustream/az_ulib_ustream_aux.c:92-111 | a new read has at most the cost of its block to do |
| `UstreamOwnership.DisposeSane` | src/az_ulib_ustream/az_ulib_ustream_aux.c:249-280 | the recursive dispose gives up one reference, keeps every count equal to its holders and the three counters of each multi equal |
| `UstreamOwnership.EveryRunIsOwned` | src/az_ulib_ustream/az_ulib_ustream_aux.c:210-400 | over every run each ref_count is the number of user instances and of child slots of live multis |
| `UstreamOwnership.ReachableIsAlive` | src/az_ulib_ustream/az_ulib_ustream_aux.c:249-280 | no block that a live block reaches has had a callback |
| `UstreamOwnership.NothingLeaks` | src/az_ulib_ustream/az_ulib_ustream_aux.c:249-280 | without user instances every block has reached count 0 |
| `UstreamOwnership.EveryRunReleasesOnce` | src/az_ulib_ustream/az_ulib_ustream.c:69-81 | over every run each release callback was made exactly once, when the last reference went, the data's before the control block's, and never for a block a handle reaches |
| `UstreamOwnership.DisposeOrder` | src/az_ulib_ustream/az_ulib_ustream_aux.c:249-280 | the callbacks of one dispose are those under the first child, those under the second, and last the block's own, the data's first |
| `UstreamOwnership.EveryRunAsks` | src/az_ulib_ustream/az_ulib_ustream.c:239-261 | over every run a block has the callbacks given when it was made |
| `UstreamSystem.ReadsKeepSane` | src/az_ulib_ustream/az_ulib_ustream_aux.c:92-167 | the steps of reads keep the balance of references |
| `UstreamSystem.StepKeepsSound` | src/az_ulib_ustream/az_ulib_ustream_aux.c:92-400 | reads by any threads, init, clone, concat, set_position, reset, release, exact splits of leaves and dispose each keep reads right, locks held, and counts and callbacks balanced |
| `UstreamSystem.EveryRunIsSound` | src/az_ulib_ustream/az_ulib_ustream_aux.c:92-400 | so does every run of them in any order |
| `UstreamSystem.RunGoesOn` | src/az_ulib_ustream/az_ulib_ustream_aux.c:92-400 | whatever is allowed after a run extends it: the invariant cuts no run off |
| `UstreamSystem.EveryReadIsRight` | src/az_ulib_ustream/az_ulib_ustream_aux.c:92-167 | over every run and interleaving each completed read returned exactly the bytes asked for or left, of its own text from its own position, and EOF only at the end |
| `UstreamSystem.ReadsStayOnLiveBlocks` | src/az_ulib_ustream/az_ulib_ustream_aux.c:249-280 | over every run no block that a read in progress is on, or may still go to, has had a release callback, whatever is disposed of meanwhile |
| `UstreamSystem.EveryRunReleasesOnce` | src/az_ulib_ustream/az_ulib_ustream.c:69-81 | over every run with reads each callback was made once, exactly when the last reference went, the data's before the control block's; with no instance left all blocks are released |
| `UstreamSystem.EveryRunCanGoOn` | src/az_ulib_ustream/az_ulib_ustream_aux.c:125-130 | no run ends in a deadlock |
| `UstreamSystem.ReadEnds` | src/az_ulib_ustream/az_ulib_ustream_aux.c:92-167 | in every run a read takes at most the cost of its block in steps of its own between its start and its end, whatever the others do |
| `UstreamSystem.EveryScheduleEnds` | src/az_ulib_ustream/az_ulib_ustream_aux.c:92-167 | left to themselves all reads end under every schedule, after at most the work there is |
| `Ustream.Streams.SetPosition` | src/az_ulib_ustream/az_ulib_ustream.c:85-105 | moves the cursor within the valid range, or refuses and changes nothing |
| `Ustream.Streams.Reset` | src/az_ulib_ustream/az_ulib_ustream.c:107-114 | goes back to the first valid position |
| `Ustream.Streams.Release` | src/az_ulib_ustream/az_ulib_ustream.c:174-194 | raises the first valid position past a position already read, or refuses |
| `Ustream.Streams.ReadLeaf` | src/az_ulib_ustream/az_ulib_ustream.c:116-152 | copies exactly the bytes asked for or left into the buffer and moves the cursor by them |
| `Ustream.Streams.ReadMulti` | src/az_ulib_ustream/az_ulib_ustream_aux.c:92-167 | the loop over the two children copies exactly the bytes asked for or left of the concatenated text; only cursors below change |
| `Ustream.Streams.Read` | src/az_ulib_ustream/az_ulib_ustream_aux.c:92-167 | the same for every instance, leaf or multi, also for the left half of a split multi, whose own length the loop never looks at |
| `Ustream.Streams.Create` | src/az_ulib_ustream/az_ulib_ustream.c:239-261 | one leaf with one reference and one instance more |
| `Ustream.Streams.Clone` | src/az_ulib_ustream/az_ulib_ustream_aux.c:210-247 | one instance more, and one more in every counter of its block; refused when the positions would pass 32 bits |
| `Ustream.Streams.Concat` | src/az_ulib_ustream/az_ulib_ustream_aux.c:282-344 | the concat step, a multi that holds the old instance and a clone; when the clone is refused, the error and the half-made multi it leaves |
| `Ustream.Streams.Split` | src/az_ulib_ustream/az_ulib_ustream_aux.c:346-400 | result and new state are those of the split step, in every refusal as well |
| `Ustream.Streams.DisposeBlock` | src/az_ulib_ustream/az_ulib_ustream_aux.c:249-280 | counters, recursion and callbacks in the order of the dispose step |
| `Ustream.Streams.DisposeInstance` | src/az_ulib_ustream/az_ulib_ustream.c:224-237 | the user's instance is gone and its block disposed of |
| `Names.NumberRoundTrip` | src/az_ulib_ipc/az_ulib_ipc.c:848-873 | parsing inverts printing for every 32-bit number |
| `Names.SplitInvertsPrint` | src/az_ulib_ipc/az_ulib_ipc.c:793-901 | the parser inverts the documented form with optional device and capability and the wildcard version |
| `Names.SplitInvertsNames` | src/az_ulib_ipc/az_ulib_ipc.c:215-273 | it inverts a listing entry for all versions, and the registry key is the same text below 2^31 |
| `Names.BigVersionsDoNotSplit` | src/az_ulib_ipc/az_ulib_ipc.c:226-231 | a registry key can be split if and only if both versions are below 2^31 |
| `Names.KeysAreInjective` | src/az_ulib_ipc/az_ulib_ipc.c:240-273 | dot-free names and 32-bit versions with the same key are the same |
| `MethodNames.NumberIsExact` | src/az_ulib_ipc/az_ulib_ipc.c:848-873 | a version is taken if and only if it spells a number of 32 bits, for its value |
| `MethodNames.NameIsExact` | src/az_ulib_ipc/az_ulib_ipc.c:793-901 | a text is taken as given parts if and only if it is those parts written out |
| `MethodNames.DecimalIsPlain` | src/az_ulib_ipc/az_ulib_ipc.c:918-945 | numbers are printed with their own value and no leading zero |
| `MethodNames.SignedIsTwosComplement` | src/az_ulib_ipc/az_ulib_ipc.c:226-231 | versions in keys are printed as 32-bit signed numbers |
| `IpcSpec.Lookup` | src/az_ulib_ipc/az_ulib_ipc.c:64-109 | the first slot that matches names and version, or the default flag, or none |
| `IpcSpec.FirstFree` | src/az_ulib_ipc/az_ulib_ipc.c:129-143 | the first slot without references, or none |
| `IpcSpec.WaitingBound` | src/az_ulib_ipc/az_ulib_ipc.c:575-649 | an interface in use all along makes unpublish wait more than 15 rounds if and only if the wait is endless or its 32-bit sum wraps |
| `IpcProtocol.SetDefaultFlagsOnly` | src/az_ulib_ipc/az_ulib_ipc.c:405-475 | set_default leaves descriptors and references alone, renews the hash of a slot that loses the flag, and keeps names and defaults unique |
| `IpcProtocol.PublishPlaces` | src/az_ulib_ipc/az_ulib_ipc.c:477-561 | publish fills the first free slot with one reference and a new hash and touches no other descriptor or count |
| `IpcProtocol.RefusedUnchanged` | src/az_ulib_ipc/az_ulib_ipc.c:486-511 | a refused publish changes nothing |
| `IpcProtocol.StepKeepsGood` | src/az_ulib_ipc/az_ulib_ipc.c:405-764 | every lock section keeps handle safety, unique names and defaults, and the tickets |
| `IpcProtocol.EveryRunIsGood` | src/az_ulib_ipc/az_ulib_ipc.c:405-764 | over every run: ref_count is 1 and the outstanding handles, at most 128, 0 exactly without descriptor; holders see their descriptor; names and defaults are unique |
| `IpcProtocol.RenewalIsSound` | src/az_ulib_ipc/az_ulib_ipc.c:655-712 | without hash wrap AZ_OK means the same publication, still default if taken as default and the flag was not lost to a timed-out unpublish; RENEW means a slot that matches |
| `IpcProtocol.GetSucceeds` | src/az_ulib_ipc/az_ulib_ipc.c:676-708 | with a usable interface by that name the call succeeds if and only if no cached slot with a still matching hash is unusable |
| `IpcProtocol.RepublishedHandle` | src/az_ulib_ipc/az_ulib_ipc.c:680-691 | after unpublish and publish the old handle is refused exactly when the interface came back in a lower slot |
| `IpcProtocol.UnpublishFrees` | src/az_ulib_ipc/az_ulib_ipc.c:605-615 | an idle interface goes if and only if its key fits and the registry lets the entry go |
| `IpcProtocol.KeyFits` | src/az_ulib_ipc/az_ulib_ipc.c:240-273 | exactly when the key fits the key buffer |
| `IpcProtocol.PublishedForGood` | src/az_ulib_ipc/az_ulib_ipc.c:512-556 | an interface without a key is published and never unpublished |
| `IpcProtocol.NoKeyExample` | src/az_ulib_ipc/az_ulib_ipc.c:49-50 | names within their documented sizes that have no key |
| `IpcAnswers.LookupIsByName` | src/az_ulib_ipc/az_ulib_ipc.c:64-109 | in a table with distinct names the slot found is the one that bears the request, if any |
| `IpcAnswers.GetAnswers` | src/az_ulib_ipc/az_ulib_ipc.c:655-712 | NOT_FOUND for what is missing, gone or on hold, NOT_ENOUGH_SPACE for 128 handles, NOT_IMPLEMENTED for a device; else one holder more; a refusal changes nothing |
| `IpcAnswers.RoundAnswers` | src/az_ulib_ipc/az_ulib_ipc.c:594-637 | the answer of one pass by who holds the interface, with flash and key errors |
| `IpcAnswers.PendingIsOnHold` | src/az_ulib_ipc/az_ulib_ipc.c:618-630 | after a pending pass every request that falls on the interface is answered NOT_FOUND |
| `IpcAnswers.GivenUpIsServed` | src/az_ulib_ipc/az_ulib_ipc.c:631-636 | after a pass that gave up they are served again, but not as the default |
| `IpcAnswers.PendingKeepsClientsOut` | src/az_ulib_ipc/az_ulib_ipc.c:594-637 | over every run from a pending pass on no client is added and no request served until the interface is gone or taken off hold |
| `IpcAnswers.UpdateIsExact` | src/az_ulib_ipc/az_ulib_ipc.c:326-369 | AZ_OK if and only if the entry then holds the flag, whatever the flash does; each error has its cause; other entries stay |
| `IpcAnswers.SetDefaultRefuses` | src/az_ulib_ipc/az_ulib_ipc.c:416-450 | NOT_FOUND for a default version or an unknown name, ARG for what is the default already |
| `IpcAnswers.SetDefaultMoves` | src/az_ulib_ipc/az_ulib_ipc.c:451-470 | which slots change and how, also when the registry fails; AZ_OK if and only if the entries were changed |
| `IpcAnswers.DefaultMoves` | src/az_ulib_ipc/az_ulib_ipc.c:451-470 | requests for the default, also through a handle to the old one, then fall on the chosen slot; other handles where they did |
| `IpcAnswers.PublishAnswers` | src/az_ulib_ipc/az_ulib_ipc.c:486-511 | ARG, DUPLICATE, NOT_ENOUGH_SPACE or AZ_OK, by versions, names in the table, ten slots and 32 characters |
| `IpcAnswers.PublishSettles` | src/az_ulib_ipc/az_ulib_ipc.c:512-556 | the whole table after a publish: when the new interface is the default, and which other slot changes |
| `IpcDefaults.UpdateStores` | src/az_ulib_ipc/az_ulib_ipc.c:326-369 | with registry space the entry holds the flag and no other interface's entry changes |
| `IpcDefaults.SetDefaultAgrees` | src/az_ulib_ipc/az_ulib_ipc.c:405-475 | set_default keeps slots and registry in agreement and makes the chosen slot default |
| `IpcDefaults.PublishAgrees` | src/az_ulib_ipc/az_ulib_ipc.c:518-551 | publish keeps the agreement and restores a stored default |
| `IpcDefaults.EveryRoomyRunAgrees` | src/az_ulib_ipc/az_ulib_ipc.c:275-653 | over every run with registry space flag and registry agree on a published slot if and only if no timed-out unpublish has taken its flag since it was last published or made the default |
| `IpcDefaults.TimedOutExample` | src/az_ulib_ipc/az_ulib_ipc.c:631-636 | three actions of one client after which the only interface is default in the registry and not in the table |
| `IpcDefaults.RebootRestores` | src/az_ulib_ipc/az_ulib_ipc.c:518-551 | after a reboot, whatever interfaces come back in whatever order, an old default is the default if and only if no rival that had lost its flag came back after it |
| `IpcDefaults.RebootIsExact` | src/az_ulib_ipc/az_ulib_ipc.c:518-551 | when an old default without such a rival is among them, the flags of its interface are exactly the old ones |
| `Ipc.ControlBlock.LookupInterface` | src/az_ulib_ipc/az_ulib_ipc.c:64-109 | the loop finds the specified slot |
| `Ipc.ControlBlock.FindInterfaceDescriptor` | src/az_ulib_ipc/az_ulib_ipc.c:111-127 | the loop finds the first slot with the descriptor |
| `Ipc.ControlBlock.GetFirstFree` | src/az_ulib_ipc/az_ulib_ipc.c:129-143 | the loop finds the first free slot |
| `Ipc.ControlBlock.TryLockInterface` | src/az_ulib_ipc/az_ulib_ipc.c:145-166 | one reference more unless on hold, unpublished or full; nothing else changes |
| `Ipc.ControlBlock.UpdateInRegistry` | src/az_ulib_ipc/az_ulib_ipc.c:326-369 | registry and result in each branch, including the registry's errors |
| `Ipc.ControlBlock.SetDefault` | src/az_ulib_ipc/az_ulib_ipc.c:405-475 | table, counter, registry and result of the set_default section |
| `Ipc.ControlBlock.Publish` | src/az_ulib_ipc/az_ulib_ipc.c:477-561 | table, counter, registry and result of the publish section |
| `Ipc.ControlBlock.Round` | src/az_ulib_ipc/az_ulib_ipc.c:594-637 | table, registry and result of one pass of unpublish |
| `Ipc.ControlBlock.Unpublish` | src/az_ulib_ipc/az_ulib_ipc.c:563-653 | whatever other threads leave between rounds: the result of the first round that is not pending, BUSY only after the wait; at most 15 pending rounds unless the wait is endless or wraps |
| `Ipc.ControlBlock.TryGetInterface` | src/az_ulib_ipc/az_ulib_ipc.c:655-712 | table, handle and result of the try_get section |
| `Ipc.ControlBlock.ReleaseInterface` | src/az_ulib_ipc/az_ulib_ipc.c:738-749 | one reference less |
| `IpcQuery.EntryIsQuotedName` | src/az_ulib_ipc/az_ulib_ipc.c:960-1001 | an entry is the default mark and the listed name between quotes |
| `IpcQuery.ReportInterfaces` | src/az_ulib_ipc/az_ulib_ipc.c:903-1022 | a page is the entries of consecutive slots, as many as fit; nothing past it is written; EOF and NOT_ENOUGH_SPACE exactly when due |
| `IpcQuery.Query` | src/az_ulib_ipc/az_ulib_ipc.c:1024-1054 | the first page and the token for the next, or NOT_SUPPORTED |
| `IpcQuery.QueryNext` | src/az_ulib_ipc/az_ulib_ipc.c:1055-1079 | the page at the token, or NOT_SUPPORTED |
| `IpcQuery.TokenPromise` | inc/az_ulib_ipc_api.h:433-437 | a page's token, never 0, keeps the promise of 0 exactly at the end if and only if the buffer was too small for all that was left when the page was asked for; its count is then below the size of the table |
| `IpcQuery.NextCallEnds` | src/az_ulib_ipc/az_ulib_ipc.c:1055-1079 | the call after a page is EOF if and only if the page's buffer had room for all that was left; the count has then reached the size of the table |
| `IpcQuery.LastTokenExample` | src/az_ulib_ipc/az_ulib_ipc.c:1037-1043 | a table with one interface: its only page has a token that is not 0, and the next call is EOF |
| `IpcQuery.ListAll` | src/az_ulib_ipc/az_ulib_ipc.c:903-1079 | with buffers that fit every entry, query and query_next end after at most ten pages that cover the slots in order without overlap |
| `IpcQuery.SplitEntries` | src/az_ulib_ipc/az_ulib_ipc_query_interface.c:48-63 | the marshalling loop recovers the entries of a page when they are free of commas |
| `IpcQuery.ListNames` | src/az_ulib_ipc/az_ulib_ipc_query_interface.c:48-63 | over all pages: the default mark and full name of every published slot once, in slot order |
| `IpcQuery.MarkedNameSplits` | src/az_ulib_ipc/az_ulib_ipc.c:793-901 | behind the mark the parser of method names finds the parts of the descriptor |
| `Flash.FindIsLookup` | src/az_ulib_registry/az_ulib_registry.c:165-190 | on every flash the node scan is the lookup in its map |
| `Flash.FreeStartIsTop` | src/az_ulib_registry/az_ulib_registry.c:149-163 | the backward scan finds the end of the data while the last stored word is not erased |
| `RegistrySpec.PreparationIsInvisible` | src/az_ulib_registry/az_ulib_registry.c:264-328 | after every write of an add short of the ready flag the map is the old one |
| `RegistrySpec.AddRefinesInsert` | src/az_ulib_registry/az_ulib_registry.c:264-328 | a whole add gives the old map with the new entry; the flash stays sound exactly when the value does not end in an erased word |
| `RegistrySpec.DeleteRefinesRemove` | src/az_ulib_registry/az_ulib_registry.c:215-237 | a delete removes exactly the entry |
| `RegistrySpec.OpRefines` | src/az_ulib_registry/az_ulib_registry.c:215-328 | each operation is the map operation; duplicate and not-found depend on the map alone |
| `RegistrySpec.RunRefines` | src/az_ulib_registry/az_ulib_registry.c:215-328 | so does every run, with keys added again after a delete |
| `RegistrySpec.FirstSurvives` | src/az_ulib_registry/az_ulib_registry.c:149-163 | after two adds the first entry is still there if and only if the second writes nothing but erased words over the erased words that end the first |
| `RegistrySpec.MarkedSurvives` | src/az_ulib_registry/az_ulib_registry.c:149-163 | before an add whose first word is not erased, if and only if the value does not end in an erased word |
| `RegistrySpec.ValueLostExample` | src/az_ulib_registry/az_ulib_registry.c:149-163 | two adds to an erased flash after which the first value is lost |
| `RegistrySpec.Balance` | src/az_ulib_registry/az_ulib_registry.c:347-388 | data words and node slots of live and deleted nodes make up what is used |
| `RegistryAnswers.AddAnswers` | src/az_ulib_registry/az_ulib_registry.c:280-296 | DUPLICATE by the map, OUT_OF_MEMORY when the words do not fit beside all entries, NOT_ENOUGH_SPACE when only a node is missing; an exact fit is taken |
| `RegistryAnswers.AddLeaves` | src/az_ulib_registry/az_ulib_registry.c:297-320 | the six words of the node and the data words of an add; all else stays |
| `RegistryAnswers.PackedBytes` | pal/src/GCC/LINUX/az_ulib_pal_flash_driver.c:34-64 | the stored bytes are the source's and zeros up to the end of the word |
| `RegistryAnswers.DeleteLeaves` | src/az_ulib_registry/az_ulib_registry.c:215-237 | a key in the map is found, and one word of its node cleared |
| `RegistryAnswers.InterruptedAdd` | src/az_ulib_registry/az_ulib_registry.c:165-190 | after an add that broke off the next add shows if and only if nothing had been written |
| `RegistryAnswers.InterruptedExample` | src/az_ulib_registry/az_ulib_registry.c:110-190 | on an erased flash an add cut off behind one write hides the next one |
| `Registry.Registry.DriverWrite` | pal/src/GCC/LINUX/az_ulib_pal_flash_driver.c:34-49 | the words written and those still due are always the packed input |
| `Registry.Registry.DriverClose` | pal/src/GCC/LINUX/az_ulib_pal_flash_driver.c:51-64 | a partial word goes out padded with zeros |
| `Registry.Registry.Store` | pal/src/GCC/LINUX/az_ulib_pal_flash_driver.c:25-64 | open, write and close write the packed bytes word by word |
| `Registry.Registry.FindNode` | src/az_ulib_registry/az_ulib_registry.c:165-190 | the loop finds the specified node, stopping at the first one not ready |
| `Registry.Registry.GetStartOfFreeSpace` | src/az_ulib_registry/az_ulib_registry.c:149-163 | the loop finds one past the last word that is not erased |
| `Registry.Registry.StoreNode` | src/az_ulib_registry/az_ulib_registry.c:110-146 | the spans go to the first empty node, word by word |
| `Registry.Registry.Add` | src/az_ulib_registry/az_ulib_registry.c:264-328 | result, every write in order and the flash they leave |
| `Registry.Registry.Delete` | src/az_ulib_registry/az_ulib_registry.c:215-237 | result, the one write and the flash it leaves |
| `Registry.Registry.TryGetValue` | src/az_ulib_registry/az_ulib_registry.c:239-262 | the value of the map, or not found exactly when the key is not in it |
| `Registry.Registry.GetInfo` | src/az_ulib_registry/az_ulib_registry.c:347-388 | live, deleted and free add up to the total, for node slots and for data |
| `Registry.Registry.CleanAll` | src/az_ulib_registry/az_ulib_registry.c:330-345 | an erased flash with the empty map |
| `Base64.CharIsAlphabet` | samples/ipc_call_interface/producers/key_vault_2/key_vault_2.c:86-112 | the branches compute the alphabet of section 4 of RFC 4648 |
| `Base64.B16IsAlphabet` | samples/ipc_call_interface/producers/key_vault_2/key_vault_2.c:114-121 | the packed table gives the letter of four bits of a two-byte tail |
| `Base64.B8IsAlphabet` | samples/ipc_call_interface/producers/key_vault_2/key_vault_2.c:123-127 | the packed table gives the letter of two bits of a one-byte tail |
| `Base64.ToValueInverts` | samples/ipc_call_interface/producers/key_vault_2/key_vault_2.c:129-158 | decoding a letter inverts the alphabet |
| `Base64.DecodeInverts` | samples/ipc_call_interface/producers/key_vault_2/key_vault_2.c:251-335 | decoding the alphabet run of an encoded text gives the bytes back, whatever follows the text |
| `Base64.EncodedLength` | samples/ipc_call_interface/producers/key_vault_2/key_vault_2.c:52-60 | an encoding has four characters for each three bytes begun |
| `Base64.TestVectors` | samples/ipc_call_interface/producers/key_vault_2/key_vault_2.c:205-249 | the vectors of section 10 of RFC 4648 |
| `KeyVault.XorTwice` | samples/ipc_call_interface/producers/key_vault_2/key_vault_2.c:205-213 | exclusive or with the same bits twice is the identity, for any width |
| `KeyVault.XorIsExclusiveOr` | samples/ipc_call_interface/producers/key_vault_2/key_vault_2.c:205-213 | it is the exclusive or of the bytes as bit vectors |
| `KeyVault.PlainMask` | samples/ipc_call_interface/producers/key_vault_2/key_vault_2.c:207-226 | with alpha and delta 0 the mask is the key string of the algorithm, over and over |
| `KeyVault.AlphaAdds` | samples/ipc_call_interface/producers/key_vault_2/key_vault_2.c:207-226 | alpha is added to every key byte modulo 256 |
| `KeyVault.DeltaTurns` | samples/ipc_call_interface/producers/key_vault_2/key_vault_2.c:207-226 | delta is where the key starts |
| `KeyVault.FirstIgnoresSettings` | samples/ipc_call_interface/producers/key_vault_2/key_vault_2.c:187-193 | algorithm 0 ignores both settings |
| `KeyVault.FirstByteExample` | samples/ipc_call_interface/producers/key_vault_2/key_vault_2.c:178-249 | the byte 0 with algorithm 1 and the initial settings |
| `KeyVault.CipherRoundTrip` | samples/ipc_call_interface/producers/key_vault_2/key_vault_2.c:178-335 | decrypting an encrypted text gives the bytes back, for both algorithms, every alpha and every reduced delta |
| `KeyVault.EncryptedLength` | samples/ipc_call_interface/producers/key_vault_2/key_vault_2.c:52-60 | text and terminator of a non-empty input take exactly encoded_len |
| `KeyVault.EncryptAccepts` | samples/ipc_call_interface/producers/key_vault_2/key_vault_2.c:183-186 | encrypt has room if and only if text and terminator fit, or the input is empty |
| `KeyVault.DecryptAccepts` | samples/ipc_call_interface/producers/key_vault_2/key_vault_2.c:62-84 | a text of encrypt is decrypted if and only if the room is that of its bytes rounded up to a multiple of three |
| `KeyVault.DecodedLenIs` | samples/ipc_call_interface/producers/key_vault_2/key_vault_2.c:62-84 | the padding is looked for at the character behind the text |
| `KeyVault.Vault.SetDelta` | samples/ipc_call_interface/producers/key_vault_2/key_vault_2.c:354-373 | the loop reduces delta modulo the key size |
| `KeyVault.Vault.Encrypt` | samples/ipc_call_interface/producers/key_vault_2/key_vault_2.c:178-249 | on success the buffer holds the digit, the RFC 4648 text of the masked bytes and the terminator; otherwise nothing changed |
| `KeyVault.Vault.NumberOfBase64Characters` | samples/ipc_call_interface/producers/key_vault_2/key_vault_2.c:160-169 | the length of the leading run of alphabet characters |
| `KeyVault.Vault.Decrypt` | samples/ipc_call_interface/producers/key_vault_2/key_vault_2.c:251-335 | on success the destination holds the unmasked decoding and a terminator, which may lie just behind the span; otherwise nothing changed |
| `KeyVault.Exchange` | samples/ipc_call_interface/producers/key_vault_2/key_vault_2.c:178-335 | encrypt into a buffer of encoded_len and decrypt from it returns the input |

## Left out

- JsonReader.Reader.UpdateState: does not model `total_bytes_consumed`, a field that the reader writes, leaving out opening quotes and commas, and nothing reads; nor 32-bit overflow of token sizes.
- JsonReader.Reader.constructor: buffers are non-empty, which the header demands of the caller (deps/azure-core-c/inc/azure/core/az_json.h:694-696) and the code calls not allowed (az_json_reader.c:155-159); init checks it for the first one only.
- JsonRoundTrip.PrintedIsRead: token texts are the raw text between the quotes; unescaping belongs to az_json_token.c.
- UstreamSpec.SplitIsExact: for leaf instances; what becomes of a split multi is in UstreamSpec.SplitMultiReadsOn.
- UstreamSpec.Minus: size_t has 32 bits, as UINT32_MAX in clone supposes; streams of more than 4 GiB on wider machines are not modelled.
- UstreamSpec.HalfConcat: the empty child slot, a null pointer in the code, is an instance of the block itself; that a read runs into it is an outcome of its own in UstreamSolo, and what the code does there, or on disposing of it, is not modelled.
- UstreamOwnership.Dispose: one step; the window between the atomic decrement and the test of ref_count is not modelled.
- UstreamSystem.Step: concat steps are those of two operands whose clone is accepted, the first with offset 0, and split steps those of leaf instances that the split halves exactly, the conditions that UstreamSolo.SharedReadsNeedZeroOffset and UstreamSpec.SplitIsExact show necessary; the other operations have no condition but an idle instance.
- IpcSpec.State: the lock is one atomic step per section; data_base_address, the calls into capabilities and their function tables are not modelled.
- IpcSpec.Key: a package name longer than the key buffer counts as a key that does not fit; the writes the code makes before it notices are not modelled.
- IpcSpec.Update: the registry is a map here, and each flash failure is a parameter.
- IpcDefaults.RebootRestores: an interface that had no default may get one after a reboot, from the first package published again.
- Ipc.ControlBlock.Unpublish: a wait may go on for ever, so the method is given the number of rounds it is followed for.
- IpcQuery.ListAll: the table does not change between pages.
- Registry.Registry.Add: no driver write fails; after an interrupted add reading and one more add are covered.
- Registry.Registry.GetInfo: counts in words; the byte loop that compares a node with erased flash is a comparison of nodes here.
- Flash.Node: pointers are word offsets into the data region, and the info region is a whole number of nodes.
- KeyVault.Vault.Encrypt: an empty input that is encrypted at all needs room for two characters, which encoded_len does not ask for; that there is such memory, inside the span or behind it, is a precondition.
- KeyVault.Vault.Decrypt: the text is part of a larger memory, because the code looks one character past its span; where the text is decoded at all, memory for the terminator, inside the destination span or behind it, is a precondition.
- IPC initialisation and deinitialisation, try_get_capability and the two call functions: they read the slot that EveryRunIsGood protects.
- The JSON writer, az_span, logging, the HTTP pipeline, ustream_forward, the sensor and display samples and the first key vault: wrappers, input and output, or easy members.
