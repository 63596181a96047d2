# Verification of the scouting data acquisition

A Dafny model of `scdaq`, the data-taking application of the scouting prototype: a serial reader takes
packets from a DMA device or a file, a parallel stage reformats each packet, and a serial writer stores
the results in numbered files under the command of a run-control thread. Everything stated below is
proved for all inputs, all histories and all interleavings unless the row says otherwise.
`dafny verify dfyconfig.toml` checks the whole project.

## The parts

**The file writer** (`WriterModel`, `WriterLog`, `WriterInvariant`, `WriterTheorems`, `WriterCalls`,
`WriterRotation`, `WriterWitness`, `OutputStreams`). `WriterModel` has one atomic step for every read of the shared
control block, every fclose, rename, fopen, journal write and fwrite of `src/output.cc`, the two stores
of a `start` command as separate steps of the session thread, and a crash that may strike between any
two steps. The stream of the open file is buffered and never flushed before it is closed, so a crash
leaves any prefix of that file; all else on disk stays as it is. The key fact is that the journal on disk is a function of the
list of files opened so far (`Consistent`); file names, crash safety, numbering and lossless rotation
follow from it. `OutputStreams` has the classes themselves; each method is proved equal to an operation
of the model, and `WriterCalls.EveryInterleavingIsACall` proves that whatever the session thread does
between the atomic steps, a call ends where the method says for the values it read.

The code is not crash-safe in all histories, for two reasons. The journal remembers one run only:
`CrashSafety` says that names of journalled files stay their own if and only if no journalled run is
returned to over a journalled file of another run. Then every file that was moved is whole, and every
other one holds what a crash left of it. And a crash takes what is still in the buffer of the open file:
`LosslessRotation` says that everything is read back exactly when no crash cut a file short.
`FopenReusesExactlyWhen` says which fopen is the first to take the name of an existing file, and
`FopenKeepsExactlyWhen` when an fopen loses something. `ReturningLosesData` and `CrashLosesTail` are
histories for the two kinds of loss.

A new file is begun only if it has to be: `CallRotatesExactlyWhen` says so of every call, and
`RotatesOnlyWhenNeeded` of whole histories. There is one exception, a run number that is another one when it
is tested and the old one again when it is loaded (`FlipRotatesEarly`).

**The reformatting of a packet** (`GmtFormat`, `GmtOrbit`, `GmtMeaning`, `GmtPackets`, `StreamProcessors`).
`Meaning` says what one 192-byte block under one bunch crossing should become for a reader of the output, and
`RecordInPlainTerms` what this is in terms of bits and positions in the block; `Encoded` and `Decode`
are the two directions of the record format, the latter following the header reader of
`src/elastico.cc`. `StreamProcessors` writes into arrays in place, with the cursors, the in-place edits
of the crossing vector and the match bits of `src/processor.cc`. The behaviour is kept as it is:

- `CountBX` and `FillOrbit` always start at the beginning of the packet (`src/processor.cc:56`, `:76`), so every
  pass over a packet of several orbits rewrites the first one and advances by its length. For packets of
  well-formed orbits `MultiOrbitHaltsExactlyWhen` shows that the loop halts exactly when that length divides
  the length of all orbits, with the records of the first orbit only, and `MultiOrbitEndIsRightExactlyWhen`
  that the reported end is then right exactly for one orbit or an empty map. `EmptyFirstOrbitHangs` and
  `SecondOrbitIsLost` are two such packets.
- The `bxmatch` bits compare a value with itself (`src/processor.cc:96`) and are always 0xff.
- A block without kept muons is skipped without advancing the crossing (`src/processor.cc:113-117`);
  the log message there says that the packet is skipped. `OrbitDecodes` says what the output then means,
  `ClosedFormExactlyWhen` when the computed end of the output is still right, and `EmptyBlockShifts` is an
  example.
- A packet without an orbit trailer makes `CountBX` run out of its loop without a return value: outcome
  `NoTrailer`. A packet cursor that passes the end of the packet never comes back: outcome `NeverReturns`.
- The frame-size test works on unsigned numbers and also accepts some packets that are too short
  (`FrameTestExactlyWhen`).

**Slices and the pipeline** (`Slices`, `Pipeline`, `Payloads`). The pool and the reader's hand-over are classes. The
pipeline is a step system over workers, tokens and slice ownership; `StuckExactlyWhen` gives the exact
configurations in which the blocking pop can stop everything. `Payloads` adds what the slices contain:
although they are used over and over, `RecordsArriveInReadOrder` follows every packet from the reader to
the records the writer is handed.

**Packets from a file** (`Framing`), **retries on the DMA device** (`WzDma`), **the power-of-two ladder**
(`Ladder`), **file names** (`FileNames`) and **directory creation** (`Paths`). `StepFunctionPower2Ladder` has
separate outcomes for a failing assertion, a shift of an int by 32 places and the division by zero that a
step count of 0 leads to. `create_directories` promises the target directory and all
parents. The code misses three kinds of paths: those cut off by the buffer, one-letter relative names, and
names of entries that are not directories, because mkdir says EEXIST for these too (`FileInTheWay`).
`SuccessMeansThereExactlyWhen` shows that it misses no others. The stat before it, in
`create_output_directory`, catches the third kind but for links to nothing (`OutputThereExactlyWhen`).
A packet read from a file is checked against the size of the buffer only after each line is written:
`OverrunsExactlyWhen` says when a call writes beyond the buffer.

## Model

| member | source | states |
|---|---|---|
| WriterTheorems.CrashSafety | src/output.cc:127-196 | After every history of packets, commands and crashes: names of journalled files were never reused if and only if no journalled run was returned to over a journalled file of another run; then a journalled file that was moved holds every byte fwrite took for it, any other one is in the working directory, whole, or as far as it had left the buffer when a crash found it open; files not yet journalled are empty |
| WriterTheorems.FopenReusesExactlyWhen | src/output.cc:152-187 | As long as no journalled name was reused, the next fopen takes the name of an existing data file exactly when the journal belongs to another run and the first file of the run exists |
| WriterTheorems.FopenKeepsExactlyWhen | src/output.cc:186-187 | An fopen keeps what is stored exactly when nothing is left of any journalled file of its name |
| WriterWitness.ReturningLosesData | src/output.cc:158-187 | Concrete history, runs 1, 2, 1, 3 with one slice each: the first slice is in no directory afterwards |
| WriterWitness.CrashLosesTail | src/output.cc:99-100 | Concrete history, one run with one slice and a crash: the file is journalled and empty |
| WriterTheorems.JournalNamesNextFile | src/output.cc:194-195 | While a file is open for writing the journal holds its run and the next index |
| WriterTheorems.ForgettingTheCounterIsHarmless | src/output.cc:107-110 | Resetting the counter to -1 never changes the index the next file gets |
| WriterTheorems.Numbering | src/output.cc:152-179 | Consecutive indices in a run without crashes; with crashes an index repeats only for an unjournalled file; a new run starts at 0; no index exceeds the number of earlier fopens |
| WriterTheorems.RecordsLinearize | src/output.cc:89-114 | Under every interleaving each recorded slice goes to a file of a run that was current during the call and not published before the start the call saw; the same for every file named |
| WriterTheorems.LosslessRotation | src/output.cc:94-146 | If no journalled run is returned to over another, the files read back in opening order are what survives of them, and this is all that fwrite took, slice by slice, exactly when no crash cut a file short; without crashes it is, between calls, exactly the slices consumed while recording, in order; no slice is split, and a file exceeds the limit by its last slice at most |
| WriterTheorems.EverythingSurvivesExactlyWhen | src/output.cc:99-131 | What survives is as long as what fwrite took exactly when every file survives whole |
| WriterTheorems.ConsumedIsConserved | src/output.cc:94-104 | In every history the slices whose calls found the recording on are those recorded, the one in hand, and those a crash found in hand |
| WriterTheorems.ConsumedInOrder | src/output.cc:94-104 | Without crashes they are recorded in the order consumed |
| WriterTheorems.ClosedFilesAreDelivered | src/output.cc:127-146 | Without crashes every closed file is in the target directory, whole if no journalled run is returned to over another, and the working directory holds the open file only |
| WriterTheorems.StoppedRecordsNothing | src/output.cc:94-110 | While running stays false and writing is not forced: nothing is recorded from the first call on that begins so, and no file is opened |
| WriterTheorems.StopEndsTheRecording | src/session.h:80-84 | A stop while a call is in progress: when it has returned no file is open, and until a start sets running again nothing is recorded and no file is open between calls |
| WriterTheorems.StopBetweenCalls | src/session.h:80-84 | A stop between calls: nothing is recorded from then on, and the next call closes the open file |
| WriterTheorems.StartIsSeen | src/session.h:71-73 | A call that begins after a start has been carried out can only use its run number or a later one |
| WriterTheorems.FwriteRecords | src/output.cc:99-104 | A slice counts as recorded at its fwrite, in the open file |
| WriterRotation.CallRotatesExactlyWhen | src/output.cc:94-110 | For any values of its reads a call opens a new file exactly when it records and no file is open, or the open one is over the limit, or the run number read is another one; else the slice joins the open file; a file is open afterwards unless the call found the recording over |
| WriterRotation.RotatesOnlyWhenNeeded | src/output.cc:95-96 | Without crashes and stops, or with writing forced, a file is followed by another of its run only if it is over the limit or the run number was another one when it was tested |
| WriterRotation.FlipRotatesEarly | src/output.cc:95-155 | A run number that changes and changes back between its reads ends a file early |
| WriterTheorems.RunLinear | src/output.cc:94-156 | Every step of every history keeps the relation between control block, writer and records |
| WriterTheorems.WithoutCrashAllJournaled | src/output.cc:186-195 | Without crashes every file but the one just opened is journalled |
| WriterInvariant.WriterStepKeeps | src/output.cc:89-196 | Every atomic step keeps memory, journal, both directories and the list of opened files in agreement |
| WriterInvariant.RunKeeps | src/output.cc:40-57 | So does every history, with restarts on what a crash left |
| WriterInvariant.WriterStepDurable | src/output.cc:127-196 | No atomic step loses a byte of a stored journalled file unless it reuses the name of one |
| WriterInvariant.CrashDurable | src/output.cc:99-131 | A crash takes bytes of the open file only, from its end |
| WriterInvariant.FwriteKeeps | src/output.cc:99-100 | fwrite keeps the agreement: size, content and list of chunks move together, and only files within the limit grow |
| WriterInvariant.JournalKeeps | src/output.cc:59-76 | Replacing the journal marks the open file as journalled and names its successor |
| WriterInvariant.MoveThenKeeps | src/output.cc:130-145 | Closing and renaming leaves the counter equal to what re-reading the journal gives |
| WriterLog.NamesStayFreshExactlyWhen | src/output.cc:158-179 | With names chosen from the journal, journalled names stay their own if and only if no journalled run is returned to over another |
| WriterLog.ReturnReuses | src/output.cc:158-179 | Every such return reuses the name of a journalled file |
| WriterLog.NextNameTakenExactlyWhen | src/output.cc:158-179 | On the list of opened files, as long as no journalled name was reused: the next name is a journalled one exactly when the journal belongs to another run and the first file of the run exists |
| WriterLog.Successor | src/output.cc:144-195 | Within a run the index grows by one exactly when the previous file was journalled |
| WriterLog.FreshRunStartsAtZero | src/output.cc:161-177 | A run never seen before starts at index 0 |
| WriterLog.IndexWithinOpens | src/output.cc:144-179 | Indices never run ahead of the number of fopens |
| WriterCalls.StepsComposeToCall | src/output.cc:89-114 | The atomic steps of a call compose to the operation the class method implements |
| WriterCalls.EveryInterleavingIsACall | src/output.cc:94-154 | A call interleaved with any session steps ends in the state the method gives for the values it read |
| WriterCalls.RankFalls | src/output.cc:89-196 | Every atomic step of a running call brings it closer to its return |
| OutputStreams.OutputStream.CloseAndMoveCurrentFile | src/output.cc:127-146 | Class state after closing: the file moved, size 0, counter advanced |
| OutputStreams.OutputStream.UpdateJournal | src/output.cc:59-76 | The journal is replaced as a whole |
| OutputStreams.OutputStream.OpenNextFile | src/output.cc:148-196 | Close, renumber by control block and journal, open, journal, for any two values of the two reads of the run number |
| OutputStreams.OutputStream.Fwrite | src/output.cc:99-100 | What fwrite accepts is appended to the open file and counted |
| OutputStreams.OutputStream.Process | src/output.cc:89-114 | A call of the writer for any values of its five reads, keeping the invariant; `WriterRotation.CallRotatesExactlyWhen` says when it opens a file |
| OutputStreams.OutputStream.constructor | src/output.cc:40-57 | A writer starts with no file and no counter, whatever is on disk |
| OutputStreams.CallKeepsConsistent | src/output.cc:89-114 | A whole call keeps the invariant whatever it reads |
| OutputStreams.ControlBlock.ProcessCommand | src/session.h:54-97 | The new control block and the reply for every command in plain values: start sets the number and running, stop clears running, all others change nothing; and the block ends where the atomic session steps lead from any writer state |
| OutputStreams.StartThenGo | src/session.h:69-73 | After the first store of a start its run number is in place and running is as before; after the second running is set |
| FileNames.ParseInvertsStem | src/output.cc:120-125 | A printed name gives back run and index if the prefix leaves room for 23 characters |
| FileNames.NamesDistinctExactlyWhen | src/output.cc:120-125 | All run and index pairs of 32 and 31 bits print to distinct names exactly when the prefix has at most 4072 characters |
| FileNames.LongPrefixCollides | src/output.cc:122-123 | For every longer prefix two indices of one run share a name |
| FileNames.D06Props | src/output.cc:123-123 | Reading back what `%06d` prints inverts it; at most ten characters, and the sign |
| FileNames.PaddedToSix | src/output.cc:123-123 | `%06d` prints at least six characters: six for numbers below a million, zeros before the digits, and the digits alone for others |
| FileNames.StemInPlaces | src/output.cc:120-125 | Prefix, run and index in six places each and the extension, for numbers below a million and a prefix that leaves room |
| FileNames.StemOfFirstRun | src/output.cc:120-125 | The first file of run 1 with prefix scout is scout_000001_000000.dat |
| GmtFormat.HeaderInverts | src/format.h:117-130 | The header sum never carries between its fields |
| GmtFormat.DecodeInverts | src/elastico.cc:98-108 | Reading a record by its header counts inverts writing it, whatever follows |
| GmtFormat.DecodeInvertsAll | src/elastico.cc:98-108 | The same for any list of records |
| GmtFormat.NothingSuppressed | src/processor.cc:101-109 | With zero suppression off all word pairs of a group survive |
| GmtMeaning.SuppressionIsExact | src/processor.cc:98-109 | A muon survives if and only if a link carries it and, with zero suppression on, some bit from 10 to 18 of its first word is set |
| GmtMeaning.MomentumField | src/format.h:73-100 | The momentum is bits 10 to 18 of the first word, whatever the other bits are |
| GmtMeaning.MomentumExactlyWhen | src/processor.cc:98-102 | It is positive exactly when one of these bits is set |
| GmtMeaning.KeptInLinkOrder | src/processor.cc:126-142 | The kept muon of a link stands behind those of the links before it |
| GmtMeaning.NoMuonsExactlyWhen | src/processor.cc:112-117 | A block is dropped exactly when zero suppression is on and neither a first nor a second muon of any link has momentum |
| GmtMeaning.OrbitMatchBits | src/processor.cc:97-97 | Bit i of the orbit match is set exactly when link i has the orbit number of link 0 |
| GmtMeaning.RecordInPlainTerms | src/processor.cc:82-142 | A record in terms of bits and positions: match bits, crossing, orbit, first muons from word 16 on with the low bit of the crossing cleared, second muons from word 32 on with it set |
| GmtMeaning.FullBlocksAre | src/processor.cc:112-117 | The blocks that count are exactly those of the orbit that have something to record |
| GmtFormat.CrossingsAreTheSetBits | src/processor.cc:54-72 | The vector is strictly increasing, holds exactly the set bits, and is as long as the popcounts' sum |
| GmtFormat.SortingIsIdentity | src/processor.cc:169-170 | Any sorted rearrangement of the vector is the vector |
| GmtOrbit.TrailerFoundExactlyWhen | src/processor.cc:56-70 | A trailer is found after n blocks exactly when there is the first marker at a block position, with room for all of the trailer |
| GmtOrbit.SingleOrbitMeaning | src/processor.cc:54-189 | A well-formed single-orbit packet takes one pass, and its output decodes to one record per block, in order, under the ascending crossings of the map, ending where the closed form says |
| GmtOrbit.OrbitDecodes | src/processor.cc:75-149 | In general the output decodes to the k-th block with a kept muon under the k-th crossing |
| GmtOrbit.ClosedFormExactlyWhen | src/processor.cc:171-173 | The closed form equals the write cursor exactly when every crossing found a block with a muon |
| GmtOrbit.EndIsRightExactlyWhen | src/processor.cc:167-186 | After m passes the reported end is where the records end exactly if m is 1 and every crossing found a block with a muon, or the map is empty |
| GmtOrbit.EncodedLength | src/processor.cc:121-146 | The cursor moves by three words per muon and three per record, at most sixteen muons each |
| GmtOrbit.HaltsExactlyWhen | src/processor.cc:167-188 | The loop halts exactly when a packet trailer word stands at some multiple of the orbit length, and at the first such multiple |
| GmtOrbit.FrameTestExactlyWhen | src/processor.cc:41-51 | The unsigned expression accepts packets of whole blocks besides their overhead, and packets shorter than the overhead that are 64 bytes short of whole blocks |
| GmtOrbit.SingleOrbitPassesFrameTest | src/processor.cc:41-51 | No well-formed single-orbit packet is turned away |
| GmtOrbit.FirstOrbit | src/processor.cc:54-149 | However a packet goes on, if it begins with a well-formed orbit, a pass finds this orbit and writes its records |
| GmtPackets.MultiOrbitHaltsExactlyWhen | src/processor.cc:167-188 | On a packet of well-formed orbits, without a stray trailer word at the visited positions, the loop halts exactly when the length of the first orbit divides the length of all, after the quotient of passes; what is written are the records of the first orbit |
| GmtPackets.MultiOrbitEndIsRightExactlyWhen | src/processor.cc:171-173 | The reported end is then where the records end exactly for one orbit or an empty first map |
| GmtPackets.MultiOrbitPassesFrameTest | src/processor.cc:41-51 | The frame-size test accepts every packet of well-formed orbits |
| GmtPackets.EmptyFirstOrbitHangs | src/processor.cc:167-188 | A packet of 344 words with two well-formed orbits on which the loop never ends |
| GmtPackets.SecondOrbitIsLost | src/processor.cc:56-76 | A packet of two well-formed orbits that takes two passes: only the first orbit is written, and the reported end lies behind its records |
| GmtPackets.EmptyBlockShifts | src/processor.cc:113-117 | A packet whose first block is empty: the muon of crossing 1 is recorded under crossing 0 |
| StreamProcessors.BitCheck | src/processor.cc:23-33 | The set bits of a word are appended in ascending order |
| StreamProcessors.CopyMuons | src/processor.cc:126-142 | The selected muons stand behind the cursor in link order, each with the crossing's upper bits and the given low bit; nothing else changes |
| StreamProcessors.Survey | src/processor.cc:82-111 | Counts, selection and match bits of a block |
| StreamProcessors.WriteRecord | src/processor.cc:119-142 | The record carries the unmodified crossing although the vector is edited in place |
| StreamProcessors.StreamProcessor.CountBX | src/processor.cc:54-72 | The crossings of the first trailer's map, or none if the packet has no trailer |
| StreamProcessors.StreamProcessor.FillOrbit | src/processor.cc:75-149 | The output array begins with the encoded records of the orbit, the rest is untouched, the count is the number of muons, and all writes fit |
| StreamProcessors.StreamProcessor.CheckFrameMultBlock | src/processor.cc:41-51 | A packet is accepted if and only if it has room for its overhead and the rest is whole blocks, or is shorter and 64 bytes short of whole blocks |
| StreamProcessors.StreamProcessor.Reformat | src/processor.cc:167-188 | Outcome, end and counts of the loop for any number of passes; sixteen output words never need more than seventeen input words, so the end fits |
| StreamProcessors.StreamProcessor.Process | src/processor.cc:151-189 | Pass-through copies the packet; otherwise the outcome is the one the packet determines |
| StreamProcessors.StreamProcessor.OutcomeExactlyWhen | src/processor.cc:166-188 | Which packets are skipped, have no trailer, are never done, and are reformatted, each with its exact condition |
| StreamProcessors.StreamProcessor.Operator | src/processor.cc:190-197 | A fresh output slice, the input slice emptied and given back; for single-orbit packets the output is the encoded records |
| StreamProcessors.StreamProcessor.MultiOrbitOutcome | src/processor.cc:151-189 | The outcome for packets of several well-formed orbits: the call returns exactly when the length of the first orbit divides the length of all |
| Slices.SlicePool.PreAllocate | src/slice.cc:5-15 | Preallocates when the pool is empty and hands out one of pairwise different empty slices |
| Slices.SlicePool.GetAllocated | src/slice.cc:25-31 | First in, first out |
| Slices.SlicePool.GiveAllocated | src/slice.cc:33-36 | The slice is emptied and returned; the pool stays pairwise different and empty |
| Slices.InputFilter.Read | src/InputFilter.cc:125-174 | The packet leaves in the held slice, the next one comes from the pool, and the one that left is in neither; with an empty pool the call blocks with the packet in the slice it holds |
| Slices.InputFilter.HandOver | src/InputFilter.cc:165-172 | The pop and what follows: it goes on exactly when the pool has a slice |
| Pipeline.PoolConservation | src/slice.cc:5-36 | In every history each preallocated slice is in exactly one place, free ones are empty, output slices are allocated and freed once, packets between reader and writer are exactly those read and not written, no more than four for every worker |
| Pipeline.TokensAreUsed | src/scdaq.cc:94-94 | With enough slices four packets for every worker can be in flight |
| Pipeline.RunKeeps | src/InputFilter.cc:125-174 | The invariant of the step system over every history |
| Pipeline.ReadEndSized | src/InputFilter.cc:166-170 | Ending the read sets the size to exactly what was read, since a held slice is empty and nobody else has it |
| Pipeline.ProcessEndSized | src/slice.cc:33-36 | Emptying a slice disturbs no other |
| Pipeline.SomeStepEnabled | src/scdaq.cc:86-95 | With two slices, and two workers or more slices than tokens, some step is always enabled |
| Pipeline.EveryScheduleDrains | src/scdaq.cc:86-95 | Once no new read begins, every schedule ends after a bounded number of steps, and only with all packets written, all output slices freed and all slices but the held one in the pool |
| Pipeline.PacketsCanBeWritten | src/scdaq.cc:86-95 | From every state every packet read can still be written |
| Pipeline.StuckExactlyWhen | src/scdaq.cc:86-95 | Everything can stop exactly if there is one slice, or one worker and at most four slices |
| Payloads.WrittenInReadOrder | src/InputFilter.cc:125-174 | In every history the writer is handed the packets as processed, each once, in read order: no slice is overwritten before its packet is processed |
| Payloads.RecordsArriveInReadOrder | src/processor.cc:190-197 | Of well-formed single-orbit packets the k-th slice handed to the writer decodes to the records of the k-th packet read |
| Framing.FileReader.ReadDmaPacket | src/FileDmaInputFilter.cc:35-79 | Bytes, file position and outcome of a call for every file, position and buffer, and whether it writes beyond the buffer |
| Framing.FileReader.ReadPacket | src/FileDmaInputFilter.cc:82-104 | Outcome, bytes, file position and counter of a call for every buffer: the first packet that fits, or the hundredth that does not; it writes beyond the buffer exactly if its first packet read does |
| Framing.ReadEndsAfter | src/FileDmaInputFilter.cc:41-78 | How a packet read ends, from the bytes of the file: with the first marked line if the buffer is not full before it, with a full buffer, or with a file that has no whole line left, and how much of one is missing |
| Framing.MarkerIs | src/FileDmaInputFilter.cc:37-64 | The marker is the number compared with, in the order of its bytes in memory |
| Framing.OverrunsExactlyWhen | src/FileDmaInputFilter.cc:41-66 | A packet read writes beyond the buffer exactly when the buffer is no whole number of lines, no line that fits as a whole has the marker, and the file goes on for longer than the rest of the buffer |
| Framing.FirstFittingFits | src/FileDmaInputFilter.cc:88-101 | A returned packet fits and fewer than a hundred were skipped; a hundred end the call |
| Framing.NothingSkippedExactlyWhen | src/FileDmaInputFilter.cc:88-101 | A call is a single packet read exactly when the next packet is not larger than the buffer, and always for a buffer of whole lines |
| Framing.NeverOversized | src/FileDmaInputFilter.cc:35-104 | With a buffer divisible by 32 no packet is reported larger than the buffer |
| Framing.FramingRoundTrip | src/FileDmaInputFilter.cc:35-106 | On a file of k well-formed packets call n returns packet n mod k, for ever, whatever the buffer size that holds them |
| Framing.ReadsCycle | src/FileDmaInputFilter.cc:48-55 | The same from any packet boundary |
| Ladder.BitTrickExactlyWhen | src/utility.h:326-329 | The bit trick accepts exactly the powers of two and 0 |
| Ladder.SmearDoubles | src/utility.h:346-349 | One round of the loop doubles the number of leading ones |
| Ladder.SmearEnds | src/utility.h:350-352 | At the exit, one more is the largest power of two not above the argument: both assertions hold |
| Ladder.StepFunctionPower2Ladder | src/utility.h:338-355 | On every pair of arguments exactly when the call returns the next rung, fails an assertion, shifts by 32 places or divides by zero |
| Ladder.StrictlyIncreasing | src/utility.h:392-396 | The rungs are strictly increasing |
| Ladder.StepsPerOctave | src/utility.h:335-337 | Exactly `steps` rungs lead from 2^m to 2^(m+1) for every 2^m that is at least `steps` |
| Ladder.EvenlySpaced | src/utility.h:353-354 | The rungs between are evenly spaced |
| Ladder.StepInside | src/utility.h:353-354 | From any number between two powers of two not below `steps` the step is the smaller power divided by `steps` |
| Ladder.PowerIs | src/utility.h:326-329 | What the bit trick accepts besides 0 are numbers of the form 2^k |
| Ladder.VisitsPowers | src/utility.h:335-337 | From any start up to 2*steps every power of two at or above the start is a rung |
| WzDma.WzDmaReader.ReadPacketFromDma | src/WZDmaInputFilter.cc:43-88 | Outcome and counters of the inner loop for any answers of the device |
| WzDma.WzDmaReader.ReadPacket | src/WZDmaInputFilter.cc:90-143 | The same for the skip and reset nest |
| WzDma.PacketExactlyWhen | src/WZDmaInputFilter.cc:47-87 | A packet comes out exactly when one of the first nine answers is one and all before it are EIO with a successful restart |
| WzDma.FailureExactlyWhen | src/WZDmaInputFilter.cc:50-83 | Exactly when a read ends with an empty packet, an unrecoverable error, a device that cannot be restarted, or the ninth restart in a row |
| WzDma.DmaReadEnds | src/WZDmaInputFilter.cc:47-87 | How a read ends at its last attempt, and that every unanswered attempt is one error |
| WzDma.RetriesAreBounded | src/WZDmaInputFilter.cc:43-143 | The number of packet reads made, at least 1 and at most 1100; at most 9900 attempts and 10 board resets |
| WzDma.CountersAdvanceInStep | src/WZDmaInputFilter.cc:98-139 | On normal return the packet fits and the oversized counter grew by 100 times the reset counter plus less than 100 |
| WzDma.ReturnsExactlyWhen | src/WZDmaInputFilter.cc:90-143 | A call returns exactly the first packet that fits among the first 1100, and gives up exactly when there is none |
| Paths.Walk | src/tools.h:63-77 | The names passed to mkdir and the effect on the file system; on success the buffer is as before |
| Paths.CreateDirectories | src/tools.h:56-81 | The whole function on any path and any file system, with entries that are not directories |
| Paths.NamesAreThePrefixes | src/tools.h:64-75 | The names are the prefixes with one, two, three and so on components; repeated separators count once; a one-letter start of a relative path is passed over |
| Paths.ResolveInverts | src/tools.h:64-75 | A name made of components denotes just these, from the root or from the working directory on |
| Paths.CreateSucceedsExactlyWhen | src/tools.h:70-80 | In a directory tree it succeeds exactly when each component is a directory or can be created, or is the last one and exists, and the passed-over component is no missing parent; what it then adds |
| Paths.SuccessMeansThereExactlyWhen | src/tools.h:53-81 | Success means that the directory exists, unless the path names an entry that is not a directory, exactly for paths that fit the buffer but for trailing separators and are not a one-letter relative name |
| Paths.ThereExactlyWhen | src/tools.h:71-73 | For such a path a call that succeeds has the directory exactly when the path does not name another kind of entry |
| Paths.FileInTheWay | src/tools.h:71-73 | For every such path a file system with another kind of entry in its place, on which the call succeeds |
| Paths.CreateOutputDirectory | src/output.cc:17-38 | An existing directory gives success and is left alone, a visible entry of another kind gives failure and nothing is called, in all other cases the directory is created |
| Paths.CreateOutputAgain | src/output.cc:17-38 | A second call after one that succeeded succeeds and changes nothing |
| Paths.CreateAgain | src/tools.h:56-81 | The same without the stat |
| Paths.OutputThereExactlyWhen | src/output.cc:17-38 | With the stat, success means that the directory exists, unless the path names a link to nothing, exactly for such paths that stat can judge or that have no components |

## Left out

- An absent journal is treated as one that matches no run; the code compares with a variable it left unset (`src/output.cc:163-175`). A journal file that exists but cannot be parsed is not modelled either.
- The 32-bit width of `file_count` and `current_file_size`: `IndexWithinOpens` shows how many files an overflow would take.
- WriterModel.FileName: runs and indices as numbers, not printed names; `NamesDistinctExactlyWhen` says when that loses nothing.
- Failures of rename and of the journal write, which the code only logs; a failing fopen ends the process and is a crash of the model.
- WriterInvariant.Stored: a file is looked for in the working directory first, so a file of the target directory counts as lost as soon as another of its name is opened, although the data stay until the rename.
- A crash is the death of the process: what fclose, rename and the journal stream handed to the operating system stays. The loss of power is not modelled.
- The C++ memory model: control block accesses are atomic steps in one order.
- `totcounts`, log messages and statistics, the `data_` buffer of the session and its replies' text, the server and its asynchronous operations; splitting a command into tokens and `std::stoul` are parameters.
- TBB itself: stages are serial in order or parallel, and tokens and workers are limited. A pipeline without the stream processor, where the writer frees preallocated slices, is not modelled.
- Slices.InputFilter.Read: a call that blocks returns None and goes on with `HandOver`; waiting and waking up are steps of `Pipeline`. Copies from a buffer of the driver's own and the minimum and maximum statistics are left out.
- Slices are measured in 32-bit words: packets whose size is not a multiple of four bytes are not modelled, nor are the addresses and the alignment of a slice.
- StreamProcessors.StreamProcessor.Process: outcomes `NoTrailer` and `NeverReturns` stand for undefined behaviour and for the endless loop; what the original reads beyond the packet is not modelled. The 32-bit width of the muon counts is not modelled.
- Framing.FileReader.ReadDmaPacket: what a write beyond the buffer destroys is not modelled; the call is described as if the memory there took the bytes.
- Read errors other than the end of the file.
- Ladder.StepFunctionPower2Ladder: arguments are unbounded naturals; overflow of `2 * steps` and of the returned sum is not modelled. Fractional steps and the other two step functions are single floating-point expressions.
- Paths.FileSystem.MakeDirectory: names are plain components; `.`, `..` and other processes are not modelled, and a symbolic link to a directory is that directory.
- The creation of the output directory inside `open_next_file` is a part of the fopen step; `Paths` has the function itself.
- The DMA device, ioctl, mmap, sleeps and the board reset: answers are an arbitrary function of the attempt number.
- `ElasticProcessor` beyond reading a record's header: floating point and HTTP.
- Configuration parsing, the command-line arguments of `src/utility.h`, and the Python and shell scripts: they would add only easy members.
