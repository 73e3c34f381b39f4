# Verified models of the mini_tree core

Dafny models of the stateful protocols at the bottom of the mini_tree middleware, with proofs of
what they keep over every input, run or interleaving. `dafny verify dfyconfig.toml` checks all of it.

- **Flash record log** (`FlashLog`, `FlashRounds`, `FlashCompletion`, `FlashLogDevice`). The partition is an
  array of bytes that erasing sets to 0xFF and programming can only clear bits of. `FlashLog` says what a record
  write, a power loss and the power-on scan do to the partition and the cursor; `FlashRounds` follows any number
  of losses, scans and restarts; `FlashCompletion` is about torn frames that later records complete;
  `FlashLogDevice` is the code with its loops, proved against the first.
- **Lines to records** (`LinePipe`, `LineRestart`). Formatted lines enter a byte ring; the flush assembles
  whole lines from it and writes each as one record, over any mix of outputs, faults, erases and registrations.
- **CRC engine** (`Bits`, `LittleEndian`, `Crc`, `CrcEngine`, `CrcDetect`). The reference is one message bit at a
  time; the bit-wise engine, the cached table and segmented streams are proved equal to it. The value is proved
  to be the remainder of polynomial division, and every short burst of errors to change it.
- **Lock-free ring and what sits on it** (`SpscRing`, `SpscTransfer`, `BareQueue`, `BareTransfer`, `BottomHalf`).
  State machines over single loads, copies and stores, interleaved in every way; the two transfer modules say what
  each operation moves from its first step to its last, whatever the other side does in between.
- **Device lifecycle** (`Lifecycle`). Any number of activities in their compare-and-swap loops.
- **Configuration store** (`ConfigCodec`, `ConfigStore`, `ConfigStoreDevice`). The blob format, the two-slot commit
  under power loss, and loading with its fallback.
- **Driver probe** (`ProbeAll`, `ProbeOutcome`). The three-pass deferred probe over the device status table, and
  what one visit does to it case by case.
- **Kernel objects** (`RtosList`, `MessageBuffer`, `EventGroup`). The linked ring, the byte ring with whole
  messages, and the event group with its waiting tasks.

Driver answers, callback results, ticks and the moment of a power loss are parameters, so each result
holds for all of them.

## Where the code does less than its comments

The models follow the code. Each point is a lemma, and where a promise fails the exact condition
under which it holds is proved.

- Power loss while a record is programmed: the scan is exact if and only if the frame does not end on a
  sector boundary with room for another frame behind it (`PowerLossRecoversIff`). Otherwise an old frame
  may be counted, and the next record may be programmed over bytes that are not erased
  (`BoundaryFrameLosesSafety`).
- Over many losses a refused torn frame stays refused, whatever is written behind its sector, if and only if its
  header and data lie in one sector (`AlwaysSealsIff`). Otherwise a later record can complete it: a frame torn
  before a last byte of 4 just behind the boundary is accepted once any record is written there
  (`LaterRecordCompletes`, `MagicContinues`), and a further restart can put the cursor into the middle of that
  record, so that the next one is programmed over bytes that are not erased (`RoundsFailWithoutTheCondition`).
- A restart counts exactly the records of the lap if and only if no old frame stands right behind them
  (`RestartExactIff`, and over any number of rounds `RoundsFindTheLap`).
- Records written behind the gap a realigned cursor leaves are never found again (`GapHidesLaterRecords`,
  `GapIsReached`).
- Power loss during the erase for a record: the scan is exact if and only if the record starts inside a sector, so
  never after a wrap (`EraseLossRecoversIff`).
- A program step that fails halfway leaves the cursor in front of what it programmed. The next record there is
  programmed on erased bytes if and only if the frame starts a sector (`FailedProgramSafeIff`). A failing erase
  of the whole partition is safe under the same condition on the cursor (`FailedCleanAllSafeIff`).
- `log.h` says that after a driver fault the remaining data stays in the ring. It does if and only if the newline
  of the failing record is the last byte of its 128-byte chunk (`RestStaysIff`, `SecondLineIsLost`). The next line is
  discarded in any case, though it may be complete (`ResyncDropsNextLine`).
- `log.h` allows clearing the resync state by erasing the partition. All later records are whole lines then if and
  only if the reader was not waiting for a newline or stands right behind one (`EraseWholeIff`, `RestartWholeIff`);
  otherwise the next flush writes the rest of a line as a record (`NextRecordIsHalf`). Such
  a state is reachable if and only if lines may have more than their newline and the ring holds more than one chunk
  (`MiddleReachableIff`).
- CRC: every burst of at most `width` bits in a byte message changes the reported value if and only if the
  polynomial is odd (`ValueDetectsIff`, and for registers and bit streams `BurstsDetectedIff`).
- A queue that is handed out holds whole items if and only if length times item size did not overflow
  (`CreatedHoldsWholeItemsIff`, `OverflowIsAccepted`).
- A submit that lands between clearing `executing` and clearing `pending`, with no rerun recorded before, is
  reported as accepted and never served; every other accepted submit is (`ServedIff`, `WindowIsReachable`).
- After a phase-two timeout, which an ordinary run reaches (`TimeoutIsReachable`), no `remove_drain` can succeed
  again. With no drain under way one can if and only if `opens` is not locked (`RetrySucceedsIff`).
- The serialiser reserves 8 bytes for a value that may take 65: safe if and only if the buffer holds as many
  maximal entries as the table has (`ReserveSafeIff`), which in a slot means 41 entries (`SlotHolds41`).
- Slot fallback ends if and only if a slot is not corrupt or some later read of the flag names the slot it would
  fall back to (`FallbackEndsIff`). With a flag that reads the same every time initialisation always ends
  (`InitEnds`); with one that becomes unreadable it does not (`UnreadableFlagHangs`).
- Health reports a recovery from the other slot exactly when the named slot is corrupt and the other one is usable
  or corrupt too; the report is true if and only if not both are corrupt (`HealthReport`).
- A commit overwrites the live slot if the flag names slot A and cannot be read, and only then is a torn write
  fatal (`SurvivesTearingIff`). An error means the old table if and only if the flag write did what it
  reported (`TruthfulResult`).
- Initialisation parses the saved table behind the factory entries, as far as there is room. So a saved entry is
  visible exactly when the factory table has the same one, or none for the key and the entry had room
  (`SavedVisibleIff`); a factory table that fills the limit hides all of them (`FullFactoryHidesSaved`).
- A table that passes the serialiser's tests but whose image is longer than the 4096-byte buffers is never committed
  (`OversizeIsNotCommitted`).
- A device whose dependency is missing or failed is always deferred, never disabled on the spot
  (`NotReadyIsPending`), and a dependency that has merely not been probed yet delays nothing
  (`EverythingBoots`).
- When a device fails, its dependents are all disabled if and only if none of them is up, in ERROR or REMOVED
  (`AllDisabledIff`): one that was probed before stays RUNNING (`DependentStaysUp`).
- The probe returns the number of failed devices, enabled ones whose probe failed or that were stuck, if and only if
  no device is counted again in a later pass or by the stall, and the stall counts no disabled or DIRECT device
  (`CountIsFailedIff`, `AgainIsLater`). On a board that starts with no device in ERROR, suspended or removed that means:
  every turn that counts meets a device that is READY or UNINIT and not DIRECT (`FreshCountIff`). Both causes
  occur (`CountedTwice`, `DisabledIsCounted`).

## Model

| member | source | states |
|---|---|---|
| Crc.FeedConcat | mini-log/src/crc.c:226-241 | feeding a message in two segments, cut anywhere, is feeding it whole |
| Crc.IterLinear | mini-log/src/crc.c:105-133 | register steps are linear over exclusive or |
| Crc.FeedRange | mini-log/src/crc.c:37-88 | an in-range register stays in range over any message |
| Crc.XorThenStep | mini-log/src/crc.c:37-88 | xoring n input bits into the register and stepping n times equals feeding them one by one |
| Crc.TableStepReflected | mini-log/src/crc.c:146-174 | one table lookup per byte equals eight bit steps, reflected models of width 8 to 32 |
| Crc.TableStepPlain | mini-log/src/crc.c:146-174 | the same for unreflected models |
| Crc.ReflectTwice | mini-log/src/crc.c:14-24 | bit reflection is its own inverse |
| Crc.EnginesMirror | mini-log/src/crc.c:37-88 | reflecting polynomial, register and every byte turns the result of one engine into the reflection of the other's, for every width and message |
| Crc.RegisterIsRemainder | mini-log/src/crc.c:37-88 | the register of an unreflected model is the remainder of message and initial value divided by the generator polynomial (for reflected ones see `ValueIsRemainder`) |
| Crc.RemainderUnique | mini-log/src/crc.c:37-88 | that remainder is unique, so the previous statement determines the CRC |
| CrcEngine.ReflectWord | mini-log/src/crc.c:14-24 | the loop computes the bit reflection |
| CrcEngine.StepRightIsStep | mini-log/src/crc.c:48-51 | the right-shifting branch is the reference step |
| CrcEngine.StepLeftIsStep | mini-log/src/crc.c:70-74 | the masked left-shifting branch is the reference step |
| CrcEngine.FeedByte | mini-log/src/crc.c:37-88 | one byte in either direction, narrow widths bit by bit, equals the reference and stays in range |
| CrcEngine.BitwiseEngine | mini-log/src/crc.c:37-88 | the bit-wise engine equals the reference for every width 1 to 32, polynomial, direction and message |
| CrcEngine.TableCache.constructor | mini-log/src/crc.c:93-97 | a fresh cache is valid and holds no key |
| CrcEngine.TableCache.Build | mini-log/src/crc.c:105-133 | the table holds eight steps of every byte for the new key |
| CrcEngine.TableCache.LookUpRight | mini-log/src/crc.c:146-174 | a lookup in a valid reflected table feeds one byte |
| CrcEngine.TableCache.LookUpLeft | mini-log/src/crc.c:146-174 | a lookup in a valid unreflected table feeds one byte |
| CrcEngine.TableCache.Engine | mini-log/src/crc.c:146-174 | the table engine equals the reference whatever key was cached before, and leaves the cache valid for its key |
| CrcEngine.Stream.constructor | mini-log/src/crc.c:201-224 | a stream starts with nothing fed, for any parameters |
| CrcEngine.Stream.FeedSegment | mini-log/src/crc.c:226-241 | segments add up, however streams of other models use the shared table in between |
| CrcEngine.Stream.Finish | mini-log/src/crc.c:243-254 | the result is the CRC of everything fed, and 0 for unusable widths |
| CrcEngine.ValueMirror | mini-log/src/crc.c:188-224 | a model with reflected input gives on a message what the unreflected one gives on the reflected bytes |
| CrcDetect.FeedIsWire | mini-log/src/crc.c:37-88 | the engines feed exactly the message bits in the order they stand on the wire |
| CrcDetect.BurstChangesRegister | mini-log/src/crc.c:37-88 | two bit streams that differ in one window of at most width bits leave different registers, whatever surrounds it |
| CrcDetect.BurstsDetectedIff | mini-log/src/crc.c:37-88 | all such bursts are detected if and only if the polynomial has its constant term |
| CrcDetect.ValueDetectsBursts | mini-log/src/crc.c:188-254 | for every usable parameter set with an odd polynomial, messages that differ in one such burst have different CRC values |
| CrcDetect.ValueDetectsIff | mini-log/src/crc.c:188-254 | for byte messages and reported values: every burst of at most width bits is detected exactly when the polynomial is odd |
| CrcDetect.ValueIsRemainder | mini-log/src/crc.c:188-254 | the reported value, reflected or not, is the remainder of message and initial value divided by the polynomial, reflected and xored as asked |
| FlashLog.AlignIsMask | mini-log/src/log.c:243-246 | the mask expression rounds up to the write granularity |
| FlashLog.MaskRoundsUp | mini-log/src/log.c:243-246 | the same for any length and any power of two, in a word wide enough |
| FlashLog.PlanBounds | mini-log/src/log.c:251-277 | erase range and frame stay inside the partition |
| FlashLog.EraseClears | mini-log/src/log.c:271-286 | after the erase the whole frame range is blank, given a clear cursor |
| FlashLog.WriteKeepsCursorClear | mini-log/src/log.c:236-301 | one write with any driver answers programs only erased bytes, erases inside the partition, and leaves the cursor followed by 0xFF up to its sector end |
| FlashLog.WriteResultIff | mini-log/src/log.c:236-301 | each return code of a record write by its cause, exactly |
| FlashLog.FailedWriteLeaves | mini-log/src/log.c:236-301 | cursor and flash after each failing write |
| FlashLog.RunsAreSafe | mini-log/src/log.c:236-301 | so does every step of every run from a clear cursor |
| FlashLog.RegisteredRunsAreSafe | mini-log/src/log.c:187-301 | and of every run from registration over any flash image |
| FlashLog.EncodeLayout | mini-log/src/log.c:254-269 | where the fields of an encoded frame lie |
| FlashLog.EncodedFrameScans | mini-log/src/log.c:379-470 | a frame in place is recognised with the length it was written with |
| FlashLog.VerdictIs | mini-log/src/log.c:418-467 | at any offset of any image: unwritten exactly when the header is blank, a frame exactly when magic and length are in order and the checksum matches, dirty otherwise |
| FlashLog.RecoverIs | mini-log/src/log.c:395-485 | for every image: how many frames are counted, where the scan stops and why, and where it leaves the cursor |
| FlashLog.WriteKeepsLap | mini-log/src/log.c:236-301 | a write leaves the records of the lap in place, appends on success and starts anew on a wrap |
| FlashLog.RunKeepsLap | mini-log/src/log.c:236-301 | over every run the partition starts with exactly the records of the current lap |
| FlashLog.CleanWriteBlanksAhead | mini-log/src/log.c:288-296 | a fault-free write succeeds and leaves blank flash at the cursor |
| FlashLog.RecoverExact | mini-log/src/log.c:395-485 | the scan counts exactly the lap and restores the cursor, or the next boundary when the header slot is not blank |
| FlashLog.ScanUnbroken | mini-log/src/log.c:395-485 | a scan that no failing read broke off is the scan of the partition |
| FlashLog.BrokenCountsFrames | mini-log/src/log.c:395-485 | for every set of addresses that cannot be read: a broken scan has counted exactly the frames in front of the first needed read that fails, and an unbroken one met none |
| FlashLog.RecoverAfterRun | mini-log/src/log.c:236-485 | the same after every run from registration whose last write was fault-free |
| FlashLog.PowerLossRecovers | mini-log/src/log.c:271-485 | power loss after any number of programmed bytes: earlier records are counted, the torn one at most once, the cursor is clear, whether or not its checksum matches |
| FlashLog.PowerLossRunsAreSafe | mini-log/src/log.c:187-485 | registration over any image, any run, power loss, scan and any further run program only erased bytes and lose no completed record of the lap |
| FlashLog.PowerLossRecoversIff | mini-log/src/log.c:271-485 | recovery is exact for all contents behind the frame if and only if nothing can follow it: it ends inside a sector or too near the end |
| FlashLog.BoundaryFrameLosesSafety | mini-log/src/log.c:292-296 | a frame ending on an inner boundary, cut before the erase-ahead, makes the next write program a byte that is not erased |
| FlashLog.CleanAllKeepsCursorClear | mini-log/src/log.c:213-234 | a successful or unopened whole erase keeps the invariant |
| FlashLog.CleanAllIs | mini-log/src/log.c:213-234 | each code of a whole erase by its cause, with partition and cursor after it |
| FlashLog.FailedCleanAllSafeIff | mini-log/src/log.c:213-234 | a failed one does for every scrambling exactly when the cursor is on a sector boundary |
| FlashLog.FailedProgramSafeIff | mini-log/src/log.c:288-291 | after a program step that failed halfway the cursor is clear, and the next record there is programmed on erased bytes, exactly when the frame starts a sector |
| FlashLog.EraseLossRecoversIff | mini-log/src/log.c:271-286 | power lost during the erase, whatever that leaves: the scan counts exactly the lap and leaves a clear cursor exactly when the record starts inside a sector |
| FlashRounds.RoundsAreSafe | mini-log/src/log.c:187-485 | registration over any image, then any number of writes with any driver answers, losses while erasing or programming, scans and restarts: nothing is ever programmed over a byte not erased and the cursor is always clear |
| FlashRounds.RoundsKeepPhase | mini-log/src/log.c:187-485 | at every moment the partition starts with exactly the records of the lap (each completed write appended, a wrap starting anew), and the cursor stands right behind it or beyond the sector boundary behind a frame that stays refused |
| FlashRounds.RoundsFindTheLap | mini-log/src/log.c:187-485 | and a scan counts exactly that lap if and only if no old frame stands right behind it, so always behind a gap |
| FlashRounds.RecordsSurvive | mini-log/src/log.c:187-485 | as long as nothing wraps the records a scan finds stay in place byte for byte over any events, and a later scan counts no fewer |
| FlashRounds.WriteKeepsPhase | mini-log/src/log.c:236-301 | a write with any driver answers appends its record, starts a new lap on a wrap, and behind a gap leaves the lap alone |
| FlashRounds.CrashKeepsPhase | mini-log/src/log.c:271-485 | after a loss anywhere in a record safe to tear the scan counts exactly the lap, with the record it sees in the torn frame if it accepts that |
| FlashRounds.CrashLapIs | mini-log/src/log.c:271-485 | such a loss drops no record, adds at most one, none before the length stands, and exactly the record written once all of it is |
| FlashRounds.CutEraseKeepsPhase | mini-log/src/log.c:282-286 | a loss during the erase for a record inside a sector changes nothing the scan finds |
| FlashRounds.RestartKeepsPhase | mini-log/src/log.c:395-485 | a restart that meets no old frame right behind the lap counts exactly the lap, whatever else lies behind the cursor |
| FlashRounds.RestartExactIff | mini-log/src/log.c:395-485 | it counts exactly the lap if and only if it meets none |
| FlashRounds.TornSeals | mini-log/src/log.c:395-485 | a torn frame that was refused stays refused, whatever is written later, if header and data lie in one sector |
| FlashRounds.AcceptedIsEncoding | mini-log/src/log.c:395-470 | a torn frame the scan accepts is byte for byte the encoding of the record seen in it |
| FlashRounds.GapHidesLaterRecords | mini-log/src/log.c:475-485 | after any run of writes behind a gap that do not wrap, a scan counts the lap before the gap and nothing else |
| FlashRounds.GapIsReached | mini-log/src/log.c:475-485 | a record that ends inside a sector and a loss in the first bytes of the next one make a gap, which is there for good if magic and length lie in that sector |
| FlashCompletion.FrameChecksumNotices | mini-log/src/log.c:258-265 | the frame checksum changes with every change of one byte |
| FlashCompletion.AlwaysSealsIff | mini-log/src/log.c:395-485 | off a sector boundary every refused torn frame of a length stays refused, whatever is written behind its sector, exactly when header and data lie in one sector |
| FlashCompletion.TornIsRefused | mini-log/src/log.c:395-485 | a frame torn right before its last byte is refused, the lap counted and the cursor moved to the boundary |
| FlashCompletion.LaterRecordCompletes | mini-log/src/log.c:236-485 | if its data behind the boundary reads like the beginning of the next record, writing that record makes the scan accept the torn frame |
| FlashCompletion.MagicContinues | mini-log/src/log.c:254-256 | it does for every next record when one byte lies behind the boundary and is 4 |
| FlashCompletion.CompletedFrameLosesSafety | mini-log/src/log.c:236-485 | if the scan then goes on at blank bytes inside the new record, the cursor is left in the middle of it and the next record is programmed over bytes not erased |
| FlashCompletion.RoundsFailWithoutTheCondition | mini-log/src/log.c:187-485 | a run of two records, one loss and a restart that ends so, with the checksum of the code and over any image |
| FlashLogDevice.Log.constructor | mini-log/src/log.c:42 | the unregistered log |
| FlashLogDevice.Log.Register | mini-log/src/log.c:187-211 | accepted exactly for complete operations and a valid geometry, then the cursor is 0; otherwise uninitialised |
| FlashLogDevice.Log.FrameCheck | mini-log/src/log.c:258-265 | two fed segments give the checksum of header and payload |
| FlashLogDevice.Log.AlignUp | mini-log/src/log.c:243-246 | the mask expression of the code gives the length rounded up |
| FlashLogDevice.Log.EraseRange | mini-log/src/log.c:282-286 | the cells after an erase with any outcome |
| FlashLogDevice.Log.ProgramRange | mini-log/src/log.c:288-291 | the cells after programming |
| FlashLogDevice.Log.BuildFrame | mini-log/src/log.c:254-269 | the staged bytes are the encoded frame |
| FlashLogDevice.Log.StoreFrame | mini-log/src/log.c:271-301 | erase, program and erase-ahead change the partition and cursor as specified |
| FlashLogDevice.Log.WriteRecord | mini-log/src/log.c:236-301 | return code, partition and cursor are those of the specification for all driver answers |
| FlashLogDevice.Log.CleanAllCells | mini-log/src/log.c:213-234 | the same for the whole erase |
| FlashLogDevice.Log.InspectAt | mini-log/src/log.c:418-467 | the verdict on the bytes at an offset, and a failing read exactly when the payload is needed and cannot be read |
| FlashLogDevice.Log.RecoverCursor | mini-log/src/log.c:395-485 | the scan loop counts and places the cursor as specified; with reads failing at any set of addresses, which of them ends the scan and how many frames were counted by then; on an error the cursor stays |
| LinePipe.Pipe.constructor | mini-log/src/log.c:57-75 | an empty ring and no line in hand |
| LinePipe.Pipe.Output | mini-log/src/log.c:151-185 | a text that is not empty and has room enters the ring byte for byte, cut to the buffer and ended by a newline; any other changes nothing |
| LinePipe.OutputIs | mini-log/src/log.c:151-185 | an output is accepted exactly when the text is not empty and its cut fits the ring; then exactly its cut is added to ring and stream, otherwise nothing changes |
| LinePipe.StreamIsTexts | mini-log/src/log.c:151-185 | over every run of outputs and flushes the stream is the concatenation of the cut texts of exactly the accepted outputs, in order |
| LinePipe.Pipe.HandOver | mini-log/src/log.c:329-341 | the assembled line is the record written, and a driver error starts the resync |
| LinePipe.Pipe.TakeByte | mini-log/src/log.c:319-343 | one byte of the chunk: discarded, collected, or completing a record |
| LinePipe.Pipe.TakeChunk | mini-log/src/log.c:319-343 | the loop over a chunk, left at the first record that fails |
| LinePipe.Pipe.TakeOne | mini-log/src/log.c:312-344 | one turn of the loop: up to 128 bytes leave the ring, whether or not all of them are used |
| LinePipe.Pipe.Flush | mini-log/src/log.c:303-347 | result, ring, line, resync flag and flash after a flush for all driver answers, errors included |
| LinePipe.Pipe.CleanAll | mini-log/src/log.c:213-234 | flash and resync flag after a whole erase with any outcome; ring and line stay |
| LinePipe.Pipe.Register | mini-log/src/log.c:187-211 | registration clears the resync flag even when it refuses; ring and line stay in both cases |
| LinePipe.PipeRuns | mini-log/src/log.c:151-347 | over every sequence of outputs and flushes with any faults, every record is one whole line of the accepted stream, in order, and the flash is the run of exactly those writes, each with the code it returned; if no code was an error, records, line in hand and ring are all that was accepted |
| LinePipe.FlushKeepsGood | mini-log/src/log.c:303-347 | a flush empties the ring or ends at the first failing record, the chunk with its newline being the last taken out |
| LinePipe.RestStaysIff | mini-log/src/log.c:312-344 | the ring after a fault is the old one without the chunks taken out, which is everything behind the failing record exactly when its newline ends its chunk |
| LinePipe.ResyncDropsNextLine | mini-log/src/log.c:319-326 | after a fault, in whatever follows, a newline lies between the read position and every later record: the next line is dropped |
| LinePipe.SecondLineIsLost | mini-log/src/log.c:303-347 | two lines in the ring and a driver that does not open: the flush leaves an empty ring and the second line is gone |
| LinePipe.OnlyDriverFaults | mini-log/src/log.c:333-341 | a line that fits is refused only by the driver |
| LineRestart.RestartWholeIff | mini-log/src/log.c:187-211 | after a registration on any flash all later records are whole lines exactly when the reader was not waiting for a newline, or stands right behind one |
| LineRestart.EraseWholeIff | mini-log/src/log.c:213-234 | the same for an erase with any outcome, of which only success can break it |
| LineRestart.NextRecordIsHalf | mini-log/src/log.c:303-347 | otherwise the very next flush hands over the rest of a line as its first record |
| LineRestart.MiddleReachableIff | mini-log/src/log.c:303-347 | some outputs and flushes from the start get there exactly when a line may have more than its newline and the ring holds more than one chunk |
| SpscRing.MaskOfPointer | algorithm/buffer/circle_fifo_buffer.c:27-48 | masking a wrapped 16-bit pointer gives the position modulo the size |
| SpscRing.CellIsPosition | algorithm/buffer/circle_fifo_buffer.c:50-90 | the split copy walks the ring in order |
| SpscRing.FreeSpace | algorithm/buffer/circle_fifo_buffer.c:50-90 | the space computed across wraparound is what was free when r_ptr was read |
| SpscRing.StepKeepsInv | algorithm/buffer/circle_fifo_buffer.c:27-148 | every load, copy and store of either thread keeps the ring invariant |
| SpscRing.RunKeepsInv | algorithm/buffer/circle_fifo_buffer.c:213-360 | so does every interleaving, with block, single and zero-copy operations |
| SpscRing.RingRefinesQueue | algorithm/buffer/circle_fifo_buffer.c:27-360 | over every interleaving consumed is a prefix of produced, occupancy never exceeds the size, and the cells being written and read are disjoint; what each operation moves is in `SpscTransfer` |
| SpscRing.PeekShowsOldest | algorithm/buffer/circle_fifo_buffer.c:332-348 | a peeked slot holds the oldest element not released |
| SpscTransfer.WriteDelivers | algorithm/buffer/circle_fifo_buffer.c:50-90 | a block write publishes the first min(length, free cells at its load of r_ptr) elements of its block, for every interleaving with the consumer |
| SpscTransfer.WriteGivesUpIff | algorithm/buffer/circle_fifo_buffer.c:50-90 | and gives up at its check exactly when the ring was full then |
| SpscTransfer.ReadDelivers | algorithm/buffer/circle_fifo_buffer.c:110-148 | a block read delivers the min(wanted, elements at its load of w_ptr) oldest elements, for every interleaving with the producer |
| SpscTransfer.ReadGivesUpIff | algorithm/buffer/circle_fifo_buffer.c:110-148 | and gives up at its check exactly when the ring was empty then |
| SpscTransfer.SlotDelivers | algorithm/buffer/circle_fifo_buffer.c:300-330 | acquire, fill and commit publish exactly the value written if a cell was free, and nothing otherwise |
| SpscTransfer.SlotGivenIff | algorithm/buffer/circle_fifo_buffer.c:300-318 | a slot is handed out exactly when a cell was free |
| SpscTransfer.PeekDelivers | algorithm/buffer/circle_fifo_buffer.c:332-360 | peek and release consume exactly the oldest element if there was one, and nothing otherwise |
| SpscTransfer.PeekGivenIff | algorithm/buffer/circle_fifo_buffer.c:332-348 | a slot is shown exactly when an element was there |
| SpscTransfer.BeginsIff | algorithm/buffer/circle_fifo_buffer.c:27-360 | an operation begins exactly when its side is idle and there is something to move |
| BareQueue.CreatedHoldsWholeItemsIff | core/src/mini_backend_bare.c:405-443 | a queue handed out has a power-of-two ring holding a whole number of items exactly when the product of length and item size fits its word |
| BareQueue.OverflowIsAccepted | core/src/mini_backend_bare.c:418-424 | for ring elements of any power-of-two size there is a queue of legal length and item size whose product overflows and which is accepted |
| BareTransfer.CreateAnswers | core/src/mini_backend_bare.c:405-443 | creation traps, refuses or hands out a queue, each exactly by its cause, with the number of elements |
| BareQueue.SenderKeepsInv | core/src/mini_backend_bare.c:458-482 | every sender step keeps the queue invariant: a checked send has room for the whole item |
| BareQueue.WriteStepEffect | algorithm/buffer/circle_fifo_buffer.c:50-90 | a block write with enough room is never clipped and publishes exactly its block |
| BareQueue.ReceiverKeepsInv | core/src/mini_backend_bare.c:499-576 | every receiver step keeps it |
| BareQueue.ReadStepEffect | algorithm/buffer/circle_fifo_buffer.c:110-148 | a block read with enough elements delivers exactly as many as wanted |
| BareQueue.QueueRefinesItems | core/src/mini_backend_bare.c:458-576 | over every interleaving the items received are the first of those sent, and publishing and releasing happen in whole items |
| BareTransfer.SendAcceptedIff | core/src/mini_backend_bare.c:458-482 | the check lets an item pass exactly when there is room for one more whole item, and changes nothing else |
| BareTransfer.SendCompletes | core/src/mini_backend_bare.c:458-482 | a send appends exactly its item if there was room at its check and nothing otherwise, for every interleaving with the receiver |
| BareTransfer.ReceiveCompletes | core/src/mini_backend_bare.c:499-576 | a receive begun with an item there delivers exactly the oldest one, for every interleaving with the sender |
| BareTransfer.ReceiveFindsNothing | core/src/mini_backend_bare.c:499-576 | one begun on an empty queue ends at its check with nothing taken |
| BottomHalf.SubmitKeepsInv | interrupt/interrupt.h:232-251 | a submit at any moment keeps the flag and queue invariant |
| BottomHalf.ConsumeKeepsInv | interrupt/interrupt.c:133-165 | so does every load and store of the consumer |
| BottomHalf.QueuedOnceWhilePending | interrupt/interrupt.c:133-165 | in every run an item is queued at most once and only while pending, and a non-empty queue outside the poller keeps pending_drain set |
| BottomHalf.SubmitIsOwedIff | interrupt/interrupt.h:232-251 | an accepted submit is owed a later start of fn exactly when it is not between the two stores |
| BottomHalf.OwedPersists | interrupt/interrupt.c:139-155 | what is owed stays owed until fn is entered |
| BottomHalf.NothingOwedAtRest | interrupt/interrupt.c:158-165 | outside the poller with an empty queue nothing is owed |
| BottomHalf.ConsumeProgresses | interrupt/interrupt.c:133-156 | without further submits every consumer step reduces a bounded amount of work |
| BottomHalf.DrainStartsAllOwed | interrupt/interrupt.c:133-165 | so the consumer comes to rest within that bound, having started everything owed; the order of the starts is `StartsInOrder` |
| BottomHalf.StartsInOrder | interrupt/interrupt.c:133-165 | in every reachable state and every continuation an item is not started before one that stands before it in the queue; a rerun in place overtakes nothing queued |
| BottomHalf.StartsAreSubmitted | interrupt/interrupt.c:133-165 | in every run fn of an item is entered at most as often as the item was submitted |
| BottomHalf.RefusedChangesNothing | interrupt/interrupt.h:232-251 | a submit is refused exactly when the item is not pending and the queue is full, and then changes nothing; a first accepted one goes to the end of the queue |
| BottomHalf.EverySubmitIsServed | interrupt/interrupt.h:289-299 | in every run ending at rest, each accepted submit outside the window is followed by a start of its fn |
| BottomHalf.NotOwedIsNotStarted | interrupt/interrupt.c:133-165 | in every continuation that does not submit it again, an item that is not owed a start gets none |
| BottomHalf.ServedIff | interrupt/interrupt.h:232-251 | over any continuation that comes to rest without another submit of the item, an accepted submit is followed by a start of its fn exactly when it did not land between the two stores |
| BottomHalf.WindowSubmitIsAbsorbed | interrupt/interrupt.c:144-146 | in the window the submit is accepted and changes pending_drain alone |
| BottomHalf.WindowIsReachable | interrupt/interrupt.c:133-165 | the window is reached by an ordinary run |
| Lifecycle.InitInv | board/src/dev_lifecycle.c:24-31 | initialisation establishes the invariant for any number of activities |
| Lifecycle.StepKeepsInv | board/src/dev_lifecycle.c:84-181 | every atomic step of every activity keeps it |
| Lifecycle.CountersAreReferences | board/src/dev_lifecycle.c:84-181 | in every run each unlocked counter is the number of references held and a locked one means none |
| Lifecycle.FirstAndLast | board/src/dev_lifecycle.c:84-139 | open reports first exactly when nobody else holds one, close reports last exactly when nobody is left; that they succeed is `OpenTakesOne` and `EndsGiveUpOne` |
| Lifecycle.SwapIff | board/src/dev_lifecycle.c:84-170 | a compare-and-swap of open, close or io_begin takes effect exactly when the counter is as loaded, and moves it by one; otherwise only the activity starts over |
| Lifecycle.OpenTakesOne | board/src/dev_lifecycle.c:84-99 | in every reachable state an uninterrupted open_begin succeeds exactly while the device is live, adding one open and nothing else |
| Lifecycle.IoTakesOne | board/src/dev_lifecycle.c:155-170 | the same for io_begin |
| Lifecycle.EndsGiveUpOne | board/src/dev_lifecycle.c:114-181 | close, abort and io_end of a holder succeed in every reachable state and give up exactly its one reference |
| Lifecycle.DrainLocksIff | board/src/dev_lifecycle.c:187-235 | each lock of a drain is taken exactly when its counter is zero |
| Lifecycle.HolderCanClose | board/src/dev_lifecycle.c:126-139 | a holder's close never meets a zero or locked counter |
| Lifecycle.LockIsPermanent | board/src/dev_lifecycle.c:187-235 | a locked counter stays locked and a started removal stays started over every run |
| Lifecycle.DrainIsFinal | board/src/dev_lifecycle.c:200-235 | once a drain returned MINI_OK nobody holds an open or is in I/O, then and in every continuation |
| Lifecycle.LateBeginsFail | board/src/dev_lifecycle.c:84-99 | a begin whose load of state follows remove_start never succeeds |
| Lifecycle.RetryNeverSucceeds | board/src/dev_lifecycle.c:200-235 | once opens is locked no other drain returns MINI_OK |
| Lifecycle.TimedOutDrainIsStuck | board/src/dev_lifecycle.c:211-224 | after a phase-two timeout none ever does |
| Lifecycle.TimeoutIsReachable | board/src/dev_lifecycle.c:200-235 | an ordinary run reaches such a timeout beside an activity in I/O |
| Lifecycle.RetrySucceedsIff | board/src/dev_lifecycle.c:200-235 | in every reachable state with a removal started and no drain past its first lock, some continuation drains exactly when opens is not locked |
| Lifecycle.CanLeave | board/src/dev_lifecycle.c:84-181 | any activity can be brought to hold nothing, whatever the others do |
| Lifecycle.DrainSucceedsOnce | board/src/dev_lifecycle.c:200-235 | at most one drain succeeds in any run |
| ConfigCodec.PrefixLength | board/src/config_store.c:282-332 | a table of n entries takes at most 2 + 98 n bytes |
| ConfigCodec.ValueLayout | board/src/config_store.c:305-328 | the bytes of each kind of value, said by what they decode to |
| ConfigCodec.TableRoundTrip | board/src/config_store.c:282-409 | parsing a serialised table restores every key, type and value in order, behind what the table held |
| ConfigCodec.TableUpToRoom | board/src/config_store.c:340-409 | parsing onto a table of any size keeps exactly as many entries as there is room for |
| ConfigCodec.FullSkips | board/src/config_store.c:363-367 | of an entry without room only key and type are skipped, so that the next entry is read from its value |
| ConfigCodec.CutIsRefused | board/src/config_store.c:340-409 | a serialised table cut off anywhere is refused, leaving exactly the complete entries and, if key and type of the cut one were complete, that one with a zero value |
| ConfigCodec.ParseEntriesOk | board/src/config_store.c:340-409 | whatever the bytes, parsing extends a well-formed table to a well-formed one within its limit |
| ConfigCodec.FullStays | board/src/config_store.c:340-409 | a full table is not changed by whatever is left to read |
| ConfigCodec.AcceptsIff | board/src/config_store.c:282-332 | the serialiser succeeds exactly when the blob without its last value, and the 8-byte reserve, fits the buffer |
| ConfigCodec.ReserveSafeIff | board/src/config_store.c:290-329 | the 8-byte value reserve cannot be overrun by any table of n entries exactly when the buffer holds 2 + 98 n bytes, is below 12, or n is 0 |
| ConfigCodec.SlotHolds41 | board/src/config_store.c:478-484 | in the 4092 bytes of a slot that is up to 41 entries and no more |
| ConfigStore.ImageIsGood | board/src/config_store.c:441-455 | a completely written slot passes its checksum and yields the blob |
| ConfigStore.InspectionIs | board/src/config_store.c:441-455 | a slot is missing exactly when it cannot be read or gives fewer than six bytes, and good exactly when its first four bytes are the checksum of the rest |
| ConfigStore.FallbackEndsIff | board/src/config_store.c:441-471 | for any sequence of flag reads the fallback recursion ends exactly when a slot is not corrupt or some read names the slot it would fall back to |
| ConfigStore.StableFlagEndsIff | board/src/config_store.c:441-471 | with a flag that always reads the same two levels are enough or none are, the latter exactly when it names no slot and both are corrupt |
| ConfigStore.InitEnds | board/src/config_store.c:509-524 | then initialisation always ends, with a well-formed table within its limit that begins with the factory table |
| ConfigStore.StartTable | board/src/config_store.c:509-524 | for any flag reads: the factory table, health 0 and the flag as it was when the first read names no slot or the named one is missing or short; the parse on top of it when the slot is good |
| ConfigStore.UnreadableFlagHangs | board/src/config_store.c:441-524 | it does not end at any depth when the flag can be read once only and both slots are corrupt |
| ConfigStore.HealthReport | board/src/config_store.c:441-524 | exactly when each health value is reported and when loading succeeds, that a reported recovery is true exactly when not both slots are corrupt, and which table and flag are left in every case, whether or not the flag can be written |
| ConfigStore.CommitIsAtomic | board/src/config_store.c:478-503 | a commit cut off at any storage step leaves the flag on a complete image, of the new table if the flag byte moved and else of the old one |
| ConfigStore.ResultMeans | board/src/config_store.c:693-727 | which table is named after each result, for a flag write whose effect and report are independent |
| ConfigStore.CommitCauses | board/src/config_store.c:693-727 | every result by its cause, and that only the target slot and the flag ever change, with what they then hold |
| ConfigStore.OversizeIsNotCommitted | board/src/config_store.c:478-503 | a table whose image is longer than 4096 bytes is never committed and moves no flag |
| ConfigStore.TruthfulResult | board/src/config_store.c:719-727 | success means the new table and an error the old one exactly when the flag write did what it reported |
| ConfigStore.SurvivesTearingIff | board/src/config_store.c:713-717 | a torn slot write leaves the old table for every tearing exactly when the flag can be read or does not name slot A |
| ConfigStore.RunKeepsNamed | board/src/config_store.c:693-727 | the same over every sequence of commits |
| ConfigStore.CommittedStays | board/src/config_store.c:693-727 | a committed table survives any number of later failed attempts |
| ConfigStore.NamedSlotLoads | board/src/config_store.c:441-471 | loading the named slot appends its table as far as there is room, whatever the other slot holds and the flag reads |
| ConfigStore.LoadAfterAnyCrash | board/src/config_store.c:441-503 | after any run of commits cut anywhere, loading into an empty table gives the last table whose flag took effect |
| ConfigStore.SavedVisibleIff | board/src/config_store.c:509-524 | for tables of any size: what is in use after initialisation, and that the saved entry is found exactly when the factory table has the same one, or none and the saved one had room |
| ConfigStore.FindsFirst | board/src/config_store.c:164-170 | the entry found is the first with the key; none is found exactly when no entry has it |
| ConfigStore.FullFactoryHidesSaved | board/src/config_store.c:509-524 | a factory table that fills the limit hides everything saved |
| ConfigStoreDevice.Device.Crc32Le | board/src/config_store.c:82-154 | the table loop computes the reflected CRC of polynomial 0xEDB88320 |
| ConfigStoreDevice.Device.Serialize | board/src/config_store.c:282-332 | succeeds exactly when every entry passes its test, then the blob is written, and bytes behind the buffer change only if the value reserve is overrun |
| ConfigStoreDevice.Device.PutEntry | board/src/config_store.c:296-328 | appends the bytes of one entry |
| ConfigStoreDevice.Device.Deserialize | board/src/config_store.c:340-409 | leaves the table and result of the parser, also on malformed input |
| ConfigStoreDevice.Device.TakeEntry | board/src/config_store.c:350-405 | one entry with its length checks and the case of a full table |
| ConfigStoreDevice.Device.TakeValue | board/src/config_store.c:369-405 | the value by its type, into the entry just appended |
| ConfigStoreDevice.Device.LoadFrom | board/src/config_store.c:441-471 | terminates unless the fallback is endless, with the specified table, health, flag and result |
| ConfigStoreDevice.Device.Initialise | board/src/config_store.c:509-524 | table, health and flag after initialisation on ready storage are those of `Init`, which `StartTable` and `HealthReport` give for every storage |
| ConfigStoreDevice.Device.CommitTo | board/src/config_store.c:693-727 | result, slots and flag are those of the specification for all driver answers, an unreadable flag and a misreported flag write included |
| ProbeAll.NotReadyIsPending | board/src/board_driver.c:145-191 | a device that is not ready is pending, so lines 340 to 345 are never reached |
| ProbeAll.CascadeQuiet | board/src/board_driver.c:220-238 | a cascade never changes an ERROR device and makes none RUNNING |
| ProbeAll.CascadeIs | board/src/board_driver.c:220-238 | of the listed devices exactly those that are READY or UNINIT end DISABLED; nothing else changes |
| ProbeAll.AllDisabledIff | board/src/board_driver.c:216-238 | all dependents end DISABLED exactly when each of them was READY, UNINIT or DISABLED |
| ProbeAll.DependentStaysUp | board/src/board_driver.c:304-429 | a dependent probed before the device it depends on fails stays RUNNING |
| ProbeAll.VisitQuietOrBoots | board/src/board_driver.c:316-396 | a visit keeps ERROR and creates no RUNNING device, or brings this one from READY after a successful probe and open with no broken dependency |
| ProbeAll.RunningIsExplained | board/src/board_driver.c:304-429 | for every table and all results a device newly RUNNING was READY at its probe with no dependency missing, ERROR or REMOVED, and a device in ERROR in any table of the run, start, visits, passes and stall, stays in ERROR to the end |
| ProbeAll.CountIsFailedIff | board/src/board_driver.c:297-429 | the count is at least the number of failed devices, and equal to it exactly when no device is counted twice and no stall counts a disabled or DIRECT one |
| ProbeAll.AgainIsLater | board/src/board_driver.c:313-420 | if the order names no device twice, one is met again only in a later pass or by the stall |
| ProbeAll.FreshCountIff | board/src/board_driver.c:297-429 | from a table without ERROR, suspended and removed devices the count is that number exactly when every turn that counts meets a device that is READY or UNINIT and not DIRECT |
| ProbeAll.OnePassCountsFailed | board/src/board_driver.c:297-429 | it is that number when the first pass defers nothing and the order names no device twice |
| ProbeAll.CountedTwice | board/src/board_driver.c:313-397 | one failing device beside one that defers is counted twice |
| ProbeAll.DisabledIsCounted | board/src/board_driver.c:401-420 | a device disabled from the start and never probed is counted by the stall |
| ProbeAll.EverythingBoots | board/src/board_driver.c:304-429 | with every ordered device READY and no callback failing, one pass brings all of them up and reports no failure |
| ProbeOutcome.TransitIffSource | board/src/board_device.c:43-75 | for each status exactly the statuses it can be entered from |
| ProbeOutcome.ComesUpThroughReady | board/src/board_device.c:43-75 | on every path of statuses that ends up, the device last came up from READY to PROBED |
| ProbeOutcome.RecoversThroughRemoved | board/src/board_device.c:43-75 | on every path out of ERROR the first other status is REMOVED |
| ProbeOutcome.NotReadyIff | board/src/board_driver.c:145-191 | a device is not ready, or pending, exactly when a dependency is missing or in one of the listed statuses and not DIRECT |
| ProbeOutcome.EffectIs | board/src/board_driver.c:316-396 | for every device, table and callback answer: exactly when a visit defers, succeeds, fails or panics |
| ProbeOutcome.VisitLeaves | board/src/board_driver.c:198-396 | and the status of every device after it |
| ProbeOutcome.StallIs | board/src/board_driver.c:401-420 | after a stall a device is counted exactly when it is not up and waits for a dependency, and disabled as far as the status machine allows |
| ProbeAll.Driver.constructor | board/src/board_device.c:81-116 | the status table at start |
| ProbeAll.Driver.DependencyNotReady | board/src/board_driver.c:145-164 | true exactly when some dependency is missing, ERROR or REMOVED |
| ProbeAll.Driver.DependencyPending | board/src/board_driver.c:171-191 | true exactly when some dependency is missing or not up |
| ProbeAll.Driver.FailDevice | board/src/board_driver.c:198-238 | a fatal device panics and changes nothing; otherwise of the listed dependents exactly those that are READY or UNINIT end DISABLED, and no device leaves ERROR or becomes RUNNING |
| ProbeAll.Driver.VisitDevice | board/src/board_driver.c:316-396 | one turn of the loop on the status array: no device leaves ERROR or becomes RUNNING, unless this one is brought up from READY |
| ProbeAll.Driver.OnePass | board/src/board_driver.c:313-397 | one pass over the order with its counters |
| ProbeAll.Driver.DisableStalled | board/src/board_driver.c:401-420 | the stalled devices are disabled and counted |
| ProbeAll.Driver.Probe | board/src/board_driver.c:304-429 | at most three passes with the stall rule; the result is the count of failures in eight bits, and the number of failed devices where neither cause of a wrong count occurs; every status is explained |
| RtosList.LinkedIn | lib/freeRTOS/list.c:105-136 | linking a node between two neighbours of a ring gives the ring with it |
| RtosList.LinkedOut | lib/freeRTOS/list.c:217-232 | linking the neighbours of a node gives the ring without it |
| RtosList.List.constructor | lib/freeRTOS/list.c:49-86 | an empty ring of the end marker alone |
| RtosList.List.InsertEnd | lib/freeRTOS/list.c:105-136 | the ring stays well formed with the item directly in front of the index, and the item is the last the index reaches |
| RtosList.List.Insert | lib/freeRTOS/list.c:139-213 | the ring stays well formed with the item behind every value not larger than its own, and a sorted list stays sorted |
| RtosList.List.Search | lib/freeRTOS/list.c:192-198 | the search ends at the end marker at the latest and finds that place |
| RtosList.List.Place | lib/freeRTOS/list.c:161-198 | the largest value goes to the end without a search |
| RtosList.List.Remove | lib/freeRTOS/list.c:217-247 | the ring without the item, still sorted if it was, the index moved back if it stood there, the count returned |
| RtosList.InsertEndIsVisitedLast | lib/freeRTOS/list.c:105-136 | the order in which the index visits the items, with the inserted one at its end |
| RtosList.RotationAt | lib/freeRTOS/list.c:105-136 | the order of visits is the order of the ring from the index on |
| RtosList.SpotDivides | lib/freeRTOS/list.c:152-198 | in a sorted list nothing larger is before the place and only larger values behind it |
| RtosList.RunsStaySorted | lib/freeRTOS/list.c:139-247 | a list built by insert and remove alone is always sorted, equal values in insertion order |
| RtosList.RunOnList | lib/freeRTOS/list.c:139-247 | any sequence of inserts and removes on a fresh linked list leaves those values in that order |
| MessageBuffer.StreamBuffer.constructor | lib/freeRTOS/stream_buffer.c:331-420 | an empty buffer one byte larger than asked for |
| MessageBuffer.StreamBuffer.BytesInBuffer | lib/freeRTOS/stream_buffer.c:1569-1587 | the number of bytes held |
| MessageBuffer.StreamBuffer.SpacesAvailable | lib/freeRTOS/stream_buffer.c:754-788 | bytes held and space reported always add up to xLength - 1 |
| MessageBuffer.SpacesWhileReceiving | lib/freeRTOS/stream_buffer.c:754-788 | with a receiver releasing bytes at any moment the retry loop ends and reports exactly the space at its last read, never more than there is afterwards |
| MessageBuffer.StreamBuffer.WriteBytes | lib/freeRTOS/stream_buffer.c:1479-1522 | the split copy writes the ring from a position on and nothing else |
| MessageBuffer.StreamBuffer.ReadBytes | lib/freeRTOS/stream_buffer.c:1525-1566 | the split copy reads the ring from a position on |
| MessageBuffer.StreamBuffer.WriteMessage | lib/freeRTOS/stream_buffer.c:1003-1053 | length and payload are appended, or nothing is |
| MessageBuffer.StreamBuffer.Send | lib/freeRTOS/stream_buffer.c:943-1000 | the bytes held and the result of a send without waiting, message or stream |
| MessageBuffer.StreamBuffer.ReadMessage | lib/freeRTOS/stream_buffer.c:1279-1331 | the bytes delivered and left |
| MessageBuffer.StreamBuffer.Receive | lib/freeRTOS/stream_buffer.c:1216-1276 | the bytes delivered and left by a receive without waiting |
| MessageBuffer.StreamBuffer.NextMessageLength | lib/freeRTOS/stream_buffer.c:1172-1213 | the length field in front, or 0 |
| MessageBuffer.SendAddsWhole | lib/freeRTOS/stream_buffer.c:1003-1053 | a message is accepted exactly when it is not empty and fits with its length; then it is added whole, otherwise nothing changes |
| MessageBuffer.ReceiveTakesWhole | lib/freeRTOS/stream_buffer.c:1279-1331 | a receive delivers exactly the oldest message, or changes nothing if there is none or it is too long |
| MessageBuffer.NextLengthIsOldest | lib/freeRTOS/stream_buffer.c:1172-1213 | the reported length is that of the oldest message, 0 exactly when there is none |
| MessageBuffer.RunsAreFifo | lib/freeRTOS/stream_buffer.c:1003-1331 | over every run the messages received are the first of those accepted, whole and in order, and the bytes held are the frames of the rest |
| MessageBuffer.StreamTakesAll | lib/freeRTOS/stream_buffer.c:943-1331 | a stream send takes as many bytes as fit, a receive gives as many as are wanted and there |
| MessageBuffer.StreamsAreFifo | lib/freeRTOS/stream_buffer.c:943-1331 | over every run the bytes received and held are, in order, exactly those accepted |
| EventGroup.PackRoundTrip | lib/freeRTOS/event_groups.c:369-394 | the options packed into the item value come back, and the value is marked as in use |
| EventGroup.FewerBits | lib/freeRTOS/event_groups.c:778-812 | taking bits away never meets a wait condition |
| EventGroup.MetIff | lib/freeRTOS/event_groups.c:778-812 | any-of is met by one of the bits, all-of by all of them |
| EventGroup.SetSettles | lib/freeRTOS/event_groups.c:547-647 | after a set no task left on the list is satisfied by the bits that remain |
| EventGroup.ClearedIff | lib/freeRTOS/event_groups.c:609-637 | a bit is cleared exactly when a woken task waited for it with clear-on-exit |
| EventGroup.WokenIff | lib/freeRTOS/event_groups.c:574-633 | exactly the tasks satisfied by the combined bits are woken, with those bits as their value |
| EventGroup.SetIgnoresOrder | lib/freeRTOS/event_groups.c:547-647 | the bits and the tasks left do not depend on the order of the list |
| EventGroup.StepSettles | lib/freeRTOS/event_groups.c:185-501 | set, clear, wait, sync, timeout and resuming after it leave no satisfied task waiting |
| EventGroup.RunsStaySettled | lib/freeRTOS/event_groups.c:185-647 | nor does any run of them |
| EventGroup.StepBit | lib/freeRTOS/event_groups.c:185-647 | exactly which bits remain after each operation, wait, sync and timeout included |
| EventGroup.StepTasks | lib/freeRTOS/event_groups.c:185-647 | exactly which tasks wait after each operation and in what order, with what a new one waits for |
| EventGroup.Events.constructor | lib/freeRTOS/event_groups.c:145-180 | no bits and no tasks |
| EventGroup.Events.Set | lib/freeRTOS/event_groups.c:547-647 | walking the list while removing from it has the specified outcome, and wakes the satisfied tasks in list order |
| EventGroup.Events.Wait | lib/freeRTOS/event_groups.c:312-403 | blocks exactly when the condition is not met and blocking is allowed |
| EventGroup.Events.Rendezvous | lib/freeRTOS/event_groups.c:185-248 | sets, then returns the bits or blocks on all the rendezvous bits; which, what is returned and who is woken |

## Left out

- Widths of `size_t`, `int` and the entry counters: unbounded here, except the 16-bit ring pointers, the 32-bit fields and the 8-bit failure count, which are written out.
- BareQueue.CreatedHoldsWholeItemsIff: the slot pool and the handle checks are left out; the pool slots are smaller than 2^16 elements, as the ring demands.
- FlashLog.WriteKeepsCursorClear: a failing program step programs nothing; for one that does see `FailedProgramSafeIff`, and for a power loss `PowerLossRecovers`.
- FlashLogDevice.Log.Register: the resync flag is cleared by `LinePipe.Pipe.Register`.
- FlashRounds.RoundsAreSafe: losses only in records `SafeToTear` admits and in erases for records inside a sector, restarts only with no old frame right behind the lap; `PowerLossRecoversIff`, `EraseLossRecoversIff`, `RestartExactIff` and `RoundsFailWithoutTheCondition` show what the others do.
- FlashCompletion.LaterRecordCompletes: for frames whose header lies in one sector; `AlwaysSealsIff` covers the others with arbitrary bytes behind the boundary.
- LinePipe.PipeRuns: a maximal line must fit a frame, as `mini-log/README.md` line 193 demands; erasing and registering are in `LineRestart`.
- Ring items of the universal ring are single elements, not byte ranges of `item_size`.
- Ring, bottom half, item queue and lifecycle are state machines of atomic steps, not classes: memory is sequentially consistent, and an interrupt submit is one step.
- Lifecycle: `remove_finish` and reuse after it, and callers that release what they do not hold.
- ConfigStoreDevice.Device.Crc32Le: takes the 256 constants to be the table of the polynomial; they are not checked one by one.
- ConfigStoreDevice.Device.CommitTo: the write hook, the dirty marks and `factory_reset` are left out. Memory behind the serialiser buffer is the tail of its array.
- JSON parsing, number formatting and typed getters of the configuration store; floats are 32-bit words.
- ProbeAll.Driver.Probe: device locks that time out, log output, and callbacks that change statuses themselves.
- MessageBuffer.StreamBuffer.Send: waiting, notification and trigger levels; a receiver runs in between only in `SpacesWhileReceiving`.
- EventGroup.Events.Wait: the task after it was unblocked is the separate operation `AfterTimeout` of the runs; scheduling and deletion of the group are left out.
- `read_from_flash`, console output, `hal`, `bus`, the other back ends, the double buffer and the bare-metal mutex: lookups, wrappers or code without a law to prove.
