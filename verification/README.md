# A verified model of the meter's store-and-forward protocol

The repository holds the firmware of a pulse-counting flow meter and the server it reports to. Once a second the
meter appends a telemetry row to a log on flash; whenever it is online it sends the oldest rows it has not had
acknowledged; the server stores them and answers with a cumulative acknowledgement; the meter then moves a cursor and
frees flash. Power can go at any moment, and requests, responses and flash writes can be lost or cut short. This
project models that protocol down to the bytes on flash, and the independent pieces around it, and proves what the
code promises, or exactly when it does not.

| file | what it models |
|---|---|
| `Bytes`, `Crc32`, `Records` | packed little-endian structs, the CRC-32 that seals them, the five record formats on flash |
| `CrcStandard`, `CrcBoundary`, `Layout` | that the checksum is the standard one, what it detects across its own boundary, every record byte by byte |
| `PingPong` | the two-slot scheme behind the checkpoint, the acknowledgement cursor and the failure history |
| `Storage` | the flash with its faults: failed or short operations, and power lost before, inside or after any of them |
| `Totalizer`, `TotalizerRuns` | the pulse counter, its lifetime total, the checkpoint shared with the queue; totals over runs with cuts and boots |
| `QueueSpec`, `EventQueue` | what each queue operation means on raw flash contents, and the class proved against that |
| `QueueLog`, `QueueInvariant` | flash refines one log of confirmed rows; every operation and every cut keeps that |
| `Recovery` | a checkpoint that went backwards: what append and boot save, and exactly what they lose |
| `AckParsing`, `Server`, `Protocol`, `Delivery`, `Progress` | response parsing, the server, runs of both together, what holds over whole runs, and what can always happen |
| `Firmware`, `Sketch` | the sketch's boot, telemetry tick, push cycle and loop order; runs of the firmware with its own numbering |
| `Numbering`, `Witness` | exactly when the sketch skips or repeats a number, and runs in which it does |
| `SegmentNames` | segment file names and reading the number back |
| `SensorCt` | the current-clamp integrator |
| `Store`, `Manifest`, `Ota`, `OtaRuns` | the two key/value namespaces, the signed manifest text, the update state machine, its runs |
| `Mqtt` | the framing of the bundled MQTT client |

Code that updates fields, files or buffers is a class or a method with the same loops; each is proved equal to a
specification function or relation on values, and the lemmas are about those. Faults are non-deterministic choices
inside `Storage.Flash`, so a method's contract covers every pattern of them; a flash names the operations it may refuse
while power lasts, and carries out any other. A log of confirmed rows, the set of
transmitted numbers and the server's tables make up the state of a run; a run is any sequence of the events `Append`,
`Service`, `Push` (request lost, response lost, any response bytes), `PowerCut` and `Boot`.

Hypotheses, and where they come from:

- Checkpoint and acknowledgement slots are left unfinished only by a power cut. `PingPong.SilentFailureThenCutLoses`
  shows that the scheme needs this.
- A slot cut in the middle reads as damaged. For acknowledgement and failure slots this is proved for every length
  (`Records.AckPrefix`, `Records.FailurePrefix`); for checkpoints it holds with one exact exception
  (`Records.TornCheckpointReadable`), which the fault model leaves out.
- In the runs of `Protocol`, rows handed to `append` carry a number above the acknowledged one and not below any confirmed
  one; repeats are allowed. In the runs of `Sketch` this is not assumed: the sketch's own numbering is proved to meet it
  (`Sketch.NextNumberAdmissible`), because its loop never pushes before the first tick of a boot (`Firmware.TickBeforePush`).
- The 32-bit write counters of the slots have not wrapped (`PingPong.RecoversUntilWrap`).
- While power lasts, removing a file succeeds, opening an existing one for reading succeeds, and reads through an open
  segment are complete (the chunked recovery scan alone is modelled with short reads). `Recovery.ShortReadSkips` shows what
  a short read would do to `pending`.

Where code and documentation disagree the model follows the code:

- `checked_field_parse.h` promises acknowledgements up to 2^32 - 1; `extractLong_` returns a 32-bit `long`, so from 2^31
  on every acknowledgement is taken for a missing one (`AckParsing.ResponseRead`).
- The sketch says that after a cut between append and checkpoint the duplicate row is absorbed. The number repeats, but with
  a new reading, and the server keeps the first: `Numbering.RepeatedExactly` says exactly when a row repeats a number,
  `Delivery.ExactlyOnce` exactly when a row's own reading is lost, and `Witness.ReadingCanBeLost` gives the run.
- The sketch says its order of append and checkpoint never burns a number. It does exactly when an append fails and the
  number's checkpoint still lands (`Numbering.GapInvExactly`), the confirmed numbers then have a gap exactly when another row
  is confirmed (`Numbering.GapFreeExactly`), and from there the acknowledgement never passes the gap
  (`Numbering.GapFreezesFirmware`). `Witness.NumberCanBeSkipped` gives the run.
- A checkpoint behind by exactly one row or exactly one segment loses data the recovery code is there to save
  (`Recovery.RowsKeptExactly`, `Recovery.LastSegmentLostExactly`).
- `server.py` states its idempotency key as (device, boot, seq); the table's key is (device, seq), which is what is modelled.
- `ota.h` says the floor never moves backward for any reason; the comparison casts it to a signed 32-bit value, so a floor of
  2^31 or more is lowered by the next confirmation of a smaller version (`OtaRuns.FloorDropsExactly`).

## Model

| member | source | states |
|---|---|---|
| `Delivery.ExactlyOnce` | queue.h:248-389 | at every point of every run with this server, cuts anywhere, each confirmed row's number is stored with the reading of the first row that carries it, or the row lies byte for byte on flash at its own position and draining the queue returns it; its own reading is lost if and only if it has left the queue and an earlier row carried its number with another reading |
| `Sketch.FirmwareDeliversExactlyOnce` | covio_firmware.ino:383-449 | the same, with the same if-and-only-if, for every run of the firmware with its own numbering, ticks cut anywhere, boots and background service included; beyond the fault model the only hypotheses are this server and unexhausted write counters |
| `Delivery.NeverStoredTwice` | server/server.py:778-852 | on every such run each stored record is the reading of exactly one confirmed row, the first with its number; nothing is stored twice or made up |
| `Delivery.DeliveredFields` | server/server.py:806-852 | what is stored for a delivered row that was the first with its number: boot, uptime, total and quality as they were, signal strength with its sign |
| `Delivery.UntransmittedKept` | sync.h:172-191 | on every run, whatever bytes the server answers, a row whose number was never transmitted is above the durable acknowledgement, still on flash, and still returned |
| `Sketch.FirmwareKeepsUntransmitted` | covio_firmware.ino:383-449 | the same for every run of the firmware with its own numbering, whatever bytes any server answers |
| `Delivery.LayoutAlways` | queue.h:264-389 | on every run, cuts included: confirmed region is whole valid rows in append order, closed segments exactly full, at most one row of residue, nothing past active+1; the counter equals a full rescan; every removal is safe |
| `Delivery.UnackedOnFlash` | queue.h:577-616 | a confirmed row above the durable acknowledgement is on flash in segment i/5000 at its offset, byte for byte |
| `Delivery.ExchangeProgress` | sync.h:123-191 | when no number was skipped a completed exchange acknowledges exactly the batch's last number, whatever was lost before; the backlog shrinks by at least the batch, and by exactly the batch for numbers 1, 2, 3, ... |
| `Delivery.Drains` | ack_validation.h:30-37 | n completed exchanges leave at most max(0, b - 50 n) of a backlog of b rows, exactly that for numbers 1, 2, 3, ..., so it is empty after b/50 rounded up |
| `Delivery.DrainedMeansGapFree` | server/server.py:945-951 | conversely, an empty backlog means that no number was skipped |
| `Delivery.GapFreezesAck` | server/server.py:945-951 | a number no confirmed row carries bounds the durable acknowledgement for as long as it is missing |
| `Delivery.SkippedNumberFreezesForever` | server/server.py:945-951 | once a row skips a number, for the rest of the run the acknowledgement stays at or below the number before it and no batch reaches the fiftieth row past it |
| `Sketch.FwStepKeeps` | covio_firmware.ino:383-449 | every event of the firmware keeps the device-side invariant and every confirmed number within one of what a boot would resume from, under any response; and the joint invariant with the modelled server |
| `Sketch.TickIsEvent` | covio_firmware.ino:383-409 | what the tick method promises is a tick event of the runs, and the log grows exactly when the row is confirmed |
| `Sketch.SetupIsEvent` | covio_firmware.ino:225-239 | what the boot method promises is a power-up event of the runs |
| `Sketch.PushIsEvent` | sync.h:123-191 | what the push method promises of a batch it sends is a push event of the runs, received or not |
| `Sketch.NextNumberAdmissible` | ack_validation.h:48-50 | the sketch's next number is always above the acknowledged one and not below any confirmed one, and is already taken if and only if the number a boot would resume from lags behind the log |
| `Numbering.GapInvExactly` | covio_firmware.ino:403-409 | over every run, whatever is cut or lost: no number is skipped and none is known beyond the last confirmed one, if and only if no tick has burnt a number, that is failed to append a row under a new number whose checkpoint landed |
| `Numbering.GapFreeExactly` | covio_firmware.ino:383-409 | over every run: the confirmed numbers have a gap if and only if a number was burnt and a row was confirmed after it |
| `Numbering.StepGap` | covio_firmware.ino:383-409 | the same over one event, and the confirmed row that follows a burnt number skips it |
| `Numbering.RepeatsExactly` | covio_firmware.ino:403-409 | over every run: the next number will be a repeated one if and only if a tick was cut between its row's checkpoint and its number's, and no number's checkpoint has landed since |
| `Numbering.RepeatedExactly` | covio_firmware.ino:403-409 | over every run: a confirmed row is the first with its number if and only if there was no such cut |
| `Numbering.TickOutcome` | covio_firmware.ino:383-404 | what a tick may leave: row confirmed or not, number's checkpoint landed or not, and landed whenever power stays on |
| `Numbering.OtherOutcome` | covio_firmware.ino:87-97 | no other event changes the log or the number a boot would resume from |
| `Numbering.NumberAfterRegression` | ack_validation.h:48-50 | after a boot that recovered from a regression the next number is new if and only if the number resumed from reaches the last confirmed row's, and admissible if and only if it is at most one short |
| `Witness.BurningTickExists` | covio_firmware.ino:403-404 | from every running state there is a tick whose append fails with power on and whose number lands; it burns the number if and only if that is not a repeated one |
| `Witness.CutTickExists` | covio_firmware.ino:403-409 | and one cut between the two checkpoints, after which the number will repeat |
| `Witness.NumberCanBeSkipped` | covio_firmware.ino:383-409 | a run of the firmware exists in which the first confirmed row has number 2 |
| `Witness.ReadingCanBeLost` | covio_firmware.ino:403-409 | for any two different readings a run exists in which both are confirmed under number 1, both are acknowledged, and the second is lost |
| `Numbering.GapFreezesFirmware` | server/server.py:945-951 | from a skipped number on, in the whole rest of the firmware's run, the acknowledgement never passes the last number before it |
| `Progress.DrainWorks` | sync.h:113-191 | from every state of a run with no number skipped a chain of b/50 completed exchanges, rounded up, exists and ends with an empty backlog |
| `Progress.ExchangeWorks` | sync.h:113-191 | when nothing is lost an exchange completes and takes at least min(50, backlog) rows off the backlog |
| `Progress.AppendWorks` | queue.h:248-389 | when no storage operation fails, from every reachable state, an admissible row is confirmed |
| `Progress.BootWorks` | queue.h:191-240 | from every state of a run, an erased device included, with at most 32 stray segments, a boot succeeds and leaves none |
| `Protocol.StepSafe` | queue.h:518-616 | every event keeps the device-side invariant under any response; the durable acknowledgement and the log never go back; removed segments were not needed |
| `Protocol.StepHonest` | server/server.py:797-852 | with the modelled server every event keeps: stored readings are readings of confirmed rows, and the durable acknowledgement is at most the server's watermark |
| `Protocol.RunSafe` | totalizer.h:253-264 | the device-side invariant at every state of every run from an erased device |
| `Protocol.RunHonest` | server/server.py:938-951 | the joint invariant at every state of every run with the modelled server |
| `Protocol.BoundAckSeq` | ack_validation.h:30-37 | the applied value is one of the two arguments and exceeds neither; the flag says exactly when it is not the server's |
| `Protocol.BatchIsStretch` | sync.h:123-125 | a batch is the stretch of the log from the cursor on, of 50 rows or all that is left |
| `Protocol.BatchCovers` | sync.h:180-191 | every confirmed row up to the batch's last number is already acknowledged or in the batch, so the clamp protects everything unsent |
| `Protocol.PushHonest` | server/server.py:797-852 | after a delivered batch every row of it is stored, nothing stored before is lost, and the acknowledgement stays within the watermark |
| `QueueInvariant.CursorRefinesFullScan` | queue.h:439-488 | reading on from the persisted cursor equals scanning the whole log ever confirmed for numbers above the acknowledged one; the counter is its length |
| `QueueInvariant.AppendKeepsInv` | queue.h:248-389 | an append extends the log by exactly its row or leaves it as it was, wherever it fails or is cut, and keeps the invariant |
| `QueueInvariant.AckKeepsInv` | queue.h:518-616 | an acknowledgement keeps the invariant at every cut point; the durable cursor is the old or the new one; removed segments hold nothing above it |
| `QueueInvariant.BeginKeepsInv` | queue.h:191-240 | boot rebuilds memory in line with flash from any state a cut can leave, removing nothing needed and changing no durable record |
| `QueueInvariant.HistorySurvivesBoot` | queue.h:197-240 | a failure history whose record landed is what a boot comes up with |
| `QueueInvariant.SweepLeavesOnlyNeeded` | queue.h:964-1019 | a finished sweep leaves exactly 32 stray segments fewer, or none; with at most 32 before, only segments from the cursor's to the active one remain |
| `Delivery.BootLeaves` | queue.h:964-1019 | over every run the same of every boot that finishes, unless the directory could not be listed |
| `Delivery.PushFrees` | queue.h:581-616 | whatever the server answers, a push that ends with power on leaves no stray segment that was not there before, and nothing behind the cursor if nothing was |
| `Delivery.FlashBounded` | queue.h:581-616 | over every run, from a state with nothing behind the cursor on and while power lasts: every segment lies between the cursor's and the one after the active one, and there are at most three more than the backlog fills |
| `QueueInvariant.PowerOnKeepsDisk` | totalizer.h:75-111 | the totalizer's boot, legacy rewrite and cuts in it included, keeps the flash invariant, the total and the acknowledgement |
| `QueueInvariant.ServiceKeepsInv` | totalizer.h:125-137 | checkpointing total and number keeps the queue's invariant, finished or cut |
| `QueueInvariant.CutKeepsInv` | queue.h:248-389 | losing power keeps the flash invariant |
| `QueueInvariant.ResetKeepsInv` | queue.h:671-678 | the operator's reset, finished or cut, keeps the invariant if and only if its record did not land or the given number is at least every confirmed one |
| `QueueInvariant.FreshDevice` | queue.h:197-202 | an erased device holds the empty log |
| `QueueLog.ScanStored` | queue.h:439-488 | scanning a stored log across segments from any row on returns the unacknowledged rows from there |
| `QueueLog.WalkStored` | queue.h:537-580 | the acknowledgement's walk passes exactly the leading acknowledged rows and stops on the position of the next |
| `QueueLog.DamageIsLocal` | queue.h:463-476 | an unreadable cell anywhere in a segment hides no other row, and an acknowledgement that reaches it passes over it |
| `QueueLog.MissingSegmentStops` | queue.h:446-453 | a missing segment ends both the reading and the walk: what lies behind it might as well not exist |
| `QueueSpec.HistoryKeepsFirstAndLast` | queue.h:729-736 | over any failed writes: their number, the time of the first, the time and the operation of the last |
| `Recovery.RowsKeptExactly` | queue.h:309-338 | truncate-before-append keeps every valid row past a regressed checkpoint if and only if none lies past it or more than one row of bytes does |
| `Recovery.AppendAfterRegression` | queue.h:309-389 | beyond that limit no append, finished, failed or cut, loses a row, and a confirmed one moves the checkpoint past all of them |
| `Recovery.RegressionSeenExactly` | queue.h:999-1003 | boot recognises a regression if and only if a segment lies beyond active+1, spelled out in terms of the true frontier |
| `Recovery.BootAfterRegression` | queue.h:999-1014 | then it removes nothing, and reading on from the cursor returns all unacknowledged confirmed rows first, in order |
| `Recovery.LastSegmentLostExactly` | queue.h:964-1019 | with at most 32 stray segments, the last segment, never empty, is removed if and only if the checkpoint is exactly one segment behind and nothing lies past it |
| `Recovery.ShortReadSkips` | queue.h:466-488 | what a short read in a closed segment would make `pending` return: the rows before it and the rows of later segments, with a hole between them |
| `Recovery.ScanStopsAtFirstInvalid` | queue.h:790-812 | the recovery scan keeps every row up to the first invalid cell and nothing from there on |
| `EventQueue.EventQueue.Pending` | queue.h:439-488 | fills the buffer with exactly the first maxN rows of the scan from the cursor, on any flash contents |
| `EventQueue.EventQueue.ComputeUnackedCount` | queue.h:850-883 | the boot scan counts exactly the rows that scan returns |
| `EventQueue.EventQueue.Append` | queue.h:248-389 | under every fault: confirmed with row and checkpoint durable, or checkpoint unmoved, at most a beginning of the row past the kept bytes, and the failure counted under its code; while power lasts it fails only by an operation the flash refuses, and under that operation's code |
| `EventQueue.EventQueue.Settle` | queue.h:309-350 | what is kept before writing: all, the checkpointed bytes, or those and the valid rows after them; it fails only if a truncation that is needed is refused |
| `EventQueue.EventQueue.AdoptValidRows` | queue.h:790-812 | the chunked scan ends within the longest run of valid rows, and exactly at its end for every pattern of short reads of at least a row |
| `EventQueue.EventQueue.WriteAndConfirm` | queue.h:352-389 | the row is written in full before the checkpoint moves; a short write moves nothing |
| `EventQueue.EventQueue.RecordWriteFailure` | queue.h:729-767 | count, first and last time and code of the failure history, and what its slot write may leave: exactly the new record if the write is not refused |
| `EventQueue.EventQueue.AckThrough` | queue.h:518-616 | cursor moved by the walk and made durable first; then, if power lasts, exactly the segments the walk left are removed, and after a cut some of them |
| `EventQueue.EventQueue.WalkCursor` | queue.h:537-580 | the nested loops compute the walk over any flash contents |
| `EventQueue.EventQueue.CleanupOrphanSegments` | queue.h:964-1019 | nothing when the directory cannot be opened; otherwise adoption of the highest segment without any removal, or removal of at most 32 sweepable segments and of nothing else |
| `EventQueue.EventQueue.Begin` | queue.h:191-240 | recovered records, reconciled segments if they could be listed, and a freshly counted backlog |
| `EventQueue.EventQueue.ResetAckToCurrentPosition` | queue.h:671-678 | the cursor is the write position and nothing is left to read |
| `Firmware.Meter.Setup` | covio_firmware.ino:225-239 | a boot of the sketch is exactly a Boot event, with segments reconciled exactly when the directory can be listed; numbering resumes from the larger of checkpoint and acknowledgement, and the retry window is closed |
| `Firmware.Meter.Tick` | covio_firmware.ino:383-409 | a telemetry tick is an Append event followed, while power lasts, by a Service event with the same number; on a flash that refuses nothing the row is confirmed |
| `Firmware.Meter.PushOnce` | sync.h:113-227 | nothing changes offline, backing off, with nothing to send or without an HTTP client; otherwise only a 200 with a readable acknowledgement moves the queue, by the bounded value, and closes the retry window; anything else opens it from now |
| `Firmware.Meter.NotePushFailureBackoff` | sync.h:347-352 | from now until the window ends, and no longer, pushes are refused; the window is 10 to 11 s after the first failure, then between twice the one before, capped at 120 s, and that with its jitter |
| `Firmware.BackoffBounded` | sync.h:347-352 | after one to four failures in a row the window is 10, 20, 40 and 80 s, and 120 s from the fifth on, each with what the jitter has added |
| `Firmware.TickBeforePush` | covio_firmware.ino:383-441 | whatever the clock does, a boot pushes nothing before its first telemetry tick; ticks are at least a second and pushes five seconds apart, and after each pass neither is due |
| `PingPong.PersistSound` | totalizer.h:253-264 | whatever a slot write does, recovery yields the record being written or the one before, and the slot written next was never the only good one |
| `PingPong.RunRecoversLastFinished` | queue.h:827-834 | over any writes below the wrap and any cuts, recovery yields the last finished record |
| `PingPong.SlotsAlternate` | totalizer.h:253-264 | the first record goes to slot A and the next to slot B, beside it |
| `PingPong.RecoversUntilWrap` | totalizer.h:83-111 | a finished write is the one recovered if and only if the counter did not wrap in it |
| `PingPong.SilentFailureThenCutLoses` | queue.h:827-834 | a slot write failing without a cut, then a cut in the next one, always loses the last record |
| `Storage.Flash.AppendOpenSize` | storage_backend.h:37-39 | size of the file, created if need be; -1 only if opening may be refused; or a cut on either side |
| `Storage.Flash.TruncateTo` | storage_backend.h:41-44 | done, refused where truncation may be, or cut on either side |
| `Storage.Flash.AppendWrite` | storage_backend.h:46-49 | some beginning of the data lands after the old contents; all of it when the full count is reported, which it is unless writes may be refused or power is lost |
| `Storage.Flash.ReadAt` | storage_backend.h:58-65 | a possibly short piece of the file from the position on |
| `Storage.Flash.WriteAck` | storage_backend.h:66-70 | any beginning of the record may land; anything but all of it means power was lost and leaves the slot unreadable |
| `Storage.Flash.WriteCheckpoint` | totalizer.h:253-264 | the record's bytes in the slot its counter selects, or, if power was cut, that slot as it was or unreadable in both formats; no other byte changes |
| `Records.PayloadBurstRejected` | queue.h:818-825 | a record of any format altered within four adjacent payload bytes is never read back |
| `Records.ChecksumChangeRejected` | totalizer.h:210-221 | nor is one whose stored checksum was altered in any way |
| `CrcBoundary.AnyBurstRejected` | queue.h:470-475 | a record of any format altered within any four adjacent bytes, in the payload, in the checksum or across the two, is never read back |
| `CrcBoundary.LastBytesShow` | queue.h:770-778 | payloads that differ only in their last one, two or three bytes, and the zeroed checksum field behind them, have checksums that differ in as many of their own last bytes |
| `Records.TornRejected` | totalizer.h:210-213 | nor is a proper beginning of a record |
| `Records.TornCheckpointReadable` | totalizer.h:229-251 | a checkpoint cut short is readable in either format if and only if 28 bytes landed and the segment number equals the legacy checksum |
| `Records.ReadEncodeRow` | queue.h:466-476 | a written row reads back as itself |
| `Records.LoadEncodeCheckpoint` | totalizer.h:210-221 | a written checkpoint reads back as itself |
| `Records.LoadEncodeLegacy` | totalizer.h:229-251 | a legacy checkpoint reads back with the queue position at the start, and never as a current one |
| `Records.AckPrefix` | queue.h:818-825 | the first k bytes of an acknowledgement record read back if and only if they are all of it |
| `Records.FailurePrefix` | queue.h:742-749 | the same for failure records |
| `Layout.RowLayout` | queue.h:134-145 | every field of a row at its own offset, lowest byte first, sealed by the checksum at 32 |
| `Layout.CheckpointLayout` | totalizer.h:31-47 | the same for a checkpoint |
| `Layout.LegacyLayout` | totalizer.h:55-62 | the same for a legacy checkpoint, sealed at 24 |
| `Layout.AckLayout` | queue.h:158-175 | the same for an acknowledgement record |
| `Layout.FailureLayout` | queue.h:107-115 | the same for a failure record |
| `Bytes.LEByte` | totalizer.h:31-47 | byte i of a stored number is its digit to the base 256 of weight i |
| `Crc32.Compute` | queue.h:770-778 | the nested bit loop computes the checksum function, which `CrcStandard.CrcIsRfc1952` identifies |
| `Crc32.MatchesRfc1952` | totalizer.h:200-208 | the bit loop is the table-driven update of section 8 of RFC 1952 on every input, for every polynomial and register |
| `CrcStandard.CrcIsRfc1952` | totalizer.h:200-208 | the checksum is the CRC-32 of section 8 of RFC 1952 on every input: that polynomial, all ones to begin with, the complement at the end |
| `CrcStandard.PolynomialTerms` | queue.h:771-775 | the constant 0xEDB88320 is the polynomial of RFC 1952 term by term, and the initial register is all ones |
| `CrcStandard.CheckValue` | queue.h:770-778 | the checksum of the nine digits 1 to 9 is 0xCBF43926 |
| `CrcStandard.StoredLowestByteFirst` | queue.h:759-760 | the checksum is stored lowest byte first |
| `Crc32.DetectsBurst` | queue.h:770-778 | payloads of any length differing within four adjacent bytes have different checksums |
| `Totalizer.NothingLost` | totalizer.h:117-148 | with at most 2767 pulses between service calls the counter stays below its limit, the total is base plus every pulse, and the saved total is what had arrived at the last service |
| `Totalizer.BurstBoundExact` | totalizer.h:125-131 | a burst is never lost, from any counter a service call leaves, if and only if it is at most 2767 |
| `Totalizer.LostInDrainWindow` | totalizer.h:125-131 | pulses between the read and the clear of a drain are lost, and no others |
| `TotalizerRuns.RecoveredBetween` | totalizer.h:253-264 | over every run of pulses, soft pulses, service calls and queue-offset writes, any write cut in any way, any number of boots, totals below 2^64: what each boot recovers from the slots lies between the last finished service call's total and the true count |
| `TotalizerRuns.MeterStepKeeps` | totalizer.h:117-148 | every event keeps: slots sound, recoverable total between finished and true count, shown total at most the true count, counter below its limit |
| `TotalizerRuns.NothingLostWhilePowered` | totalizer.h:125-137 | between boots the total shown grows by every pulse |
| `TotalizerRuns.MigrationKeepsTotal` | totalizer.h:83-111 | a device whose newest checkpoint is legacy, booted any number of times with power cut anywhere in each rewrite, recovers the same total and number at every boot; the first boot that finishes retires the format, and nothing is rewritten after that |
| `TotalizerRuns.BootKeepsRecord` | totalizer.h:83-111 | the same of one boot: the same record, or its values rewritten in the current format, which is what is recovered next |
| `Totalizer.Totalizer.Begin` | totalizer.h:75-111 | recovers the newest readable slot of either format and rewrites it if and only if that one is legacy, with the bytes the write may leave |
| `Totalizer.Totalizer.Service` | totalizer.h:125-137 | drain, new total and number, and what the slot write may leave |
| `Totalizer.Totalizer.Total` | totalizer.h:117-121 | base, drained and hardware counts together |
| `Totalizer.Totalizer.InjectSoftPulses` | totalizer.h:148-148 | injected pulses join the drained ones |
| `Totalizer.Totalizer.SetQueueOffset` | totalizer.h:154-158 | only the queue position of the checkpoint changes, and what the slot write may leave |
| `Totalizer.Totalizer.Persist` | totalizer.h:253-264 | the counter goes up by one and selects the slot that is written |
| `AckParsing.ParseNonNegativeInt64` | timestamp_parse.h:33-51 | accepts exactly non-empty digit strings whose value fits 63 bits, and returns that value |
| `AckParsing.ParseUint32` | checked_field_parse.h:42-48 | the same for 32 bits |
| `AckParsing.ExtractLong` | sync.h:298-311 | the digits after the key's first occurrence as a 32-bit signed value, -1 for anything else |
| `AckParsing.FieldRead` | sync.h:298-311 | wherever the key first stands with a colon behind it, the field is all of the number after the colon, with or without blanks and quotes before it |
| `AckParsing.ReadAck` | sync.h:172-178 | the acknowledgement in any response bytes: the exact value printed, or none |
| `AckParsing.ResponseRead` | server/server.py:952-953 | the server's own response is read back exactly below 2^31 and as no acknowledgement from there on |
| `Server.Server.Push` | server/server.py:778-951 | the loop over records and the walk over the union of both tables: what is stored, by `Server.JudgedByFields`, and the watermark answered |
| `Server.JudgedByFields` | server/server.py:789-852 | one record, by its fields: of schema 1, type absent or 1 and with all four required fields it is stored under its number unless that is taken, quality and signal strength defaulting to 0; any other is quarantined for the first thing wrong with it unless the same is already there, and the records are left alone |
| `Server.RecordsExactly` | server/server.py:797-852 | after any batch a number is stored if and only if it was before or an acceptable record of the batch carries it; what was there stays, and a new one is the first such record's |
| `Server.QuarantinedExactly` | server/server.py:789-832 | after any batch the quarantined numbers are those from before and those of its records that are not acceptable |
| `Server.Contiguous` | server/server.py:945-951 | the loop over ascending numbers stops on the watermark |
| `Server.SelectOrdered` | server/server.py:938-944 | the union of numbers in strictly ascending order |
| `Server.WatermarkIsLargest` | server/server.py:945-951 | the answer is at least n if and only if 1 to n are all accepted or quarantined |
| `Server.AckNeverDecreases` | server/server.py:938-951 | no batch, however malformed, lowers the answer |
| `Server.OrderAndResendingIrrelevant` | server/server.py:797-852 | with one content per number, the same set of records in any batches, order and repetition gives the same table contents and answer |
| `Server.ResendChangesNothing` | server/server.py:833-852 | a batch sent again changes no stored record, arrival time included |
| `SegmentNames.ParseSegmentId` | queue.h:926-939 | the value of the six characters after the marker when they are digits, nothing otherwise |
| `SegmentNames.NameRoundTrip` | queue.h:907-911 | a number is read back from its file name if and only if it is below a million |
| `SegmentNames.ReachableNamesReadBack` | queue.h:926-939 | every segment on any reachable flash reads back as itself |
| `SegmentNames.NamesDiffer` | queue.h:907-911 | different segments have different names |
| `SensorCt.Sensor.Service` | sensor_ct.h:60-86 | the method computes the specification step, 32- and 64-bit wrap included, which the next rows pin |
| `SensorCt.AdoptsFirstLevel` | sensor_ct.h:60-86 | a fresh sensor that sees one level throughout counts all of the time if it is on and none if it is off, so an idle clamp never emits a pulse |
| `SensorCt.DebounceExactly` | sensor_ct.h:72-80 | on every run the accepted level changes if and only if a sample shows the other one and every sample has shown it for at least the debounce time |
| `SensorCt.RunExact` | sensor_ct.h:81-85 | up to 1000 Hz, on every call schedule, 1000 times the pulses plus the remainder is the frequency times the counted time, remainder below 1000 |
| `SensorCt.ScheduleIrrelevant` | sensor_ct.h:69-86 | at a steady level any schedule of calls before the last one changes neither pulses nor state |
| `SensorCt.SpellErrorBounded` | sensor_ct.h:72-80 | on every run each committed on/off spell is counted within less than the debounce time of its sampled length, either way |
| `SensorCt.SpellCountsTime` | sensor_ct.h:69-86 | the spell's time is what the integrator counted |
| `Manifest.BuildCanonical` | ota_manifest_auth.h:49-56 | the buffer holds the signer's exact text, or -1 is returned because it does not fit; never a cut text |
| `Manifest.FormatsAgree` | server/tools/sign_manifest.py:59-77 | the device's format string prints, for all fields, what the signer's join produces |
| `Manifest.FieldOrder` | server/tools/sign_manifest.py:59-77 | the text spelled out: which field stands on which line |
| `Manifest.IntTextReads` | ota_manifest_auth.h:49-56 | a number is printed as an optional minus sign and its digits without leading zeros |
| `Manifest.CanonicalInjective` | ota_manifest_auth.h:49-56 | if the signed manifest has no newline in a text field, no other fields, with or without newlines, give its text |
| `Manifest.NewlineMovesBoundary` | ota_manifest_auth.h:49-56 | with a newline in the hash field a different manifest has the same text |
| `Ota.Evaluate` | ota_version_policy.h:58-82 | each verdict by its own condition; accepted if and only if the version is present, not negative and at least the floor, and model and schema match when given |
| `Ota.TimeValidity` | ota_manifest_auth.h:69-74 | with 32-bit sums: valid if and only if now is within the issue and expiry times widened by the skew and neither sum leaves the range |
| `Ota.Authenticity` | ota.h:524-571 | each verdict by its own condition; OK if and only if key id, clock, validity within an hour's skew, size of the text below 512 and signature over exactly that text are all in order |
| `Ota.VerifyAuthenticity` | ota.h:524-571 | the step-by-step check with its 512-byte buffer gives that verdict |
| `Ota.GoExactly` | ota.h:329-448 | a download is attempted if and only if every gate on the offer holds, listed without reference to their order |
| `Ota.AnsweredExactly` | ota.h:329-385 | there is something to consider if and only if online, out of the retry window, status 200, a body of at most 4096 bytes, a version and an address |
| `Ota.JudgedExactly` | ota.h:386-445 | every other judgement by its own condition: idle, current, and each ground for rejection |
| `Ota.Ota.Decide` | ota.h:329-445 | the gates in order, with the verdict each one reports |
| `Ota.Ota.Poll` | ota.h:329-461 | the whole new state of a poll: verdicts, failure flag, retry window, boot partition |
| `Ota.PollOutcome` | ota.h:329-461 | what a poll does to the rest of the state by its judgement: failure flag, retry window, boot partition and the last verdicts, and nothing else |
| `Ota.Ota.DoVerifiedUpdate` | ota.h:586-709 | the boot partition is switched if and only if the specification accepts the download, and to those bytes |
| `Ota.StreamImage` | ota.h:639-674 | for every sequence of reads, gaps, stalls and failed writes the loop accumulates what the specification says, and what was hashed is what was written |
| `Ota.Fetch` | ota.h:586-709 | an installed image has the announced length and hash |
| `Ota.Ota.ConfirmHealthyBoot` | ota.h:260-317 | the whole new state of a confirmation, silently failing flash writes included |
| `Ota.ConfirmedOnce` | ota.h:260-317 | a confirmation goes through unless it already has or a trial could not be cancelled; once it has, nothing changes any more |
| `OtaRuns.InstalledIsDelivered` | ota.h:650-674 | an installed image is the first bytes delivered, however they were cut into reads |
| `OtaRuns.TruncatedInstallsNothing` | ota.h:676-682 | a transfer shorter than announced installs nothing |
| `OtaRuns.BrokenInstallsNothing` | ota.h:648-682 | a transfer that stalls, is closed or cannot be written before the announced length installs nothing, whatever comes after |
| `OtaRuns.InstalledExactly` | ota.h:586-709 | on a clean connection an image is installed if and only if the exchange is sound, some read ends on the announced length, and the bytes up to there have the announced hash |
| `OtaRuns.ChunkingIrrelevant` | ota.h:650-674 | a stream of exactly the announced length has the same outcome in every chunking |
| `OtaRuns.HashPinned` | ota.h:684-694 | a hash text, compared without regard to case, matches one digest only |
| `OtaRuns.FloorAfter` | ota.h:303-316 | only a confirmation moves the floor, and only to the running version |
| `OtaRuns.FloorDropsExactly` | ota.h:300-316 | a step lowers the floor if and only if the floor is 2^31 or more and a confirmation of a smaller version is written |
| `OtaRuns.FloorIsLargestConfirmed` | store.h:107-118 | over every run, factory resets and failed flash writes included, the floor is the largest version whose confirmation was written |
| `OtaRuns.FloorNeverDrops` | ota.h:260-317 | the floor at any point of a run is at most the floor at any later point |
| `OtaRuns.InstallsGenuine` | ota.h:404-448 | whatever manifest and bytes the network supplies, an installed image has length, hash and model of a manifest the signer released, whose version is at least the floor then |
| `OtaRuns.OnlyGenuineImagesBoot` | ota.h:586-709 | over every run the boot partition holds the initial image or one installed in that way |
| `OtaRuns.NoDowngrade` | ota_version_policy.h:58-82 | its signed version is at least everything confirmed before it was installed |
| `OtaRuns.BackoffBounded` | ota.h:453-460 | the retry window is zero or between ten minutes and an hour, doubling on each failure |
| `Store.HealthyBootKeepsFloor` | store.h:142-146 | recording a healthy boot leaves the floor alone |
| `Store.HealthyBootRecorded` | boot_health.h:32-35 | after a recorded healthy boot the unhealthy count is zero and an image is on trial if and only if it is a different one |
| `Store.NoFloorAtFirst` | store.h:117-117 | a device that never confirmed anything accepts every version |
| `Store.Store.FactoryReset` | store.h:104-107 | the ordinary namespace is emptied and the security namespace is untouched |
| `Store.Store.SetSecurityVersion` | store.h:117-118 | the floor is the new value, or the old one when the write was refused |
| `Store.Store.RecordHealthyBoot` | store.h:142-146 | the new contents of the security namespace under any refused writes |
| `Mqtt.DecodeEncode` | images/Arduino/libraries/PubSubClient/src/PubSubClient.cpp:564-573 | decoding undoes encoding for every remaining length of up to four bytes, whatever follows |
| `Mqtt.EncodeDecode` | images/Arduino/libraries/PubSubClient/src/PubSubClient.cpp:323-334 | encoding undoes decoding if and only if the length has no superfluous last byte |
| `Mqtt.LeastSignificantFirst` | images/Arduino/libraries/PubSubClient/src/PubSubClient.cpp:564-573 | the example of section 2.2.3 of MQTT 3.1.1: 321 is encoded as 193, 2 |
| `Mqtt.LengthDigits` | images/Arduino/libraries/PubSubClient/src/PubSubClient.cpp:564-573 | the digit loop computes the encoding of section 2.2.3 of MQTT 3.1.1, in at most three bytes |
| `Mqtt.Client.BuildHeader` | images/Arduino/libraries/PubSubClient/src/PubSubClient.cpp:557-579 | the header ends right where the body starts, and the body is untouched |
| `Mqtt.Client.WriteString` | images/Arduino/libraries/PubSubClient/src/PubSubClient.cpp:670-681 | length and bytes in place, everything else untouched |
| `Mqtt.Client.Write` | images/Arduino/libraries/PubSubClient/src/PubSubClient.cpp:581-601 | header, encoded length and body leave in one piece, and success means all of it was taken |
| `Mqtt.Client.Publish` | images/Arduino/libraries/PubSubClient/src/PubSubClient.cpp:448-470 | what is sent is exactly the PUBLISH packet of section 3.3, its first byte 3 above, QoS 0, not a duplicate, and the lowest bit set if and only if retained; or nothing when it does not fit; the buffer is left if and only if the 32-bit size sum wraps to something that seems to fit |
| `Mqtt.Client.ReadPacket` | images/Arduino/libraries/PubSubClient/src/PubSubClient.cpp:312-368 | for all input bytes and buffer sizes: length handed on, bytes consumed, buffer contents; a packet too large is skipped whole; the buffer is left if and only if the bytes stored without a size check do not fit it |
| `Mqtt.Client.Loop` | images/Arduino/libraries/PubSubClient/src/PubSubClient.cpp:388-424 | for all input bytes: the message handed to the callback and the acknowledgement written back; the buffer is left if and only if the header does not fit or the topic's length points past the packet |
| `Mqtt.AstrayExactly` | images/Arduino/libraries/PubSubClient/src/PubSubClient.cpp:312-368 | a frame leads the reader outside its buffer if and only if header and topic length do not fit it |
| `Mqtt.FrameRoundTrip` | images/Arduino/libraries/PubSubClient/src/PubSubClient.cpp:395-417 | everything publish accepts is read back whole, with the same topic and payload, whatever follows |
| `Mqtt.Qos1RoundTrip` | images/Arduino/libraries/PubSubClient/src/PubSubClient.cpp:395-417 | a PUBLISH of QoS 1 is handed on with its topic and its payload without the packet id, and answered with a PUBACK that carries that id |
| `Mqtt.ConversationDelivered` | images/Arduino/libraries/PubSubClient/src/PubSubClient.cpp:312-368 | of any sequence of messages a receiver with room for their headers delivers exactly those whose frames fit its buffer, unchanged and in order |

## Left out

- The single-file queue path and `recoverQueueStorage`: unused once a totalizer is wired, or a repair that breaks the normal invariants on purpose.
- Operator commands during a run: `reset_ack` has its own theorem (`QueueInvariant.ResetKeepsInv`) and is not an event of the runs.
- Storage.Flash.WriteCheckpoint: the one partial write that reads back as a legacy record is outside the fault model, see Records.TornCheckpointReadable, and so is a write that fails without a cut, see PingPong.SilentFailureThenCutLoses.
- Storage.Flash.WriteAck: a write that fails without a cut is outside the fault model, for the same reason.
- EventQueue.EventQueue.Pending: reads through an open segment are complete; the break on a short read is not modelled, Recovery.ShortReadSkips says what it would do.
- EventQueue.EventQueue.ComputeUnackedCount: as for Pending.
- EventQueue.EventQueue.WalkCursor: as for Pending.
- EventQueue.EventQueue.AckThrough: as for Pending; a removal that fails while power lasts is not modelled either, it would leave a stray segment for the next boot.
- EventQueue.EventQueue.Append: `unackedCount_` is an unbounded number here and 32 bits wide in the source; file sizes wrap only where they enter a checkpoint.
- Totalizer.Totalizer.Service: the total is unbounded in memory and reduced to 64 bits when stored.
- Mqtt.Client.Loop: models a turn with a packet waiting; keep-alive, other packet types and stream delivery are not part of this model, and what happens once the buffer is left is not either.
- Ota.TimeValidity: a sum that leaves the 32-bit range is taken as the hardware adds it; C++ leaves it undefined.
- Extraction of manifest fields from JSON: an offer is given as parsed values, -1 or empty where a field is missing.
- SHA-256, base64 and ECDSA: arbitrary functions; the theorems hold for every choice of them, and a trusted key is one that has signed only released manifests.
- The boot loader's choice of image and the unhealthy-boot rollback: a reboot may start any firmware, and only the partition the updater selects is tracked.
- Server columns without a part in storing and acknowledging (device registry, events, audit, K-factor), null values in required columns, authentication and migrations.
- JSON and HTML building, Wi-Fi, HTTP, TLS, mDNS, serial console, diagnostics and the calibration poll: string plumbing and foreign calls, present only as outcomes.
- Sensor plausibility, stuck-sensor and reset-reason heuristics, the desktop application and the vendor examples: they would only add easy members.
