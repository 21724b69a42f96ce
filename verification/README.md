# Energy-meter gateway: verified model

The gateway samples an energy meter over Modbus, keeps raw acquisition cycles in a circular
queue in flash, aggregates windows of six cycles and uploads one JSON document per window.
This project models that data path in Dafny and proves what it is meant to guarantee, from the
bytes in the data file up to the document the server reads. `dafny verify dfyconfig.toml` checks
all of it.

## How the project is laid out

| files | part of the firmware |
|---|---|
| `Words`, `Wrappers` | machine words, error codes, an optional value |
| `Crc16`, `CrcDivision`, `RecordFormat` | the record checksum, the polynomial division it is, and the byte format of records and markers |
| `QueueLayout`, `FlashImage` | which bytes and counters stand for which records; what a power failure can leave |
| `CircularQueue` | the queue of `memory.c`, as a class over the data file, the metadata file and the counters in RAM |
| `BoundedFifo`, `QueueRuns`, `QueueDelivery` | the FIFO the queue refines; whole runs, restarts, damage, and the file sizes that do not work; delivery in the callers' terms |
| `ResilientRead`, `RequestPlan`, `SampleCycle` | the retrying bus reader, the merged read requests, one acquisition cycle |
| `SignMagnitude`, `WindowStatistics`, `WindowProcessing` | decoding, the IQR filter, and the layout and statistics of a window |
| `JsonText`, `JsonPayload`, `JsonValue` | string escaping, the bounded printer and its size estimator, and a reader of the result |
| `SamplingPipeline` | the sink, the writer and the processing task as interleaved atomic steps |

## Main results

- **The queue is a bounded FIFO.** For records of one size R in a file of C bytes, with C mod R
  equal to 0 or at least 16, every run of enqueue, pop, peek, peek-at and clear answers as a FIFO of
  floor(C / R) places (`QueueRuns.Run`), and an overwriting queue holds exactly the newest samples
  (`QueueRuns.FeedAll`). The three record walkers agree (`QueueRuns.PeekForetellsPop`).
- **It delivers what it was given.** The reference for that is a FIFO of samples as the callers pass them,
  without records or checksums: from a first start, a pop or peek answers with exactly the arguments of the
  enqueue call whose turn it is (`QueueDelivery.RunFromFirstStart`). In flash each sample stands in a fixed
  byte format (`QueueDelivery.EnqueueWritesSample`), and its checksum is the remainder of a polynomial
  division (`CrcDivision.ChecksumIsRemainder`).
- **It survives power failures.** The queue's log is the complete history of what is on flash: each write
  starts from the image the one before it has left, and the last one leaves the files as they are
  (`Recorded`, part of the class invariant). A run divides that log among its calls. If power fails in a
  write of some call, even in the middle of a data write, a restart finds the contents before or after
  that very call, or between the eviction and the append of an overwriting enqueue (`QueueRuns.Run`,
  `QueueRuns.RestartAfterCrash`).
- **The condition on C mod R is exact.** For 1 to 15 left-over bytes the firmware stops working, under either
  overflow policy. For every such file there is a run from the first start - fill the queue, empty it, fill
  it again, without ever overflowing - after which head and tail have met behind the last slot
  (`QueueRuns.HaltFromFirstStart`). From then on every run of enqueue, pop, peek and peek-at is refused and
  leaves flash, counters and records as they are, and a restart does not help; only clearing does
  (`QueueRuns.StandstillIsFinal`, `QueueRuns.Restart`). `QueueRuns.StuckExactly` says when the head is
  unreadable and `QueueRuns.StandstillIsNoFifo` where the answers then differ from a FIFO's, both
  in both directions; `QueueRuns.ShortRestExists` names such a size.
- **Nothing breaks on arbitrary file contents.** Every method of `CircularQueue.CircularQueue`
  terminates and writes only metadata that the next start accepts, whatever the data file holds and
  whatever record sizes are enqueued: that is the invariant `Valid`, which needs no assumption on the
  bytes, and the loops' termination measures.
- **Readings are where the layout says.** The device is read by one greedy merge of the register map and
  decoded by another. Both compute the same plan, the plan has the fewest possible requests, and every
  register's words in a published cycle are the device's words at that register. Fewest possible is meant
  among all divisions into requests as the protocol allows them, described without the merge
  (`RequestPlan.PlanHasFewestRequests`,
  `RequestPlan.RegistersAreWhereTheLayoutSays`, `WindowProcessing.MeasurementLayout.ComputeWindow`).
- **Reading succeeds when the bus lets it.** Whether a block or a whole cycle is read, and with how many
  requests, is an exact function of which bus requests fail (`SampleCycle.ModbusManager.SampleAndStoreCycle`).
  A bus that never fails twice in a row serves every cycle; a block of more than 35 words is lost only after
  five separate double failures (`ResilientRead.LossTakesDoubleFailures`).
- **The statistics are what they are called.** The mean times the number of kept samples is their sum, minimum
  and maximum are the least and greatest of them, and the kept samples are those within one and a half
  interquartile ranges (`WindowStatistics.StatsAreOfKeptSamples`).
- **Outliers cannot carry the statistics.** With at most floor((n - 1) / 4) stray samples, mean, minimum
  and maximum stay within one and a half interval lengths of the rest
  (`WindowStatistics.StraysCannotCarryStats`).
- **The JSON size estimate is exact, and the document reads back.** The printer succeeds exactly when the
  estimator says it fits, the retry with a larger buffer never helps, and the text parses to one object
  with the payload's fields, whatever characters the strings contain (`JsonValue.PayloadReadsBack`).
- **Sample accounting.** In every interleaving of the tasks nothing is lost between sampling and flash
  except what is counted as dropped, and what is dropped is the oldest; from every idle state with six
  samples pending a round uploads and removes exactly the first six; without eviction the uploaded windows partition the samples. With e
  evictions after the last peek of a window and before the first pop after its upload, and none between
  the pops, the six pops remove exactly as many never-sent samples as samples of the window have left
  flash by the first pop. That is at least min(e, 6), and exactly min(e, 6) if and only if e is at least 6 or nothing was
  evicted between the peek at index e and the last one (`SamplingPipeline.EvictionCost`). The condition is
  needed: one eviction after the first peek costs a sample although e is 0
  (`SamplingPipeline.EvictionBetweenPeeksCosts`).

The queue's contents include records whose payload no longer matches its checksum, so InvalidCrc answers
are part of the refinement. `Rep` (bytes and counters represent `contents`) allows the two states
that only crashes produce: a head that rests behind a consumed marker, and a live marker with no records.

Two places where the code and its documentation differ; the model follows the code. The header of the
window computation announces ESP_ERR_NO_MEM for a short output array, the code returns
ESP_ERR_INVALID_SIZE. The capacity formula in `docs/storage-payload-capacity.md` is stated for every
record size, but holds over a queue's lifetime only under the condition above; both record sizes
listed there meet it (`QueueRuns.ShippedSizesAreSound`).

## Model

| member | source | states |
|---|---|---|
| `Crc16.Crc16Modbus` | components/storage/memory.c:55-69 | The byte and bit loops compute the checksum of the whole payload: the remainder of `CrcDivision.ChecksumIsRemainder`, with the detection power of the rows below. |
| `Crc16.ShiftByteOut` | components/storage/memory.c:60-66 | The inner loop is eight shifts, each of them one step of the division by `CrcDivision.ShiftReduces`. |
| `Crc16.RegisterIsSerial` | components/storage/memory.c:58-67 | Loading a byte at a time is equivalent to a serial register that takes in the message one bit at a time, least significant bit first. |
| `Crc16.SerialLoadsAtOnce` | components/storage/memory.c:58-67 | Up to sixteen bits may be fed one by one or loaded at once and shifted, with the same result. |
| `Crc16.ShiftIsLinear` | components/storage/memory.c:61-65 | One shift distributes over exclusive or. |
| `Crc16.ShiftIsInjective` | components/storage/memory.c:61-65 | No two registers shift to the same register. |
| `Crc16.SerialDetectsBurst` | components/storage/memory.c:55-69 | Two different bit strings of equal length that agree outside sixteen consecutive bits leave different registers. |
| `Crc16.ChecksumDetectsBurst` | components/storage/memory.c:55-69 | A payload of any length changed only within sixteen consecutive bits has a different checksum. |
| `Crc16.ChecksumDetectsTwoBytes` | components/storage/memory.c:55-69 | In particular a change confined to two adjacent bytes, such as one register word, is detected. |
| `CrcDivision.ShiftReduces` | components/storage/memory.c:61-65 | One shift of the register is one step of long division by x^16 + x^15 + x^2 + 1. |
| `CrcDivision.RemainderDivides` | components/storage/memory.c:55-69 | Long division is division: the dividend is the quotient times the generator plus the remainder. |
| `CrcDivision.ChecksumIsRemainder` | components/storage/memory.c:55-69 | The checksum's coefficients are the remainder on division by x^16 + x^15 + x^2 + 1 of the message times x^16 with a preset of ones. |
| `CrcDivision.CoefficientsAreInjective` | components/storage/memory.c:55-69 | The coefficients determine the register, so the remainder determines the checksum. |
| `CrcDivision.CheckValue` | components/storage/memory.c:55-69 | The checksum of "123456789" is 0x4B37, the published check value of CRC-16/MODBUS. |
| `RecordFormat.HeaderRoundTrip` | components/storage/memory.c:24-32 | Every header is read back from its sixteen little-endian bytes. |
| `RecordFormat.PayloadRoundTrip` | components/storage/memory.c:630-635 | Register words are read back from their bytes. |
| `RecordFormat.BytesRoundTrip` | components/storage/memory.c:374-389 | Every even number of bytes is the image of the words read from it, so damaged payloads are payloads too. |
| `RecordFormat.RecordRoundTrip` | components/storage/memory.c:610-635 | Header, payload bytes and registers of a stored record are read back exactly. |
| `RecordFormat.EncodeIsInjective` | components/storage/memory.c:24-32 | Different records never have the same bytes. |
| `RecordFormat.HeaderIsPacked` | components/storage/memory.c:24-32 | The header's fields stand at offsets 0, 4, 8, 10, 12, 13 and 14, low byte first. |
| `RecordFormat.PayloadIsLittle` | components/storage/memory.c:634-634 | Word i of the payload stands at byte 2 i, low byte first. |
| `RecordFormat.RecordIsPacked` | components/storage/memory.c:610-635 | A stored sample is its header with the data magic, followed by its words. |
| `RecordFormat.MarkerBytes` | components/storage/memory.c:305-308 | The sixteen bytes of a marker. |
| `QueueLayout.RepresentationIsUnique` | components/storage/memory.c:34-46 | Data file and counters determine the records: at most one layout and one sequence fits them. |
| `QueueLayout.MatchesIsSafe` | components/storage/memory.c:194-202 | A represented queue has counters that the check at load accepts. |
| `QueueLayout.HeadOnRecord` | components/storage/memory.c:233-266 | A head on a slot sees the header and payload of the oldest record, in range and covered by `used`. |
| `QueueLayout.HeadCases` | components/storage/memory.c:223-255 | Which branch the reading loops take says exactly where the head stands: slot, marker, gap behind it, or short end. |
| `QueueLayout.PopRecord` | components/storage/memory.c:257-266 | Moving head, `used` and `count` past a record represents the same queue without its oldest record. |
| `QueueLayout.SkipMarker` | components/storage/memory.c:236-245 | Moving the head past a marker keeps the queue. |
| `QueueLayout.HeadToStart` | components/storage/memory.c:224-252 | Taking the head to the start, from the gap or over a short end, keeps the queue. |
| `QueueLayout.TailSlotIsFree` | components/storage/memory.c:101-119 | Whatever bytes land in the slot at the tail of a queue that is not full, the represented queue is the same. |
| `QueueLayout.RestIsFree` | components/storage/memory.c:294-315 | The same for the marker's place while no marker is live. |
| `QueueLayout.AppendRecord` | components/storage/memory.c:630-641 | A whole record at the tail becomes the newest one when the counters move on. |
| `QueueLayout.CloseLap` | components/storage/memory.c:301-314 | With the marker in place, a tail moved to the start keeps the queue. |
| `FlashImage.MetaStepIsSafe` | components/storage/memory.c:71-80 | An interrupted metadata write leaves the queue before or the queue after. |
| `FlashImage.TailStepIsSafe` | components/storage/memory.c:101-119 | A torn write into the free slot leaves the queue as it was. |
| `FlashImage.MarkerStepIsSafe` | components/storage/memory.c:303-309 | So does a torn marker. |
| `FlashImage.MarkerWrite` | components/storage/memory.c:301-314 | Writing the marker and then the counters is safe at every point and keeps the queue. |
| `FlashImage.LapWithoutMarker` | components/storage/memory.c:294-315 | With no room for a marker, moving the tail alone is safe and keeps the queue. |
| `FlashImage.RecordWrite` | components/storage/memory.c:630-641 | Header, payload and counters: interrupting any of the three writes leaves the old queue or the queue with the new record. |
| `FlashImage.HistoryGrows` | components/storage/memory.c:71-119 | A logged write that starts from the image on flash extends the log to the complete history of the image it leaves. |
| `CircularQueue.CircularQueue.constructor` | components/storage/memory.c:140-206 | Start-up takes over the metadata if and only if magic, version, capacity and the three ranges are right, and starts at zero otherwise; keeps a data file of the right size and zeroes any other; takes over the queue the image represents, if it represents one; and starts the history of flash from what it found. |
| `CircularQueue.CircularQueue.WriteMeta` | components/storage/memory.c:71-80 | The metadata file gets the magic, the version, the capacity and the counters; every persisted metadata passes the checks at load; the write is recorded. |
| `CircularQueue.CircularQueue.WriteAt` | components/storage/memory.c:101-119 | A data write changes exactly its range and is recorded with the image it starts from. |
| `CircularQueue.CircularQueue.ReadHeader` | components/storage/memory.c:208-214 | A header is read only when it lies within the file. |
| `CircularQueue.CircularQueue.FindOldest` | components/storage/memory.c:221-255 | The walk to the oldest record terminates on any bytes, gives up no record, and of a represented queue stands on a record in the end unless the queue is empty or stuck. |
| `CircularQueue.CircularQueue.PopOldest` | components/storage/memory.c:221-270 | Removes exactly the oldest record, or answers NotFound on an empty queue; on a stuck one it answers InvalidSize and leaves counters and flash alone. |
| `CircularQueue.CircularQueue.ReadPayload` | components/storage/memory.c:374-389 | Returns the stored words, and Ok exactly when their checksum is the header's. |
| `CircularQueue.CircularQueue.ReadSample` | components/storage/memory.c:317-409 | Returns the oldest record unchanged; a damaged one is reported, and consumed only by the popping form; one that does not fit the caller's buffer stays. |
| `CircularQueue.CircularQueue.CursorToRecord` | components/storage/memory.c:426-471 | The second walker's own cursor reaches the record the head would reach, without touching the queue. |
| `CircularQueue.CircularQueue.PeekAt` | components/storage/memory.c:411-516 | Reports record `index`, and changes neither counters nor flash of a represented queue. |
| `CircularQueue.CircularQueue.Peek` | components/storage/memory.c:647-660 | Reports the oldest record; the queue stays the same although the head may move past a marker. |
| `CircularQueue.CircularQueue.Pop` | components/storage/memory.c:678-691 | Reports and removes the oldest record; interrupted, it leaves the queue before or after. |
| `CircularQueue.CircularQueue.Clear` | components/storage/memory.c:693-701 | Leaves the empty queue; interrupted, the old or the empty one. |
| `CircularQueue.CircularQueue.Pending` | components/storage/memory.c:703-713 | The count is the number of records. |
| `CircularQueue.CircularQueue.EnsureFreeSpace` | components/storage/memory.c:272-292 | Frees bytes by evicting; a full queue loses exactly its oldest record under overwrite, and nothing is written under reject. |
| `CircularQueue.CircularQueue.PlaceWrapMarkerIfNeeded` | components/storage/memory.c:294-315 | A queue that is not full always gets contiguous room for a record, without losing one. |
| `CircularQueue.CircularQueue.Enqueue` | components/storage/memory.c:598-645 | Appends the record of the sample, which stands for exactly the call's arguments by `QueueDelivery.CallIsExact`; evicts one record and only when full; refuses only when full under reject, or stuck, and then leaves counters and flash alone; every write may be interrupted. |
| `CircularQueue.NotStuckUnlessFull` | components/storage/memory.c:223-233 | Only a full queue can be stuck. |
| `BoundedFifo.OverwriteKeepsNewest` | components/storage/memory.c:272-292 | A FIFO that drops its oldest element when full holds exactly the newest elements offered to it. |
| `QueueRuns.ShippedSizesAreSound` | docs/storage-payload-capacity.md:22-39 | Both documented record sizes meet the side condition and give 120 and 4096 places. |
| `QueueRuns.SoundIsNeverBlocked` | components/storage/memory.c:223-233 | Under the side condition the reading loops never run into the end of the file. |
| `QueueRuns.Perform` | components/storage/memory.c:598-701 | While the head is readable each call is the bounded FIFO's, with its own list of queues a crash during it can leave; on a stuck queue every call but clear fails and changes nothing. |
| `QueueRuns.PerformAsFifo` | components/storage/memory.c:598-701 | Under the side condition every call is the bounded FIFO's: same answer, same contents, safe writes. |
| `QueueRuns.Run` | components/storage/memory.c:598-701 | Every run of calls answers as the FIFO of floor(C / R) places; the log is the complete history of flash, is divided among the calls in order, and each write of call k is safe to interrupt with the outcomes of call k. |
| `QueueRuns.FreshFlashIsEmpty` | components/storage/memory.c:140-206 | A first start finds the empty queue. |
| `QueueRuns.FirstStart` | components/storage/memory.c:140-206 | A first start yields a queue that holds nothing. |
| `QueueRuns.ForeignMetadataStartsEmpty` | components/storage/memory.c:194-202 | Metadata of another magic, version or capacity starts the counters at zero, and with a new data file the queue is empty. |
| `QueueRuns.TornWriteIsCrash` | components/storage/memory.c:101-119 | A data write that got as far as any of its bytes is among the crash images. |
| `QueueRuns.RestartAfterCrash` | components/storage/memory.c:179-206 | After a crash in a safe write, start-up yields one of the queues listed for it. |
| `QueueRuns.PeekForetellsPop` | components/storage/memory.c:411-516 | Peeking at an index reports what the pop after that many pops reports. |
| `QueueRuns.DamageIsReported` | components/storage/memory.c:373-389 | A stored payload changed within sixteen consecutive bits leaves the other records alone and makes every reader with room for it answer InvalidCrc. |
| `QueueRuns.DamageStaysInPlace` | components/storage/memory.c:373-389 | Any change of a record's payload bytes is a change of that record only. |
| `QueueRuns.StuckExactly` | components/storage/memory.c:224-233 | The head of a represented queue is unreadable if and only if there are 1 to 15 left-over bytes and head and tail both stand behind the last slot of a non-empty queue. |
| `QueueRuns.OverwriteToStandstill` | components/storage/memory.c:221-292 | Under the overwrite policy, enqueueing twice the capacity from empty reaches that state for every such size, without any pop. |
| `QueueRuns.FillDrainFill` | components/storage/memory.c:221-409 | Under either policy, C / R enqueues, C / R pops and C / R enqueues from empty reach it, for every such size and any samples. |
| `QueueRuns.HaltFromFirstStart` | components/storage/memory.c:221-409 | So for every such size and either policy some run from the first start halts the queue. |
| `QueueRuns.EnqueueStep` | components/storage/memory.c:294-315 | An enqueue that is not full moves the tail by one slot, over the short end to the first one when it stands behind the last. |
| `QueueRuns.PopStep` | components/storage/memory.c:398-403 | A pop in front of the end of the file moves the head by one slot, behind the last one if it must. |
| `QueueRuns.StandstillIsFinal` | components/storage/memory.c:221-516 | In that state, under either policy, every run of enqueue, pop, peek and peek-at calls is refused call by call; the queue stays stuck, and records, counters, data file, metadata file and log stay the same. |
| `QueueRuns.StandstillIsNoFifo` | components/storage/memory.c:221-516 | A stuck queue's answer is the FIFO's if and only if the reader has no room, the place does not exist, or a full FIFO refuses the enqueue too. |
| `QueueRuns.Restart` | components/storage/memory.c:179-206 | A restart finds the same records, counters and bytes, and a stuck queue is still stuck. |
| `QueueRuns.ShortRestExists` | components/storage/memory.c:216-219 | One-word records in the default file leave ten bytes behind 14563 slots, which the side condition excludes. |
| `QueueRuns.FeedAll` | components/storage/memory.c:598-645 | After any number of enqueues an overwriting queue holds exactly the newest floor(C / R) samples. |
| `QueueDelivery.CallIsExact` | components/storage/memory.c:598-701 | Each call of the FIFO of records answers as the FIFO of samples as passed in, and keeps records and samples in step. |
| `QueueDelivery.RunIsExact` | components/storage/memory.c:598-701 | So does every run. |
| `QueueDelivery.RunFromFirstStart` | components/storage/memory.c:598-701 | From a first start, every run of calls is answered as by a FIFO of floor(C / (16 + 2 words)) samples: readers with room get exactly the address, start, count, time and words of the enqueue call whose turn it is. |
| `QueueDelivery.EnqueueWritesSample` | components/storage/memory.c:610-641 | An enqueue with room leaves the sample's packed little-endian bytes and checksum at the old tail, or at the start if it did not fit there. |
| `ResilientRead.DeviceWordsJoin` | components/modbus/modbus_manager.c:142-167 | Adjacent reads join to one read. |
| `ResilientRead.Bus.ReadByFc` | components/modbus/modbus_manager.c:84-93 | Writes only its part of the buffer; the outcome is the bus's for this one request, and on success the device's words are there. |
| `ResilientRead.Bus.ReadWithRecovery` | components/modbus/modbus_manager.c:95-128 | Succeeds if and only if the first request or the one after it does; makes the second one exactly if the first has failed; returns the last outcome. |
| `ResilientRead.Bus.ReadBlockChunked` | components/modbus/modbus_manager.c:130-170 | Succeeds if and only if every chunk does, each with its retry, with the exact number of requests; Ok means the whole block was read in address order and nothing behind it was written. |
| `ResilientRead.Bus.ReadBlockResilient` | components/modbus/modbus_manager.c:172-228 | Succeeds exactly when the bus lets the whole block or one of the chunked passes through, with the exact number of requests, at most 62 for a block of at most 125 words; Ok means the whole block was read in place. |
| `ResilientRead.RoundsAreFew` | components/modbus/modbus_manager.c:195-226 | The requests of each chunk size stay within a budget, and the budgets of all sizes together within 60. |
| `ResilientRead.ResilientIsBounded` | components/modbus/modbus_manager.c:172-228 | However the bus behaves, a block of at most 125 words costs at most 62 requests. |
| `ResilientRead.SingleFailuresAreHarmless` | components/modbus/modbus_manager.c:95-128 | A read whose first request or retry succeeds is done after at most two requests. |
| `ResilientRead.PassFailsTwice` | components/modbus/modbus_manager.c:130-170 | A pass in chunks fails only with two failed requests in a row. |
| `ResilientRead.EveryPassFails` | components/modbus/modbus_manager.c:189-226 | All passes failing means one such pair for every chunk size. |
| `ResilientRead.LossTakesDoubleFailures` | components/modbus/modbus_manager.c:172-228 | A lost block has cost 1, 2, 3, 4 or 5 separate double failures for fewer than 8, 8, up to 17, up to 35 and more words. |
| `RequestPlan.MaximalBlockIsUnique` | components/modbus/modbus_manager.c:259-306 | Two merges that each grow a block as far as it goes end at the same register. |
| `RequestPlan.GrowIsMaximal` | components/modbus/modbus_manager.c:282-306 | The merge yields a legal request that the next register cannot join. |
| `RequestPlan.RequestCovers` | components/modbus/modbus_manager.c:277-309 | A request asks for 1 to 125 words and covers all its registers. |
| `RequestPlan.RegistersAreWhereTheLayoutSays` | components/processing/outlier_handling.c:210-276 | In a cycle read by the plan of an ordered map, every register's words stand at its layout offset. |
| `RequestPlan.PlanIsPartition` | components/modbus/modbus_manager.c:259-365 | The plan divides the map, in order, into legal requests. |
| `RequestPlan.SuffixIsBlock` | components/modbus/modbus_manager.c:282-306 | The part of a legal request behind a register that ends later than all before it is a legal request. |
| `RequestPlan.GreedyStaysAhead` | components/modbus/modbus_manager.c:259-365 | From any point the plan needs no more requests than any division that has not got further. |
| `RequestPlan.GreedyPlanIsShortest` | components/modbus/modbus_manager.c:259-365 | No order-preserving division of an ordered map into gap-free, same-function requests of at most 125 words is shorter. |
| `RequestPlan.BlocksAreRequests` | components/modbus/modbus_manager.c:282-306 | In an ordered map the merge's runs are exactly the legal requests: one function code, at most 125 words, no address that none of the registers holds. |
| `RequestPlan.PlanHasFewestRequests` | components/modbus/modbus_manager.c:259-365 | The plan consists of legal requests, and no division of the map into legal requests has fewer. |
| `RequestPlan.RequestIsExact` | components/modbus/modbus_manager.c:277-309 | A planned request asks for the addresses its registers hold and no others. |
| `SampleCycle.ModbusManager.MergeBlock` | components/modbus/modbus_manager.c:277-306 | The acquisition side's loop computes the plan's request. |
| `SampleCycle.ModbusManager.StoreBlock` | components/modbus/modbus_manager.c:324-354 | A block is appended in full or the cycle is marked too long. |
| `SampleCycle.ModbusManager.SampleAndStoreCycle` | components/modbus/modbus_manager.c:230-460 | A cycle is published if and only if the map is valid, the bus serves every block of the plan in the end, and all fits in 1200 words; then it is the device's words over the whole plan. The number of requests is exact, and a failure returns the first block's error. |
| `SampleCycle.SteadyBusServesMap` | components/modbus/modbus_manager.c:259-438 | Over readable registers a bus that never fails twice in a row serves the whole plan with at most two requests a block. |
| `SampleCycle.EveryBlockIsTried` | components/modbus/modbus_manager.c:259-365 | A failed block does not keep the later ones from being tried. |
| `SampleCycle.PlanIsBounded` | components/modbus/modbus_manager.c:259-365 | A cycle costs at most 62 requests a block, however the bus behaves. |
| `SignMagnitude.CombineWords` | components/processing/outlier_handling.c:149-152 | The 64-bit shift-or loop yields the big-endian positional value. |
| `SignMagnitude.NoWordIsLost` | components/processing/outlier_handling.c:149-152 | For up to four words nothing is shifted out. |
| `SignMagnitude.PositionalIsWeighted` | components/processing/outlier_handling.c:149-152 | Word i of n counts 65536 to the power n - 1 - i. |
| `SignMagnitude.SignIsFirstBit` | components/processing/outlier_handling.c:159-167 | The first bit of the first word is the sign and all other bits are the magnitude. |
| `SignMagnitude.DecodeScaled` | components/processing/outlier_handling.c:137-196 | Decodes 1 to 4 words as unsigned or sign-magnitude times the scale; the raw value fits 64 bits and the signed one lies strictly within the range of a signed 64-bit number. |
| `SignMagnitude.SignedRoundTrip` | components/processing/outlier_handling.c:154-167 | Every value of magnitude below the sign bit survives encoding and decoding. |
| `SignMagnitude.PositionalIsInjective` | components/processing/outlier_handling.c:149-152 | Different words of equal number have different values. |
| `SignMagnitude.OnlyZeroHasTwoEncodings` | components/processing/outlier_handling.c:154-167 | Two different encodings decode alike if and only if they are plus and minus zero. |
| `WindowStatistics.ComputeIqrStats` | components/processing/outlier_handling.c:62-135 | The copying, sorting and accumulating loops compute the statistics that `WindowStatistics.StatsAreOfKeptSamples` describes, fallback included. |
| `WindowStatistics.StatsAreOfKeptSamples` | components/processing/outlier_handling.c:62-135 | For every non-empty window the mean times the number of kept samples is their sum, and minimum and maximum are the least and greatest of them; kept are those from q1 - 3/2 (q3 - q1) to q3 + 3/2 (q3 - q1) for four or more samples, and all for fewer. |
| `WindowStatistics.InRangeTakes` | components/processing/outlier_handling.c:93-106 | A sample in that range is kept as often as it occurs, and no other is. |
| `WindowStatistics.PercentileIsLinear` | components/processing/outlier_handling.c:43-60 | Between positions k and k + 1 the percentile is the straight line through the k-th and the next sample. |
| `WindowStatistics.SortedAscends` | components/processing/outlier_handling.c:70-74 | The sorted copy is ascending and a permutation of the window. |
| `WindowStatistics.AscendingIsUnique` | components/processing/outlier_handling.c:30-41 | A window has one ascending arrangement, so the result does not depend on how it is sorted. |
| `WindowStatistics.StatsIgnoreOrder` | components/processing/outlier_handling.c:62-135 | Mean, minimum and maximum are the same for every permutation of the window. |
| `WindowStatistics.QuartileNeighbours` | components/processing/outlier_handling.c:43-60 | The interpolated quartiles lie between the samples a quarter, rounded down and up, from either end. |
| `WindowStatistics.FilterKeepsMiddle` | components/processing/outlier_handling.c:80-126 | At least n - 2 ceil((n - 1) / 4) > 0 samples are kept, so the keep-all fallback is never taken. |
| `WindowStatistics.MeanBetweenMinAndMax` | components/processing/outlier_handling.c:62-135 | The mean lies between minimum and maximum, for every window. |
| `WindowStatistics.MedianBetweenMinAndMax` | components/processing/outlier_handling.c:62-135 | The median of the unfiltered window lies between the reported minimum and maximum, for every window. |
| `WindowStatistics.StraysCannotCarryStats` | components/processing/outlier_handling.c:43-135 | With at most floor((n - 1) / 4) samples outside [a, b], all three statistics lie within 1.5 (b - a) of [a, b], however far the strays are. |
| `WindowStatistics.StatsRescale` | components/processing/outlier_handling.c:345-361 | Filtering scaled and shifted values equals scaling and shifting the filtered ones, for every positive scale. |
| `WindowProcessing.MeasurementLayout.MergeBlock` | components/processing/outlier_handling.c:220-245 | The processing side's separately written loop grows a maximal block. |
| `WindowProcessing.MeasurementLayout.PlaceBlock` | components/processing/outlier_handling.c:252-268 | For registers inside the block no check fires and each offset is the register's distance from the block's start; earlier entries stay. |
| `WindowProcessing.MeasurementLayout.Build` | components/processing/outlier_handling.c:198-278 | For an ordered map the layout is built if and only if the map is non-empty, short enough, of valid widths and of at most 65535 words; the mapping check never fires. |
| `WindowProcessing.MeasurementLayout.EnsureLayout` | components/processing/outlier_handling.c:280-286 | A layout once built is kept: the call succeeds and changes no offset and none of the expected values. |
| `WindowProcessing.MeasurementLayout.DecodeColumn` | components/processing/outlier_handling.c:345-356 | The values of one register in every cycle of the window. |
| `WindowProcessing.MeasurementLayout.ComputeWindow` | components/processing/outlier_handling.c:303-376 | For cycles read by the plan the call succeeds, and each measurement carries its register's address and width and the statistics of what the device held there in each cycle; cycles shorter than the layout are refused. |
| `WindowProcessing.OrderedBlock` | components/processing/outlier_handling.c:252-268 | In an ordered map the registers of a request lie inside it, at their distance from its start. |
| `WindowProcessing.ColumnIsAddressed` | components/processing/outlier_handling.c:340-343 | Every layout entry ends within the cycle, so the offset check of the window never fires. |
| `WindowProcessing.ColumnIsExpected` | components/processing/outlier_handling.c:345-361 | Statistics over the words at an entry's offset are statistics over the device's words. |
| `WindowProcessing.DecodedIs` | components/processing/outlier_handling.c:137-196 | A register's value is its words weighted from the front, without the sign bit and negated if that is set, times the scale. |
| `WindowProcessing.PublishedCycleFits` | components/processing/outlier_handling.c:270-276 | Every published cycle has the start and the length the layout of its map expects. |
| `SamplingPipeline.NothingIsLostInRam` | components/services/sampling_service.c:97-163 | In every interleaving, queued samples are persisted, dropped, waiting or held; flash receives them in order; the loss branch is unreachable. |
| `SamplingPipeline.OldestAreDropped` | components/services/sampling_service.c:97-117 | In every interleaving the waiting samples are the newest ones queued, and every dropped sample is older than every waiting one. |
| `SamplingPipeline.SampleIsQueued` | components/services/sampling_service.c:97-117 | A sink call takes its sample in; when the queue is full it gives up the oldest one, so the newest ones stay. |
| `SamplingPipeline.OldestIsPersisted` | components/services/sampling_service.c:125-163 | The writer brings the oldest waiting sample to flash, and keeps it for another try when the call fails. |
| `SamplingPipeline.RamInvHolds` | components/services/sampling_service.c:97-163 | The conservation and order invariant of the RAM queue holds in every reachable state. |
| `SamplingPipeline.FlashInvHolds` | components/services/processing_service.c:453-656 | The invariant of peeked, accepted and popped windows holds in every reachable state. |
| `SamplingPipeline.WindowsAreNeverShort` | components/services/processing_service.c:445-497 | Once six samples are pending, no peek of the window and no pop after its upload finds the queue short. |
| `SamplingPipeline.SentMeansPeeked` | components/services/processing_service.c:621-656 | A popped sample was uploaded if and only if it stands at the place of a sample of the window just accepted. |
| `SamplingPipeline.LastPoppedAreUnsent` | components/services/processing_service.c:621-656 | With e evictions in between, the last min(e, 6) popped samples were never uploaded. |
| `SamplingPipeline.FirstPoppedAreSent` | components/services/processing_service.c:621-656 | When nothing is evicted between the peek at index e and the last one, all other popped samples were uploaded. |
| `SamplingPipeline.EvictionCost` | components/services/processing_service.c:453-656 | With e evictions after the last peek and before the first pop, and none between the pops, the six pops remove exactly as many never-uploaded samples as samples of the window have left flash by the first pop: at least min(e, 6), and exactly that if and only if e is at least 6 or nothing was evicted between the peek at index e and the last one. |
| `SamplingPipeline.EvictionsMovePops` | components/services/processing_service.c:453-656 | The counted evictions between the last peek and the first pop are the places by which the pops are behind the window. |
| `SamplingPipeline.StillThereAtMost` | components/services/processing_service.c:453-490 | After e further evictions at most 6 - e samples of a window are still in flash, with equality if and only if none was evicted since the peek at index e. |
| `SamplingPipeline.EvictionBetweenPeeksCosts` | components/services/processing_service.c:453-656 | A run in which nothing is evicted after the last peek and one never-uploaded sample is removed all the same. |
| `SamplingPipeline.WindowsPartitionSamples` | components/services/processing_service.c:443-682 | Without evictions the accepted windows are the consecutive groups of six of the persisted samples, and nothing unsent is removed; the reject policy never evicts. |
| `SamplingPipeline.RoundUploadsFirstSix` | components/services/processing_service.c:443-682 | From every state with the task idle and six samples pending, check, six peeks, upload and six pops have the server accept exactly the first six and remove exactly those. |
| `SamplingPipeline.FailedRoundKeepsFlash` | components/services/processing_service.c:620-634 | A failed or abandoned upload removes nothing. |
| `JsonText.CharRoundTrip` | components/services/processing_service.c:140-189 | The text emitted for a character reads back as that character, whatever follows it. |
| `JsonText.EscapeTable` | components/services/processing_service.c:142-181 | The short escapes are those of section 7 of RFC 8259, and the long ones have the form \u00XX. |
| `JsonText.EscapeIsMinimal` | components/services/processing_service.c:140-189 | Other control characters are escaped by their number, and everything else is emitted as it is. |
| `JsonText.QuotedRoundTrip` | components/services/processing_service.c:129-193 | A reader of section 7 of RFC 8259 gets the original string back and stops at its closing quote. |
| `JsonText.QuotedIsPrefixFree` | components/services/processing_service.c:129-193 | No string's literal is a prefix of another's. |
| `JsonText.NoControlCharacters` | components/services/processing_service.c:140-189 | No raw control character is emitted. |
| `JsonPayload.Cursor.AppendChar` | components/services/processing_service.c:73-83 | Appends one character exactly if two bytes are left, and keeps the text terminated. |
| `JsonPayload.Cursor.AppendRaw` | components/services/processing_service.c:85-103 | Appends the text exactly if it leaves one byte more than its terminator. |
| `JsonPayload.Cursor.AppendFmt` | components/services/processing_service.c:105-127 | Appends a converted text exactly if it fits; a truncated one is not counted. |
| `JsonPayload.Cursor.AppendEscapedString` | components/services/processing_service.c:129-193 | A string is appended exactly when its whole literal fits, and then its literal. |
| `JsonPayload.Cursor.Emit` | components/services/processing_service.c:215-261 | A chain of appends succeeds exactly when every piece in turn finds room. |
| `JsonPayload.FitsByLength` | components/services/processing_service.c:85-103 | Only the last append can be the one that fails for room: the stricter test of raw appends costs at most one byte, at the end. |
| `JsonPayload.EmitMeasurements` | components/services/processing_service.c:234-257 | The measurement loop writes the measurement objects exactly when they fit. |
| `JsonPayload.BuildJsonPayload` | components/services/processing_service.c:195-264 | The printer succeeds exactly when there is a measurement, every conversion works and the buffer has two bytes more than the document; then it holds the document. |
| `JsonPayload.EscapedLen` | components/services/processing_service.c:266-292 | The separately written length is the length of the escaped text. |
| `JsonPayload.MeasurementLen` | components/services/processing_service.c:294-320 | The length of a measurement object, or 0 exactly when a conversion fails. |
| `JsonPayload.HeaderLen` | components/services/processing_service.c:322-344 | The length of the text in front of the measurements. |
| `JsonPayload.EstimateJsonLen` | components/services/processing_service.c:322-361 | The estimate is exactly the document's length and one byte, or 0 when a conversion fails. |
| `JsonPayload.DocumentPrintable` | components/services/processing_service.c:195-264 | The document exists exactly when every conversion succeeds. |
| `JsonPayload.DocumentLength` | components/services/processing_service.c:322-361 | The sum of the estimator's parts is the length of the document the printer writes. |
| `JsonPayload.DocumentFits` | components/services/processing_service.c:195-264 | The three parts of a document fit one after the other exactly when their total length and one byte more does. |
| `JsonPayload.PreparePayload` | components/services/processing_service.c:530-597 | A payload is produced exactly when the estimate is below 262144 and the first buffer is granted, and always by the first attempt. |
| `JsonValue.ValueRoundTrip` | components/services/processing_service.c:195-264 | Every JSON value is read back from its canonical text, which ends where the value ends. |
| `JsonValue.TokenChars` | components/services/processing_service.c:242-250 | A number of the grammar of section 6 of RFC 8259 is made of digits, signs, points and exponent letters only, so it ends where the document's punctuation begins. |
| `JsonValue.ItemsRoundTrip` | components/services/processing_service.c:234-261 | The same for the elements of an array, with their commas. |
| `JsonValue.MembersRoundTrip` | components/services/processing_service.c:219-230 | The same for the members of an object. |
| `JsonValue.MeasurementIsPrinted` | components/services/processing_service.c:242-254 | The pieces of a measurement print the object with its seven fields. |
| `JsonValue.DocumentIsPrinted` | components/services/processing_service.c:195-264 | The document is the canonical text of the upload object. |
| `JsonValue.PayloadReadsBack` | components/services/processing_service.c:195-264 | If number conversions yield numbers of section 6 of RFC 8259, the whole document parses to one object that holds exactly the payload's fields and values. |

## Left out

- LittleFS, stdio, directories and mounting: the data file is a sequence of bytes of the configured length, the metadata file one value replaced as a whole (the truncation that opening it for writing performs is not modelled).
- I/O errors inside queue operations: every read and write succeeds. After a failed final metadata write the firmware would keep the new record in RAM and the writer's retry would store it twice.
- Queue calls before initialisation, null pointers and the mutex: the class exists once start-up has succeeded, and each call is one atomic step.
- Mixed record sizes: termination, safe metadata and safe restarts are proved, the FIFO refinement is not, because bytes skipped behind a marker are not counted in `used` and the property is false.
- CircularQueue.CircularQueue.FindOldest: one method for the identical loops of the pop path and the read path; the two callers map its four outcomes to their own answers.
- CircularQueue.CircularQueue.constructor: the interrupted reset of unacceptable metadata during start-up is not a logged step; a restart resets it again.
- A data file of the wrong size is recreated as zeros in one step.
- IEEE rounding, NaN and infinity: statistics and scaling are over exact reals; the infinite start values of minimum and maximum are replaced by the number of kept samples being 0.
- SignMagnitude.DecodeScaled: the two's-complement decoding that a compile-time switch would select instead is not modelled; the switch is set to sign-magnitude.
- The library sort is its specification, insertion into a sorted sequence; `WindowStatistics.AscendingIsUnique` shows that any correct sort gives the same values.
- printf conversions are arbitrary functions; `JsonValue.PayloadReadsBack` assumes that those of numbers yield numbers of section 6 of RFC 8259, which the conversions of infinities and NaN would not.
- Text is a sequence of characters rather than of bytes, and the NUL that ends a C string is an ordinary control character.
- Overflow of the estimator's size_t arithmetic and the failure of memory allocation inside the queue and the sink; the two payload buffers are granted or not by parameter.
- The newest timestamp of a window, which goes into the payload, is a parameter of the printer.
- Wi-Fi, LTE, HTTP, clocks, NVS and UART: a bus request and an upload succeed or fail arbitrarily.
- FreeRTOS scheduling, delays, start-up order and the clearing of the queue at start-up: only the atomic queue steps are kept.
- Windows with corrupt or misshapen samples, for which the processing task pops the oldest sample: all samples of the pipeline are well-formed.
- SamplingPipeline.EvictionCost: evictions between the six pops themselves are not counted; runs that have one are marked as disturbed and left out.
- The concrete UPM209 register table, device identifiers and firmware versions: register maps and strings are arbitrary, maps ordered where the header of the register table asks for it.
- `components/storage/memory_manager.c`, which forwards calls, and all logging.
