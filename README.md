# esp-ota-nostd: A/B over-the-air updates on ESP flash

This Dafny project models the core of `esp-ota-nostd`, a `no_std` Rust library
that installs firmware updates on an ESP chip with two application slots.
The model has three parts:

- **Partition lookup** (`src/partitions.rs`, module `Partitions`). One scan
  over the partition-table rows returns the single entry that matches a type
  or a name. It fails with `PartitionFoundTwice` at a second match,
  `PartitionNotFound` when nothing matches, and with the row's storage error
  at an erroring row. The method is proved equal to a declarative lookup
  built from match counts and the first error position.
- **Metadata store** (`src/ota_data.rs`, module `OtaDataStore`). The 32-byte
  OTA record is stored twice: copy A at the OTA data partition's base, copy B
  one sector (0x1000 bytes) further. A read takes copy A if it decodes and
  falls back to copy B otherwise. A write erases and writes copy A, then
  erases and writes copy B. The proofs cover:
  - what each read touches;
  - that a write stays within the two sectors;
  - what an interrupted write leaves readable.
- **Update protocol** (`src/lib.rs`, modules `OtaPlan` and `Ota`):
  - `ota_begin` sets the `IS_UPDATING` guard (class `Ota.OtaUpdater`),
    requires the running image to have been accepted, and picks the slot
    from the sequence number's parity. It then erases that partition, copies
    the image from a pull-based stream in sector-sized chunks with a
    progress callback, and finally writes the new record.
  - `ota_accept` and `ota_reject` rewrite the record's state.
  - `ota_is_valid` reports it.

  Each method is proved against a pure plan in `OtaPlan`:
  - the erases and writes the call may perform, in order;
  - the outcome predicate, which fixes, from the device, its injected fault
    countdown and the image stream, which prefix of the plan runs and what
    the call returns. Every step that ran succeeded. A failure is the
    answer to the step after them: the erase's error, the verdict on the
    next chunk, or the error of the metadata step that failed. Uniqueness
    lemmas show that the predicate admits exactly one result and one run;
  - lemmas about the device after the whole plan, such as the image in the
    slot and the new record read back.

The flash device is a class (`Flash.Storage`) holding a byte array. Erase
sets a range to 0xFF and write overwrites a range. Both fail outside the
device or once an injected fault countdown runs out, and a failed erase or
write changes nothing. A ghost trace records the erases and writes, and a
separate ghost log records the reads. The partition table is the sequence of
rows the partition-table crate's iterator yields.

Module order: `OtaErrors` (errors.dfy), `Partitions` (partitions.dfy),
`Flash` (flash.dfy), `OtaRecordCodec` (ota_record.dfy), `OtaDataStore`
(ota_data.dfy), `ImageStream` (image_source.dfy), `OtaPlan` (ota_plan.dfy),
`Ota` (ota.dfy).

## Model

| member | source | states |
|---|---|---|
| Partitions.FindPartition | src/partitions.rs:11-25 | The scan, with its `found_partition` accumulator and two early returns, yields exactly the declarative `Lookup`. |
| Partitions.FindPartitionByType | src/partitions.rs:7-26 | Yields `Lookup` by type. On success the entry has the requested type and is one of the table's rows. |
| Partitions.FindPartitionByName | src/partitions.rs:29-48 | Same as by type, with equality on the entry's name. |
| Partitions.LookupOkIsUnique | src/partitions.rs:14-25 | A lookup succeeds iff no row errors and exactly one entry matches. The result is that entry, and every other row is not a match. |
| Partitions.LookupNotFound | src/partitions.rs:25 | `PartitionNotFound` iff every row is an entry and none matches. |
| Partitions.LookupStopsAtSecondMatch | src/partitions.rs:16-21 | Two matches before any error give `PartitionFoundTwice`, whatever rows follow. |
| Partitions.LookupErrorFirst | src/partitions.rs:15 | An erroring row reached before a second match aborts with that row's error, even after a first match. |
| Partitions.LookupIgnoresNonMatching | src/partitions.rs:16-22 | Inserting a non-matching entry anywhere in the table leaves the outcome unchanged. |
| OtaRecordCodec.DecodeEncode | src/ota_data.rs:34 | Decoding the encoding of a record with a usable sequence number gives back the record. |
| OtaRecordCodec.EncodeDecode | src/ota_data.rs:17 | Bytes that decode are exactly the encoding of what they decode to. |
| OtaRecordCodec.ErasedDoesNotDecode | src/ota_data.rs:17 | An erased record slot (all 0xFF) never decodes. |
| OtaDataStore.ReadOtaData | src/ota_data.rs:9-25 | Returns the record `StoredRecord` defines. Reads only copy A when it decodes, and copy A then copy B otherwise. Never erases or writes (`modifies` names only the read log). |
| OtaDataStore.ReadIgnoresCopyB | src/ota_data.rs:14-19 | When copy A decodes, the read returns it, and any change to copy B leaves the result unchanged. |
| OtaDataStore.ReadFallsBackToCopyB | src/ota_data.rs:21-24 | When copy A does not decode, the result is copy B's: its record, a storage error if it lies off the device, or `OtaDataCorrupt`. |
| OtaDataStore.ReadComesFromACopy | src/ota_data.rs:17-24 | A successful read returns a record whose encoding one of the two copies holds. |
| OtaDataStore.WriteOtaData | src/ota_data.rs:28-56 | The device runs, in order, a prefix of erase A, write A, erase B, write B. It succeeds iff all four ran, and otherwise reports the failing step's error. Nothing runs when the partition lookup fails. |
| OtaDataStore.WriteCopy | src/ota_data.rs:36-42 | Erasing a sector then writing the buffer extends the run by zero, one or two steps, and reports the error of the step it stopped at. |
| OtaDataStore.ScriptEffect | src/ota_data.rs:36-53 | Memory after the first k steps: copy A's sector erased from step 1 and written from step 2, copy B's likewise at steps 3 and 4, the rest unchanged. |
| OtaDataStore.WriteStaysInMetadataSectors | src/ota_data.rs:38 | However far the write got, no byte outside the two metadata sectors changes. |
| OtaDataStore.BothCopiesWritten | src/ota_data.rs:34-53 | After a complete write, both copies hold the encoded record. |
| OtaDataStore.ReadAfterWrite | src/ota_data.rs:34-42 | From the write of copy A on, a read returns the written record, whether or not copy B's erase and write completed. |
| OtaDataStore.ReadAfterErasingCopyA | src/ota_data.rs:37-39 | If only copy A's erase completed, a read yields what copy B held before the write. |
| OtaDataStore.WriteIdempotent | src/ota_data.rs:28-56 | Writing the same bytes twice leaves the device as writing them once. |
| ImageStream.ImageSource.Read | src/lib.rs:66-69 | A read returns between one byte and as many as fit, and 0 exactly at the end of a clean stream. A failing stream reports its error only once exhausted. |
| ImageStream.ChunkSizes | src/lib.rs:65-75 | Every chunk but the last fills a sector, and the last is shorter. |
| ImageStream.ChunkStart | src/lib.rs:83 | Chunk j is written where the earlier chunks end: `SECTOR_SIZE * j` past the partition offset. |
| ImageStream.JoinedIsPrefix | src/lib.rs:81-88 | The chunks written so far concatenate to the image's prefix of their length, and all of them to the whole image. |
| ImageStream.ProgressMonotone | src/lib.rs:88-89 | Progress values never decrease and never exceed the image length. After the last chunk the value is the image length. |
| ImageStream.ProgressRepeatsAtBoundary | src/lib.rs:70-93 | An image ending on a sector boundary gets an empty last chunk, so the final total is reported twice. |
| Ota.FillBuffer | src/lib.rs:61-75 | Whatever sizes the individual reads return, the buffer ends up holding the next min(4096, remaining) bytes. It is marked done iff short. A failing stream's error surfaces iff fewer than 4096 bytes remain. |
| Ota.FilledChunk | src/lib.rs:61-75 | The buffer filled at the start of chunk w is chunk w, and it is short iff it is the last chunk. |
| Ota.CopyChunk | src/lib.rs:60-89 | One pass copies chunk `written` iff its verdict is clear. Otherwise it reports the read error, `OutOfSpace` or the write error, and the device is unchanged. |
| Ota.CopyImage | src/lib.rs:59-94 | The copy loop writes the chunks in order and reports the running totals. It succeeds iff every chunk was written, and otherwise stops at the first chunk with a failing verdict. |
| OtaPlan.FailedVerdict | src/lib.rs:66-86 | A refused chunk is refused for the stream's own error, for an image larger than the partition (`OutOfSpace`), or for a device failure. |
| OtaPlan.AllClearFits | src/lib.rs:77-79 | When every chunk was written, the image fits the partition. |
| OtaPlan.AllClearInside | src/lib.rs:77-86 | The bytes covered by the chunks the copy loop let through (`data_written`) fit in the partition, and each of their writes lies on the device. |
| OtaPlan.BeginRefused | src/lib.rs:40-51 | A call that stops at the stored-record read, at a record still pending verification, or at the target-slot lookup, with the matching error, meets the `ota_begin` outcome with nothing run. |
| OtaPlan.BeginReachedSlot | src/lib.rs:50-98 | Once the record is valid and its target slot exists, the `ota_begin` outcome holds iff the outcome of writing the update into that slot holds. |
| OtaPlan.CleanCopyFits | src/lib.rs:77-79 | With a clean stream and a sound device covering the partition, every chunk is copied iff the image fits. An image that fills the partition exactly is accepted. |
| OtaPlan.NewRecord | src/lib.rs:97 | The new record has sequence number `seq + 1`, twenty 0xFF reserved bytes and state New, so it is not yet valid. |
| OtaPlan.SlotsAlternate | src/lib.rs:46-51 | The slot `((seq + 1) - 1) % 2` is `seq % 2`, differs from the running slot `(seq - 1) % 2`, and alternates between consecutive updates. |
| OtaPlan.PlanPrefix | src/lib.rs:53-98 | The erase, then some chunk writes, then some metadata steps, form a prefix of the update plan. It is the whole plan iff all chunks and all four metadata steps ran. |
| OtaPlan.PlanWritesImage | src/lib.rs:53-94 | After a complete update the target partition holds the image followed by erased bytes, if it lies apart from the metadata sectors. |
| OtaPlan.PlanLeavesNewRecord | src/lib.rs:96-98 | After a complete update the metadata store reads back the new record. |
| OtaPlan.BeginInstallsImage | src/lib.rs:53-98 | After a successful `ota_begin` whose steps lay on the device, the target slot holds the image followed by erased bytes (slot apart from the metadata sectors), and the store reads back the new record. |
| OtaPlan.FailedCopyIsFailedUpdate | src/lib.rs:53-94 | A failed erase or copy is a failed update that never reached the metadata write. |
| OtaPlan.NothingCopied | src/lib.rs:54-56 | A copy whose erase the device refuses meets the copy outcome: nothing ran, and the result is the erase's error. |
| OtaPlan.PartialCopy | src/lib.rs:59-94 | A copy whose erase succeeded and whose loop wrote w chunks, each with a clear verdict, meets the copy outcome. The result is the verdict on chunk w, or success once w is the chunk count. |
| OtaPlan.AllClearBelow | src/lib.rs:60-94 | When the loop let w chunks through, every chunk before w had a clear verdict at its point in the fault countdown. |
| OtaPlan.ImageStepsPrefix | src/lib.rs:53-86 | The erase and the first w chunk writes start every complete copy. |
| OtaPlan.ImageStepsCount | src/lib.rs:59-94 | The erase and the first w chunk writes are the whole copy iff w is the chunk count. `data_written` after them is the bytes of the first w chunks. |
| OtaPlan.PartialUpdate | src/lib.rs:96-98 | A complete copy followed by k successful metadata steps meets the update outcome. The result is success after all four, and otherwise the device's error for step k + 1. |
| OtaPlan.CopyFailureIsLast | src/lib.rs:53-94 | A copy stopped by a failure ran at least as many steps as any run with the same cause: the step it stopped at is refused, so no run gets past it. |
| OtaPlan.CopyOutcomeUnique | src/lib.rs:53-94 | The partition, the stream and the device fix the copy's result and the steps it ran. |
| OtaPlan.SlotFailureIsLast | src/lib.rs:53-98 | An update stopped by a failure, in the copy or in the metadata write, ran at least as many steps as any run meeting the same outcome. |
| OtaPlan.SlotOutcomeUnique | src/lib.rs:53-98 | The slot, the new record, the stream and the device fix the update's result and the steps it ran. |
| OtaPlan.BeginOutcomeUnique | src/lib.rs:39-98 | The device and the stream `ota_begin` starts from fix its result and the steps it ran. |
| OtaPlan.CleanUpdateSucceeds | src/lib.rs:53-100 | With a stream that does not fail and a fault-free device holding the slot and the metadata sectors, the update succeeds iff the image fits the slot. |
| OtaPlan.BeginCleanSucceeds | src/lib.rs:39-100 | From a readable, accepted record whose target slot exists, with a clean stream and a fault-free device holding the slot and the metadata sectors, `ota_begin` succeeds iff the image fits the slot. |
| OtaPlan.Marked | src/lib.rs:110-111 | Marking replaces only the state. The record is valid iff the new state is Valid. |
| OtaPlan.MarkedIdempotent | src/lib.rs:120-122 | Marking twice with the same state is marking once. |
| OtaPlan.MarkTwiceIsMarkOnce | src/lib.rs:108-124 | After marking, the store reads back the marked record. Marking it again with the same state leaves the device unchanged. |
| OtaPlan.MarkSettles | src/lib.rs:108-124 | After a successful `ota_accept` or `ota_reject`, the store reads the marked record, and repeating the call leaves the device unchanged. |
| OtaPlan.PartialMark | src/lib.rs:108-124 | A readable record followed by k successful steps of writing its marked copy meets the mark outcome. The result is success after all four, and otherwise the device's error for step k + 1. |
| OtaPlan.MarkOutcomeUnique | src/lib.rs:108-124 | The device fixes the result of `ota_accept` or `ota_reject` and the steps it ran. |
| OtaPlan.MarkCleanSucceeds | src/lib.rs:108-124 | With a readable record and a fault-free device that holds the metadata sectors, `ota_accept` and `ota_reject` succeed. |
| OtaDataStore.SucceedsBelow | src/ota_data.rs:36-53 | When the first k steps of a run succeeded, so did each step before k, at its own point in the fault countdown. |
| Ota.EraseAndCopy | src/lib.rs:53-94 | The device ran a prefix of the erase and the chunk writes, each on the device, all of them iff the copy succeeds. A refused erase runs nothing and returns the erase's error. Otherwise every chunk written had a clear verdict, and a failure is the verdict on the next chunk: the stream's error, `OutOfSpace` or the device's error. No written chunk ends past the partition. The progress reports are one per chunk written. |
| Ota.FlashUpdate | src/lib.rs:53-98 | The device ran a prefix of the update plan, each step on the device, all of it iff the call succeeds. A copy failure is tied to its cause as in `EraseAndCopy`. After the copy, every metadata step that ran succeeded, and a failure is the next step's error. No written chunk ends past the partition. The progress reports are one per chunk written. On success the store reads back the new record. |
| Ota.OtaUpdater.constructor | src/lib.rs:22 | The guard starts cleared. |
| Ota.BeginUpdate | src/lib.rs:39-98 | Never `AlreadyUpdating`. The result and the steps run are the ones `BeginOutcome` fixes. Refusals run nothing. Otherwise the device ran a prefix of the update plan, each step on the device, all of it iff the call succeeds. A failure is the erase's error, the verdict on the next chunk, or the failing metadata step's error. No chunk is written past the slot. Progress is the running total after each chunk written. On success the store holds `NewRecord` of the old record. |
| Ota.OtaUpdater.OtaBegin | src/lib.rs:29-101 | The guard is set afterwards. `AlreadyUpdating` iff it was already set, and then nothing is read, erased, written or consumed. Otherwise the result and the steps run are the ones `BeginOutcome` fixes, as for `BeginUpdate`. Progress is the running total after each chunk written. On success the store holds `NewRecord` of the old record. |
| Ota.Mark | src/lib.rs:108-124 | Read, replace the state, write back. The device ran a prefix of the marked record's write, each step on the device and each successful, all of it iff the call succeeds. A failure is the read's error or the device's error for the step after them. |
| Ota.OtaAccept | src/lib.rs:108-113 | The outcome of marking Valid, as for `Mark`. Afterwards the stored record is the old one with state Valid, from any prior state. |
| Ota.OtaReject | src/lib.rs:119-124 | The outcome of marking Invalid, as for `Mark`. Afterwards the stored record is the old one with state Invalid, from any prior state. |
| Ota.OtaIsValid | src/lib.rs:127-129 | Runs no erase or write. Returns whether the stored record is valid, or the read's error. |

## Left out

- Async and the `Read` trait machinery: the image stream is a sequential object (`ImageStream.ImageSource`) whose `Read` returns any count from one to what fits.
- Real atomics: `IS_UPDATING.swap` is a sequential test-and-set of a class field. Concurrency and memory ordering are not modelled.
- `log::info!` and `booted_seq` (src/lib.rs:46, 49): only the log uses them.
- The partition-table crate's binary parser and `iter_nor_flash`: the table is given as the sequence of rows it yields, fixed for the device, rather than read from flash.
- The record codec and its CRC-32 (`ota_data_structs.rs`, `crc.rs`) are not part of this model. `OtaRecordCodec` stands in with the ESP-IDF layout (little-endian sequence number, 20 reserved bytes, state, check word). Its check word is the complement of the sequence number rather than a CRC-32. Elsewhere the model uses only the two round-trip lemmas, the rejection of an erased slot, and the contract of `OtaRecordCodec.Decode`: a decoded record fits its fields and has a sequence number below 0xFFFFFFFF. That contract feeds the one of `OtaDataStore.StoredRecord`, which the `ota_begin` outcome needs in order to build the new record.
- `EspOTAData::is_valid` is taken to mean state Valid. `EspOTAData::new` is taken to start in state New.
- The flash driver's alignment rules and its own error types: driver errors are `OutOfBounds` and `DeviceFault`. A failed erase or write changes nothing, while a real driver may leave a range partly changed. `Flash.Storage.Read` fails only for a range off the device, never with a device fault, so the read-error paths of `read_ota_data` (src/ota_data.rs:14-16, 21-23) are exercised only by `OutOfBounds`.
- Ota.OtaUpdater.OtaBegin: does not model the u32 overflow of `seq + 1`, `offset + size` or `offset + data_written`; integers are unbounded. It also does not model the underflow of `seq - 1` (src/lib.rs:46) at sequence 0, which panics under overflow checks: a valid record with sequence 0 proceeds to slot 0 in the model. The promise that the new record reads back holds only when `seq + 1 < 0xFFFFFFFF`, since this codec refuses sequence 0xFFFFFFFF as erased.
- ImageStream.ImageSource.Read: a failing stream fails only once it has delivered all the bytes it holds. A failure after a partial buffer is modelled by giving the stream fewer bytes.
- `error.rs` calls the storage variant `StorageOpError`, and the other files write the error-mapping as `NorFlashOpError`. Both are the one constructor `StorageOp`.
- `ota_accept` and `ota_reject` follow the code, which sets Valid or Invalid unconditionally and keeps the sequence number. There is no sequence decrement, no state-dependent case and no `get_booted_partition` operation.
- The progress callback is modelled by the sequence of values it receives.
- `BeginUpdate`, `CopyChunk`, `EraseAndCopy`, `FlashUpdate` and `WriteCopy` are pieces of single Rust functions (`ota_begin`, `write_ota_data`), split out so each proof stays small.
