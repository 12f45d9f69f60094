/** What the update protocol (src/lib.rs) does to the device, as pure
    definitions: the record `ota_begin` writes and the slot it selects, the
    erases and writes of a complete update and of a state change, and what
    each call's result says about how far through them the device got.

    Every outcome is stated over the device a call starts from: the record
    `read_ota_data` would return there, the partitions the table holds, and
    the list of erases and writes (`done`) the device ran, which is a prefix
    of a fixed plan and the whole plan exactly when the call succeeds. */
module OtaPlan {
  import opened OtaErrors
  import opened Partitions
  import opened Flash
  import opened OtaRecordCodec
  import opened OtaDataStore
  import opened ImageStream

  // ---------------------------------------------------------------------
  // Records and slots

  /** The reserved field of a fresh record: twenty 0xFF bytes. */
  function FreshLabel(): (reserved: seq<byte>)
    ensures |reserved| == LABEL_SIZE
    ensures forall i :: 0 <= i < |reserved| ==> reserved[i] == ERASED
  {
    seq(LABEL_SIZE, i => ERASED)
  }

  /** `EspOTAData::new(seq + 1, [0xFF; 20])`: the record `ota_begin` writes
      once the image is in place. It starts in state New, so it is not yet
      valid. */
  function NewRecord(current: OtaRecord): (d: OtaRecord)
    requires current.seqNo < U32_MAX
    ensures Fits(d) && d.seqNo == current.seqNo + 1 && !IsValid(d)
  {
    OtaRecord(current.seqNo + 1, FreshLabel(), New)
  }

  /** The record with its state replaced; `ota_accept` uses Valid and
      `ota_reject` Invalid. */
  function Marked(d: OtaRecord, state: OtaState): (m: OtaRecord)
    ensures m.seqNo == d.seqNo && m.reserved == d.reserved && m.state == state
    ensures Fits(m) <==> Fits(d)
    ensures IsValid(m) <==> state == Valid
  {
    d.(state := state)
  }

  /** Marking twice is marking once. */
  lemma MarkedIdempotent(d: OtaRecord, state: OtaState)
    ensures Marked(Marked(d, state), state) == Marked(d, state)
  {
  }

  /** The slot an update to sequence `seqNo + 1` writes: `(new_seq - 1) % 2`. */
  function TargetSlot(seqNo: nat): (slot: nat)
    ensures slot < 2
  {
    ((seqNo + 1) - 1) % 2
  }

  /** Consecutive updates alternate between the two slots, and an update
      never targets the slot the running sequence number selects
      (`(seq - 1) % 2`). */
  lemma SlotsAlternate(seqNo: nat)
    requires 1 <= seqNo < U32_MAX
    ensures TargetSlot(seqNo) == seqNo % 2
    ensures TargetSlot(seqNo) != (seqNo - 1) % 2
    ensures TargetSlot(seqNo + 1) != TargetSlot(seqNo)
  {
  }

  /** The application partition an update from `current` writes. */
  function TargetPartition(table: seq<TableRow>, current: OtaRecord): Result<Entry, InternalError>
  {
    Lookup(table, ByType(App(OtaSlot(TargetSlot(current.seqNo)))))
  }

  // ---------------------------------------------------------------------
  // How far a call got

  /** `a` is where `b` starts. */
  predicate IsPrefix<T(==)>(a: seq<T>, b: seq<T>)
  {
    |a| <= |b| && b[..|a|] == a
  }


  // ---------------------------------------------------------------------
  // Copying the image (src/lib.rs:59-94)

  /** The write of chunk j: at the partition offset plus the bytes before it. */
  function ChunkWrite(offset: nat, image: seq<byte>, j: nat): Op
    requires j < ChunkCount(|image|)
  {
    WriteOp(offset + SECTOR_SIZE * j, Chunk(image, j))
  }

  /** The writes of the first w chunks, in order. */
  function ChunkWrites(offset: nat, image: seq<byte>, w: nat): (ops: seq<Op>)
    requires w <= ChunkCount(|image|)
    ensures |ops| == w
  {
    if w == 0 then [] else ChunkWrites(offset, image, w - 1) + [ChunkWrite(offset, image, w - 1)]
  }

  /** The first v chunk writes are where every longer run of them starts. */
  lemma {:induction false} ChunkWritesPrefix(offset: nat, image: seq<byte>, w: nat, v: nat)
    requires v <= w <= ChunkCount(|image|)
    ensures ChunkWrites(offset, image, w)[..v] == ChunkWrites(offset, image, v)
    decreases w
  {
    if v < w {
      ChunkWritesPrefix(offset, image, w - 1, v);
      assert ChunkWrites(offset, image, w)[..w - 1] == ChunkWrites(offset, image, w - 1);
    }
  }

  /** Why chunk j cannot be copied, if it cannot: the stream fails while the
      last chunk is read, the chunk would end past the partition, or the
      device refuses the write. */
  function ChunkVerdict<E>(image: seq<byte>, failure: Option<E>, offset: nat, size: nat,
                           capacity: nat, faultAfter: Option<nat>, j: nat): Option<UpdateError<E>>
    requires j < ChunkCount(|image|)
  {
    if j == ChunkCount(|image|) - 1 && failure.Some? then Some(ReadError(failure.value))
    else if ChunkEnd(|image|, j) > size then Some(OutOfSpace)
    else match OpResult(capacity, faultAfter, ChunkWrite(offset, image, j))
      case Err(e) => Some(Internal(FlashFailure(e)))
      case Ok(_) => None
  }

  predicate AllClear<E>(image: seq<byte>, failure: Option<E>, offset: nat, size: nat,
                        capacity: nat, f0: Option<nat>, w: nat)
    requires w <= ChunkCount(|image|)
  {
    w == 0 ||
    (AllClear(image, failure, offset, size, capacity, f0, w - 1) &&
     ChunkVerdict(image, failure, offset, size, capacity, TickN(f0, w - 1), w - 1).None?)
  }

  /** Every chunk before the w-th of a clear run had a clear verdict. */
  lemma {:induction false} AllClearBelow<E>(image: seq<byte>, failure: Option<E>, offset: nat, size: nat,
                                            capacity: nat, f0: Option<nat>, w: nat, j: nat)
    requires j < w <= ChunkCount(|image|)
    requires AllClear(image, failure, offset, size, capacity, f0, w)
    ensures ChunkVerdict(image, failure, offset, size, capacity, TickN(f0, j), j).None?
    decreases w
  {
    if j < w - 1 {
      AllClearBelow(image, failure, offset, size, capacity, f0, w - 1, j);
    }
  }

  /** How many chunk writes follow the partition's erase among the steps
      `done` of an update. */
  function ChunksWritten(len: nat, done: seq<Op>): (w: nat)
    ensures w <= ChunkCount(len)
  {
    if |done| <= 1 then 0
    else if |done| - 1 >= ChunkCount(len) then ChunkCount(len)
    else |done| - 1
  }

  /** `data_written` once the steps `done` have run: the bytes covered by
      the chunk writes among them. */
  function WrittenBytes(len: nat, done: seq<Op>): nat
  {
    Covered(len, ChunksWritten(len, done))
  }

  /** The chunk writes among `done` stay inside a partition of `size` bytes:
      `data_written` never passes the partition's end. */
  predicate WrittenInside(image: seq<byte>, size: nat, done: seq<Op>)
  {
    WrittenBytes(|image|, done) <= size
  }

  /** Chunks the copy loop let through end inside the partition, and their
      writes lie on the device. */
  lemma {:induction false} AllClearInside<E>(image: seq<byte>, failure: Option<E>, offset: nat, size: nat,
                                             capacity: nat, f0: Option<nat>, w: nat)
    requires w <= ChunkCount(|image|)
    requires AllClear(image, failure, offset, size, capacity, f0, w)
    ensures Covered(|image|, w) <= size
    ensures AllInBounds(capacity, ChunkWrites(offset, image, w))
    decreases w
  {
    if w > 0 {
      AllClearInside(image, failure, offset, size, capacity, f0, w - 1);
      var prev := ChunkWrites(offset, image, w - 1);
      assert ChunkWrites(offset, image, w) == prev + [ChunkWrite(offset, image, w - 1)];
      assert InBounds(capacity, ChunkWrite(offset, image, w - 1));
    }
  }

  lemma TickNever(n: nat)
    ensures TickN(None, n) == None
  {
    if n > 0 {
      TickNever(n - 1);
    }
  }

  /** With a stream that does not fail and a device that does not fault and
      holds the whole partition, the first w chunks are copied exactly when
      chunk w - 1 ends inside the partition. */
  lemma {:induction false} CleanChunksFit<E>(image: seq<byte>, offset: nat, size: nat, capacity: nat, w: nat)
    requires offset + size <= capacity && w <= ChunkCount(|image|)
    ensures AllClear<E>(image, None, offset, size, capacity, None, w) <==> w == 0 || ChunkEnd(|image|, w - 1) <= size
    decreases w
  {
    if w > 0 {
      CleanChunksFit<E>(image, offset, size, capacity, w - 1);
      TickNever(w - 1);
      ChunkStart(|image|, w - 1);
    }
  }

  /** With a stream that does not fail and a device that does not fault and
      holds the whole partition, the copy loop writes every chunk exactly
      when the image fits the partition; an image that fills it exactly is
      accepted, since only a chunk ending past the partition is refused. */
  lemma CleanCopyFits<E>(image: seq<byte>, offset: nat, size: nat, capacity: nat)
    requires offset + size <= capacity
    ensures AllClear<E>(image, None, offset, size, capacity, None, ChunkCount(|image|)) <==> |image| <= size
  {
    CleanChunksFit<E>(image, offset, size, capacity, ChunkCount(|image|));
  }

  // ---------------------------------------------------------------------
  // ota_begin (src/lib.rs:29-101)

  /** The erases and writes of a complete update: erase the whole target
      partition, write the image chunk by chunk, then write the new record. */
  function UpdatePlan(app: Entry, image: seq<byte>, metaBase: nat, next: OtaRecord): seq<Op>
    requires Fits(next)
  {
    [EraseOp(app.offset, app.offset + app.size)]
    + ChunkWrites(app.offset, image, ChunkCount(|image|))
    + MetadataScript(metaBase, Encode(next))
  }

  /** What `ota_begin` does once it holds the guard, stated over the device it
      started from (its bytes `mem` and fault countdown `f0`) and the image
      stream (its bytes `image`, and the error it ends with, if any). A
      record that cannot be read, a record not yet accepted and a missing or
      ambiguous target partition end the call before any erase or write;
      otherwise the call writes the update into the target slot. */
  ghost predicate BeginOutcome<E>(table: seq<TableRow>, mem: seq<byte>, image: seq<byte>, failure: Option<E>,
                                  f0: Option<nat>, r: Result<(), UpdateError<E>>, done: seq<Op>)
  {
    var current := StoredRecord(table, mem);
    if current.Err? then r == Err(Internal(current.error)) && done == []
    else if !IsValid(current.value) then r == Err(UpdateError.PendingVerify) && done == []
    else
      var app := TargetPartition(table, current.value);
      if app.Err? then r == Err(Internal(app.error)) && done == []
      else SlotOutcome(app.value, image, MetadataPartition(table).value.offset, NewRecord(current.value),
                       failure, |mem|, f0, r, done)
  }

  /** What writing an update into partition `app` does on a device of
      `capacity` bytes whose fault countdown starts at `f0`: the device runs
      a prefix of the update plan, the whole plan exactly when the call
      succeeds, no chunk it writes ends past the partition, OutOfSpace is
      reported only for an image larger than the partition, and the call
      stops where `SlotCause` says. */
  ghost predicate SlotOutcome<E>(app: Entry, image: seq<byte>, metaBase: nat, next: OtaRecord, failure: Option<E>,
                                 capacity: nat, f0: Option<nat>, r: Result<(), UpdateError<E>>, done: seq<Op>)
    requires Fits(next)
  {
    var plan := UpdatePlan(app, image, metaBase, next);
    && IsPrefix(done, plan)
    && (r.Ok? <==> done == plan)
    && (r.Ok? ==> |image| <= app.size)
    && (r == Err(OutOfSpace) ==> |image| > app.size)
    && WrittenInside(image, app.size, done)
    && r != Err(UpdateError.PendingVerify) && r != Err(AlreadyUpdating)
    && SlotCause(app, image, metaBase, next, failure, capacity, f0, r, done)
  }

  /** Why an update stopped where it did. A run that ends within the copy
      stops for the reason `CopyCause` gives. A run that gets past the copy
      completed it, every metadata step it ran succeeded, and a failure is
      the device's answer to the next metadata step, its fault countdown
      having been ticked by the erase and every chunk write. */
  ghost predicate SlotCause<E>(app: Entry, image: seq<byte>, metaBase: nat, next: OtaRecord, failure: Option<E>,
                               capacity: nat, f0: Option<nat>, r: Result<(), UpdateError<E>>, done: seq<Op>)
    requires Fits(next)
  {
    var n := ChunkCount(|image|);
    if |done| <= n then CopyCause(app, image, failure, capacity, f0, r, done)
    else
      var k := |done| - (1 + n);
      var script := MetadataScript(metaBase, Encode(next));
      var fm := TickN(Tick(f0), n);
      && CopyCause(app, image, failure, capacity, f0, Ok(()), done[..1 + n])
      && k <= 4
      && Succeeds(capacity, fm, script, k)
      && (k < 4 ==> StepRefused(capacity, TickN(fm, k), script[k], r))
  }

  /** The device refuses `op` when its fault countdown stands at `f`, and
      `r` reports the refusal as `ota_begin` does. */
  predicate StepRefused<E>(capacity: nat, f: Option<nat>, op: Op, r: Result<(), UpdateError<E>>)
  {
    OpResult(capacity, f, op).Err? && r == Err(Internal(FlashFailure(OpResult(capacity, f, op).error)))
  }

  /** A call that stops before any erase or write, for the reason its
      result names, meets the outcome of `ota_begin`. */
  lemma BeginRefused<E>(table: seq<TableRow>, mem: seq<byte>, image: seq<byte>, failure: Option<E>, f0: Option<nat>,
                        r: Result<(), UpdateError<E>>)
    requires var current := StoredRecord(table, mem);
             if current.Err? then r == Err(Internal(current.error))
             else if !IsValid(current.value) then r == Err(UpdateError.PendingVerify)
             else TargetPartition(table, current.value).Err? &&
                  r == Err(Internal(TargetPartition(table, current.value).error))
    ensures BeginOutcome(table, mem, image, failure, f0, r, [])
  {
  }

  /** Once the stored record is valid and its target slot exists, the
      outcome of `ota_begin` is exactly the outcome of writing the update
      into that slot. */
  lemma BeginReachedSlot<E>(table: seq<TableRow>, mem: seq<byte>, image: seq<byte>, failure: Option<E>, f0: Option<nat>,
                            current: OtaRecord, app: Entry, capacity: nat, r: Result<(), UpdateError<E>>, done: seq<Op>)
    requires StoredRecord(table, mem) == Ok(current) && IsValid(current)
    requires TargetPartition(table, current) == Ok(app) && capacity == |mem|
    ensures BeginOutcome(table, mem, image, failure, f0, r, done) <==>
            SlotOutcome(app, image, MetadataPartition(table).value.offset, NewRecord(current), failure, capacity, f0, r, done)
  {
  }

  /** The erase, then the first w chunk writes, then the first k metadata
      steps, are a prefix of the plan when the chunks are all written or no
      metadata step ran. */
  lemma PlanPrefix(app: Entry, image: seq<byte>, metaBase: nat, next: OtaRecord, w: nat, k: nat)
    requires Fits(next) && w <= ChunkCount(|image|) && k <= 4
    requires k > 0 ==> w == ChunkCount(|image|)
    ensures var done := [EraseOp(app.offset, app.offset + app.size)] + ChunkWrites(app.offset, image, w)
                        + MetadataScript(metaBase, Encode(next))[..k];
            var plan := UpdatePlan(app, image, metaBase, next);
            IsPrefix(done, plan) && (done == plan <==> w == ChunkCount(|image|) && k == 4)
  {
    var n := ChunkCount(|image|);
    var erase := [EraseOp(app.offset, app.offset + app.size)];
    var script := MetadataScript(metaBase, Encode(next));
    var plan := UpdatePlan(app, image, metaBase, next);
    ChunkWritesPrefix(app.offset, image, n, w);
    if k == 0 {
      assert (erase + ChunkWrites(app.offset, image, n) + script)[..1 + w]
          == erase + ChunkWrites(app.offset, image, n)[..w];
    } else {
      assert (erase + ChunkWrites(app.offset, image, n) + script)[..1 + n + k]
          == erase + ChunkWrites(app.offset, image, n) + script[..k];
    }
  }

  /** A run that completed the copy and then stopped after k metadata
      steps meets the outcome of an update when each of those steps
      succeeded and the result is the refusal of the next one, or success
      after all four. */
  lemma PartialUpdate<E>(app: Entry, image: seq<byte>, metaBase: nat, next: OtaRecord, failure: Option<E>,
                         capacity: nat, f0: Option<nat>, r: Result<(), UpdateError<E>>, k: nat)
    requires Fits(next) && k <= 4
    requires CopyOutcome(app, image, failure, capacity, f0, Ok(()), ImageSteps(app, image))
    requires Succeeds(capacity, TickN(Tick(f0), ChunkCount(|image|)), MetadataScript(metaBase, Encode(next)), k)
    requires r.Ok? <==> k == 4
    requires k < 4 ==> StepRefused(capacity, TickN(TickN(Tick(f0), ChunkCount(|image|)), k),
                                   MetadataScript(metaBase, Encode(next))[k], r)
    ensures SlotOutcome(app, image, metaBase, next, failure, capacity, f0, r,
                        ImageSteps(app, image) + MetadataScript(metaBase, Encode(next))[..k])
  {
    var n := ChunkCount(|image|);
    var done := ImageSteps(app, image) + MetadataScript(metaBase, Encode(next))[..k];
    PlanPrefix(app, image, metaBase, next, n, k);
    assert done[..1 + n] == ImageSteps(app, image);
    CoveredAll(|image|);
  }

  /** A chunk the copy loop gives up on says why: the stream's error, an
      image too large for the partition, or a device failure. */
  lemma FailedVerdict<E>(image: seq<byte>, failure: Option<E>, offset: nat, size: nat,
                         capacity: nat, faultAfter: Option<nat>, j: nat, e: UpdateError<E>)
    requires j < ChunkCount(|image|)
    requires ChunkVerdict(image, failure, offset, size, capacity, faultAfter, j) == Some(e)
    ensures e == OutOfSpace ==> |image| > size
    ensures e.ReadError? ==> failure == Some(e.readError)
    ensures !e.PendingVerify? && !e.AlreadyUpdating?
  {
  }

  /** When every chunk was written, the image fits the partition. */
  lemma AllClearFits<E>(image: seq<byte>, failure: Option<E>, offset: nat, size: nat,
                        capacity: nat, f0: Option<nat>)
    requires AllClear(image, failure, offset, size, capacity, f0, ChunkCount(|image|))
    ensures |image| <= size
  {
  }

  /** The device after the plan is the device after its image steps,
      followed by the four metadata steps. */
  lemma PlanSplit(mem: seq<byte>, app: Entry, image: seq<byte>, metaBase: nat, next: OtaRecord)
    requires Fits(next)
    ensures var head := [EraseOp(app.offset, app.offset + app.size)] + ChunkWrites(app.offset, image, ChunkCount(|image|));
            ApplyAll(mem, UpdatePlan(app, image, metaBase, next)) ==
              ApplyAll(ApplyAll(mem, head), MetadataScript(metaBase, Encode(next))[..4])
  {
    var head := [EraseOp(app.offset, app.offset + app.size)] + ChunkWrites(app.offset, image, ChunkCount(|image|));
    var script := MetadataScript(metaBase, Encode(next));
    ApplyAllConcat(mem, head, script);
    assert script[..4] == script;
  }

  /** The plan's last steps are a complete metadata write, so afterwards the
      store reads back the new record. */
  lemma PlanLeavesNewRecord(table: seq<TableRow>, mem: seq<byte>, app: Entry, image: seq<byte>, next: OtaRecord)
    requires MetadataPartition(table).Ok?
    requires MetadataPartition(table).value.offset + 2 * SECTOR_SIZE <= |mem|
    requires Fits(next) && next.seqNo < U32_MAX
    ensures StoredRecord(table, ApplyAll(mem, UpdatePlan(app, image, MetadataPartition(table).value.offset, next))) == Ok(next)
  {
    var base := MetadataPartition(table).value.offset;
    var head := [EraseOp(app.offset, app.offset + app.size)] + ChunkWrites(app.offset, image, ChunkCount(|image|));
    var mid := ApplyAll(mem, head);
    PlanSplit(mem, app, image, base, next);
    ScriptInBounds(mid, base, Encode(next));
    ReadAfterWrite(table, mid, next, 4);
  }

  /** Byte i after the first w chunk writes: the image where the chunks
      cover it, the old byte elsewhere. */
  lemma {:induction false} ChunkWritesEffectAt(mem: seq<byte>, offset: nat, image: seq<byte>, w: nat, i: nat)
    requires w <= ChunkCount(|image|) && offset + |image| <= |mem| && i < |mem|
    ensures Covered(|image|, w) <= |image|
    ensures ApplyAll(mem, ChunkWrites(offset, image, w))[i] ==
            if offset <= i < offset + Covered(|image|, w) then image[i - offset] else mem[i]
    decreases w
  {
    if w > 0 {
      ChunkWritesEffectAt(mem, offset, image, w - 1, i);
      ChunkStart(|image|, w - 1);
      ApplyAllSnoc(mem, ChunkWrites(offset, image, w - 1), ChunkWrite(offset, image, w - 1));
      ChunkWriteAt(ApplyAll(mem, ChunkWrites(offset, image, w - 1)), offset, image, w - 1, i);
    }
  }

  /** Byte i after writing chunk j: the image where the chunk covers it. */
  lemma ChunkWriteAt(prev: seq<byte>, offset: nat, image: seq<byte>, j: nat, i: nat)
    requires j < ChunkCount(|image|) && offset + |image| <= |prev| && i < |prev|
    ensures Apply(prev, ChunkWrite(offset, image, j))[i] ==
            if offset + SECTOR_SIZE * j <= i < offset + ChunkEnd(|image|, j) then image[i - offset] else prev[i]
  {
    var start := offset + SECTOR_SIZE * j;
    var chunk := Chunk(image, j);
    ApplyAt(prev, WriteOp(start, chunk), i);
    if start <= i < start + |chunk| {
      assert chunk[i - start] == image[i - offset];
    }
  }

  /** The device after each stage of a complete update into the partition
      at [offset, offset + size): the erase, the chunk writes, the metadata
      write of `bytes`. */
  function Staged(mem: seq<byte>, offset: nat, size: nat, image: seq<byte>, metaBase: nat, bytes: seq<byte>): seq<byte>
  {
    ApplyAll(ApplyAll(Apply(mem, EraseOp(offset, offset + size)),
                      ChunkWrites(offset, image, ChunkCount(|image|))),
             MetadataScript(metaBase, bytes)[..4])
  }

  /** The plan in its three stages: the erase, the chunk writes, the
      metadata write. */
  lemma PlanStages(mem: seq<byte>, app: Entry, image: seq<byte>, metaBase: nat, next: OtaRecord)
    requires Fits(next)
    ensures ApplyAll(mem, UpdatePlan(app, image, metaBase, next)) ==
            Staged(mem, app.offset, app.size, image, metaBase, Encode(next))
  {
    var erase := EraseOp(app.offset, app.offset + app.size);
    PlanSplit(mem, app, image, metaBase, next);
    ApplyAllConcat(mem, [erase], ChunkWrites(app.offset, image, ChunkCount(|image|)));
    ApplyAllSnoc(mem, [], erase);
    assert [] + [erase] == [erase];
  }

  /** All the chunks together cover the whole image. */
  lemma CoveredAll(len: nat)
    ensures Covered(len, ChunkCount(len)) == len
  {
  }

  /** Byte i after all the chunk writes, over a byte that was erased: the
      image where it reaches, erased beyond. */
  lemma ChunksOverErasedAt(erased: seq<byte>, offset: nat, image: seq<byte>, i: nat)
    requires offset + |image| <= |erased| && offset <= i < |erased| && erased[i] == ERASED
    ensures ApplyAll(erased, ChunkWrites(offset, image, ChunkCount(|image|)))[i] ==
            if i < offset + |image| then image[i - offset] else ERASED
  {
    CoveredAll(|image|);
    ChunkWritesEffectAt(erased, offset, image, ChunkCount(|image|), i);
  }

  /** Byte i of a partition at [offset, offset + size) after its erase and
      the chunk writes: the image where it reaches, erased beyond. */
  lemma ImageStagesByteAt(mem: seq<byte>, offset: nat, size: nat, image: seq<byte>, i: nat)
    requires offset + size <= |mem| && |image| <= size
    requires offset <= i < offset + size
    ensures ApplyAll(Apply(mem, EraseOp(offset, offset + size)),
                     ChunkWrites(offset, image, ChunkCount(|image|)))[i] ==
            if i < offset + |image| then image[i - offset] else ERASED
  {
    ApplyAt(mem, EraseOp(offset, offset + size), i);
    ChunksOverErasedAt(Apply(mem, EraseOp(offset, offset + size)), offset, image, i);
  }

  /** Byte i of the target partition after the three stages: the image
      where it reaches, erased beyond. */
  lemma StagedByteAt(mem: seq<byte>, offset: nat, size: nat, image: seq<byte>, metaBase: nat, bytes: seq<byte>, i: nat)
    requires |bytes| <= SECTOR_SIZE
    requires offset + size <= |mem| && |image| <= size
    requires metaBase + 2 * SECTOR_SIZE <= |mem|
    requires offset + size <= metaBase || metaBase + 2 * SECTOR_SIZE <= offset
    requires offset <= i < offset + size
    ensures Staged(mem, offset, size, image, metaBase, bytes)[i] ==
            if i < offset + |image| then image[i - offset] else ERASED
  {
    var mid := ApplyAll(Apply(mem, EraseOp(offset, offset + size)), ChunkWrites(offset, image, ChunkCount(|image|)));
    ScriptInBounds(mid, metaBase, bytes);
    WriteStaysInMetadataSectors(mid, metaBase, bytes, 4, i);
    ImageStagesByteAt(mem, offset, size, image, i);
  }

  /** After the three stages the target partition holds the image followed
      by erased bytes. */
  lemma StagedWritesImage(mem: seq<byte>, offset: nat, size: nat, image: seq<byte>, metaBase: nat, bytes: seq<byte>)
    requires |bytes| <= SECTOR_SIZE
    requires offset + size <= |mem| && |image| <= size
    requires metaBase + 2 * SECTOR_SIZE <= |mem|
    requires offset + size <= metaBase || metaBase + 2 * SECTOR_SIZE <= offset
    ensures Staged(mem, offset, size, image, metaBase, bytes)[offset..offset + |image|] == image
    ensures forall i :: offset + |image| <= i < offset + size ==>
              Staged(mem, offset, size, image, metaBase, bytes)[i] == ERASED
  {
    var after := Staged(mem, offset, size, image, metaBase, bytes);
    forall i | offset <= i < offset + size
      ensures after[i] == if i < offset + |image| then image[i - offset] else ERASED
    {
      StagedByteAt(mem, offset, size, image, metaBase, bytes, i);
    }
    assert after[offset..offset + |image|] == image;
  }

  /** After a complete update the target partition holds the image followed
      by erased bytes, provided it lies apart from the metadata sectors. */
  lemma PlanWritesImage(mem: seq<byte>, app: Entry, image: seq<byte>, metaBase: nat, next: OtaRecord)
    requires Fits(next)
    requires app.offset + app.size <= |mem| && |image| <= app.size
    requires metaBase + 2 * SECTOR_SIZE <= |mem|
    requires app.offset + app.size <= metaBase || metaBase + 2 * SECTOR_SIZE <= app.offset
    ensures ApplyAll(mem, UpdatePlan(app, image, metaBase, next))[app.offset..app.offset + |image|] == image
    ensures forall i :: app.offset + |image| <= i < app.offset + app.size ==>
              ApplyAll(mem, UpdatePlan(app, image, metaBase, next))[i] == ERASED
  {
    PlanStages(mem, app, image, metaBase, next);
    StagedWritesImage(mem, app.offset, app.size, image, metaBase, Encode(next));
  }

  /** A successful `ota_begin` whose steps all lay on the device leaves the
      target slot holding the image followed by erased bytes, provided the
      slot lies apart from the metadata sectors; when the new sequence
      number is usable, the store reads back the new record. */
  lemma BeginInstallsImage<E>(table: seq<TableRow>, mem: seq<byte>, image: seq<byte>, failure: Option<E>,
                              f0: Option<nat>, r: Result<(), UpdateError<E>>, done: seq<Op>)
    requires BeginOutcome(table, mem, image, failure, f0, r, done) && r.Ok?
    requires AllInBounds(|mem|, done)
    requires StoredRecord(table, mem).Ok? && TargetPartition(table, StoredRecord(table, mem).value).Ok?
    requires var app := TargetPartition(table, StoredRecord(table, mem).value).value;
             var base := MetadataPartition(table).value.offset;
             app.offset + app.size <= base || base + 2 * SECTOR_SIZE <= app.offset
    ensures var app := TargetPartition(table, StoredRecord(table, mem).value).value;
            var after := ApplyAll(mem, done);
            && |image| <= app.size && app.offset + app.size <= |mem|
            && after[app.offset..app.offset + |image|] == image
            && (forall i :: app.offset + |image| <= i < app.offset + app.size ==> after[i] == ERASED)
    ensures StoredRecord(table, mem).value.seqNo + 1 < U32_MAX ==>
              StoredRecord(table, ApplyAll(mem, done)) == Ok(NewRecord(StoredRecord(table, mem).value))
  {
    var current := StoredRecord(table, mem).value;
    var app := TargetPartition(table, current).value;
    var base := MetadataPartition(table).value.offset;
    var next := NewRecord(current);
    var plan := UpdatePlan(app, image, base, next);
    assert done == plan;
    assert InBounds(|mem|, plan[0]);
    assert plan[|plan| - 2] == EraseOp(base + SECTOR_SIZE, base + 2 * SECTOR_SIZE);
    assert InBounds(|mem|, plan[|plan| - 2]);
    PlanWritesImage(mem, app, image, base, next);
    if current.seqNo + 1 < U32_MAX {
      PlanLeavesNewRecord(table, mem, app, image, next);
    }
  }

  /** The erase and the chunk writes of a complete update. */
  function ImageSteps(app: Entry, image: seq<byte>): seq<Op>
  {
    [EraseOp(app.offset, app.offset + app.size)] + ChunkWrites(app.offset, image, ChunkCount(|image|))
  }

  /** What erasing partition `app` and copying the image into it does on a
      device of `capacity` bytes whose fault countdown starts at `f0`: the
      device runs a prefix of the erase and the chunk writes, all of them
      exactly when the copy succeeds, no chunk it writes ends past the
      partition, OutOfSpace is reported only for an image larger than the
      partition, and the copy stops where `CopyCause` says. */
  ghost predicate CopyOutcome<E>(app: Entry, image: seq<byte>, failure: Option<E>, capacity: nat, f0: Option<nat>,
                                 r: Result<(), UpdateError<E>>, done: seq<Op>)
  {
    && IsPrefix(done, ImageSteps(app, image))
    && (r.Ok? <==> done == ImageSteps(app, image))
    && (r.Ok? ==> |image| <= app.size)
    && (r == Err(OutOfSpace) ==> |image| > app.size)
    && WrittenInside(image, app.size, done)
    && r != Err(UpdateError.PendingVerify) && r != Err(AlreadyUpdating)
    && CopyCause(app, image, failure, capacity, f0, r, done)
  }

  /** Why a copy stopped where it did. A refused erase runs nothing and
      the result is the device's answer. Otherwise the erase succeeded,
      every chunk written after it had a clear verdict, and a failure is
      the verdict on the chunk after them. */
  ghost predicate CopyCause<E>(app: Entry, image: seq<byte>, failure: Option<E>, capacity: nat, f0: Option<nat>,
                               r: Result<(), UpdateError<E>>, done: seq<Op>)
  {
    var erase := EraseOp(app.offset, app.offset + app.size);
    if |done| == 0 then StepRefused(capacity, f0, erase, r)
    else
      var w := |done| - 1;
      && OpResult(capacity, f0, erase).Ok?
      && w <= ChunkCount(|image|)
      && AllClear(image, failure, app.offset, app.size, capacity, Tick(f0), w)
      && (r.Err? ==> w < ChunkCount(|image|) &&
                     ChunkVerdict(image, failure, app.offset, app.size, capacity, TickN(Tick(f0), w), w) == Some(r.error))
  }

  /** A copy whose erase succeeded and whose loop stopped after w chunks
      meets the outcome when every chunk written was clear and the result
      is the verdict on the next chunk, or success after the last. */
  lemma PartialCopy<E>(app: Entry, image: seq<byte>, failure: Option<E>, capacity: nat, f0: Option<nat>,
                       r: Result<(), UpdateError<E>>, w: nat)
    requires OpResult(capacity, f0, EraseOp(app.offset, app.offset + app.size)).Ok?
    requires w <= ChunkCount(|image|)
    requires AllClear(image, failure, app.offset, app.size, capacity, Tick(f0), w)
    requires r.Ok? <==> w == ChunkCount(|image|)
    requires r.Err? ==> w < ChunkCount(|image|) &&
                        ChunkVerdict(image, failure, app.offset, app.size, capacity, TickN(Tick(f0), w), w) == Some(r.error)
    ensures CopyOutcome(app, image, failure, capacity, f0, r,
                        [EraseOp(app.offset, app.offset + app.size)] + ChunkWrites(app.offset, image, w))
  {
    ImageStepsPrefix(app, image, w);
    ImageStepsCount(app, image, w);
    AllClearInside(image, failure, app.offset, app.size, capacity, Tick(f0), w);
    if r.Err? {
      FailedVerdict(image, failure, app.offset, app.size, capacity, TickN(Tick(f0), w), w, r.error);
    } else {
      AllClearFits(image, failure, app.offset, app.size, capacity, Tick(f0));
    }
  }

  /** The erase and the first w chunk writes start every complete update. */
  lemma ImageStepsPrefix(app: Entry, image: seq<byte>, w: nat)
    requires w <= ChunkCount(|image|)
    ensures IsPrefix([EraseOp(app.offset, app.offset + app.size)] + ChunkWrites(app.offset, image, w), ImageSteps(app, image))
  {
    var all := ChunkWrites(app.offset, image, ChunkCount(|image|));
    ChunkWritesPrefix(app.offset, image, ChunkCount(|image|), w);
    assert ([EraseOp(app.offset, app.offset + app.size)] + all)[..1 + w] ==
           [EraseOp(app.offset, app.offset + app.size)] + all[..w];
  }

  /** The erase and the first w chunk writes are all of the image steps
      exactly when w is the chunk count, and they cover the bytes of the
      first w chunks. */
  lemma ImageStepsCount(app: Entry, image: seq<byte>, w: nat)
    requires w <= ChunkCount(|image|)
    ensures var done := [EraseOp(app.offset, app.offset + app.size)] + ChunkWrites(app.offset, image, w);
            && (done == ImageSteps(app, image) <==> w == ChunkCount(|image|))
            && WrittenBytes(|image|, done) == Covered(|image|, w)
  {
    var done := [EraseOp(app.offset, app.offset + app.size)] + ChunkWrites(app.offset, image, w);
    assert |done| == 1 + w && |ImageSteps(app, image)| == 1 + ChunkCount(|image|);
  }

  /** A copy whose erase the device refuses meets the outcome. */
  lemma NothingCopied<E>(app: Entry, image: seq<byte>, failure: Option<E>, capacity: nat, f0: Option<nat>,
                         r: Result<(), UpdateError<E>>)
    requires StepRefused(capacity, f0, EraseOp(app.offset, app.offset + app.size), r)
    ensures CopyOutcome(app, image, failure, capacity, f0, r, [])
  {
  }

  /** A failed copy is a failed update that never reached the metadata. */
  lemma FailedCopyIsFailedUpdate<E>(app: Entry, image: seq<byte>, metaBase: nat, next: OtaRecord, failure: Option<E>,
                                    capacity: nat, f0: Option<nat>, r: Result<(), UpdateError<E>>, done: seq<Op>)
    requires Fits(next) && r.Err?
    requires CopyOutcome(app, image, failure, capacity, f0, r, done)
    ensures SlotOutcome(app, image, metaBase, next, failure, capacity, f0, r, done)
  {
    var steps := ImageSteps(app, image);
    var plan := UpdatePlan(app, image, metaBase, next);
    assert plan == steps + MetadataScript(metaBase, Encode(next));
    assert plan[..|steps|] == steps;
    assert plan[..|done|] == steps[..|done|];
  }

  /** A copy stopped by a failure ran no fewer steps than any run that
      meets the same cause: the step it stopped at is refused. */
  lemma CopyFailureIsLast<E>(app: Entry, image: seq<byte>, failure: Option<E>, capacity: nat, f0: Option<nat>,
                             ra: Result<(), UpdateError<E>>, da: seq<Op>, rb: Result<(), UpdateError<E>>, db: seq<Op>)
    requires CopyCause(app, image, failure, capacity, f0, ra, da) && ra.Err?
    requires CopyCause(app, image, failure, capacity, f0, rb, db)
    ensures |db| <= |da|
  {
    if |db| > |da| > 0 {
      AllClearBelow(image, failure, app.offset, app.size, capacity, Tick(f0), |db| - 1, |da| - 1);
    }
  }

  /** The outcome of a copy is fixed by the partition, the stream and the
      device: two results that meet it are the same result after the same
      steps. */
  lemma CopyOutcomeUnique<E>(app: Entry, image: seq<byte>, failure: Option<E>, capacity: nat, f0: Option<nat>,
                             r1: Result<(), UpdateError<E>>, done1: seq<Op>, r2: Result<(), UpdateError<E>>, done2: seq<Op>)
    requires CopyOutcome(app, image, failure, capacity, f0, r1, done1)
    requires CopyOutcome(app, image, failure, capacity, f0, r2, done2)
    ensures r1 == r2 && done1 == done2
  {
    if r1.Err? {
      CopyFailureIsLast(app, image, failure, capacity, f0, r1, done1, r2, done2);
    }
    if r2.Err? {
      CopyFailureIsLast(app, image, failure, capacity, f0, r2, done2, r1, done1);
    }
    SameResult(r1, r2);
  }

  /** Two results of the same call that agree on success and on their
      error are equal. */
  lemma SameResult<E>(r1: Result<(), E>, r2: Result<(), E>)
    requires r1.Ok? <==> r2.Ok?
    requires r1.Err? ==> r1.error == r2.error
    ensures r1 == r2
  {
    if r1.Ok? {
      assert r1.value == () == r2.value;
    }
  }

  /** An update stopped by a failure ran no fewer steps than any run that
      meets the same outcome. */
  lemma SlotFailureIsLast<E>(app: Entry, image: seq<byte>, metaBase: nat, next: OtaRecord, failure: Option<E>,
                             capacity: nat, f0: Option<nat>,
                             ra: Result<(), UpdateError<E>>, da: seq<Op>, rb: Result<(), UpdateError<E>>, db: seq<Op>)
    requires Fits(next)
    requires SlotOutcome(app, image, metaBase, next, failure, capacity, f0, ra, da) && ra.Err?
    requires SlotOutcome(app, image, metaBase, next, failure, capacity, f0, rb, db)
    ensures |db| <= |da|
  {
    var n := ChunkCount(|image|);
    if |db| > |da| {
      if |da| <= n {
        if |db| <= n {
          CopyFailureIsLast(app, image, failure, capacity, f0, ra, da, rb, db);
        } else {
          CopyFailureIsLast(app, image, failure, capacity, f0, ra, da, Ok(()), db[..1 + n]);
        }
      } else {
        SucceedsBelow(capacity, TickN(Tick(f0), n), MetadataScript(metaBase, Encode(next)),
                      |db| - (1 + n), |da| - (1 + n));
      }
    }
  }

  /** The outcome of an update is fixed by the slot, the record, the stream
      and the device: two results that meet it are the same result after
      the same steps. */
  lemma SlotOutcomeUnique<E>(app: Entry, image: seq<byte>, metaBase: nat, next: OtaRecord, failure: Option<E>,
                             capacity: nat, f0: Option<nat>,
                             r1: Result<(), UpdateError<E>>, done1: seq<Op>, r2: Result<(), UpdateError<E>>, done2: seq<Op>)
    requires Fits(next)
    requires SlotOutcome(app, image, metaBase, next, failure, capacity, f0, r1, done1)
    requires SlotOutcome(app, image, metaBase, next, failure, capacity, f0, r2, done2)
    ensures r1 == r2 && done1 == done2
  {
    if r1.Err? {
      SlotFailureIsLast(app, image, metaBase, next, failure, capacity, f0, r1, done1, r2, done2);
    }
    if r2.Err? {
      SlotFailureIsLast(app, image, metaBase, next, failure, capacity, f0, r2, done2, r1, done1);
    }
    SameResult(r1, r2);
  }

  /** The outcome of `ota_begin` is fixed by the device and the stream it
      starts from: two results that meet it are the same result after the
      same steps. */
  lemma BeginOutcomeUnique<E>(table: seq<TableRow>, mem: seq<byte>, image: seq<byte>, failure: Option<E>, f0: Option<nat>,
                              r1: Result<(), UpdateError<E>>, done1: seq<Op>, r2: Result<(), UpdateError<E>>, done2: seq<Op>)
    requires BeginOutcome(table, mem, image, failure, f0, r1, done1)
    requires BeginOutcome(table, mem, image, failure, f0, r2, done2)
    ensures r1 == r2 && done1 == done2
  {
    var current := StoredRecord(table, mem);
    if current.Ok? && IsValid(current.value) && TargetPartition(table, current.value).Ok? {
      SlotOutcomeUnique(TargetPartition(table, current.value).value, image, MetadataPartition(table).value.offset,
                        NewRecord(current.value), failure, |mem|, f0, r1, done1, r2, done2);
    }
  }

  /** With a stream that does not fail and a device that does not fault and
      holds both the target partition and the metadata sectors, an update
      succeeds exactly when the image fits the partition; an image that
      fills it exactly is accepted. */
  lemma CleanUpdateSucceeds<E>(app: Entry, image: seq<byte>, metaBase: nat, next: OtaRecord, capacity: nat,
                               r: Result<(), UpdateError<E>>, done: seq<Op>)
    requires Fits(next)
    requires app.offset + app.size <= capacity && metaBase + 2 * SECTOR_SIZE <= capacity
    requires SlotOutcome(app, image, metaBase, next, None, capacity, None, r, done)
    ensures r.Ok? <==> |image| <= app.size
  {
    var n := ChunkCount(|image|);
    if |image| <= app.size && r.Err? && 0 < |done| {
      if |done| <= n {
        TickNever(|done| - 1);
        CleanChunksFit<E>(image, app.offset, app.size, capacity, |done|);
      } else {
        TickNever(n);
        TickNever(|done| - (1 + n));
        assert InBounds(capacity, MetadataScript(metaBase, Encode(next))[|done| - (1 + n)]);
      }
    }
  }

  /** `ota_begin` from a readable, accepted record whose target slot exists,
      with a stream that does not fail and a device that does not fault and
      holds the slot and the metadata sectors, succeeds exactly when the
      image fits the slot. */
  lemma BeginCleanSucceeds<E>(table: seq<TableRow>, mem: seq<byte>, image: seq<byte>,
                              r: Result<(), UpdateError<E>>, done: seq<Op>)
    requires StoredRecord(table, mem).Ok? && IsValid(StoredRecord(table, mem).value)
    requires TargetPartition(table, StoredRecord(table, mem).value).Ok?
    requires var app := TargetPartition(table, StoredRecord(table, mem).value).value;
             app.offset + app.size <= |mem| && MetadataPartition(table).value.offset + 2 * SECTOR_SIZE <= |mem|
    requires BeginOutcome(table, mem, image, None, None, r, done)
    ensures r.Ok? <==> |image| <= TargetPartition(table, StoredRecord(table, mem).value).value.size
  {
    var current := StoredRecord(table, mem).value;
    CleanUpdateSucceeds(TargetPartition(table, current).value, image, MetadataPartition(table).value.offset,
                        NewRecord(current), |mem|, r, done);
  }

  // ---------------------------------------------------------------------
  // ota_accept, ota_reject, ota_is_valid (src/lib.rs:108-129)

  /** The metadata write that marks the stored record with `state`. */
  function MarkScript(table: seq<TableRow>, current: OtaRecord, state: OtaState): seq<Op>
    requires MetadataPartition(table).Ok? && Fits(current)
  {
    MetadataScript(MetadataPartition(table).value.offset, Encode(Marked(current, state)))
  }

  /** What marking the record with `state` does, stated over the device it
      started from (its bytes `mem` and fault countdown `f0`): a record that
      cannot be read ends the call before any erase or write; otherwise the
      device runs a prefix of the marked record's write, all of it exactly
      when the call succeeds, every step it ran succeeded, and a failure is
      the device's answer to the next step. */
  ghost predicate MarkOutcome(table: seq<TableRow>, mem: seq<byte>, state: OtaState, f0: Option<nat>,
                              r: Result<(), InternalError>, done: seq<Op>)
  {
    var current := StoredRecord(table, mem);
    if current.Err? then r == Err(current.error) && done == []
    else
      var script := MarkScript(table, current.value, state);
      && IsPrefix(done, script)
      && (r.Ok? <==> done == script)
      && Succeeds(|mem|, f0, script, |done|)
      && (|done| < 4 ==> var answer := OpResult(|mem|, TickN(f0, |done|), script[|done|]);
                         answer.Err? && r == Err(FlashFailure(answer.error)))
  }

  /** A mark that stopped after k metadata steps meets the outcome when
      each of them succeeded and the result is the device's answer to the
      next one, or success after all four. */
  lemma PartialMark(table: seq<TableRow>, mem: seq<byte>, state: OtaState, f0: Option<nat>,
                    r: Result<(), InternalError>, k: nat)
    requires StoredRecord(table, mem).Ok? && k <= 4
    requires Succeeds(|mem|, f0, MarkScript(table, StoredRecord(table, mem).value, state), k)
    requires r.Ok? <==> k == 4
    requires k < 4 ==> var answer := OpResult(|mem|, TickN(f0, k), MarkScript(table, StoredRecord(table, mem).value, state)[k]);
                       answer.Err? && r == Err(FlashFailure(answer.error))
    ensures MarkOutcome(table, mem, state, f0, r, MarkScript(table, StoredRecord(table, mem).value, state)[..k])
  {
    var script := MarkScript(table, StoredRecord(table, mem).value, state);
    assert script[..4] == script;
  }

  /** Marking a second time with the same state finds the marked record and
      writes the same bytes, so the device does not change. */
  lemma MarkTwiceIsMarkOnce(table: seq<TableRow>, mem: seq<byte>, state: OtaState)
    requires StoredRecord(table, mem).Ok?
    requires MetadataPartition(table).value.offset + 2 * SECTOR_SIZE <= |mem|
    ensures var current := StoredRecord(table, mem).value;
            var once := ApplyAll(mem, MarkScript(table, current, state));
            && StoredRecord(table, once) == Ok(Marked(current, state))
            && ApplyAll(once, MarkScript(table, Marked(current, state), state)) == once
  {
    var current := StoredRecord(table, mem).value;
    var base := MetadataPartition(table).value.offset;
    var script := MarkScript(table, current, state);
    assert script[..4] == script;
    ScriptInBounds(mem, base, Encode(Marked(current, state)));
    ReadAfterWrite(table, mem, Marked(current, state), 4);
    MarkedIdempotent(current, state);
    WriteIdempotent(mem, base, Encode(Marked(current, state)));
  }

  /** A successful mark whose steps all lay on the device leaves the marked
      record in the store, and marking it again with the same state leaves
      the device unchanged. */
  lemma MarkSettles(table: seq<TableRow>, mem: seq<byte>, state: OtaState, f0: Option<nat>,
                    r: Result<(), InternalError>, done: seq<Op>)
    requires MarkOutcome(table, mem, state, f0, r, done) && r.Ok?
    requires AllInBounds(|mem|, done)
    ensures StoredRecord(table, mem).Ok?
    ensures var current := StoredRecord(table, mem).value;
            var after := ApplyAll(mem, done);
            && StoredRecord(table, after) == Ok(Marked(current, state))
            && ApplyAll(after, MarkScript(table, Marked(current, state), state)) == after
  {
    var current := StoredRecord(table, mem).value;
    var script := MarkScript(table, current, state);
    assert done == script;
    assert InBounds(|mem|, script[2]);
    MarkTwiceIsMarkOnce(table, mem, state);
  }

  /** The outcome of marking is fixed by the device it starts from: two
      results that meet it are the same result after the same steps. */
  lemma MarkOutcomeUnique(table: seq<TableRow>, mem: seq<byte>, state: OtaState, f0: Option<nat>,
                          r1: Result<(), InternalError>, done1: seq<Op>, r2: Result<(), InternalError>, done2: seq<Op>)
    requires MarkOutcome(table, mem, state, f0, r1, done1)
    requires MarkOutcome(table, mem, state, f0, r2, done2)
    ensures r1 == r2 && done1 == done2
  {
    var current := StoredRecord(table, mem);
    if current.Ok? {
      var script := MarkScript(table, current.value, state);
      if |done1| < |done2| {
        SucceedsBelow(|mem|, f0, script, |done2|, |done1|);
      }
      if |done2| < |done1| {
        SucceedsBelow(|mem|, f0, script, |done1|, |done2|);
      }
      SameResult(r1, r2);
    }
  }

  /** Marking a readable record on a device that does not fault and holds
      both metadata sectors succeeds, whatever state the record is in. */
  lemma MarkCleanSucceeds(table: seq<TableRow>, mem: seq<byte>, state: OtaState, r: Result<(), InternalError>, done: seq<Op>)
    requires StoredRecord(table, mem).Ok?
    requires MetadataPartition(table).value.offset + 2 * SECTOR_SIZE <= |mem|
    requires MarkOutcome(table, mem, state, None, r, done)
    ensures r.Ok?
  {
    if r.Err? {
      TickNever(|done|);
      assert InBounds(|mem|, MarkScript(table, StoredRecord(table, mem).value, state)[|done|]);
    }
  }
}
