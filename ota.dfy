/** The update protocol (src/lib.rs) as it runs against a device:
    `ota_begin` copies a new image into the inactive application slot and
    then points the metadata record at it; `ota_accept` and `ota_reject`
    rewrite the record's state; `ota_is_valid` reports it. Each method is
    tied to the plan `OtaPlan` states for it. */
module Ota {
  import opened OtaErrors
  import opened Partitions
  import opened Flash
  import opened OtaRecordCodec
  import opened OtaDataStore
  import opened ImageStream
  import opened OtaPlan

  // ---------------------------------------------------------------------
  // What a call did to the device

  /** Starting from memory `mem0` and trace `trace0`, the device has run
      exactly the erases and writes `done`, each of them on the device, and
      its memory is what they leave. */
  ghost predicate Ran(s: Storage, mem0: seq<byte>, trace0: seq<Op>, done: seq<Op>)
    reads s, s.mem
  {
    s.trace == trace0 + done && s.mem[..] == ApplyAll(mem0, done) && AllInBounds(s.mem.Length, done)
  }

  /** Erases and writes that completed after a run extend it. */
  lemma RanMore(s: Storage, mem0: seq<byte>, trace0: seq<Op>, done: seq<Op>,
                prevTrace: seq<Op>, prevMem: seq<byte>, added: seq<Op>)
    requires prevTrace == trace0 + done && prevMem == ApplyAll(mem0, done)
    requires s.trace == prevTrace + added && s.mem[..] == ApplyAll(prevMem, added)
    requires AllInBounds(s.mem.Length, done) && AllInBounds(s.mem.Length, added)
    ensures Ran(s, mem0, trace0, done + added)
  {
    assert trace0 + (done + added) == prevTrace + added;
    ApplyAllConcat(mem0, done, added);
    assert forall k :: 0 <= k < |done + added| ==>
             (done + added)[k] == if k < |done| then done[k] else added[k - |done|];
  }

  // ---------------------------------------------------------------------
  // Copying the image (src/lib.rs:59-94)

  function Min(a: nat, b: nat): nat
  {
    if a <= b then a else b
  }

  /** One pass of the outer loop of `ota_begin` up to the write: a fresh
      sector-sized buffer is read into until it is full or the stream ends.
      Whatever sizes the individual reads return, the buffer ends up holding
      the next min(SECTOR_SIZE, remaining) bytes, which are returned with
      the end-of-stream flag; a failing stream reports its error if it runs
      dry first. */
  method FillBuffer<E>(src: ImageSource<E>) returns (r: Result<(seq<byte>, bool), E>)
    modifies src`remaining
    ensures r.Err? <==> |old(src.remaining)| < SECTOR_SIZE && src.failure.Some?
    ensures r.Err? ==> r.error == src.failure.value
    ensures r.Ok? ==>
              var (data, isDone) := r.value;
              && data == old(src.remaining)[..Min(SECTOR_SIZE, |old(src.remaining)|)]
              && src.remaining == old(src.remaining)[|data|..]
              && (isDone <==> |data| < SECTOR_SIZE)
  {
    var buffer := new byte[SECTOR_SIZE](_ => 0);
    var readLen: nat := 0;
    while readLen < SECTOR_SIZE
      invariant readLen <= SECTOR_SIZE && readLen <= |old(src.remaining)|
      invariant buffer[..readLen] == old(src.remaining)[..readLen]
      invariant src.remaining == old(src.remaining)[readLen..]
      decreases SECTOR_SIZE - readLen
    {
      var read := src.Read(buffer, readLen);
      if read.Err? {
        return Err(read.error);
      }
      if read.value == 0 {
        return Ok((buffer[..readLen], true));
      }
      assert buffer[..readLen + read.value] == buffer[..readLen] + buffer[readLen..readLen + read.value];
      readLen := readLen + read.value;
    }
    return Ok((buffer[..readLen], false));
  }

  /** The buffer filled at the start of chunk w holds exactly chunk w, and it
      is short exactly when it is the last chunk. */
  lemma FilledChunk(image: seq<byte>, w: nat, readLen: nat)
    requires SECTOR_SIZE * w <= |image|
    requires readLen == Min(SECTOR_SIZE, |image| - SECTOR_SIZE * w)
    ensures w < ChunkCount(|image|)
    ensures readLen < SECTOR_SIZE <==> w == ChunkCount(|image|) - 1
    ensures ChunkEnd(|image|, w) == SECTOR_SIZE * w + readLen
    ensures image[SECTOR_SIZE * w..][..readLen] == Chunk(image, w)
  {
  }

  /** The device has run the first w chunk writes, all of them
      successfully, starting from memory `mem0`, trace `trace0` and fault
      countdown `f0`. */
  ghost predicate Copied(s: Storage, mem0: seq<byte>, trace0: seq<Op>, f0: Option<nat>,
                         offset: nat, image: seq<byte>, w: nat)
    reads s, s.mem
  {
    && w <= ChunkCount(|image|)
    && s.trace == trace0 + ChunkWrites(offset, image, w)
    && s.mem[..] == ApplyAll(mem0, ChunkWrites(offset, image, w))
    && s.faultAfter == TickN(f0, w)
  }

  /** One more chunk written extends the run. */
  lemma CopiedOneMore(s: Storage, mem0: seq<byte>, trace0: seq<Op>, f0: Option<nat>,
                      offset: nat, image: seq<byte>, w: nat,
                      prevMem: seq<byte>, prevTrace: seq<Op>, prevFault: Option<nat>)
    requires w < ChunkCount(|image|)
    requires prevTrace == trace0 + ChunkWrites(offset, image, w)
    requires prevMem == ApplyAll(mem0, ChunkWrites(offset, image, w))
    requires prevFault == TickN(f0, w)
    requires s.trace == prevTrace + [ChunkWrite(offset, image, w)]
    requires s.mem[..] == Apply(prevMem, ChunkWrite(offset, image, w))
    requires s.faultAfter == Tick(prevFault)
    ensures Copied(s, mem0, trace0, f0, offset, image, w + 1)
  {
    ApplyAllSnoc(mem0, ChunkWrites(offset, image, w), ChunkWrite(offset, image, w));
    assert trace0 + ChunkWrites(offset, image, w + 1) == prevTrace + [ChunkWrite(offset, image, w)];
  }

  /** One pass of the copy loop: fill a buffer, refuse it if it would run
      past the partition, write it. With `image` the whole stream and
      `written` the chunks already copied, the pass copies chunk `written`
      exactly when its verdict is no failure, and otherwise reports that
      failure and leaves the device as it was. */
  method CopyChunk<E>(s: Storage, src: ImageSource<E>, offset: nat, size: nat,
                      ghost image: seq<byte>, ghost written: nat, dataWritten: nat)
    returns (r: Result<(nat, bool), UpdateError<E>>)
    requires written < ChunkCount(|image|) && dataWritten == SECTOR_SIZE * written
    requires src.remaining == image[dataWritten..]
    modifies s`trace, s`faultAfter, s.mem, src`remaining
    ensures var verdict := ChunkVerdict(image, src.failure, offset, size, s.mem.Length, old(s.faultAfter), written);
            && (r.Err? <==> verdict.Some?)
            && (r.Err? ==> r.error == verdict.value &&
                           s.trace == old(s.trace) && s.mem[..] == old(s.mem[..]) && s.faultAfter == old(s.faultAfter))
    ensures r.Ok? ==>
              var (readLen, isDone) := r.value;
              && dataWritten + readLen == ChunkEnd(|image|, written)
              && (isDone <==> written == ChunkCount(|image|) - 1)
              && (isDone ==> src.remaining == [])
              && src.remaining == image[dataWritten + readLen..]
              && s.trace == old(s.trace) + [ChunkWrite(offset, image, written)]
              && s.mem[..] == Apply(old(s.mem[..]), ChunkWrite(offset, image, written))
              && s.faultAfter == Tick(old(s.faultAfter))
  {
    var filled := FillBuffer(src);
    if filled.Err? {
      FilledChunk(image, written, |image| - dataWritten);
      return Err(ReadError(filled.error));
    }
    var (chunk, isDone) := filled.value;
    var readLen := |chunk|;
    FilledChunk(image, written, readLen);
    assert chunk == Chunk(image, written);

    if dataWritten + readLen > size {
      return Err(OutOfSpace);
    }

    var e := s.Write(offset + dataWritten, chunk);
    if e.Err? {
      return Err(Internal(FlashFailure(e.error)));
    }
    return Ok((readLen, isDone));
  }

  /** The copy loop of `ota_begin` (`data_written` is `dataWritten`). It
      writes the image's chunks in order, reports the running total after
      each, and stops at the first chunk whose verdict is a failure;
      `written` counts the chunks written. */
  method CopyImage<E>(s: Storage, src: ImageSource<E>, offset: nat, size: nat)
    returns (r: Result<(), UpdateError<E>>, progress: seq<nat>, ghost written: nat)
    modifies s`trace, s`faultAfter, s.mem, src`remaining
    ensures var image := old(src.remaining);
            && Copied(s, old(s.mem[..]), old(s.trace), old(s.faultAfter), offset, image, written)
            && progress == Progress(image, written)
            && AllClear(image, src.failure, offset, size, s.mem.Length, old(s.faultAfter), written)
            && (r.Ok? <==> written == ChunkCount(|image|))
            && (r.Ok? ==> src.remaining == [])
            && (r.Err? ==> ChunkVerdict(image, src.failure, offset, size, s.mem.Length, s.faultAfter, written) == Some(r.error))
  {
    ghost var image := src.remaining;
    ghost var n := ChunkCount(|image|);
    ghost var mem0, trace0, f0 := s.mem[..], s.trace, s.faultAfter;
    var dataWritten: nat := 0;
    progress := [];
    written := 0;
    while true
      invariant written < n && dataWritten == SECTOR_SIZE * written
      invariant src.remaining == image[dataWritten..]
      invariant Copied(s, mem0, trace0, f0, offset, image, written)
      invariant progress == Progress(image, written)
      invariant AllClear(image, src.failure, offset, size, s.mem.Length, f0, written)
      decreases n - written
    {
      ghost var m, t, f := s.mem[..], s.trace, s.faultAfter;
      var copied := CopyChunk(s, src, offset, size, image, written, dataWritten);
      if copied.Err? {
        return Err(copied.error), progress, written;
      }
      var (readLen, isDone) := copied.value;
      CopiedOneMore(s, mem0, trace0, f0, offset, image, written, m, t, f);
      dataWritten := dataWritten + readLen;
      progress := progress + [dataWritten];
      written := written + 1;
      if isDone {
        return Ok(()), progress, written;
      }
    }
  }

  /** What the progress callback saw and what is left of the stream, once
      the device has run the steps `done`: the running total after each
      chunk written among them, every chunk and an empty stream on success,
      and a read error only from a failing stream. */
  ghost predicate Streamed<E>(image: seq<byte>, failure: Option<E>, remaining: seq<byte>,
                              progress: seq<nat>, r: Result<(), UpdateError<E>>, done: seq<Op>)
  {
    && |progress| == ChunksWritten(|image|, done) && progress == Progress(image, |progress|)
    && (r.Ok? ==> remaining == [] && |progress| == ChunkCount(|image|))
    && (r.Err? && r.error.ReadError? ==> failure == Some(r.error.readError))
  }

  /** A call that fails before erasing or reading anything reports nothing. */
  lemma NothingStreamed<E>(image: seq<byte>, failure: Option<E>, r: Result<(), UpdateError<E>>)
    requires r.Err? && !r.error.ReadError?
    ensures Streamed(image, failure, image, [], r, [])
  {
  }

  // ---------------------------------------------------------------------
  // ota_begin (src/lib.rs:29-101)

  /** The erase and the copy loop of `ota_begin`, into partition `app`. */
  method EraseAndCopy<E>(s: Storage, src: ImageSource<E>, app: Entry)
    returns (r: Result<(), UpdateError<E>>, progress: seq<nat>, ghost done: seq<Op>)
    modifies s`trace, s`faultAfter, s.mem, src`remaining
    ensures Ran(s, old(s.mem[..]), old(s.trace), done)
    ensures CopyOutcome(app, old(src.remaining), src.failure, s.mem.Length, old(s.faultAfter), r, done)
    ensures Streamed(old(src.remaining), src.failure, src.remaining, progress, r, done)
    ensures r.Ok? ==> s.faultAfter == TickN(Tick(old(s.faultAfter)), ChunkCount(|old(src.remaining)|))
  {
    progress := [];
    done := [];
    ghost var mem0, trace0, image, f0 := s.mem[..], s.trace, src.remaining, s.faultAfter;
    ghost var erase := [EraseOp(app.offset, app.offset + app.size)];

    ghost var t, m := s.trace, s.mem[..];
    var erased := s.Erase(app.offset, app.offset + app.size);
    if erased.Err? {
      r := Err(Internal(FlashFailure(erased.error)));
      NothingCopied(app, image, src.failure, s.mem.Length, f0, r);
      NothingStreamed(image, src.failure, r);
      return r, progress, done;
    }
    RanMore(s, mem0, trace0, done, t, m, erase);
    done := erase;

    t, m := s.trace, s.mem[..];
    ghost var f := s.faultAfter;
    ghost var written;
    r, progress, written := CopyImage(s, src, app.offset, app.size);
    AllClearInside(image, src.failure, app.offset, app.size, s.mem.Length, f, written);
    RanMore(s, mem0, trace0, done, t, m, ChunkWrites(app.offset, image, written));
    done := done + ChunkWrites(app.offset, image, written);
    PartialCopy(app, image, src.failure, s.mem.Length, f0, r, written);
  }

  /** The part of `ota_begin` after the target partition `app` is known:
      erase it, copy the image, then write `next` as the new record. */
  method FlashUpdate<E>(s: Storage, src: ImageSource<E>, app: Entry, next: OtaRecord)
    returns (r: Result<(), UpdateError<E>>, progress: seq<nat>, ghost done: seq<Op>)
    requires MetadataPartition(s.table).Ok? && Fits(next)
    modifies s`trace, s`faultAfter, s.mem, src`remaining
    ensures Ran(s, old(s.mem[..]), old(s.trace), done)
    ensures SlotOutcome(app, old(src.remaining), MetadataPartition(s.table).value.offset, next,
                        src.failure, s.mem.Length, old(s.faultAfter), r, done)
    ensures Streamed(old(src.remaining), src.failure, src.remaining, progress, r, done)
    ensures r.Ok? && next.seqNo < U32_MAX ==> StoredRecord(s.table, s.mem[..]) == Ok(next)
  {
    ghost var mem0, trace0, image, f0 := s.mem[..], s.trace, src.remaining, s.faultAfter;
    ghost var metaBase := MetadataPartition(s.table).value.offset;
    ghost var n := ChunkCount(|image|);
    ghost var script := MetadataScript(metaBase, Encode(next));

    r, progress, done := EraseAndCopy(s, src, app);
    if r.Err? {
      FailedCopyIsFailedUpdate(app, image, metaBase, next, src.failure, s.mem.Length, f0, r, done);
    } else {
      // Point the metadata record at the new image.
      ghost var t, m := s.trace, s.mem[..];
      var recorded;
      ghost var steps;
      recorded, steps := WriteOtaData(s, next);
      assert AllInBounds(s.mem.Length, script[..steps]);
      RanMore(s, mem0, trace0, done, t, m, script[..steps]);
      done := done + script[..steps];
      if recorded.Err? {
        r := Err(Internal(recorded.error));
      }
      PartialUpdate(app, image, metaBase, next, src.failure, s.mem.Length, f0, r, steps);
      if r.Ok? && next.seqNo < U32_MAX {
        assert InBounds(s.mem.Length, script[2]);
        PlanPrefix(app, image, metaBase, next, n, 4);
        PlanLeavesNewRecord(s.table, mem0, app, image, next);
      }
    }
  }

  /** `ota_begin` once the guard is held: check the stored record, find the
      target slot, then erase it, copy the image and write the new record. */
  method BeginUpdate<E>(s: Storage, src: ImageSource<E>)
    returns (r: Result<(), UpdateError<E>>, progress: seq<nat>, ghost done: seq<Op>)
    modifies s`trace, s`readLog, s`faultAfter, s.mem, src`remaining
    ensures r != Err(AlreadyUpdating)
    ensures Ran(s, old(s.mem[..]), old(s.trace), done)
    ensures BeginOutcome(s.table, old(s.mem[..]), old(src.remaining), src.failure, old(s.faultAfter), r, done)
    ensures Streamed(old(src.remaining), src.failure, src.remaining, progress, r, done)
    ensures r.Ok? && StoredRecord(s.table, old(s.mem[..])).value.seqNo + 1 < U32_MAX ==>
              StoredRecord(s.table, s.mem[..]) == Ok(NewRecord(StoredRecord(s.table, old(s.mem[..])).value))
  {
    progress := [];
    done := [];
    ghost var mem0, image, f0 := s.mem[..], src.remaining, s.faultAfter;

    // The running image must have been accepted.
    var read := ReadOtaData(s);
    if read.Err? {
      r := Err(Internal(read.error));
    } else if !IsValid(read.value) {
      r := Err(UpdateError.PendingVerify);
    } else {
      // The slot the next sequence number selects.
      var current := read.value;
      var newSeq := current.seqNo + 1;
      var newPart := (newSeq - 1) % 2;
      var found := FindPartitionByType(s.table, App(OtaSlot(newPart)));
      if found.Err? {
        r := Err(Internal(found.error));
      } else {
        r, progress, done := FlashUpdate(s, src, found.value, NewRecord(current));
        BeginReachedSlot(s.table, mem0, image, src.failure, f0, current, found.value, s.mem.Length, r, done);
        return;
      }
    }
    NothingStreamed(image, src.failure, r);
    BeginRefused(s.table, mem0, image, src.failure, f0, r);
  }

  /** The `IS_UPDATING` guard and `ota_begin`. */
  class OtaUpdater {
    /** Set by the first `ota_begin` and never cleared, whatever its outcome. */
    var isUpdating: bool

    constructor ()
      ensures !isUpdating
    {
      isUpdating := false;
    }

    /** `ota_begin`: `src` is the image stream, `progress` the values handed
        to the progress callback, `done` the erases and writes the device
        ran. */
    method OtaBegin<E>(s: Storage, src: ImageSource<E>)
      returns (r: Result<(), UpdateError<E>>, progress: seq<nat>, ghost done: seq<Op>)
      modifies this`isUpdating, s`trace, s`readLog, s`faultAfter, s.mem, src`remaining
      ensures isUpdating
      ensures r == Err(AlreadyUpdating) <==> old(isUpdating)
      ensures old(isUpdating) ==> s.trace == old(s.trace) && s.readLog == old(s.readLog) &&
                                  src.remaining == old(src.remaining) && progress == []
      ensures Ran(s, old(s.mem[..]), old(s.trace), done)
      ensures !old(isUpdating) ==>
                BeginOutcome(s.table, old(s.mem[..]), old(src.remaining), src.failure, old(s.faultAfter), r, done)
      ensures Streamed(old(src.remaining), src.failure, src.remaining, progress, r, done)
      ensures r.Ok? && StoredRecord(s.table, old(s.mem[..])).value.seqNo + 1 < U32_MAX ==>
                StoredRecord(s.table, s.mem[..]) == Ok(NewRecord(StoredRecord(s.table, old(s.mem[..])).value))
    {
      var wasUpdating := isUpdating;
      isUpdating := true;
      if wasUpdating {
        r := Err(AlreadyUpdating);
        NothingStreamed(src.remaining, src.failure, r);
        assert s.trace + [] == s.trace;
        return r, [], [];
      }
      r, progress, done := BeginUpdate(s, src);
    }
  }

  // ---------------------------------------------------------------------
  // ota_accept, ota_reject, ota_is_valid (src/lib.rs:108-129)

  /** Read the record, replace its state, write it back. */
  method Mark(s: Storage, state: OtaState) returns (r: Result<(), InternalError>, ghost done: seq<Op>)
    modifies s`trace, s`readLog, s`faultAfter, s.mem
    ensures Ran(s, old(s.mem[..]), old(s.trace), done)
    ensures MarkOutcome(s.table, old(s.mem[..]), state, old(s.faultAfter), r, done)
    ensures r.Ok? ==> StoredRecord(s.table, s.mem[..]) == Ok(Marked(StoredRecord(s.table, old(s.mem[..])).value, state))
  {
    done := [];
    ghost var mem0, trace0, f0 := s.mem[..], s.trace, s.faultAfter;
    var read := ReadOtaData(s);
    if read.Err? {
      return Err(read.error), done;
    }
    var record := read.value.(state := state);
    ghost var t, m := s.trace, s.mem[..];
    var written;
    ghost var steps;
    written, steps := WriteOtaData(s, record);
    ghost var script := MarkScript(s.table, read.value, state);
    assert AllInBounds(s.mem.Length, script[..steps]);
    RanMore(s, mem0, trace0, done, t, m, script[..steps]);
    done := script[..steps];
    PartialMark(s.table, mem0, state, f0, written, steps);
    if written.Ok? {
      assert script[..4] == script;
      ReadAfterWrite(s.table, mem0, record, 4);
    }
    return written, done;
  }

  /** `ota_accept`: afterwards the stored record is valid, with its sequence
      number and reserved field unchanged. */
  method OtaAccept(s: Storage) returns (r: Result<(), InternalError>, ghost done: seq<Op>)
    modifies s`trace, s`readLog, s`faultAfter, s.mem
    ensures Ran(s, old(s.mem[..]), old(s.trace), done)
    ensures MarkOutcome(s.table, old(s.mem[..]), Valid, old(s.faultAfter), r, done)
    ensures r.Ok? ==> StoredRecord(s.table, s.mem[..]) == Ok(Marked(StoredRecord(s.table, old(s.mem[..])).value, Valid))
  {
    r, done := Mark(s, Valid);
  }

  /** `ota_reject`: afterwards the stored record is Invalid, with its
      sequence number and reserved field unchanged. */
  method OtaReject(s: Storage) returns (r: Result<(), InternalError>, ghost done: seq<Op>)
    modifies s`trace, s`readLog, s`faultAfter, s.mem
    ensures Ran(s, old(s.mem[..]), old(s.trace), done)
    ensures MarkOutcome(s.table, old(s.mem[..]), Invalid, old(s.faultAfter), r, done)
    ensures r.Ok? ==> StoredRecord(s.table, s.mem[..]) == Ok(Marked(StoredRecord(s.table, old(s.mem[..])).value, Invalid))
  {
    r, done := Mark(s, Invalid);
  }

  /** `ota_is_valid`: whether the stored record is valid; only reads. */
  method OtaIsValid(s: Storage) returns (r: Result<bool, InternalError>)
    modifies s`readLog
    ensures Ran(s, old(s.mem[..]), old(s.trace), [])
    ensures var current := StoredRecord(s.table, s.mem[..]);
            && (r.Ok? <==> current.Ok?)
            && (r.Ok? ==> r.value == IsValid(current.value))
            && (r.Err? ==> r.error == current.error)
  {
    var read := ReadOtaData(s);
    if read.Err? {
      return Err(read.error);
    }
    return Ok(IsValid(read.value));
  }

}
