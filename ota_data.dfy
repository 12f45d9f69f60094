/** The redundant OTA metadata store (src/ota_data.rs).

    The record is kept twice in the OTA data partition: copy A at the
    partition's base and copy B one sector further. A read takes copy A if
    it decodes and falls back to copy B otherwise; a write erases and writes
    copy A, then erases and writes copy B. */
module OtaDataStore {
  import opened OtaErrors
  import opened Partitions
  import opened Flash
  import opened OtaRecordCodec

  /** Size of a flash sector (src/lib.rs:20). */
  const SECTOR_SIZE: nat := 0x1000

  /** The OTA data partition, located by type on every access. */
  function MetadataPartition(table: seq<TableRow>): Result<Entry, InternalError>
  {
    Lookup(table, ByType(Data(OtaData)))
  }

  /** Reading and decoding the 32 bytes at `at`: a read outside the device
      is a storage error, bytes that do not decode are corrupt. */
  function RecordAt(mem: seq<byte>, at: nat): Result<OtaRecord, InternalError>
  {
    if at + RECORD_SIZE > |mem| then Err(FlashFailure(OutOfBounds))
    else match Decode(mem[at..at + RECORD_SIZE])
      case Ok(d) => Ok(d)
      case Err(_) => Err(OtaDataCorrupt)
  }

  /** What `read_ota_data` yields on a device holding `mem`. */
  function StoredRecord(table: seq<TableRow>, mem: seq<byte>): (r: Result<OtaRecord, InternalError>)
    ensures r.Ok? ==> MetadataPartition(table).Ok? && Fits(r.value) && r.value.seqNo < U32_MAX
  {
    match MetadataPartition(table)
    case Err(e) => Err(e)
    case Ok(p) =>
      var a := RecordAt(mem, p.offset);
      if a != Err(OtaDataCorrupt) then a else RecordAt(mem, p.offset + SECTOR_SIZE)
  }

  /** Copy A lies on the device and decodes. */
  predicate CopyADecodes(mem: seq<byte>, base: nat)
  {
    base + RECORD_SIZE <= |mem| && Decode(mem[base..base + RECORD_SIZE]).Ok?
  }

  /** read_ota_data. */
  method ReadOtaData(s: Storage) returns (r: Result<OtaRecord, InternalError>)
    modifies s`readLog
    ensures r == StoredRecord(s.table, s.mem[..])
    ensures MetadataPartition(s.table).Ok? ==>
              var base := MetadataPartition(s.table).value.offset;
              && (CopyADecodes(s.mem[..], base) ==> s.readLog == old(s.readLog) + [ReadOp(base, RECORD_SIZE)])
              && (base + SECTOR_SIZE + RECORD_SIZE <= s.mem.Length && !CopyADecodes(s.mem[..], base) ==>
                    s.readLog == old(s.readLog) + [ReadOp(base, RECORD_SIZE), ReadOp(base + SECTOR_SIZE, RECORD_SIZE)])
  {
    var part := FindPartitionByType(s.table, Data(OtaData));
    if part.Err? {
      return Err(part.error);
    }
    var base := part.value.offset;
    var buffer := s.Read(base, RECORD_SIZE);
    if buffer.Err? {
      return Err(FlashFailure(buffer.error));
    }
    var a := Decode(buffer.value);
    if a.Ok? {
      return Ok(a.value);
    }
    buffer := s.Read(base + SECTOR_SIZE, RECORD_SIZE);
    if buffer.Err? {
      return Err(FlashFailure(buffer.error));
    }
    var b := Decode(buffer.value);
    if b.Ok? {
      r := Ok(b.value);
    } else {
      r := Err(OtaDataCorrupt);
    }
  }

  /** The four storage operations of write_ota_data, in order. */
  function MetadataScript(base: nat, bytes: seq<byte>): (ops: seq<Op>)
    ensures |ops| == 4
  {
    [ EraseOp(base, base + SECTOR_SIZE), WriteOp(base, bytes),
      EraseOp(base + SECTOR_SIZE, base + 2 * SECTOR_SIZE), WriteOp(base + SECTOR_SIZE, bytes) ]
  }

  /** The fault countdown after n successful erases/writes. */
  function TickN(faultAfter: Option<nat>, n: nat): Option<nat>
  {
    if n == 0 then faultAfter else Tick(TickN(faultAfter, n - 1))
  }

  /** Each of the first k operations of `ops`, run in order, succeeds on a
      device of this size whose fault countdown stands at `f` before the
      first of them. */
  predicate Succeeds(capacity: nat, f: Option<nat>, ops: seq<Op>, k: nat)
    requires k <= |ops|
  {
    k == 0 || (Succeeds(capacity, f, ops, k - 1) && OpResult(capacity, TickN(f, k - 1), ops[k - 1]).Ok?)
  }

  /** Every operation before the k-th of a successful run succeeded. */
  lemma {:induction false} SucceedsBelow(capacity: nat, f: Option<nat>, ops: seq<Op>, k: nat, j: nat)
    requires j < k <= |ops| && Succeeds(capacity, f, ops, k)
    ensures OpResult(capacity, TickN(f, j), ops[j]).Ok?
    decreases k
  {
    if j < k - 1 {
      SucceedsBelow(capacity, f, ops, k - 1, j);
    }
  }

  /** The storage has run the first k operations of `script`, all of them
      successfully, starting from memory `mem0`, trace `trace0` and fault
      countdown `f0`. */
  ghost predicate RanSteps(s: Storage, mem0: seq<byte>, trace0: seq<Op>, f0: Option<nat>, script: seq<Op>, k: nat)
    reads s, s.mem
  {
    && k <= |script|
    && s.trace == trace0 + script[..k]
    && s.mem[..] == ApplyAll(mem0, script[..k])
    && s.faultAfter == TickN(f0, k)
    && Succeeds(s.mem.Length, f0, script, k)
    && (forall j :: 0 <= j < k ==> InBounds(s.mem.Length, script[j]))
  }

  /** One more successful operation extends the run. */
  lemma RanOneMore(s: Storage, mem0: seq<byte>, trace0: seq<Op>, f0: Option<nat>, script: seq<Op>, k: nat,
                   prevMem: seq<byte>, prevTrace: seq<Op>, prevFault: Option<nat>)
    requires k < |script|
    requires prevTrace == trace0 + script[..k] && prevMem == ApplyAll(mem0, script[..k]) && prevFault == TickN(f0, k)
    requires Succeeds(s.mem.Length, f0, script, k) && OpResult(s.mem.Length, prevFault, script[k]).Ok?
    requires forall j :: 0 <= j < k ==> InBounds(s.mem.Length, script[j])
    requires s.trace == prevTrace + [script[k]] && s.mem[..] == Apply(prevMem, script[k]) && s.faultAfter == Tick(prevFault)
    ensures RanSteps(s, mem0, trace0, f0, script, k + 1)
  {
    ApplyAllStep(mem0, script, k);
    assert script[..k + 1] == script[..k] + [script[k]];
  }

  /** write_ota_data. `steps` counts the operations of the script that
      completed: the script runs in order and stops at the first failure. */
  method WriteOtaData(s: Storage, d: OtaRecord) returns (r: Result<(), InternalError>, ghost steps: nat)
    requires Fits(d)
    modifies s`trace, s`faultAfter, s.mem
    ensures steps <= 4
    ensures MetadataPartition(s.table).Err? ==>
              r == Err(MetadataPartition(s.table).error) && steps == 0 && s.faultAfter == old(s.faultAfter) &&
              s.trace == old(s.trace) && s.mem[..] == old(s.mem[..])
    ensures MetadataPartition(s.table).Ok? ==>
              var script := MetadataScript(MetadataPartition(s.table).value.offset, Encode(d));
              && RanSteps(s, old(s.mem[..]), old(s.trace), old(s.faultAfter), script, steps)
              && (r.Ok? <==> steps == 4)
              && (steps < 4 ==> OpResult(s.mem.Length, s.faultAfter, script[steps]).Err? &&
                                r == Err(FlashFailure(OpResult(s.mem.Length, s.faultAfter, script[steps]).error)))
  {
    var part := FindPartitionByType(s.table, Data(OtaData));
    if part.Err? {
      return Err(part.error), 0;
    }
    var base := part.value.offset;
    var buffer := Encode(d);
    ghost var script := MetadataScript(base, buffer);
    ghost var mem0, trace0, f0 := s.mem[..], s.trace, s.faultAfter;
    assert script[..0] == [];
    assert RanSteps(s, mem0, trace0, f0, script, 0);

    // Write sector A
    var e;
    e, steps := WriteCopy(s, base, buffer, script, 0, mem0, trace0, f0);
    if e.Err? {
      return Err(FlashFailure(e.error)), steps;
    }

    // Write sector B
    e, steps := WriteCopy(s, base + SECTOR_SIZE, buffer, script, 2, mem0, trace0, f0);
    if e.Err? {
      return Err(FlashFailure(e.error)), steps;
    }
    return Ok(()), 4;
  }

  /** Operations k and k + 1 of `script`: erase the sector at `at`, then
      write `buffer` at its start; stops at the first failure. */
  method WriteCopy(s: Storage, at: nat, buffer: seq<byte>, ghost script: seq<Op>, ghost k: nat,
                   ghost mem0: seq<byte>, ghost trace0: seq<Op>, ghost f0: Option<nat>)
    returns (r: Result<(), FlashError>, ghost steps: nat)
    requires k + 2 <= |script|
    requires script[k] == EraseOp(at, at + SECTOR_SIZE) && script[k + 1] == WriteOp(at, buffer)
    requires RanSteps(s, mem0, trace0, f0, script, k)
    modifies s`trace, s`faultAfter, s.mem
    ensures k <= steps <= k + 2 && RanSteps(s, mem0, trace0, f0, script, steps)
    ensures r.Ok? <==> steps == k + 2
    ensures r.Err? ==> OpResult(s.mem.Length, s.faultAfter, script[steps]) == Err(r.error)
  {
    ghost var m, t, f := s.mem[..], s.trace, s.faultAfter;
    r := s.Erase(at, at + SECTOR_SIZE);
    if r.Err? {
      return r, k;
    }
    RanOneMore(s, mem0, trace0, f0, script, k, m, t, f);
    m, t, f := s.mem[..], s.trace, s.faultAfter;
    r := s.Write(at, buffer);
    if r.Err? {
      return r, k + 1;
    }
    RanOneMore(s, mem0, trace0, f0, script, k + 1, m, t, f);
    return r, k + 2;
  }

  // ---------------------------------------------------------------------
  // What a (possibly interrupted) write leaves on the device

  /** Byte i after the first k operations of the script: copy A's sector is
      erased by step 1 and holds the record from step 2; copy B's sector
      likewise at steps 3 and 4; nothing else changes. */
  function ScriptByte(mem: seq<byte>, base: nat, bytes: seq<byte>, k: nat, i: nat): byte
    requires i < |mem|
  {
    if base <= i < base + SECTOR_SIZE then
      if k == 0 then mem[i]
      else if k >= 2 && i < base + |bytes| then bytes[i - base]
      else ERASED
    else if base + SECTOR_SIZE <= i < base + 2 * SECTOR_SIZE then
      if k <= 2 then mem[i]
      else if k == 4 && i < base + SECTOR_SIZE + |bytes| then bytes[i - base - SECTOR_SIZE]
      else ERASED
    else mem[i]
  }

  lemma {:induction false} ScriptEffectAt(mem: seq<byte>, base: nat, bytes: seq<byte>, k: nat, i: nat)
    requires |bytes| <= SECTOR_SIZE && k <= 4 && i < |mem|
    requires forall j :: 0 <= j < k ==> InBounds(|mem|, MetadataScript(base, bytes)[j])
    ensures ApplyAll(mem, MetadataScript(base, bytes)[..k])[i] == ScriptByte(mem, base, bytes, k, i)
    decreases k
  {
    var script := MetadataScript(base, bytes);
    if k == 0 {
      assert script[..0] == [];
    } else {
      ScriptEffectAt(mem, base, bytes, k - 1, i);
      ApplyAllStep(mem, script, k - 1);
      ApplyAt(ApplyAll(mem, script[..k - 1]), script[k - 1], i);
    }
  }

  /** The device after the first k operations of the script, byte by byte. */
  function ScriptMem(mem: seq<byte>, base: nat, bytes: seq<byte>, k: nat): (r: seq<byte>)
    ensures |r| == |mem|
  {
    seq(|mem|, i requires 0 <= i < |mem| => ScriptByte(mem, base, bytes, k, i))
  }

  /** Running the first k operations of the script leaves `ScriptMem`. */
  lemma ScriptEffect(mem: seq<byte>, base: nat, bytes: seq<byte>, k: nat)
    requires |bytes| <= SECTOR_SIZE && k <= 4
    requires forall j :: 0 <= j < k ==> InBounds(|mem|, MetadataScript(base, bytes)[j])
    ensures ApplyAll(mem, MetadataScript(base, bytes)[..k]) == ScriptMem(mem, base, bytes, k)
  {
    var after := ApplyAll(mem, MetadataScript(base, bytes)[..k]);
    forall i | 0 <= i < |mem| ensures after[i] == ScriptMem(mem, base, bytes, k)[i] {
      ScriptEffectAt(mem, base, bytes, k, i);
    }
  }

  /** write_ota_data changes nothing outside the two metadata sectors, however
      far it gets. */
  lemma WriteStaysInMetadataSectors(mem: seq<byte>, base: nat, bytes: seq<byte>, k: nat, i: nat)
    requires |bytes| <= SECTOR_SIZE && k <= 4
    requires forall j :: 0 <= j < k ==> InBounds(|mem|, MetadataScript(base, bytes)[j])
    requires i < |mem| && !(base <= i < base + 2 * SECTOR_SIZE)
    ensures ApplyAll(mem, MetadataScript(base, bytes)[..k])[i] == mem[i]
  {
    ScriptEffectAt(mem, base, bytes, k, i);
  }

  /** The whole script stays on a device of this size: both sectors exist. */
  lemma ScriptInBounds(mem: seq<byte>, base: nat, bytes: seq<byte>)
    requires |bytes| <= SECTOR_SIZE && base + 2 * SECTOR_SIZE <= |mem|
    ensures forall j :: 0 <= j < 4 ==> InBounds(|mem|, MetadataScript(base, bytes)[j])
  {
  }

  /** From step 2 on, copy A holds the written bytes. */
  lemma CopyAInScriptMem(mem: seq<byte>, base: nat, bytes: seq<byte>, k: nat)
    requires |bytes| == RECORD_SIZE && 2 <= k <= 4 && base + SECTOR_SIZE <= |mem|
    ensures ScriptMem(mem, base, bytes, k)[base..base + RECORD_SIZE] == bytes
  {
    var after := ScriptMem(mem, base, bytes, k);
    forall i | 0 <= i < RECORD_SIZE ensures after[base..base + RECORD_SIZE][i] == bytes[i] {
      assert after[base + i] == ScriptByte(mem, base, bytes, k, base + i);
    }
  }

  lemma CopyAWritten(mem: seq<byte>, base: nat, bytes: seq<byte>, k: nat)
    requires |bytes| == RECORD_SIZE && 2 <= k <= 4
    requires forall j :: 0 <= j < k ==> InBounds(|mem|, MetadataScript(base, bytes)[j])
    ensures base + RECORD_SIZE <= |mem|
    ensures ApplyAll(mem, MetadataScript(base, bytes)[..k])[base..base + RECORD_SIZE] == bytes
  {
    assert InBounds(|mem|, MetadataScript(base, bytes)[0]);
    ScriptEffect(mem, base, bytes, k);
    CopyAInScriptMem(mem, base, bytes, k);
  }

  /** After step 4, copy B holds the written bytes too. */
  lemma CopyBInScriptMem(mem: seq<byte>, base: nat, bytes: seq<byte>)
    requires |bytes| == RECORD_SIZE && base + 2 * SECTOR_SIZE <= |mem|
    ensures ScriptMem(mem, base, bytes, 4)[base + SECTOR_SIZE..base + SECTOR_SIZE + RECORD_SIZE] == bytes
  {
    var after := ScriptMem(mem, base, bytes, 4);
    var b := base + SECTOR_SIZE;
    forall i | 0 <= i < RECORD_SIZE ensures after[b..b + RECORD_SIZE][i] == bytes[i] {
      assert after[b + i] == ScriptByte(mem, base, bytes, 4, b + i);
    }
  }

  lemma CopyBWritten(mem: seq<byte>, base: nat, bytes: seq<byte>)
    requires |bytes| == RECORD_SIZE
    requires forall j :: 0 <= j < 4 ==> InBounds(|mem|, MetadataScript(base, bytes)[j])
    ensures base + SECTOR_SIZE + RECORD_SIZE <= |mem|
    ensures ApplyAll(mem, MetadataScript(base, bytes)[..4])[base + SECTOR_SIZE..base + SECTOR_SIZE + RECORD_SIZE] == bytes
  {
    assert InBounds(|mem|, MetadataScript(base, bytes)[2]);
    ScriptEffect(mem, base, bytes, 4);
    CopyBInScriptMem(mem, base, bytes);
  }

  /** After a complete write both copies hold the encoded record. */
  lemma BothCopiesWritten(mem: seq<byte>, base: nat, d: OtaRecord)
    requires Fits(d) && base + 2 * SECTOR_SIZE <= |mem|
    ensures var after := ApplyAll(mem, MetadataScript(base, Encode(d))[..4]);
            && after[base..base + RECORD_SIZE] == Encode(d)
            && after[base + SECTOR_SIZE..base + SECTOR_SIZE + RECORD_SIZE] == Encode(d)
  {
    ScriptInBounds(mem, base, Encode(d));
    CopyAWritten(mem, base, Encode(d), 4);
    CopyBWritten(mem, base, Encode(d));
  }

  /** Once copy A is written (step 2 onwards), a read returns the record,
      whether or not the write of copy B completed. */
  lemma ReadAfterWrite(table: seq<TableRow>, mem: seq<byte>, d: OtaRecord, k: nat)
    requires MetadataPartition(table).Ok?
    requires Fits(d) && d.seqNo < U32_MAX
    requires 2 <= k <= 4
    requires var base := MetadataPartition(table).value.offset;
             forall j :: 0 <= j < k ==> InBounds(|mem|, MetadataScript(base, Encode(d))[j])
    ensures var base := MetadataPartition(table).value.offset;
            StoredRecord(table, ApplyAll(mem, MetadataScript(base, Encode(d))[..k])) == Ok(d)
  {
    var base := MetadataPartition(table).value.offset;
    var after := ApplyAll(mem, MetadataScript(base, Encode(d))[..k]);
    CopyAWritten(mem, base, Encode(d), k);
    DecodeEncode(d);
    assert RecordAt(after, base) == Ok(d);
  }

  /** After step 1, copy A is erased and copy B is untouched. */
  lemma CopyAErased(mem: seq<byte>, base: nat, bytes: seq<byte>)
    requires |bytes| <= SECTOR_SIZE && base + SECTOR_SIZE <= |mem|
    ensures AllErased(ScriptMem(mem, base, bytes, 1)[base..base + RECORD_SIZE])
    ensures base + SECTOR_SIZE + RECORD_SIZE <= |mem| ==>
              ScriptMem(mem, base, bytes, 1)[base + SECTOR_SIZE..base + SECTOR_SIZE + RECORD_SIZE]
                == mem[base + SECTOR_SIZE..base + SECTOR_SIZE + RECORD_SIZE]
  {
    var after := ScriptMem(mem, base, bytes, 1);
    var b := base + SECTOR_SIZE;
    forall i | base <= i < base + RECORD_SIZE ensures after[i] == ERASED {
      assert after[i] == ScriptByte(mem, base, bytes, 1, i);
    }
    assert AllErased(after[base..base + RECORD_SIZE]);
    if b + RECORD_SIZE <= |mem| {
      forall i | b <= i < b + RECORD_SIZE ensures after[i] == mem[i] {
        assert after[i] == ScriptByte(mem, base, bytes, 1, i);
      }
      assert after[b..b + RECORD_SIZE] == mem[b..b + RECORD_SIZE];
    }
  }

  /** If only the erase of copy A completed, a read falls back to copy B as
      it was before the write. */
  lemma ReadAfterErasingCopyA(table: seq<TableRow>, mem: seq<byte>, bytes: seq<byte>)
    requires MetadataPartition(table).Ok?
    requires |bytes| <= SECTOR_SIZE
    requires var base := MetadataPartition(table).value.offset;
             InBounds(|mem|, MetadataScript(base, bytes)[0])
    ensures var base := MetadataPartition(table).value.offset;
            StoredRecord(table, ApplyAll(mem, MetadataScript(base, bytes)[..1]))
              == RecordAt(mem, base + SECTOR_SIZE)
  {
    var base := MetadataPartition(table).value.offset;
    ScriptEffect(mem, base, bytes, 1);
    var after := ScriptMem(mem, base, bytes, 1);
    CopyAErased(mem, base, bytes);
    ErasedDoesNotDecode(after[base..base + RECORD_SIZE]);
    assert RecordAt(after, base) == Err(OtaDataCorrupt);
    assert RecordAt(after, base + SECTOR_SIZE) == RecordAt(mem, base + SECTOR_SIZE);
  }

  /** The complete script's bytes do not depend on what the two sectors
      held, so running it again changes nothing. */
  lemma ScriptMemIdempotent(mem: seq<byte>, base: nat, bytes: seq<byte>)
    requires |bytes| <= SECTOR_SIZE
    ensures ScriptMem(ScriptMem(mem, base, bytes, 4), base, bytes, 4) == ScriptMem(mem, base, bytes, 4)
  {
    var once := ScriptMem(mem, base, bytes, 4);
    forall i | 0 <= i < |mem| ensures ScriptMem(once, base, bytes, 4)[i] == once[i] {
      assert once[i] == ScriptByte(mem, base, bytes, 4, i);
    }
  }

  /** Writing the same record twice leaves the device as writing it once. */
  lemma WriteIdempotent(mem: seq<byte>, base: nat, bytes: seq<byte>)
    requires |bytes| <= SECTOR_SIZE && base + 2 * SECTOR_SIZE <= |mem|
    ensures var script := MetadataScript(base, bytes);
            ApplyAll(ApplyAll(mem, script[..4]), script[..4]) == ApplyAll(mem, script[..4])
  {
    var once := ScriptMem(mem, base, bytes, 4);
    ScriptInBounds(mem, base, bytes);
    ScriptInBounds(once, base, bytes);
    ScriptEffect(mem, base, bytes, 4);
    ScriptEffect(once, base, bytes, 4);
    ScriptMemIdempotent(mem, base, bytes);
  }

  // ---------------------------------------------------------------------
  // What a read depends on

  /** When copy A decodes, the read returns it and copy B plays no part. */
  lemma ReadIgnoresCopyB(table: seq<TableRow>, mem: seq<byte>, other: seq<byte>)
    requires MetadataPartition(table).Ok?
    requires CopyADecodes(mem, MetadataPartition(table).value.offset)
    requires |other| == |mem|
    requires var base := MetadataPartition(table).value.offset;
             other[base..base + RECORD_SIZE] == mem[base..base + RECORD_SIZE]
    ensures var base := MetadataPartition(table).value.offset;
            StoredRecord(table, mem) == Ok(Decode(mem[base..base + RECORD_SIZE]).value)
            && StoredRecord(table, other) == StoredRecord(table, mem)
  {
    var base := MetadataPartition(table).value.offset;
    assert RecordAt(other, base) == RecordAt(mem, base);
  }

  /** When copy A lies on the device but does not decode, the read is copy B's
      outcome: its record, a storage error, or OtaDataCorrupt. */
  lemma ReadFallsBackToCopyB(table: seq<TableRow>, mem: seq<byte>)
    requires MetadataPartition(table).Ok?
    requires var base := MetadataPartition(table).value.offset;
             base + RECORD_SIZE <= |mem| && !CopyADecodes(mem, base)
    ensures var b := MetadataPartition(table).value.offset + SECTOR_SIZE;
            StoredRecord(table, mem) ==
              if b + RECORD_SIZE > |mem| then Err(FlashFailure(OutOfBounds))
              else if Decode(mem[b..b + RECORD_SIZE]).Ok? then Ok(Decode(mem[b..b + RECORD_SIZE]).value)
              else Err(OtaDataCorrupt)
  {
  }

  /** A read succeeds only with a record one of the copies holds. */
  lemma ReadComesFromACopy(table: seq<TableRow>, mem: seq<byte>)
    requires StoredRecord(table, mem).Ok?
    ensures var a := MetadataPartition(table).value.offset;
            var b := a + SECTOR_SIZE;
            var d := StoredRecord(table, mem).value;
            && Fits(d) && d.seqNo < U32_MAX
            && ((a + RECORD_SIZE <= |mem| && mem[a..a + RECORD_SIZE] == Encode(d)) ||
                (b + RECORD_SIZE <= |mem| && mem[b..b + RECORD_SIZE] == Encode(d)))
  {
    var a := MetadataPartition(table).value.offset;
    if CopyADecodes(mem, a) {
      EncodeDecode(mem[a..a + RECORD_SIZE]);
    } else {
      var b := a + SECTOR_SIZE;
      EncodeDecode(mem[b..b + RECORD_SIZE]);
    }
  }
}
