/** The NOR-flash storage the library is handed (the `NorFlash` capability).

    The driver itself is not part of the library; this module gives it the
    behaviour the library relies on: `read` copies bytes out, `erase` sets a
    range to 0xFF, `write` overwrites a range, and each fails on a range
    outside the device. A device fault can be injected: `faultAfter ==
    Some(n)` lets n more erase/write operations complete, after which every
    erase/write reports `DeviceFault` and changes nothing. */
module Flash {
  import opened OtaErrors
  import opened Partitions

  type byte = x: int | 0 <= x < 256

  const ERASED: byte := 0xFF

  /** Every byte of `b` reads as erased flash. */
  predicate AllErased(b: seq<byte>)
  {
    forall i :: 0 <= i < |b| ==> b[i] == ERASED
  }

  /** One storage operation, as recorded in the storage's logs. */
  datatype Op =
    | ReadOp(at: nat, len: nat)
    | EraseOp(from: nat, to: nat)
    | WriteOp(at: nat, data: seq<byte>)

  predicate InBounds(capacity: nat, op: Op)
  {
    match op
    case ReadOp(at, len) => at + len <= capacity
    case EraseOp(from, to) => from <= to <= capacity
    case WriteOp(at, data) => at + |data| <= capacity
  }

  /** Every operation of `ops` lies on a device of this size. */
  predicate AllInBounds(capacity: nat, ops: seq<Op>)
  {
    forall k :: 0 <= k < |ops| ==> InBounds(capacity, ops[k])
  }

  /** What the device answers to `op`. */
  function OpResult(capacity: nat, faultAfter: Option<nat>, op: Op): (r: Result<(), FlashError>)
    ensures r.Ok? ==> InBounds(capacity, op)
    ensures !op.ReadOp? && InBounds(capacity, op) && faultAfter != Some(0) ==> r.Ok?
  {
    if !InBounds(capacity, op) then Err(OutOfBounds)
    else if !op.ReadOp? && faultAfter == Some(0) then Err(DeviceFault)
    else Ok(())
  }

  /** The fault countdown after a successful erase or write. */
  function Tick(faultAfter: Option<nat>): Option<nat>
  {
    match faultAfter
    case None => None
    case Some(n) => Some(if n == 0 then 0 else n - 1)
  }

  /** Byte i after `op` succeeds: an erase sets its range to ERASED, a
      write puts its data in its range, and an out-of-range operation or a
      read changes nothing. */
  function ByteAfter(mem: seq<byte>, op: Op, i: nat): byte
    requires i < |mem|
  {
    match op
    case ReadOp(_, _) => mem[i]
    case EraseOp(from, to) =>
      if from <= to <= |mem| && from <= i < to then ERASED else mem[i]
    case WriteOp(at, data) =>
      if at + |data| <= |mem| && at <= i < at + |data| then data[i - at] else mem[i]
  }

  /** The memory after `op` succeeds. */
  function Apply(mem: seq<byte>, op: Op): (r: seq<byte>)
    ensures |r| == |mem|
  {
    seq(|mem|, i requires 0 <= i < |mem| => ByteAfter(mem, op, i))
  }

  lemma ApplyAt(mem: seq<byte>, op: Op, i: nat)
    requires i < |mem|
    ensures Apply(mem, op)[i] == ByteAfter(mem, op, i)
  {
  }

  /** The memory after a sequence of successful operations. */
  function ApplyAll(mem: seq<byte>, ops: seq<Op>): (r: seq<byte>)
    ensures |r| == |mem|
  {
    if |ops| == 0 then mem
    else Apply(ApplyAll(mem, ops[..|ops| - 1]), ops[|ops| - 1])
  }

  /** Running one more operation of a script. */
  lemma ApplyAllStep(mem: seq<byte>, ops: seq<Op>, k: nat)
    requires k < |ops|
    ensures ApplyAll(mem, ops[..k + 1]) == Apply(ApplyAll(mem, ops[..k]), ops[k])
  {
    assert ops[..k + 1][..k] == ops[..k];
  }

  /** Running one more operation after a sequence of them. */
  lemma ApplyAllSnoc(mem: seq<byte>, ops: seq<Op>, op: Op)
    ensures ApplyAll(mem, ops + [op]) == Apply(ApplyAll(mem, ops), op)
  {
    assert (ops + [op])[..|ops|] == ops;
  }

  lemma {:induction false} ApplyAllConcat(mem: seq<byte>, a: seq<Op>, b: seq<Op>)
    ensures ApplyAll(mem, a + b) == ApplyAll(ApplyAll(mem, a), b)
    decreases |b|
  {
    if |b| == 0 {
      assert a + b == a;
    } else {
      assert (a + b)[..|a + b| - 1] == a + b[..|b| - 1];
      ApplyAllConcat(mem, a, b[..|b| - 1]);
    }
  }

  /** A flash device: its bytes, the partition table stored on it (as the
      partition-table crate parses it), the erases and writes completed so
      far (`trace`), the reads completed so far (`readLog`), and the injected
      fault countdown. */
  class Storage {
    var mem: array<byte>
    const table: seq<TableRow>
    ghost var trace: seq<Op>
    ghost var readLog: seq<Op>
    var faultAfter: Option<nat>

    constructor (capacity: nat, table: seq<TableRow>, faultAfter: Option<nat>)
      ensures fresh(mem) && mem.Length == capacity
      ensures forall i :: 0 <= i < capacity ==> mem[i] == ERASED
      ensures this.table == table && this.faultAfter == faultAfter && trace == [] && readLog == []
    {
      mem := new byte[capacity](_ => ERASED);
      this.table := table;
      this.faultAfter := faultAfter;
      trace := [];
      readLog := [];
    }

    method Read(at: nat, len: nat) returns (r: Result<seq<byte>, FlashError>)
      modifies this`readLog
      ensures r.Ok? <==> OpResult(mem.Length, faultAfter, ReadOp(at, len)).Ok?
      ensures r.Ok? ==> r.value == mem[at..at + len] && readLog == old(readLog) + [ReadOp(at, len)]
      ensures r.Err? ==> r.error == OutOfBounds && readLog == old(readLog)
    {
      if at + len <= mem.Length {
        r := Ok(mem[at..at + len]);
        readLog := readLog + [ReadOp(at, len)];
      } else {
        r := Err(OutOfBounds);
      }
    }

    method Erase(from: nat, to: nat) returns (r: Result<(), FlashError>)
      modifies this`trace, this`faultAfter, mem
      ensures r == OpResult(mem.Length, old(faultAfter), EraseOp(from, to))
      ensures r.Ok? ==> mem[..] == Apply(old(mem[..]), EraseOp(from, to))
                        && trace == old(trace) + [EraseOp(from, to)]
                        && faultAfter == Tick(old(faultAfter))
      ensures r.Err? ==> mem[..] == old(mem[..]) && trace == old(trace) && faultAfter == old(faultAfter)
    {
      r := OpResult(mem.Length, faultAfter, EraseOp(from, to));
      if r.Err? {
        return;
      }
      var i := from;
      while i < to
        invariant from <= i <= to
        invariant forall j :: 0 <= j < mem.Length ==> mem[j] == if from <= j < i then ERASED else old(mem[j])
        invariant trace == old(trace) && faultAfter == old(faultAfter)
      {
        mem[i] := ERASED;
        i := i + 1;
      }
      assert mem[..] == Apply(old(mem[..]), EraseOp(from, to));
      trace := trace + [EraseOp(from, to)];
      faultAfter := Tick(faultAfter);
    }

    method Write(at: nat, data: seq<byte>) returns (r: Result<(), FlashError>)
      modifies this`trace, this`faultAfter, mem
      ensures r == OpResult(mem.Length, old(faultAfter), WriteOp(at, data))
      ensures r.Ok? ==> mem[..] == Apply(old(mem[..]), WriteOp(at, data))
                        && trace == old(trace) + [WriteOp(at, data)]
                        && faultAfter == Tick(old(faultAfter))
      ensures r.Err? ==> mem[..] == old(mem[..]) && trace == old(trace) && faultAfter == old(faultAfter)
    {
      r := OpResult(mem.Length, faultAfter, WriteOp(at, data));
      if r.Err? {
        return;
      }
      var i := 0;
      while i < |data|
        invariant 0 <= i <= |data|
        invariant forall j :: 0 <= j < mem.Length ==>
                    mem[j] == if at <= j < at + i then data[j - at] else old(mem[j])
        invariant trace == old(trace) && faultAfter == old(faultAfter)
      {
        mem[at + i] := data[i];
        i := i + 1;
      }
      assert mem[..] == Apply(old(mem[..]), WriteOp(at, data));
      trace := trace + [WriteOp(at, data)];
      faultAfter := Tick(faultAfter);
    }
  }
}
