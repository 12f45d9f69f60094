/** The 32-byte OTA metadata record and its codec.

    The crate's own codec (src/ota_data_structs.rs, src/crc.rs) is not part
    of this model. This module stands in for it with the layout the ESP-IDF
    bootloader reads: the sequence number (u32, little-endian), a 20-byte
    reserved field, the state (u32), and a check word over the sequence bytes
    (u32; the real format uses a CRC-32 there, see `Checksum`). Like
    the ESP-IDF bootloader it refuses a sequence number of 0xFFFFFFFF, which is
    what an erased sector holds. Every proof about the metadata store uses
    only the two round-trip lemmas at the end of this module. */
module OtaRecordCodec {
  import opened OtaErrors
  import opened Flash

  const RECORD_SIZE: nat := 32
  const LABEL_SIZE: nat := 20
  const U32_MAX: nat := 0xFFFF_FFFF

  /** Verification state of the currently selected application slot. */
  datatype OtaState = New | PendingVerify | Valid | Invalid | Aborted | Undefined

  /** The decoded record: `seqNo` selects the active slot, `reserved` is the
      20-byte reserved field. */
  datatype OtaRecord = OtaRecord(seqNo: nat, reserved: seq<byte>, state: OtaState)

  /** The record fits the 32-byte layout (a u32 sequence and a 20-byte reserved field). */
  predicate Fits(d: OtaRecord)
  {
    d.seqNo <= U32_MAX && |d.reserved| == LABEL_SIZE
  }

  /** `EspOTAData::is_valid`: the running image has been accepted. */
  predicate IsValid(d: OtaRecord)
  {
    d.state == Valid
  }

  function StateCode(s: OtaState): (c: nat)
    ensures c <= U32_MAX
  {
    match s
    case New => 0
    case PendingVerify => 1
    case Valid => 2
    case Invalid => 3
    case Aborted => 4
    case Undefined => U32_MAX
  }

  function StateOfCode(c: nat): (r: Option<OtaState>)
    ensures r.Some? ==> StateCode(r.value) == c
    ensures forall s :: StateCode(s) == c ==> r == Some(s)
  {
    if c == 0 then Some(New)
    else if c == 1 then Some(OtaState.PendingVerify)
    else if c == 2 then Some(Valid)
    else if c == 3 then Some(Invalid)
    else if c == 4 then Some(Aborted)
    else if c == U32_MAX then Some(Undefined)
    else None
  }

  /** Little-endian bytes of a u32. */
  function U32ToLe(x: nat): (b: seq<byte>)
    requires x <= U32_MAX
    ensures |b| == 4
  {
    var x1 := x / 256;
    var x2 := x1 / 256;
    [x % 256, x1 % 256, x2 % 256, x2 / 256]
  }

  function U32FromLe(b: seq<byte>): (x: nat)
    requires |b| == 4
    ensures x <= U32_MAX
  {
    b[0] as int + 256 * (b[1] as int + 256 * (b[2] as int + 256 * b[3] as int))
  }

  lemma U32FromToLe(x: nat)
    requires x <= U32_MAX
    ensures U32FromLe(U32ToLe(x)) == x
  {
    var x1 := x / 256;
    var x2 := x1 / 256;
    assert x == x % 256 + 256 * x1;
    assert x1 == x1 % 256 + 256 * x2;
    assert x2 == x2 % 256 + 256 * (x2 / 256);
  }

  lemma U32ToFromLe(b: seq<byte>)
    requires |b| == 4
    ensures U32ToLe(U32FromLe(b)) == b
  {
    var t2: int := b[2] as int + 256 * b[3] as int;
    var t1: int := b[1] as int + 256 * t2;
    var x: int := b[0] as int + 256 * t1;
    assert x / 256 == t1 && x % 256 == b[0];
    assert t1 / 256 == t2 && t1 % 256 == b[1];
    assert t2 / 256 == b[3] && t2 % 256 == b[2];
  }

  /** The record's check word over the sequence-number bytes: their
      complement as a little-endian u32. It stands in for the CRC-32 of the
      real format, which this model does not compute. */
  function Checksum(bytes: seq<byte>): (c: nat)
    requires |bytes| == 4
    ensures c <= U32_MAX
  {
    U32_MAX - U32FromLe(bytes)
  }

  /** `EspOTAData` into `[u8; 32]`. */
  function Encode(d: OtaRecord): (b: seq<byte>)
    requires Fits(d)
    ensures |b| == RECORD_SIZE
  {
    U32ToLe(d.seqNo) + d.reserved + U32ToLe(StateCode(d.state)) + U32ToLe(Checksum(U32ToLe(d.seqNo)))
  }

  datatype DecodeError = ErasedSequence | BadChecksum | UnknownState

  /** `EspOTAData::try_from([u8; 32])`. */
  function Decode(b: seq<byte>): (r: Result<OtaRecord, DecodeError>)
    requires |b| == RECORD_SIZE
    ensures r.Ok? ==> Fits(r.value) && r.value.seqNo < U32_MAX
  {
    var seqNo := U32FromLe(b[0..4]);
    if seqNo == U32_MAX then Err(ErasedSequence)
    else if U32FromLe(b[28..32]) != Checksum(b[0..4]) then Err(BadChecksum)
    else match StateOfCode(U32FromLe(b[24..28]))
      case None => Err(UnknownState)
      case Some(s) => Ok(OtaRecord(seqNo, b[4..24], s))
  }

  /** Every record with a usable sequence number survives encoding. */
  lemma DecodeEncode(d: OtaRecord)
    requires Fits(d) && d.seqNo < U32_MAX
    ensures Decode(Encode(d)) == Ok(d)
  {
    var b := Encode(d);
    var s := U32ToLe(d.seqNo);
    assert b[0..4] == s;
    assert b[4..24] == d.reserved;
    assert b[24..28] == U32ToLe(StateCode(d.state));
    assert b[28..32] == U32ToLe(Checksum(s));
    U32FromToLe(d.seqNo);
    U32FromToLe(StateCode(d.state));
    U32FromToLe(Checksum(s));
    assert U32FromLe(b[0..4]) == d.seqNo;
    assert U32FromLe(b[28..32]) == Checksum(b[0..4]);
    assert StateOfCode(U32FromLe(b[24..28])) == Some(d.state);
  }

  /** The fields of a decoded record, read back from the bytes. */
  lemma DecodedFields(b: seq<byte>)
    requires |b| == RECORD_SIZE
    requires Decode(b).Ok?
    ensures Decode(b).value.seqNo == U32FromLe(b[0..4])
    ensures Decode(b).value.reserved == b[4..24]
    ensures StateCode(Decode(b).value.state) == U32FromLe(b[24..28])
    ensures U32FromLe(b[28..32]) == Checksum(b[0..4])
  {
  }

  /** Whatever decodes is the encoding of what it decodes to. */
  lemma EncodeDecode(b: seq<byte>)
    requires |b| == RECORD_SIZE
    requires Decode(b).Ok?
    ensures Encode(Decode(b).value) == b
  {
    var d := Decode(b).value;
    var head := U32ToLe(d.seqNo);
    assert head == b[0..4] by {
      DecodedFields(b);
      U32ToFromLe(b[0..4]);
    }
    assert U32ToLe(StateCode(d.state)) == b[24..28] by {
      DecodedFields(b);
      U32ToFromLe(b[24..28]);
    }
    assert U32ToLe(Checksum(head)) == b[28..32] by {
      DecodedFields(b);
      U32ToFromLe(b[28..32]);
    }
    assert d.reserved == b[4..24] by {
      DecodedFields(b);
    }
    calc {
      Encode(d);
      head + d.reserved + U32ToLe(StateCode(d.state)) + U32ToLe(Checksum(head));
      b[0..4] + b[4..24] + b[24..28] + b[28..32];
      b;
    }
  }

  /** An erased record slot (all 0xFF) does not decode. */
  lemma ErasedDoesNotDecode(b: seq<byte>)
    requires |b| == RECORD_SIZE
    requires AllErased(b)
    ensures Decode(b) == Err(ErasedSequence)
  {
    assert b[0..4] == [ERASED, ERASED, ERASED, ERASED];
  }
}
