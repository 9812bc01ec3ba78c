/**
 * The on-disk layout of the static hash file of static_hashing.py: a sales
 * record packed with struct format 'i30sif10s', and a bucket made of an 'ii'
 * header (record count, byte offset of the next bucket or -1) followed by
 * BLOCK_FACTOR record slots, the unused ones zero-filled.
 */
module HashBucket {
  import opened Wrappers
  import opened Struct

  const NAME_WIDTH: nat := 30
  const DATE_WIDTH: nat := 10
  /**
   * struct.calcsize('i30sif10s') in native alignment: 4 + 30, then 2 padding
   * bytes that put the second 'i' on a 4-byte boundary, then 4 + 4 + 10.
   */
  const SIZE_OF_RECORD: nat := 54
  const BLOCK_FACTOR: nat := 4
  /** struct.calcsize('ii') */
  const HEADER_SIZE: nat := 8
  /** HEADER_SIZE + BLOCK_FACTOR * SIZE_OF_RECORD */
  const SIZE_OF_BUCKET: nat := 224

  /** The four bytes `struct.pack('f', precio_unitario)` writes; the float itself is opaque here. */
  type Float32Bytes = s: seq<byte> | |s| == 4 witness [0, 0, 0, 0]

  /** A sale: its id (the hash key), product name, quantity, unit price and date. */
  datatype Record = Record(
    idVenta: Int32,
    nombreProducto: AsciiString,
    cantidadVendida: Int32,
    precioUnitario: Float32Bytes,
    fechaVenta: AsciiString)

  /** `Record.pack` */
  function PackRecord(r: Record): (bs: seq<byte>)
    ensures |bs| == SIZE_OF_RECORD
  {
    EncodeInt32(r.idVenta) + TextField(r.nombreProducto, NAME_WIDTH) + Zeros(2)
    + EncodeInt32(r.cantidadVendida) + r.precioUnitario + TextField(r.fechaVenta, DATE_WIDTH)
  }

  /** `Record.unpack`: struct.error on a slice of the wrong length, a decode error on non-ASCII text. */
  function UnpackRecord(data: seq<byte>): (r: Result<Record, CodecError>)
  {
    if |data| != SIZE_OF_RECORD then
      Failure(WrongSize)
    else
      var name := DecodeText(data[4..34]);
      var date := DecodeText(data[44..54]);
      if name.None? || date.None? then
        Failure(NotText)
      else
        Success(Record(DecodeInt32(data[0..4]), name.value, DecodeInt32(data[36..40]), data[40..44], date.value))
  }

  /** What a record reads back as after a pack: its text fields cut to width and right-stripped. */
  function Normalize(r: Record): Record
  {
    r.(nombreProducto := FieldValue(r.nombreProducto, NAME_WIDTH),
       fechaVenta := FieldValue(r.fechaVenta, DATE_WIDTH))
  }

  /** A record whose text fits its fields and has no trailing white space. */
  predicate Canonical(r: Record)
  {
    |r.nombreProducto| <= NAME_WIDTH && |r.fechaVenta| <= DATE_WIDTH
    && (r.nombreProducto == [] || !IsSpace(r.nombreProducto[|r.nombreProducto| - 1]))
    && (r.fechaVenta == [] || !IsSpace(r.fechaVenta[|r.fechaVenta| - 1]))
  }

  lemma RecordRoundTrip(r: Record)
    ensures UnpackRecord(PackRecord(r)) == Success(Normalize(r))
    ensures Normalize(r).idVenta == r.idVenta
    ensures Canonical(r) ==> Normalize(r) == r
  {
    var bs := PackRecord(r);
    PackRecordFields(r);
    Int32RoundTrip(r.idVenta);
    Int32RoundTrip(r.cantidadVendida);
    TextFieldRoundTrip(r.nombreProducto, NAME_WIDTH);
    TextFieldRoundTrip(r.fechaVenta, DATE_WIDTH);
    assert DecodeText(bs[4..34]) == Some(FieldValue(r.nombreProducto, NAME_WIDTH));
    assert DecodeText(bs[44..54]) == Some(FieldValue(r.fechaVenta, DATE_WIDTH));
    assert DecodeInt32(bs[0..4]) == r.idVenta;
    assert DecodeInt32(bs[36..40]) == r.cantidadVendida;
    if Canonical(r) {
      FieldValueKeeps(r.nombreProducto, NAME_WIDTH);
      FieldValueKeeps(r.fechaVenta, DATE_WIDTH);
    }
  }

  /** Where each field sits inside a packed record. */
  lemma PackRecordFields(r: Record)
    ensures PackRecord(r)[0..4] == EncodeInt32(r.idVenta)
    ensures PackRecord(r)[4..34] == TextField(r.nombreProducto, NAME_WIDTH)
    ensures PackRecord(r)[34..36] == Zeros(2)
    ensures PackRecord(r)[36..40] == EncodeInt32(r.cantidadVendida)
    ensures PackRecord(r)[40..44] == r.precioUnitario
    ensures PackRecord(r)[44..54] == TextField(r.fechaVenta, DATE_WIDTH)
  {
  }

  // ---------------------------------------------------------------------------
  // Buckets

  /** A bucket: its records in slot order and the byte offset of the next bucket of its chain, -1 for none. */
  datatype Bucket = Bucket(records: seq<Record>, next: int)

  /** Byte offset of slot i inside a packed bucket. */
  function SlotStart(i: nat): nat
  {
    HEADER_SIZE + i * SIZE_OF_RECORD
  }

  /** Number of zero-filled slots `Bucket.pack` adds after n records. */
  function FreeSlots(n: nat): nat
  {
    if n < BLOCK_FACTOR then BLOCK_FACTOR - n else 0
  }

  /** The slots `Bucket.pack` writes after the header: every record packed, then zero slots up to BLOCK_FACTOR. */
  function BucketSlots(rs: seq<Record>): (slots: seq<seq<byte>>)
    ensures |slots| == |rs| + FreeSlots(|rs|)
    ensures forall i :: 0 <= i < |slots| ==> |slots[i]| == SIZE_OF_RECORD
  {
    seq(|rs| + FreeSlots(|rs|), i requires 0 <= i < |rs| + FreeSlots(|rs|) =>
      if i < |rs| then PackRecord(rs[i]) else Zeros(SIZE_OF_RECORD))
  }

  /**
   * `Bucket.pack`: the header, then the slots. Fails as struct.pack does when
   * the count or the next offset is not a 32-bit value.
   */
  function BucketBytes(b: Bucket): (r: Result<seq<byte>, CodecError>)
    ensures r.Success? <==> IsInt32(|b.records|) && IsInt32(b.next)
  {
    if !IsInt32(|b.records|) || !IsInt32(b.next) then Failure(OutOfRange) else Success(PackedBucket(b))
  }

  function PackedBucket(b: Bucket): (bs: seq<byte>)
    requires IsInt32(|b.records|) && IsInt32(b.next)
  {
    EncodeInt32(|b.records|) + EncodeInt32(b.next) + Concat(BucketSlots(b.records))
  }

  /** The bytes of slot i: `data[offset:offset + SIZE_OF_RECORD]`, clamped at the end of data. */
  function SlotBytes(data: seq<byte>, i: nat): seq<byte>
  {
    Slice(data, SlotStart(i), SlotStart(i) + SIZE_OF_RECORD)
  }

  /** What decoding each of slots 0..n-1 gives. */
  function DecodeSlots(data: seq<byte>, n: nat): (rs: seq<Result<Record, CodecError>>)
    ensures |rs| == n
  {
    seq(n, i requires 0 <= i < n => UnpackRecord(SlotBytes(data, i)))
  }

  /** `Bucket.unpack`: only the first `count` slots are decoded; a negative count reads none. */
  function BucketFromBytes(data: seq<byte>): (r: Result<Bucket, CodecError>)
  {
    if |data| < HEADER_SIZE then
      Failure(WrongSize)
    else
      var count := DecodeInt32(data[0..4]);
      var next := DecodeInt32(data[4..8]);
      match Collect(DecodeSlots(data, if count < 0 then 0 else count))
      case Failure(e) => Failure(e)
      case Success(rs) => Success(Bucket(rs, next))
  }

  /**
   * A packed bucket of at most BLOCK_FACTOR records fills exactly SIZE_OF_BUCKET
   * bytes: its header holds the record count and the next offset, slot i holds
   * record i, and every slot after the last record is zero.
   */
  lemma BucketLayout(b: Bucket)
    requires |b.records| <= BLOCK_FACTOR && IsInt32(b.next)
    ensures BucketBytes(b).Success?
    ensures |BucketBytes(b).value| == SIZE_OF_BUCKET
    ensures DecodeInt32(BucketBytes(b).value[0..4]) == |b.records|
    ensures DecodeInt32(BucketBytes(b).value[4..8]) == b.next
    ensures forall i :: 0 <= i < |b.records| ==>
              BucketBytes(b).value[SlotStart(i) .. SlotStart(i) + SIZE_OF_RECORD] == PackRecord(b.records[i])
    ensures forall i :: |b.records| <= i < BLOCK_FACTOR ==>
              BucketBytes(b).value[SlotStart(i) .. SlotStart(i) + SIZE_OF_RECORD] == Zeros(SIZE_OF_RECORD)
  {
    var slots := BucketSlots(b.records);
    ConcatLength(slots, SIZE_OF_RECORD);
    PackedHeader(b);
    forall i | 0 <= i < BLOCK_FACTOR
      ensures PackedBucket(b)[SlotStart(i) .. SlotStart(i) + SIZE_OF_RECORD] == slots[i]
    {
      PackedSlot(b, i);
    }
  }

  lemma PackedHeader(b: Bucket)
    requires IsInt32(|b.records|) && IsInt32(b.next)
    ensures DecodeInt32(PackedBucket(b)[0..4]) == |b.records|
    ensures DecodeInt32(PackedBucket(b)[4..8]) == b.next
  {
    var bs := PackedBucket(b);
    assert bs[0..4] == EncodeInt32(|b.records|);
    assert bs[4..8] == EncodeInt32(b.next);
    Int32RoundTrip(|b.records|);
    Int32RoundTrip(b.next);
  }

  /** Slot i of a packed bucket holds the i-th of its slots. */
  lemma PackedSlot(b: Bucket, i: nat)
    requires IsInt32(|b.records|) && IsInt32(b.next)
    requires i < |BucketSlots(b.records)|
    ensures SlotStart(i) + SIZE_OF_RECORD <= |PackedBucket(b)|
    ensures PackedBucket(b)[SlotStart(i) .. SlotStart(i) + SIZE_OF_RECORD] == BucketSlots(b.records)[i]
  {
    var header := EncodeInt32(|b.records|) + EncodeInt32(b.next);
    assert |header| == HEADER_SIZE;
    HeaderThenChunk(header, BucketSlots(b.records), SIZE_OF_RECORD, i);
    assert PackedBucket(b) == header + Concat(BucketSlots(b.records));
  }

  /**
   * Unpacking a packed bucket gives back its next offset and its records in the
   * same order, each one read back as `Normalize` says (so with the same key).
   */
  lemma BucketRoundTrip(b: Bucket)
    requires BucketBytes(b).Success?
    ensures BucketFromBytes(BucketBytes(b).value) == Success(ReadBack(b))
  {
    PackedHeader(b);
    PackedSlotsDecode(b);
    CollectSucceeds(DecodeSlots(PackedBucket(b), |b.records|), NormalizeAll(b.records));
  }

  /** The bucket that `Bucket.unpack(b.pack())` gives (BucketRoundTrip). */
  function ReadBack(b: Bucket): Bucket
  {
    Bucket(NormalizeAll(b.records), b.next)
  }

  /** A record read back from a file packs and reads back as itself. */
  lemma NormalizeCanonical(r: Record)
    ensures Canonical(Normalize(r))
  {
  }

  /** Appending r to a bucket of records read back from a file and writing it: r is read back normalized. */
  lemma ReadBackAppend(rs: seq<Record>, r: Record, next: int)
    requires forall x :: x in rs ==> Canonical(x)
    ensures ReadBack(Bucket(rs + [r], next)) == Bucket(rs + [Normalize(r)], next)
  {
    forall i | 0 <= i < |rs| ensures Normalize(rs[i]) == rs[i] {
      RecordRoundTrip(rs[i]);
    }
  }

  /** Writing a bucket of records read back from a file reads back as itself. */
  lemma ReadBackKeeps(b: Bucket)
    requires forall x :: x in b.records ==> Canonical(x)
    ensures ReadBack(b) == b
  {
    forall i | 0 <= i < |b.records| ensures Normalize(b.records[i]) == b.records[i] {
      RecordRoundTrip(b.records[i]);
    }
  }

  /** Each record slot of a packed bucket decodes to its record normalized. */
  lemma PackedSlotsDecode(b: Bucket)
    requires IsInt32(|b.records|) && IsInt32(b.next)
    ensures forall i :: 0 <= i < |b.records| ==>
              DecodeSlots(PackedBucket(b), |b.records|)[i] == Success(NormalizeAll(b.records)[i])
  {
    forall i | 0 <= i < |b.records|
      ensures DecodeSlots(PackedBucket(b), |b.records|)[i] == Success(NormalizeAll(b.records)[i])
    {
      PackedSlot(b, i);
      RecordRoundTrip(b.records[i]);
    }
  }

  /** The records of a bucket as they read back after a pack, in the same order. */
  function NormalizeAll(rs: seq<Record>): (ns: seq<Record>)
    ensures |ns| == |rs|
    ensures forall i :: 0 <= i < |rs| ==> ns[i] == Normalize(rs[i])
  {
    seq(|rs|, i requires 0 <= i < |rs| => Normalize(rs[i]))
  }

  // ---------------------------------------------------------------------------
  // The loops of `Bucket.pack` and `Bucket.unpack`

  /** `Bucket.pack` */
  method Pack(b: Bucket) returns (r: Result<seq<byte>, CodecError>)
    ensures r == BucketBytes(b)
  {
    if !IsInt32(|b.records|) || !IsInt32(b.next) {
      return Failure(OutOfRange);
    }
    var headerData := EncodeInt32(|b.records|) + EncodeInt32(b.next);
    var recordData := PackSlots(b.records);
    r := Success(headerData + recordData);
  }

  /** The record loop and the padding loop of `Bucket.pack`. */
  method PackSlots(rs: seq<Record>) returns (recordData: seq<byte>)
    ensures recordData == Concat(BucketSlots(rs))
  {
    ghost var slots := BucketSlots(rs);
    recordData := [];
    for j := 0 to |rs|
      invariant recordData == Concat(slots[..j])
    {
      ConcatPrefixStep(slots, j);
      assert slots[j] == PackRecord(rs[j]);
      recordData := recordData + PackRecord(rs[j]);
    }
    var i := |rs|;
    while i < BLOCK_FACTOR
      invariant |rs| <= i <= |slots|
      invariant recordData == Concat(slots[..i])
    {
      ConcatPrefixStep(slots, i);
      assert slots[i] == Zeros(SIZE_OF_RECORD);
      recordData := recordData + Zeros(SIZE_OF_RECORD);
      i := i + 1;
    }
    assert slots[..i] == slots;
  }

  /** Slot i of the decoded slots is what `Record.unpack` makes of the bytes at that slot's offset. */
  lemma DecodedSlot(data: seq<byte>, n: nat, i: nat, offset: nat)
    requires i < n && offset == SlotStart(i)
    ensures DecodeSlots(data, n)[i] == UnpackRecord(Slice(data, offset, offset + SIZE_OF_RECORD))
  {
    assert SlotBytes(data, i) == Slice(data, offset, offset + SIZE_OF_RECORD);
    assert DecodeSlots(data, n)[i] == UnpackRecord(SlotBytes(data, i));
  }

  method Unpack(data: seq<byte>) returns (r: Result<Bucket, CodecError>)
    ensures r == BucketFromBytes(data)
  {
    if |data| < HEADER_SIZE {
      return Failure(WrongSize);
    }
    var size := DecodeInt32(data[0..4]);
    var nextBucket := DecodeInt32(data[4..8]);
    var count: nat := if size < 0 then 0 else size;
    ghost var slots := DecodeSlots(data, count);
    var offset := HEADER_SIZE;
    var records: seq<Record> := [];
    for i := 0 to count
      invariant offset == SlotStart(i)
      invariant Collect(slots[..i]) == Success(records)
    {
      var recordData := Slice(data, offset, offset + SIZE_OF_RECORD);
      var record := UnpackRecord(recordData);
      DecodedSlot(data, count, i, offset);
      if record.Failure? {
        CollectFailsAt(slots, i);
        return Failure(record.error);
      }
      CollectExtends(slots, i, records);
      records := records + [record.value];
      offset := offset + SIZE_OF_RECORD;
    }
    PrefixAll(slots);
    r := Success(Bucket(records, nextBucket));
  }
}
