/**
 * The on-disk layout of the paged data file of ISAM1.py: a student record
 * packed with struct format '20s20si', and a page made of an 'ii' header
 * (record count, next page) followed by BLOCK_FACTOR record slots, the unused
 * ones zero-filled.
 */
module IsamPage {
  import opened Wrappers
  import opened Struct

  const BLOCK_FACTOR: nat := 3
  const NAME_WIDTH: nat := 20
  /** struct.calcsize('20s20si'): 20 + 20, and the 'i' already sits on a 4-byte boundary. */
  const SIZE_OF_RECORD: nat := 44
  /** struct.calcsize('ii') */
  const HEADER_SIZE: nat := 8
  /** HEADER_SIZE + BLOCK_FACTOR * SIZE_OF_RECORD */
  const SIZE_OF_PAGE: nat := 140

  /** A student: first name, last name and term. */
  datatype Record = Record(nombre: AsciiString, apellido: AsciiString, ciclo: Int32)

  /** `Record.pack` */
  function PackRecord(r: Record): (bs: seq<byte>)
    ensures |bs| == SIZE_OF_RECORD
  {
    TextField(r.nombre, NAME_WIDTH) + TextField(r.apellido, NAME_WIDTH) + EncodeInt32(r.ciclo)
  }

  /** `Record.unpack`: struct.error on a slice of the wrong length, a decode error on non-ASCII text. */
  function UnpackRecord(data: seq<byte>): (r: Result<Record, CodecError>)
  {
    if |data| != SIZE_OF_RECORD then
      Failure(WrongSize)
    else
      var nombre := DecodeText(data[0..20]);
      var apellido := DecodeText(data[20..40]);
      if nombre.None? || apellido.None? then
        Failure(NotText)
      else
        Success(Record(nombre.value, apellido.value, DecodeInt32(data[40..44])))
  }

  /** What a record reads back as after a pack: both names cut to 20 characters and right-stripped. */
  function Normalize(r: Record): Record
  {
    r.(nombre := FieldValue(r.nombre, NAME_WIDTH), apellido := FieldValue(r.apellido, NAME_WIDTH))
  }

  /** A record whose names fit their fields and have no trailing white space. */
  predicate Canonical(r: Record)
  {
    |r.nombre| <= NAME_WIDTH && |r.apellido| <= NAME_WIDTH
    && (r.nombre == [] || !IsSpace(r.nombre[|r.nombre| - 1]))
    && (r.apellido == [] || !IsSpace(r.apellido[|r.apellido| - 1]))
  }

  /** Packing and unpacking a record gives it back normalized, and a canonical record unchanged. */
  lemma RecordRoundTrip(r: Record)
    ensures UnpackRecord(PackRecord(r)) == Success(Normalize(r))
    ensures Canonical(r) ==> Normalize(r) == r
  {
    var bs := PackRecord(r);
    PackRecordFields(r);
    Int32RoundTrip(r.ciclo);
    TextFieldRoundTrip(r.nombre, NAME_WIDTH);
    TextFieldRoundTrip(r.apellido, NAME_WIDTH);
    assert DecodeText(bs[0..20]) == Some(FieldValue(r.nombre, NAME_WIDTH));
    assert DecodeText(bs[20..40]) == Some(FieldValue(r.apellido, NAME_WIDTH));
    assert DecodeInt32(bs[40..44]) == r.ciclo;
    if Canonical(r) {
      FieldValueKeeps(r.nombre, NAME_WIDTH);
      FieldValueKeeps(r.apellido, NAME_WIDTH);
    }
  }

  /** A record read back from a file packs and reads back as itself. */
  lemma NormalizeCanonical(r: Record)
    ensures Canonical(Normalize(r))
  {
  }

  /** Where each field sits inside a packed record. */
  lemma PackRecordFields(r: Record)
    ensures PackRecord(r)[0..20] == TextField(r.nombre, NAME_WIDTH)
    ensures PackRecord(r)[20..40] == TextField(r.apellido, NAME_WIDTH)
    ensures PackRecord(r)[40..44] == EncodeInt32(r.ciclo)
  {
  }

  // ---------------------------------------------------------------------------
  // Pages

  /** A page: its records in slot order and its `next_page` field. */
  datatype Page = Page(records: seq<Record>, next: int)

  /** Byte offset of slot i inside a packed page. */
  function SlotStart(i: nat): nat
  {
    HEADER_SIZE + i * SIZE_OF_RECORD
  }

  /** Number of zero-filled slots `Page.pack` adds after n records. */
  function FreeSlots(n: nat): nat
  {
    if n < BLOCK_FACTOR then BLOCK_FACTOR - n else 0
  }

  /** The slots `Page.pack` writes after the header: every record packed, then zero slots up to BLOCK_FACTOR. */
  function PageSlots(rs: seq<Record>): (slots: seq<seq<byte>>)
    ensures |slots| == |rs| + FreeSlots(|rs|)
    ensures forall i :: 0 <= i < |slots| ==> |slots[i]| == SIZE_OF_RECORD
  {
    seq(|rs| + FreeSlots(|rs|), i requires 0 <= i < |rs| + FreeSlots(|rs|) =>
      if i < |rs| then PackRecord(rs[i]) else Zeros(SIZE_OF_RECORD))
  }

  /**
   * `Page.pack`: the header, then the slots. Fails as struct.pack does when the
   * count or the next page is not a 32-bit value.
   */
  function PageBytes(p: Page): (r: Result<seq<byte>, CodecError>)
    ensures r.Success? <==> IsInt32(|p.records|) && IsInt32(p.next)
  {
    if !IsInt32(|p.records|) || !IsInt32(p.next) then Failure(OutOfRange) else Success(PackedPage(p))
  }

  function PackedPage(p: Page): (bs: seq<byte>)
    requires IsInt32(|p.records|) && IsInt32(p.next)
  {
    EncodeInt32(|p.records|) + EncodeInt32(p.next) + Concat(PageSlots(p.records))
  }

  /** The bytes of slot i: `data[offset:offset + SIZE_OF_RECORD]`, clamped at the end of data. */
  function SlotBytes(data: seq<byte>, i: nat): seq<byte>
  {
    Slice(data, SlotStart(i), SlotStart(i) + SIZE_OF_RECORD)
  }

  /** What decoding each of slots 0..n-1 gives. */
  function DecodeSlots(data: seq<byte>, n: nat): (rs: seq<Result<Record, CodecError>>)
    ensures |rs| == n
  {
    seq(n, i requires 0 <= i < n => UnpackRecord(SlotBytes(data, i)))
  }

  /** `Page.unpack`: only the first `size` slots are decoded; a negative size reads none. */
  function PageFromBytes(data: seq<byte>): (r: Result<Page, CodecError>)
  {
    if |data| < HEADER_SIZE then
      Failure(WrongSize)
    else
      var size := DecodeInt32(data[0..4]);
      var next := DecodeInt32(data[4..8]);
      match Collect(DecodeSlots(data, if size < 0 then 0 else size))
      case Failure(e) => Failure(e)
      case Success(rs) => Success(Page(rs, next))
  }

  /**
   * A packed page of at most BLOCK_FACTOR records fills exactly SIZE_OF_PAGE
   * bytes: its header holds the record count and the next page, slot i holds
   * record i, and every slot after the last record is zero.
   */
  lemma PageLayout(p: Page)
    requires |p.records| <= BLOCK_FACTOR && IsInt32(p.next)
    ensures PageBytes(p).Success?
    ensures |PageBytes(p).value| == SIZE_OF_PAGE
    ensures DecodeInt32(PageBytes(p).value[0..4]) == |p.records|
    ensures DecodeInt32(PageBytes(p).value[4..8]) == p.next
    ensures forall i :: 0 <= i < |p.records| ==>
              PageBytes(p).value[SlotStart(i) .. SlotStart(i) + SIZE_OF_RECORD] == PackRecord(p.records[i])
    ensures forall i :: |p.records| <= i < BLOCK_FACTOR ==>
              PageBytes(p).value[SlotStart(i) .. SlotStart(i) + SIZE_OF_RECORD] == Zeros(SIZE_OF_RECORD)
  {
    var slots := PageSlots(p.records);
    ConcatLength(slots, SIZE_OF_RECORD);
    PackedHeader(p);
    forall i | 0 <= i < BLOCK_FACTOR
      ensures PackedPage(p)[SlotStart(i) .. SlotStart(i) + SIZE_OF_RECORD] == slots[i]
    {
      PackedSlot(p, i);
    }
  }

  lemma PackedHeader(p: Page)
    requires IsInt32(|p.records|) && IsInt32(p.next)
    ensures DecodeInt32(PackedPage(p)[0..4]) == |p.records|
    ensures DecodeInt32(PackedPage(p)[4..8]) == p.next
  {
    var bs := PackedPage(p);
    assert bs[0..4] == EncodeInt32(|p.records|);
    assert bs[4..8] == EncodeInt32(p.next);
    Int32RoundTrip(|p.records|);
    Int32RoundTrip(p.next);
  }

  /** Slot i of a packed page holds the i-th of its slots. */
  lemma PackedSlot(p: Page, i: nat)
    requires IsInt32(|p.records|) && IsInt32(p.next)
    requires i < |PageSlots(p.records)|
    ensures SlotStart(i) + SIZE_OF_RECORD <= |PackedPage(p)|
    ensures PackedPage(p)[SlotStart(i) .. SlotStart(i) + SIZE_OF_RECORD] == PageSlots(p.records)[i]
  {
    var header := EncodeInt32(|p.records|) + EncodeInt32(p.next);
    assert |header| == HEADER_SIZE;
    HeaderThenChunk(header, PageSlots(p.records), SIZE_OF_RECORD, i);
    assert PackedPage(p) == header + Concat(PageSlots(p.records));
  }

  /** Each record slot of a packed page decodes to its record normalized. */
  lemma PackedSlotsDecode(p: Page)
    requires IsInt32(|p.records|) && IsInt32(p.next)
    ensures forall i :: 0 <= i < |p.records| ==>
              DecodeSlots(PackedPage(p), |p.records|)[i] == Success(NormalizeAll(p.records)[i])
  {
    forall i | 0 <= i < |p.records|
      ensures DecodeSlots(PackedPage(p), |p.records|)[i] == Success(NormalizeAll(p.records)[i])
    {
      PackedSlot(p, i);
      RecordRoundTrip(p.records[i]);
    }
  }

  /**
   * Unpacking a packed page gives back its next page and its records in the
   * same order, each one read back as `Normalize` says.
   */
  lemma PageRoundTrip(p: Page)
    requires PageBytes(p).Success?
    ensures PageFromBytes(PageBytes(p).value) == Success(ReadBack(p))
  {
    PackedHeader(p);
    PackedSlotsDecode(p);
    CollectSucceeds(DecodeSlots(PackedPage(p), |p.records|), NormalizeAll(p.records));
  }

  /** The records of a page as they read back after a pack, in the same order. */
  function NormalizeAll(rs: seq<Record>): (ns: seq<Record>)
    ensures |ns| == |rs|
    ensures forall i :: 0 <= i < |rs| ==> ns[i] == Normalize(rs[i])
  {
    seq(|rs|, i requires 0 <= i < |rs| => Normalize(rs[i]))
  }

  /** The page that `Page.unpack(p.pack())` gives (PageRoundTrip). */
  function ReadBack(p: Page): Page
  {
    Page(NormalizeAll(p.records), p.next)
  }

  /** Appending r to a page of records read back from a file and writing it: r is read back normalized. */
  lemma ReadBackAppend(rs: seq<Record>, r: Record, next: int)
    requires forall x :: x in rs ==> Canonical(x)
    ensures ReadBack(Page(rs + [r], next)) == Page(rs + [Normalize(r)], next)
  {
    forall i | 0 <= i < |rs| ensures Normalize(rs[i]) == rs[i] {
      RecordRoundTrip(rs[i]);
    }
  }

  // ---------------------------------------------------------------------------
  // The loops of `Page.pack` and `Page.unpack`

  /** `Page.pack` */
  method Pack(p: Page) returns (r: Result<seq<byte>, CodecError>)
    ensures r == PageBytes(p)
  {
    if !IsInt32(|p.records|) || !IsInt32(p.next) {
      return Failure(OutOfRange);
    }
    var headerData := EncodeInt32(|p.records|) + EncodeInt32(p.next);
    var recordData := PackSlots(p.records);
    r := Success(headerData + recordData);
  }

  /** The record loop and the padding loop of `Page.pack`. */
  method PackSlots(rs: seq<Record>) returns (recordData: seq<byte>)
    ensures recordData == Concat(PageSlots(rs))
  {
    ghost var slots := PageSlots(rs);
    recordData := [];
    for j := 0 to |rs|
      invariant recordData == Concat(slots[..j])
    {
      ConcatPrefixStep(slots, j);
      assert slots[j] == PackRecord(rs[j]);
      recordData := recordData + PackRecord(rs[j]);
    }
    var i := |rs|;
    while i < BLOCK_FACTOR
      invariant |rs| <= i <= |slots|
      invariant recordData == Concat(slots[..i])
    {
      ConcatPrefixStep(slots, i);
      assert slots[i] == Zeros(SIZE_OF_RECORD);
      recordData := recordData + Zeros(SIZE_OF_RECORD);
      i := i + 1;
    }
    assert slots[..i] == slots;
  }

  /** Slot i of the decoded slots is what `Record.unpack` makes of the bytes at that slot's offset. */
  lemma DecodedSlot(data: seq<byte>, n: nat, i: nat, offset: nat)
    requires i < n && offset == SlotStart(i)
    ensures DecodeSlots(data, n)[i] == UnpackRecord(Slice(data, offset, offset + SIZE_OF_RECORD))
  {
    assert SlotBytes(data, i) == Slice(data, offset, offset + SIZE_OF_RECORD);
    assert DecodeSlots(data, n)[i] == UnpackRecord(SlotBytes(data, i));
  }

  /** `Page.unpack` */
  method Unpack(data: seq<byte>) returns (r: Result<Page, CodecError>)
    ensures r == PageFromBytes(data)
  {
    if |data| < HEADER_SIZE {
      return Failure(WrongSize);
    }
    var size := DecodeInt32(data[0..4]);
    var nextPage := DecodeInt32(data[4..8]);
    var count: nat := if size < 0 then 0 else size;
    ghost var slots := DecodeSlots(data, count);
    var offset := HEADER_SIZE;
    var records: seq<Record> := [];
    for i := 0 to count
      invariant offset == SlotStart(i)
      invariant Collect(slots[..i]) == Success(records)
    {
      var recordData := Slice(data, offset, offset + SIZE_OF_RECORD);
      var record := UnpackRecord(recordData);
      DecodedSlot(data, count, i, offset);
      if record.Failure? {
        CollectFailsAt(slots, i);
        return Failure(record.error);
      }
      CollectExtends(slots, i, records);
      records := records + [record.value];
      offset := offset + SIZE_OF_RECORD;
    }
    PrefixAll(slots);
    r := Success(Page(records, nextPage));
  }
}
