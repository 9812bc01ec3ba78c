# Block files: a static hash file with overflow chains, and a paged heap file

This project models two small file organisations in Dafny. Each stores fixed-size
records in fixed-size blocks inside one file.

- **Static hashing** (`static_hashing.py`). A sales record holds a sale id, a product
  name, a quantity, a unit price and a date. Each record lives in a bucket: an 8-byte
  header (record count, byte offset of the next bucket or -1) followed by 4 record slots.
  - The first 10 buckets are the main buckets. A record goes to main bucket
    `id % 10`.
  - When the main bucket and its overflow buckets are full, a new overflow bucket is
    appended at the end of the file and linked from the chain's tail.
  - `add`, `search`, `delete` and `scanAll` walk that chain.
- **Paged heap file** (`ISAM1.py`). A student record holds a first name, a last name
  and a term. Records sit in pages of the same header-plus-slots shape, with 3 slots
  per page. `add` fills the last page, or appends a new page when the last one is
  full. `scanAll` reads the pages in order.

The file is modelled as a sequence of block values. Block `i` sits at byte offset
`i * SIZE`, where `SIZE` is the bucket or page size. A `next` field keeps the source's
byte offset. The byte codecs are modelled byte for byte:
- native `struct` alignment, so `'i30sif10s'` is 54 bytes with two padding bytes
  after the 30-byte name;
- 32-bit little-endian integers;
- text fields truncated, space-padded and right-stripped.

A record stored in the file therefore reads back "normalised": its text fields are
truncated and stripped. The model states every file operation on the blocks as they
read back.

Modules:
- `Wrappers`: Option, Result, and collecting a sequence of results.
- `Struct`: the `struct` field codecs.
- `HashBucket`: the sales record and the bucket codec.
- `HashChains`: the specification of the hash file as functions over a sequence of
  buckets, with its lemmas.
- `StaticHash`: the imperative chain walks and the `StaticHashing` class.
- `IsamPage`: the student record and the page codec.
- `IsamDataFile`: the heap file state, its specification and the `DataFile` class.

## Notes on the source

- `ISAM1.py` is an append-only paged heap file. It has no index, no page split or
  chain, and no search or delete. The model covers exactly what it does.
- `bytes.decode()` decodes UTF-8. It raises `UnicodeDecodeError` on bytes that are
  not valid UTF-8, and the model carries that failure as `NotText`. The model accepts
  only ASCII text, so it also reports `NotText` for a valid multi-byte sequence; see
  "Left out". Records the model stores are ASCII, so their read-back never fails.

## Model

| member | source | states |
|---|---|---|
| Struct.Int32RoundTrip | static_hashing.py:36-48 | decoding the 4 little-endian bytes of a 32-bit `i` field gives back the integer |
| Struct.LittleEndianRoundTrip | static_hashing.py:36-48 | n-byte little-endian encoding of any u < 256^n decodes to u |
| Struct.TextFieldRoundTrip | static_hashing.py:39 | reading a packed `Ns` field back gives the text truncated to N characters with its trailing white space stripped |
| Struct.FieldValueKeeps | static_hashing.py:48 | text that fits its width and does not end in white space reads back unchanged |
| Struct.RStripSpaces | static_hashing.py:48 | `rstrip` removes the `ljust` space padding: padding then stripping equals stripping |
| Struct.RStrip | static_hashing.py:48 | the result is a prefix of the input that does not end in white space, and only white space was removed |
| Struct.ConcatSlot | static_hashing.py:70-77 | in bytes made of equal-width chunks, chunk i occupies bytes i*w up to i*w+w |
| Struct.HeaderThenChunk | static_hashing.py:77 | after a header, chunk i of the record data starts at header length + i*w |
| Wrappers.Collect | static_hashing.py:83-86 | collecting decoded records succeeds iff every record decoded, and then yields their values in order |
| Wrappers.CollectFailsAt | static_hashing.py:83-86 | the first record that fails to decode makes the unpack fail with its error |
| Wrappers.CollectStaysFailed | static_hashing.py:85 | once one record fails to decode, the whole unpack fails with that error |
| Wrappers.CollectSucceeds | static_hashing.py:83-86 | when every record decodes, unpacking yields exactly their values |
| HashBucket.PackRecordFields | static_hashing.py:26-43 | the 54 packed bytes are: id at 0..4, name at 4..34, two zero pad bytes, quantity at 36..40, price at 40..44, date at 44..54 |
| HashBucket.RecordRoundTrip | static_hashing.py:36-48 | unpack of pack gives the normalised record (text truncated to 30/10 characters and right-stripped), with the same id; a canonical record comes back unchanged |
| HashBucket.NormalizeCanonical | static_hashing.py:39-48 | a record that was read back is canonical, so a second write and read changes nothing |
| HashBucket.BucketLayout | static_hashing.py:62-77 | a bucket with at most 4 records packs to 224 bytes: header count = number of records, header next = next, slot i holds record i, slots count..3 are zero bytes |
| HashBucket.PackedSlot | static_hashing.py:68-77 | slot i of the packed bytes is the i-th packed or zero slot |
| HashBucket.PackedSlotsDecode | static_hashing.py:79-86 | the first `count` slots of a packed bucket decode to the normalised records |
| HashBucket.BucketRoundTrip | static_hashing.py:68-87 | unpack of pack gives the same next, the same number of records and the normalised records in the same order |
| HashBucket.ReadBackAppend | static_hashing.py:109-111 | appending a record to a read-back bucket and writing it reads back as the old records plus the normalised new one |
| HashBucket.ReadBackKeeps | static_hashing.py:130-132 | a bucket whose records are canonical reads back unchanged |
| HashBucket.Pack | static_hashing.py:68-77 | the loop-built bytes equal the header followed by the packed records and zero slots; pack fails exactly when count or next is outside 32 bits |
| HashBucket.PackSlots | static_hashing.py:70-76 | the two loops produce the packed records followed by 4 - count zero slots |
| HashBucket.Unpack | static_hashing.py:79-87 | the loop decodes the header and the first `count` slots and fails with the first error, exactly as `BucketFromBytes` states |
| HashChains.Hash | static_hashing.py:100-101 | the bucket index is in 0..9 and congruent to the key modulo 10, for negative keys as well |
| HashChains.MainBucketOffset | static_hashing.py:103-104 | the main bucket's offset is `hash * SIZE_OF_BUCKET`, block aligned, inside the 10 main buckets |
| HashChains.ChainShape | static_hashing.py:115-118 | following `next` from a bucket visits strictly increasing blocks, each linked to the next, ending at next = -1 |
| HashChains.ChainNext | static_hashing.py:115-118 | a chain position is the last one iff its next is -1; otherwise next is the offset of the following block |
| HashChains.EmptyMainBucketsInv | static_hashing.py:94-99 | the 10 empty main buckets satisfy the file invariant and scan to no records |
| HashChains.FirstWithRoom | static_hashing.py:108-123 | the chosen bucket has room and every earlier bucket in the chain is full |
| HashChains.AddToMainBucket | static_hashing.py:108-112 | when the main bucket has room, add appends the record there and changes nothing else; the file does not grow |
| HashChains.AddToBucketWithRoom | static_hashing.py:114-123 | otherwise the first bucket in chain order with room receives the record; only that bucket changes |
| HashChains.FirstWithRoomIsFirst | static_hashing.py:119 | the first chain position with room is the one `add` stops at |
| HashChains.AddToNewBucket | static_hashing.py:125-132 | when the whole chain is full, exactly one bucket [record] with next -1 is appended and the old tail's next becomes its offset; all other buckets are unchanged |
| HashChains.AddedInv | static_hashing.py:102-132 | add keeps the invariant: no bucket holds more than 4 records, chains stay linked and disjoint, each record is in its key's chain |
| HashChains.AddedChains | static_hashing.py:102-132 | add inserts the record into its key's chain of records, at the end of the first bucket with room |
| HashChains.AddedOthers | static_hashing.py:102-132 | add leaves every other main bucket's chain of records unchanged |
| HashChains.AddThenLookup | static_hashing.py:102-132 | after add(r), search(r.id) finds a record with that id; it finds r itself if the key was absent; other keys' results do not change |
| HashChains.ScanAdded | static_hashing.py:102-154 | after add(r), the scanned records are the old ones plus r, as a multiset |
| HashChains.FindIndexAppend | static_hashing.py:160-168 | searching a concatenation finds the first match in the first part, else in the second |
| HashChains.FindFirstAppend | static_hashing.py:160-168 | searching bucket after bucket equals searching the chain's records in order |
| HashChains.GatherMisses | static_hashing.py:163-169 | when no bucket in the chain holds the key, the chain's records do not hold it |
| HashChains.FirstHoldingFinds | static_hashing.py:176-193 | the first bucket holding the key exists iff the chain's records hold it, and the match in that bucket is the chain's first match |
| HashChains.DeleteEffect | static_hashing.py:170-194 | delete returns True iff search finds the key; on False the file is unchanged; on True exactly one bucket of the chain loses the first record with that key, and its next is kept |
| HashChains.DeleteFromBucket | static_hashing.py:176-193 | the first bucket in chain order holding the key loses its first such record, and nothing else changes |
| HashChains.DeleteAbsent | static_hashing.py:182-194 | when no bucket in the chain holds the key, delete returns False and leaves the file unchanged |
| HashChains.DeletedChains | static_hashing.py:170-194 | delete removes the first record with the key from the key's chain of records, and buckets stay linked even when emptied |
| HashChains.DeletedOthers | static_hashing.py:170-194 | delete leaves every other main bucket's chain unchanged |
| HashChains.DeletedInv | static_hashing.py:170-194 | delete keeps the file invariant, including the links of emptied buckets |
| HashChains.DeleteThenLookup | static_hashing.py:155-194 | after delete(k), search of another key is unchanged; if k was stored once, search(k) finds nothing |
| HashChains.ScanDeleted | static_hashing.py:133-194 | when delete returns True, the scanned records lose exactly the found record, as a multiset |
| HashChains.LookupFindsStored | static_hashing.py:155-169 | any record stored in any bucket is found by a search for its id |
| HashChains.ChainAfterAppend | static_hashing.py:125-132 | linking a new tail extends exactly the chains that pass through the old tail |
| StaticHash.AddedCanonical | static_hashing.py:109-111 | adding a canonical record keeps every stored record canonical |
| StaticHash.DeletedCanonical | static_hashing.py:178-192 | deleting keeps every stored record canonical |
| StaticHash.FindInRecords | static_hashing.py:160-162 | the loop over a bucket's records returns the first record with the key, or none |
| StaticHash.IndexInRecords | static_hashing.py:176-177 | the enumerate loop stops at the index of the first record with the key, or at the end |
| StaticHash.WalkToRoom | static_hashing.py:103-123 | the walk stops at the offset of the first chain bucket with room, or at the tail when all are full |
| StaticHash.WriteWithRoom | static_hashing.py:108-123 | writing into the bucket with room gives exactly the specified file after add |
| StaticHash.WriteNewBucket | static_hashing.py:125-132 | appending the new bucket and rewriting the tail gives exactly the specified file after add |
| StaticHash.AddToFile | static_hashing.py:102-132 | the imperative add produces the specified file with the normalised record |
| StaticHash.SearchFile | static_hashing.py:155-169 | the imperative search returns the first record with the key along its chain, or none |
| StaticHash.DeleteFromFile | static_hashing.py:170-194 | the imperative delete returns the specified found flag and file |
| StaticHash.ChainOf | static_hashing.py:144-154 | the overflow walk lists the records of one chain in chain order |
| StaticHash.ScanFile | static_hashing.py:133-154 | scanAll lists the chains of main buckets 0..9 in order, each in chain order |
| StaticHash.FoundOnChain | static_hashing.py:163-168 | a match in a later bucket, after no match in earlier ones, is the chain's first match |
| StaticHash.StaticHashing.constructor | static_hashing.py:90-99 | a file shorter than 10 buckets is initialised with 10 empty main buckets; otherwise the file is kept |
| StaticHash.StaticHashing.Add | static_hashing.py:102-132 | the file becomes the specified file after adding the record as it reads back, and the invariant holds |
| StaticHash.StaticHashing.Search | static_hashing.py:155-169 | returns the specified lookup result |
| StaticHash.StaticHashing.Delete | static_hashing.py:170-194 | returns the specified found flag, sets the specified file, and keeps the invariant |
| StaticHash.StaticHashing.ScanAll | static_hashing.py:133-154 | returns the records of all chains in scan order |
| IsamPage.PackRecordFields | ISAM1.py:7-20 | the 44 packed bytes are: first name at 0..20, last name at 20..40, term at 40..44 |
| IsamPage.RecordRoundTrip | ISAM1.py:15-25 | unpack of pack gives the record with both names truncated to 20 characters and right-stripped; a canonical record comes back unchanged |
| IsamPage.NormalizeCanonical | ISAM1.py:17-25 | a record read back is canonical |
| IsamPage.PageLayout | ISAM1.py:31-48 | a page with at most 3 records packs to 140 bytes: header count = number of records, header next = next, records in their slots, remaining slots zero |
| IsamPage.PackedSlot | ISAM1.py:39-48 | slot i of the packed bytes is the i-th packed or zero slot |
| IsamPage.PackedSlotsDecode | ISAM1.py:51-58 | the first `count` slots decode to the normalised records |
| IsamPage.PageRoundTrip | ISAM1.py:39-59 | unpack of pack keeps next, the count and the normalised records in order |
| IsamPage.ReadBackAppend | ISAM1.py:83-85 | appending to a read-back page and rewriting it reads back as the old records plus the normalised new one |
| IsamPage.Pack | ISAM1.py:39-48 | the loop-built bytes equal the specified page bytes |
| IsamPage.PackSlots | ISAM1.py:41-47 | the loops produce the packed records followed by 3 - count zero slots |
| IsamPage.Unpack | ISAM1.py:50-59 | the loop decodes the header and the first `count` slots |
| IsamDataFile.Added | ISAM1.py:66-90 | add fails exactly on an existing empty file, where the seek offset is negative; otherwise the file exists afterwards |
| IsamDataFile.ScanAfterAdd | ISAM1.py:66-102 | scanAll after add(r) lists the records it listed before, then r as it reads back |
| IsamDataFile.ScanAfterAdds | ISAM1.py:66-102 | scanAll after n >= 1 adds to a missing file lists exactly the added records, in insertion order, as they read back |
| IsamDataFile.AddAppends | ISAM1.py:66-90 | add appends the normalised record to the file's records. A non-full last page keeps the page count; a full one gets exactly one new page [record] with next -1; earlier pages are untouched |
| IsamDataFile.AddKeepsPacked | ISAM1.py:66-90 | add keeps the invariant that all pages but the last are full, the last holds 1..3 records, and every next is -1 |
| IsamDataFile.PageCount | ISAM1.py:66-90 | under that invariant the page count is ceil(records / 3) |
| IsamDataFile.FullPagesCount | ISAM1.py:81-90 | full pages hold exactly 3 records each |
| IsamDataFile.AddAllFromMissing | ISAM1.py:66-90 | after n >= 1 adds to a missing file, the pages satisfy the invariant, hold the records in insertion order, and number ceil(n / 3) |
| IsamDataFile.AddLast | ISAM1.py:66-90 | one more add extends the records in insertion order and keeps the invariant |
| IsamDataFile.AddedCanonical | ISAM1.py:80-90 | add keeps every stored record canonical |
| IsamDataFile.DataFile.constructor | ISAM1.py:63-64 | the handle starts on the given file state |
| IsamDataFile.DataFile.Add | ISAM1.py:66-90 | on success the file becomes the specified file after add; on an existing empty file the result is the negative-seek error and the file is unchanged |
| IsamDataFile.AddToDisk | ISAM1.py:66-90 | the block-by-block add (create, or seek to filesize - 140, read the last page, then rewrite it or append a page) yields exactly the specified file after add, including the negative-seek error on an existing empty file |
| IsamDataFile.NewPage | ISAM1.py:71-72 | a new one-record page, written and read back, holds the record as it reads back and has next -1 |
| IsamDataFile.AppendToPage | ISAM1.py:81-85 | a page of canonical records with the record appended, rewritten and read back, keeps its records and next and gains the record as it reads back |
| IsamDataFile.DataFile.ScanAll | ISAM1.py:92-102 | the loop over pages 0..filesize/140-1 returns the specified scan: all records in page order |

## Left out

- `import_csv` (static_hashing.py:7-21) is left out: it parses a CSV file, which is I/O.
- The demonstration drivers are left out: the `__main__` block (static_hashing.py:197-268)
  and the top-level script (ISAM1.py:104-113). The first recreates `datahashing.dat` and
  runs adds, searches and deletes on it. The second appends seven records to `datos.dat`
  and scans them. Both are sequences of calls to the modelled operations.
- The `__str__` methods are left out, and so is the printing in both `scanAll`s. Each
  `scanAll` returns its records as a sequence instead.
- The unit price is a 32-bit float. The model carries it as its 4 packed bytes, an
  opaque payload, and does no floating-point rounding.
- Text is restricted to ASCII, and multi-byte UTF-8 is not modelled.
  - With multi-byte UTF-8, a 30-character name could encode to more than 30 bytes and
    be cut mid-character.
  - HashBucket.UnpackRecord, IsamPage.UnpackRecord, HashBucket.Unpack and
    IsamPage.Unpack return `NotText` for any text byte of 0x80 or more. On a valid
    multi-byte UTF-8 sequence such as C3 A9, the source decodes a record instead.
- The integer fields `idVenta`, `cantidadVendida` and `ciclo` are typed as 32-bit
  values. In the source, `struct.pack` raises `struct.error` inside `Record.pack` for an
  out-of-range value (static_hashing.py:37, ISAM1.py:16). That happens before anything is
  written, so `add` raises and the file is unchanged. The model cannot express such a
  record, so it does not model that failed `add`.
- File handles, `seek`/`tell` and `os.path.exists` become the file state: a sequence
  of block values, or `Missing` for the heap file.
  - Files whose size is not a whole number of blocks are not modelled.
  - A trailing partial block is not modelled.
- Only little-endian native byte order is modelled.
- The shared mutable default `records = []` of `Bucket` and `Page` is left out. Each
  model block has its own sequence, which matches every call site in the source.
- The chain walks in `StaticHash` read the buckets as values of the file sequence.
  The class holds the file as a `seq` that its methods reassign. Byte-level reads and
  writes go through `Pack`/`Unpack`, and `ReadBack` states their combined effect.
- Block counts and `next` offsets are unbounded integers. A file large enough to push
  an offset past 32 bits, where `struct.pack` of the header would raise, is not modelled.
- StaticHash.StaticHashing.Add, StaticHash.StaticHashing.Delete, StaticHash.AddToFile,
  StaticHash.DeleteFromFile and IsamDataFile.DataFile.constructor require every stored
  record to be canonical, as every record is after a read-back. A file holding records
  that would not survive a write and read is not a state the source can produce.
- IsamDataFile.AddToDisk and IsamDataFile.AppendToPage require the same of the file, or
  of the page, that they extend, for the same reason.
- IsamDataFile.DataFile.ScanAll returns records only for whole pages. A file holding a
  byte count that is not a multiple of the page size is not a state of the model.
