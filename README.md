# Slotted page layout of RelayDB's storage layer

This project models `storage/page.py` in Dafny. That file defines the layout of a *slotted page*, a fixed
4096-byte storage block with four parts, from low to high address:

- an 8-byte little-endian header: `page_id` (uint32), `slot_count` (uint16), `data_end_offset` (uint16);
- a record heap that grows upward from the end of the header;
- free space;
- a slot directory of 4-byte `(offset, length)` entries that grows downward from the end of the page.

The file holds the layout constants, the two `struct` formats `<IHH` and `<HH`, and class `Page` with its
constructor. The model has four modules:

- `Results`: a `Result` type. Every `struct.error` becomes a `Failure`.
- `LittleEndian`: fixed-width unsigned little-endian integers. `Encode` and `Decode` are proved to be
  inverse bijections. Byte `i` of an encoding is proved to carry the digit of weight `256^i`, and the last
  byte is proved to be the most significant.
- `Struct`: the part of Python's `struct` module the page relies on. It covers `calcsize`, `pack` and
  `unpack` for formats made of `<` followed by unsigned codes, including each error they raise: an
  unsupported format, the wrong number of values, a value out of range, and a buffer of the wrong size.
  Packing and unpacking are proved to be inverses in both directions.
- `StoragePage`: the page constants, the header and slot-entry codecs, and `ValidLayout`. `ValidLayout` is
  the invariant over the in-memory fields: `data_end_offset == PAGE_HEADER_SIZE + len(data_bytes)`, the heap
  ends at or before the start of the slot directory, and every slot lies inside the heap. The module also
  holds class `Page`. Its fields are `pageId`, `slots`, `dataBytes` and `dataEndOffset`, its `Valid()` is
  `ValidLayout` over those fields, and its constructor establishes `Valid()`.

`FreeSpace` is the gap between the heap and the directory, as the class docstring describes it
(`storage/page.py:16`). For a fresh page it is 4088 bytes. `FreeSpace` does not reserve room for an
extra slot entry.

## Model

| member | source | states |
|---|---|---|
| `LittleEndian.Encode` | storage/page.py:5-8 | the little-endian encoding of a value below `256^width` has exactly `width` bytes |
| `LittleEndian.Decode` | storage/page.py:5-8 | the value decoded from `k` little-endian bytes is below `256^k` |
| `LittleEndian.DecodeEncode` | storage/page.py:5-8 | decoding the `width`-byte encoding of `x` gives back `x` |
| `LittleEndian.EncodeDecode` | storage/page.py:5-8 | encoding a decoded byte string at its own length gives back the bytes |
| `LittleEndian.EncodeByteAt` | storage/page.py:5 | byte `i` of the encoding is `(x / 256^i) % 256`, so the least significant byte comes first (`<`) |
| `LittleEndian.DecodeAppend` | storage/page.py:5 | an appended byte adds its value times `256^len`, so the last byte is the most significant |
| `Struct.CalcSizeIsPackedSize` | storage/page.py:6 | the size `calcsize` reports is the length of every successful `pack` of that format, and `unpack` accepts a buffer exactly when it has that length |
| `Struct.UnpackFields` | storage/page.py:5-8 | unpacking yields one value per code, each within its code's range |
| `Struct.PackFieldsSucceeds` | storage/page.py:5-8 | packing the fields succeeds iff every value is within its code's range; the output has the format's size, and a failure is always out-of-range |
| `Struct.UnpackPackFields` | storage/page.py:5-8 | unpacking packed fields gives back the values |
| `Struct.PackUnpackFields` | storage/page.py:5-8 | packing unpacked fields gives back the buffer |
| `Struct.PackSucceeds` | storage/page.py:5-8 | `pack` succeeds iff the format is covered, the value count matches and every value is in range; its output has `calcsize(fmt)` bytes; otherwise it fails with the unsupported-format, argument-count or out-of-range error |
| `Struct.UnpackSucceeds` | storage/page.py:5-8 | `unpack` succeeds iff the buffer has exactly `calcsize(fmt)` bytes, and then yields one value per code |
| `Struct.UnpackPack` | storage/page.py:5-8 | `unpack(fmt, pack(fmt, v)) == v` whenever `pack` succeeds |
| `Struct.PackUnpack` | storage/page.py:5-8 | `pack(fmt, unpack(fmt, b)) == b` whenever `unpack` succeeds |
| `StoragePage.FormatSizes` | storage/page.py:5-8 | `PAGE_HEADER_SIZE` is `calcsize('<IHH')` = 4+2+2 = 8 and `SLOT_ENTRY_SIZE` is `calcsize('<HH')` = 2+2 = 4 |
| `StoragePage.HeaderEncoding` | storage/page.py:5-6 | packing the header succeeds iff `page_id < 2^32` and `slot_count` and `data_end_offset` are below `2^16` (all non-negative), failing with out-of-range otherwise; the bytes are `page_id` (4), `slot_count` (2), `data_end_offset` (2), each little-endian |
| `StoragePage.HeaderRoundTrip` | storage/page.py:5-6 | a header that fits encodes to 8 bytes and decodes back to the same triple |
| `StoragePage.HeaderBytesRoundTrip` | storage/page.py:5-6 | decoding succeeds iff the buffer has 8 bytes (otherwise the buffer-size error); a decoded header fits and re-encodes to the same bytes |
| `StoragePage.SlotEntryEncoding` | storage/page.py:7-8 | packing a slot entry succeeds iff offset and length are in `[0, 2^16)`, failing with out-of-range otherwise; the bytes are offset then length, 2 little-endian bytes each |
| `StoragePage.SlotEntryRoundTrip` | storage/page.py:7-8 | an entry that fits encodes to 4 bytes and decodes back to the same pair |
| `StoragePage.SlotEntryBytesRoundTrip` | storage/page.py:7-8 | decoding succeeds iff the buffer has 4 bytes (otherwise the buffer-size error); a decoded entry fits and re-encodes to the same bytes |
| `StoragePage.RegionsTilePage` | storage/page.py:11-17 | on a valid layout, header, record heap, free space and slot directory are consecutive and cover exactly `PAGE_SIZE` bytes; free space is non-negative; at most 1022 slots fit |
| `StoragePage.SlotsAddressDataBytes` | storage/page.py:14 | on a valid layout, every slot's `[offset - PAGE_HEADER_SIZE, offset - PAGE_HEADER_SIZE + length)` lies within `data_bytes` |
| `StoragePage.InPageValuesFit` | storage/page.py:4-8 | on a valid layout, every in-page position fits 16 bits: each slot entry packs, and the header packs iff `page_id` fits 32 bits |
| `StoragePage.FreshLayout` | storage/page.py:19-23 | the empty state that `__init__` creates satisfies the layout invariant and leaves 4096 - 8 = 4088 bytes free |
| `StoragePage.Page.constructor` | storage/page.py:19-23 | `Page(page_id)` keeps the caller's `page_id`, has no slots and no payload bytes, sets `data_end_offset == PAGE_HEADER_SIZE`, is `Valid()`, and has 4088 bytes free |

## Left out

- Insert, read, delete, free-space checks and whole-page serialise/deserialise are not part of this model, because `storage/page.py` contains only the constants and `__init__`. The model states layout and encoding facts only.
- The import at `storage/page.py:2` names a module `Typing`, which does not exist (the standard module is `typing`). It is a defect with no behaviour to model.
- `pyconfig/struct_example.py` is not part of this model. It is a demonstration script that prints the results of the `struct` library.
- `Struct.CalcSize`, `Struct.Pack` and `Struct.Unpack` cover only formats that start with `<` and use the unsigned codes `B`, `H`, `I`, `L` and `Q`. Python also accepts other byte orders, signed, float and padding codes, repeat counts and whitespace. The model reports each of these as `UnsupportedFormat` instead. The page's two formats lie inside the covered part.
- `Struct.Pack`'s out-of-range error does not carry Python's exact message text.
- Python would also reject a non-integer argument to `pack`. This cannot arise in the model, because values are typed `int`.
- Page allocation, the buffer pool, disk I/O, logging and concurrent access to a page are not part of this model. None of them appear in `storage/page.py`.
- `StoragePage.Page.constructor`: `__init__` does not range-check `page_id`, so the constructor accepts any integer. The 32-bit limit only matters when the header is packed, and `StoragePage.HeaderEncoding` states it there.
