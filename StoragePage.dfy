/** The slotted page of storage/page.py: one fixed-size block holding a
    header, a record heap that grows upward from the end of the header, a
    slot directory of `(offset, length)` entries that grows downward from
    the end of the block, and free space between the two. */
module StoragePage {
  import opened Results
  import opened LittleEndian
  import Struct

  /** PAGE_SIZE: bytes in one page. */
  const PageSize: nat := 4096

  /** PAGE_HEADER_FMT: page_id (uint32), slot_count (uint16),
      data_end_offset (uint16), little-endian. */
  const PageHeaderFmt: string := "<IHH"

  /** PAGE_HEADER_SIZE, which the source obtains as
      `struct.calcsize(PAGE_HEADER_FMT)`; see FormatSizes. */
  const PageHeaderSize: nat := 8

  /** SLOT_ENTRY_FMT: offset (uint16), length (uint16), little-endian. */
  const SlotEntryFmt: string := "<HH"

  /** SLOT_ENTRY_SIZE, which the source obtains as
      `struct.calcsize(SLOT_ENTRY_FMT)`; see FormatSizes. */
  const SlotEntrySize: nat := 4

  /** The sizes are what `calcsize` gives for the two formats: a 4-byte and
      two 2-byte fields for the header, two 2-byte fields for a slot entry. */
  lemma FormatSizes()
    ensures Struct.CalcSize(PageHeaderFmt) == Success(PageHeaderSize)
    ensures Struct.CalcSize(SlotEntryFmt) == Success(SlotEntrySize)
    ensures PageHeaderSize == Struct.Width('I') + Struct.Width('H') + Struct.Width('H')
    ensures SlotEntrySize == Struct.Width('H') + Struct.Width('H')
  {
    assert PageHeaderFmt[1..] == ['I', 'H', 'H'];
    assert SlotEntryFmt[1..] == ['H', 'H'];
  }

  // ---------------------------------------------------------------- header

  /** The three header fields, as Python ints before packing. */
  datatype Header = Header(pageId: int, slotCount: int, dataEndOffset: int)

  /** The header fields fit their `<IHH` codes. */
  predicate HeaderFits(h: Header) {
    && 0 <= h.pageId < 0x1_0000_0000
    && 0 <= h.slotCount < 0x1_0000
    && 0 <= h.dataEndOffset < 0x1_0000
  }

  /** `struct.pack(PAGE_HEADER_FMT, page_id, slot_count, data_end_offset)`. */
  function EncodeHeader(h: Header): (r: Result<seq<byte>, Struct.StructError>) {
    Struct.Pack(PageHeaderFmt, [h.pageId, h.slotCount, h.dataEndOffset])
  }

  /** `struct.unpack(PAGE_HEADER_FMT, b)`. */
  function DecodeHeader(b: seq<byte>): (r: Result<Header, Struct.StructError>) {
    var v :- Struct.Unpack(PageHeaderFmt, b);
    Success(Header(v[0], v[1], v[2]))
  }

  /** Packing the header succeeds exactly when the fields fit, fails with
      `struct.error` otherwise, and lays the fields out as 4 + 2 + 2
      little-endian bytes in declaration order. */
  lemma HeaderEncoding(h: Header)
    ensures EncodeHeader(h).Success? <==> HeaderFits(h)
    ensures !HeaderFits(h) ==> EncodeHeader(h).Failure? &&
                               EncodeHeader(h).error.ArgumentOutOfRange?
    ensures HeaderFits(h) ==>
              EncodeHeader(h).value ==
                Encode(h.pageId, 4) + Encode(h.slotCount, 2) + Encode(h.dataEndOffset, 2)
  {
    var vs := [h.pageId, h.slotCount, h.dataEndOffset];
    var c := PageHeaderFmt[1..];
    assert c == ['I', 'H', 'H'] && c[1..] == ['H', 'H'] && c[2..] == ['H'] && c[3..] == [];
    assert vs[1..] == [h.slotCount, h.dataEndOffset] && vs[2..] == [h.dataEndOffset] && vs[3..] == [];
    Struct.PackSucceeds(PageHeaderFmt, vs);
    if HeaderFits(h) {
      assert c[1..][1..] == c[2..] && c[2..][1..] == c[3..];
      assert vs[1..][1..] == vs[2..] && vs[2..][1..] == vs[3..];
      assert Struct.PackFields(c[3..], vs[3..]) == Success([]);
      assert Pow256(2) == 0x1_0000 && Pow256(4) == 0x1_0000_0000;
      assert Encode(h.dataEndOffset, 2) + [] == Encode(h.dataEndOffset, 2);
      assert Struct.PackFields(c[2..], vs[2..]) == Success(Encode(h.dataEndOffset, 2));
      assert Struct.PackFields(c[1..], vs[1..])
          == Success(Encode(h.slotCount, 2) + Encode(h.dataEndOffset, 2));
    }
  }

  /** A header that fits encodes to exactly PAGE_HEADER_SIZE bytes and
      decodes back to itself. */
  lemma HeaderRoundTrip(h: Header)
    requires HeaderFits(h)
    ensures EncodeHeader(h).Success?
    ensures |EncodeHeader(h).value| == PageHeaderSize
    ensures DecodeHeader(EncodeHeader(h).value) == Success(h)
  {
    var vs := [h.pageId, h.slotCount, h.dataEndOffset];
    HeaderEncoding(h);
    FormatSizes();
    Struct.PackSucceeds(PageHeaderFmt, vs);
    Struct.UnpackPack(PageHeaderFmt, vs);
  }

  /** Any PAGE_HEADER_SIZE bytes decode to a header that fits and encodes
      back to the same bytes; any other length is a `struct.error`. */
  lemma HeaderBytesRoundTrip(b: seq<byte>)
    ensures DecodeHeader(b).Success? <==> |b| == PageHeaderSize
    ensures |b| != PageHeaderSize ==>
              DecodeHeader(b) == Failure(Struct.BufferSize(PageHeaderSize, |b|))
    ensures DecodeHeader(b).Success? ==>
              HeaderFits(DecodeHeader(b).value) &&
              EncodeHeader(DecodeHeader(b).value) == Success(b)
  {
    FormatSizes();
    Struct.UnpackSucceeds(PageHeaderFmt, b);
    if |b| == PageHeaderSize {
      var v := Struct.Unpack(PageHeaderFmt, b).value;
      assert PageHeaderFmt[1..] == ['I', 'H', 'H'];
      assert Struct.InRange('I', v[0]) && Struct.InRange('H', v[1]) && Struct.InRange('H', v[2]);
      assert [v[0], v[1], v[2]] == v;
      Struct.PackUnpack(PageHeaderFmt, b);
    }
  }

  // ------------------------------------------------------------ slot entry

  /** One slot directory entry, as the `(offset, length)` tuple of `slots`. */
  datatype SlotEntry = SlotEntry(offset: int, length: int)

  /** The entry fits its `<HH` codes. */
  predicate SlotEntryFits(s: SlotEntry) {
    0 <= s.offset < 0x1_0000 && 0 <= s.length < 0x1_0000
  }

  /** `struct.pack(SLOT_ENTRY_FMT, offset, length)`. */
  function EncodeSlotEntry(s: SlotEntry): (r: Result<seq<byte>, Struct.StructError>) {
    Struct.Pack(SlotEntryFmt, [s.offset, s.length])
  }

  /** `struct.unpack(SLOT_ENTRY_FMT, b)`. */
  function DecodeSlotEntry(b: seq<byte>): (r: Result<SlotEntry, Struct.StructError>) {
    var v :- Struct.Unpack(SlotEntryFmt, b);
    Success(SlotEntry(v[0], v[1]))
  }

  /** Packing an entry succeeds exactly when both fields fit, and lays them
      out as 2 + 2 little-endian bytes, offset first. */
  lemma SlotEntryEncoding(s: SlotEntry)
    ensures EncodeSlotEntry(s).Success? <==> SlotEntryFits(s)
    ensures !SlotEntryFits(s) ==> EncodeSlotEntry(s).Failure? &&
                                  EncodeSlotEntry(s).error.ArgumentOutOfRange?
    ensures SlotEntryFits(s) ==>
              EncodeSlotEntry(s).value == Encode(s.offset, 2) + Encode(s.length, 2)
  {
    var vs := [s.offset, s.length];
    var c := SlotEntryFmt[1..];
    assert c == ['H', 'H'] && c[1..] == ['H'] && c[2..] == [];
    assert vs[1..] == [s.length] && vs[2..] == [];
    Struct.PackSucceeds(SlotEntryFmt, vs);
    if SlotEntryFits(s) {
      assert c[1..][1..] == c[2..] && vs[1..][1..] == vs[2..];
      assert Struct.PackFields(c[2..], vs[2..]) == Success([]);
      assert Pow256(2) == 0x1_0000;
      assert Encode(s.length, 2) + [] == Encode(s.length, 2);
      assert Struct.PackFields(c[1..], vs[1..]) == Success(Encode(s.length, 2));
    }
  }

  /** An entry that fits encodes to exactly SLOT_ENTRY_SIZE bytes and decodes
      back to itself. */
  lemma SlotEntryRoundTrip(s: SlotEntry)
    requires SlotEntryFits(s)
    ensures EncodeSlotEntry(s).Success?
    ensures |EncodeSlotEntry(s).value| == SlotEntrySize
    ensures DecodeSlotEntry(EncodeSlotEntry(s).value) == Success(s)
  {
    var vs := [s.offset, s.length];
    SlotEntryEncoding(s);
    FormatSizes();
    Struct.PackSucceeds(SlotEntryFmt, vs);
    Struct.UnpackPack(SlotEntryFmt, vs);
  }

  /** Any SLOT_ENTRY_SIZE bytes decode to an entry that fits and encodes back
      to the same bytes; any other length is a `struct.error`. */
  lemma SlotEntryBytesRoundTrip(b: seq<byte>)
    ensures DecodeSlotEntry(b).Success? <==> |b| == SlotEntrySize
    ensures |b| != SlotEntrySize ==>
              DecodeSlotEntry(b) == Failure(Struct.BufferSize(SlotEntrySize, |b|))
    ensures DecodeSlotEntry(b).Success? ==>
              SlotEntryFits(DecodeSlotEntry(b).value) &&
              EncodeSlotEntry(DecodeSlotEntry(b).value) == Success(b)
  {
    FormatSizes();
    Struct.UnpackSucceeds(SlotEntryFmt, b);
    if |b| == SlotEntrySize {
      var v := Struct.Unpack(SlotEntryFmt, b).value;
      assert SlotEntryFmt[1..] == ['H', 'H'];
      assert Struct.InRange('H', v[0]) && Struct.InRange('H', v[1]);
      assert [v[0], v[1]] == v;
      Struct.PackUnpack(SlotEntryFmt, b);
    }
  }

  // ---------------------------------------------------------------- layout

  /** First byte of the slot directory when it holds `slotCount` entries:
      the directory ends at PAGE_SIZE and grows downward. */
  function DirectoryStart(slotCount: nat): (start: int) {
    PageSize - slotCount * SlotEntrySize
  }

  /** Bytes between the end of the record heap and the slot directory. */
  function FreeSpace(slotCount: nat, dataEndOffset: int): (gap: int) {
    DirectoryStart(slotCount) - dataEndOffset
  }

  /** A slot addresses bytes of the record heap `[PAGE_HEADER_SIZE,
      data_end_offset)`; a deleted slot (length 0) keeps an offset there. */
  predicate SlotInHeap(s: SlotEntry, dataEndOffset: int) {
    PageHeaderSize <= s.offset && 0 <= s.length && s.offset + s.length <= dataEndOffset
  }

  /** The page invariant on the three in-memory fields: `data_end_offset`
      points just past the payload bytes, the record heap does not run into
      the slot directory, and every slot lies inside the record heap. */
  predicate ValidLayout(slots: seq<SlotEntry>, dataLength: nat, dataEndOffset: int) {
    && dataEndOffset == PageHeaderSize + dataLength
    && dataEndOffset <= DirectoryStart(|slots|)
    && forall i :: 0 <= i < |slots| ==> SlotInHeap(slots[i], dataEndOffset)
  }

  /** Header, record heap, free space and slot directory are consecutive,
      non-overlapping and together cover the page; free space is never
      negative, so at most 1022 slots fit. */
  lemma RegionsTilePage(slots: seq<SlotEntry>, dataLength: nat, dataEndOffset: int)
    requires ValidLayout(slots, dataLength, dataEndOffset)
    ensures 0 < PageHeaderSize <= dataEndOffset <= DirectoryStart(|slots|) <= PageSize
    ensures FreeSpace(|slots|, dataEndOffset) >= 0
    ensures PageHeaderSize + dataLength + FreeSpace(|slots|, dataEndOffset)
            + |slots| * SlotEntrySize == PageSize
    ensures |slots| <= (PageSize - PageHeaderSize) / SlotEntrySize == 1022
  {
  }

  /** Each slot's payload is a slice of `data_bytes`: the heap starts at
      PAGE_HEADER_SIZE, so slot offsets minus PAGE_HEADER_SIZE index into
      the concatenated payloads. */
  lemma SlotsAddressDataBytes(slots: seq<SlotEntry>, dataLength: nat, dataEndOffset: int, i: nat)
    requires ValidLayout(slots, dataLength, dataEndOffset)
    requires i < |slots|
    ensures 0 <= slots[i].offset - PageHeaderSize
    ensures slots[i].offset - PageHeaderSize + slots[i].length <= dataLength
  {
  }

  /** Every position inside the page fits 16 bits, so on a valid page
      `slot_count`, `data_end_offset` and every slot's offset and length pack
      without overflow, and the header packs whenever `page_id` fits 32 bits. */
  lemma {:induction false} InPageValuesFit(pageId: int, slots: seq<SlotEntry>, dataLength: nat, dataEndOffset: int)
    requires ValidLayout(slots, dataLength, dataEndOffset)
    ensures PageSize <= 0x1_0000
    ensures EncodeHeader(Header(pageId, |slots|, dataEndOffset)).Success?
            <==> 0 <= pageId < 0x1_0000_0000
    ensures forall i :: 0 <= i < |slots| ==> EncodeSlotEntry(slots[i]).Success?
  {
    HeaderEncoding(Header(pageId, |slots|, dataEndOffset));
    forall i | 0 <= i < |slots| ensures EncodeSlotEntry(slots[i]).Success? {
      SlotEntryEncoding(slots[i]);
    }
  }

  /** The state `__init__` creates is valid and leaves 4088 bytes free. */
  lemma FreshLayout()
    ensures ValidLayout([], 0, PageHeaderSize)
    ensures FreeSpace(0, PageHeaderSize) == PageSize - PageHeaderSize == 4088
  {
  }

  // ------------------------------------------------------------------ page

  /** `Page`: the in-memory form of one page. `slots` is a list and
      `data_bytes` a bytearray, both declared growable. */
  class Page {
    var pageId: int
    var slots: seq<SlotEntry>
    var dataBytes: seq<byte>
    var dataEndOffset: int

    ghost predicate Valid()
      reads this
    {
      ValidLayout(slots, |dataBytes|, dataEndOffset)
    }

    /** `Page(page_id)`: no slots, no payload bytes, and `data_end_offset`
        at the end of the header. */
    constructor (pageId: int)
      ensures Valid()
      ensures this.pageId == pageId
      ensures slots == [] && dataBytes == []
      ensures dataEndOffset == PageHeaderSize
      ensures FreeSpace(|slots|, dataEndOffset) == 4088
    {
      this.pageId := pageId;
      slots := [];
      dataBytes := [];
      dataEndOffset := PageHeaderSize;
    }
  }
}
