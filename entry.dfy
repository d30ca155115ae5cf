/** Image File Directory entries: the 12-byte record of classic TIFF and the
    20-byte record of BigTIFF, their byte layout, and the decoders that read
    one from a BReader. */
module Entries {
  import opened ByteOrder
  import opened Reader

  type Bytes4 = s: seq<Byte> | |s| == 4 witness [0, 0, 0, 0]
  type Bytes8 = s: seq<Byte> | |s| == 8 witness [0, 0, 0, 0, 0, 0, 0, 0]

  /** Widths of tag, type, count and value offset, in the order they are read. */
  const EntryWidths: seq<nat> := [2, 2, 4, 4]
  const Entry8Widths: seq<nat> := [2, 2, 8, 8]
  const EntrySize: nat := 12
  const Entry8Size: nat := 20

  /** A classic TIFF directory entry. The value offset is kept as the four raw
      bytes of the record: whether they hold the value itself or a file
      offset depends on the type and count, which this decoder leaves alone. */
  datatype Entry = Entry(tagID: U16, typeID: U16, count: U32, valueOffset: Bytes4)
  {
    /** The tag, unchanged; it fits the record's two tag bytes. */
    function TagID(): (r: U16)
      ensures r == tagID && r < Pow256(2)
    {
      GoWidths();
      tagID
    }

    /** The type, unchanged; it fits the record's two type bytes. */
    function TypeID(): (r: U16)
      ensures r == typeID && r < Pow256(2)
    {
      GoWidths();
      typeID
    }

    /** The count, unchanged; it fits the record's 4 count bytes. */
    function Count(): (r: U32)
      ensures r == count && r < Pow256(4)
    {
      GoWidths();
      count
    }

    /** The raw value-offset bytes, unchanged: exactly 4 of them. */
    function ValueOffset(): (r: Bytes4)
      ensures r == valueOffset && |r| == 4
    {
      valueOffset
    }
  }

  /** A BigTIFF directory entry: a 64-bit count and eight raw value-offset bytes. */
  datatype Entry8 = Entry8(tagID: U16, typeID: U16, count: U64, valueOffset: Bytes8)
  {
    /** The tag, unchanged; it fits the record's two tag bytes. */
    function TagID(): (r: U16)
      ensures r == tagID && r < Pow256(2)
    {
      GoWidths();
      tagID
    }

    /** The type, unchanged; it fits the record's two type bytes. */
    function TypeID(): (r: U16)
      ensures r == typeID && r < Pow256(2)
    {
      GoWidths();
      typeID
    }

    /** The count, unchanged; it fits the record's 8 count bytes. */
    function Count(): (r: U64)
      ensures r == count && r < Pow256(8)
    {
      GoWidths();
      count
    }

    /** The raw value-offset bytes, unchanged: exactly 8 of them. */
    function ValueOffset(): (r: Bytes8)
      ensures r == valueOffset && |r| == 8
    {
      valueOffset
    }
  }

  // ---------------------------------------------------------------------------
  // The documented record layout

  /** The entry held by a 12-byte record: tag in bytes 0-1, type in 2-3,
      count in 4-7 (integers in the reader's byte order), value offset
      verbatim in 8-11. */
  function DecodeEntry(bs: seq<Byte>, order: Endian): (e: Entry)
    requires |bs| == EntrySize
    ensures UintBytes(e.tagID, 2, order) == bs[0..2]
    ensures UintBytes(e.typeID, 2, order) == bs[2..4]
    ensures UintBytes(e.count, 4, order) == bs[4..8]
    ensures e.valueOffset == bs[8..12]
  {
    GoWidths();
    BytesOfUint(bs[0..2], order);
    BytesOfUint(bs[2..4], order);
    BytesOfUint(bs[4..8], order);
    Entry(UintOf(bs[0..2], order), UintOf(bs[2..4], order), UintOf(bs[4..8], order), bs[8..12])
  }

  /** The 12-byte record that holds e. */
  function EncodeEntry(e: Entry, order: Endian): (bs: seq<Byte>)
    ensures |bs| == EntrySize
  {
    UintBytes(e.tagID, 2, order) + UintBytes(e.typeID, 2, order)
      + UintBytes(e.count, 4, order) + e.valueOffset
  }

  /** The entry held by a 20-byte record: tag in bytes 0-1, type in 2-3,
      count in 4-11, value offset verbatim in 12-19. */
  function DecodeEntry8(bs: seq<Byte>, order: Endian): (e: Entry8)
    requires |bs| == Entry8Size
    ensures UintBytes(e.tagID, 2, order) == bs[0..2]
    ensures UintBytes(e.typeID, 2, order) == bs[2..4]
    ensures UintBytes(e.count, 8, order) == bs[4..12]
    ensures e.valueOffset == bs[12..20]
  {
    GoWidths();
    BytesOfUint(bs[0..2], order);
    BytesOfUint(bs[2..4], order);
    BytesOfUint(bs[4..12], order);
    Entry8(UintOf(bs[0..2], order), UintOf(bs[2..4], order), UintOf(bs[4..12], order), bs[12..20])
  }

  /** The 20-byte record that holds e. */
  function EncodeEntry8(e: Entry8, order: Endian): (bs: seq<Byte>)
    ensures |bs| == Entry8Size
  {
    UintBytes(e.tagID, 2, order) + UintBytes(e.typeID, 2, order)
      + UintBytes(e.count, 8, order) + e.valueOffset
  }

  // ---------------------------------------------------------------------------
  // The decoders

  /** Where a classic decode stops: with `avail` bytes left, the reads of
      tag, type, count and value offset take 2, 2, 4 and 4 bytes until the
      first one that does not fit, which reports the bytes it found. */
  lemma EntryReads(avail: nat)
    ensures Consumed(EntryWidths, avail) ==
      if avail < 2 then 0 else if avail < 4 then 2 else if avail < 8 then 4
      else if avail < 12 then 8 else EntrySize
    ensures FirstFailure(EntryWidths, avail) ==
      if avail < 2 then Some(ShortRead(2, avail))
      else if avail < 4 then Some(ShortRead(2, avail - 2))
      else if avail < 8 then Some(ShortRead(4, avail - 4))
      else if avail < 12 then Some(ShortRead(4, avail - 8))
      else None
  {
    var w0, w1, w2, w3 := EntryWidths, [2, 4, 4], [4, 4], [4];
    assert w0[1..] == w1 && w1[1..] == w2 && w2[1..] == w3 && w3[1..] == [];
    if avail >= 2 {
      var a1 := avail - 2;
      assert Consumed(w0, avail) == 2 + Consumed(w1, a1);
      assert FirstFailure(w0, avail) == FirstFailure(w1, a1);
      if a1 >= 2 {
        var a2 := a1 - 2;
        assert Consumed(w1, a1) == 2 + Consumed(w2, a2);
        assert FirstFailure(w1, a1) == FirstFailure(w2, a2);
        if a2 >= 4 {
          var a3 := a2 - 4;
          assert Consumed(w2, a2) == 4 + Consumed(w3, a3);
          assert FirstFailure(w2, a2) == FirstFailure(w3, a3);
          assert Consumed(w3, a3) == if a3 < 4 then 0 else 4;
          assert FirstFailure(w3, a3) == if a3 < 4 then Some(ShortRead(4, a3)) else None;
        }
      }
    }
  }

  /** Where a BigTIFF decode stops: the reads take 2, 2, 8 and 8 bytes. */
  lemma Entry8Reads(avail: nat)
    ensures Consumed(Entry8Widths, avail) ==
      if avail < 2 then 0 else if avail < 4 then 2 else if avail < 12 then 4
      else if avail < 20 then 12 else Entry8Size
    ensures FirstFailure(Entry8Widths, avail) ==
      if avail < 2 then Some(ShortRead(2, avail))
      else if avail < 4 then Some(ShortRead(2, avail - 2))
      else if avail < 12 then Some(ShortRead(8, avail - 4))
      else if avail < 20 then Some(ShortRead(8, avail - 12))
      else None
  {
    var w0, w1, w2, w3 := Entry8Widths, [2, 8, 8], [8, 8], [8];
    assert w0[1..] == w1 && w1[1..] == w2 && w2[1..] == w3 && w3[1..] == [];
    if avail >= 2 {
      var a1 := avail - 2;
      assert Consumed(w0, avail) == 2 + Consumed(w1, a1);
      assert FirstFailure(w0, avail) == FirstFailure(w1, a1);
      if a1 >= 2 {
        var a2 := a1 - 2;
        assert Consumed(w1, a1) == 2 + Consumed(w2, a2);
        assert FirstFailure(w1, a1) == FirstFailure(w2, a2);
        if a2 >= 8 {
          var a3 := a2 - 8;
          assert Consumed(w2, a2) == 8 + Consumed(w3, a3);
          assert FirstFailure(w2, a2) == FirstFailure(w3, a3);
          assert Consumed(w3, a3) == if a3 < 8 then 0 else 8;
          assert FirstFailure(w3, a3) == if a3 < 8 then Some(ShortRead(8, a3)) else None;
        }
      }
    }
  }

  lemma RecordSlice(data: seq<Byte>, start: nat, size: nat, lo: nat, hi: nat)
    requires start + size <= |data| && lo <= hi <= size
    ensures data[start..start + size][lo..hi] == data[start + lo..start + hi]
  {
    var record := data[start..start + size];
    assert forall k | 0 <= k < hi - lo :: record[lo..hi][k] == data[start + lo + k];
  }

  /** Reads tag, type, count and value offset in that order; the first read
      that fails ends the decode with that read's error and no entry. */
  method ParseEntry(br: BReader) returns (out: Result<Entry>)
    requires br.Valid()
    modifies br
    ensures br.Valid()
    ensures out.Ok? <==> old(br.Remaining()) >= EntrySize
    ensures out.Ok? ==>
      out.value == DecodeEntry(br.data[old(br.pos)..old(br.pos) + EntrySize], br.order)
    ensures out.Err? ==> FirstFailure(EntryWidths, old(br.Remaining())) == Some(out.error)
    ensures br.pos == old(br.pos) + Consumed(EntryWidths, old(br.Remaining()))
  {
    ghost var start := br.pos;
    EntryReads(br.Remaining());
    var tagID := br.ReadUint(2);
    if tagID.Err? {
      return Err(tagID.error);
    }
    var typeID := br.ReadUint(2);
    if typeID.Err? {
      return Err(typeID.error);
    }
    var count := br.ReadUint(4);
    if count.Err? {
      return Err(count.error);
    }
    var valueOffset := br.ReadBytes(4);
    if valueOffset.Err? {
      return Err(valueOffset.error);
    }
    RecordSlice(br.data, start, EntrySize, 0, 2);
    RecordSlice(br.data, start, EntrySize, 2, 4);
    RecordSlice(br.data, start, EntrySize, 4, 8);
    RecordSlice(br.data, start, EntrySize, 8, 12);
    out := Ok(Entry(tagID.value, typeID.value, count.value, valueOffset.value));
  }

  /** The BigTIFF counterpart of ParseEntry: the count is read as a 64-bit
      integer and the value offset as eight raw bytes. */
  method ParseEntry8(br: BReader) returns (out: Result<Entry8>)
    requires br.Valid()
    modifies br
    ensures br.Valid()
    ensures out.Ok? <==> old(br.Remaining()) >= Entry8Size
    ensures out.Ok? ==>
      out.value == DecodeEntry8(br.data[old(br.pos)..old(br.pos) + Entry8Size], br.order)
    ensures out.Err? ==> FirstFailure(Entry8Widths, old(br.Remaining())) == Some(out.error)
    ensures br.pos == old(br.pos) + Consumed(Entry8Widths, old(br.Remaining()))
  {
    ghost var start := br.pos;
    Entry8Reads(br.Remaining());
    var tagID := br.ReadUint(2);
    if tagID.Err? {
      return Err(tagID.error);
    }
    var typeID := br.ReadUint(2);
    if typeID.Err? {
      return Err(typeID.error);
    }
    var count := br.ReadUint(8);
    if count.Err? {
      return Err(count.error);
    }
    var valueOffset := br.ReadBytes(8);
    if valueOffset.Err? {
      return Err(valueOffset.error);
    }
    RecordSlice(br.data, start, Entry8Size, 0, 2);
    RecordSlice(br.data, start, Entry8Size, 2, 4);
    RecordSlice(br.data, start, Entry8Size, 4, 12);
    RecordSlice(br.data, start, Entry8Size, 12, 20);
    out := Ok(Entry8(tagID.value, typeID.value, count.value, valueOffset.value));
  }

  // ---------------------------------------------------------------------------
  // Properties of the layout

  /** Serialising an entry in the documented layout and decoding it gives the entry back. */
  lemma DecodeEncodeEntry(e: Entry, order: Endian)
    ensures DecodeEntry(EncodeEntry(e, order), order) == e
  {
    var bs := EncodeEntry(e, order);
    GoWidths();
    assert bs[8..12] == e.valueOffset;
    assert bs[0..2] == UintBytes(e.tagID, 2, order);
    assert bs[2..4] == UintBytes(e.typeID, 2, order);
    assert bs[4..8] == UintBytes(e.count, 4, order);
    UintOfBytes(e.tagID, 2, order);
    UintOfBytes(e.typeID, 2, order);
    UintOfBytes(e.count, 4, order);
  }

  /** Decoding a 12-byte record and serialising the entry gives the original bytes. */
  lemma EncodeDecodeEntry(bs: seq<Byte>, order: Endian)
    requires |bs| == EntrySize
    ensures EncodeEntry(DecodeEntry(bs, order), order) == bs
  {
    // follows from the byte ranges in DecodeEntry's contract
    assert bs == bs[0..2] + bs[2..4] + bs[4..8] + bs[8..12];
  }

  lemma DecodeEncodeEntry8(e: Entry8, order: Endian)
    ensures DecodeEntry8(EncodeEntry8(e, order), order) == e
  {
    var bs := EncodeEntry8(e, order);
    GoWidths();
    assert bs[12..20] == e.valueOffset;
    assert bs[0..2] == UintBytes(e.tagID, 2, order);
    assert bs[2..4] == UintBytes(e.typeID, 2, order);
    assert bs[4..12] == UintBytes(e.count, 8, order);
    UintOfBytes(e.tagID, 2, order);
    UintOfBytes(e.typeID, 2, order);
    UintOfBytes(e.count, 8, order);
  }

  lemma EncodeDecodeEntry8(bs: seq<Byte>, order: Endian)
    requires |bs| == Entry8Size
    ensures EncodeEntry8(DecodeEntry8(bs, order), order) == bs
  {
    // follows from the byte ranges in DecodeEntry8's contract
    assert bs == bs[0..2] + bs[2..4] + bs[4..12] + bs[12..20];
  }

  /** bs' is bs with the byte at index i changed and every other byte kept. */
  ghost predicate DiffersOnlyAt(bs: seq<Byte>, bs': seq<Byte>, i: nat)
  {
    && |bs| == |bs'| && i < |bs| && bs[i] != bs'[i]
    && forall j :: 0 <= j < |bs| && j != i ==> bs[j] == bs'[j]
  }

  /** A field's bytes change exactly when its range covers the changed byte. */
  lemma FieldChange(bs: seq<Byte>, bs': seq<Byte>, i: nat, lo: nat, hi: nat, order: Endian)
    requires DiffersOnlyAt(bs, bs', i) && lo <= hi <= |bs|
    ensures bs[lo..hi] == bs'[lo..hi] <==> !(lo <= i < hi)
    ensures UintOf(bs[lo..hi], order) == UintOf(bs'[lo..hi], order) <==> !(lo <= i < hi)
  {
    if lo <= i < hi {
      assert bs[lo..hi][i - lo] != bs'[lo..hi][i - lo];
      if UintOf(bs[lo..hi], order) == UintOf(bs'[lo..hi], order) {
        UintInjective(bs[lo..hi], bs'[lo..hi], order);
      }
    } else {
      assert forall k | 0 <= k < hi - lo :: bs[lo..hi][k] == bs'[lo..hi][k];
    }
  }

  /** Changing one byte of a 12-byte record changes the decoded field whose
      byte range holds it, and no other field. */
  lemma EntryFieldIndependence(bs: seq<Byte>, bs': seq<Byte>, i: nat, order: Endian)
    requires |bs| == EntrySize && DiffersOnlyAt(bs, bs', i)
    ensures var e, e' := DecodeEntry(bs, order), DecodeEntry(bs', order);
      && (e.TagID() != e'.TagID() <==> 0 <= i < 2)
      && (e.TypeID() != e'.TypeID() <==> 2 <= i < 4)
      && (e.Count() != e'.Count() <==> 4 <= i < 8)
      && (e.ValueOffset() != e'.ValueOffset() <==> 8 <= i < 12)
  {
    FieldChange(bs, bs', i, 0, 2, order);
    FieldChange(bs, bs', i, 2, 4, order);
    FieldChange(bs, bs', i, 4, 8, order);
    FieldChange(bs, bs', i, 8, 12, order);
  }

  /** Changing one byte of a 20-byte record changes the decoded field whose
      byte range holds it, and no other field. */
  lemma Entry8FieldIndependence(bs: seq<Byte>, bs': seq<Byte>, i: nat, order: Endian)
    requires |bs| == Entry8Size && DiffersOnlyAt(bs, bs', i)
    ensures var e, e' := DecodeEntry8(bs, order), DecodeEntry8(bs', order);
      && (e.TagID() != e'.TagID() <==> 0 <= i < 2)
      && (e.TypeID() != e'.TypeID() <==> 2 <= i < 4)
      && (e.Count() != e'.Count() <==> 4 <= i < 12)
      && (e.ValueOffset() != e'.ValueOffset() <==> 12 <= i < 20)
  {
    FieldChange(bs, bs', i, 0, 2, order);
    FieldChange(bs, bs', i, 2, 4, order);
    FieldChange(bs, bs', i, 4, 12, order);
    FieldChange(bs, bs', i, 12, 20, order);
  }

  /** A 12-byte record with the bytes of each integer field reversed and the
      value-offset bytes left as they are. */
  function SwapEntryFields(bs: seq<Byte>): (r: seq<Byte>)
    requires |bs| == EntrySize
    ensures |r| == EntrySize
  {
    Reverse(bs[0..2]) + Reverse(bs[2..4]) + Reverse(bs[4..8]) + bs[8..12]
  }

  function SwapEntry8Fields(bs: seq<Byte>): (r: seq<Byte>)
    requires |bs| == Entry8Size
    ensures |r| == Entry8Size
  {
    Reverse(bs[0..2]) + Reverse(bs[2..4]) + Reverse(bs[4..12]) + bs[12..20]
  }

  /** Byte order touches only tag, type and count: a little-endian decode is
      the big-endian decode of the record with each integer field's bytes
      reversed, and the value offset is the record's bytes 8-11 either way. */
  lemma EntryByteOrder(bs: seq<Byte>)
    requires |bs| == EntrySize
    ensures DecodeEntry(bs, LittleEndian) == DecodeEntry(SwapEntryFields(bs), BigEndian)
    ensures DecodeEntry(bs, LittleEndian).ValueOffset() == DecodeEntry(bs, BigEndian).ValueOffset() == bs[8..12]
  {
    var r := SwapEntryFields(bs);
    assert r[0..2] == Reverse(bs[0..2]) && r[2..4] == Reverse(bs[2..4]);
    assert r[4..8] == Reverse(bs[4..8]) && r[8..12] == bs[8..12];
    LeIsReversedBe(bs[0..2]);
    LeIsReversedBe(bs[2..4]);
    LeIsReversedBe(bs[4..8]);
  }

  /** The BigTIFF counterpart of EntryByteOrder: the value offset is bytes 12-19 either way. */
  lemma Entry8ByteOrder(bs: seq<Byte>)
    requires |bs| == Entry8Size
    ensures DecodeEntry8(bs, LittleEndian) == DecodeEntry8(SwapEntry8Fields(bs), BigEndian)
    ensures DecodeEntry8(bs, LittleEndian).ValueOffset() == DecodeEntry8(bs, BigEndian).ValueOffset() == bs[12..20]
  {
    var r := SwapEntry8Fields(bs);
    assert r[0..2] == Reverse(bs[0..2]) && r[2..4] == Reverse(bs[2..4]);
    assert r[4..12] == Reverse(bs[4..12]) && r[12..20] == bs[12..20];
    LeIsReversedBe(bs[0..2]);
    LeIsReversedBe(bs[2..4]);
    LeIsReversedBe(bs[4..12]);
  }

  // ---------------------------------------------------------------------------
  // Concrete records

  /** The classic record 00 01 00 03 00 00 00 02 00 00 00 10. */
  const ExampleRecord: seq<Byte> := [0, 1, 0, 3, 0, 0, 0, 2, 0, 0, 0, 0x10]

  /** Its BigTIFF form: count and value offset widened to eight bytes each. */
  const ExampleRecord8: seq<Byte> :=
    [0, 1, 0, 3, 0, 0, 0, 0, 0, 0, 0, 2, 0, 0, 0, 0, 0, 0, 0, 0x10]

  /** Read big-endian, the example record is tag 1, type 3, count 2 and value
      offset 00 00 00 10; read little-endian, tag, type and count come out
      byte-swapped and the value offset does not. */
  lemma ExampleRecordDecodes()
    ensures |ExampleRecord| == EntrySize
    ensures DecodeEntry(ExampleRecord, BigEndian) == Entry(1, 3, 2, [0, 0, 0, 0x10])
    ensures DecodeEntry(ExampleRecord, LittleEndian) == Entry(0x100, 0x300, 0x200_0000, [0, 0, 0, 0x10])
  {
    var r := ExampleRecord;
    assert r[0..2] == [0, 1] && r[2..4] == [0, 3];
    assert r[4..8] == [0, 0, 0, 2] && r[8..12] == [0, 0, 0, 0x10];
    BeValueOfLast(r[0..2]);
    BeValueOfLast(r[2..4]);
    BeValueOfLast(r[4..8]);
  }

  /** The BigTIFF example decodes to the same tag, type and count, with all
      eight value-offset bytes kept. */
  lemma ExampleRecord8Decodes()
    ensures |ExampleRecord8| == Entry8Size
    ensures DecodeEntry8(ExampleRecord8, BigEndian) == Entry8(1, 3, 2, [0, 0, 0, 0, 0, 0, 0, 0x10])
  {
    var r := ExampleRecord8;
    assert r[0..2] == [0, 1] && r[2..4] == [0, 3];
    assert r[4..12] == [0, 0, 0, 0, 0, 0, 0, 2] && r[12..20] == [0, 0, 0, 0, 0, 0, 0, 0x10];
    BeValueOfLast(r[0..2]);
    BeValueOfLast(r[2..4]);
    BeValueOfLast(r[4..12]);
  }

  /** A big-endian reader over the example record and one more byte: the
      decode yields the example entry and stops at byte 12. */
  method ClassicBigEndianScenario() returns (out: Result<Entry>, pos: nat)
    ensures out == Ok(Entry(1, 3, 2, [0, 0, 0, 0x10])) && pos == 12
  {
    var data := ExampleRecord + [0xFF];
    ExampleRecordDecodes();
    EntryReads(|data|);
    assert data[0..12] == ExampleRecord;
    var br := new BReader(data, BigEndian, 0);
    out := ParseEntry(br);
    pos := br.pos;
  }

  /** The same record through a little-endian reader. */
  method ClassicLittleEndianScenario() returns (out: Result<Entry>, pos: nat)
    ensures out == Ok(Entry(0x100, 0x300, 0x200_0000, [0, 0, 0, 0x10])) && pos == 12
  {
    var data := ExampleRecord;
    ExampleRecordDecodes();
    EntryReads(|data|);
    assert data[0..12] == ExampleRecord;
    var br := new BReader(data, LittleEndian, 0);
    out := ParseEntry(br);
    pos := br.pos;
  }

  /** The BigTIFF example through a big-endian reader stops at byte 20. */
  method BigTiffScenario() returns (out: Result<Entry8>, pos: nat)
    ensures out == Ok(Entry8(1, 3, 2, [0, 0, 0, 0, 0, 0, 0, 0x10])) && pos == 20
  {
    var data := ExampleRecord8;
    ExampleRecord8Decodes();
    Entry8Reads(|data|);
    assert data[0..20] == ExampleRecord8;
    var br := new BReader(data, BigEndian, 0);
    out := ParseEntry8(br);
    pos := br.pos;
  }

  /** The example record cut after eleven bytes: tag, type and count are
      read, the value-offset read finds three of its four bytes and fails;
      the reader is left after the count and no entry is produced. */
  method TruncatedScenario() returns (out: Result<Entry>, pos: nat)
    ensures out == Err(ShortRead(4, 3)) && pos == 8
  {
    var data := ExampleRecord[..11];
    EntryReads(|data|);
    var br := new BReader(data, BigEndian, 0);
    out := ParseEntry(br);
    pos := br.pos;
  }
}
