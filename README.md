# TIFF and BigTIFF directory entries

A Dafny model of the directory-entry decoder of a Go TIFF library. An Image
File Directory (IFD) of a TIFF file is a list of fixed-size entries; each entry
holds a 16-bit tag, a 16-bit type, a count and a value offset. Classic TIFF uses
a 12-byte entry (32-bit count, 4 raw value-offset bytes). BigTIFF uses a
20-byte entry (64-bit count, 8 raw value-offset bytes). The value offset is
kept as raw bytes: whether those bytes are the value or a file offset depends on
type and count, and deciding that is not the decoder's job.

The model has three modules:

- `ByteOrder` (`byteorder.dfy`): bytes, Go's `uint16`/`uint32`/`uint64` as
  bounded subset types, the two byte orders, and how an unsigned integer of a
  given width is read from bytes and written back. It proves both round trips,
  injectivity, and the fact that a little-endian read is a big-endian read of
  the reversed bytes.
- `Reader` (`reader.dfy`): the `BReader` the decoders take. The library's
  reader is not part of this model. Here it is a class with constant `data`
  and `order` and a mutable `pos`. `ReadUint` and `ReadBytes` either take
  exactly their width and advance `pos`, or fail with `ShortRead(want, have)`
  and leave `pos` alone. `Consumed` and `FirstFailure` describe a run of such
  reads that stops at its first failure.
- `Entries` (`entry.dfy`): the `Entry` and `Entry8` records with their
  accessors `TagID`, `TypeID`, `Count` and `ValueOffset`, which return the
  fields unchanged. It also holds the documented byte layout as
  `DecodeEntry`/`EncodeEntry` (and the `8` forms), and the decoders
  `ParseEntry` and `ParseEntry8`. Each decoder is a method that performs the
  four reads in order, returns the first failing read's error unchanged, and
  otherwise returns the entry. Lemmas give the layout's round trips, field
  independence and byte-order behaviour. Four client methods call the decoders
  on concrete records.

The field types carry the width bounds, as Go's types do: tag and type are
`U16`, the count is `U32` or `U64`, and the value offset is a sequence of exactly
4 or 8 bytes.

## Model

| member | source | states |
|---|---|---|
| `ByteOrder.GoWidths` | entry.go:44-46 | The ranges of uint16, uint32 and uint64 are those of 2, 4 and 8 bytes (256^2, 256^4, 256^8). The uint64 is the BigTIFF count declared at entry.go line 115. |
| `ByteOrder.UintOf` | entry.go:87-93 | An integer read from n bytes in either byte order is below 256^n. So a 2-byte read fits the uint16 tag and type, and a 4- or 8-byte read fits the count. |
| `ByteOrder.UintOfBytes` | entry.go:10-14 | Writing a value into `width` bytes in either byte order and reading it back in that order gives the value. |
| `ByteOrder.BytesOfUint` | entry.go:10-14 | Reading bytes as an integer and writing the integer back at the same width and order gives the original bytes. |
| `ByteOrder.UintInjective` | entry.go:10-14 | Two equal-width byte strings that read as the same integer are equal. An integer field therefore determines its bytes. |
| `ByteOrder.LeIsReversedBe` | entry.go:87-93 | A little-endian read equals a big-endian read of the reversed bytes. |
| `ByteOrder.BeValueLeadingZeros` | entry.go:25 | Leading zero bytes do not change a big-endian value: a field widened by zero bytes in front, as the count is from 4 to 8 bytes, reads as the same integer. |
| `ByteOrder.BeValueOfLast` | entry.go:25 | A non-empty big-endian byte string that is zero except its last byte has that byte as its value. |
| `Reader.BReader.ReadUint` | entry.go:87-93 | A typed read with at least `width` bytes left returns the integer of the next `width` bytes in the reader's order and advances by `width`. Otherwise it returns `ShortRead(width, remaining)` and does not move. |
| `Reader.BReader.ReadBytes` | entry.go:96 | A raw read with at least `n` bytes left returns the next `n` bytes verbatim, in either byte order, and advances by `n`. Otherwise it returns `ShortRead(n, remaining)` and does not move. |
| `Reader.Consumed` | entry.go:87-98 | A run of reads that stops at its first failure never takes more than remains or more than its widths add up to. |
| `Reader.SequentialReads` | entry.go:85-99 | A run of reads fails if and only if its widths add up to more than remains. On success it takes their sum. On failure it takes less than the sum, and the failing read reports the bytes left at that point, which are fewer than it wanted. |
| `Entries.Entry.TagID` | entry.go:50-52 | Returns the tag unchanged. As a `U16` it is below 256^2, so it fits 2 bytes as Go's `uint16` does. |
| `Entries.Entry.TypeID` | entry.go:54-56 | Returns the type unchanged. As a `U16` it is below 256^2. |
| `Entries.Entry.Count` | entry.go:58-60 | Returns the count unchanged. As a `U32` it is below 256^4, the range of Go's `uint32`. |
| `Entries.Entry.ValueOffset` | entry.go:62-64 | Returns the raw value-offset bytes unchanged: exactly 4 of them, as Go's `[4]byte`. |
| `Entries.Entry8.TagID` | entry.go:119-121 | Returns the tag unchanged. As a `U16` it is below 256^2, so it fits 2 bytes as Go's `uint16` does. |
| `Entries.Entry8.TypeID` | entry.go:123-125 | Returns the type unchanged. As a `U16` it is below 256^2. |
| `Entries.Entry8.Count` | entry.go:127-129 | Returns the count unchanged. As a `U64` it is below 256^8, the range of Go's `uint64`. |
| `Entries.Entry8.ValueOffset` | entry.go:131-133 | Returns the raw value-offset bytes unchanged: exactly 8 of them, as Go's `[8]byte`. |
| `Entries.DecodeEntry` | entry.go:10-15 | The decoded tag is the value whose 2-byte encoding in the reader's order is bytes 0-1. The type is likewise bytes 2-3, and the count is bytes 4-7 at 4 bytes. The value offset is bytes 8-11 verbatim. |
| `Entries.DecodeEntry8` | entry.go:22-27 | The same for the 20-byte record: tag from bytes 0-1 and type from 2-3, count from bytes 4-11 at 8 bytes, and value offset from bytes 12-19 verbatim. |
| `Entries.EncodeEntry` | entry.go:10-14 | The documented classic layout writes an entry in exactly 12 bytes. |
| `Entries.EncodeEntry8` | entry.go:22-26 | The documented BigTIFF layout writes an entry in exactly 20 bytes. |
| `Entries.EntryReads` | entry.go:85-99 | With `avail` bytes left, the classic decode stops after 0, 2, 4 or 8 bytes (fewer than 2, 4, 8 or 12 left), and the failing read is the tag, type, count or value-offset read, reporting what it found. With 12 or more bytes left, it takes 12 and nothing fails. |
| `Entries.Entry8Reads` | entry.go:154-168 | The same for BigTIFF: it stops after 0, 2, 4 or 12 bytes with fewer than 2, 4, 12 or 20 left, and takes 20 otherwise. |
| `Entries.ParseEntry` | entry.go:85-100 | The decode succeeds if and only if at least 12 bytes remain. On success the entry is the documented layout of the next 12 bytes in the reader's byte order, and the reader moves exactly 12 bytes. On failure there is no entry, the error is the failing read's error unchanged, and the reader has moved by the widths of the reads that succeeded. |
| `Entries.ParseEntry8` | entry.go:154-169 | The same at 20 bytes: the count is read as 8 bytes and the value offset as 8 raw bytes. |
| `Entries.DecodeEncodeEntry` | entry.go:43-47 | Writing an entry's four fields in the classic layout and decoding the result gives the same entry, in either byte order. |
| `Entries.EncodeDecodeEntry` | entry.go:10-14 | Decoding any 12 bytes and writing the entry back gives the original 12 bytes. |
| `Entries.DecodeEncodeEntry8` | entry.go:112-116 | Writing a BigTIFF entry in the 20-byte layout and decoding the result gives the same entry. |
| `Entries.EncodeDecodeEntry8` | entry.go:22-26 | Decoding any 20 bytes and writing the entry back gives the original 20 bytes. |
| `Entries.EntryFieldIndependence` | entry.go:43-47 | Change one byte of a 12-byte record. The tag, type, count or value offset changes if and only if the byte is in its range: 0-1, 2-3, 4-7 or 8-11. |
| `Entries.Entry8FieldIndependence` | entry.go:112-116 | The same for a 20-byte record, with ranges 0-1, 2-3, 4-11 and 12-19. |
| `Entries.EntryByteOrder` | entry.go:87-96 | A little-endian decode of a record equals the big-endian decode of that record with the bytes of tag, type and count each reversed. The value offset is bytes 8-11 verbatim in both byte orders. |
| `Entries.Entry8ByteOrder` | entry.go:156-165 | The same for BigTIFF. The value offset is bytes 12-19 verbatim in both byte orders. |
| `Entries.ExampleRecordDecodes` | entry.go:85-99 | The record `00 01 00 03 00 00 00 02 00 00 00 10` decodes big-endian as tag 1, type 3, count 2 and value offset `[0,0,0,16]`. It decodes little-endian as tag 0x100, type 0x300, count 0x2000000 and the same value offset. |
| `Entries.ExampleRecord8Decodes` | entry.go:154-168 | The 20-byte form of that record, with count and value offset widened to 8 bytes, decodes big-endian as tag 1, type 3, count 2 and value offset `[0,0,0,0,0,0,0,16]`, keeping every leading zero byte. |
| `Entries.ClassicBigEndianScenario` | entry.go:85-99 | A big-endian reader over `00 01 00 03 00 00 00 02 00 00 00 10 FF` decodes tag 1, type 3, count 2 and value offset `[0,0,0,16]`, and is left at byte 12. |
| `Entries.ClassicLittleEndianScenario` | entry.go:85-99 | The same 12 bytes read little-endian decode tag 0x100, type 0x300 and count 0x2000000. The value offset is still `[0,0,0,16]`. |
| `Entries.BigTiffScenario` | entry.go:154-168 | The 20-byte big-endian form of the same entry decodes tag 1, type 3, count 2 and value offset `[0,0,0,0,0,0,0,16]`, and the reader is left at byte 20. |
| `Entries.TruncatedScenario` | entry.go:93-97 | An 11-byte classic record fails at the value-offset read with `ShortRead(4, 3)`. No entry is returned, and the reader is left at byte 8, after the count. |

## Left out

- The `BReader` implementation is not part of this model. It is modelled as an in-memory byte sequence with a position and a byte-order flag. A read that does not fit fails with a short-read error and consumes nothing. A stream-backed Go reader may already have consumed part of a short field. I/O errors other than running out of bytes are not modelled.
- `MarshalJSON` (entry.go:70-83, 139-152) hands the four fields to Go's `encoding/json`, which is not part of this model. It exposes the same four values under the names `tagID`, `typeID`, `count` and `valueOffset`.
- `String` (entry.go:66-68, 135-137) is `fmt` text formatting and is not modelled.
- The `Entry` and `Entry8` Go interfaces and pointer-receiver dispatch: the model has two concrete immutable datatypes. Their accessor member functions return the fields unchanged.
- The comment that the value offset is even (entry.go:16-18, 28-30) is not checked by the code and is not asserted here.
- Whether the value offset is an inline value or a file offset, and following the offset, are decided outside this file.
