# vger tile command buffer

This project models the per-tile command buffer of vger's experimental
tile-based fine renderer (`Sources/vger/commands.h`).

A `Tile` is a 64-byte `char` array plus a `uint length`, which is the write cursor.

- Drawing code appends fixed-size records front to back.
- Each record starts with a `vgerOp` tag and is followed by its fields:
  - `vgerCmdSegment`
  - `vgerCmdLineFill`
  - `vgerCmdBezFill`
  - `vgerCmdSolid`
  - the bare `vgerOpEnd` tag.
- `append<T>` stores the record at `commands + length` and then advances `length` by `sizeof(T)`.
- `append<T>` never checks the capacity.

The project has four modules.

- `Wrappers`: `Option` and `Result`.
- `Bytes`: a 32-bit field stored as four little-endian bytes (`Word`), the sequences of such fields, and byte-slice lemmas.
- `Commands`: the pieces below.
  - The `vgerOp` enumerators and their stored codes.
  - The record datatype `Command`, its `sizeof`, and its byte image `Encode` in the natural layout:
    - the tag at byte 0;
    - `float2` fields 8-byte aligned;
    - `vgerCmdSolid.color` at byte 4.
  - The consumer side of the buffer (`ReadCommand`, `DecodeFrom`), which reads records back by their tag and stops after the end marker.
  - The round trips between the writer side and the consumer side.
- `TileBuffer`: the pieces below.
  - The `Tile` class itself: a `const commands: array<bv8>` of 64 bytes, the `length` cursor, and a ghost `Log` of the records appended.
  - `append` and the five convenience methods (`segment`, `lineFill`, `bezFill`, `solid`, `end`).
  - A checked `TryAppend`.
  - The as-written unchecked store over a model of the memory around the array.

`Tile.Valid()` is the invariant that `Append`, `TryAppend` and the five convenience methods preserve (the helper `Store` only copies bytes inside `Append`). It says that the bytes in use, `commands[..length]`, are exactly the images of the logged records, back to back, and that `length` is their total size and at most 64.

## Model

| member | source | states |
|---|---|---|
| Commands.Size | Sources/vger/commands.h:33-60 | The size of a record depends only on its tag: Segment 32, LineFill 24, BezFill 32, Solid 8, End 4. Every record is at least one tag long and at most half a tile. |
| Commands.OpWords | Sources/vger/commands.h:33-60 | A record of each kind spans a whole number of 4-byte words, and that number times 4 is its `sizeof`. |
| Commands.OpFromCode | Sources/vger/commands.h:25-31 | A stored word that is read as a discriminator is exactly that enumerator's code. |
| Commands.OpFromCodeRange | Sources/vger/commands.h:25-31 | A word names a `vgerOp` exactly when its unsigned value is below 5. No enumerator is stored as a word that names none. |
| Commands.OpCodeRoundTrip | Sources/vger/commands.h:25-31 | The enumerator codes are pairwise distinct, both as words and as numbers. Each code is read back as its own enumerator. |
| Commands.Encode | Sources/vger/commands.h:66-69 | A record's image is exactly `sizeof` the record long. |
| Commands.FieldsRoundTrip | Sources/vger/commands.h:33-60 | Rebuilding a record from its laid-out words gives the record back, whatever the padding words hold. |
| Commands.ReadCommandFits | Sources/vger/commands.h:25-60 | A record read at an offset lies wholly inside the buffer. It carries the tag stored at that offset. |
| Commands.ReadCommandErrors | Sources/vger/commands.h:25-60 | Reading one record fails in exactly these cases. It is `Truncated` when the tag or the record does not fit. It is `UnknownDiscriminator` when the tag is not a `vgerOp`. It never reports a missing end marker. |
| Commands.TagIn | Sources/vger/commands.h:73-89 | Where a record's image is stored, the first word is that record's `vgerOp` code, and it is read back as that enumerator. |
| Commands.StoredRecordWords | Sources/vger/commands.h:66-69 | The words read back from a stored image, with any padding, carry the record's tag and rebuild the record. |
| Commands.ReadPadded | Sources/vger/commands.h:33-69 | Reading a record does not depend on its padding. An image with arbitrary words in the padding slots (after the tag, and at the end of a segment) is read back as the record. |
| Commands.ReadEncoded | Sources/vger/commands.h:66-69 | Round trip: the consumer reads a stored record back with every field unchanged, wherever it is stored. |
| Commands.ReadsOwnImage | Sources/vger/commands.h:66-69 | A record's image, read on its own from offset 0, yields the record. |
| Commands.EncodeInjective | Sources/vger/commands.h:33-60 | Distinct records have distinct images, so the tag identifies both the variant and its fields. |
| Commands.EncodeAll | Sources/vger/commands.h:62-69 | The images of a record sequence, back to back, take exactly the sum of their sizes. |
| Commands.TotalSizeSnoc | Sources/vger/commands.h:69 | Appending a record grows the total size by exactly that record's size. |
| Commands.EncodeAllSnoc | Sources/vger/commands.h:68-69 | Appending a record extends the stored bytes by its image and leaves the earlier bytes as they were. |
| Commands.DecodeFrom | Sources/vger/commands.h:62-90 | Every sequence the consumer's walk returns is non-empty and ends with its first and only end marker. |
| Commands.TerminatedCons | Sources/vger/commands.h:88-90 | A non-end record put in front of a well-formed sequence keeps the sequence well-formed. |
| Commands.TerminatedTail | Sources/vger/commands.h:88-90 | After the first record of a longer well-formed sequence, the rest is a well-formed sequence. That first record is not the end marker. |
| Commands.StoredCons | Sources/vger/commands.h:66-69 | A stored record sequence is its first record's image followed by the image of the rest. |
| Commands.StoredHead | Sources/vger/commands.h:66-69 | In a stored sequence, the first record is read back and the rest is stored right after it. |
| Commands.StoredReadsAs | Sources/vger/commands.h:66-69 | A stored record sequence is read back record by record. Each record is read where the one before it ends. |
| Commands.ReadsAsCons | Sources/vger/commands.h:66-69 | The inductive step of `StoredReadsAs`. |
| Commands.ReadsAsDecodes | Sources/vger/commands.h:88-90 | Reading a well-formed sequence record by record, the walk over it yields exactly that sequence. |
| Commands.DecodeEncoded | Sources/vger/commands.h:62-90 | Sequence preservation: when a well-formed sequence is stored (records, then the end marker), the consumer's walk yields exactly that sequence, in order. |
| Commands.DecodeErrorAfter | Sources/vger/commands.h:62-90 | After a run of records with no end marker among them, the walk returns the next error it meets. It does not stop early and does not skip the error. |
| Commands.DecodeUnterminated | Sources/vger/commands.h:88-90 | Records that run up to the very end of the buffer with no end marker among them give `Unterminated`. The end of the buffer is never taken as an implicit end marker. |
| Commands.DecodeTruncated | Sources/vger/commands.h:62-90 | Records with no end marker, followed by a record cut off by the end of the buffer, give `Truncated`. |
| TileBuffer.Tile.constructor | Sources/vger/commands.h:62-64 | A new tile has a 64-byte buffer, a cursor at 0 and no records, and satisfies the invariant. |
| TileBuffer.Tile.Append | Sources/vger/commands.h:66-70 | The invariant is preserved, and `c` is added to the log. The image of `c` is written at `[old length, old length + sizeof)`. Every other byte is unchanged, and `length` grows by exactly `sizeof`. The precondition is that the record fits. |
| TileBuffer.Tile.Store | Sources/vger/commands.h:68 | The store through `commands + length` puts the image at the offset and changes no other byte. |
| TileBuffer.Tile.TryAppend | Sources/vger/commands.h:66-70 | The checked append accepts a record exactly when it fits, and then acts as `append`. When it refuses, the cursor, the log and every byte are unchanged. |
| TileBuffer.Tile.TagAt | Sources/vger/commands.h:72-90 | After an append, the word at the old cursor is the record's `vgerOp` code. |
| TileBuffer.Tile.ReadBack | Sources/vger/commands.h:66-70 | Round trip: the consumer reads each appended record back, where it was appended, with every field unchanged. |
| TileBuffer.Tile.Segment | Sources/vger/commands.h:72-74 | `segment` appends `vgerCmdSegment{vgerOpSegment, a, b, width}`: 32 bytes, tag `vgerOpSegment` at the old cursor, other bytes unchanged. |
| TileBuffer.Tile.LineFill | Sources/vger/commands.h:76-78 | `lineFill` appends `vgerCmdLineFill{vgerOpLine, a, b}`: 24 bytes, tag `vgerOpLine` at the old cursor, other bytes unchanged. |
| TileBuffer.Tile.BezFill | Sources/vger/commands.h:80-82 | `bezFill` appends `vgerCmdBezFill{vgerOpBez, a, b, c}`: 32 bytes, tag `vgerOpBez` at the old cursor, other bytes unchanged. |
| TileBuffer.Tile.Solid | Sources/vger/commands.h:84-86 | `solid(int color)` appends `vgerCmdSolid{vgerOpSolid, color}` with `color` stored as its two's-complement pattern: 8 bytes, tag `vgerOpSolid` at the old cursor, other bytes unchanged, and the stored colour reads back as `color`. |
| TileBuffer.Tile.End | Sources/vger/commands.h:88-90 | `end` writes only the 4-byte `vgerOpEnd` tag (the word 0). The cursor advances by exactly 4. |
| TileBuffer.StoredSnoc | Sources/vger/commands.h:66-70 | Storing a record's image just after a stored sequence stores the longer sequence. This is why `append` preserves the invariant. |
| TileBuffer.DecodeTile | Sources/vger/commands.h:62-90 | For a tile whose records end with their only end marker, the consumer's walk over the buffer yields exactly the appended records, in append order. |
| TileBuffer.FullTileUnterminated | Sources/vger/commands.h:21-90 | A tile filled to all 64 bytes with no end marker among its records is malformed. The consumer's walk reports `Unterminated`. |
| TileBuffer.SegmentThenBezFill | Sources/vger/commands.h:21-90 | From an empty tile, `segment` then `bezFill` fills all 64 bytes. A further `end()` does not fit, so the full tile decodes as `Unterminated`. |
| TileBuffer.UncheckedAppend | Sources/vger/commands.h:66-70 | The as-written store with no capacity check, over the memory around the array. The image lands at the cursor, all other memory is kept, and the cursor advances by `sizeof`. |
| TileBuffer.EndOverrunsFullTile | Sources/vger/commands.h:66-70 | With the cursor at 64, the unchecked `end()` overwrites the byte after the array. It also moves the cursor past the capacity. |
| TileBuffer.SolidAndTwoLines | Sources/vger/commands.h:76-86 | From an empty tile, `solid` and two `lineFill`s leave a valid tile with the cursor at 56 and exactly those three records. |
| TileBuffer.SolidThenLines | Sources/vger/commands.h:21-90 | After `solid` and two `lineFill`s (56 bytes), the checked append refuses a third `lineFill`, since 80 bytes exceed the 64-byte tile. The 4-byte `end()` is accepted, and the tile decodes to exactly the three records and the end marker, in order. |
| Bytes.WordIn | Sources/vger/commands.h:68 | A 32-bit field is read back from wherever its four bytes were stored. |
| Bytes.StoredWords | Sources/vger/commands.h:68 | A run of fields is read back from wherever its bytes were stored. |
| Bytes.Int32Value | Sources/vger/commands.h:59 | The stored `int color` is read as two's complement: negative exactly when the top bit is set, and equal to the unsigned value minus 2^32 when negative. |
| Bytes.UnsignedRoundTrip | Sources/vger/commands.h:59 | A number below 2^32 stored as four little-endian bytes reads back as the same number. |
| Bytes.UnsignedUnique | Sources/vger/commands.h:59 | Every 32-bit field is the stored form of its own unsigned value. |
| Bytes.Int32RoundTrip | Sources/vger/commands.h:59 | Round trip: an `int` stored as its two's-complement pattern reads back as the same `int`. |
| Bytes.Int32Unique | Sources/vger/commands.h:59 | Every 32-bit field is the stored form of the `int` it reads as, so each `int` has exactly one stored form. |

## Left out

- Floating point: `float` and `float2` fields are kept as their 32-bit patterns. Nothing in the buffer computes with them.
- Padding: the model writes the alignment padding as zero, where C leaves its contents unspecified. `Commands.ReadPadded` proves that reading a record does not depend on what the padding holds. The tile-level results (`Tile.Valid`, `DecodeEncoded`, `DecodeTile`) are stated for the zero-padded images.
- Layout: the model fixes the natural little-endian layout of the Apple targets (tag at 0, `float2` fields 8-aligned, `color` at 4). `include/vger_types.h` (included at line 6) is not part of this model.
- `uint length` wrap-around: every append in the model stays within 64 bytes, so the 32-bit cursor never wraps, and the model keeps it as a `nat`.
- The uninitialised initial state of the C struct: the constructor starts from `length == 0`, and the buffer contents are not constrained.
- `DEVICE` and the Metal/`simd` preprocessor setup (lines 6-16): these are address-space qualifiers and includes, with no behaviour.
- `maxTilesWidth` and `tileSize`: they are declared at lines 22-23, and the buffer does not use them. The per-pixel evaluator that consumes the records is not part of this model.
- `ReadCommand` and `DecodeFrom` are not in the header. They state how the consumer reads the records, so that the round trips can be stated.
- TileBuffer.Tile.Append: it requires that the record fit, where the source checks nothing. The as-written overflow is modelled separately under Findings.
- TileBuffer.Tile.Segment, LineFill, BezFill, Solid and End: their `ensures` state the bytes written and the tag. The read-back of the record is the separate lemma `TileBuffer.Tile.ReadBack`.
- Alignment: in `struct Tile`, `commands` follows `uint length` at byte 4, and the struct is only 4-byte aligned. So a record holding a `float2` may be misaligned at any cursor, including 0, and also after a 4-byte `end` record. The model stores every record at the cursor's byte offset, as the source does, and does not model misaligned-access behaviour.

## Findings

| source | as written | input that shows it | evidently intended | confidence | as-written member | corrected member |
|---|---|---|---|---|---|---|
| Sources/vger/commands.h:66-70 | `append` stores at `commands + length` and advances `length` with no capacity check | from an empty tile, `segment` then `bezFill` leave `length == 64`; `end()` then writes bytes 64..67, past the 64-byte array, and leaves `length == 68` | an append that does not fit is refused, and the tile is left unchanged | medium, not executed | TileBuffer.EndOverrunsFullTile | TileBuffer.Tile.TryAppend |
